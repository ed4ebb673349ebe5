/** The computations of js/app.js that do not touch the session: the timer
    text, the score of the results screen, the colour band of a progress
    badge, and the in-place shuffle of a question list. */
module App {
  import opened Builtins
  import opened Data

  // ---------------------------------------------------------------------
  // formatTime

  /** The seconds field of formatTime: a leading '0' below ten. */
  function SecondsField(remaining: nat): string {
    (if remaining < 10 then "0" else "") + NatToString(remaining)
  }

  /** formatTime(seconds) for the timer's non-negative count: the minutes,
      then a colon and two digits of seconds at the end. */
  function FormatTime(seconds: nat): (r: string)
    ensures |r| >= 4 && r[|r| - 3] == ':' && AllDigits(r[|r| - 2..]) && AllDigits(r[..|r| - 3])
  {
    SecondsFieldDigits(seconds % 60);
    var minutes := NatToString(seconds / 60);
    var field := SecondsField(seconds % 60);
    assert (minutes + ":" + field)[..|minutes|] == minutes;
    assert (minutes + ":" + field)[|minutes| + 1..] == field;
    minutes + ":" + field
  }

  /** The seconds field always has two digits, and its value is the
      remainder it was written from. */
  lemma SecondsFieldDigits(remaining: nat)
    requires remaining < 60
    ensures |SecondsField(remaining)| == 2 && AllDigits(SecondsField(remaining))
    ensures DigitsValue(SecondsField(remaining)) == remaining
  {
    var f := SecondsField(remaining);
    if remaining < 10 {
      assert f == ['0', DigitChar(remaining)];
      assert f[..1] == ['0'];
      assert DigitsValue(f[..1]) == 10 * DigitsValue([]) + 0;
    } else {
      assert NatToString(remaining) == NatToString(remaining / 10) + [DigitChar(remaining % 10)];
      DigitsValueOfNatToString(remaining);
    }
  }

  /** formatTime(s) is the minutes, a colon and a two-digit seconds field
      below 60, and reading both fields back gives s again. */
  lemma FormatTimeReadsBack(seconds: nat)
    ensures var parts := Split(FormatTime(seconds), ':');
      && |parts| == 2
      && |parts[1]| == 2 && AllDigits(parts[0]) && AllDigits(parts[1])
      && DigitsValue(parts[1]) < 60
      && 60 * DigitsValue(parts[0]) + DigitsValue(parts[1]) == seconds
  {
    var minutes := NatToString(seconds / 60);
    var field := SecondsField(seconds % 60);
    SecondsFieldDigits(seconds % 60);
    assert FormatTime(seconds) == minutes + [':'] + field;
    SplitAround(minutes, ':', field);
    DigitsValueOfNatToString(seconds / 60);
  }

  // ---------------------------------------------------------------------
  // finishQuiz

  /** The score of finishQuiz: 0 when nothing was answered, and otherwise
      the nearest whole percentage of correct answers, a half rounded up. */
  function Score(correctAnswers: nat, incorrectAnswers: nat): (score: int)
    ensures 0 <= score <= 100
    ensures correctAnswers + incorrectAnswers == 0 ==> score == 0
    ensures correctAnswers + incorrectAnswers > 0 ==>
              NearestPercent(score, correctAnswers, correctAnswers + incorrectAnswers)
    ensures correctAnswers == 0 ==> score == 0
    ensures correctAnswers > 0 && incorrectAnswers == 0 ==> score == 100
  {
    var totalQuestions := correctAnswers + incorrectAnswers;
    if totalQuestions > 0 then Percent(correctAnswers, totalQuestions) else 0
  }

  /** One more correct answer never lowers the score, and one more wrong
      answer never raises it. */
  lemma ScoreMonotone(correctAnswers: nat, incorrectAnswers: nat)
    ensures Score(correctAnswers, incorrectAnswers) <= Score(correctAnswers + 1, incorrectAnswers)
    ensures Score(correctAnswers, incorrectAnswers + 1) <= Score(correctAnswers, incorrectAnswers)
  {
    var n := correctAnswers + incorrectAnswers;
    if n > 0 {
      PercentShift(correctAnswers, n);
      PercentShift(correctAnswers, n + 1);
    }
  }

  /** k of n rounds to no more than k + 1 of n + 1, and to no less than k of
      n + 1. */
  lemma PercentShift(k: nat, n: nat)
    requires 0 < n && k <= n
    ensures Percent(k, n + 1) <= Percent(k, n) <= Percent(k + 1, n + 1)
  {
    var a := k as real / n as real;
    var b := k as real / (n + 1) as real;
    var c := (k + 1) as real / (n + 1) as real;
    LargerDenominator(k as real, n as real);
    OneMoreOfOneMore(k as real, n as real);
    MulAtMost(b, a, 100.0);
    MulAtMost(a, c, 100.0);
    RoundMonotonic(b * 100.0, a * 100.0);
    RoundMonotonic(a * 100.0, c * 100.0);
  }

  lemma LargerDenominator(k: real, n: real)
    requires 0.0 <= k && 0.0 < n
    ensures k / (n + 1.0) <= k / n
  {
    var a := k / n;
    var b := k / (n + 1.0);
    DivBounds(k, n);
    DivBounds(k, n + 1.0);
    assert b * n + b == k;
    if b > a {
      MulStrict(a, b, n);
    }
  }

  lemma OneMoreOfOneMore(k: real, n: real)
    requires 0.0 <= k <= n && 0.0 < n
    ensures k / n <= (k + 1.0) / (n + 1.0)
  {
    var a := k / n;
    var c := (k + 1.0) / (n + 1.0);
    DivBounds(k, n);
    DivBounds(k + 1.0, n + 1.0);
    assert c * n + c == k + 1.0 && a * n == k && c <= 1.0;
    if a > c {
      MulStrict(c, a, n);
    }
  }

  // ---------------------------------------------------------------------
  // The colour of a progress badge

  /** The Bootstrap class of a module badge or of the overall bar for a
      progress percentage. */
  function ProgressBand(progress: int): (r: string)
    ensures r in {"bg-success", "bg-warning", "bg-primary"}
  {
    if progress >= 80 then "bg-success" else if progress >= 40 then "bg-warning" else "bg-primary"
  }

  /** Each band is chosen exactly on its range: success from 80, warning
      from 40 below 80, primary below 40; the three are distinct, so a
      badge shows exactly one. */
  lemma ProgressBandRanges(progress: int)
    ensures ProgressBand(progress) == "bg-success" <==> progress >= 80
    ensures ProgressBand(progress) == "bg-warning" <==> 40 <= progress < 80
    ensures ProgressBand(progress) == "bg-primary" <==> progress < 40
  {
    assert "bg-success"[3] != "bg-warning"[3];
    assert "bg-success"[3] != "bg-primary"[3];
    assert "bg-warning"[3] != "bg-primary"[3];
  }

  // ---------------------------------------------------------------------
  // shuffleArray

  /** s with positions i and j exchanged. */
  function Swap<T>(s: seq<T>, i: nat, j: nat): (r: seq<T>)
    requires i < |s| && j < |s|
    ensures |r| == |s| && r[i] == s[j] && r[j] == s[i]
    ensures forall k :: 0 <= k < |s| && k != i && k != j ==> r[k] == s[k]
  {
    s[i := s[j]][j := s[i]]
  }

  /** The values Math.random may yield, scaled: the step that handles
      position i (the steps run i = n - 1 down to 1 and step k handles
      i = n - 1 - k) swaps it with choices[k], which is at most i. */
  ghost predicate ValidChoices(n: nat, choices: seq<nat>) {
    && |choices| >= n - 1
    && forall k :: 0 <= k < n - 1 ==> choices[k] <= n - 1 - k
  }

  /** The steps of the shuffle that handle positions i down to 1, applied
      to s. */
  function ShuffleFrom<T>(s: seq<T>, choices: seq<nat>, i: int): (r: seq<T>)
    requires ValidChoices(|s|, choices) && i < |s|
    ensures |r| == |s|
    decreases i
  {
    if i <= 0 then s
    else ShuffleFrom(Swap(s, i, choices[|s| - 1 - i]), choices, i - 1)
  }

  /** The order shuffleArray leaves s in when Math.random gives choices. */
  function Shuffle<T>(s: seq<T>, choices: seq<nat>): (r: seq<T>)
    requires ValidChoices(|s|, choices)
    ensures |r| == |s| && multiset(r) == multiset(s)
  {
    ShuffleFromPermutes(s, choices, |s| - 1);
    ShuffleFrom(s, choices, |s| - 1)
  }

  lemma SwapPermutes<T>(s: seq<T>, i: nat, j: nat)
    requires i < |s| && j < |s|
    ensures multiset(Swap(s, i, j)) == multiset(s)
  {
    var u := s[i := s[j]];
    assert multiset(u) == multiset(s) - multiset{s[i]} + multiset{s[j]};
    assert multiset(u[j := s[i]]) == multiset(u) - multiset{u[j]} + multiset{s[i]};
  }

  /** Every run of steps only exchanges elements: the result is a
      permutation of where it started. */
  lemma {:induction false} ShuffleFromPermutes<T>(s: seq<T>, choices: seq<nat>, i: int)
    requires ValidChoices(|s|, choices) && i < |s|
    ensures multiset(ShuffleFrom(s, choices, i)) == multiset(s)
    decreases i
  {
    if i > 0 {
      var t := Swap(s, i, choices[|s| - 1 - i]);
      SwapPermutes(s, i, choices[|s| - 1 - i]);
      ShuffleFromPermutes(t, choices, i - 1);
    }
  }

  /** shuffleArray leaves a permutation of its input of the same length. */
  lemma ShufflePermutes<T>(s: seq<T>, choices: seq<nat>)
    requires ValidChoices(|s|, choices)
    ensures |Shuffle(s, choices)| == |s|
    ensures multiset(Shuffle(s, choices)) == multiset(s)
  {
    ShuffleFromPermutes(s, choices, |s| - 1);
  }

  /** When every step swaps its position with itself the order stays. */
  lemma {:induction false} StayingChoicesKeepOrder<T>(s: seq<T>, choices: seq<nat>, i: int)
    requires ValidChoices(|s|, choices) && i < |s|
    requires forall k :: 0 <= k < |s| - 1 ==> choices[k] == |s| - 1 - k
    ensures ShuffleFrom(s, choices, i) == s
    decreases i
  {
    if i > 0 {
      assert Swap(s, i, choices[|s| - 1 - i]) == s;
      StayingChoicesKeepOrder(s, choices, i - 1);
    }
  }

  /** shuffleArray(a) with the random draws given as choices. */
  method ShuffleArray<T>(a: array<T>, choices: seq<nat>)
    requires ValidChoices(a.Length, choices)
    modifies a
    ensures a[..] == Shuffle(old(a[..]), choices)
    ensures multiset(a[..]) == multiset(old(a[..]))
  {
    ghost var start := a[..];
    ghost var target := Shuffle(start, choices);
    var i := a.Length - 1;
    while i > 0
      invariant i < a.Length
      invariant |a[..]| == |start|
      invariant ShuffleFrom(a[..], choices, i) == target
      decreases i
    {
      var j := choices[a.Length - 1 - i];
      ghost var before := a[..];
      a[i], a[j] := a[j], a[i];
      assert a[..] == Swap(before, i, j);
      i := i - 1;
    }
  }
}
