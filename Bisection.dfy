/**
 * The arithmetic of the search: the split point, the "steps left" estimate,
 * one round of narrowing, and a whole search driven by truthful answers.
 * The suspect range is the half-open interval [left, right) of indices into
 * the candidate list fixed at start; mid splits it into a disabled half
 * [left, mid) and an enabled half [mid, right).
 */
module Bisection {

  /** get_mid: floor((left + right) / 2); Dafny's `/` by 2 floors, as Math.floor does. */
  function Mid(left: int, right: int): (m: int)
    ensures m + m <= left + right < m + m + 2
    ensures left <= right ==> left <= m <= right
    ensures left + 2 <= right ==> left < m < right
  {
    (left + right) / 2
  }

  function Pow2(k: nat): (p: nat)
    ensures p >= 1
  {
    if k == 0 then 1 else 2 * Pow2(k - 1)
  }

  /** The integer floor of log2 n. */
  function FloorLog2(n: nat): (k: nat)
    requires n >= 1
    ensures Pow2(k) <= n < Pow2(k + 1)
  {
    if n == 1 then 0 else 1 + FloorLog2(n / 2)
  }

  /** The integer ceiling of log2 n: the worst-case number of rounds for n suspects. */
  function CeilLog2(n: nat): (k: nat)
    requires n >= 1
    ensures n <= Pow2(k)
    ensures k > 0 ==> Pow2(k - 1) < n
  {
    if n == 1 then 0 else 1 + CeilLog2((n + 1) / 2)
  }

  /** get_steps_left: floor(log2(right - left)), shown to the user only. */
  function StepsLeft(left: int, right: int): (k: nat)
    requires left < right
    ensures Pow2(k) <= right - left < Pow2(k + 1)
  {
    FloorLog2(right - left)
  }

  /** The enable rule: during a round candidate i is switched on iff mid <= i < right. */
  predicate InEnabledHalf(mid: int, right: int, i: int)
  {
    mid <= i < right
  }

  datatype Range = Range(left: int, right: int, mid: int)

  function Width(s: Range): int
  {
    s.right - s.left
  }

  /** A non-empty suspect range whose split point is the one get_mid gives. */
  predicate WellFormed(s: Range)
  {
    s.left < s.right && s.mid == Mid(s.left, s.right)
  }

  /** Good: the problem is gone with [mid, right) on, so the culprit is in [left, mid). */
  function GoodStep(s: Range): Range
  {
    Range(s.left, s.mid, Mid(s.left, s.mid))
  }

  /** Bad: the problem persists with [mid, right) on, so the culprit is in [mid, right). */
  function BadStep(s: Range): Range
  {
    Range(s.mid, s.right, Mid(s.mid, s.right))
  }

  function Step(s: Range, bad: bool): Range
  {
    if bad then BadStep(s) else GoodStep(s)
  }

  /** A truthful probe: the problem shows (answer Bad) iff the culprit c is switched on. */
  predicate Answer(s: Range, c: int)
  {
    InEnabledHalf(s.mid, s.right, c)
  }

  /** Either answer keeps the range well formed inside the old one and at least halves it. */
  lemma StepShrinks(s: Range, bad: bool)
    requires WellFormed(s) && Width(s) >= 2
    ensures WellFormed(Step(s, bad))
    ensures s.left <= Step(s, bad).left && Step(s, bad).right <= s.right
    ensures Step(s, bad).left <= Step(s, bad).mid <= Step(s, bad).right
    ensures Width(s) / 2 <= Width(Step(s, bad)) <= (Width(s) + 1) / 2 < Width(s)
  {
  }

  /** The culprit stays among the suspects exactly when the answer is the truthful one. */
  lemma StepKeepsCulprit(s: Range, c: int, bad: bool)
    requires WellFormed(s) && Width(s) >= 2
    requires s.left <= c < s.right
    ensures Step(s, bad).left <= c < Step(s, bad).right <==> bad == Answer(s, c)
  {
  }

  /** With no candidates the range [0, 0) is a fixed point of both answers. */
  lemma EmptyRangeIsStuck(s: Range)
    requires s == Range(0, 0, Mid(0, 0))
    ensures GoodStep(s) == s && BadStep(s) == s
    ensures Width(GoodStep(s)) != 1 && Width(BadStep(s)) != 1
  {
  }

  /**
   * A one-suspect range answered Good collapses to the empty range [l, l),
   * from which no answer reaches width 1 again.
   */
  lemma GoodAtWidthOneCollapses(l: int)
    ensures GoodStep(Range(l, l + 1, Mid(l, l + 1))) == Range(l, l, l)
    ensures Width(GoodStep(Range(l, l, l))) == 0 && Width(BadStep(Range(l, l, l))) == 0
  {
  }

  datatype Outcome = Outcome(culprit: int, rounds: nat)

  /**
   * The search answered truthfully for culprit c, round after round, until
   * one suspect is left: the index it reports and the rounds it took.
   */
  function Search(s: Range, c: int): (r: Outcome)
    requires WellFormed(s)
    ensures s.left <= r.culprit < s.right
    ensures Width(s) == 1 <==> r.rounds == 0
    decreases Width(s)
  {
    if Width(s) == 1 then Outcome(s.left, 0)
    else
      var rest := Search(Step(s, Answer(s, c)), c);
      Outcome(rest.culprit, rest.rounds + 1)
  }

  /** One round of a search that has not ended, then the rest of it. */
  lemma SearchUnfold(s: Range, c: int)
    requires WellFormed(s) && Width(s) >= 2
    ensures WellFormed(Step(s, Answer(s, c)))
    ensures Search(s, c).rounds == Search(Step(s, Answer(s, c)), c).rounds + 1
    ensures Search(s, c).culprit == Search(Step(s, Answer(s, c)), c).culprit
  {
  }

  /** A search that starts with the culprit among the suspects reports the culprit. */
  lemma {:induction false} SearchFindsCulprit(s: Range, c: int)
    requires WellFormed(s) && s.left <= c < s.right
    ensures Search(s, c).culprit == c
    decreases Width(s)
  {
    if Width(s) > 1 {
      StepKeepsCulprit(s, c, Answer(s, c));
      SearchFindsCulprit(Step(s, Answer(s, c)), c);
    }
  }

  lemma {:induction false} FloorLog2Monotone(a: nat, b: nat)
    requires 1 <= a <= b
    ensures FloorLog2(a) <= FloorLog2(b)
    decreases b
  {
    if a > 1 {
      FloorLog2Monotone(a / 2, b / 2);
    }
  }

  lemma {:induction false} CeilLog2Monotone(a: nat, b: nat)
    requires 1 <= a <= b
    ensures CeilLog2(a) <= CeilLog2(b)
    decreases b
  {
    if a > 1 {
      CeilLog2Monotone((a + 1) / 2, (b + 1) / 2);
    }
  }

  /**
   * Whatever the culprit, the search takes at least the "steps left" shown at
   * its start and at most ceil(log2 (right - left)) rounds.
   */
  lemma SearchRounds(s: Range, c: int)
    requires WellFormed(s)
    ensures StepsLeft(s.left, s.right) <= Search(s, c).rounds <= CeilLog2(Width(s))
  {
    SearchRoundsAtLeast(s, c);
    SearchRoundsAtMost(s, c);
    assert StepsLeft(s.left, s.right) == FloorLog2(Width(s));
  }

  lemma {:induction false} SearchRoundsAtLeast(s: Range, c: int)
    requires WellFormed(s)
    ensures FloorLog2(Width(s)) <= Search(s, c).rounds
    decreases Width(s)
  {
    var w := Width(s);
    if w > 1 {
      var t := Step(s, Answer(s, c));
      StepShrinks(s, Answer(s, c));
      SearchRoundsAtLeast(t, c);
      FloorLog2Monotone(w / 2, Width(t));
      FloorLog2Unfold(w);
    }
  }

  lemma {:induction false} SearchRoundsAtMost(s: Range, c: int)
    requires WellFormed(s)
    ensures Search(s, c).rounds <= CeilLog2(Width(s))
    decreases Width(s)
  {
    var w := Width(s);
    if w > 1 {
      var t := Step(s, Answer(s, c));
      StepShrinks(s, Answer(s, c));
      SearchRoundsAtMost(t, c);
      CeilLog2Monotone(Width(t), (w + 1) / 2);
      CeilLog2Unfold(w);
    }
  }

  lemma FloorLog2Unfold(w: nat)
    requires w >= 2
    ensures FloorLog2(w) == 1 + FloorLog2(w / 2)
  {
  }

  lemma CeilLog2Unfold(w: nat)
    requires w >= 2
    ensures CeilLog2(w) == 1 + CeilLog2((w + 1) / 2)
  {
  }

  /** The "steps left" estimate is within one round of the worst case. */
  lemma StepsLeftEstimate(n: nat)
    requires n >= 1
    ensures FloorLog2(n) <= CeilLog2(n) <= FloorLog2(n) + 1
  {
    var f, c := FloorLog2(n), CeilLog2(n);
    if c > f + 1 {
      Pow2Monotone(f + 1, c - 1);
    }
    if c < f {
      Pow2Monotone(c + 1, f);
    }
  }

  lemma {:induction false} Pow2Monotone(a: nat, b: nat)
    requires a <= b
    ensures Pow2(a) <= Pow2(b)
    decreases b
  {
    if a < b {
      Pow2Monotone(a, b - 1);
    }
  }
}
