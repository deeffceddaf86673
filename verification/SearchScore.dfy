/**
 The score of a search, `ndcg x precision`, over exact reals and any positive, strictly falling discount.

 A score of 1 is the ideal answer exactly up to ten expected titles. "Ideal" is about which titles come back
 and which one leads: the order of the others is not graded.
 */
module SearchScore {
  import opened Wrappers
  import opened Sorting

  const NDCG_DEPTH: nat := 10

  /** What a search should return: no judgement, nothing, or some titles, one of which may have to lead. */
  datatype Case = Case(expected: Option<seq<string>>, first: Option<string>)

  datatype CaseScore = CaseScore(recall: Option<real>, precision: Option<real>, ndcg: Option<real>, score: real)

  /** `1 / log2(rank + 2)`, or any other discount of its kind. */
  ghost predicate IsDiscount(d: nat -> real) {
    (forall i: nat :: d(i) > 0.0) && forall i: nat, j: nat :: i < j ==> d(i) > d(j)
  }

  // ---- Scoring ---------------------------------------------------------------------------------------

  /** The keys of `dict.fromkeys`, in order. */
  function Distinct(titles: seq<string>): seq<string> {
    if titles == [] then []
    else
      var n := |titles| - 1;
      var before := Distinct(titles[..n]);
      if titles[n] in before then before else before + [titles[n]]
  }

  function Gain(c: Case, title: string): real {
    if c.expected.None? || title !in c.expected.value then 0.0
    else if c.first == Some(title) then 2.0
    else 1.0
  }

  function Gains(c: Case, titles: seq<string>): (g: seq<real>)
    ensures |g| == |titles| && forall i :: 0 <= i < |g| ==> g[i] == Gain(c, titles[i])
  {
    seq(|titles|, i requires 0 <= i < |titles| => Gain(c, titles[i]))
  }

  /** The discounted sum of the gains from position `rank` on, down to the depth. */
  function Dcg(d: nat -> real, gains: seq<real>, rank: nat): real {
    if gains == [] || rank >= NDCG_DEPTH then 0.0 else gains[0] * d(rank) + Dcg(d, gains[1..], rank + 1)
  }

  predicate AtLeast(x: real, y: real) { x >= y }

  function Ideal(d: nat -> real, c: Case): real
    requires c.expected.Some?
  {
    Dcg(d, Sort(AtLeast, Gains(c, Distinct(c.expected.value))), 0)
  }

  function Found(c: Case, returned: seq<string>): seq<string>
    requires c.expected.Some?
  {
    Filter(t => t in c.expected.value, returned)
  }

  function AsSet(titles: seq<string>): set<string> {
    set t | t in titles
  }

  function Recall(c: Case, returned: seq<string>): real
    requires c.expected.Some? && c.expected.value != []
  {
    assert c.expected.value[0] in AsSet(c.expected.value);
    |AsSet(Found(c, returned))| as real / |AsSet(c.expected.value)| as real
  }

  function Precision(c: Case, returned: seq<string>): real
    requires c.expected.Some?
  {
    if returned == [] then 0.0 else |Found(c, returned)| as real / |returned| as real
  }

  function ScoreCase(d: nat -> real, c: Case, returned: seq<string>): Option<CaseScore>
    requires IsDiscount(d)
  {
    if c.expected.None? then None
    else if c.expected.value == [] then Some(CaseScore(None, None, None, if returned == [] then 1.0 else 0.0))
    else
      IdealIsTheBest(d, c);
      var precision := Precision(c, returned);
      var ndcg := Dcg(d, Gains(c, returned), 0) / Ideal(d, c);
      Some(CaseScore(Some(Recall(c, returned)), Some(precision), Some(ndcg), ndcg * precision))
  }

  // ---- The gains as two sets of hits -----------------------------------------------------------------

  function Expected(c: Case): set<string> {
    if c.expected.Some? then AsSet(c.expected.value) else {}
  }

  /** The title that has to lead, if there is one and it is expected. */
  function Leader(c: Case): set<string> {
    if c.first.Some? && c.first.value in Expected(c) then {c.first.value} else {}
  }

  /** The discounts of the positions whose title is in `s`. */
  function HitSum(d: nat -> real, s: set<string>, titles: seq<string>, rank: nat): real {
    if titles == [] || rank >= NDCG_DEPTH then 0.0
    else (if titles[0] in s then d(rank) else 0.0) + HitSum(d, s, titles[1..], rank + 1)
  }

  /** The discounts of the first `k` positions from `rank` on. */
  function Prefix(d: nat -> real, rank: nat, k: nat): real
    decreases k
  {
    if k == 0 || rank >= NDCG_DEPTH then 0.0 else d(rank) + Prefix(d, rank + 1, k - 1)
  }

  lemma {:induction false} DcgIsTwoHitSums(d: nat -> real, c: Case, titles: seq<string>, rank: nat)
    ensures Dcg(d, Gains(c, titles), rank) == HitSum(d, Expected(c), titles, rank) + HitSum(d, Leader(c), titles, rank)
    decreases |titles|
  {
    if titles != [] && rank < NDCG_DEPTH {
      DcgIsTwoHitSums(d, c, titles[1..], rank + 1);
      assert Gains(c, titles)[1..] == Gains(c, titles[1..]);
      var expected := if titles[0] in Expected(c) then 1.0 else 0.0;
      var leading := if titles[0] in Leader(c) then 1.0 else 0.0;
      assert Gain(c, titles[0]) == expected + leading;
      assert 2.0 * d(rank) == d(rank) + d(rank);
    }
  }

  lemma {:induction false} PrefixFalls(d: nat -> real, rank: nat, k: nat)
    requires IsDiscount(d)
    ensures Prefix(d, rank, k) >= 0.0
    ensures Prefix(d, rank + 1, k) <= Prefix(d, rank, k)
    ensures k > 0 && rank < NDCG_DEPTH ==> Prefix(d, rank + 1, k) < Prefix(d, rank, k) && Prefix(d, rank, k) > 0.0
    decreases k
  {
    if k > 0 && rank < NDCG_DEPTH {
      PrefixFalls(d, rank + 1, k - 1);
      assert d(rank) > d(rank + 1);
    }
  }

  /** The first positions, as many as `s` has titles, all hold one of them. */
  predicate LeadsWith(s: set<string>, titles: seq<string>, rank: nat) {
    forall i :: 0 <= i < |s| && rank + i < NDCG_DEPTH ==> HoldsAt(s, titles, i)
  }

  predicate HoldsAt(s: set<string>, titles: seq<string>, i: nat) {
    i < |titles| && titles[i] in s
  }

  lemma {:induction false} HitSumWithout(d: nat -> real, s: set<string>, t: set<string>, titles: seq<string>, rank: nat)
    requires forall x :: x in titles ==> (x in s <==> x in t)
    ensures HitSum(d, s, titles, rank) == HitSum(d, t, titles, rank)
    decreases |titles|
  {
    if titles != [] && rank < NDCG_DEPTH { HitSumWithout(d, s, t, titles[1..], rank + 1); }
  }

  /** The rearrangement: distinct titles earn most when those of `s` lead, and only then. */
  lemma {:induction false} HitsAreBounded(d: nat -> real, s: set<string>, titles: seq<string>, rank: nat)
    requires IsDiscount(d) && NoRepeats(titles)
    ensures 0.0 <= HitSum(d, s, titles, rank) <= Prefix(d, rank, |s|)
    ensures HitSum(d, s, titles, rank) == Prefix(d, rank, |s|) <==> LeadsWith(s, titles, rank)
    decreases |titles|
  {
    PrefixFalls(d, rank, |s|);
    if titles == [] {
      if |s| > 0 && rank < NDCG_DEPTH { assert !HoldsAt(s, titles, 0); }
    } else if rank < NDCG_DEPTH {
      var x, rest := titles[0], titles[1..];
      if x in s {
        HitsAreBounded(d, s - {x}, rest, rank + 1);
        HitSumWithout(d, s, s - {x}, rest, rank + 1);
        LeadsOnAfter(s, titles, rank);
      } else {
        HitsAreBounded(d, s, rest, rank + 1);
        NoLead(s, titles, rank);
      }
    }
  }

  lemma LeadsOnAfter(s: set<string>, titles: seq<string>, rank: nat)
    requires NoRepeats(titles) && titles != [] && titles[0] in s && rank < NDCG_DEPTH
    ensures LeadsWith(s, titles, rank) <==> LeadsWith(s - {titles[0]}, titles[1..], rank + 1)
  {
    var t, rest := s - {titles[0]}, titles[1..];
    assert |t| == |s| - 1;
    if LeadsWith(s, titles, rank) {
      forall i | 0 <= i < |t| && rank + 1 + i < NDCG_DEPTH ensures HoldsAt(t, rest, i) {
        assert HoldsAt(s, titles, i + 1) && titles[i + 1] != titles[0];
      }
    }
    if LeadsWith(t, rest, rank + 1) {
      forall i | 0 <= i < |s| && rank + i < NDCG_DEPTH ensures HoldsAt(s, titles, i) {
        if i > 0 { assert HoldsAt(t, rest, i - 1); }
      }
    }
  }

  lemma NoLead(s: set<string>, titles: seq<string>, rank: nat)
    requires titles != [] && titles[0] !in s && rank < NDCG_DEPTH
    ensures LeadsWith(s, titles, rank) <==> s == {}
  {
    if s != {} {
      assert |s| > 0;
      assert !HoldsAt(s, titles, 0);
    }
  }

  // ---- The ideal -------------------------------------------------------------------------------------

  lemma {:induction false} DistinctTitles(titles: seq<string>)
    ensures NoRepeats(Distinct(titles)) && (forall t :: t in Distinct(titles) <==> t in titles)
    ensures |Distinct(titles)| == |AsSet(titles)|
  {
    if titles != [] {
      var n := |titles| - 1;
      DistinctTitles(titles[..n]);
      assert titles == titles[..n] + [titles[n]];
    }
    SizeOfDistinct(Distinct(titles));
    assert AsSet(Distinct(titles)) == AsSet(titles);
  }

  lemma {:induction false} SizeOfDistinct(titles: seq<string>)
    requires NoRepeats(titles)
    ensures |AsSet(titles)| == |titles|
  {
    if titles != [] {
      SizeOfDistinct(titles[1..]);
      assert titles == [titles[0]] + titles[1..];
      assert AsSet(titles) == {titles[0]} + AsSet(titles[1..]);
    }
  }

  function ByGain(c: Case): (string, string) -> bool {
    (a, b) => Gain(c, a) >= Gain(c, b)
  }

  lemma {:induction false} GainsOfInsert(c: Case, t: string, titles: seq<string>)
    ensures Gains(c, Insert(ByGain(c), t, titles)) == Insert(AtLeast, Gain(c, t), Gains(c, titles))
  {
    hide Gain;
    if titles != [] {
      assert Gains(c, titles)[1..] == Gains(c, titles[1..]);
      if ByGain(c)(t, titles[0]) {
        assert Insert(ByGain(c), t, titles) == [t] + titles;
      } else {
        GainsOfInsert(c, t, titles[1..]);
      }
    }
  }

  lemma {:induction false} GainsOfSorted(c: Case, titles: seq<string>)
    ensures Gains(c, Sort(ByGain(c), titles)) == Sort(AtLeast, Gains(c, titles))
  {
    hide Gain;
    if titles != [] {
      GainsOfSorted(c, titles[1..]);
      assert Gains(c, titles)[1..] == Gains(c, titles[1..]);
      GainsOfInsert(c, titles[0], Sort(ByGain(c), titles[1..]));
    }
  }

  /** The expected titles in an order that earns the most: the leader first. */
  lemma BestOrder(c: Case) returns (best: seq<string>)
    requires c.expected.Some?
    ensures NoRepeats(best) && LeadsWith(Expected(c), best, 0) && LeadsWith(Leader(c), best, 0)
    ensures Gains(c, best) == Sort(AtLeast, Gains(c, Distinct(c.expected.value)))
  {
    var titles := Distinct(c.expected.value);
    best := Sort(ByGain(c), titles);
    DistinctTitles(c.expected.value);
    GainsOfSorted(c, titles);
    SortMultiset(ByGain(c), titles);
    PermutationHasNoRepeats(best, titles);
    SortMembers(ByGain(c), titles);
    assert forall i :: 0 <= i < |best| ==> best[i] in best;
    SortIsSorted(ByGain(c), titles);
    if Leader(c) != {} { LeaderIsFirst(c, best); }
  }

  lemma LeaderIsFirst(c: Case, best: seq<string>)
    requires c.expected.Some? && Sorted(ByGain(c), best) && NoRepeats(best)
    requires Leader(c) != {} && c.first.value in best
    ensures best[0] == c.first.value
  {
  }

  lemma IdealIsTheBest(d: nat -> real, c: Case)
    requires IsDiscount(d) && c.expected.Some?
    ensures Ideal(d, c) == Prefix(d, 0, |Expected(c)|) + Prefix(d, 0, |Leader(c)|)
    ensures c.expected.value != [] ==> Ideal(d, c) > 0.0
  {
    var best := BestOrder(c);
    DcgIsTwoHitSums(d, c, best, 0);
    HitsAreBounded(d, Expected(c), best, 0);
    HitsAreBounded(d, Leader(c), best, 0);
    PrefixFalls(d, 0, |Expected(c)|);
    PrefixFalls(d, 0, |Leader(c)|);
    if c.expected.value != [] { assert c.expected.value[0] in Expected(c); }
  }

  // ---- What a score means ----------------------------------------------------------------------------

  lemma Ratio(a: real, b: real)
    requires 0.0 <= a <= b && b > 0.0
    ensures 0.0 <= a / b <= 1.0 && (a / b == 1.0 <==> a == b)
  {
  }

  lemma Product(x: real, y: real)
    requires 0.0 <= x <= 1.0 && 0.0 <= y <= 1.0
    ensures 0.0 <= x * y <= 1.0 && (x * y == 1.0 <==> x == 1.0 && y == 1.0)
  {
    assert x * y <= y && x * y <= x;
  }

  lemma PrecisionIsOneWhenAllFound(c: Case, returned: seq<string>)
    requires c.expected.Some?
    ensures 0.0 <= Precision(c, returned) <= 1.0
    ensures Precision(c, returned) == 1.0 <==> returned != [] && forall t :: t in returned ==> t in Expected(c)
  {
    var keep := t => t in c.expected.value;
    FilterMembers(keep, returned);
    if returned != [] {
      Ratio(|Found(c, returned)| as real, |returned| as real);
      AllFound(keep, returned);
    }
  }

  lemma {:induction false} AllFound(keep: string -> bool, s: seq<string>)
    ensures |Filter(keep, s)| == |s| <==> forall x :: x in s ==> keep(x)
    ensures |Filter(keep, s)| <= |s|
  {
    if s != [] {
      AllFound(keep, s[1..]);
      assert s == [s[0]] + s[1..];
    }
  }

  /** The positions that hold an expected title. */
  function HitCount(c: Case, returned: seq<string>): nat {
    if returned == [] then 0 else (if returned[0] in Expected(c) then 1 else 0) + HitCount(c, returned[1..])
  }

  lemma {:induction false} FoundAreHits(c: Case, returned: seq<string>)
    requires c.expected.Some?
    ensures |Found(c, returned)| == HitCount(c, returned)
    ensures forall t :: t in Found(c, returned) <==> t in returned && t in Expected(c)
  {
    FilterMembers(t => t in c.expected.value, returned);
    if returned != [] { FoundAreHits(c, returned[1..]); }
  }

  /** What each number of a score is: the part of the expected titles that came back, the part of the answer that was
      expected, the gain of the order over the best there is, and the product of the last two. */
  lemma ScoreMeans(d: nat -> real, c: Case, returned: seq<string>)
    requires IsDiscount(d) && c.expected.Some? && c.expected.value != []
    ensures ScoreCase(d, c, returned).Some?
    ensures var s := ScoreCase(d, c, returned).value;
            && s.recall.Some? && s.precision.Some? && s.ndcg.Some? && s.score == s.ndcg.value * s.precision.value
            && s.recall.value * |Expected(c)| as real == |AsSet(returned) * Expected(c)| as real
            && s.precision.value * |returned| as real == HitCount(c, returned) as real
            && s.ndcg.value * (Prefix(d, 0, |Expected(c)|) + Prefix(d, 0, |Leader(c)|)) ==
               HitSum(d, Expected(c), returned, 0) + HitSum(d, Leader(c), returned, 0)
  {
    hide *;
    RecallMeans(c, returned);
    PrecisionMeans(c, returned);
    NdcgMeans(d, c, returned);
    ScoreIs(d, c, returned);
  }

  lemma ScoreIs(d: nat -> real, c: Case, returned: seq<string>)
    requires IsDiscount(d) && c.expected.Some? && c.expected.value != [] && Ideal(d, c) > 0.0
    ensures ScoreCase(d, c, returned).Some?
    ensures var s := ScoreCase(d, c, returned).value;
            && s.recall == Some(Recall(c, returned)) && s.precision == Some(Precision(c, returned))
            && s.ndcg == Some(Dcg(d, Gains(c, returned), 0) / Ideal(d, c))
            && s.score == s.ndcg.value * s.precision.value
  {
    hide Recall, Precision, Dcg, Ideal, Gains, IsDiscount, Expected, Leader, Prefix;
  }

  lemma RecallMeans(c: Case, returned: seq<string>)
    requires c.expected.Some? && c.expected.value != []
    ensures Recall(c, returned) * |Expected(c)| as real == |AsSet(returned) * Expected(c)| as real
  {
    FoundAreHits(c, returned);
    assert c.expected.value[0] in Expected(c);
    assert AsSet(Found(c, returned)) == AsSet(returned) * Expected(c);
    hide Found, AsSet;
    Quotient(|AsSet(returned) * Expected(c)| as real, |Expected(c)| as real);
  }

  lemma PrecisionMeans(c: Case, returned: seq<string>)
    requires c.expected.Some?
    ensures Precision(c, returned) * |returned| as real == HitCount(c, returned) as real
  {
    hide *;
    FoundAreHits(c, returned);
    PrecisionIsAShare(c, returned);
    Share(Precision(c, returned), HitCount(c, returned), |returned|);
  }

  lemma PrecisionIsAShare(c: Case, returned: seq<string>)
    requires c.expected.Some?
    ensures returned != [] ==> Precision(c, returned) == |Found(c, returned)| as real / |returned| as real
    ensures returned == [] ==> HitCount(c, returned) == 0
  {
    hide Found;
  }

  lemma Share(x: real, part: nat, whole: nat)
    requires if whole > 0 then x == part as real / whole as real else part == 0
    ensures x * whole as real == part as real
  {
    if whole > 0 { Quotient(part as real, whole as real); } else { assert whole as real == 0.0; }
  }

  lemma NdcgMeans(d: nat -> real, c: Case, returned: seq<string>)
    requires IsDiscount(d) && c.expected.Some? && c.expected.value != []
    ensures Ideal(d, c) > 0.0
    ensures Dcg(d, Gains(c, returned), 0) / Ideal(d, c) *
            (Prefix(d, 0, |Expected(c)|) + Prefix(d, 0, |Leader(c)|)) ==
            HitSum(d, Expected(c), returned, 0) + HitSum(d, Leader(c), returned, 0)
  {
    hide *;
    IdealIsTheBest(d, c);
    DcgIsTwoHitSums(d, c, returned, 0);
    TimesItself(Dcg(d, Gains(c, returned), 0), Ideal(d, c), Prefix(d, 0, |Expected(c)|) + Prefix(d, 0, |Leader(c)|));
  }

  lemma TimesItself(a: real, b: real, c: real)
    requires b > 0.0 && c == b
    ensures a / b * c == a
  {
  }

  lemma Quotient(a: real, b: real)
    requires b > 0.0
    ensures a / b * b == a
  {
  }

  /** A search that should find nothing scores 1 when it does and 0 otherwise; without a judgement there is no score. */
  lemma EmptyExpectation(d: nat -> real, c: Case, returned: seq<string>)
    requires IsDiscount(d)
    ensures c.expected.None? <==> ScoreCase(d, c, returned).None?
    ensures c.expected == Some([]) ==>
              ScoreCase(d, c, returned) == Some(CaseScore(None, None, None, if returned == [] then 1.0 else 0.0))
  {
  }

  /** For duplicate-free results the gain of the order, and the score, lie between 0 and 1. */
  lemma ScoresAreFractions(d: nat -> real, c: Case, returned: seq<string>)
    requires IsDiscount(d) && NoRepeats(returned) && ScoreCase(d, c, returned).Some?
    ensures 0.0 <= ScoreCase(d, c, returned).value.score <= 1.0
    ensures ScoreCase(d, c, returned).value.ndcg.Some? ==> 0.0 <= ScoreCase(d, c, returned).value.ndcg.value <= 1.0
  {
    if c.expected.value != [] { NdcgIsAFraction(d, c, returned); }
  }

  lemma AtMostIdeal(d: nat -> real, c: Case, returned: seq<string>)
    requires IsDiscount(d) && NoRepeats(returned) && c.expected.Some? && c.expected.value != []
    ensures 0.0 <= Dcg(d, Gains(c, returned), 0) <= Ideal(d, c) && Ideal(d, c) > 0.0
    ensures Dcg(d, Gains(c, returned), 0) == Ideal(d, c) <==>
            LeadsWith(Expected(c), returned, 0) && LeadsWith(Leader(c), returned, 0)
  {
    IdealIsTheBest(d, c);
    hide *;
    DcgIsTwoHitSums(d, c, returned, 0);
    HitsAreBounded(d, Expected(c), returned, 0);
    HitsAreBounded(d, Leader(c), returned, 0);
  }

  lemma NdcgIsAFraction(d: nat -> real, c: Case, returned: seq<string>)
    requires IsDiscount(d) && NoRepeats(returned) && c.expected.Some? && c.expected.value != []
    ensures ScoreCase(d, c, returned).Some? && ScoreCase(d, c, returned).value.ndcg.Some?
    ensures var ndcg, precision := ScoreCase(d, c, returned).value.ndcg.value, Precision(c, returned);
            && 0.0 <= ndcg <= 1.0 && 0.0 <= ndcg * precision <= 1.0
            && ScoreCase(d, c, returned).value.score == ndcg * precision
            && (ndcg == 1.0 <==> LeadsWith(Expected(c), returned, 0) && LeadsWith(Leader(c), returned, 0))
            && (ndcg * precision == 1.0 <==> ndcg == 1.0 && precision == 1.0)
  {
    hide Ideal, Dcg, LeadsWith, Expected, Leader, Precision, Gains, Recall, IsDiscount, NoRepeats;
    AtMostIdeal(d, c, returned);
    PrecisionIsOneWhenAllFound(c, returned);
    Ratio(Dcg(d, Gains(c, returned), 0), Ideal(d, c));
    Product(Dcg(d, Gains(c, returned), 0) / Ideal(d, c), Precision(c, returned));
  }

  /** Only expected titles, at least ten of them or all, and the one that has to lead leads. */
  ghost predicate IsIdealToTheDepth(c: Case, returned: seq<string>) {
    && (forall t :: t in returned ==> t in Expected(c))
    && (|returned| >= |Expected(c)| || |returned| >= NDCG_DEPTH)
    && (Leader(c) != {} ==> returned != [] && returned[0] in Leader(c))
  }

  /** All the expected titles and nothing else, led by the one that has to lead. */
  ghost predicate IsIdealAnswer(c: Case, returned: seq<string>) {
    AsSet(returned) == Expected(c) && (Leader(c) != {} ==> returned != [] && returned[0] in Leader(c))
  }

  /** The exact meaning of a score of 1, for any number of expected titles. */
  lemma ScoreOneExactlyWhen(d: nat -> real, c: Case, returned: seq<string>)
    requires IsDiscount(d) && NoRepeats(returned) && ScoreCase(d, c, returned).Some?
    ensures ScoreCase(d, c, returned).value.score == 1.0 <==> IsIdealToTheDepth(c, returned)
  {
    if c.expected.value == [] {
      assert Expected(c) == {} && Leader(c) == {};
      if returned != [] { assert returned[0] in returned; }
    } else {
      assert c.expected.value[0] in Expected(c);
      NdcgIsAFraction(d, c, returned);
      PrecisionIsOneWhenAllFound(c, returned);
      hide ScoreCase, Precision, Expected, Leader;
      LeadsWhenAllExpected(Expected(c), returned);
      LeaderLeads(c, returned);
    }
  }

  lemma LeadsWhenAllExpected(s: set<string>, returned: seq<string>)
    requires s != {}
    ensures (forall t :: t in returned ==> t in s) ==>
              (LeadsWith(s, returned, 0) <==> |returned| >= |s| || |returned| >= NDCG_DEPTH)
    ensures LeadsWith(s, returned, 0) ==> returned != []
  {
    assert |s| > 0;
    if LeadsWith(s, returned, 0) {
      assert HoldsAt(s, returned, 0);
      assert !HoldsAt(s, returned, |returned|);
    }
  }

  lemma LeaderLeads(c: Case, returned: seq<string>)
    ensures LeadsWith(Leader(c), returned, 0) <==> (Leader(c) != {} ==> returned != [] && returned[0] in Leader(c))
  {
    if Leader(c) != {} {
      assert |Leader(c)| == 1;
      assert LeadsWith(Leader(c), returned, 0) <==> HoldsAt(Leader(c), returned, 0);
    }
  }

  lemma SubsetOfSize(s: set<string>, t: set<string>)
    requires s <= t && |s| >= |t|
    ensures s == t
  {
    if s != t {
      var x :| x in t && x !in s;
      assert s <= t - {x};
      SubsetIsSmaller(s, t - {x});
    }
  }

  lemma {:induction false} SubsetIsSmaller(s: set<string>, t: set<string>)
    requires s <= t
    ensures |s| <= |t|
  {
    if s != {} {
      var x :| x in s;
      SubsetIsSmaller(s - {x}, t - {x});
    }
  }

  /** Up to ten expected titles a duplicate-free result scores 1 exactly when it is the ideal answer. */
  lemma ScoreOneIsTheIdealAnswer(d: nat -> real, c: Case, returned: seq<string>)
    requires IsDiscount(d) && NoRepeats(returned) && ScoreCase(d, c, returned).Some?
    requires |Expected(c)| <= 10
    ensures ScoreCase(d, c, returned).value.score == 1.0 <==> IsIdealAnswer(c, returned)
  {
    ScoreOneExactlyWhen(d, c, returned);
    hide ScoreCase, Expected, Leader;
    SizeOfDistinct(returned);
    if IsIdealToTheDepth(c, returned) { SubsetOfSize(AsSet(returned), Expected(c)); }
    if IsIdealAnswer(c, returned) { assert forall t :: t in returned ==> t in AsSet(returned); }
  }

  /** With more than ten, ten of them led by the right one score 1 as well: what is missing is not seen. */
  lemma MissingTitlesAreNotSeen(d: nat -> real, c: Case, returned: seq<string>)
    requires IsDiscount(d) && NoRepeats(returned) && ScoreCase(d, c, returned).Some?
    requires |returned| == 10 < |Expected(c)| && (forall t :: t in returned ==> t in Expected(c))
    requires Leader(c) != {} ==> returned[0] in Leader(c)
    ensures ScoreCase(d, c, returned).value.score == 1.0 && !IsIdealAnswer(c, returned)
  {
    ScoreOneExactlyWhen(d, c, returned);
    SizeOfDistinct(returned);
  }
}
