/** The top-level feed: the recommended catalogs in the repository's order, filtered and ranked by language. */
module Feed {
  import opened Wrappers
  import opened Lifecycle
  import opened Catalogs
  import opened Restrictions
  import opened Sorting
  import Language

  datatype Entry = Entry(id: CatalogId, row: CatalogRow)

  // ---- The repository's order ------------------------------------------------------------------------

  predicate Listed(e: Entry) {
    e.row.life.recommended && e.row.life.status == Published
  }

  /** `created_at DESC, title, id`. `collates(a, b)` is the database's "a sorts no later than b". */
  predicate Newer(collates: (string, string) -> bool, a: Entry, b: Entry) {
    var s, t := a.row.content.title, b.row.content.title;
    || a.row.createdAt > b.row.createdAt
    || (a.row.createdAt == b.row.createdAt && (!collates(t, s) || (collates(s, t) && a.id <= b.id)))
  }

  function NewestFirst(collates: (string, string) -> bool): (Entry, Entry) -> bool {
    (a, b) => Newer(collates, a, b)
  }

  /** The table read in some physical order: every row once. */
  ghost predicate IsScan(s: Store, scan: seq<Entry>) {
    NoRepeats(scan) && forall e :: e in scan <==> e.id in s && s[e.id] == e.row
  }

  function Recommended(collates: (string, string) -> bool, scan: seq<Entry>): seq<Entry> {
    Sort(NewestFirst(collates), Filter(Listed, scan))
  }

  lemma NewestFirstIsTotal(collates: (string, string) -> bool)
    requires TotalPreorder(collates)
    ensures TotalPreorder(NewestFirst(collates))
  {
  }

  /** The order ends in the id, so it does not depend on how the rows are laid out on disk. */
  lemma RecommendedIgnoresTheScan(collates: (string, string) -> bool, s: Store, scan: seq<Entry>, other: seq<Entry>)
    requires TotalPreorder(collates) && IsScan(s, scan) && IsScan(s, other)
    ensures Recommended(collates, scan) == Recommended(collates, other)
  {
    NewestFirstIsTotal(collates);
    FilterMembers(Listed, scan);
    FilterMembers(Listed, other);
    FilterNoRepeats(Listed, scan);
    FilterNoRepeats(Listed, other);
    SameMembersSameMultiset(Filter(Listed, scan), Filter(Listed, other));
    SortIgnoresInputOrder(NewestFirst(collates), Filter(Listed, scan), Filter(Listed, other));
  }

  /** Exactly the published recommended rows, newest first. */
  lemma RecommendedIsListed(collates: (string, string) -> bool, s: Store, scan: seq<Entry>)
    requires TotalPreorder(collates) && IsScan(s, scan)
    ensures Sorted(NewestFirst(collates), Recommended(collates, scan))
    ensures forall e :: e in Recommended(collates, scan) <==> e.id in s && s[e.id] == e.row && Listed(e)
    ensures NoRepeats(Recommended(collates, scan))
  {
    NewestFirstIsTotal(collates);
    SortIsSorted(NewestFirst(collates), Filter(Listed, scan));
    SortMembers(NewestFirst(collates), Filter(Listed, scan));
    FilterMembers(Listed, scan);
    FilterNoRepeats(Listed, scan);
    SortMultiset(NewestFirst(collates), Filter(Listed, scan));
    PermutationHasNoRepeats(Recommended(collates, scan), Filter(Listed, scan));
  }

  /** Who the query lists and in which order: published recommended catalogs, the newest first, then by title, then
      by id. */
  lemma RecommendedMeans(collates: (string, string) -> bool, s: Store, scan: seq<Entry>)
    requires TotalPreorder(collates) && IsScan(s, scan)
    ensures forall e :: e in Recommended(collates, scan) <==>
                          e.id in s && s[e.id] == e.row && e.row.life.recommended && e.row.life.status == Published
    ensures forall i, j :: 0 <= i < j < |Recommended(collates, scan)| ==>
                             var a, b := Recommended(collates, scan)[i], Recommended(collates, scan)[j];
                             || a.row.createdAt > b.row.createdAt
                             || (a.row.createdAt == b.row.createdAt
                                 && !collates(b.row.content.title, a.row.content.title))
                             || (a.row.createdAt == b.row.createdAt && a.id < b.id
                                 && collates(a.row.content.title, b.row.content.title))
  {
    RecommendedIsListed(collates, s, scan);
    hide Recommended, TotalPreorder;
    var listed := Recommended(collates, scan);
    forall i, j | 0 <= i < j < |listed|
      ensures NewestFirst(collates)(listed[i], listed[j]) && listed[i].id != listed[j].id
    {
      assert listed[i] in listed && listed[j] in listed && listed[i] != listed[j];
    }
  }

  // ---- Ranking by language ---------------------------------------------------------------------------

  /** Bucket 0 holds the catalogs whose language matched, bucket 1 those without languages. */
  datatype Group = Group(bucket: int, rank: int, negatedDepth: int)

  function GroupOf(ranges: seq<Language.LanguageRange>, e: Entry): Option<Group> {
    if e.row.content.languages == [] then Some(Group(1, 0, 0))
    else
      var match_ := Language.Rank(ranges, e.row.content.languages);
      if match_.None? then None else Some(Group(0, match_.value.rank, 0 - match_.value.depth))
  }

  predicate GroupBelow(a: Group, b: Group) {
    || a.bucket < b.bucket
    || (a.bucket == b.bucket && (a.rank < b.rank || (a.rank == b.rank && a.negatedDepth < b.negatedDepth)))
  }

  /** `_rank`: the sort key, its last part `-created_at`. */
  datatype Key = Key(group: Group, negatedCreation: int)

  function RankKey(ranges: seq<Language.LanguageRange>, e: Entry): Option<Key> {
    var group := GroupOf(ranges, e);
    if group.None? then None else Some(Key(group.value, -e.row.createdAt))
  }

  predicate KeyAtMost(a: Option<Key>, b: Option<Key>) {
    || b.None?
    || (a.Some? && (GroupBelow(a.value.group, b.value.group)
                    || (a.value.group == b.value.group && a.value.negatedCreation <= b.value.negatedCreation)))
  }

  function ByKey(ranges: seq<Language.LanguageRange>): (Entry, Entry) -> bool {
    (a, b) => KeyAtMost(RankKey(ranges, a), RankKey(ranges, b))
  }

  function Acceptable(ranges: seq<Language.LanguageRange>): Entry -> bool {
    e => GroupOf(ranges, e).Some?
  }

  predicate IsUnscoped(e: Entry) {
    e.row.content.languages == []
  }

  function Allowed(r: Restrictions): Entry -> bool {
    (e: Entry) => Allows(e.row.content, r)
  }

  function InGroup(ranges: seq<Language.LanguageRange>, g: Group): Entry -> bool {
    e => GroupOf(ranges, e) == Some(g)
  }

  /** What the feed lists, given the ranges and the repository's catalogs. */
  function Ranked(ranges: seq<Language.LanguageRange>, catalogs: seq<Entry>): seq<Entry> {
    if ranges == [] then Filter(IsUnscoped, catalogs)
    else Sort(ByKey(ranges), Filter(Acceptable(ranges), catalogs))
  }

  function TopLevelFeed(ranges: seq<Language.LanguageRange>, recommended: seq<Entry>, r: Restrictions): seq<Entry> {
    Ranked(ranges, Filter(Allowed(r), recommended))
  }

  lemma ByKeyIsTotal(ranges: seq<Language.LanguageRange>)
    ensures TotalPreorder(ByKey(ranges))
  {
    hide RankKey;
    var before := ByKey(ranges);
    forall x, y ensures before(x, y) || before(y, x) {}
    forall x, y, z | before(x, y) && before(y, z) ensures before(x, z) {}
  }

  // ---- The list built in a loop and sorted by key ----------------------------------------------------

  type Pair = (Key, Entry)

  predicate PairAtMost(a: Pair, b: Pair) {
    KeyAtMost(Some(a.0), Some(b.0))
  }

  function Seconds(pairs: seq<Pair>): (r: seq<Entry>)
    ensures |r| == |pairs| && forall i :: 0 <= i < |r| ==> r[i] == pairs[i].1
  {
    seq(|pairs|, i requires 0 <= i < |pairs| => pairs[i].1)
  }

  ghost predicate IsKeyed(ranges: seq<Language.LanguageRange>, p: Pair) {
    RankKey(ranges, p.1) == Some(p.0)
  }

  ghost predicate AreKeyed(ranges: seq<Language.LanguageRange>, pairs: seq<Pair>) {
    forall i :: 0 <= i < |pairs| ==> IsKeyed(ranges, pairs[i])
  }

  lemma {:induction false} InsertPair(ranges: seq<Language.LanguageRange>, p: Pair, pairs: seq<Pair>)
    requires IsKeyed(ranges, p) && AreKeyed(ranges, pairs)
    ensures Seconds(Insert(PairAtMost, p, pairs)) == Insert(ByKey(ranges), p.1, Seconds(pairs))
  {
    if pairs != [] {
      SameOrder(ranges, p, pairs[0]);
      hide IsKeyed, PairAtMost, ByKey;
      assert Seconds(pairs)[1..] == Seconds(pairs[1..]);
      if !PairAtMost(p, pairs[0]) {
        InsertPair(ranges, p, pairs[1..]);
      } else {
        assert Insert(PairAtMost, p, pairs) == [p] + pairs;
      }
    }
  }

  lemma {:induction false} InsertKeyed(ranges: seq<Language.LanguageRange>, p: Pair, pairs: seq<Pair>)
    requires IsKeyed(ranges, p) && AreKeyed(ranges, pairs)
    ensures AreKeyed(ranges, Insert(PairAtMost, p, pairs))
  {
    hide IsKeyed, PairAtMost;
    if pairs != [] && !PairAtMost(p, pairs[0]) { InsertKeyed(ranges, p, pairs[1..]); }
  }

  lemma SameOrder(ranges: seq<Language.LanguageRange>, p: Pair, q: Pair)
    requires IsKeyed(ranges, p) && IsKeyed(ranges, q)
    ensures PairAtMost(p, q) == ByKey(ranges)(p.1, q.1)
  {
  }

  lemma {:induction false} SortPairs(ranges: seq<Language.LanguageRange>, pairs: seq<Pair>)
    requires AreKeyed(ranges, pairs)
    ensures Seconds(Sort(PairAtMost, pairs)) == Sort(ByKey(ranges), Seconds(pairs))
    ensures AreKeyed(ranges, Sort(PairAtMost, pairs))
  {
    hide IsKeyed, PairAtMost, ByKey;
    if pairs != [] {
      SortPairs(ranges, pairs[1..]);
      assert Seconds(pairs)[1..] == Seconds(pairs[1..]);
      InsertPair(ranges, pairs[0], Sort(PairAtMost, pairs[1..]));
      InsertKeyed(ranges, pairs[0], Sort(PairAtMost, pairs[1..]));
    }
  }

  /** `ranked` holds the acceptable ones among the first `n` catalogs, each with its key. */
  ghost predicate RankedSoFar(ranges: seq<Language.LanguageRange>, catalogs: seq<Entry>, n: nat, ranked: seq<Pair>)
    requires n <= |catalogs|
  {
    AreKeyed(ranges, ranked) && Seconds(ranked) == Filter(Acceptable(ranges), catalogs[..n])
  }

  lemma RankOneMore(ranges: seq<Language.LanguageRange>, catalogs: seq<Entry>, n: nat, ranked: seq<Pair>)
    requires n < |catalogs| && RankedSoFar(ranges, catalogs, n, ranked)
    ensures var c := catalogs[n];
            var one := if Acceptable(ranges)(c) then [(RankKey(ranges, c).value, c)] else [];
            RankedSoFar(ranges, catalogs, n + 1, ranked + one)
  {
    hide GroupOf;
    assert catalogs[..n + 1] == catalogs[..n] + [catalogs[n]];
    FilterAppend(Acceptable(ranges), catalogs[..n], catalogs[n]);
    if Acceptable(ranges)(catalogs[n]) {
      var p := (RankKey(ranges, catalogs[n]).value, catalogs[n]);
      assert Seconds(ranked + [p]) == Seconds(ranked) + [p.1];
    } else {
      assert ranked + [] == ranked;
    }
  }

  lemma NoneRanked(ranges: seq<Language.LanguageRange>, catalogs: seq<Entry>)
    ensures RankedSoFar(ranges, catalogs, 0, [])
  {
  }

  lemma TopLevelFeedIs(ranges: seq<Language.LanguageRange>, recommended: seq<Entry>, r: Restrictions)
    ensures TopLevelFeed(ranges, recommended, r) ==
            if ranges == [] then Filter(IsUnscoped, Filter(Allowed(r), recommended))
            else Sort(ByKey(ranges), Filter(Acceptable(ranges), Filter(Allowed(r), recommended)))
  {
  }

  lemma SortRanked(ranges: seq<Language.LanguageRange>, catalogs: seq<Entry>, ranked: seq<Pair>)
    requires RankedSoFar(ranges, catalogs, |catalogs|, ranked)
    ensures Seconds(Sort(PairAtMost, ranked)) == Sort(ByKey(ranges), Filter(Acceptable(ranges), catalogs))
  {
    assert catalogs[..|catalogs|] == catalogs;
    SortPairs(ranges, ranked);
  }

  method ResolveTopLevelFeed(
    read: string -> Option<int>, recommended: seq<Entry>, acceptLanguage: Option<string>, r: Restrictions)
    returns (feed: seq<Entry>)
    ensures feed == TopLevelFeed(Language.ParsedLanguages(read, acceptLanguage), recommended, r)
  {
    hide *;
    var catalogs := Filter(Allowed(r), recommended);
    var ranges := Language.ParseAcceptLanguage(read, acceptLanguage);
    TopLevelFeedIs(ranges, recommended, r);
    if ranges == [] { return Filter(IsUnscoped, catalogs); }
    var ranked: seq<Pair> := [];
    NoneRanked(ranges, catalogs);
    for i := 0 to |catalogs|
      invariant RankedSoFar(ranges, catalogs, i, ranked)
    {
      RankOneMore(ranges, catalogs, i, ranked);
      var rank := RankOf(ranges, catalogs[i]);
      ranked := ranked + if rank.Some? then [(rank.value, catalogs[i])] else [];
    }
    SortRanked(ranges, catalogs, ranked);
    return Seconds(Sort(PairAtMost, ranked));
  }

  method RankOf(ranges: seq<Language.LanguageRange>, e: Entry) returns (key: Option<Key>)
    ensures key == RankKey(ranges, e) && (key.Some? <==> Acceptable(ranges)(e))
  {
    hide Language.Rank;
    if e.row.content.languages == [] { return Some(Key(Group(1, 0, 0), -e.row.createdAt)); }
    var match_ := Language.RankLanguageMatch(ranges, e.row.content.languages);
    if match_.None? { return None; }
    return Some(Key(Group(0, match_.value.rank, 0 - match_.value.depth), -e.row.createdAt));
  }

  // ---- What the feed promises ------------------------------------------------------------------------

  /** A restriction removes catalogs and never reorders: the restricted feed is the feed, filtered. */
  lemma RestrictingCommutesWithRanking(ranges: seq<Language.LanguageRange>, recommended: seq<Entry>, r: Restrictions)
    ensures TopLevelFeed(ranges, recommended, r)
         == Filter(Allowed(r), TopLevelFeed(ranges, recommended, NO_RESTRICTIONS))
  {
    FilterAll(Allowed(NO_RESTRICTIONS), recommended);
    if ranges == [] {
      FilterFilter(IsUnscoped, Allowed(r), recommended);
    } else {
      ByKeyIsTotal(ranges);
      FilterFilter(Acceptable(ranges), Allowed(r), recommended);
      FilterSort(ByKey(ranges), Allowed(r), Filter(Acceptable(ranges), recommended));
    }
  }

  lemma AllowedMeans(r: Restrictions, e: Entry)
    ensures Allowed(r)(e) == Allows(e.row.content, r)
  {
  }

  /** Who is in: the allowed catalogs that declare no language or declare one that some range accepts. */
  lemma FeedMembers(ranges: seq<Language.LanguageRange>, recommended: seq<Entry>, r: Restrictions, e: Entry)
    ensures e in TopLevelFeed(ranges, recommended, r) <==>
            && e in recommended && Allows(e.row.content, r)
            && (IsUnscoped(e) || Language.SomeRangeAccepts(ranges, e.row.content.languages))
  {
    hide Filter, Sort, ByKey, Language.Rank, Allows, Allowed;
    var catalogs := Filter(Allowed(r), recommended);
    FilterMembers(Allowed(r), recommended);
    FilterMembers(IsUnscoped, catalogs);
    FilterMembers(Acceptable(ranges), catalogs);
    SortMembers(ByKey(ranges), Filter(Acceptable(ranges), catalogs));
    Language.RankedWhenAccepted(ranges, e.row.content.languages);
    assert Allowed(r)(e) == Allows(e.row.content, r) by { AllowedMeans(r, e); }
  }

  /** The same on the texts: the range is not refused, and it is the wildcard or, cut before its extensions, it is the
      tag or one of the two continues the other after a hyphen. */
  lemma FeedMembersMean(ranges: seq<Language.LanguageRange>, recommended: seq<Entry>, r: Restrictions, e: Entry)
    ensures e in TopLevelFeed(ranges, recommended, r) <==>
            && e in recommended && Allows(e.row.content, r)
            && var tags := e.row.content.languages;
               (tags == [] || exists i, n :: 0 <= i < |ranges| && 0 <= n < |tags|
                                             && Language.Answers(ranges[i], Language.NormaliseLanguageTag(tags[n])))
  {
    FeedMembers(ranges, recommended, r, e);
    hide TopLevelFeed, Allows;
    Language.SomeRangeAnswers(ranges, e.row.content.languages);
  }

  /** Best match first: by range, then depth, then age; catalogs without languages after every match. */
  lemma FeedIsRanked(ranges: seq<Language.LanguageRange>, recommended: seq<Entry>, r: Restrictions)
    requires ranges != []
    ensures Sorted(ByKey(ranges), TopLevelFeed(ranges, recommended, r))
  {
    ByKeyIsTotal(ranges);
    SortIsSorted(ByKey(ranges), Filter(Acceptable(ranges), Filter(Allowed(r), recommended)));
  }

  /** The match of a catalog, if it declares languages. */
  function MatchOf(ranges: seq<Language.LanguageRange>, e: Entry): Option<Language.LanguageMatch> {
    if IsUnscoped(e) then None else Language.Rank(ranges, e.row.content.languages)
  }

  /** Of two catalogs of the feed the first is matched if the second is, by an earlier range, or by the same
      one and as many subtags or more; and where that ties, or neither declares a language, it is not the older. */
  lemma FeedOrderMeans(ranges: seq<Language.LanguageRange>, recommended: seq<Entry>, r: Restrictions, i: nat, j: nat)
    requires ranges != [] && i < j < |TopLevelFeed(ranges, recommended, r)|
    ensures var a, b := TopLevelFeed(ranges, recommended, r)[i], TopLevelFeed(ranges, recommended, r)[j];
            var m, n := MatchOf(ranges, a), MatchOf(ranges, b);
            && (n.Some? ==> m.Some? && !Language.KeyBelow(n.value, m.value))
            && (n.Some? ==>
                  m.value.rank < n.value.rank || (m.value.rank == n.value.rank && m.value.depth >= n.value.depth))
            && (m == n ==> a.row.createdAt >= b.row.createdAt)
  {
    hide Language.Rank, TopLevelFeed;
    FeedIsRanked(ranges, recommended, r);
    var feed := TopLevelFeed(ranges, recommended, r);
    assert feed[i] in feed && feed[j] in feed;
    FeedIsAcceptable(ranges, recommended, r, feed[i]);
    FeedIsAcceptable(ranges, recommended, r, feed[j]);
    assert ByKey(ranges)(feed[i], feed[j]);
  }

  lemma FeedIsAcceptable(ranges: seq<Language.LanguageRange>, recommended: seq<Entry>, r: Restrictions, e: Entry)
    requires ranges != [] && e in TopLevelFeed(ranges, recommended, r)
    ensures GroupOf(ranges, e).Some?
  {
    hide GroupOf;
    var catalogs := Filter(Allowed(r), recommended);
    SortMembers(ByKey(ranges), Filter(Acceptable(ranges), catalogs));
    FilterMembers(Acceptable(ranges), catalogs);
  }

  ghost predicate IsNewestFirst(s: seq<Entry>) {
    forall i, j :: 0 <= i < j < |s| ==> s[i].row.createdAt >= s[j].row.createdAt
  }

  lemma FilterKeepsNewestFirst(keep: Entry -> bool, s: seq<Entry>)
    requires IsNewestFirst(s)
    ensures IsNewestFirst(Filter(keep, s))
  {
    var newer := (a: Entry, b: Entry) => a.row.createdAt >= b.row.createdAt;
    assert Sorted(newer, s);
    FilterKeepsSorted(newer, keep, s);
    var f := Filter(keep, s);
    forall i, j | 0 <= i < j < |f| ensures f[i].row.createdAt >= f[j].row.createdAt {
      assert newer(f[i], f[j]);
    }
  }

  lemma GroupIsSorted(ranges: seq<Language.LanguageRange>, s: seq<Entry>, g: Group)
    requires IsNewestFirst(s) && forall e :: e in s ==> GroupOf(ranges, e) == Some(g)
    ensures Sorted(ByKey(ranges), s)
  {
  }

  /** Within one bucket, range and depth the feed keeps the order the repository gave. */
  lemma GroupsKeepRepositoryOrder(
    ranges: seq<Language.LanguageRange>, recommended: seq<Entry>, r: Restrictions, g: Group)
    requires IsNewestFirst(recommended)
    ensures Filter(InGroup(ranges, g), TopLevelFeed(ranges, recommended, r))
         == Filter(InGroup(ranges, g), Filter(Allowed(r), recommended))
  {
    var catalogs, inGroup := Filter(Allowed(r), recommended), InGroup(ranges, g);
    if ranges == [] {
      FilterFilter(inGroup, IsUnscoped, catalogs);
      FilterMembers(inGroup, catalogs);
      FilterAll(IsUnscoped, Filter(inGroup, catalogs));
    } else {
      var before := ByKey(ranges);
      ByKeyIsTotal(ranges);
      FilterSort(before, inGroup, Filter(Acceptable(ranges), catalogs));
      FilterFilter(inGroup, Acceptable(ranges), catalogs);
      FilterMembers(inGroup, catalogs);
      FilterAll(Acceptable(ranges), Filter(inGroup, catalogs));
      FilterKeepsNewestFirst(Allowed(r), recommended);
      FilterKeepsNewestFirst(inGroup, catalogs);
      GroupIsSorted(ranges, Filter(inGroup, catalogs), g);
      SortedIsUnchanged(before, Filter(inGroup, catalogs));
    }
  }
}
