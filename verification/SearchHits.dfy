/** The search statement: word hits, trigram hits, the join with the published catalogs, and the rank order. */
module SearchHits {
  import opened Wrappers
  import opened Lifecycle
  import opened Catalogs
  import opened RegistryQuery
  import opened Restrictions
  import opened Sorting
  import SearchIndex
  import SearchQuery

  type Document = SearchIndex.Document

  type Index = map<CatalogId, Document>

  /** What the database's text search computes. Nothing here depends on which functions these are. */
  datatype Engine = Engine(
    parse: string -> Query,
    has: (Document, string) -> bool,
    rank: (Document, Option<Query>) -> real,
    fold: string -> string,
    resembles: (string, Document) -> bool,
    likeness: (string, Document) -> real)

  /** One search: the text functions, the split query, and the two tables it reads. */
  datatype SearchRequest = SearchRequest(engine: Engine, query: SearchQuery.ParsedQuery, store: Store, index: Index)

  datatype Candidate = Candidate(id: CatalogId, tier: int, score: real)

  datatype Hit = Hit(id: CatalogId, tier: int, score: real, createdAt: int)

  function Atoms(e: Engine, d: Document): string -> bool {
    a => e.has(d, a)
  }

  predicate MatchesQuery(e: Engine, q: Option<Query>, d: Document) {
    q.Some? && Matches(q.value, Atoms(e, d))
  }

  // ---- The statement ---------------------------------------------------------------------------------

  predicate IsWordHit(s: SearchRequest, d: Document) {
    MatchesQuery(s.engine, Built(s.engine.parse, s.query.positives, s.query.negatives), d)
  }

  predicate IsTrigramHit(s: SearchRequest, d: Document) {
    var text := s.engine.fold(s.query.trigramText);
    && text != "" && s.engine.resembles(text, d)
    && !MatchesQuery(s.engine, Built(s.engine.parse, s.query.negatives, []), d)
  }

  function WordScore(s: SearchRequest, d: Document): real {
    s.engine.rank(d, Built(s.engine.parse, s.query.positives, []))
  }

  function TrigramScore(s: SearchRequest, d: Document): real {
    s.engine.likeness(s.engine.fold(s.query.trigramText), d)
  }

  /** The rows of the index read in some physical order: each once. */
  ghost predicate IsScan(s: SearchRequest, scan: seq<CatalogId>) {
    NoRepeats(scan) && forall id :: id in scan <==> id in s.index
  }

  function WordHits(s: SearchRequest, scan: seq<CatalogId>): seq<Candidate> {
    if scan == [] then []
    else
      var rest := WordHits(s, scan[1..]);
      if scan[0] in s.index && IsWordHit(s, s.index[scan[0]])
      then [Candidate(scan[0], 1, WordScore(s, s.index[scan[0]]))] + rest else rest
  }

  /** `words` are the ids of the word hits. */
  function TrigramHits(s: SearchRequest, scan: seq<CatalogId>, words: set<CatalogId>): seq<Candidate> {
    if scan == [] then []
    else
      var rest := TrigramHits(s, scan[1..], words);
      if scan[0] in s.index && IsTrigramHit(s, s.index[scan[0]]) && scan[0] !in words
      then [Candidate(scan[0], 2, TrigramScore(s, s.index[scan[0]]))] + rest else rest
  }

  function Ids(hits: seq<Candidate>): set<CatalogId> {
    set c | c in hits :: c.id
  }

  predicate IsListed(s: SearchRequest, r: Restrictions, id: CatalogId) {
    id in s.store && s.store[id].life.status == Published && SqlAllows(s.store[id].content, r)
  }

  function JoinCatalogs(s: SearchRequest, r: Restrictions, candidates: seq<Candidate>): seq<Hit> {
    if candidates == [] then []
    else
      var c, rest := candidates[0], JoinCatalogs(s, r, candidates[1..]);
      if IsListed(s, r, c.id) then [Hit(c.id, c.tier, c.score, s.store[c.id].createdAt)] + rest else rest
  }

  function Hits(s: SearchRequest, r: Restrictions, scan: seq<CatalogId>): seq<Hit> {
    var words := WordHits(s, scan);
    JoinCatalogs(s, r, words + TrigramHits(s, scan, Ids(words)))
  }

  /** `ORDER BY tier, score DESC, created_at DESC, catalog_id`. */
  predicate RanksBefore(a: Hit, b: Hit) {
    || a.tier < b.tier
    || (a.tier == b.tier
        && (|| a.score > b.score
            || (a.score == b.score && (a.createdAt > b.createdAt || (a.createdAt == b.createdAt && a.id <= b.id)))))
  }

  function Ranked(s: SearchRequest, r: Restrictions, scan: seq<CatalogId>): seq<Hit> {
    Sort(RanksBefore, Hits(s, r, scan))
  }

  // ---- Which catalogs are hits -----------------------------------------------------------------------

  lemma RanksBeforeIsTotal()
    ensures TotalPreorder(RanksBefore)
  {
  }

  /** The candidate the statement makes of one catalog, if any. */
  predicate IsCandidate(s: SearchRequest, c: Candidate) {
    && c.id in s.index
    && (|| (c.tier == 1 && IsWordHit(s, s.index[c.id]) && c.score == WordScore(s, s.index[c.id]))
        || (c.tier == 2 && IsTrigramHit(s, s.index[c.id]) && !IsWordHit(s, s.index[c.id])
            && c.score == TrigramScore(s, s.index[c.id])))
  }

  predicate IsHit(s: SearchRequest, r: Restrictions, h: Hit) {
    IsCandidate(s, Candidate(h.id, h.tier, h.score)) && IsListed(s, r, h.id) && h.createdAt == s.store[h.id].createdAt
  }

  ghost predicate DistinctIds(cs: seq<Candidate>) {
    forall i, j :: 0 <= i < j < |cs| ==> cs[i].id != cs[j].id
  }

  lemma {:induction false} WordHitsAre(s: SearchRequest, scan: seq<CatalogId>)
    requires NoRepeats(scan)
    ensures forall c :: c in WordHits(s, scan) <==> c.tier == 1 && c.id in scan && IsCandidate(s, c)
    ensures DistinctIds(WordHits(s, scan))
  {
    if scan != [] {
      hide IsWordHit, IsTrigramHit;
      WordHitsAre(s, scan[1..]);
      assert scan == [scan[0]] + scan[1..];
    }
  }

  lemma {:induction false} TrigramHitsAre(s: SearchRequest, scan: seq<CatalogId>, words: set<CatalogId>)
    requires NoRepeats(scan)
    requires forall id :: id in scan && id in s.index ==> (id in words <==> IsWordHit(s, s.index[id]))
    ensures forall c :: c in TrigramHits(s, scan, words) <==> c.tier == 2 && c.id in scan && IsCandidate(s, c)
    ensures DistinctIds(TrigramHits(s, scan, words))
  {
    if scan != [] {
      hide IsWordHit, IsTrigramHit;
      TrigramHitsAre(s, scan[1..], words);
      assert scan == [scan[0]] + scan[1..];
    }
  }

  lemma {:induction false} JoinIs(s: SearchRequest, r: Restrictions, cs: seq<Candidate>)
    requires DistinctIds(cs)
    ensures forall h :: h in JoinCatalogs(s, r, cs) <==>
                          && Candidate(h.id, h.tier, h.score) in cs && IsListed(s, r, h.id)
                          && h.createdAt == s.store[h.id].createdAt
    ensures NoRepeats(JoinCatalogs(s, r, cs))
  {
    if cs != [] {
      hide IsListed;
      JoinIs(s, r, cs[1..]);
      assert cs == [cs[0]] + cs[1..];
    }
  }

  lemma HitsAre(s: SearchRequest, r: Restrictions, scan: seq<CatalogId>)
    requires IsScan(s, scan)
    ensures forall h :: h in Hits(s, r, scan) <==> IsHit(s, r, h)
    ensures NoRepeats(Hits(s, r, scan))
  {
    var words := WordHits(s, scan);
    var trigrams := TrigramHits(s, scan, Ids(words));
    WordHitsAre(s, scan);
    hide IsWordHit, IsTrigramHit, IsListed;
    forall id | id in scan && id in s.index ensures id in Ids(words) <==> IsWordHit(s, s.index[id]) {
      if IsWordHit(s, s.index[id]) { assert Candidate(id, 1, WordScore(s, s.index[id])) in words; }
    }
    TrigramHitsAre(s, scan, Ids(words));
    CandidatesAreDistinct(s, words, trigrams);
    JoinIs(s, r, words + trigrams);
  }

  lemma CandidatesAreDistinct(s: SearchRequest, words: seq<Candidate>, trigrams: seq<Candidate>)
    requires DistinctIds(words) && DistinctIds(trigrams)
    requires forall c :: c in words ==> c.tier == 1 && IsCandidate(s, c)
    requires forall c :: c in trigrams ==> c.tier == 2 && IsCandidate(s, c)
    ensures DistinctIds(words + trigrams)
  {
  }

  /** A catalog is a hit exactly when it is listed, allowed, and a word hit, or a trigram hit without being a word
      hit; its tier, score and date are then determined, so it is a hit once. */
  lemma RankedIsHits(s: SearchRequest, r: Restrictions, scan: seq<CatalogId>)
    requires IsScan(s, scan)
    ensures forall h :: h in Ranked(s, r, scan) <==> IsHit(s, r, h)
    ensures forall i, j :: 0 <= i < j < |Ranked(s, r, scan)| ==> Ranked(s, r, scan)[i].id != Ranked(s, r, scan)[j].id
  {
    HitsAre(s, r, scan);
    hide IsHit, Hits, Sort;
    var ranked := Ranked(s, r, scan);
    SortMembers(RanksBefore, Hits(s, r, scan));
    SortMultiset(RanksBefore, Hits(s, r, scan));
    PermutationHasNoRepeats(ranked, Hits(s, r, scan));
    forall i, j | 0 <= i < j < |ranked| ensures ranked[i].id != ranked[j].id {
      assert ranked[i] in ranked && ranked[j] in ranked;
      if ranked[i].id == ranked[j].id { HitIsUnique(s, r, ranked[i], ranked[j]); }
    }
  }

  lemma HitIsUnique(s: SearchRequest, r: Restrictions, h: Hit, k: Hit)
    requires IsHit(s, r, h) && IsHit(s, r, k) && h.id == k.id
    ensures h == k
  {
  }

  /** Some of the chunks matches the document. */
  ghost predicate AnyMatches(e: Engine, chunks: seq<string>, d: Document) {
    exists c :: c in chunks && Matches(e.parse(c), Atoms(e, d))
  }

  /** Every row of the result, column by column. A published, allowed catalog with a search row is a word hit when a
      positive chunk matches and no negative one does, ranked by the positives alone; otherwise it is a trigram hit
      when the folded text is not empty, resembles its names, and no negative chunk matches. */
  lemma RankedRowsMean(s: SearchRequest, r: Restrictions, scan: seq<CatalogId>, h: Hit)
    requires IsScan(s, scan)
    ensures h in Ranked(s, r, scan) <==>
            && h.id in s.index && h.id in s.store && s.store[h.id].life.status == Published
            && SqlAllows(s.store[h.id].content, r) && h.createdAt == s.store[h.id].createdAt
            && !AnyMatches(s.engine, s.query.negatives, s.index[h.id])
            && var e, d, text := s.engine, s.index[h.id], s.engine.fold(s.query.trigramText);
               if AnyMatches(e, s.query.positives, d)
               then h.tier == 1 && h.score == e.rank(d, Built(e.parse, s.query.positives, []))
               else h.tier == 2 && text != "" && e.resembles(text, d) && h.score == e.likeness(text, d)
  {
    RankedIsHits(s, r, scan);
    hide Ranked, SqlAllows, Built;
    if h.id in s.index {
      var parse, q, has := s.engine.parse, s.query, Atoms(s.engine, s.index[h.id]);
      QueryMeans(parse, q.positives, q.negatives, has);
      QueryMeans(parse, q.negatives, [], has);
      NothingMatchesEmpty(parse, q.positives, has);
      NothingMatchesEmpty(parse, q.negatives, has);
    }
  }

  lemma NothingMatchesEmpty(parse: string -> Query, chunks: seq<string>, has: string -> bool)
    ensures (exists c :: c in chunks && Matches(parse(c), has)) ==> exists c :: c in chunks && parse(c) != Empty
  {
  }

  /** No catalog that matches a negated chunk is a hit, in either tier. */
  lemma NoNegatedChunkHits(s: SearchRequest, r: Restrictions, scan: seq<CatalogId>, h: Hit, chunk: string)
    requires IsScan(s, scan) && h in Ranked(s, r, scan)
    requires chunk in s.query.negatives
    ensures h.id in s.index && !Matches(s.engine.parse(chunk), Atoms(s.engine, s.index[h.id]))
  {
    RankedRowsMean(s, r, scan, h);
    hide Ranked;
    assert !AnyMatches(s.engine, s.query.negatives, s.index[h.id]);
  }

  /** Every word hit stands before every trigram hit; ties go by score, then age, then id. */
  lemma HitsAreRanked(s: SearchRequest, r: Restrictions, scan: seq<CatalogId>)
    requires IsScan(s, scan)
    ensures Sorted(RanksBefore, Ranked(s, r, scan))
    ensures forall i, j :: 0 <= i < j < |Ranked(s, r, scan)| ==>
                             Ranked(s, r, scan)[i].tier <= Ranked(s, r, scan)[j].tier
    ensures forall i, j :: 0 <= i < j < |Ranked(s, r, scan)| ==>
                             var a, b := Ranked(s, r, scan)[i], Ranked(s, r, scan)[j];
                             && (a.tier == b.tier ==> a.score >= b.score)
                             && (a.tier == b.tier && a.score == b.score ==> a.createdAt >= b.createdAt)
                             && (a.tier == b.tier && a.score == b.score && a.createdAt == b.createdAt ==> a.id < b.id)
  {
    RanksBeforeIsTotal();
    SortIsSorted(RanksBefore, Hits(s, r, scan));
    RankedIsHits(s, r, scan);
    hide Ranked;
    var ranked := Ranked(s, r, scan);
    forall i, j | 0 <= i < j < |ranked| ensures RanksBefore(ranked[i], ranked[j]) && ranked[i].id != ranked[j].id {}
  }

  /** The key ends in the catalog's id, so the order does not depend on how the index rows are laid out. */
  lemma RankedIgnoresTheScan(s: SearchRequest, r: Restrictions, scan: seq<CatalogId>, other: seq<CatalogId>)
    requires IsScan(s, scan) && IsScan(s, other)
    ensures Ranked(s, r, scan) == Ranked(s, r, other)
  {
    var a, b := Hits(s, r, scan), Hits(s, r, other);
    HitsAre(s, r, scan);
    HitsAre(s, r, other);
    hide IsHit, Hits;
    RanksBeforeIsTotal();
    SameMembersSameMultiset(a, b);
    forall h, k | h in a && k in a && RanksBefore(h, k) && RanksBefore(k, h) ensures h == k {
      HitIsUnique(s, r, h, k);
    }
    SortIgnoresInputOrder(RanksBefore, a, b);
  }

  // ---- Restricting a search --------------------------------------------------------------------------

  function SqlAllowed(s: SearchRequest, r: Restrictions): Hit -> bool {
    (h: Hit) => h.id in s.store && SqlAllows(s.store[h.id].content, r)
  }

  function Allowed(s: SearchRequest, r: Restrictions): Hit -> bool {
    (h: Hit) => h.id in s.store && Allows(s.store[h.id].content, r)
  }

  lemma {:induction false} JoinRestricted(s: SearchRequest, r: Restrictions, cs: seq<Candidate>)
    ensures JoinCatalogs(s, r, cs) == Filter(SqlAllowed(s, r), JoinCatalogs(s, NO_RESTRICTIONS, cs))
  {
    if cs != [] {
      hide SqlAllows;
      JoinRestricted(s, r, cs[1..]);
      NothingRestricted(s, cs[0].id);
      if IsListed(s, NO_RESTRICTIONS, cs[0].id) {
        var c := cs[0];
        FilterCons(SqlAllowed(s, r), Hit(c.id, c.tier, c.score, s.store[c.id].createdAt),
                   JoinCatalogs(s, NO_RESTRICTIONS, cs[1..]));
      }
    }
  }

  lemma NothingRestricted(s: SearchRequest, id: CatalogId)
    ensures IsListed(s, NO_RESTRICTIONS, id) <==> id in s.store && s.store[id].life.status == Published
  {
  }

  /** Restricting commutes with ranking: the restricted hits are the unrestricted ones, filtered, in the same
      order. */
  lemma RestrictingCommutesWithRanking(s: SearchRequest, r: Restrictions, scan: seq<CatalogId>)
    ensures Ranked(s, r, scan) == Filter(SqlAllowed(s, r), Ranked(s, NO_RESTRICTIONS, scan))
  {
    RanksBeforeIsTotal();
    var words := WordHits(s, scan);
    JoinRestricted(s, r, words + TrigramHits(s, scan, Ids(words)));
    FilterSort(RanksBefore, SqlAllowed(s, r), Hits(s, NO_RESTRICTIONS, scan));
  }

  /** And where media types are padded only with spaces, filtered by the rule the feed uses. */
  lemma SearchRestrictsAsTheFeedDoes(s: SearchRequest, r: Restrictions, scan: seq<CatalogId>)
    requires forall id, l :: id in s.store && l in s.store[id].content.links ==> IsPaddedWithSpaces(l.mediaType)
    ensures Ranked(s, r, scan) == Filter(Allowed(s, r), Ranked(s, NO_RESTRICTIONS, scan))
  {
    RestrictingCommutesWithRanking(s, r, scan);
    hide Ranked, SqlAllows, Allows, IsPaddedWithSpaces;
    forall h ensures SqlAllowed(s, r)(h) == Allowed(s, r)(h) {
      if h.id in s.store { SqlAllowsTheSame(s.store[h.id].content, r); }
    }
    FilterSameOn(SqlAllowed(s, r), Allowed(s, r), Ranked(s, NO_RESTRICTIONS, scan));
  }

  // ---- The index is what the tables say --------------------------------------------------------------

  /** The index rebuilt from the tables at once. */
  function FreshIndex(ref: SearchIndex.Reference, t: SearchIndex.Tables): Index {
    map x | x in t.catalogs && SearchIndex.IsListed(t, x) :: SearchIndex.Rebuild(ref, t, x)
  }

  /** Where every search row is current, searching the stored index is searching one rebuilt on the spot. */
  lemma CurrentIndexIsFresh(ref: SearchIndex.Reference, t: SearchIndex.Tables, s: SearchRequest)
    requires SearchIndex.AllCurrent(ref, t) && s.index == t.search
    ensures s == s.(index := FreshIndex(ref, t))
  {
    hide SearchIndex.Rebuild;
    var rebuilt := FreshIndex(ref, t);
    forall x ensures x in t.search <==> x in rebuilt
      ensures x in t.search ==> t.search[x] == rebuilt[x]
    {
      assert SearchIndex.IsCurrent(ref, t, x);
    }
    assert t.search == rebuilt;
  }
}
