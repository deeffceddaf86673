/**
 When an import gives every entry its own row, what it leaves alone, and what importing again changes.

 The uniqueness check compares one href and one id per entry, while the lookups match any stored
 `catalog`/`shelf` href, so passing it is not enough. `NoClash` is the exact condition.
 */
module ImportTheorems {
  import opened Wrappers
  import opened Lifecycle
  import opened Catalogs
  import opened Importer
  import opened Sorting

  ghost function Hrefs(d: Document): set<string> {
    IdentityHrefs(BuildContent(d))
  }

  /** No entry is recognised by an href an earlier entry stores, nor named by the id of a stored row that an
      earlier entry, not itself found by id, is recognised on. It can be read off the stored rows
      and the document before the import. */
  ghost predicate NoClash(reg: Registry, s: Store, docs: seq<Document>)
    requires forall d :: d in docs ==> Resolves(reg, d)
  {
    forall i, j :: 0 <= j < i < |docs| ==>
                     && HrefOf(reg, docs[i]) !in Hrefs(docs[j])
                     && !(FoundById(reg, s, docs[i]) && !FoundById(reg, s, docs[j])
                          && Carries(s, IdOf(reg, docs[i]), HrefOf(reg, docs[j])))
  }

  // ---- An entry stores the href it is recognised by --------------------------------------------------

  lemma {:induction false} FirstHrefIsStored(links: seq<DocumentLink>, rel: Rel)
    requires FirstHref(links, rel).Some?
    ensures exists l :: l in BuildLinks(links) && l.rel == rel && l.href == FirstHref(links, rel).value
  {
    var own := StoredLinks(links[0], LinkRels(links[0].rels));
    if rel in LinkRels(links[0].rels) {
      StoredLinksHaveRels(links[0], LinkRels(links[0].rels), rel);
      var l :| l in own && l.rel == rel && l.href == links[0].href;
      assert l in BuildLinks(links);
    } else {
      FirstHrefIsStored(links[1..], rel);
      var l :| l in BuildLinks(links[1..]) && l.rel == rel && l.href == FirstHref(links, rel).value;
      assert l in BuildLinks(links);
    }
  }

  lemma {:induction false} StoredLinksHaveRels(link: DocumentLink, rels: seq<Rel>, rel: Rel)
    requires rel in rels
    ensures exists l :: l in StoredLinks(link, rels) && l.rel == rel && l.href == link.href
  {
    if rels[0] == rel {
      assert StoredLinks(link, rels)[0] in StoredLinks(link, rels);
    } else {
      StoredLinksHaveRels(link, rels[1..], rel);
      var l :| l in StoredLinks(link, rels[1..]) && l.rel == rel && l.href == link.href;
      assert l in StoredLinks(link, rels);
    }
  }

  predicate HasRel(l: DocumentLink, rel: Rel) {
    rel in LinkRels(l.rels)
  }

  /** The identity is the href of the first `catalog` link, wherever it stands, and of the first `shelf` link only
      when there is no `catalog` link at all. */
  lemma IdentityIsTheFirstCatalogLink(d: Document, rel: Rel, i: nat)
    requires i < |d.links| && HasRel(d.links[i], rel) && forall j :: 0 <= j < i ==> !HasRel(d.links[j], rel)
    requires rel == Catalog || (rel == Shelf && forall l :: l in d.links ==> !HasRel(l, Catalog))
    ensures IdentityHref(d) == Some(d.links[i].href)
  {
    FirstHrefIs(d.links, rel, i);
    if rel == Shelf { NoFirstHref(d.links, Catalog); }
  }

  lemma {:induction false} FirstHrefIs(links: seq<DocumentLink>, rel: Rel, i: nat)
    requires i < |links| && HasRel(links[i], rel) && forall j :: 0 <= j < i ==> !HasRel(links[j], rel)
    ensures FirstHref(links, rel) == Some(links[i].href)
  {
    if i > 0 {
      assert !HasRel(links[0], rel);
      FirstHrefIs(links[1..], rel, i - 1);
    }
  }

  lemma {:induction false} NoFirstHref(links: seq<DocumentLink>, rel: Rel)
    ensures FirstHref(links, rel).None? <==> forall l :: l in links ==> !HasRel(l, rel)
  {
    if links != [] {
      NoFirstHref(links[1..], rel);
      assert links[0] in links;
      assert forall l :: l in links <==> l == links[0] || l in links[1..];
    }
  }

  lemma OwnHrefIsStored(reg: Registry, d: Document)
    requires Resolves(reg, d)
    ensures HrefOf(reg, d) in Hrefs(d)
  {
    var rel := if FirstHref(d.links, Catalog).Some? then Catalog else Shelf;
    FirstHrefIsStored(d.links, rel);
  }

  // ---- The store after k entries, while they have landed apart ---------------------------------------

  /** Entry `i` is on the row it names or derives, or on a stored row it is recognised on by href. */
  ghost predicate Placed(reg: Registry, s: Store, d: Document, r: CatalogId)
    requires Resolves(reg, d)
  {
    || (r == IdOf(reg, d) && (r in s ==> FoundById(reg, s, d) || Carries(s, r, HrefOf(reg, d))))
    || (!FoundById(reg, s, d) && Carries(s, r, HrefOf(reg, d)))
  }

  /** What an import leaves on the row of entry `i`: importing it again would not change these columns. */
  predicate AsImported(row: CatalogRow, d: Document, st: Stamp, i: int) {
    && row.content == BuildContent(d) && row.createdAt == st.anchor - i
    && row.life.status != Draft && row.life.publishedAt.Some? && row.life.recommended == st.recommended
  }

  /** Only the rows in `taken` were added or changed. */
  ghost predicate OnlyChanged(s: Store, t: Store, taken: seq<CatalogId>) {
    && (forall r :: r in t <==> r in s || r in taken)
    && (forall r :: r in s && r !in taken ==> t[r] == s[r])
  }

  ghost predicate EachAsImported(t: Store, docs: seq<Document>, st: Stamp, taken: seq<CatalogId>)
    requires |taken| <= |docs|
  {
    forall i :: 0 <= i < |taken| ==> taken[i] in t && AsImported(t[taken[i]], docs[i], st, i)
  }

  ghost predicate Landed(
    reg: Registry, docs: seq<Document>, st: Stamp, stores: seq<Store>, rows: seq<CatalogId>, k: nat)
    requires IsImport(reg, docs, st, stores, rows) && k <= |docs|
    requires forall d :: d in docs ==> Resolves(reg, d)
  {
    && OnlyChanged(stores[0], stores[k], rows[..k])
    && EachAsImported(stores[k], docs, st, rows[..k])
    && (forall i :: 0 <= i < k ==> Placed(reg, stores[0], docs[i], rows[i]))
    && HrefsApart(stores[k])
  }

  lemma LandedRow(
    reg: Registry, docs: seq<Document>, st: Stamp, stores: seq<Store>, rows: seq<CatalogId>, k: nat, i: nat)
    requires IsImport(reg, docs, st, stores, rows) && i < k <= |docs|
    requires forall d :: d in docs ==> Resolves(reg, d)
    requires Landed(reg, docs, st, stores, rows, k)
    ensures rows[i] in stores[k] && AsImported(stores[k][rows[i]], docs[i], st, i)
    ensures Placed(reg, stores[0], docs[i], rows[i]) && HrefsApart(stores[k])
  {
  }

  lemma LandedAtStart(reg: Registry, docs: seq<Document>, st: Stamp, stores: seq<Store>, rows: seq<CatalogId>)
    requires IsImport(reg, docs, st, stores, rows) && HrefsApart(stores[0])
    requires forall d :: d in docs ==> Resolves(reg, d)
    ensures Landed(reg, docs, st, stores, rows, 0)
  {
  }

  lemma ImportEffect(reg: Registry, t: Store, d: Document, st: Stamp, i: int, r: CatalogId, t': Store)
    requires Imports(reg, t, d, st, st.anchor - i, r, t')
    ensures t'.Keys == t.Keys + {r} && (forall q :: q in t && q != r ==> t'[q] == t[q])
    ensures AsImported(t'[r], d, st, i) && HrefsApart(t')
  {
  }

  lemma OneMoreRow(
    s: Store, t: Store, t': Store, docs: seq<Document>, st: Stamp, taken: seq<CatalogId>, r: CatalogId)
    requires OnlyChanged(s, t, taken) && |taken| < |docs| && EachAsImported(t, docs, st, taken) && r !in taken
    requires t'.Keys == t.Keys + {r} && (forall q :: q in t && q != r ==> t'[q] == t[q])
    requires AsImported(t'[r], docs[|taken|], st, |taken|)
    ensures OnlyChanged(s, t', taken + [r]) && EachAsImported(t', docs, st, taken + [r])
  {
    hide AsImported;
    forall i | 0 <= i < |taken + [r]|
      ensures (taken + [r])[i] in t' && AsImported(t'[(taken + [r])[i]], docs[i], st, i)
    {
      if i < |taken| { assert taken[i] in t && taken[i] in taken; }
    }
  }

  lemma ImportSizes(reg: Registry, docs: seq<Document>, st: Stamp, stores: seq<Store>, rows: seq<CatalogId>)
    requires IsImport(reg, docs, st, stores, rows)
    ensures |stores| == |docs| + 1 && |rows| == |docs|
  {
  }

  /** One more entry, landing on a row of its own. */
  lemma LandsOnce(reg: Registry, docs: seq<Document>, st: Stamp, stores: seq<Store>, rows: seq<CatalogId>, k: nat)
    requires IsImport(reg, docs, st, stores, rows) && k < |docs|
    requires forall d :: d in docs ==> Resolves(reg, d)
    requires Landed(reg, docs, st, stores, rows, k) && rows[k] !in rows[..k]
    ensures Landed(reg, docs, st, stores, rows, k + 1)
  {
    hide Imports, Resolves, HrefsApart, Placed, AsImported, EachAsImported, IsImport;
    ImportSizes(reg, docs, st, stores, rows);
    var s, t, t', r := stores[0], stores[k], stores[k + 1], rows[k];
    ImportStep(reg, docs, st, stores, rows, k);
    ImportEffect(reg, t, docs[k], st, k, r, t');
    OneMoreRow(s, t, t', docs, st, rows[..k], r);
    assert rows[..k + 1] == rows[..k] + [r];
    LandsPlaced(reg, docs[k], st, s, t, r, t', st.anchor - k);
  }

  lemma LandsPlaced(reg: Registry, d: Document, st: Stamp, s: Store, t: Store, r: CatalogId, t': Store, at: int)
    requires Resolves(reg, d) && Imports(reg, t, d, st, at, r, t')
    requires s.Keys <= t.Keys && (r in t <==> r in s) && (r in s ==> s[r] == t[r])
    ensures Placed(reg, s, d, r)
  {
  }

  lemma SameRowMeansClash(
    reg: Registry, docs: seq<Document>, st: Stamp, stores: seq<Store>, rows: seq<CatalogId>, k: nat, j: nat)
    requires IsImport(reg, docs, st, stores, rows) && j < k < |docs| && IdentitiesAreUnique(reg, docs)
    requires Landed(reg, docs, st, stores, rows, k) && rows[k] == rows[j]
    ensures HrefOf(reg, docs[k]) in Hrefs(docs[j])
            || (FoundById(reg, stores[0], docs[k]) && !FoundById(reg, stores[0], docs[j])
                && Carries(stores[0], IdOf(reg, docs[k]), HrefOf(reg, docs[j])))
  {
    var s, t := stores[0], stores[k];
    assert Imports(reg, t, docs[k], st, st.anchor - k, rows[k], stores[k + 1]);
    assert rows[j] in rows[..k] && rows[j] in t;
    assert rows[..k][j] == rows[j] && AsImported(t[rows[j]], docs[j], st, j);
    assert Placed(reg, s, docs[j], rows[j]);
  }

  /** Without a clash the next entry takes a row no earlier one has taken. */
  lemma TakesItsOwnRow(reg: Registry, docs: seq<Document>, st: Stamp, stores: seq<Store>, rows: seq<CatalogId>, k: nat)
    requires IsImport(reg, docs, st, stores, rows) && k < |docs|
    requires IdentitiesAreUnique(reg, docs) && NoClash(reg, stores[0], docs)
    requires Landed(reg, docs, st, stores, rows, k)
    ensures rows[k] !in rows[..k]
  {
    forall j | 0 <= j < k ensures rows[j] != rows[k] {
      if rows[k] == rows[j] {
        SameRowMeansClash(reg, docs, st, stores, rows, k, j);
      }
    }
  }

  lemma {:induction false} NoClashLandsApart(
    reg: Registry, docs: seq<Document>, st: Stamp, stores: seq<Store>, rows: seq<CatalogId>, k: nat)
    requires IsImport(reg, docs, st, stores, rows) && k <= |docs|
    requires IdentitiesAreUnique(reg, docs) && HrefsApart(stores[0]) && NoClash(reg, stores[0], docs)
    ensures NoRepeats(rows[..k]) && Landed(reg, docs, st, stores, rows, k)
  {
    hide NoClash, Landed, Imports, Resolves, HrefsApart, HrefOf, IdOf;
    if k == 0 {
      LandedAtStart(reg, docs, st, stores, rows);
    } else {
      NoClashLandsApart(reg, docs, st, stores, rows, k - 1);
      TakesItsOwnRow(reg, docs, st, stores, rows, k - 1);
      LandsOnce(reg, docs, st, stores, rows, k - 1);
      assert rows[..k] == rows[..k - 1] + [rows[k - 1]];
    }
  }

  lemma {:induction false} ApartMeansLanded(
    reg: Registry, docs: seq<Document>, st: Stamp, stores: seq<Store>, rows: seq<CatalogId>, k: nat)
    requires IsImport(reg, docs, st, stores, rows) && k <= |docs|
    requires IdentitiesAreUnique(reg, docs) && HrefsApart(stores[0]) && NoRepeats(rows)
    ensures Landed(reg, docs, st, stores, rows, k)
  {
    if k == 0 {
      LandedAtStart(reg, docs, st, stores, rows);
    } else {
      ApartMeansLanded(reg, docs, st, stores, rows, k - 1);
      LandsOnce(reg, docs, st, stores, rows, k - 1);
    }
  }

  /** An entry recognised by an href an earlier one stores either takes its row or breaks the unique index. */
  lemma SharedHrefOverwrites(
    reg: Registry, docs: seq<Document>, st: Stamp, stores: seq<Store>, rows: seq<CatalogId>, i: nat, j: nat)
    requires IsImport(reg, docs, st, stores, rows) && j < i < |docs|
    requires IdentitiesAreUnique(reg, docs) && HrefsApart(stores[0]) && NoRepeats(rows)
    ensures HrefOf(reg, docs[i]) !in Hrefs(docs[j])
  {
    ApartMeansLanded(reg, docs, st, stores, rows, i + 1);
    OwnHrefIsStored(reg, docs[i]);
    var t := stores[i + 1];
    var taken := rows[..i + 1];
    assert AsImported(t[taken[i]], docs[i], st, i) && AsImported(t[taken[j]], docs[j], st, j);
    assert IdentityHrefs(t[rows[i]].content) !! IdentityHrefs(t[rows[j]].content);
  }

  /** An entry naming a stored row that an earlier one is recognised on takes the same row. */
  lemma SharedRowOverwrites(
    reg: Registry, docs: seq<Document>, st: Stamp, stores: seq<Store>, rows: seq<CatalogId>, i: nat, j: nat)
    requires IsImport(reg, docs, st, stores, rows) && j < i < |docs|
    requires IdentitiesAreUnique(reg, docs) && HrefsApart(stores[0]) && NoRepeats(rows)
    ensures !(FoundById(reg, stores[0], docs[i]) && !FoundById(reg, stores[0], docs[j])
              && Carries(stores[0], IdOf(reg, docs[i]), HrefOf(reg, docs[j])))
  {
    var s, t, x := stores[0], stores[j], IdOf(reg, docs[i]);
    if FoundById(reg, s, docs[i]) && !FoundById(reg, s, docs[j]) && Carries(s, x, HrefOf(reg, docs[j])) {
      ApartMeansLanded(reg, docs, st, stores, rows, i);
      ApartMeansLanded(reg, docs, st, stores, rows, j);
      NamedRowIsTaken(reg, docs, st, stores, rows, i);
      assert rows[i] == x;
      if x !in rows[..j] {
        EarlierTakesHrefRow(reg, docs, st, stores, rows, j, x);
      }
    }
  }

  lemma NamedRowIsTaken(
    reg: Registry, docs: seq<Document>, st: Stamp, stores: seq<Store>, rows: seq<CatalogId>, i: nat)
    requires IsImport(reg, docs, st, stores, rows) && i < |docs| && IdentitiesAreUnique(reg, docs)
    requires Landed(reg, docs, st, stores, rows, i) && FoundById(reg, stores[0], docs[i])
    ensures rows[i] == IdOf(reg, docs[i])
  {
    assert Imports(reg, stores[i], docs[i], st, st.anchor - i, rows[i], stores[i + 1]);
    assert IdOf(reg, docs[i]) in stores[i];
    assert Claims(reg, stores[i], docs[i], IdOf(reg, docs[i]));
  }

  /** Of the entries imported so far, only an entry itself makes the id it names. */
  lemma FoundByIdWasStored(
    reg: Registry, docs: seq<Document>, st: Stamp, stores: seq<Store>, rows: seq<CatalogId>, k: nat, j: nat)
    requires IsImport(reg, docs, st, stores, rows) && k <= |docs| && j < |docs| && IdentitiesAreUnique(reg, docs)
    requires Landed(reg, docs, st, stores, rows, k)
    ensures FoundById(reg, stores[k], docs[j]) ==>
              FoundById(reg, stores[0], docs[j]) || (j < k && rows[j] == IdOf(reg, docs[j]))
  {
    var id := IdOf(reg, docs[j]);
    if m :| 0 <= m < k && rows[m] == id {
      assert Placed(reg, stores[0], docs[m], rows[m]);
    }
  }

  lemma EarlierTakesHrefRow(
    reg: Registry, docs: seq<Document>, st: Stamp, stores: seq<Store>, rows: seq<CatalogId>, j: nat, x: CatalogId)
    requires IsImport(reg, docs, st, stores, rows) && j < |docs| && IdentitiesAreUnique(reg, docs)
    requires Landed(reg, docs, st, stores, rows, j) && !FoundById(reg, stores[0], docs[j])
    requires Carries(stores[0], x, HrefOf(reg, docs[j])) && x !in rows[..j]
    ensures rows[j] == x
  {
    var t := stores[j];
    assert Imports(reg, t, docs[j], st, st.anchor - j, rows[j], stores[j + 1]);
    FoundByIdWasStored(reg, docs, st, stores, rows, j, j);
    assert Claims(reg, t, docs[j], x);
    ClaimsAreUnique(reg, t, docs[j], x, rows[j]);
  }

  /** For every import that goes through: each entry lands on a row of its own exactly when nothing clashes. */
  lemma LandsApartExactlyWithoutClash(
    reg: Registry, docs: seq<Document>, st: Stamp, stores: seq<Store>, rows: seq<CatalogId>)
    requires IsImport(reg, docs, st, stores, rows)
    requires IdentitiesAreUnique(reg, docs) && HrefsApart(stores[0])
    ensures NoRepeats(rows) <==> NoClash(reg, stores[0], docs)
  {
    if NoClash(reg, stores[0], docs) {
      NoClashLandsApart(reg, docs, st, stores, rows, |docs|);
      assert rows[..|docs|] == rows;
    }
    if NoRepeats(rows) {
      forall i, j | 0 <= j < i < |docs|
        ensures HrefOf(reg, docs[i]) !in Hrefs(docs[j])
        ensures !(FoundById(reg, stores[0], docs[i]) && !FoundById(reg, stores[0], docs[j])
                  && Carries(stores[0], IdOf(reg, docs[i]), HrefOf(reg, docs[j])))
      {
        SharedHrefOverwrites(reg, docs, st, stores, rows, i, j);
        SharedRowOverwrites(reg, docs, st, stores, rows, i, j);
      }
    }
  }

  // ---- What an import leaves behind ------------------------------------------------------------------

  lemma SizeAfterImport(reg: Registry, t: Store, d: Document, st: Stamp, at: int, r: CatalogId, t': Store)
    requires Imports(reg, t, d, st, at, r, t')
    ensures |t'| == |t| + if r in t then 0 else 1
  {
  }

  /** The number of rows grows by the number of entries reported as created, clash or not. */
  lemma {:induction false} RowsGrowByCreated(
    reg: Registry, docs: seq<Document>, st: Stamp, stores: seq<Store>, rows: seq<CatalogId>, k: nat)
    requires IsImport(reg, docs, st, stores, rows) && k <= |docs|
    ensures |stores[k]| == |stores[0]| + CreatedCount(stores, rows, k)
    ensures CreatedCount(stores, rows, k) <= k
  {
    hide Imports;
    if k > 0 {
      RowsGrowByCreated(reg, docs, st, stores, rows, k - 1);
      SizeAfterImport(reg, stores[k - 1], docs[k - 1], st, st.anchor - (k - 1), rows[k - 1], stores[k]);
    }
  }

  /** The rows no entry landed on before `k` are as they were. */
  lemma {:induction false} RowsWait(
    reg: Registry, docs: seq<Document>, st: Stamp, stores: seq<Store>, rows: seq<CatalogId>, k: nat, r: CatalogId)
    requires IsImport(reg, docs, st, stores, rows) && k <= |docs| && r !in rows[..k]
    ensures r in stores[k] <==> r in stores[0]
    ensures r in stores[0] ==> stores[k][r] == stores[0][r]
  {
    hide Imports;
    if k > 0 {
      assert rows[..k] == rows[..k - 1] + [rows[k - 1]];
      RowsWait(reg, docs, st, stores, rows, k - 1, r);
      ImportedRowIs(reg, stores[k - 1], docs[k - 1], st, st.anchor - (k - 1), rows[k - 1], stores[k]);
    }
  }

  /** The row of an entry that lands apart is what that entry's import made of the row it found at the start. */
  lemma {:induction false} RowsStay(
    reg: Registry, docs: seq<Document>, st: Stamp, stores: seq<Store>, rows: seq<CatalogId>, i: nat, k: nat)
    requires IsImport(reg, docs, st, stores, rows) && i < k <= |docs| && NoRepeats(rows)
    ensures rows[i] in stores[k] && IsAsWritten(docs[i], stores[k][rows[i]].content)
    ensures IsLifeAfterImport(stores[0], stores[k], rows[i], st)
  {
    hide Imports, IsAsWritten;
    ImportedRowIs(reg, stores[k - 1], docs[k - 1], st, st.anchor - (k - 1), rows[k - 1], stores[k]);
    if i == k - 1 {
      assert forall j :: 0 <= j < i ==> rows[j] != rows[i];
      RowsWait(reg, docs, st, stores, rows, i, rows[i]);
    } else {
      RowsStay(reg, docs, st, stores, rows, i, k - 1);
      assert rows[i] != rows[k - 1];
    }
  }

  /** An import without a clash: every entry is on a row of its own, as written; every other row is as it
      was; and the rows grew by the entries reported as created. */
  lemma EveryEntryOnItsOwnRow(
    reg: Registry, docs: seq<Document>, st: Stamp, stores: seq<Store>, rows: seq<CatalogId>)
    requires IsImport(reg, docs, st, stores, rows)
    requires IdentitiesAreUnique(reg, docs) && HrefsApart(stores[0]) && NoClash(reg, stores[0], docs)
    ensures NoRepeats(rows)
    ensures forall i :: 0 <= i < |docs| ==>
                          rows[i] in stores[|docs|] && AsImported(stores[|docs|][rows[i]], docs[i], st, i)
    ensures forall i :: 0 <= i < |docs| ==>
                          && IsAsWritten(docs[i], stores[|docs|][rows[i]].content)
                          && IsLifeAfterImport(stores[0], stores[|docs|], rows[i], st)
    ensures forall r :: r in stores[0] && r !in rows ==> r in stores[|docs|] && stores[|docs|][r] == stores[0][r]
    ensures stores[|docs|].Keys == stores[0].Keys + set r | r in rows
    ensures |stores[|docs|]| == |stores[0]| + CreatedCount(stores, rows, |docs|)
  {
    hide Imports, NoClash, HrefsApart, AsImported, IsAsWritten, IsLifeAfterImport, Placed;
    NoClashLandsApart(reg, docs, st, stores, rows, |docs|);
    RowsGrowByCreated(reg, docs, st, stores, rows, |docs|);
    assert rows[..|docs|] == rows;
    forall i | 0 <= i < |docs|
      ensures IsAsWritten(docs[i], stores[|docs|][rows[i]].content)
      ensures IsLifeAfterImport(stores[0], stores[|docs|], rows[i], st)
    {
      RowsStay(reg, docs, st, stores, rows, i, |docs|);
    }
  }
}
