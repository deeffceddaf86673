/** Importing a document again at once changes nothing but the stamps that encode the file order. */
module Reimport {
  import opened Wrappers
  import opened Lifecycle
  import opened Catalogs
  import opened Importer
  import opened ImportTheorems
  import opened Sorting

  predicate SameButStamp(a: CatalogRow, b: CatalogRow) {
    a.life == b.life && a.content == b.content
  }

  /** The store after the first import with the first `k` entries restamped. */
  function Restamped(s: Store, rows: seq<CatalogId>, st: Stamp, k: nat): Store
    requires k <= |rows|
  {
    if k == 0 then s
    else
      var t, r := Restamped(s, rows, st, k - 1), rows[k - 1];
      if r in t then t[r := t[r].(createdAt := st.anchor - (k - 1))] else t
  }

  lemma {:induction false} RestampedKeeps(s: Store, rows: seq<CatalogId>, st: Stamp, k: nat)
    requires k <= |rows|
    ensures Restamped(s, rows, st, k).Keys == s.Keys
    ensures forall r :: r in s ==> SameButStamp(Restamped(s, rows, st, k)[r], s[r])
    ensures forall r :: r in s && r !in rows[..k] ==> Restamped(s, rows, st, k)[r] == s[r]
  {
    if k > 0 {
      RestampedKeeps(s, rows, st, k - 1);
      assert rows[..k] == rows[..k - 1] + [rows[k - 1]];
    }
  }

  lemma {:induction false} RestampedRow(s: Store, rows: seq<CatalogId>, st: Stamp, k: nat, i: nat)
    requires i < k <= |rows| && NoRepeats(rows) && rows[i] in s
    ensures rows[i] in Restamped(s, rows, st, k) && Restamped(s, rows, st, k)[rows[i]].createdAt == st.anchor - i
  {
    if i < k - 1 {
      RestampedRow(s, rows, st, k - 1, i);
    } else {
      RestampedKeeps(s, rows, st, k - 1);
    }
  }

  /** In the imported store each entry is found again, on the row it landed on. */
  lemma FoundAgain(
    reg: Registry, docs: seq<Document>, st: Stamp, stores: seq<Store>, rows: seq<CatalogId>, t: Store, i: nat)
    requires IsImport(reg, docs, st, stores, rows) && IdentitiesAreUnique(reg, docs) && i < |docs|
    requires Landed(reg, docs, st, stores, rows, |docs|)
    requires t.Keys == stores[|docs|].Keys && forall r :: r in t ==> t[r].content == stores[|docs|][r].content
    ensures rows[i] in t && Claims(reg, t, docs[i], rows[i])
  {
    assert Placed(reg, stores[0], docs[i], rows[i]);
    assert rows[..|docs|] == rows && AsImported(stores[|docs|][rows[i]], docs[i], st, i);
    OwnHrefIsStored(reg, docs[i]);
    FoundByIdWasStored(reg, docs, st, stores, rows, |docs|, i);
  }

  lemma ImportsAgain(reg: Registry, t: Store, d: Document, st: Stamp, again: Stamp, i: int, r: CatalogId)
    requires again.recommended == st.recommended
    requires Resolves(reg, d) && IsoCodesAreUppercase(d) && RowFits(reg, BuildContent(d)) && HrefsApart(t)
    requires Claims(reg, t, d, r) && r in t && AsImported(t[r].(createdAt := st.anchor - i), d, st, i)
    ensures Imports(reg, t, d, again, again.anchor - i, r, t[r := t[r].(createdAt := again.anchor - i)])
  {
    var t' := t[r := t[r].(createdAt := again.anchor - i)];
    assert t[r].(createdAt := again.anchor - i) == ReplacedRow(t[r], d, again.recommended, again.anchor - i, again.now);
    assert forall q :: q in t ==> t'[q].content == t[q].content;
  }

  lemma SameContentSameHrefs(s: Store, t: Store)
    requires HrefsApart(s) && t.Keys == s.Keys && forall r :: r in s ==> t[r].content == s[r].content
    ensures HrefsApart(t)
  {
  }

  lemma ImportedFits(reg: Registry, s: Store, d: Document, st: Stamp, at: int, r: CatalogId, t: Store)
    requires Imports(reg, s, d, st, at, r, t)
    ensures Resolves(reg, d) && IsoCodesAreUppercase(d) && RowFits(reg, BuildContent(d))
  {
  }

  lemma RestampStep(
    reg: Registry, docs: seq<Document>, st: Stamp, stores: seq<Store>, rows: seq<CatalogId>, again: Stamp, i: nat)
    requires |stores| == |docs| + 1 && |rows| == |docs| && i < |docs|
    requires IsImport(reg, docs, st, stores, rows) && IdentitiesAreUnique(reg, docs)
    requires Landed(reg, docs, st, stores, rows, |docs|)
    requires again.recommended == st.recommended
    ensures Imports(reg, Restamped(stores[|docs|], rows, again, i), docs[i], again, again.anchor - i, rows[i],
                    Restamped(stores[|docs|], rows, again, i + 1))
  {
    hide Imports, Claims, RowFits, Resolves, BuildContent, IsImport, Placed, Landed, HrefsApart;
    var s, t := stores[|docs|], Restamped(stores[|docs|], rows, again, i);
    ImportStep(reg, docs, st, stores, rows, i);
    ImportedFits(reg, stores[i], docs[i], st, st.anchor - i, rows[i], stores[i + 1]);
    RestampedKeeps(s, rows, again, i);
    FoundAgain(reg, docs, st, stores, rows, t, i);
    LandedRow(reg, docs, st, stores, rows, |docs|, i);
    SameContentSameHrefs(s, t);
    ImportsAgain(reg, t, docs[i], st, again, i, rows[i]);
  }

  ghost function RestampedStores(s: Store, rows: seq<CatalogId>, st: Stamp): (stores: seq<Store>)
    ensures |stores| == |rows| + 1 && forall k :: 0 <= k < |stores| ==> stores[k] == Restamped(s, rows, st, k)
  {
    seq(|rows| + 1, k requires 0 <= k < |rows| + 1 => Restamped(s, rows, st, k))
  }

  lemma {:induction false} RestampedCreatesNothing(s: Store, rows: seq<CatalogId>, st: Stamp, k: nat)
    requires (forall r :: r in rows ==> r in s) && k <= |rows|
    ensures CreatedCount(RestampedStores(s, rows, st), rows, k) == 0
  {
    if k > 0 {
      RestampedCreatesNothing(s, rows, st, k - 1);
      RestampedKeeps(s, rows, st, k - 1);
    }
  }

  lemma RestampedIsImport(
    reg: Registry, docs: seq<Document>, st: Stamp, stores: seq<Store>, rows: seq<CatalogId>, again: Stamp)
    requires |stores| == |docs| + 1 && |rows| == |docs|
    requires IsImport(reg, docs, st, stores, rows) && IdentitiesAreUnique(reg, docs)
    requires Landed(reg, docs, st, stores, rows, |docs|)
    requires again.recommended == st.recommended
    ensures IsImport(reg, docs, again, RestampedStores(stores[|docs|], rows, again), rows)
  {
    hide Imports, Landed, IdentitiesAreUnique, Restamped;
    forall i | 0 <= i < |docs| {
      RestampStep(reg, docs, st, stores, rows, again, i);
    }
  }

  /** Importing the same document again at once goes through, creates nothing, finds every entry on the row it
      landed on, and changes `createdAt` alone, to the new run's stamps. */
  lemma ImportingAgainOnlyRestamps(
    reg: Registry, docs: seq<Document>, st: Stamp, stores: seq<Store>, rows: seq<CatalogId>, again: Stamp)
    returns (stores': seq<Store>)
    requires |stores| == |docs| + 1 && |rows| == |docs|
    requires IsImport(reg, docs, st, stores, rows)
    requires IdentitiesAreUnique(reg, docs) && HrefsApart(stores[0]) && NoClash(reg, stores[0], docs)
    requires again.recommended == st.recommended
    ensures |stores'| == |docs| + 1
    ensures IsImport(reg, docs, again, stores', rows) && stores'[0] == stores[|docs|]
    ensures CreatedCount(stores', rows, |docs|) == 0
    ensures stores'[|docs|].Keys == stores[|docs|].Keys
    ensures forall r :: r in stores'[0] ==> SameButStamp(stores'[|docs|][r], stores'[0][r])
    ensures forall r :: r in stores'[0] && r !in rows ==> stores'[|docs|][r] == stores'[0][r]
    ensures forall i :: 0 <= i < |docs| ==>
            rows[i] in stores'[|docs|] && stores'[|docs|][rows[i]].createdAt == again.anchor - i
  {
    hide IsImport, NoClash, IdentitiesAreUnique, HrefsApart, AsImported, Resolves, Landed, Restamped, SameButStamp;
    hide IsAsWritten, IsLifeAfterImport;
    var s := stores[|docs|];
    stores' := RestampedStores(s, rows, again);
    EachResolvesIn(reg, docs);
    EveryEntryOnItsOwnRow(reg, docs, st, stores, rows);
    NoClashLandsApart(reg, docs, st, stores, rows, |docs|);
    RestampedIsImport(reg, docs, st, stores, rows, again);
    RestampedCreatesNothing(s, rows, again, |docs|);
    RestampedKeeps(s, rows, again, |docs|);
    assert rows[..|docs|] == rows;
    RestampedNone(s, rows, again);
    forall i | 0 <= i < |docs|
      ensures rows[i] in stores'[|docs|] && stores'[|docs|][rows[i]].createdAt == again.anchor - i
    {
      RestampedRow(s, rows, again, |docs|, i);
    }
  }

  lemma EachResolvesIn(reg: Registry, docs: seq<Document>)
    requires IdentitiesAreUnique(reg, docs)
    ensures forall d :: d in docs ==> Resolves(reg, d)
  {
  }

  lemma RestampedNone(s: Store, rows: seq<CatalogId>, st: Stamp)
    ensures Restamped(s, rows, st, 0) == s
  {
  }
}
