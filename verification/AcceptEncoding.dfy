/**
 `Accept-Encoding` from its text to the coding chosen (section 12.5.3 of RFC 9110): what each element says of the
 coding it names, which one counts, and what the server makes of it.
 */
module AcceptEncoding {
  import opened Wrappers
  import opened ContentCoding
  import opened HeaderText
  import Parameters
  import Text

  /** The coding an element names. */
  function CodingOf(e: Element): string {
    Text.Lower(Text.Strip(e.name, Text.IsSpace))
  }

  ghost predicate Sets(parameter: string, value: string) {
    Parameters.SetsQuality(Text.Strip(parameter, Text.IsSpace), value)
  }

  /** A number counts between 0 and 1; what is not a number counts as 0. */
  predicate IsClamped(x: Float, quality: real) {
    match x
    case NotANumber => quality == 0.0
    case Infinite(negative) => if negative then quality == 0.0 else quality == 1.0
    case Finite(v) => if v < 0.0 then quality == 0.0 else if v > 1.0 then quality == 1.0 else quality == v
  }

  /** Parameter `i` sets the quality, to `value`, and no later one does. */
  ghost predicate IsLastSetter(parameters: seq<string>, i: nat, value: string) {
    && i < |parameters| && Sets(parameters[i], value)
    && forall j, u :: i < j < |parameters| ==> !Sets(parameters[j], u)
  }

  ghost predicate HasNoSetter(parameters: seq<string>) {
    forall p, v :: p in parameters ==> !Sets(p, v)
  }

  /** The element is readable, and the last parameter that sets a quality gives this one; 1 without any. */
  ghost predicate HasWeight(read: string -> Option<Float>, e: Element, quality: real) {
    && (forall p, v :: p in e.parameters && Sets(p, v) ==> read(v).Some?)
    && (|| (quality == 1.0 && HasNoSetter(e.parameters))
        || exists i, v :: IsLastSetter(e.parameters, i, v) && read(v).Some? && IsClamped(read(v).value, quality))
  }

  /** A readable element after element `i` names the coding. */
  ghost predicate IsWeighedAfter(read: string -> Option<Float>, elements: seq<Element>, coding: string, i: nat) {
    exists j, q :: i < j < |elements| && CodingOf(elements[j]) == coding && HasWeight(read, elements[j], q)
  }

  /** What the header says of a coding is what the last readable element that names it says. */
  ghost predicate Weighs(read: string -> Option<Float>, elements: seq<Element>, coding: string, quality: real) {
    exists i :: 0 <= i < |elements| && CodingOf(elements[i]) == coding && HasWeight(read, elements[i], quality)
                && !IsWeighedAfter(read, elements, coding, i)
  }

  // ---- One element -----------------------------------------------------------------------------------

  lemma QIsWritten(p: string, value: string)
    ensures Sets(p, value) <==> IsQ(p) && Parameters.Partition(Stripped(p)).1 == value
  {
    hide *;
    Parameters.QualityIsWritten(Text.Strip(p, Text.IsSpace), value);
    SetsIs(p, value);
  }

  lemma SetsIs(p: string, value: string)
    ensures Sets(p, value) <==> Parameters.SetsQuality(Text.Strip(p, Text.IsSpace), value)
    ensures IsQ(p) <==> Parameters.IsQuality(Text.Strip(p, Text.IsSpace))
    ensures Stripped(p) == Text.Strip(p, Text.IsSpace)
  {
    hide Text.Strip, Parameters.IsQuality, Parameters.SetsQuality;
  }

  lemma ReadableIs(read: string -> Option<Float>, p: string)
    ensures IsReadable(read, p) <==> forall v :: Sets(p, v) ==> read(v).Some?
    ensures !IsQ(p) <==> forall v :: !Sets(p, v)
    ensures IsQ(p) ==> exists v :: Sets(p, v) && ValueOf(read, p) == read(v)
  {
    hide Stripped, Parameters.Partition, Sets, IsQ;
    var value := Parameters.Partition(Stripped(p)).1;
    QIsWritten(p, value);
    forall v ensures Sets(p, v) <==> IsQ(p) && value == v { QIsWritten(p, v); }
    assert ValueOf(read, p) == read(value);
  }

  lemma QualityIsClamped(read: string -> Option<Float>, p: string, v: string)
    requires ValueOf(read, p) == read(v) && read(v).Some?
    ensures IsClamped(read(v).value, QualityIn(read, p))
  {
    hide ValueOf;
  }

  lemma {:induction false} LastQuality(parameters: seq<string>) returns (i: nat)
    ensures i <= |parameters| && (i > 0 ==> IsQ(parameters[i - 1]))
    ensures forall j :: i <= j < |parameters| ==> !IsQ(parameters[j])
  {
    hide IsQ;
    i := |parameters|;
    while i > 0 && !IsQ(parameters[i - 1])
      invariant i <= |parameters| && forall j :: i <= j < |parameters| ==> !IsQ(parameters[j])
    {
      i := i - 1;
    }
  }

  lemma WeightIsRead(read: string -> Option<Float>, e: Element)
    ensures ReadQuality(read, e.parameters).1 <==> forall p, v :: p in e.parameters && Sets(p, v) ==> read(v).Some?
    ensures ReadQuality(read, e.parameters).1 ==> HasWeight(read, e, ReadQuality(read, e.parameters).0)
  {
    hide ReadQuality, IsReadable, Sets, IsQ, ValueOf, QualityIn, IsClamped;
    var parameters := e.parameters;
    ReadableMeans(read, parameters);
    forall p { ReadableIs(read, p); }
    if ReadQuality(read, parameters).1 {
      var i := LastQuality(parameters);
      LastQualityCounts(read, parameters, i);
      if i > 0 {
        var p := parameters[i - 1];
        var v :| Sets(p, v) && ValueOf(read, p) == read(v);
        assert p in parameters;
        QualityIsClamped(read, p, v);
        assert IsLastSetter(parameters, i - 1, v);
      }
    }
  }

  /** An element has at most one weight. */
  lemma OneWeight(read: string -> Option<Float>, e: Element, q: real, r: real)
    requires HasWeight(read, e, q) && HasWeight(read, e, r)
    ensures q == r
  {
    hide IsLastSetter, HasNoSetter, Sets;
    var parameters := e.parameters;
    if HasNoSetter(parameters) {
      NoLastSetter(parameters);
    } else {
      var i, v :| IsLastSetter(parameters, i, v) && read(v).Some? && IsClamped(read(v).value, q);
      var k, w :| IsLastSetter(parameters, k, w) && read(w).Some? && IsClamped(read(w).value, r);
      SameLastSetter(parameters, i, v, k, w);
    }
  }

  lemma NoLastSetter(parameters: seq<string>)
    requires HasNoSetter(parameters)
    ensures forall i, v :: !IsLastSetter(parameters, i, v)
  {
    hide Sets;
  }

  lemma SameLastSetter(parameters: seq<string>, i: nat, v: string, k: nat, w: string)
    requires IsLastSetter(parameters, i, v) && IsLastSetter(parameters, k, w)
    ensures v == w
  {
    hide Sets;
    assert i == k;
    SetsOnce(parameters[i], v, w);
  }

  lemma SetsOnce(p: string, v: string, w: string)
    requires Sets(p, v) && Sets(p, w)
    ensures v == w
  {
    hide *;
    QIsWritten(p, v);
    QIsWritten(p, w);
  }

  lemma PartIsRead(read: string -> Option<Float>, e: Element, q: real)
    requires IsElement(e)
    ensures ReadPart(read, Written(e)) == Some(Preference(CodingOf(e), q)) <==>
            CodingOf(e) != "" && HasWeight(read, e, q)
    ensures ReadPart(read, Written(e)).Some? ==> ReadPart(read, Written(e)).value.name == CodingOf(e)
  {
    PiecesOf(e);
    assert ([e.name] + e.parameters)[1..] == e.parameters;
    WeightIsRead(read, e);
    hide ReadQuality, Written, Text.Split, HasWeight, Text.Strip, Text.Lower, Sets, IsElement;
    var (quality, readable) := ReadQuality(read, e.parameters);
    if HasWeight(read, e, q) {
      assert readable by { WeightIsReadable(read, e, q); }
      OneWeight(read, e, q, quality);
    }
  }

  lemma WeightIsReadable(read: string -> Option<Float>, e: Element, q: real)
    requires HasWeight(read, e, q)
    ensures forall p, v :: p in e.parameters && Sets(p, v) ==> read(v).Some?
  {
    hide Sets;
  }

  // ---- The whole header ------------------------------------------------------------------------------

  /** What the header says of every coding, for every header of comma-separated elements. */
  lemma HeaderIsWeighed(read: string -> Option<Float>, elements: seq<Element>, coding: string, quality: real)
    requires elements != [] && (forall e :: e in elements ==> IsElement(e)) && coding != ""
    ensures var wanted := Wanted(read, Some(Header(elements)));
            coding in wanted && wanted[coding] == quality <==> Weighs(read, elements, coding, quality)
  {
    hide *;
    var parts := WrittenAll(elements);
    HeaderIsSplit(elements);
    WantedAre(read, Header(elements));
    var i := LastPartWins(read, parts, coding);
    forall j, q | 0 <= j < |elements|
      ensures ReadPart(read, parts[j]) == Some(Preference(CodingOf(elements[j]), q)) <==>
              CodingOf(elements[j]) != "" && HasWeight(read, elements[j], q)
    {
      assert elements[j] in elements;
      PartIsRead(read, elements[j], q);
    }
    forall j | 0 <= j < |elements| && ReadPart(read, parts[j]).Some?
      ensures ReadPart(read, parts[j]).value.name == CodingOf(elements[j])
    {
      assert elements[j] in elements;
      PartIsRead(read, elements[j], 0.0);
    }
    LastElementWins(read, elements, parts, ReadParts(read, parts), coding, quality, i);
  }

  lemma WantedAre(read: string -> Option<Float>, header: string)
    ensures Wanted(read, Some(header)) == ReadParts(read, Text.Split(header, ','))
  {
    hide ReadParts, Text.Split;
  }

  lemma LastElementWins(
    read: string -> Option<Float>, elements: seq<Element>, parts: seq<string>, wanted: map<string, real>,
    coding: string, quality: real, i: int)
    requires |parts| == |elements| && -1 <= i < |parts| && coding != ""
    requires forall j, q :: 0 <= j < |elements| ==>
                              (ReadPart(read, parts[j]) == Some(Preference(CodingOf(elements[j]), q)) <==>
                               CodingOf(elements[j]) != "" && HasWeight(read, elements[j], q))
    requires forall j :: 0 <= j < |elements| && ReadPart(read, parts[j]).Some? ==>
                           ReadPart(read, parts[j]).value.name == CodingOf(elements[j])
    requires coding in wanted ==> i >= 0 && ReadPart(read, parts[i]) == Some(Preference(coding, wanted[coding]))
    requires coding !in wanted ==> i == -1
    requires forall j :: i < j < |parts| ==> !Names(ReadPart(read, parts[j]), coding)
    ensures coding in wanted && wanted[coding] == quality <==> Weighs(read, elements, coding, quality)
  {
    hide ReadPart, CodingOf, HasWeight;
    forall j, q | i < j < |elements| && CodingOf(elements[j]) == coding ensures !HasWeight(read, elements[j], q) {
      assert !Names(ReadPart(read, parts[j]), coding);
    }
    if coding in wanted {
      assert CodingOf(elements[i]) == coding && HasWeight(read, elements[i], wanted[coding]);
    }
    if Weighs(read, elements, coding, quality) {
      var k :| 0 <= k < |elements| && CodingOf(elements[k]) == coding && HasWeight(read, elements[k], quality)
               && !IsWeighedAfter(read, elements, coding, k);
      assert k <= i;
      assert k == i;
    }
  }

  /** How much an offered coding is wanted: what the header says of it; of one it does not name, nothing for zstd and
      what it says of `*` for the others. */
  ghost predicate IsWanted(wanted: map<string, real>, coding: string, quality: real) {
    || (coding in wanted && quality == wanted[coding])
    || (coding !in wanted && coding != "zstd" && "*" in wanted && quality == wanted["*"])
    || (coding !in wanted && (coding == "zstd" || "*" !in wanted) && quality == 0.0)
  }

  /** The coding chosen is wanted, more than the ones the server prefers and no less than the others. */
  lemma ChosenIsWantedMost(read: string -> Option<Float>, header: Option<string>, i: nat)
    requires i < |OFFERED|
    ensures var wanted := Wanted(read, header);
            Chosen(read, header) == Some(OFFERED[i]) <==>
            exists q :: IsWanted(wanted, OFFERED[i], q) && q > 0.0
                        && (forall j, p :: 0 <= j < i && IsWanted(wanted, OFFERED[j], p) ==> p < q)
                        && (forall j, p :: i < j < |OFFERED| && IsWanted(wanted, OFFERED[j], p) ==> p <= q)
  {
    var wanted := Wanted(read, header);
    ChosenIsTheBestOffered(read, header);
    hide Wanted, Chosen;
    forall c, q ensures IsWanted(wanted, c, q) <==> q == Quality(wanted, c) {}
    hide Quality, IsWanted;
    assert OFFERED[i] in OFFERED;
    if Chosen(read, header) == Some(OFFERED[i]) {
      OfferedDiffer();
      assert IsBest(wanted, OFFERED, i);
      assert IsWanted(wanted, OFFERED[i], Quality(wanted, OFFERED[i]));
    }
    if q :| IsWanted(wanted, OFFERED[i], q) && q > 0.0
            && (forall j, p :: 0 <= j < i && IsWanted(wanted, OFFERED[j], p) ==> p < q)
            && (forall j, p :: i < j < |OFFERED| && IsWanted(wanted, OFFERED[j], p) ==> p <= q) {
      forall j | 0 <= j < i ensures Quality(wanted, OFFERED[j]) < q {
        assert IsWanted(wanted, OFFERED[j], Quality(wanted, OFFERED[j]));
      }
      forall j | i < j < |OFFERED| ensures Quality(wanted, OFFERED[j]) <= q {
        assert IsWanted(wanted, OFFERED[j], Quality(wanted, OFFERED[j]));
      }
      assert IsBest(wanted, OFFERED, i);
    }
  }

  /** So zstd is chosen when nothing is wanted more, brotli when nothing is and zstd is wanted less, and gzip when it
      is wanted most. */
  lemma ServerPrefersZstd(read: string -> Option<Float>, header: Option<string>, zstd: real, br: real, gzip: real)
    requires var wanted := Wanted(read, header);
             IsWanted(wanted, "zstd", zstd) && IsWanted(wanted, "br", br) && IsWanted(wanted, "gzip", gzip)
    ensures Chosen(read, header) == Some("zstd") <==> zstd > 0.0 && br <= zstd && gzip <= zstd
    ensures Chosen(read, header) == Some("br") <==> br > 0.0 && zstd < br && gzip <= br
    ensures Chosen(read, header) == Some("gzip") <==> gzip > 0.0 && zstd < gzip && br < gzip
  {
    var wanted := Wanted(read, header);
    BestOfThree(wanted, "zstd", "br", "gzip");
    ChosenIs(read, header);
    hide Wanted, Chosen, BestOf;
    WantedIsQuality(wanted, "zstd", zstd);
    WantedIsQuality(wanted, "br", br);
    WantedIsQuality(wanted, "gzip", gzip);
    hide IsWanted, Quality;
    OfferedDiffer();
  }

  lemma ChosenIs(read: string -> Option<Float>, header: Option<string>)
    ensures var best := BestOf(Wanted(read, header), OFFERED);
            Chosen(read, header) == if best.Some? then Some(best.value.name) else None
  {
    hide Wanted, BestOf;
  }

  lemma WantedIsQuality(wanted: map<string, real>, coding: string, quality: real)
    ensures IsWanted(wanted, coding, quality) <==> quality == Quality(wanted, coding)
  {
  }

  lemma BestOfThree(wanted: map<string, real>, first: string, second: string, third: string)
    requires OFFERED == [first, second, third]
    ensures var one, two, three := Quality(wanted, first), Quality(wanted, second), Quality(wanted, third);
            BestOf(wanted, OFFERED) ==
            if one > 0.0 && two <= one && three <= one then Some(Preference(first, one))
            else if two > 0.0 && three <= two then Some(Preference(second, two))
            else if three > 0.0 then Some(Preference(third, three))
            else None
  {
    hide Quality;
    BestOfOneMore(wanted, [], first);
    BestOfOneMore(wanted, [first], second);
    BestOfOneMore(wanted, [first, second], third);
    assert [] + [first] == [first] && [first] + [second] == [first, second];
    assert [first, second] + [third] == OFFERED;
    hide BestOf;
    assert BestOf(wanted, []) == None by { NothingIsBest(wanted); }
  }

  lemma NothingIsBest(wanted: map<string, real>)
    ensures BestOf(wanted, []) == None
  {
  }

  lemma BestOfOneMore(wanted: map<string, real>, codings: seq<string>, coding: string)
    ensures var before, quality := BestOf(wanted, codings), Quality(wanted, coding);
            BestOf(wanted, codings + [coding]) ==
            if quality > (if before.Some? then before.value.quality else 0.0) then Some(Preference(coding, quality))
            else before
  {
    hide Quality;
    assert (codings + [coding])[..|codings|] == codings;
  }

  lemma OfferedDiffer()
    ensures forall i, j :: 0 <= i < j < |OFFERED| ==> OFFERED[i] != OFFERED[j]
  {
    assert |OFFERED[0]| == 4 && |OFFERED[1]| == 2 && OFFERED[2][0] == 'g';
  }
}
