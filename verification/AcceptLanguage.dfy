/**
 `Accept-Language` from its text to its ranges (section 12.5.4 of RFC 9110): which element each range comes from,
 what its tag and quality are, and in which order the ranges stand.
 */
module AcceptLanguage {
  import opened Wrappers
  import opened HeaderText
  import opened Language
  import Parameters
  import Sorting
  import Text

  // ---- What the header asks for ----------------------------------------------------------------------

  /** A readable value counts between 0 and 1000 thousandths; an unreadable one as 1000. */
  predicate IsClamped(value: Option<int>, quality: int) {
    match value
    case None => quality == 1000
    case Some(v) => if v < 0 then quality == 0 else if v > 1000 then quality == 1000 else quality == v
  }

  /** The first parameter that sets a quality decides, and without one it is 1000. */
  ghost predicate IsQualityOf(read: string -> Option<int>, parameters: seq<string>, quality: int) {
    || (quality == 1000 && forall p, v :: p in parameters ==> !Parameters.SetsQuality(p, v))
    || exists i, v :: 0 <= i < |parameters| && Parameters.SetsQuality(parameters[i], v)
                      && (forall j, u :: 0 <= j < i ==> !Parameters.SetsQuality(parameters[j], u))
                      && IsClamped(read(Text.Strip(v, Text.IsSpace)), quality)
  }

  ghost predicate IsRangeOf(read: string -> Option<int>, e: Element, r: LanguageRange) {
    r.tag == NormaliseLanguageTag(e.name) && IsQualityOf(read, e.parameters, r.quality)
  }

  /** The ranges are those of the first fifty elements that name a tag, `places[k]` the element of the `k`-th, best
      quality first and in the header's order within one quality. */
  ghost predicate AreRangesOf(
    read: string -> Option<int>, elements: seq<Element>, ranges: seq<LanguageRange>, places: seq<nat>) {
    && |places| == |ranges|
    && (forall i: nat :: i in places <==> i < |elements| && i < 50 && NormaliseLanguageTag(elements[i].name) != "")
    && (forall k :: 0 <= k < |ranges| ==> places[k] < |elements| && IsRangeOf(read, elements[places[k]], ranges[k]))
    && (forall k, l :: 0 <= k < l < |ranges| ==>
                         || ranges[k].quality > ranges[l].quality
                         || (ranges[k].quality == ranges[l].quality && places[k] < places[l]))
  }

  // ---- One element -----------------------------------------------------------------------------------

  lemma {:induction false} QualityOfParameters(read: string -> Option<int>, parameters: seq<string>)
    ensures IsQualityOf(read, parameters, ParseQuality(read, parameters))
  {
    hide Parameters.IsQuality, Parameters.Partition, Parameters.SetsQuality;
    var i := 0;
    while i < |parameters| && !Parameters.IsQuality(parameters[i])
      invariant 0 <= i <= |parameters| && forall j :: 0 <= j < i ==> !Parameters.IsQuality(parameters[j])
    {
      i := i + 1;
    }
    FirstQualityCounts(read, parameters, i);
    forall j, u | 0 <= j < i ensures !Parameters.SetsQuality(parameters[j], u) {
      Parameters.QualityIsWritten(parameters[j], u);
    }
    if i < |parameters| {
      var v := Parameters.Partition(parameters[i]).1;
      Parameters.QualityIsWritten(parameters[i], v);
      assert IsClamped(read(Text.Strip(v, Text.IsSpace)), ParseQuality(read, parameters));
    }
  }

  lemma ElementIsRead(read: string -> Option<int>, e: Element)
    requires IsElement(e)
    ensures ParseElement(read, Written(e)).Some? <==> NormaliseLanguageTag(e.name) != ""
    ensures ParseElement(read, Written(e)).Some? ==> IsRangeOf(read, e, ParseElement(read, Written(e)).value)
  {
    var pieces := [e.name] + e.parameters;
    Text.SplitOfJoin(pieces, ';');
    assert pieces[1..] == e.parameters;
    hide Text.Split, Text.Join, NormaliseLanguageTag, IsQualityOf;
    QualityOfParameters(read, e.parameters);
  }

  // ---- All of them -----------------------------------------------------------------------------------

  /** The parsed elements, with the place of each. */
  ghost predicate AreParsed(
    read: string -> Option<int>, elements: seq<string>, ranges: seq<LanguageRange>, places: seq<nat>) {
    && |places| == |ranges|
    && (forall i: nat :: i in places <==> i < |elements| && ParseElement(read, elements[i]).Some?)
    && (forall k :: 0 <= k < |ranges| ==>
                      places[k] < |elements| && ParseElement(read, elements[places[k]]) == Some(ranges[k]))
    && (forall k, l :: 0 <= k < l < |ranges| ==> places[k] < places[l])
  }

  lemma {:induction false} ParsedPlaces(read: string -> Option<int>, elements: seq<string>) returns (places: seq<nat>)
    ensures AreParsed(read, elements, ParseElements(read, elements), places)
  {
    hide ParseElement;
    if elements == [] {
      places := [];
    } else {
      var n := |elements| - 1;
      var front := ParsedPlaces(read, elements[..n]);
      ParseOneMore(read, elements[..n], elements[n]);
      assert elements == elements[..n] + [elements[n]];
      places := front + if ParseElement(read, elements[n]).Some? then [n] else [];
      ParsedWithOneMore(read, elements, ParseElements(read, elements[..n]), front);
    }
  }

  lemma ParsedWithOneMore(
    read: string -> Option<int>, elements: seq<string>, ranges: seq<LanguageRange>, places: seq<nat>)
    requires elements != [] && AreParsed(read, elements[..|elements| - 1], ranges, places)
    ensures var last := ParseElement(read, elements[|elements| - 1]);
            AreParsed(read, elements, ranges + (if last.Some? then [last.value] else []),
                      places + if last.Some? then [|elements| - 1] else [])
  {
    hide ParseElement;
    var n := |elements| - 1;
    var last := ParseElement(read, elements[n]);
    var all := places + if last.Some? then [n] else [];
    forall i: nat ensures i in all <==> i < |elements| && ParseElement(read, elements[i]).Some? {
      assert i in all <==> i in places || (last.Some? && i == n);
    }
    forall k | 0 <= k < |places| ensures places[k] < n { assert places[k] in places; }
  }

  lemma SortedAreRanges(
    read: string -> Option<int>, elements: seq<string>, parsed: seq<LanguageRange>, from: seq<nat>, order: seq<nat>)
    returns (places: seq<nat>)
    requires AreParsed(read, elements, parsed, from)
    requires Sorting.IsRearranged(parsed, Sorting.Sort(NotWorse, parsed), order)
    requires Sorting.IsStable(NotWorse, parsed, order)
    ensures var ranges := Sorting.Sort(NotWorse, parsed);
            && |places| == |ranges|
            && (forall i: nat :: i in places <==> i < |elements| && ParseElement(read, elements[i]).Some?)
            && (forall k :: 0 <= k < |ranges| ==>
                              places[k] < |elements| && ParseElement(read, elements[places[k]]) == Some(ranges[k]))
            && (forall k, l :: 0 <= k < l < |ranges| && ranges[k].quality == ranges[l].quality ==>
                                 places[k] < places[l])
  {
    hide ParseElement, Sorting.Sort, Sorting.NoRepeats;
    var ranges := Sorting.Sort(NotWorse, parsed);
    places := seq(|order|, k requires 0 <= k < |order| => from[order[k]]);
    forall i: nat ensures i in places <==> i in from {
      if i in from {
        var m :| 0 <= m < |from| && from[m] == i;
        assert m in order;
        var k :| 0 <= k < |order| && order[k] == m;
        assert places[k] == i;
      }
    }
    forall k | 0 <= k < |ranges|
      ensures places[k] < |elements| && ParseElement(read, elements[places[k]]) == Some(ranges[k])
    {
      assert places[k] == from[order[k]] && ranges[k] == parsed[order[k]];
    }
    forall k, l | 0 <= k < l < |ranges| && ranges[k].quality == ranges[l].quality ensures places[k] < places[l] {
      assert ranges[k] == parsed[order[k]] && ranges[l] == parsed[order[l]];
      assert NotWorse(parsed[order[l]], parsed[order[k]]);
      assert order[k] < order[l];
    }
  }

  /** An empty header has one empty element, which names no tag. */
  lemma EmptyHeader(elements: seq<Element>)
    requires elements != [] && (forall e :: e in elements ==> IsElement(e)) && Header(elements) == ""
    ensures |elements| == 1 && NormaliseLanguageTag(elements[0].name) == ""
  {
    HeaderIsSplit(elements);
    var header := Header(elements);
    Text.SplitOfPlain(header, ',');
    Text.SplitOfPlain(header, ';');
    hide Text.Split, Text.Join, Header;
    assert WrittenAll(elements)[0] == Written(elements[0]) == header;
    assert elements[0] in elements;
    PiecesOf(elements[0]);
    Text.StripOfBlanks(header, Text.IsSpace);
  }

  /** What is read of the header: its first fifty elements, none of an empty one. */
  lemma HeaderElementsAre(elements: seq<Element>)
    requires elements != [] && forall e :: e in elements ==> IsElement(e)
    ensures var texts := HeaderElements(Some(Header(elements)));
            && |texts| <= |elements| && |texts| <= 50
            && (forall i :: 0 <= i < |texts| ==> texts[i] == Written(elements[i]))
            && forall i :: |texts| <= i < |elements| && i < 50 ==> NormaliseLanguageTag(elements[i].name) == ""
  {
    hide *;
    HeaderIsSplit(elements);
    HeaderIsCut(Header(elements));
    if Header(elements) == "" { EmptyHeader(elements); }
  }

  lemma HeaderIsCut(header: string)
    ensures var texts := Text.Split(header, ',');
            HeaderElements(Some(header)) == if header == "" then [] else if |texts| <= 50 then texts else texts[..50]
  {
    hide Text.Split;
  }

  /** What `Accept-Language` reads to, for every header of comma-separated elements. */
  lemma HeaderIsRead(read: string -> Option<int>, elements: seq<Element>) returns (places: seq<nat>)
    requires elements != [] && forall e :: e in elements ==> IsElement(e)
    ensures AreRangesOf(read, elements, ParsedLanguages(read, Some(Header(elements))), places)
  {
    hide *;
    var header := Some(Header(elements));
    var texts := HeaderElements(header);
    HeaderElementsAre(elements);
    var parsed := ParseElements(read, texts);
    var from := ParsedPlaces(read, texts);
    var order := Sorting.SortPlaces(NotWorse, parsed);
    places := SortedAreRanges(read, texts, parsed, from, order);
    forall i | 0 <= i < |texts|
      ensures ParseElement(read, texts[i]).Some? <==> NormaliseLanguageTag(elements[i].name) != ""
      ensures ParseElement(read, texts[i]).Some? ==> IsRangeOf(read, elements[i], ParseElement(read, texts[i]).value)
    {
      assert elements[i] in elements;
      ElementIsRead(read, elements[i]);
    }
    RangesFall(read, texts);
    ParsedIsSorted(read, header);
    TheyAreRanges(read, elements, texts, Sorting.Sort(NotWorse, parsed), places);
  }

  lemma ParsedIsSorted(read: string -> Option<int>, header: Option<string>)
    ensures ParsedLanguages(read, header) == Sorting.Sort(NotWorse, ParseElements(read, HeaderElements(header)))
  {
  }

  lemma RangesFall(read: string -> Option<int>, texts: seq<string>)
    ensures var ranges := Sorting.Sort(NotWorse, ParseElements(read, texts));
            forall k, l :: 0 <= k < l < |ranges| ==> ranges[k].quality >= ranges[l].quality
  {
    var ranges := Sorting.Sort(NotWorse, ParseElements(read, texts));
    Sorting.SortIsSorted(NotWorse, ParseElements(read, texts));
    hide Sorting.Sort, ParseElements;
    forall k, l | 0 <= k < l < |ranges| ensures ranges[k].quality >= ranges[l].quality {
      assert NotWorse(ranges[k], ranges[l]);
    }
  }

  lemma TheyAreRanges(
    read: string -> Option<int>, elements: seq<Element>, texts: seq<string>, ranges: seq<LanguageRange>,
    places: seq<nat>)
    requires |texts| <= |elements| && |texts| <= 50 && |places| == |ranges|
    requires forall i :: |texts| <= i < |elements| && i < 50 ==> NormaliseLanguageTag(elements[i].name) == ""
    requires forall i :: 0 <= i < |texts| ==>
                           && (ParseElement(read, texts[i]).Some? <==> NormaliseLanguageTag(elements[i].name) != "")
                           && (ParseElement(read, texts[i]).Some? ==>
                                 IsRangeOf(read, elements[i], ParseElement(read, texts[i]).value))
    requires forall i: nat :: i in places <==> i < |texts| && ParseElement(read, texts[i]).Some?
    requires forall k :: 0 <= k < |ranges| ==>
                           places[k] < |texts| && ParseElement(read, texts[places[k]]) == Some(ranges[k])
    requires forall k, l :: 0 <= k < l < |ranges| && ranges[k].quality == ranges[l].quality ==> places[k] < places[l]
    requires forall k, l :: 0 <= k < l < |ranges| ==> ranges[k].quality >= ranges[l].quality
    ensures AreRangesOf(read, elements, ranges, places)
  {
    hide ParseElement, NormaliseLanguageTag, IsRangeOf;
  }
}
