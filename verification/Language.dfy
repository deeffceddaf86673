/**
 Matching language ranges to the tags a catalog declares: a match is a whole-subtag prefix in either
 direction, and the best one is decided by the range's place in the header, then by the subtags shared.
 */
module Language {
  import opened Wrappers
  import Parameters
  import Sorting
  import Text

  /** One range of `Accept-Language`, its quality in thousandths. */
  datatype LanguageRange = LanguageRange(tag: string, quality: int)

  datatype LanguageMatch = LanguageMatch(rank: nat, depth: nat)

  const MAX_LANGUAGE_RANGES := 50

  function NormaliseLanguageTag(tag: string): string {
    Text.Replace(Text.Lower(Text.Strip(tag, Text.IsSpace)), '_', '-')
  }

  function NormaliseChar(c: char): char {
    if Text.LowerChar(c) == '_' then '-' else Text.LowerChar(c)
  }

  lemma NormaliseCharRules(c: char)
    ensures NormaliseChar(NormaliseChar(c)) == NormaliseChar(c)
    ensures Text.IsSpace(NormaliseChar(c)) == Text.IsSpace(c)
  {
  }

  lemma NormaliseIsIdempotent(tag: string)
    ensures NormaliseLanguageTag(NormaliseLanguageTag(tag)) == NormaliseLanguageTag(tag)
  {
    hide Text.IsSpace, Text.LowerChar, Text.Strip;
    var blank := Text.IsSpace;
    var s, n := Text.Strip(tag, blank), NormaliseLanguageTag(tag);
    var i, j := Text.StripParts(tag, blank);
    assert |n| == |s|;
    forall k | 0 <= k < |n|
      ensures n[k] == NormaliseChar(s[k]) && blank(n[k]) == blank(s[k]) && NormaliseChar(n[k]) == n[k]
    {
      NormaliseCharRules(s[k]);
    }
    Text.StripOfStripped(n, blank);
    var twice := NormaliseLanguageTag(n);
    assert |twice| == |n| && forall k :: 0 <= k < |n| ==> twice[k] == NormaliseChar(n[k]);
  }

  /** The normal form of a tag between blanks: lower case, with hyphens for underscores. */
  lemma NormalFormIs(before: string, tag: string, after: string)
    requires Parameters.IsBlank(before) && Parameters.IsBlank(after)
    requires tag == "" || (!Text.IsSpace(tag[0]) && !Text.IsSpace(tag[|tag| - 1]))
    ensures var n := NormaliseLanguageTag(before + tag + after);
            |n| == |tag| && forall k :: 0 <= k < |n| ==> n[k] == if tag[k] == '_' then '-' else Text.LowerChar(tag[k])
  {
    var s, i, j := before + tag + after, |before|, |before| + |tag|;
    Parameters.BlanksAt(before);
    Parameters.BlanksAt(after);
    hide Text.IsSpace, Text.Strip, Parameters.IsBlank;
    assert forall k :: 0 <= k < i ==> s[k] == before[k];
    assert forall k :: j <= k < |s| ==> s[k] == after[k - j];
    if tag == "" {
      Text.StripOfBlanks(s, Text.IsSpace);
    } else {
      assert s[i] == tag[0] && s[j - 1] == tag[|tag| - 1] && s[i..j] == tag;
      Text.StripIsBetween(s, Text.IsSpace, i, j);
    }
  }

  // ---- Reading the header ----------------------------------------------------------------------------

  /** The first `q` parameter, clamped to 0..1; 1 when it is missing or unreadable. `read` is `float` rounded to
      thousandths. */
  function ParseQuality(read: string -> Option<int>, parameters: seq<string>): (q: int)
    ensures 0 <= q <= 1000
  {
    if parameters == [] then 1000
    else
      if !Parameters.IsQuality(parameters[0]) then ParseQuality(read, parameters[1..])
      else
        var value := read(Text.Strip(Parameters.Partition(parameters[0]).1, Text.IsSpace));
        if value.None? then 1000
        else if value.value < 0 then 0
        else if value.value > 1000 then 1000
        else value.value
  }

  function Clamped(quality: Option<int>): int {
    if quality.None? || quality.value > 1000 then 1000 else if quality.value < 0 then 0 else quality.value
  }

  /** Only the first `q` counts, and without one the quality is 1. */
  lemma {:induction false} FirstQualityCounts(read: string -> Option<int>, parameters: seq<string>, i: nat)
    requires i <= |parameters| && forall j :: 0 <= j < i ==> !Parameters.IsQuality(parameters[j])
    requires i < |parameters| ==> Parameters.IsQuality(parameters[i])
    ensures ParseQuality(read, parameters) ==
            if i == |parameters| then 1000
            else Clamped(read(Text.Strip(Parameters.Partition(parameters[i]).1, Text.IsSpace)))
  {
    hide Parameters.IsQuality, Parameters.Partition;
    if i > 0 { FirstQualityCounts(read, parameters[1..], i - 1); }
  }

  function ParseElement(read: string -> Option<int>, element: string): (r: Option<LanguageRange>)
    ensures r.Some? ==> 0 <= r.value.quality <= 1000 && r.value.tag != ""
  {
    var pieces := Text.Split(element, ';');
    var tag := NormaliseLanguageTag(pieces[0]);
    if tag == "" then None else Some(LanguageRange(tag, ParseQuality(read, pieces[1..])))
  }

  function ParseElements(read: string -> Option<int>, elements: seq<string>): seq<LanguageRange> {
    if elements == [] then []
    else
      var first, rest := ParseElement(read, elements[0]), ParseElements(read, elements[1..]);
      if first.Some? then [first.value] + rest else rest
  }

  lemma {:induction false} ParseOneMore(read: string -> Option<int>, elements: seq<string>, e: string)
    ensures ParseElements(read, elements + [e]) ==
            ParseElements(read, elements) + (if ParseElement(read, e).Some? then [ParseElement(read, e).value] else [])
  {
    hide ParseElement;
    if elements == [] {
      assert elements + [e] == [e] && [e][1..] == [];
    } else {
      ParseOneMore(read, elements[1..], e);
      assert (elements + [e])[1..] == elements[1..] + [e];
    }
  }

  predicate NotWorse(a: LanguageRange, b: LanguageRange) {
    a.quality >= b.quality
  }

  function HeaderElements(header: Option<string>): (elements: seq<string>)
    ensures |elements| <= MAX_LANGUAGE_RANGES
  {
    if header.None? || header.value == "" then []
    else
      var elements := Text.Split(header.value, ',');
      if |elements| <= MAX_LANGUAGE_RANGES then elements else elements[..MAX_LANGUAGE_RANGES]
  }

  function ParsedLanguages(read: string -> Option<int>, header: Option<string>): seq<LanguageRange> {
    Sorting.Sort(NotWorse, ParseElements(read, HeaderElements(header)))
  }

  method ParseAcceptLanguage(read: string -> Option<int>, header: Option<string>) returns (ranges: seq<LanguageRange>)
    ensures ranges == ParsedLanguages(read, header)
  {
    hide ParseElement, HeaderElements;
    var elements := HeaderElements(header);
    ranges := [];
    for i := 0 to |elements|
      invariant ranges == ParseElements(read, elements[..i])
    {
      assert elements[..i + 1] == elements[..i] + [elements[i]];
      ParseOneMore(read, elements[..i], elements[i]);
      var range := ParseElement(read, elements[i]);
      if range.None? { continue; }
      ranges := ranges + [range.value];
    }
    assert elements[..|elements|] == elements;
    ranges := Sorting.Sort(NotWorse, ranges);
  }

  /** Most preferred first, the client's order kept within one quality, at most fifty ranges, and refused
      ranges kept, last. */
  lemma ParsedLanguagesAreRanked(read: string -> Option<int>, header: Option<string>, quality: int)
    ensures Sorting.Sorted(NotWorse, ParsedLanguages(read, header))
    ensures Sorting.Filter((r: LanguageRange) => r.quality == quality, ParsedLanguages(read, header))
         == Sorting.Filter((r: LanguageRange) => r.quality == quality, ParseElements(read, HeaderElements(header)))
    ensures |ParsedLanguages(read, header)| <= MAX_LANGUAGE_RANGES
    ensures forall r :: r in ParsedLanguages(read, header) ==> 0 <= r.quality <= 1000 && r.tag != ""
  {
    hide ParseElements, HeaderElements, Sorting.Sort, Sorting.Filter;
    var written := ParseElements(read, HeaderElements(header));
    Sorting.SortIsSorted(NotWorse, written);
    Sorting.SortIsStable(NotWorse, (r: LanguageRange) => r.quality == quality, written);
    Sorting.SortMultiset(NotWorse, written);
    Sorting.SortMembers(NotWorse, written);
    ElementsAreRanges(read, HeaderElements(header));
  }

  lemma {:induction false} ElementsAreRanges(read: string -> Option<int>, elements: seq<string>)
    ensures |ParseElements(read, elements)| <= |elements|
    ensures forall r :: r in ParseElements(read, elements) ==> 0 <= r.quality <= 1000 && r.tag != ""
  {
    if elements != [] { ElementsAreRanges(read, elements[1..]); }
  }

  // ---- Comparing a range with a tag ------------------------------------------------------------------

  function SharedPrefix(a: seq<string>, b: seq<string>): (n: nat)
    ensures n <= |a| && n <= |b| && a[..n] == b[..n]
    ensures n < |a| && n < |b| ==> a[n] != b[n]
  {
    if a == [] || b == [] || a[0] != b[0] then 0 else 1 + SharedPrefix(a[1..], b[1..])
  }

  function Depth(rangeTag: string, tag: string): Option<nat> {
    var left, right := Text.Split(rangeTag, '-'), Text.Split(tag, '-');
    var depth := SharedPrefix(left, right);
    if depth > 0 && (depth == |left| || depth == |right|) then Some(depth) else None
  }

  method MatchDepth(rangeTag: string, tag: string) returns (r: Option<nat>)
    ensures r == Depth(rangeTag, tag)
  {
    var left, right := Text.Split(rangeTag, '-'), Text.Split(tag, '-');
    var depth := 0;
    while depth < |left| && depth < |right| && left[depth] == right[depth]
      invariant depth <= |left| && depth <= |right| && left[..depth] == right[..depth]
    {
      depth := depth + 1;
    }
    SharedPrefixIsLongest(left, right, depth);
    if depth > 0 && (depth == |left| || depth == |right|) { return Some(depth); }
    return None;
  }

  lemma {:induction false} SharedPrefixIsLongest(a: seq<string>, b: seq<string>, n: nat)
    requires n <= |a| && n <= |b| && a[..n] == b[..n]
    requires n < |a| && n < |b| ==> a[n] != b[n]
    ensures SharedPrefix(a, b) == n
  {
  }

  /** `a` is `b`, or `b` continues it with another subtag. */
  predicate IsSubtagPrefix(a: string, b: string) {
    a == b || a + "-" <= b
  }

  lemma SubtagPrefixSplits(a: string, b: string)
    requires IsSubtagPrefix(a, b)
    ensures Text.Split(a, '-') <= Text.Split(b, '-')
  {
    if a + "-" <= b {
      var rest := b[|a| + 1..];
      assert b == a + ['-'] + rest;
      Text.SplitOfConcat(a, '-', rest);
    }
  }

  lemma SplitPrefixJoins(a: string, b: string)
    requires Text.Split(a, '-') <= Text.Split(b, '-')
    ensures IsSubtagPrefix(a, b)
  {
    var left, right := Text.Split(a, '-'), Text.Split(b, '-');
    Text.JoinOfSplit(a, '-');
    Text.JoinOfSplit(b, '-');
    if |left| < |right| {
      var rest := right[|left|..];
      assert right == left + rest;
      Text.JoinOfConcat(left, rest, '-');
      assert b == a + ['-'] + Text.Join(rest, '-');
    } else {
      assert left == right;
    }
  }

  lemma SubtagPrefixIsSplitPrefix(a: string, b: string)
    ensures IsSubtagPrefix(a, b) <==> Text.Split(a, '-') <= Text.Split(b, '-')
  {
    if IsSubtagPrefix(a, b) { SubtagPrefixSplits(a, b); }
    if Text.Split(a, '-') <= Text.Split(b, '-') { SplitPrefixJoins(a, b); }
  }

  /** On the raw strings: a range and a tag match exactly when one is the other or continues it after a
      hyphen, and the depth is the smaller number of subtags. */
  lemma MatchOnRawStrings(a: string, b: string)
    ensures Depth(a, b).Some? <==> IsSubtagPrefix(a, b) || IsSubtagPrefix(b, a)
    ensures Depth(a, b).Some? ==>
              var left, right := |Text.Split(a, '-')|, |Text.Split(b, '-')|;
              Depth(a, b).value == if left <= right then left else right
    ensures Depth(a, b) == Depth(b, a)
  {
    var left, right := Text.Split(a, '-'), Text.Split(b, '-');
    SubtagPrefixIsSplitPrefix(a, b);
    SubtagPrefixIsSplitPrefix(b, a);
    var d := SharedPrefix(left, right);
    SharedPrefixIsLongest(right, left, d);
    if left <= right {
      assert left[..|left|] == right[..|left|];
      SharedPrefixIsLongest(left, right, |left|);
    }
    if right <= left {
      assert right[..|right|] == left[..|right|];
      SharedPrefixIsLongest(left, right, |right|);
    }
    if d == |left| { assert left == left[..d] == right[..d]; }
    if d == |right| { assert right == right[..d] == left[..d]; }
  }

  // ---- Extensions ------------------------------------------------------------------------------------

  /** The first subtag after the first one that is a single character, or the end. */
  function FirstSingleton(subtags: seq<string>, i: nat): (n: nat)
    requires 1 <= i <= |subtags|
    ensures i <= n <= |subtags|
    ensures forall k :: i <= k < n ==> |subtags[k]| != 1
    ensures n < |subtags| ==> |subtags[n]| == 1
    decreases |subtags| - i
  {
    if i == |subtags| || |subtags[i]| == 1 then i else FirstSingleton(subtags, i + 1)
  }

  function StripSingletonExtensions(tag: string): string {
    var subtags := Text.Split(tag, '-');
    Text.Join(subtags[..FirstSingleton(subtags, 1)], '-')
  }

  /** What is left is the subtags before the first singleton, so a subtag prefix of the tag. */
  lemma StrippedTagIsAPrefix(tag: string)
    ensures Text.Split(StripSingletonExtensions(tag), '-') ==
            Text.Split(tag, '-')[..FirstSingleton(Text.Split(tag, '-'), 1)]
    ensures IsSubtagPrefix(StripSingletonExtensions(tag), tag)
  {
    var subtags := Text.Split(tag, '-');
    Text.JoinOfSplit(tag, '-');
    Text.SplitOfJoin(subtags[..FirstSingleton(subtags, 1)], '-');
    SubtagPrefixIsSplitPrefix(StripSingletonExtensions(tag), tag);
  }

  // ---- Matching ranges -------------------------------------------------------------------------------

  /** How a range accepts a tag: never at quality 0, at depth 0 through the wildcard. */
  function Accepts(r: LanguageRange, tag: string): Option<nat> {
    if r.quality == 0 then None
    else if r.tag == "*" then Some(0)
    else Depth(StripSingletonExtensions(r.tag), tag)
  }

  /** After `core` the tag goes on with a hyphen, one character that is not a hyphen, and nothing or a hyphen. */
  predicate IsCutAtSingleton(core: string, tag: string) {
    && core + "-" < tag && tag[|core| + 1] != '-'
    && (|tag| == |core| + 2 || tag[|core| + 2] == '-')
  }

  /** `core` is the tag before its first single-character subtag, or the whole tag. */
  ghost predicate IsCore(core: string, tag: string) {
    && (forall k :: 1 <= k < |Text.Split(core, '-')| ==> |Text.Split(core, '-')[k]| != 1)
    && (core == tag || IsCutAtSingleton(core, tag))
  }

  lemma JoinOfSingleton(subtags: seq<string>) returns (c: char, rest: string)
    requires subtags != [] && |subtags[0]| == 1 && '-' !in subtags[0]
    ensures Text.Join(subtags, '-') == [c] + rest && c != '-' && (rest == "" || rest[0] == '-')
  {
    c := subtags[0][0];
    rest := if |subtags| == 1 then "" else ['-'] + Text.Join(subtags[1..], '-');
    assert subtags[0] == [c];
  }

  lemma CoreIs(tag: string)
    ensures IsCore(StripSingletonExtensions(tag), tag)
  {
    StrippedTagIsAPrefix(tag);
    var subtags, core := Text.Split(tag, '-'), StripSingletonExtensions(tag);
    var n := FirstSingleton(subtags, 1);
    Text.JoinOfSplit(tag, '-');
    assert forall k :: 1 <= k < |Text.Split(core, '-')| ==> |Text.Split(core, '-')[k]| != 1;
    if n < |subtags| {
      CutAt(subtags, n, core, tag);
    } else {
      assert subtags[..n] == subtags;
    }
  }

  lemma CutAt(subtags: seq<string>, n: nat, core: string, tag: string)
    requires 0 < n < |subtags| && |subtags[n]| == 1 && '-' !in subtags[n]
    requires core == Text.Join(subtags[..n], '-') && tag == Text.Join(subtags, '-')
    ensures IsCutAtSingleton(core, tag)
  {
    assert subtags == subtags[..n] + subtags[n..];
    Text.JoinOfConcat(subtags[..n], subtags[n..], '-');
    hide Text.Join;
    var c, rest := JoinOfSingleton(subtags[n..]);
    assert tag == core + "-" + [c] + rest;
  }

  /** What it takes for a range to accept a tag, on the texts. */
  ghost predicate Answers(r: LanguageRange, tag: string) {
    && r.quality != 0
    && (r.tag == "*" || exists core :: IsCore(core, r.tag) && (core == tag || core + "-" <= tag || tag + "-" <= core))
  }

  lemma CoreIsUnique(core: string, tag: string)
    requires IsCore(core, tag)
    ensures core == StripSingletonExtensions(tag)
  {
    var parts := Text.Split(core, '-');
    Text.JoinOfSplit(core, '-');
    if core == tag {
      assert FirstSingleton(parts, 1) == |parts|;
      assert parts[..|parts|] == parts;
    } else {
      var tail := tag[|core| + 1..];
      var c, rest := tail[0], tail[1..];
      assert tag == core + ['-'] + tail && tail == [c] + rest;
      Text.SplitOfConcat(core, '-', tail);
      SingletonFirst(c, rest);
      var subtags := Text.Split(tag, '-');
      assert subtags == parts + Text.Split(tail, '-');
      FirstSingletonIs(subtags, 1, |parts|);
      assert subtags[..|parts|] == parts;
    }
  }

  lemma SingletonFirst(c: char, rest: string)
    requires c != '-' && (rest == "" || rest[0] == '-')
    ensures |Text.Split([c] + rest, '-')[0]| == 1
  {
    var none := "";
    Text.SplitCons(c, rest, '-');
    if rest != "" { assert rest == ['-'] + rest[1..]; Text.SplitCons('-', rest[1..], '-'); }
  }

  lemma {:induction false} FirstSingletonIs(subtags: seq<string>, i: nat, n: nat)
    requires 1 <= i <= n < |subtags| && |subtags[n]| == 1 && forall k :: i <= k < n ==> |subtags[k]| != 1
    ensures FirstSingleton(subtags, i) == n
  {
  }

  lemma AcceptsMeans(r: LanguageRange, tag: string)
    ensures Accepts(r, tag).Some? <==> Answers(r, tag)
    ensures Accepts(r, tag).Some? && r.tag == "*" ==> Accepts(r, tag).value == 0
    ensures Accepts(r, tag).Some? && r.tag != "*" ==>
              var left, right := |Text.Split(StripSingletonExtensions(r.tag), '-')|, |Text.Split(tag, '-')|;
              Accepts(r, tag).value == if left <= right then left else right
  {
    CoreIs(r.tag);
    MatchOnRawStrings(StripSingletonExtensions(r.tag), tag);
    hide StripSingletonExtensions, IsCore, Depth;
    forall core | IsCore(core, r.tag) ensures core == StripSingletonExtensions(r.tag) { CoreIsUnique(core, r.tag); }
  }

  predicate KeyBelow(a: LanguageMatch, b: LanguageMatch) {
    a.rank < b.rank || (a.rank == b.rank && a.depth > b.depth)
  }

  /** `m` is the match of some range and tag, and no pair has a smaller key. */
  ghost predicate IsBest(ranges: seq<LanguageRange>, tags: set<string>, m: Option<LanguageMatch>) {
    if m.None? then
      forall i, t :: 0 <= i < |ranges| && t in tags ==> Accepts(ranges[i], t).None?
    else
      && m.value.rank < |ranges| && (exists t :: t in tags && Accepts(ranges[m.value.rank], t) == Some(m.value.depth))
      && forall i, t :: 0 <= i < |ranges| && t in tags && Accepts(ranges[i], t).Some? ==>
                          !KeyBelow(LanguageMatch(i, Accepts(ranges[i], t).value), m.value)
  }

  lemma BestIsUnique(ranges: seq<LanguageRange>, tags: set<string>, m: Option<LanguageMatch>, n: Option<LanguageMatch>)
    requires IsBest(ranges, tags, m) && IsBest(ranges, tags, n)
    ensures m == n
  {
  }

  /** The deepest acceptance of any of `tags`. */
  function Deepest(r: LanguageRange, tags: seq<string>): Option<nat> {
    if tags == [] then None
    else
      var here, rest := Accepts(r, tags[0]), Deepest(r, tags[1..]);
      if here.None? || (rest.Some? && rest.value > here.value) then rest else here
  }

  /** The first range that accepts any tag decides, by its deepest acceptance. */
  function RankFrom(ranges: seq<LanguageRange>, tags: seq<string>, i: nat): Option<LanguageMatch>
    requires i <= |ranges|
    decreases |ranges| - i
  {
    if i == |ranges| then None
    else
      var d := Deepest(ranges[i], tags);
      if d.Some? then Some(LanguageMatch(i, d.value)) else RankFrom(ranges, tags, i + 1)
  }

  function AsSet(tags: seq<string>): set<string> {
    set t | t in tags
  }

  function Normalised(available: seq<string>): (r: seq<string>)
    ensures |r| == |available| && forall i :: 0 <= i < |r| ==> r[i] == NormaliseLanguageTag(available[i])
  {
    seq(|available|, i requires 0 <= i < |available| => NormaliseLanguageTag(available[i]))
  }

  function Rank(ranges: seq<LanguageRange>, available: seq<string>): Option<LanguageMatch> {
    RankFrom(ranges, Normalised(available), 0)
  }

  lemma {:induction false} DeepestIsGreatest(r: LanguageRange, tags: seq<string>)
    ensures Deepest(r, tags).None? <==> forall t :: t in tags ==> Accepts(r, t).None?
    ensures Deepest(r, tags).Some? ==> exists t :: t in tags && Accepts(r, t) == Deepest(r, tags)
    ensures forall t :: t in tags && Accepts(r, t).Some? ==>
            Deepest(r, tags).Some? && Accepts(r, t).value <= Deepest(r, tags).value
  {
    if tags != [] {
      DeepestIsGreatest(r, tags[1..]);
      assert tags == [tags[0]] + tags[1..];
      assert tags[0] in tags;
    }
  }

  lemma {:induction false} RankFromIsBest(ranges: seq<LanguageRange>, tags: seq<string>, i: nat)
    requires i <= |ranges|
    requires forall k, t :: 0 <= k < i && t in tags ==> Accepts(ranges[k], t).None?
    ensures IsBest(ranges, AsSet(tags), RankFrom(ranges, tags, i))
    decreases |ranges| - i
  {
    hide Accepts, Deepest;
    if i < |ranges| {
      DeepestIsGreatest(ranges[i], tags);
      if Deepest(ranges[i], tags).None? { RankFromIsBest(ranges, tags, i + 1); }
    }
  }

  /** The rank is the least (position, -depth) over all acceptable pairs, so it depends on the set of tags
      alone: not on their order, nor on repetition. */
  lemma RankIsLeastAndOrderFree(ranges: seq<LanguageRange>, available: seq<string>, other: seq<string>)
    ensures IsBest(ranges, AsSet(Normalised(available)), Rank(ranges, available))
    ensures AsSet(Normalised(available)) == AsSet(Normalised(other)) ==>
              Rank(ranges, available) == Rank(ranges, other)
  {
    RankFromIsBest(ranges, Normalised(available), 0);
    RankFromIsBest(ranges, Normalised(other), 0);
    if AsSet(Normalised(available)) == AsSet(Normalised(other)) {
      BestIsUnique(ranges, AsSet(Normalised(available)), Rank(ranges, available), Rank(ranges, other));
    }
  }

  ghost predicate SomeRangeAccepts(ranges: seq<LanguageRange>, available: seq<string>) {
    exists i, t :: 0 <= i < |ranges| && t in AsSet(Normalised(available)) && Accepts(ranges[i], t).Some?
  }

  lemma RankedWhenAccepted(ranges: seq<LanguageRange>, available: seq<string>)
    ensures Rank(ranges, available).Some? <==> SomeRangeAccepts(ranges, available)
  {
    hide Rank, Accepts, Normalised, AsSet;
    RankIsLeastAndOrderFree(ranges, available, available);
  }

  lemma SomeRangeAnswers(ranges: seq<LanguageRange>, available: seq<string>)
    ensures SomeRangeAccepts(ranges, available) <==>
            exists i, n :: 0 <= i < |ranges| && 0 <= n < |available|
                           && Answers(ranges[i], NormaliseLanguageTag(available[n]))
  {
    hide Accepts, Answers, NormaliseLanguageTag;
    forall r, t ensures Accepts(r, t).Some? <==> Answers(r, t) { AcceptsMeans(r, t); }
    if SomeRangeAccepts(ranges, available) {
      var i, t :| 0 <= i < |ranges| && t in AsSet(Normalised(available)) && Accepts(ranges[i], t).Some?;
      var n :| 0 <= n < |available| && Normalised(available)[n] == t;
    }
    if i, n :| 0 <= i < |ranges| && 0 <= n < |available| && Answers(ranges[i], NormaliseLanguageTag(available[n])) {
      assert Normalised(available)[n] in AsSet(Normalised(available));
    }
  }

  lemma DeepestOfNone(r: LanguageRange)
    ensures Deepest(r, []) == None
  {
  }

  lemma {:induction false} DeepestOfOneMore(r: LanguageRange, tags: seq<string>, t: string)
    ensures Deepest(r, tags + [t]) ==
            var before, here := Deepest(r, tags), Accepts(r, t);
            if here.None? || (before.Some? && before.value >= here.value) then before else here
  {
    if tags == [] {
      assert tags + [t] == [t] && [t][1..] == [];
    } else {
      DeepestOfOneMore(r, tags[1..], t);
      assert (tags + [t])[1..] == tags[1..] + [t];
    }
  }

  function AtRank(i: nat, depth: Option<nat>): Option<LanguageMatch> {
    if depth.Some? then Some(LanguageMatch(i, depth.value)) else None
  }

  method RankLanguageMatch(ranges: seq<LanguageRange>, available: seq<string>) returns (best: Option<LanguageMatch>)
    ensures best == Rank(ranges, available)
  {
    hide Depth, StripSingletonExtensions, Deepest, NormaliseLanguageTag;
    var tags := Normalised(available);
    best := None;
    for i := 0 to |ranges|
      invariant Rank(ranges, available) == if best.Some? then best else RankFrom(ranges, tags, i)
      invariant best.Some? ==> best.value.rank < i
    {
      if ranges[i].quality == 0 {
        DeepestIsGreatest(ranges[i], tags);
        continue;
      }
      var rangeTag := StripSingletonExtensions(ranges[i].tag);
      ghost var before := best;
      DeepestOfNone(ranges[i]);
      for n := 0 to |tags|
        invariant before.Some? ==> best == before
        invariant before.None? ==> best == AtRank(i, Deepest(ranges[i], tags[..n]))
      {
        assert tags[..n + 1] == tags[..n] + [tags[n]];
        DeepestOfOneMore(ranges[i], tags[..n], tags[n]);
        var depth: Option<nat> := Some(0);
        if ranges[i].tag != "*" { depth := MatchDepth(rangeTag, tags[n]); }
        if depth.None? { continue; }
        var candidate := LanguageMatch(i, depth.value);
        if best.None? || KeyBelow(candidate, best.value) { best := Some(candidate); }
      }
      assert tags[..|tags|] == tags;
    }
  }

  // ---- The tags a header accepts, in order of preference ---------------------------------------------

  /** `dict.update(dict.fromkeys(...))`: the accepted tags that are not there yet, in order. */
  function AddAccepted(matched: seq<string>, r: LanguageRange, tags: seq<string>): seq<string>
    decreases |tags|
  {
    if tags == [] then matched
    else
      var isNew := Accepts(r, tags[0]).Some? && tags[0] !in matched;
      AddAccepted(if isNew then matched + [tags[0]] else matched, r, tags[1..])
  }

  function MatchedFrom(ranges: seq<LanguageRange>, tags: seq<string>, matched: seq<string>): seq<string> {
    if ranges == [] then matched else MatchedFrom(ranges[1..], tags, AddAccepted(matched, ranges[0], tags))
  }

  function Matched(ranges: seq<LanguageRange>, available: seq<string>): seq<string> {
    MatchedFrom(ranges, Normalised(available), [])
  }

  method MatchLanguageRanges(ranges: seq<LanguageRange>, available: seq<string>) returns (matched: seq<string>)
    ensures matched == Matched(ranges, available)
  {
    var tags := Normalised(available);
    matched := [];
    for i := 0 to |ranges|
      invariant MatchedFrom(ranges[i..], tags, matched) == Matched(ranges, available)
    {
      assert ranges[i..][1..] == ranges[i + 1..];
      if ranges[i].quality == 0 {
        NothingAccepted(matched, ranges[i], tags);
        continue;
      }
      var rangeTag := StripSingletonExtensions(ranges[i].tag);
      ghost var before := matched;
      for n := 0 to |tags|
        invariant AddAccepted(matched, ranges[i], tags[n..]) == AddAccepted(before, ranges[i], tags)
      {
        assert tags[n..][1..] == tags[n + 1..];
        var depth: Option<nat> := Some(0);
        if ranges[i].tag != "*" { depth := MatchDepth(rangeTag, tags[n]); }
        if depth.Some? && tags[n] !in matched { matched := matched + [tags[n]]; }
      }
    }
  }

  lemma NothingAccepted(matched: seq<string>, r: LanguageRange, tags: seq<string>)
    requires r.quality == 0
    ensures AddAccepted(matched, r, tags) == matched
  {
  }

  lemma {:induction false} AddAcceptedExtends(matched: seq<string>, r: LanguageRange, tags: seq<string>)
    ensures matched <= AddAccepted(matched, r, tags)
    ensures forall t :: t in AddAccepted(matched, r, tags) <==> t in matched || (t in tags && Accepts(r, t).Some?)
    ensures matched == [] && AddAccepted(matched, r, tags) != [] ==> Accepts(r, AddAccepted(matched, r, tags)[0]).Some?
    ensures (forall t :: t in tags ==> Accepts(r, t).None?) ==> AddAccepted(matched, r, tags) == matched
    decreases |tags|
  {
    hide Accepts;
    if tags != [] {
      var next := if Accepts(r, tags[0]).Some? && tags[0] !in matched then matched + [tags[0]] else matched;
      AddAcceptedExtends(next, r, tags[1..]);
      assert tags == [tags[0]] + tags[1..];
    }
  }

  lemma {:induction false} AddAcceptedHasNoRepeats(matched: seq<string>, r: LanguageRange, tags: seq<string>)
    requires Sorting.NoRepeats(matched)
    ensures Sorting.NoRepeats(AddAccepted(matched, r, tags))
    decreases |tags|
  {
    if tags != [] {
      var next := if Accepts(r, tags[0]).Some? && tags[0] !in matched then matched + [tags[0]] else matched;
      AddAcceptedHasNoRepeats(next, r, tags[1..]);
    }
  }

  lemma {:induction false} MatchedFromExtends(ranges: seq<LanguageRange>, tags: seq<string>, matched: seq<string>)
    ensures matched <= MatchedFrom(ranges, tags, matched)
    ensures forall t :: t in MatchedFrom(ranges, tags, matched) <==>
                          t in matched || (t in tags && exists i :: 0 <= i < |ranges| && Accepts(ranges[i], t).Some?)
    ensures Sorting.NoRepeats(matched) ==> Sorting.NoRepeats(MatchedFrom(ranges, tags, matched))
  {
    if ranges != [] {
      AddAcceptedExtends(matched, ranges[0], tags);
      if Sorting.NoRepeats(matched) { AddAcceptedHasNoRepeats(matched, ranges[0], tags); }
      var next := AddAccepted(matched, ranges[0], tags);
      MatchedFromExtends(ranges[1..], tags, next);
      forall t | t in tags
        ensures (exists i :: 0 <= i < |ranges| && Accepts(ranges[i], t).Some?) <==>
                Accepts(ranges[0], t).Some? || exists i :: 0 <= i < |ranges[1..]| && Accepts(ranges[1..][i], t).Some?
      {
        if i :| 0 < i < |ranges| && Accepts(ranges[i], t).Some? { assert ranges[1..][i - 1] == ranges[i]; }
      }
    }
  }

  /** Tag `t` is at place `at.1` first, and `at.0` is the first range that accepts it. */
  ghost predicate IsMatch(ranges: seq<LanguageRange>, tags: seq<string>, t: string, at: (nat, nat)) {
    && at.0 < |ranges| && at.1 < |tags| && tags[at.1] == t && t !in tags[..at.1]
    && Accepts(ranges[at.0], t).Some? && forall i :: 0 <= i < at.0 ==> Accepts(ranges[i], t).None?
  }

  /** By range, and within one range by place. */
  predicate ComesFirst(a: (nat, nat), b: (nat, nat)) {
    a.0 < b.0 || (a.0 == b.0 && a.1 < b.1)
  }

  /** `place` is where a tag stands first that is not matched yet and that the range accepts. */
  ghost predicate IsNew(matched: seq<string>, r: LanguageRange, tags: seq<string>, place: nat) {
    && place < |tags| && tags[place] !in tags[..place] && tags[place] !in matched && Accepts(r, tags[place]).Some?
  }

  /** The places of the tags one range adds. */
  lemma {:induction false} AddedPlaces(matched: seq<string>, r: LanguageRange, tags: seq<string>)
    returns (places: seq<nat>)
    ensures |AddAccepted(matched, r, tags)| == |matched| + |places| && matched <= AddAccepted(matched, r, tags)
    ensures forall k :: 0 <= k < |places| ==>
                          && places[k] < |tags| && IsNew(matched, r, tags, places[k])
                          && AddAccepted(matched, r, tags)[|matched| + k] == tags[places[k]]
    ensures forall k, l :: 0 <= k < l < |places| ==> places[k] < places[l]
    decreases |tags|
  {
    hide Accepts, IsNew, AddAccepted;
    AddingUnfolds(matched, r, tags);
    places := [];
    if tags != [] {
      var t := tags[0];
      var isNew := Accepts(r, t).Some? && t !in matched;
      var next := if isNew then matched + [t] else matched;
      var rest := AddedPlaces(next, r, tags[1..]);
      forall k | 0 <= k < |rest|
        ensures rest[k] + 1 < |tags| && IsNew(matched, r, tags, rest[k] + 1) && tags[rest[k] + 1] == tags[1..][rest[k]]
      {
        NewFurtherOn(matched, r, tags, rest[k]);
      }
      if isNew { NewAtOnce(matched, r, tags); }
      places := (if isNew then [0] else []) + seq(|rest|, k requires 0 <= k < |rest| => rest[k] + 1);
    }
  }

  lemma AddingUnfolds(matched: seq<string>, r: LanguageRange, tags: seq<string>)
    ensures tags == [] ==> AddAccepted(matched, r, tags) == matched
    ensures tags != [] ==>
              var next := if Accepts(r, tags[0]).Some? && tags[0] !in matched then matched + [tags[0]] else matched;
              AddAccepted(matched, r, tags) == AddAccepted(next, r, tags[1..])
  {
    hide Accepts;
  }

  lemma NewAtOnce(matched: seq<string>, r: LanguageRange, tags: seq<string>)
    requires tags != [] && Accepts(r, tags[0]).Some? && tags[0] !in matched
    ensures IsNew(matched, r, tags, 0)
  {
    hide Accepts;
  }

  lemma NewFurtherOn(matched: seq<string>, r: LanguageRange, tags: seq<string>, place: nat)
    requires tags != []
    requires var next := if Accepts(r, tags[0]).Some? && tags[0] !in matched then matched + [tags[0]] else matched;
             IsNew(next, r, tags[1..], place)
    ensures place + 1 < |tags| && IsNew(matched, r, tags, place + 1) && tags[place + 1] == tags[1..][place]
  {
    hide Accepts;
    assert tags[..place + 1] == [tags[0]] + tags[1..][..place];
  }

  /** Every tag that an earlier range accepts is matched already. */
  ghost predicate HasEarlier(ranges: seq<LanguageRange>, tags: seq<string>, from: nat, matched: seq<string>)
    requires from <= |ranges|
  {
    forall i, t :: 0 <= i < from && t in tags && Accepts(ranges[i], t).Some? ==> t in matched
  }

  lemma NewTagIsAMatch(ranges: seq<LanguageRange>, tags: seq<string>, from: nat, matched: seq<string>, place: nat)
    requires from < |ranges| && HasEarlier(ranges, tags, from, matched) && IsNew(matched, ranges[from], tags, place)
    ensures place < |tags| && IsMatch(ranges, tags, tags[place], (from, place))
  {
    hide Accepts;
    assert tags[place] in tags;
  }

  lemma OneMoreRange(ranges: seq<LanguageRange>, tags: seq<string>, from: nat, matched: seq<string>)
    requires from < |ranges| && HasEarlier(ranges, tags, from, matched)
    ensures HasEarlier(ranges, tags, from + 1, AddAccepted(matched, ranges[from], tags))
    ensures MatchedFrom(ranges[from..], tags, matched) ==
            MatchedFrom(ranges[from + 1..], tags, AddAccepted(matched, ranges[from], tags))
  {
    AddAcceptedExtends(matched, ranges[from], tags);
    hide Accepts, AddAccepted;
    assert ranges[from..][1..] == ranges[from + 1..] && ranges[from..][0] == ranges[from];
  }

  lemma {:induction false} MatchedPlaces(ranges: seq<LanguageRange>, tags: seq<string>, from: nat, matched: seq<string>)
    returns (at: seq<(nat, nat)>)
    requires from <= |ranges| && HasEarlier(ranges, tags, from, matched)
    ensures var all := MatchedFrom(ranges[from..], tags, matched);
            && |all| == |matched| + |at| && matched <= all
            && forall k :: 0 <= k < |at| ==> from <= at[k].0 && IsMatch(ranges, tags, all[|matched| + k], at[k])
    ensures forall k, l :: 0 <= k < l < |at| ==> ComesFirst(at[k], at[l])
    decreases |ranges| - from
  {
    hide AddAccepted, IsMatch, HasEarlier, Accepts, IsNew;
    if from == |ranges| {
      at := [];
    } else {
      var next := AddAccepted(matched, ranges[from], tags);
      var places := AddedPlaces(matched, ranges[from], tags);
      OneMoreRange(ranges, tags, from, matched);
      hide MatchedFrom;
      var rest := MatchedPlaces(ranges, tags, from + 1, next);
      at := seq(|places|, k requires 0 <= k < |places| => (from, places[k])) + rest;
      var all := MatchedFrom(ranges[from..], tags, matched);
      forall k | 0 <= k < |at| ensures from <= at[k].0 && IsMatch(ranges, tags, all[|matched| + k], at[k]) {
        if k < |places| {
          NewTagIsAMatch(ranges, tags, from, matched, places[k]);
          assert all[|matched| + k] == next[|matched| + k];
        } else {
          assert at[k] == rest[k - |places|] && |matched| + k == |next| + (k - |places|);
        }
      }
    }
  }

  /** The matched tags come in order of the ranges, and within one range in the order they were supplied. */
  lemma MatchedInOrder(ranges: seq<LanguageRange>, available: seq<string>) returns (at: seq<(nat, nat)>)
    ensures |at| == |Matched(ranges, available)|
    ensures forall k :: 0 <= k < |at| ==> IsMatch(ranges, Normalised(available), Matched(ranges, available)[k], at[k])
    ensures forall k, l :: 0 <= k < l < |at| ==> ComesFirst(at[k], at[l])
  {
    hide MatchedFrom, Accepts, IsMatch;
    assert ranges[0..] == ranges;
    at := MatchedPlaces(ranges, Normalised(available), 0, []);
  }

  /** The winning range of `Rank` is the one that accepts the first tag `Matched` returns, and there is
      no winner exactly when that list is empty. */
  lemma RankAgreesWithMatched(ranges: seq<LanguageRange>, available: seq<string>)
    ensures Rank(ranges, available).None? <==> Matched(ranges, available) == []
    ensures Rank(ranges, available).Some? ==>
              && Matched(ranges, available) != [] && Rank(ranges, available).value.rank < |ranges|
              && Accepts(ranges[Rank(ranges, available).value.rank], Matched(ranges, available)[0]).Some?
    ensures Sorting.NoRepeats(Matched(ranges, available))
  {
    RankedFrom(ranges, Normalised(available), 0);
    assert ranges[0..] == ranges;
    MatchedFromExtends(ranges, Normalised(available), []);
  }

  lemma {:induction false} RankedFrom(ranges: seq<LanguageRange>, tags: seq<string>, i: nat)
    requires i <= |ranges|
    ensures RankFrom(ranges, tags, i).None? <==> MatchedFrom(ranges[i..], tags, []) == []
    ensures RankFrom(ranges, tags, i).Some? ==>
              && i <= RankFrom(ranges, tags, i).value.rank < |ranges| && MatchedFrom(ranges[i..], tags, []) != []
              && Accepts(ranges[RankFrom(ranges, tags, i).value.rank], MatchedFrom(ranges[i..], tags, [])[0]).Some?
    decreases |ranges| - i
  {
    if i < |ranges| {
      DeepestIsGreatest(ranges[i], tags);
      AddAcceptedExtends([], ranges[i], tags);
      assert ranges[i..][1..] == ranges[i + 1..] && ranges[i..][0] == ranges[i];
      var first := AddAccepted([], ranges[i], tags);
      MatchedFromExtends(ranges[i + 1..], tags, first);
      if Deepest(ranges[i], tags).None? {
        RankedFrom(ranges, tags, i + 1);
      } else {
        var t :| t in tags && Accepts(ranges[i], t) == Deepest(ranges[i], tags);
        assert t in first;
      }
    }
  }
}
