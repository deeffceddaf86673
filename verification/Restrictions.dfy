/** The `restrict` parameter: which catalogs a client can use, written once in Python and once in SQL. */
module Restrictions {
  import opened Wrappers
  import opened Catalogs
  import Parameters
  import Text

  const OPDS_JSON_MEDIA_TYPE := "application/opds+json"

  datatype Restrictions = Restrictions(opds: bool, noOpen: bool, noAudiobook: bool)

  const NO_RESTRICTIONS := Restrictions(false, false, false)

  // ---- In a link and back ----------------------------------------------------------------------------

  function Names(r: Restrictions): (names: seq<string>)
    ensures forall n :: n in names ==> (n == "opds" || n == "no-open" || n == "no-audiobook") && ',' !in n
  {
    (if r.opds then ["opds"] else []) + (if r.noOpen then ["no-open"] else [])
    + (if r.noAudiobook then ["no-audiobook"] else [])
  }

  /** The value to put in a link, or nothing when nothing is restricted. */
  function QueryValue(r: Restrictions): Option<string> {
    var joined := Text.Join(Names(r), ',');
    if joined == "" then None else Some(joined)
  }

  function ParseRestrictions(value: Option<string>): Restrictions {
    var names := Text.Split(if value.Some? then value.value else "", ',');
    Restrictions("opds" in names, "no-open" in names, "no-audiobook" in names)
  }

  /** What `RESTRICT_PATTERN` admits. */
  predicate IsAccepted(value: string) {
    value == "" || forall n :: n in Text.Split(value, ',') ==> n == "opds" || n == "no-open" || n == "no-audiobook"
  }

  lemma NamesSay(r: Restrictions)
    ensures "opds" in Names(r) <==> r.opds
    ensures "no-open" in Names(r) <==> r.noOpen
    ensures "no-audiobook" in Names(r) <==> r.noAudiobook
    ensures "" !in Names(r)
  {
  }

  /** A restriction survives being written into a link: the route accepts the value and reads it back. */
  lemma LinksKeepTheRestriction(r: Restrictions)
    ensures ParseRestrictions(QueryValue(r)) == r
    ensures QueryValue(r).None? <==> r == NO_RESTRICTIONS
    ensures QueryValue(r).Some? ==> IsAccepted(QueryValue(r).value)
  {
    hide Names;
    NamesSay(r);
    if Names(r) == [] {
      assert Text.Split("", ',') == [""];
      NotEmptyNames();
    } else {
      Text.SplitOfJoin(Names(r), ',');
      assert Names(r)[0] in Names(r);
      assert Text.Split("", ',') == [""];
      assert "" in [""];
    }
  }

  lemma NotEmptyNames()
    ensures "opds" != "" && "no-open" != "" && "no-audiobook" != ""
  {
  }

  /** The names come in one order, each at most once. */
  lemma NamesAreInOrder(r: Restrictions, i: nat, j: nat)
    requires i < j < |Names(r)|
    ensures Names(r)[i] != Names(r)[j] && Names(r)[j] != "opds" && Names(r)[i] != "no-audiobook"
  {
    assert |"opds"| == 4 && |"no-open"| == 7 && |"no-audiobook"| == 12;
  }

  /** What a client writes: names separated by commas, in any order and any number of times. The route accepts it when
      it knows them all, and each asks for its own restriction. */
  lemma WrittenNamesAreRead(names: seq<string>)
    requires names != [] && forall n :: n in names ==> ',' !in n
    ensures var value := Text.Join(names, ',');
            && ParseRestrictions(Some(value)) ==
               Restrictions("opds" in names, "no-open" in names, "no-audiobook" in names)
            && (IsAccepted(value) <==>
                names == [""] || forall n :: n in names ==> n == "opds" || n == "no-open" || n == "no-audiobook")
    ensures ParseRestrictions(None) == NO_RESTRICTIONS
  {
    var value := Text.Join(names, ',');
    Text.SplitOfJoin(names, ',');
    if value == "" { EmptyValue(names); }
    if names == [""] { assert value == ""; }
    NothingRead();
  }

  lemma EmptyValue(names: seq<string>)
    requires names != [] && Text.Join(names, ',') == ""
    ensures names == [""]
  {
  }

  lemma NothingRead()
    ensures ParseRestrictions(None) == NO_RESTRICTIONS
  {
    var none := "";
    Text.SplitOfPlain(none, ',');
    NotEmptyNames();
  }

  // ---- The two forms of each rule --------------------------------------------------------------------

  /** The type without its parameters. */
  function TypePart(mediaType: string): string {
    Text.Split(mediaType, ';')[0]
  }

  predicate IsPlainSpace(c: char) { c == ' ' }

  /** In Python `strip` removes every kind of whitespace. */
  predicate IsOpds2MediaType(mediaType: Option<string>) {
    var written := if mediaType.Some? then mediaType.value else "";
    Text.Lower(Text.Strip(TypePart(written), Text.IsSpace)) == OPDS_JSON_MEDIA_TYPE
  }

  predicate IsTypeBetween(m: string, a: string, name: string, b: string, rest: string) {
    && m == a + name + b + rest && Parameters.IsBlank(a) && Parameters.IsBlank(b)
    && Text.Lower(name) == "application/opds+json" && (rest == "" || rest[0] == ';')
  }

  /** The type as a client writes it: its name in any case, blanks around it, and parameters after a semicolon. */
  ghost predicate IsWrittenOpdsType(m: string) {
    exists a, name, b, rest :: IsTypeBetween(m, a, name, b, rest)
  }

  lemma {:induction false} TypePartIs(m: string)
    ensures TypePart(m) <= m && ';' !in TypePart(m)
    ensures m[|TypePart(m)|..] == "" || m[|TypePart(m)|..][0] == ';'
  {
    if m != "" {
      TypePartIs(m[1..]);
      if m[0] != ';' { assert TypePart(m) == [m[0]] + TypePart(m[1..]); }
    }
  }

  lemma {:induction false} TypePartOf(part: string, rest: string)
    requires ';' !in part && (rest == "" || rest[0] == ';')
    ensures TypePart(part + rest) == part
  {
    if rest == "" {
      Text.SplitOfPlain(part, ';');
      assert part + rest == part;
    } else {
      Text.SplitOfPlain(part, ';');
      Text.SplitOfConcat(part, ';', rest[1..]);
      assert part + rest == part + [';'] + rest[1..];
    }
  }

  lemma OpdsTypeIsRead(m: string)
    ensures IsOpds2MediaType(Some(m)) <==> IsWrittenOpdsType(m)
  {
    hide IsOpds2MediaType, IsTypeBetween;
    if IsOpds2MediaType(Some(m)) { var a, name, b, rest := ReadOpdsType(m); }
    if a, name, b, rest :| IsTypeBetween(m, a, name, b, rest) {
      assert m == a + name + b + rest by { TypeBetweenIs(m, a, name, b, rest); }
      WrittenOpdsType(a, name, b, rest);
    }
  }

  lemma TypeBetweenIs(m: string, a: string, name: string, b: string, rest: string)
    requires IsTypeBetween(m, a, name, b, rest)
    ensures m == a + name + b + rest
  {
  }

  lemma ReadOpdsType(m: string) returns (a: string, name: string, b: string, rest: string)
    requires IsOpds2MediaType(Some(m))
    ensures IsTypeBetween(m, a, name, b, rest)
  {
    TypePartIs(m);
    var part := TypePart(m);
    var i, j := Text.StripParts(part, Text.IsSpace);
    hide Text.Strip, TypePart, Text.IsSpace, Parameters.IsBlank;
    a, name, b, rest := part[..i], part[i..j], part[j..], m[|part|..];
    Parameters.BlanksAt(a);
    Parameters.BlanksAt(b);
    assert part == a + name + b && m == part + rest;
  }

  lemma WrittenOpdsType(a: string, name: string, b: string, rest: string)
    requires IsTypeBetween(a + name + b + rest, a, name, b, rest)
    ensures IsOpds2MediaType(Some(a + name + b + rest))
  {
    var part := a + name + b;
    OpdsTypeIsUnpadded(name);
    assert ';' !in name by {
      forall k | 0 <= k < |name| ensures name[k] != ';' {
        assert Text.Lower(name)[k] == Text.LowerChar(name[k]) == OPDS_JSON_MEDIA_TYPE[k];
      }
    }
    Parameters.BlanksAt(a);
    Parameters.BlanksAt(b);
    assert forall k :: 0 <= k < |a| ==> a[k] != ';';
    assert forall k :: 0 <= k < |b| ==> b[k] != ';';
    hide Text.Strip, Parameters.IsBlank, OPDS_JSON_MEDIA_TYPE;
    TypePartOf(part, rest);
    var i, j := |a|, |a| + |name|;
    assert forall k :: 0 <= k < i ==> part[k] == a[k];
    assert forall k :: j <= k < |part| ==> part[k] == b[k - j];
    assert part[i] == name[0] && part[j - 1] == name[|name| - 1] && part[i..j] == name;
    Text.StripIsBetween(part, Text.IsSpace, i, j);
  }

  /** In SQL `trim` removes spaces only, and a missing type compares as unknown, so it does not match. */
  predicate SqlIsOpds2MediaType(mediaType: Option<string>) {
    mediaType.Some? && Text.Lower(Text.Strip(TypePart(mediaType.value), IsPlainSpace)) == OPDS_JSON_MEDIA_TYPE
  }

  predicate Allows(c: Content, r: Restrictions) {
    && (r.opds ==> exists l :: l in c.links && l.rel == Catalog && IsOpds2MediaType(l.mediaType))
    && !(r.noOpen && Open in c.kinds)
    && !(r.noAudiobook && (set t | t in c.publicationTypes) == {Audiobook})
  }

  /** What each restriction asks of a catalog: a `catalog` link of the OPDS 2.0 type; not to be open; some type besides
      audiobooks, or none listed at all. */
  lemma AllowsMeans(c: Content, r: Restrictions)
    ensures Allows(c, r) <==>
            && (r.opds ==> exists l :: l in c.links && l.rel == Catalog && l.mediaType.Some?
                                       && IsWrittenOpdsType(l.mediaType.value))
            && (r.noOpen ==> Open !in c.kinds)
            && (r.noAudiobook ==> c.publicationTypes == [] || exists t :: t in c.publicationTypes && t != Audiobook)
  {
    forall l | l in c.links
      ensures IsOpds2MediaType(l.mediaType) <==> l.mediaType.Some? && IsWrittenOpdsType(l.mediaType.value)
    {
      if l.mediaType.Some? { OpdsTypeIsRead(l.mediaType.value); } else { NoTypeIsNotOpds(); }
    }
    hide IsOpds2MediaType, IsWrittenOpdsType;
    AudiobookOnly(c.publicationTypes);
    if c.publicationTypes != [] && forall t :: t in c.publicationTypes ==> t == Audiobook {
      assert c.publicationTypes[0] in c.publicationTypes;
    }
  }

  lemma NoTypeIsNotOpds()
    ensures !IsOpds2MediaType(None)
  {
    assert |Text.Strip(TypePart(""), Text.IsSpace)| == 0;
    assert |OPDS_JSON_MEDIA_TYPE| == 21;
  }

  predicate SqlAllows(c: Content, r: Restrictions) {
    && (!r.opds || exists l :: l in c.links && l.rel == Catalog && SqlIsOpds2MediaType(l.mediaType))
    && (!r.noOpen || !exists k :: k in c.kinds && k == Open)
    && (!r.noAudiobook || !((exists t :: t in c.publicationTypes && t == Audiobook)
                            && !exists t :: t in c.publicationTypes && t != Audiobook))
  }

  /** What pads the type is spaces: no tab, line break or other whitespace stands at either end of the rest. */
  predicate IsPaddedWithSpaces(mediaType: Option<string>) {
    mediaType.Some? ==>
      var rest := Text.Strip(TypePart(mediaType.value), IsPlainSpace);
      rest == "" || (!Text.IsSpace(rest[0]) && !Text.IsSpace(rest[|rest| - 1]))
  }

  /** Trimming spaces is trimming whitespace when nothing else pads the text. */
  lemma TrimIsStrip(s: string)
    requires var rest := Text.Strip(s, IsPlainSpace);
             rest == "" || (!Text.IsSpace(rest[0]) && !Text.IsSpace(rest[|rest| - 1]))
    ensures Text.Strip(s, Text.IsSpace) == Text.Strip(s, IsPlainSpace)
  {
    hide Text.Strip, IsPlainSpace, Text.IsSpace;
    var i, j := Text.StripParts(s, IsPlainSpace);
    forall k | 0 <= k < i || j <= k < |s| ensures Text.IsSpace(s[k]) { PlainSpaceIsSpace(s[k]); }
    if i == j {
      forall k | 0 <= k < |s| ensures Text.IsSpace(s[k]) { PlainSpaceIsSpace(s[k]); }
      Text.StripOfBlanks(s, Text.IsSpace);
    } else {
      assert s[i..j][0] == s[i] && s[i..j][j - i - 1] == s[j - 1];
      Text.StripIsBetween(s, Text.IsSpace, i, j);
    }
  }

  lemma PlainSpaceIsSpace(c: char)
    ensures IsPlainSpace(c) ==> Text.IsSpace(c)
  {
  }

  lemma OpdsTypeIsUnpadded(s: string)
    requires Text.Lower(s) == OPDS_JSON_MEDIA_TYPE
    ensures s != "" && !Text.IsSpace(s[0]) && !Text.IsSpace(s[|s| - 1])
  {
  }

  /** Per media type: SQL accepts exactly what Python accepts among the types padded only with spaces. */
  lemma SqlMatchesMediaType(m: Option<string>)
    ensures SqlIsOpds2MediaType(m) <==> IsOpds2MediaType(m) && IsPaddedWithSpaces(m)
  {
    if m.Some? {
      if SqlIsOpds2MediaType(m) { OpdsTypeIsUnpadded(Text.Strip(TypePart(m.value), IsPlainSpace)); }
      if IsPaddedWithSpaces(m) { TrimIsStrip(TypePart(m.value)); }
    } else {
      assert |Text.Strip(TypePart(""), Text.IsSpace)| == 0;
      assert |OPDS_JSON_MEDIA_TYPE| == 21;
    }
  }

  /** Some `catalog` link has the type, and nothing but spaces pads it there. */
  predicate HasSpacePaddedOpdsLink(c: Content) {
    exists l :: l in c.links && l.rel == Catalog && IsOpds2MediaType(l.mediaType) && IsPaddedWithSpaces(l.mediaType)
  }

  /** Per catalog: SQL never allows more than Python, and allows the same unless `opds` is asked for and
      every `catalog` link that has the type pads it with other whitespace. */
  lemma SqlAllowsExactly(c: Content, r: Restrictions)
    ensures SqlAllows(c, r) <==> Allows(c, r) && (r.opds ==> HasSpacePaddedOpdsLink(c))
  {
    forall l | l in c.links
      ensures SqlIsOpds2MediaType(l.mediaType) <==> IsOpds2MediaType(l.mediaType) && IsPaddedWithSpaces(l.mediaType)
    {
      SqlMatchesMediaType(l.mediaType);
    }
    hide IsOpds2MediaType, SqlIsOpds2MediaType, IsPaddedWithSpaces;
    AudiobookOnly(c.publicationTypes);
  }

  lemma AudiobookOnly(types: seq<PublicationType>)
    ensures (set t | t in types) == {Audiobook} <==>
            (exists t :: t in types && t == Audiobook) && !exists t :: t in types && t != Audiobook
  {
    var s := set t | t in types;
    assert forall t :: t in types <==> t in s;
    if s == {Audiobook} {
      assert Audiobook in s;
      assert forall t :: t in s ==> t == Audiobook;
    }
  }

  /** So where every media type is padded only with spaces the two forms are one rule. */
  lemma SqlAllowsTheSame(c: Content, r: Restrictions)
    requires forall l :: l in c.links ==> IsPaddedWithSpaces(l.mediaType)
    ensures SqlAllows(c, r) <==> Allows(c, r)
  {
    hide IsOpds2MediaType, SqlIsOpds2MediaType, IsPaddedWithSpaces;
    SqlAllowsExactly(c, r);
  }

  /** Any other whitespace before the type of the only link: the feed keeps the catalog, the search drops it. */
  lemma OtherPaddingTellsThemApart(c: Content, l: Link, pad: char)
    requires Text.IsSpace(pad) && pad != ' '
    requires c.links == [l] && l.rel == Catalog && l.mediaType == Some([pad] + OPDS_JSON_MEDIA_TYPE)
    ensures Allows(c, Restrictions(true, false, false)) && !SqlAllows(c, Restrictions(true, false, false))
  {
    PaddedType(pad, OPDS_JSON_MEDIA_TYPE);
    hide IsOpds2MediaType, IsPaddedWithSpaces, OPDS_JSON_MEDIA_TYPE, Text.IsSpace;
    SqlAllowsExactly(c, Restrictions(true, false, false));
    assert l in c.links;
  }

  lemma PaddedType(pad: char, type_: string)
    requires Text.IsSpace(pad) && pad != ' ' && type_ == OPDS_JSON_MEDIA_TYPE
    ensures IsOpds2MediaType(Some([pad] + type_)) && !IsPaddedWithSpaces(Some([pad] + type_))
  {
    LowerOfType();
    OpdsType(type_);
    hide OPDS_JSON_MEDIA_TYPE;
    PaddedText(pad, type_);
  }

  lemma OpdsType(type_: string)
    requires type_ == OPDS_JSON_MEDIA_TYPE
    ensures ';' !in type_ && type_ != "" && !Text.IsSpace(type_[0]) && !Text.IsSpace(type_[|type_| - 1])
  {
  }

  lemma LowerOfType()
    ensures Text.Lower(OPDS_JSON_MEDIA_TYPE) == OPDS_JSON_MEDIA_TYPE
  {
  }

  lemma PaddedText(pad: char, rest: string)
    requires Text.IsSpace(pad) && pad != ' ' && ';' !in rest
    requires rest != "" && !Text.IsSpace(rest[0]) && !Text.IsSpace(rest[|rest| - 1])
    ensures TypePart([pad] + rest) == [pad] + rest
    ensures Text.Strip([pad] + rest, Text.IsSpace) == rest && Text.Strip([pad] + rest, IsPlainSpace) == [pad] + rest
  {
    var s, n := [pad] + rest, |rest| + 1;
    Text.SplitOfPlain(s, ';');
    assert s[1..n] == rest;
    assert s[1] == rest[0] && s[n - 1] == rest[n - 2];
    Text.StripIsBetween(s, Text.IsSpace, 1, n);
    Text.StripOfStripped(s, IsPlainSpace);
  }
}
