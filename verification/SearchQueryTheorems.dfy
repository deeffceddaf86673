/** What splitting promises: limits, no empty chunk, clean trigram text, and that what it keeps is found again. */
module SearchQueryTheorems {
  import opened Wrappers
  import opened SearchQuery
  import Parameters
  import Sorting
  import Text

  // ---- The kept chunks -------------------------------------------------------------------------------

  predicate IsPhrase(c: string) {
    && |c| >= 3 && c[0] == '"' && c[|c| - 1] == '"' && '"' !in c[1..|c| - 1]
    && Text.Strip(c[1..|c| - 1], Text.IsSpace) != ""
  }

  predicate IsWord(c: string) {
    c != "" && (forall x :: x in c ==> !Text.IsSpace(x)) && !IsOr(c)
  }

  /** A word opens a quote only when nothing closes it, and a positive one starts with a hyphen only when
      the hyphen is all of it. */
  predicate IsKeptWord(c: Chunk) {
    IsWord(c.text) && (c.text[0] == '"' ==> '"' !in c.text[1..]) && (!c.negated && c.text[0] == '-' ==> c.text == "-")
  }

  predicate IsKept(c: Chunk) {
    IsPhrase(c.text) || IsKeptWord(c)
  }

  predicate OpensQuote(c: Chunk) {
    !IsPhrase(c.text) && c.text != "" && c.text[0] == '"'
  }

  /** A list that splitting can give: kept chunks, and no quote after a word that opens one. */
  predicate IsStable(chunks: seq<Chunk>) {
    chunks == [] || (
      && IsKept(chunks[0]) && (OpensQuote(chunks[0]) ==> forall c :: c in chunks[1..] ==> '"' !in c.text)
      && IsStable(chunks[1..]))
  }

  lemma TokenIsKept(s: string)
    requires s != [] && !Text.IsSpace(s[0]) && ChunkOf(NextToken(s).0).Some?
    ensures IsKept(ChunkOf(NextToken(s).0).value)
    ensures OpensQuote(ChunkOf(NextToken(s).0).value) ==> '"' !in s[NextToken(s).1..]
  {
    hide Text.IsSpace, Text.Strip;
    var (t, n) := NextToken(s);
    NextTokenIsTheMatch(s, t, n);
    if t.Quoted? {
      hide NextToken;
      var c := ['"'] + t.text + ['"'];
      assert c[1..|c| - 1] == t.text;
      Text.StripOfBlanks("", Text.IsSpace);
    } else if t.text[0] == '"' {
      UnclosedQuote(s);
    }
  }

  lemma NoQuoteUntilTheEnd(s: string)
    requires Until(s, IsQuote) == |s|
    ensures '"' !in s
  {
    forall k | 0 <= k < |s| ensures s[k] != '"' {
      assert !IsQuote(s[k]);
    }
  }

  lemma UnclosedQuote(s: string)
    requires s != [] && !Text.IsSpace(s[0]) && NextToken(s).0.Bare? && NextToken(s).0.text != ""
    requires NextToken(s).0.text[0] == '"'
    ensures '"' !in NextToken(s).0.text[1..] && '"' !in s[NextToken(s).1..]
  {
    var (t, n) := NextToken(s);
    var dash := if s[0] == '-' then 1 else 0;
    assert s[dash] == '"' && t.text == s[dash..n];
    var rest := s[dash + 1..];
    assert Until(rest, IsQuote) == |rest|;
    NoQuoteUntilTheEnd(rest);
    assert t.text[1..] == rest[..n - dash - 1] && s[n..] == rest[n - dash - 1..];
  }

  lemma TokenChars(s: string, x: char)
    requires s != [] && !Text.IsSpace(s[0]) && ChunkOf(NextToken(s).0).Some? && x !in s
    ensures x !in ChunkOf(NextToken(s).0).value.text
  {
    hide Text.IsSpace, Text.Strip;
  }

  /** A chunk has no character that the text does not have. */
  lemma {:induction false} ChunkChars(s: string, room: nat, x: char)
    requires x !in s
    ensures forall c :: c in Chunks(s, room) ==> x !in c.text
    decreases |s|
  {
    hide *;
    ChunksStep(s, room);
    if s != [] && room > 0 {
      if Text.IsSpace(s[0]) {
        ChunkChars(s[1..], room, x);
      } else {
        var (t, n) := NextToken(s);
        if ChunkOf(t).None? {
          ChunkChars(s[n..], room, x);
        } else {
          ChunkChars(s[n..], room - 1, x);
          TokenChars(s, x);
        }
      }
    }
  }

  lemma {:induction false} ChunksAreStable(s: string, room: nat)
    ensures IsStable(Chunks(s, room))
    decreases |s|
  {
    hide *;
    ChunksStep(s, room);
    if s == [] || room == 0 {
      NothingIsStable(Chunks(s, room));
    } else if Text.IsSpace(s[0]) {
      ChunksAreStable(s[1..], room);
    } else {
      var (t, n) := NextToken(s);
      if ChunkOf(t).None? {
        ChunksAreStable(s[n..], room);
      } else {
        ChunksAreStable(s[n..], room - 1);
        TokenIsKept(s);
        OneMoreIsStable(s[n..], ChunkOf(t).value, room - 1);
      }
    }
  }

  lemma NothingIsStable(chunks: seq<Chunk>)
    requires chunks == []
    ensures IsStable(chunks)
  {
  }

  lemma OneMoreIsStable(rest: string, c: Chunk, room: nat)
    requires IsKept(c) && IsStable(Chunks(rest, room)) && (OpensQuote(c) ==> '"' !in rest)
    ensures IsStable([c] + Chunks(rest, room))
  {
    hide Chunks, IsKept, OpensQuote;
    assert ([c] + Chunks(rest, room))[1..] == Chunks(rest, room);
    if OpensQuote(c) { ChunkChars(rest, room, '"'); }
  }

  lemma {:induction false} StableAreKept(chunks: seq<Chunk>)
    requires IsStable(chunks)
    ensures forall c :: c in chunks ==> IsKept(c)
  {
    hide IsKept, OpensQuote;
    if chunks != [] {
      StableAreKept(chunks[1..]);
      assert chunks == [chunks[0]] + chunks[1..];
    }
  }

  // ---- Writing the chunks down and splitting again ---------------------------------------------------

  function Written(c: Chunk): string {
    Dash(c.negated) + c.text
  }

  function WrittenAll(chunks: seq<Chunk>): (r: seq<string>)
    ensures |r| == |chunks| && forall i :: 0 <= i < |r| ==> r[i] == Written(chunks[i])
  {
    seq(|chunks|, i requires 0 <= i < |chunks| => Written(chunks[i]))
  }

  /** The chunks as a text, separated by single spaces. */
  function Rewritten(chunks: seq<Chunk>): string {
    Text.Join(WrittenAll(chunks), ' ')
  }

  /** What follows the first part once the parts are joined. */
  function Tail(parts: seq<string>): string
    requires parts != []
  {
    if |parts| == 1 then "" else [' '] + Text.Join(parts[1..], ' ')
  }

  lemma JoinIsHeadAndTail(parts: seq<string>)
    requires parts != []
    ensures Text.Join(parts, ' ') == parts[0] + Tail(parts)
    ensures Tail(parts) == "" || Tail(parts)[0] == ' '
    ensures (Tail(parts) == "" && Text.Join(parts[1..], ' ') == "") || Tail(parts) == [' '] + Text.Join(parts[1..], ' ')
  {
  }

  function AfterFirst(chunks: seq<Chunk>): string
    requires chunks != []
  {
    Tail(WrittenAll(chunks))
  }

  lemma RewrittenIsHeadAndTail(chunks: seq<Chunk>)
    requires chunks != []
    ensures Rewritten(chunks) == Written(chunks[0]) + AfterFirst(chunks)
    ensures AfterFirst(chunks) == "" || AfterFirst(chunks)[0] == ' '
    ensures || (AfterFirst(chunks) == "" && Rewritten(chunks[1..]) == "")
            || AfterFirst(chunks) == [' '] + Rewritten(chunks[1..])
  {
    hide Tail, Written, Text.Join;
    assert WrittenAll(chunks)[1..] == WrittenAll(chunks[1..]);
    JoinIsHeadAndTail(WrittenAll(chunks));
  }

  lemma RewrittenChars(chunks: seq<Chunk>, x: char)
    requires x != ' ' && x != '-' && forall c :: c in chunks ==> x !in c.text
    ensures x !in Rewritten(chunks)
  {
    forall w | w in WrittenAll(chunks) ensures x !in w {
      var i :| 0 <= i < |chunks| && WrittenAll(chunks)[i] == w;
      assert chunks[i] in chunks;
    }
    Text.CharsOfJoin(WrittenAll(chunks), ' ', x);
  }

  lemma StableTail(chunks: seq<Chunk>)
    requires IsStable(chunks) && chunks != []
    ensures IsStable(chunks[1..]) && IsKept(chunks[0]) && (OpensQuote(chunks[0]) ==> '"' !in AfterFirst(chunks))
  {
    RewrittenIsHeadAndTail(chunks);
    hide IsKept, OpensQuote, Rewritten, AfterFirst;
    if OpensQuote(chunks[0]) { RewrittenChars(chunks[1..], '"'); }
  }

  /** A kept chunk followed by a space, or by nothing, is the next token, unchanged. */
  lemma KeptTokenAgain(c: Chunk, tail: string)
    requires IsKept(c) && (OpensQuote(c) ==> '"' !in tail)
    requires tail == "" || tail[0] == ' '
    ensures Written(c) != "" && !Text.IsSpace(Written(c)[0]) && (Written(c) + tail)[0] == Written(c)[0]
    ensures NextToken(Written(c) + tail).1 == |Written(c)| && ChunkOf(NextToken(Written(c) + tail).0) == Some(c)
  {
    WrittenStarts(c);
    assert (Written(c) + tail)[0] == Written(c)[0];
    if IsPhrase(c.text) {
      PhraseTokenAgain(c, tail);
    } else {
      hide NextToken, Text.IsSpace;
      WordTokenAgain(c, tail);
    }
  }

  lemma WrittenStarts(c: Chunk)
    requires IsKept(c)
    ensures Written(c) != "" && !Text.IsSpace(Written(c)[0])
  {
    assert !Text.IsSpace('"') && !Text.IsSpace('-');
    if !IsPhrase(c.text) { assert c.text[0] in c.text; }
  }

  lemma PhraseTokenAgain(c: Chunk, tail: string)
    requires IsPhrase(c.text) && !Text.IsSpace(Written(c)[0])
    ensures NextToken(Written(c) + tail).1 == |Written(c)| && ChunkOf(NextToken(Written(c) + tail).0) == Some(c)
  {
    hide NextToken, Text.Strip, Text.IsSpace;
    var w, text := Written(c), c.text[1..|c.text| - 1];
    assert (w + tail)[..|w|] == w && (w + tail)[0] == w[0];
    assert c.text == ['"'] + text + ['"'];
    assert w == Dash(c.negated) + ['"'] + text + ['"'];
    NextTokenIsTheMatch(w + tail, Quoted(c.negated, text), |w|);
  }

  lemma WordTokenAgain(c: Chunk, tail: string)
    requires IsKeptWord(c) && (c.text[0] == '"' ==> '"' !in tail)
    requires tail == "" || tail[0] == ' '
    ensures !Text.IsSpace((Written(c) + tail)[0])
    ensures NextToken(Written(c) + tail) == (Bare(c.negated, c.text), |Written(c)|)
  {
    hide NextToken;
    var w := Written(c);
    var s := w + tail;
    assert c.text[0] in c.text && s[..|w|] == w && !Text.IsSpace('-') && Text.IsSpace(' ');
    WordQuotes(c, tail);
    forall neg, x, m ensures !IsPhraseMatch(s, neg, x, m) {
      if IsPhraseMatch(s, neg, x, m) { PhraseQuotes(s, neg, x, m); }
    }
    NextTokenIsTheMatch(s, Bare(c.negated, c.text), |w|);
  }

  lemma PhraseQuotes(s: string, neg: bool, x: string, m: nat)
    requires IsPhraseMatch(s, neg, x, m)
    ensures neg ==> |s| > 1 && s[0] == '-' && s[1] == '"' && '"' in s[2..]
    ensures !neg ==> s != "" && s[0] == '"' && '"' in s[1..]
  {
    var d := |Dash(neg)|;
    assert s[..m][0] == s[0] && s[..m][d] == s[d] == '"';
    assert s[..m][d + 1 + |x|] == s[d + 1 + |x|] == s[d + 1..][|x|] == '"';
  }

  /** A kept word does not start a phrase: nothing closes the quote it may open, and the hyphen of a positive
      one stands alone. */
  lemma WordQuotes(c: Chunk, tail: string)
    requires IsKeptWord(c) && (c.text[0] == '"' ==> '"' !in tail)
    requires tail == "" || tail[0] == ' '
    ensures var s := Written(c) + tail;
            && (s[0] == '"' ==> '"' !in s[1..])
            && (s[0] == '-' && |s| > 1 && s[1] == '"' ==> '"' !in s[2..])
  {
  }

  /** Every stable list, written down with single spaces, is split into the very same list, as far as there is room. */
  lemma {:induction false} RewritingIsReadBack(chunks: seq<Chunk>, room: nat)
    requires IsStable(chunks)
    ensures |chunks| <= room ==> Chunks(Rewritten(chunks), room) == chunks
    ensures room < |chunks| ==> Chunks(Rewritten(chunks), room) == chunks[..room]
    decreases |chunks|
  {
    hide *;
    if chunks == [] {
      NothingIsWritten(chunks, room);
    } else if room == 0 {
      ChunksStep(Rewritten(chunks), room);
    } else {
      RewrittenIsHeadAndTail(chunks);
      StableTail(chunks);
      KeptTokenAgain(chunks[0], AfterFirst(chunks));
      RewritingIsReadBack(chunks[1..], room - 1);
      SplitTail(chunks[0], AfterFirst(chunks), Rewritten(chunks[1..]), room);
      assert chunks == [chunks[0]] + chunks[1..];
    }
  }

  /** A bare OR and a blank phrase, negated or not, are passed over. */
  predicate IsPassedOver(negated: bool, text: string) {
    || Text.Lower(text) == "or"
    || (|text| >= 2 && text[0] == '"' && text[|text| - 1] == '"' && Parameters.IsBlank(text[1..|text| - 1]))
  }

  lemma IsOrMeans(w: string)
    ensures IsOr(w) <==> Text.Lower(w) == "or"
  {
    if Text.Lower(w) == "or" { assert |w| == 2 && Text.LowerChar(w[0]) == 'o' && Text.LowerChar(w[1]) == 'r'; }
  }

  /** What is passed over leaves no trace: the text after it is split as if it stood alone, and so is a text after
      whitespace. */
  lemma PassedOverLeavesNoTrace(negated: bool, text: string, space: char, rest: string, room: nat)
    requires Text.IsSpace(space)
    ensures Chunks([space] + rest, room) == Chunks(rest, room)
    ensures IsPassedOver(negated, text) ==> Chunks(Dash(negated) + text + ([space] + rest), room) == Chunks(rest, room)
  {
    var tail := [space] + rest;
    assert tail[1..] == rest;
    ChunksStep(tail, room);
    ChunksStep(rest, room);
    if IsPassedOver(negated, text) {
      var s, n := Dash(negated) + text + tail, |Dash(negated)| + |text|;
      if Text.Lower(text) == "or" {
        OrIsPassedOver(negated, text, tail);
      } else {
        BlankIsPassedOver(negated, text, tail);
      }
      hide ChunkOf, NextToken, Chunks;
      assert s[n..] == tail;
      ChunksStep(s, room);
    }
  }

  lemma OrIsPassedOver(negated: bool, text: string, tail: string)
    requires Text.Lower(text) == "or" && tail != "" && Text.IsSpace(tail[0])
    ensures var s := Dash(negated) + text + tail;
            && s != "" && !Text.IsSpace(s[0]) && ChunkOf(NextToken(s).0) == None
            && NextToken(s).1 == |Dash(negated)| + |text|
  {
    IsOrMeans(text);
    var s, d := Dash(negated) + text + tail, |Dash(negated)|;
    assert s[d] == text[0] && s[d + 1] == text[1] && s[d + 2] == tail[0];
    assert s[..d + 2] == Dash(negated) + text && s[d..d + 2] == text;
    UntilIs(s, Text.IsSpace, d + 2);
  }

  lemma BlankIsPassedOver(negated: bool, text: string, tail: string)
    requires |text| >= 2 && text[0] == '"' && text[|text| - 1] == '"' && Parameters.IsBlank(text[1..|text| - 1])
    ensures var s := Dash(negated) + text + tail;
            && s != "" && !Text.IsSpace(s[0]) && ChunkOf(NextToken(s).0) == None
            && NextToken(s).1 == |Dash(negated)| + |text|
  {
    var s, n, blanks := Dash(negated) + text + tail, |Dash(negated)| + |text|, text[1..|text| - 1];
    Parameters.BlanksAt(blanks);
    assert forall k :: 0 <= k < |blanks| ==> blanks[k] != '"';
    assert text == ['"'] + blanks + ['"'];
    assert s[..n] == Dash(negated) + ['"'] + blanks + ['"'];
    PhraseAtStart(s, negated, blanks, n);
    Text.StripOfBlanks(blanks, Text.IsSpace);
  }

  lemma NothingIsWritten(chunks: seq<Chunk>, room: nat)
    requires chunks == []
    ensures Chunks(Rewritten(chunks), room) == chunks
  {
  }

  lemma SplitTail(c: Chunk, tail: string, rest: string, room: nat)
    requires Written(c) != "" && !Text.IsSpace(Written(c)[0]) && (Written(c) + tail)[0] == Written(c)[0] && room > 0
    requires (tail == "" && rest == "") || tail == [' '] + rest
    requires NextToken(Written(c) + tail).1 == |Written(c)| && ChunkOf(NextToken(Written(c) + tail).0) == Some(c)
    ensures Chunks(Written(c) + tail, room) == [c] + Chunks(rest, room - 1)
  {
    hide ChunkOf, NextToken, Written;
    var w := Written(c);
    ChunksStep(w + tail, room);
    assert (w + tail)[|w|..] == tail;
    if tail != "" {
      assert tail[1..] == rest && Text.IsSpace(' ');
    }
  }

  /** So splitting the chunks of any text, written down again, gives those chunks, negated ones included. */
  lemma SplittingIsStable(s: string, room: nat)
    ensures Chunks(Rewritten(Chunks(s, room)), room) == Chunks(s, room)
  {
    hide Chunks, IsStable;
    ChunksAreStable(s, room);
    RewritingIsReadBack(Chunks(s, room), room);
  }

  // ---- The text that is split, and the two lists -----------------------------------------------------

  /** U+0000 is dropped wherever it stands, and then the first 256 characters are kept. */
  lemma CleaningKeepsTheFirst(a: string, b: string)
    ensures Clean(Some(a + ['\0'] + b)) == Clean(Some(a + b))
    ensures '\0' !in a ==> Clean(Some(a)) == if |a| <= 256 then a else a[..256]
  {
    NulIsDropped(a, '\0', b);
    if '\0' !in a { Sorting.FilterAll(NotNul, a); }
    hide Sorting.Filter;
  }

  lemma NulIsDropped(a: string, nul: char, b: string)
    requires nul == '\0'
    ensures Sorting.Filter(NotNul, a + [nul] + b) == Sorting.Filter(NotNul, a + b)
  {
    var one := [nul];
    Sorting.FilterConcat(NotNul, a + one, b);
    Sorting.FilterConcat(NotNul, a, one);
    Sorting.FilterConcat(NotNul, a, b);
    assert one[1..] == [];
    assert Sorting.Filter(NotNul, one) == [];
    hide Sorting.Filter;
  }

  /** The chunks are told apart by their sign and keep their order. */
  lemma TextsAreInOrder(a: seq<Chunk>, c: Chunk, b: seq<Chunk>, negated: bool)
    ensures Texts(a + [c] + b, negated) ==
            Texts(a, negated) + (if c.negated == negated then [c.text] else []) + Texts(b, negated)
  {
    TextsOfConcat(a, [c] + b, negated);
    TextsCons(c, b, negated);
    hide Texts;
    assert a + [c] + b == a + ([c] + b);
    Associative(Texts(a, negated), if c.negated == negated then [c.text] else [], Texts(b, negated));
  }

  lemma {:induction false} TextsOfConcat(a: seq<Chunk>, b: seq<Chunk>, negated: bool)
    ensures Texts(a + b, negated) == Texts(a, negated) + Texts(b, negated)
  {
    if a == [] {
      assert a + b == b;
    } else {
      TextsOfConcat(a[1..], b, negated);
      TextsCons(a[0], a[1..] + b, negated);
      TextsCons(a[0], a[1..], negated);
      hide Texts;
      assert a + b == [a[0]] + (a[1..] + b) && a == [a[0]] + a[1..];
      Associative(if a[0].negated == negated then [a[0].text] else [], Texts(a[1..], negated), Texts(b, negated));
    }
  }

  lemma Associative(x: seq<string>, y: seq<string>, z: seq<string>)
    ensures x + (y + z) == x + y + z
  {
  }

  // ---- The positives alone ---------------------------------------------------------------------------

  function Positives(chunks: seq<Chunk>): seq<Chunk> {
    Sorting.Filter((c: Chunk) => !c.negated, chunks)
  }

  lemma {:induction false} TextsFit(chunks: seq<Chunk>)
    ensures |Texts(chunks, false)| + |Texts(chunks, true)| == |chunks|
    ensures forall negated, t :: t in Texts(chunks, negated) <==> Chunk(negated, t) in chunks
  {
    if chunks != [] {
      TextsFit(chunks[1..]);
      assert chunks == [chunks[0]] + chunks[1..];
    }
  }

  lemma {:induction false} PositivesAreStable(chunks: seq<Chunk>)
    requires IsStable(chunks)
    ensures IsStable(Positives(chunks)) && |Positives(chunks)| <= |chunks|
    ensures forall c :: c in Positives(chunks) ==> c in chunks && !c.negated
  {
    hide IsKept, OpensQuote;
    if chunks != [] {
      PositivesAreStable(chunks[1..]);
      var rest := Positives(chunks[1..]);
      assert ([chunks[0]] + rest)[1..] == rest;
      assert chunks == [chunks[0]] + chunks[1..];
    }
  }

  lemma {:induction false} PositiveTexts(chunks: seq<Chunk>)
    ensures WrittenAll(Positives(chunks)) == Texts(chunks, false)
    ensures Texts(Positives(chunks), false) == Texts(chunks, false) && Texts(Positives(chunks), true) == []
  {
    if chunks != [] {
      PositiveTexts(chunks[1..]);
      var c, rest := chunks[0], Positives(chunks[1..]);
      if !c.negated {
        assert ([c] + rest)[1..] == rest;
        assert Written(c) == c.text;
        assert WrittenAll([c] + rest) == [c.text] + WrittenAll(rest);
      }
    }
  }

  /** Splitting the positives again, joined by single spaces and still within the length limit, gives the
      same positives and no negatives. */
  lemma ParsingIsStable(text: Option<string>)
    ensures var p := Parsed(text).positives;
            |Text.Join(p, ' ')| <= MAX_QUERY_CHARS ==>
              Parsed(Some(Text.Join(p, ' '))) == ParsedQuery(p, [], Parsed(text).trigramText)
  {
    var chunks := Chunks(Clean(text), MAX_QUERY_CHUNKS);
    var positives, joined := Positives(chunks), Text.Join(Parsed(text).positives, ' ');
    hide Chunks, IsStable, Clean, TrigramText, Positives;
    ChunksAreStable(Clean(text), MAX_QUERY_CHUNKS);
    PositivesAreStable(chunks);
    PositiveTexts(chunks);
    RewritingIsReadBack(positives, MAX_QUERY_CHUNKS);
    NoNul(text);
    if |joined| <= MAX_QUERY_CHARS { CleanOfClean(joined); }
  }

  /** A query written from a stable list of chunks, within both limits, is parsed into exactly those chunks. */
  lemma WrittenQueryIsParsed(chunks: seq<Chunk>)
    requires IsStable(chunks) && |chunks| <= 16
    requires |Rewritten(chunks)| <= 256 && '\0' !in Rewritten(chunks)
    ensures Parsed(Some(Rewritten(chunks))).positives == Texts(chunks, false)
    ensures Parsed(Some(Rewritten(chunks))).negatives == Texts(chunks, true)
  {
    hide Chunks, IsStable, Clean, TrigramText, Rewritten;
    CleanOfClean(Rewritten(chunks));
    RewritingIsReadBack(chunks, MAX_QUERY_CHUNKS);
  }

  lemma CleanOfClean(s: string)
    requires '\0' !in s && |s| <= MAX_QUERY_CHARS
    ensures Clean(Some(s)) == s
  {
    Sorting.FilterAll(NotNul, s);
  }

  lemma NoNul(text: Option<string>)
    ensures '\0' !in Text.Join(Parsed(text).positives, ' ')
  {
    CleanHasNoNul(text);
    ChunkChars(Clean(text), MAX_QUERY_CHUNKS, '\0');
    TextsFit(Chunks(Clean(text), MAX_QUERY_CHUNKS));
    Text.CharsOfJoin(Parsed(text).positives, ' ', '\0');
  }

  lemma CleanHasNoNul(text: Option<string>)
    ensures '\0' !in Clean(text)
  {
    var written := if text.Some? then text.value else "";
    Sorting.FilterMembers(NotNul, written);
    var kept := Sorting.Filter(NotNul, written);
    forall i | 0 <= i < |Clean(text)| ensures Clean(text)[i] != '\0' {
      assert Clean(text)[i] == kept[i] && kept[i] in kept;
    }
  }

  /** At most sixteen chunks, each a phrase that is not blank or a word that is not a bare OR. */
  lemma ChunksAreBounded(text: Option<string>)
    ensures |Parsed(text).positives| + |Parsed(text).negatives| <= 16
    ensures forall c :: c in Parsed(text).positives || c in Parsed(text).negatives ==> IsPhrase(c) || IsWord(c)
  {
    var chunks := Chunks(Clean(text), MAX_QUERY_CHUNKS);
    ChunksAreStable(Clean(text), MAX_QUERY_CHUNKS);
    StableAreKept(chunks);
    TextsFit(chunks);
  }

  // ---- The trigram text ------------------------------------------------------------------------------

  /** Nothing at the ends, and one plain space at a time in between. */
  ghost predicate IsSpaced(t: string) {
    && (t != "" ==> !Text.IsSpace(t[0]) && !Text.IsSpace(t[|t| - 1]))
    && forall k :: 0 <= k < |t| - 1 && Text.IsSpace(t[k]) ==> t[k] == ' ' && !Text.IsSpace(t[k + 1])
  }

  predicate IsRun(w: string) {
    w != "" && forall k :: 0 <= k < |w| ==> !Text.IsSpace(w[k])
  }

  lemma {:induction false} WordsAreRuns(s: string, x: char)
    ensures forall w :: w in Words(s) ==> IsRun(w)
    ensures x !in s ==> forall w :: w in Words(s) ==> x !in w
    decreases |s|
  {
    if s != [] {
      if Text.IsSpace(s[0]) {
        WordsAreRuns(s[1..], x);
      } else {
        WordsAreRuns(s[Until(s, Text.IsSpace)..], x);
      }
    }
  }

  lemma RunThenTail(w: string, tail: string)
    requires IsRun(w) && (tail == "" || tail[0] == ' ')
    ensures Words(w + tail) == [w] + Words(tail)
  {
    var s := w + tail;
    assert s[0] == w[0] && Text.IsSpace(' ');
    UntilIs(s, Text.IsSpace, |w|);
    assert s[..|w|] == w && s[|w|..] == tail;
  }

  lemma {:induction false} JoinOfRuns(words: seq<string>)
    requires forall w :: w in words ==> IsRun(w)
    ensures Words(Text.Join(words, ' ')) == words
    ensures IsSpaced(Text.Join(words, ' ')) && (words != [] ==> Text.Join(words, ' ') != "")
  {
    if words != [] {
      hide IsRun, Text.Join, Words, Text.IsSpace, IsSpaced;
      JoinIsHeadAndTail(words);
      JoinOfRuns(words[1..]);
      RunThenTail(words[0], Tail(words));
      WordsOfTail(Tail(words), Text.Join(words[1..], ' '));
      SpacedRun(words[0], Tail(words), Text.Join(words[1..], ' '));
      assert words == [words[0]] + words[1..];
    }
  }

  lemma WordsOfTail(tail: string, rest: string)
    requires (tail == "" && rest == "") || tail == [' '] + rest
    ensures Words(tail) == Words(rest)
  {
  }

  lemma SpacedRun(w: string, tail: string, rest: string)
    requires IsRun(w) && IsSpaced(rest)
    requires (tail == "" && rest == "") || (tail == [' '] + rest && rest != "")
    ensures IsSpaced(w + tail) && w + tail != ""
  {
  }

  /** The trigram text has no quotes, no whitespace at its ends and single spaces between its words, and its
      words are those of the positives without their quotes. */
  lemma TrigramTextIsClean(text: Option<string>)
    ensures IsSpaced(Parsed(text).trigramText) && '"' !in Parsed(text).trigramText
    ensures Words(Parsed(text).trigramText) == Words(Text.Join(Unquoted(Parsed(text).positives), ' '))
  {
    var unquoted := Unquoted(Parsed(text).positives);
    var words := Words(Text.Join(unquoted, ' '));
    assert forall c :: c in unquoted ==> '"' !in c;
    hide Words, Unquoted, Text.Join, IsSpaced, IsRun;
    Text.CharsOfJoin(unquoted, ' ', '"');
    WordsAreRuns(Text.Join(unquoted, ' '), '"');
    JoinOfRuns(words);
    Text.CharsOfJoin(words, ' ', '"');
  }
}
