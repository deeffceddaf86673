/** Splitting the user's search text into positive and negated chunks. */
module SearchQuery {
  import opened Wrappers
  import Sorting
  import Text

  const PAGE_SIZE: nat := 50
  const MAX_RESULTS: nat := 100
  const MAX_QUERY_CHARS: nat := 256
  const MAX_QUERY_CHUNKS: nat := 16

  /** One match of the token pattern. */
  datatype Token = Quoted(negated: bool, text: string) | Bare(negated: bool, text: string)

  /** A chunk that is kept. A phrase keeps its quotes. */
  datatype Chunk = Chunk(negated: bool, text: string)

  datatype ParsedQuery = ParsedQuery(positives: seq<string>, negatives: seq<string>, trigramText: string)

  // ---- The token pattern -----------------------------------------------------------------------------

  predicate IsQuote(c: char) { c == '"' }

  function Until(s: string, stop: char -> bool): (n: nat)
    ensures n <= |s| && (forall k :: 0 <= k < n ==> !stop(s[k]))
    ensures n < |s| ==> stop(s[n])
  {
    if s == [] || stop(s[0]) then 0 else 1 + Until(s[1..], stop)
  }

  lemma UntilIs(s: string, stop: char -> bool, n: nat)
    requires n <= |s| && (forall k :: 0 <= k < n ==> !stop(s[k])) && (n < |s| ==> stop(s[n]))
    ensures Until(s, stop) == n
  {
  }

  /** The match at the start of `s`, and its length. */
  function NextToken(s: string): (r: (Token, nat))
    requires s != [] && !Text.IsSpace(s[0])
    ensures 1 <= r.1 <= |s|
  {
    var dash := if s[0] == '-' then 1 else 0;
    if dash < |s| && s[dash] == '"' && dash + 1 + Until(s[dash + 1..], IsQuote) < |s| then
      var text := s[dash + 1..dash + 1 + Until(s[dash + 1..], IsQuote)];
      (Quoted(dash == 1, text), dash + |text| + 2)
    else
      var n := Until(s, Text.IsSpace);
      if dash == 1 && n > 1 then (Bare(true, s[1..n]), n) else (Bare(false, s[..n]), n)
  }

  function Dash(negated: bool): string {
    if negated then "-" else ""
  }

  predicate IsPhraseMatch(s: string, negated: bool, text: string, n: nat) {
    n <= |s| && s[..n] == Dash(negated) + ['"'] + text + ['"'] && '"' !in text
  }

  /** What the pattern means: a closed phrase if one starts here; otherwise the longest run without
      whitespace, whose leading hyphen negates it unless the hyphen is all there is. */
  ghost predicate IsMatch(s: string, t: Token, n: nat) {
    match t
    case Quoted(negated, text) => IsPhraseMatch(s, negated, text, n)
    case Bare(negated, text) =>
      && !(exists neg, x, m :: IsPhraseMatch(s, neg, x, m))
      && text != "" && (forall c :: c in text ==> !Text.IsSpace(c))
      && n <= |s| && s[..n] == Dash(negated) + text && (n < |s| ==> Text.IsSpace(s[n]))
      && (!negated && text[0] == '-' ==> text == "-")
  }

  lemma PhraseAtStart(s: string, negated: bool, x: string, n: nat)
    requires s != [] && !Text.IsSpace(s[0]) && IsPhraseMatch(s, negated, x, n)
    ensures NextToken(s) == (Quoted(negated, x), n)
  {
    var d := |Dash(negated)|;
    assert s[..n][0] == s[0];
    assert s[..n][d] == s[d] == '"';
    var rest := s[d + 1..];
    forall k | 0 <= k <= |x|
      ensures rest[k] == s[d + 1 + k] == if k < |x| then x[k] else '"'
      ensures IsQuote(rest[k]) <==> k == |x|
    {
      assert rest[k] == s[..n][d + 1 + k];
      if k < |x| { assert x[k] in x; }
    }
    UntilIs(rest, IsQuote, |x|);
    assert s[d + 1..d + 1 + |x|] == x;
  }

  /** The lexer takes the match the pattern describes, and there is only that one. */
  lemma NextTokenIsTheMatch(s: string, t: Token, n: nat)
    requires s != [] && !Text.IsSpace(s[0])
    ensures IsMatch(s, t, n) <==> NextToken(s) == (t, n)
  {
    hide Text.IsSpace;
    if neg, x, m :| IsPhraseMatch(s, neg, x, m) {
      PhraseAtStart(s, neg, x, m);
      if t.Quoted? && IsMatch(s, t, n) { PhraseAtStart(s, t.negated, t.text, n); }
    } else {
      NoPhrase(s);
      if IsMatch(s, t, n) { WordMatchIsNext(s, t, n); }
    }
  }

  lemma NoPhrase(s: string)
    requires s != [] && !Text.IsSpace(s[0]) && forall neg, x, m :: !IsPhraseMatch(s, neg, x, m)
    ensures NextToken(s).0.Bare? && IsMatch(s, NextToken(s).0, NextToken(s).1)
  {
    if NextToken(s).0.Quoted? { QuotedIsPhrase(s); }
    hide NextToken, IsPhraseMatch;
    BareIsWord(s);
  }

  lemma QuotedIsPhrase(s: string)
    requires s != [] && !Text.IsSpace(s[0]) && NextToken(s).0.Quoted?
    ensures IsPhraseMatch(s, NextToken(s).0.negated, NextToken(s).0.text, NextToken(s).1)
  {
    hide Text.IsSpace, Until;
    var (t, n) := NextToken(s);
    var d := |Dash(t.negated)|;
    var rest := s[d + 1..];
    var u := Until(rest, IsQuote);
    assert t.text == rest[..u] && n == d + u + 2 && rest[u] == s[n - 1];
    PhraseParts(s, Dash(t.negated), t.text, n);
    assert forall k :: 0 <= k < u ==> t.text[k] == rest[k] && !IsQuote(rest[k]);
  }

  lemma PhraseParts(s: string, front: string, text: string, n: nat)
    requires |front| + |text| + 2 == n <= |s| && s[..|front|] == front && s[|front|] == '"' && s[n - 1] == '"'
    requires s[|front| + 1..n - 1] == text
    ensures s[..n] == front + ['"'] + text + ['"']
  {
    assert s[..n] == s[..|front|] + [s[|front|]] + s[|front| + 1..n - 1] + [s[n - 1]];
  }

  lemma BareIsWord(s: string)
    requires s != [] && !Text.IsSpace(s[0]) && NextToken(s).0.Bare?
    ensures var (t, n) := NextToken(s);
            && t.text != "" && (forall c :: c in t.text ==> !Text.IsSpace(c)) && s[..n] == Dash(t.negated) + t.text
            && (n < |s| ==> Text.IsSpace(s[n])) && (!t.negated && t.text[0] == '-' ==> t.text == "-")
  {
    hide Text.IsSpace;
    var (t, n) := NextToken(s);
    if t.negated { assert s[0] == '-' && s[..n] == [s[0]] + s[1..n]; }
  }

  lemma WordIsRun(s: string, t: Token, n: nat)
    requires t.Bare? && IsMatch(s, t, n)
    ensures |Dash(t.negated)| + |t.text| == n <= |s| && s[|Dash(t.negated)|..n] == t.text
    ensures forall k :: 0 <= k < n ==> !Text.IsSpace(s[k])
    ensures t.negated ==> s[0] == '-'
  {
    assert !Text.IsSpace('-');
    hide Text.IsSpace;
    var d := |Dash(t.negated)|;
    assert |s[..n]| == d + |t.text|;
    forall k | 0 <= k < n ensures s[k] == if k < d then '-' else t.text[k - d] {
      assert s[k] == s[..n][k];
    }
    forall k | 0 <= k < n ensures !Text.IsSpace(s[k]) {
      if k >= d { assert t.text[k - d] in t.text; }
    }
  }

  lemma WordMatchIsNext(s: string, t: Token, n: nat)
    requires s != [] && !Text.IsSpace(s[0]) && t.Bare? && IsMatch(s, t, n)
    requires NextToken(s).0.Bare?
    ensures NextToken(s) == (t, n)
  {
    WordIsRun(s, t, n);
    hide Text.IsSpace, IsPhraseMatch;
    UntilIs(s, Text.IsSpace, n);
    hide Until;
    if !t.negated && s[0] == '-' { assert t.text == s[0..n] && t.text[0] == '-'; }
  }

  // ---- From tokens to chunks -------------------------------------------------------------------------

  /** `chunk.upper() == "OR"`. */
  predicate IsOr(w: string) {
    |w| == 2 && (w[0] == 'o' || w[0] == 'O') && (w[1] == 'r' || w[1] == 'R')
  }

  function ChunkOf(t: Token): Option<Chunk> {
    match t
    case Quoted(negated, text) =>
      if Text.Strip(text, Text.IsSpace) == "" then None else Some(Chunk(negated, ['"'] + text + ['"']))
    case Bare(negated, text) => if IsOr(text) then None else Some(Chunk(negated, text))
  }

  /** The chunks of `s`, at most `room` of them. */
  function Chunks(s: string, room: nat): (r: seq<Chunk>)
    ensures |r| <= room
    decreases |s|
  {
    if s == [] || room == 0 then []
    else if Text.IsSpace(s[0]) then Chunks(s[1..], room)
    else
      var (t, n) := NextToken(s);
      var chunk := ChunkOf(t);
      if chunk.None? then Chunks(s[n..], room) else [chunk.value] + Chunks(s[n..], room - 1)
  }

  function Texts(chunks: seq<Chunk>, negated: bool): seq<string> {
    if chunks == [] then []
    else (if chunks[0].negated == negated then [chunks[0].text] else []) + Texts(chunks[1..], negated)
  }

  predicate NotNul(c: char) { c != '\0' }

  /** U+0000 removed, then cut. */
  function Clean(text: Option<string>): (raw: string)
    ensures |raw| <= MAX_QUERY_CHARS
  {
    var kept := Sorting.Filter(NotNul, if text.Some? then text.value else "");
    if |kept| <= MAX_QUERY_CHARS then kept else kept[..MAX_QUERY_CHARS]
  }

  function Unquoted(positives: seq<string>): (r: seq<string>)
    ensures |r| == |positives| && forall i :: 0 <= i < |r| ==> r[i] == Text.Replace(positives[i], '"', ' ')
  {
    seq(|positives|, i requires 0 <= i < |positives| => Text.Replace(positives[i], '"', ' '))
  }

  /** `str.split()`: the runs without whitespace. */
  function Words(s: string): seq<string>
    decreases |s|
  {
    if s == [] then []
    else if Text.IsSpace(s[0]) then Words(s[1..])
    else var n := Until(s, Text.IsSpace); [s[..n]] + Words(s[n..])
  }

  function TrigramText(positives: seq<string>): string {
    Text.Join(Words(Text.Join(Unquoted(positives), ' ')), ' ')
  }

  function Parsed(text: Option<string>): ParsedQuery {
    var chunks := Chunks(Clean(text), MAX_QUERY_CHUNKS);
    ParsedQuery(Texts(chunks, false), Texts(chunks, true), TrigramText(Texts(chunks, false)))
  }

  lemma ChunksStep(s: string, room: nat)
    ensures s == [] || room == 0 ==> Chunks(s, room) == []
    ensures s != [] && room > 0 && Text.IsSpace(s[0]) ==> Chunks(s, room) == Chunks(s[1..], room)
    ensures s != [] && room > 0 && !Text.IsSpace(s[0]) ==>
              var (t, n) := NextToken(s);
              Chunks(s, room) == match ChunkOf(t)
              case None => Chunks(s[n..], room)
              case Some(chunk) => [chunk] + Chunks(s[n..], room - 1)
  {
  }

  lemma TextsCons(c: Chunk, rest: seq<Chunk>, negated: bool)
    ensures Texts([c] + rest, negated) == (if c.negated == negated then [c.text] else []) + Texts(rest, negated)
  {
  }

  /** `positives` and `negatives` are what the text before `rest` gave. */
  ghost predicate ParsedSoFar(raw: string, positives: seq<string>, negatives: seq<string>, rest: string) {
    && |positives| + |negatives| <= MAX_QUERY_CHUNKS
    && var chunks := Chunks(rest, MAX_QUERY_CHUNKS - |positives| - |negatives|);
       && positives + Texts(chunks, false) == Texts(Chunks(raw, MAX_QUERY_CHUNKS), false)
       && negatives + Texts(chunks, true) == Texts(Chunks(raw, MAX_QUERY_CHUNKS), true)
  }

  lemma ParseChunk(raw: string, positives: seq<string>, negatives: seq<string>, rest: string, chunk: Chunk, n: nat)
    requires ParsedSoFar(raw, positives, negatives, rest) && |positives| + |negatives| < MAX_QUERY_CHUNKS
    requires rest != [] && !Text.IsSpace(rest[0]) && ChunkOf(NextToken(rest).0) == Some(chunk) && NextToken(rest).1 == n
    ensures chunk.negated ==> ParsedSoFar(raw, positives, negatives + [chunk.text], rest[n..])
    ensures !chunk.negated ==> ParsedSoFar(raw, positives + [chunk.text], negatives, rest[n..])
  {
    hide Chunks, Texts, ChunkOf, NextToken, Text.IsSpace;
    var room := MAX_QUERY_CHUNKS - |positives| - |negatives|;
    ChunksStep(rest, room);
    var after := Chunks(rest[n..], room - 1);
    assert Chunks(rest, room) == [chunk] + after;
    TextsCons(chunk, after, true);
    TextsCons(chunk, after, false);
    assert [] + Texts(after, true) == Texts(after, true) && [] + Texts(after, false) == Texts(after, false);
    assert positives + ([chunk.text] + Texts(after, false)) == (positives + [chunk.text]) + Texts(after, false);
    assert negatives + ([chunk.text] + Texts(after, true)) == (negatives + [chunk.text]) + Texts(after, true);
  }

  lemma ParseNothing(raw: string, positives: seq<string>, negatives: seq<string>, rest: string, n: nat)
    requires ParsedSoFar(raw, positives, negatives, rest) && |positives| + |negatives| < MAX_QUERY_CHUNKS && rest != []
    requires if Text.IsSpace(rest[0]) then n == 1 else ChunkOf(NextToken(rest).0) == None && NextToken(rest).1 == n
    ensures ParsedSoFar(raw, positives, negatives, rest[n..])
  {
  }

  lemma ParseStart(raw: string)
    ensures ParsedSoFar(raw, [], [], raw)
  {
  }

  lemma ParseEnd(raw: string, positives: seq<string>, negatives: seq<string>, rest: string)
    requires ParsedSoFar(raw, positives, negatives, rest)
    requires rest == [] || |positives| + |negatives| == MAX_QUERY_CHUNKS
    ensures positives == Texts(Chunks(raw, MAX_QUERY_CHUNKS), false)
    ensures negatives == Texts(Chunks(raw, MAX_QUERY_CHUNKS), true)
  {
  }

  method ParseSearchQuery(text: Option<string>) returns (q: ParsedQuery)
    ensures q == Parsed(text)
  {
    hide ChunkOf, NextToken, Text.IsSpace, ParsedSoFar, Chunks, Texts, TrigramText, Clean;
    var raw := Clean(text);
    var positives: seq<string>, negatives: seq<string> := [], [];
    var i := 0;
    ParseStart(raw);
    assert raw[0..] == raw;
    while i < |raw|
      invariant i <= |raw| && |positives| + |negatives| < MAX_QUERY_CHUNKS
      invariant ParsedSoFar(raw, positives, negatives, raw[i..])
      decreases |raw| - i
    {
      ghost var rest := raw[i..];
      if Text.IsSpace(raw[i]) {
        ParseNothing(raw, positives, negatives, rest, 1);
        assert rest[1..] == raw[i + 1..];
        i := i + 1;
      } else {
        var (t, n) := NextToken(raw[i..]);
        assert rest[n..] == raw[i + n..];
        var chunk := ChunkOf(t);
        if chunk.None? {
          ParseNothing(raw, positives, negatives, rest, n);
        } else {
          ParseChunk(raw, positives, negatives, rest, chunk.value, n);
          if chunk.value.negated { negatives := negatives + [chunk.value.text]; }
          else { positives := positives + [chunk.value.text]; }
        }
        i := i + n;
        if |positives| + |negatives| >= MAX_QUERY_CHUNKS { break; }
      }
    }
    ParseEnd(raw, positives, negatives, raw[i..]);
    return ParsedQuery(positives, negatives, TrigramText(positives));
  }
}
