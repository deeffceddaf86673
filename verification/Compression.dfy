/** The compression middleware: a buffer between the application and the client, driven by messages. */
module Compression {
  import opened Wrappers
  import opened ContentCoding
  import Sorting
  import Text

  type Bytes = seq<bv8>

  const MINIMUM_SIZE: nat := 1024

  /** The response headers the middleware reads or writes, each at most once, and the rest. */
  datatype Headers = Headers(
    vary: Option<string>, contentEncoding: Option<string>, contentLength: Option<nat>, others: map<string, string>)

  /** What an application sends. A body message without bytes has none, and is the last unless it says otherwise. */
  datatype Message = Start(status: int, headers: Headers) | Body(bytes: Bytes, more: bool) | Other(kind: string)

  /** One call of `log_client_request`. */
  datatype LogLine = LogLine(status: int, encoding: Option<string>)

  /** What is fixed for one request. */
  datatype Setting = Setting(isHead: bool, encoding: Option<string>, compress: (string, Bytes) -> Bytes)

  /** The variables of one request, what has been sent, and what has been logged. */
  datatype Exchange = Exchange(
    start: Option<Message>, chunks: seq<Bytes>, logged: bool, sent: seq<Message>, log: seq<LogLine>)

  const UNTOUCHED := Exchange(None, [], false, [], [])

  /** What the inner application does with the request: the messages it sends, and whether it then raises. */
  datatype InnerRun = InnerRun(messages: seq<Message>, raises: bool)

  // ---- Vary ------------------------------------------------------------------------------------------

  const ACCEPT_ENCODING := "Accept-Encoding"

  predicate StandsAt(s: string, part: string, i: int) {
    0 <= i <= |s| - |part| && s[i..i + |part|] == part
  }

  predicate Contains(s: string, part: string) {
    exists i :: 0 <= i <= |s| && StandsAt(s, part, i)
  }

  predicate VariesOnEncoding(vary: string) {
    Contains(Text.Lower(vary), Text.Lower(ACCEPT_ENCODING))
  }

  function AddVary(h: Headers): Headers {
    var vary := if h.vary.Some? then h.vary.value else ACCEPT_ENCODING;
    h.(vary := Some(if VariesOnEncoding(vary) then vary else vary + ", " + ACCEPT_ENCODING))
  }

  /** `Vary` names the header, keeps what the application varied on, and nothing else changes; once is enough. */
  lemma AddVaryKeepsTheRest(h: Headers)
    ensures var added := AddVary(h);
            && added.vary.Some? && VariesOnEncoding(added.vary.value)
            && (h.vary.Some? ==> h.vary.value <= added.vary.value)
            && added == h.(vary := added.vary) && AddVary(added) == added
  {
    var vary := if h.vary.Some? then h.vary.value else ACCEPT_ENCODING;
    EndsWithHeader("", ACCEPT_ENCODING);
    EndsWithHeader(vary + ", ", ACCEPT_ENCODING);
    assert "" + ACCEPT_ENCODING == ACCEPT_ENCODING;
    hide VariesOnEncoding, ACCEPT_ENCODING;
    assert vary + ", " + ACCEPT_ENCODING == (vary + ", ") + ACCEPT_ENCODING;
  }

  /** The value is added to the application's own, unless that one has it already in any case. */
  lemma VaryIs(h: Headers)
    ensures h.vary.None? ==> AddVary(h).vary == Some("Accept-Encoding")
    ensures h.vary.Some? && !Contains(Text.Lower(h.vary.value), "accept-encoding") ==>
              AddVary(h).vary == Some(h.vary.value + ", " + "Accept-Encoding")
    ensures h.vary.Some? && Contains(Text.Lower(h.vary.value), "accept-encoding") ==> AddVary(h) == h
  {
    LowerOfHeader(ACCEPT_ENCODING, "accept-encoding");
    var none := "";
    EndsWithHeader(none, ACCEPT_ENCODING);
    assert none + ACCEPT_ENCODING == ACCEPT_ENCODING;
  }

  lemma LowerOfHeader(name: string, lower: string)
    requires name == ACCEPT_ENCODING && lower == "accept-encoding"
    ensures Text.Lower(name) == lower
  {
  }

  lemma EndsWithHeader(front: string, name: string)
    requires name == ACCEPT_ENCODING
    ensures VariesOnEncoding(front + name)
  {
    hide ACCEPT_ENCODING;
    var l, n := Text.Lower(front + name), |front|;
    assert l[n..n + |name|] == Text.Lower(name);
    assert StandsAt(l, Text.Lower(name), n);
  }

  // ---- One message -----------------------------------------------------------------------------------

  function Concat(chunks: seq<Bytes>): Bytes {
    if chunks == [] then [] else chunks[0] + Concat(chunks[1..])
  }

  /** The chunks are joined in the order they came. */
  lemma {:induction false} ChunksJoinInOrder(a: seq<Bytes>, b: seq<Bytes>)
    ensures Concat(a + b) == Concat(a) + Concat(b)
    ensures |a| == 1 ==> Concat(a) == a[0]
  {
    if a == [] {
      assert a + b == b;
    } else {
      ChunksJoinInOrder(a[1..], b);
      assert (a + b)[1..] == a[1..] + b;
      assert a[0] + (Concat(a[1..]) + Concat(b)) == a[0] + Concat(a[1..]) + Concat(b);
      if |a| == 1 { assert a[1..] == [] && a[0] + [] == a[0]; }
    }
  }

  /** The coding the body is sent in, if the middleware applies one. */
  function Applied(s: Setting, h: Headers, body: Bytes): Option<string> {
    if s.encoding.Some? && |body| >= MINIMUM_SIZE && h.contentEncoding.None? then s.encoding else None
  }

  function CodedBody(s: Setting, h: Headers, body: Bytes): Bytes {
    var applied := Applied(s, h, body);
    if applied.Some? then s.compress(applied.value, body) else body
  }

  function CodedHeaders(s: Setting, h: Headers, body: Bytes): Headers {
    var applied := Applied(s, h, body);
    AddVary(h).(contentEncoding := if applied.Some? then applied else h.contentEncoding,
                contentLength := Some(|CodedBody(s, h, body)|))
  }

  /** One message of the application, as the state before it and the state after. */
  function RespondTo(s: Setting, x: Exchange, m: Message): Exchange {
    if s.isHead then
      if m.Start? then
        x.(sent := x.sent + [Start(m.status, AddVary(m.headers))], log := x.log + [LogLine(m.status, None)],
           logged := true)
      else x.(sent := x.sent + [m])
    else if m.Start? then x.(start := Some(m))
    else if !m.Body? || x.start.None? || !x.start.value.Start? then x.(sent := x.sent + [m])
    else
      var chunks := x.chunks + [m.bytes];
      if m.more then x.(chunks := chunks)
      else
        var body, status, h := Concat(chunks), x.start.value.status, x.start.value.headers;
        x.(chunks := chunks, logged := true, log := x.log + [LogLine(status, Applied(s, h, body))],
           sent := x.sent + [Start(status, CodedHeaders(s, h, body)), Body(CodedBody(s, h, body), false)],
           start := Some(Start(status, CodedHeaders(s, h, body))))
  }

  function RespondToAll(s: Setting, x: Exchange, messages: seq<Message>): Exchange
    decreases |messages|
  {
    if messages == [] then x else RespondToAll(s, RespondTo(s, x, messages[0]), messages[1..])
  }

  /** The whole request, from the first message to the end of the application or the error it raises. */
  function Outcome(s: Setting, run: InnerRun): Exchange {
    var x := RespondToAll(s, UNTOUCHED, run.messages);
    if run.raises && !x.logged then x.(log := x.log + [LogLine(500, None)]) else x
  }

  predicate IsRefused(read: string -> Option<Float>, offered: Option<string>) {
    Chosen(read, offered).None? && !IdentityAcceptable(read, offered)
  }

  const PROBLEM_JSON_MEDIA_TYPE := "application/problem+json"

  /** The headers of a problem document, but for the fixed security headers. */
  function ProblemHeaders(problem: Bytes): Headers {
    Headers(None, None, Some(|problem|), map["content-type" := PROBLEM_JSON_MEDIA_TYPE])
  }

  /** The answer to a client that refuses everything: the application is not called. */
  function Refusal(problem: Bytes): Exchange {
    UNTOUCHED.(log := [LogLine(406, None)],
               sent := [Start(406, AddVary(ProblemHeaders(problem))), Body(problem, false)])
  }

  /** One start and one body: status 406, a problem document of this length, uncoded, varying on the header; and one
      log line. */
  predicate Says406(x: Exchange, problem: Bytes) {
    && |x.sent| == 2 && x.log == [LogLine(406, None)] && x.sent[0].Start? && x.sent[0].status == 406
    && x.sent[0].headers.contentEncoding == None && x.sent[0].headers.contentLength == Some(|problem|)
    && x.sent[0].headers.others == map["content-type" := "application/problem+json"]
    && x.sent[0].headers.vary == Some("Accept-Encoding") && x.sent[1] == Body(problem, false)
  }

  lemma RefusalSays(problem: Bytes)
    ensures Says406(Refusal(problem), problem)
  {
    VaryIs(ProblemHeaders(problem));
    AddVaryKeepsTheRest(ProblemHeaders(problem));
    hide AddVary, VariesOnEncoding;
  }

  /** One request through the middleware. */
  class CompressionMiddleware {
    const setting: Setting
    var start: Option<Message>
    var chunks: seq<Bytes>
    var logged: bool
    var sent: seq<Message>
    var log: seq<LogLine>

    ghost function State(): Exchange
      reads this
    {
      Exchange(start, chunks, logged, sent, log)
    }

    constructor (setting: Setting)
      ensures this.setting == setting && State() == UNTOUCHED
    {
      this.setting, start, chunks, logged, sent, log := setting, None, [], false, [], [];
    }

    method Respond(message: Message)
      modifies this
      ensures State() == RespondTo(setting, old(State()), message)
    {
      hide Applied, AddVary, Concat;
      if setting.isHead {
        if message.Start? {
          sent := sent + [Start(message.status, AddVary(message.headers))];
          log, logged := log + [LogLine(message.status, None)], true;
        } else {
          sent := sent + [message];
        }
        return;
      }
      if message.Start? { start := Some(message); return; }
      if !message.Body? || start.None? || !start.value.Start? { sent := sent + [message]; return; }
      chunks := chunks + [message.bytes];
      if message.more { return; }
      var body, status, h := Concat(chunks), start.value.status, start.value.headers;
      var headers, coded, applied := AddVary(h), body, Applied(setting, h, body);
      if applied.Some? {
        coded := setting.compress(applied.value, body);
        headers := headers.(contentEncoding := applied);
      }
      headers := headers.(contentLength := Some(|coded|));
      log, logged := log + [LogLine(status, applied)], true;
      AddVaryKeepsTheRest(h);
      start := Some(Start(status, headers));
      sent := sent + [Start(status, headers), Body(coded, false)];
    }

    method Call(run: InnerRun)
      requires State() == UNTOUCHED
      modifies this
      ensures State() == Outcome(setting, run)
    {
      hide RespondTo;
      for i := 0 to |run.messages|
        invariant RespondToAll(setting, State(), run.messages[i..]) == RespondToAll(setting, UNTOUCHED, run.messages)
      {
        assert run.messages[i..][1..] == run.messages[i + 1..];
        Respond(run.messages[i]);
      }
      if run.raises && !logged { log := log + [LogLine(500, None)]; }
    }
  }

  /** The entry point: refuse, or let the application answer through the buffer. */
  method Handle(
    read: string -> Option<Float>, offered: Option<string>, isHead: bool, compress: (string, Bytes) -> Bytes,
    problem: Bytes, run: InnerRun) returns (x: Exchange)
    ensures x == if IsRefused(read, offered) then Refusal(problem)
                 else Outcome(Setting(isHead, Chosen(read, offered), compress), run)
    ensures IsRefused(read, offered) ==> Says406(x, problem)
  {
    hide Chosen, IdentityAcceptable, RespondToAll, AddVary, Says406, Refusal;
    var encoding := ChooseEncoding(read, offered);
    if encoding.None? && !IdentityAcceptable(read, offered) {
      RefusalSays(problem);
      return Refusal(problem);
    }
    var middleware := new CompressionMiddleware(Setting(isHead, encoding, compress));
    middleware.Call(run);
    x := Exchange(middleware.start, middleware.chunks, middleware.logged, middleware.sent, middleware.log);
  }

  // ---- What the client gets --------------------------------------------------------------------------

  /** A start, then at least one body message, of which exactly the last one ends the body. */
  predicate IsResponse(messages: seq<Message>) {
    && |messages| >= 2 && messages[0].Start?
    && forall i :: 1 <= i < |messages| ==> messages[i].Body? && (messages[i].more <==> i < |messages| - 1)
  }

  /** A response cut off before its last chunk. */
  predicate IsUnfinished(messages: seq<Message>) {
    messages == [] || (messages[0].Start? && forall i :: 1 <= i < |messages| ==> messages[i].Body? && messages[i].more)
  }

  function ChunksOf(bodies: seq<Message>): (chunks: seq<Bytes>)
    ensures |chunks| == |bodies|
    ensures forall i :: 0 <= i < |bodies| ==> chunks[i] == if bodies[i].Body? then bodies[i].bytes else []
  {
    seq(|bodies|, i requires 0 <= i < |bodies| => if bodies[i].Body? then bodies[i].bytes else [])
  }

  /** The bytes of a response, however it was cut into chunks. */
  function ContentOf(messages: seq<Message>): Bytes
    requires messages != []
  {
    Concat(ChunksOf(messages[1..]))
  }

  lemma {:induction false} ChunksAreHeld(s: Setting, x: Exchange, bodies: seq<Message>)
    requires !s.isHead && x.start.Some? && x.start.value.Start?
    requires forall i :: 0 <= i < |bodies| ==> bodies[i].Body? && bodies[i].more
    ensures RespondToAll(s, x, bodies) == x.(chunks := x.chunks + ChunksOf(bodies))
    decreases |bodies|
  {
    hide Concat, AddVary, CodedHeaders, CodedBody, Applied, ChunksOf;
    if bodies == [] {
      assert x.chunks + ChunksOf(bodies) == x.chunks;
    } else {
      var next := RespondTo(s, x, bodies[0]);
      ChunksAreHeld(s, next, bodies[1..]);
      assert next.chunks + ChunksOf(bodies[1..]) == x.chunks + ChunksOf(bodies);
    }
  }

  lemma {:induction false} RespondToConcat(s: Setting, x: Exchange, a: seq<Message>, b: seq<Message>)
    ensures RespondToAll(s, x, a + b) == RespondToAll(s, RespondToAll(s, x, a), b)
    decreases |a|
  {
    hide RespondTo;
    if a == [] {
      assert a + b == b;
    } else {
      assert (a + b)[1..] == a[1..] + b;
      RespondToConcat(s, RespondTo(s, x, a[0]), a[1..], b);
    }
  }

  /** Every response that the application finishes leaves as one start and one body, with one log line. */
  lemma ResponseIsBuffered(s: Setting, run: InnerRun)
    requires !s.isHead && IsResponse(run.messages)
    ensures var h, status, body := run.messages[0].headers, run.messages[0].status, ContentOf(run.messages);
            && Outcome(s, run).sent == [Start(status, CodedHeaders(s, h, body)), Body(CodedBody(s, h, body), false)]
            && Outcome(s, run).log == [LogLine(status, Applied(s, h, body))]
  {
    hide CodedHeaders, CodedBody, Applied, Concat, ChunksOf;
    var n := |run.messages| - 1;
    var first, middle, last := [run.messages[0]], run.messages[1..n], [run.messages[n]];
    assert run.messages == first + (middle + last);
    RespondToConcat(s, UNTOUCHED, first, middle + last);
    var started := RespondTo(s, UNTOUCHED, run.messages[0]);
    RespondToOne(s, UNTOUCHED, first);
    RespondToConcat(s, started, middle, last);
    ChunksAreHeld(s, started, middle);
    RespondToOne(s, RespondToAll(s, started, middle), last);
    assert ChunksOf(run.messages[1..]) == [] + ChunksOf(middle) + [last[0].bytes];
  }

  lemma RespondToOne(s: Setting, x: Exchange, one: seq<Message>)
    requires |one| == 1
    ensures RespondToAll(s, x, one) == RespondTo(s, x, one[0])
  {
  }

  /** What is sent is what the application wrote. The body is coded exactly when a coding was chosen, it is large
      enough and the application has not coded it; then it decodes to the chunks in order, and otherwise it is
      them. The length is right, and the headers differ only in the coding, the length and `Vary`. */
  lemma ResponseIsIntact(s: Setting, run: InnerRun, decode: (string, Bytes) -> Bytes)
    requires !s.isHead && IsResponse(run.messages)
    requires forall coding, b :: decode(coding, s.compress(coding, b)) == b
    ensures var h, content := run.messages[0].headers, ContentOf(run.messages);
            var sent, log := Outcome(s, run).sent, Outcome(s, run).log;
            var coded := s.encoding.Some? && |content| >= 1024 && h.contentEncoding.None?;
            && |sent| == 2 && sent[0].Start? && sent[1].Body? && !sent[1].more
            && sent[0].status == run.messages[0].status
            && sent[0].headers.contentLength == Some(|sent[1].bytes|)
            && (coded ==> sent[0].headers.contentEncoding == s.encoding)
            && (coded ==> decode(s.encoding.value, sent[1].bytes) == content)
            && (!coded ==> sent[0].headers.contentEncoding == h.contentEncoding && sent[1].bytes == content)
            && sent[0].headers.others == h.others && sent[0].headers.vary == AddVary(h).vary
            && log == [LogLine(run.messages[0].status, if coded then s.encoding else None)]
  {
    ResponseIsBuffered(s, run);
    AddVaryKeepsTheRest(run.messages[0].headers);
    hide AddVary, ContentOf, Outcome;
  }

  /** How the body was cut does not matter. */
  lemma ChunkingDoesNotMatter(s: Setting, run: InnerRun, other: InnerRun)
    requires !s.isHead && IsResponse(run.messages) && IsResponse(other.messages)
    requires run.messages[0] == other.messages[0] && ContentOf(run.messages) == ContentOf(other.messages)
    ensures Outcome(s, run).sent == Outcome(s, other).sent && Outcome(s, run).log == Outcome(s, other).log
  {
    hide Outcome, CodedHeaders, CodedBody, Applied, ContentOf;
    ResponseIsBuffered(s, run);
    ResponseIsBuffered(s, other);
  }

  /** An application that raises before its last chunk has sent nothing, and the request is logged once, as a 500. */
  lemma NothingIsSentBeforeTheEnd(s: Setting, run: InnerRun)
    requires !s.isHead && IsUnfinished(run.messages)
    ensures Outcome(s, run).sent == []
    ensures Outcome(s, run).log == if run.raises then [LogLine(500, None)] else []
  {
    if run.messages != [] {
      var first, rest := [run.messages[0]], run.messages[1..];
      assert run.messages == first + rest;
      RespondToConcat(s, UNTOUCHED, first, rest);
      RespondToOne(s, UNTOUCHED, first);
      ChunksAreHeld(s, RespondTo(s, UNTOUCHED, run.messages[0]), rest);
    }
  }

  function PassedThrough(messages: seq<Message>): (r: seq<Message>)
    ensures |r| == |messages|
    ensures forall i :: 0 <= i < |r| ==> r[i] == Varied(messages[i])
  {
    seq(|messages|, i requires 0 <= i < |messages| => Varied(messages[i]))
  }

  function Varied(m: Message): Message {
    if m.Start? then m.(headers := AddVary(m.headers)) else m
  }

  function StartLines(messages: seq<Message>): seq<LogLine> {
    if messages == [] then []
    else (if messages[0].Start? then [LogLine(messages[0].status, None)] else []) + StartLines(messages[1..])
  }

  lemma {:induction false} HeadStep(s: Setting, x: Exchange, messages: seq<Message>)
    requires s.isHead
    ensures var y := RespondToAll(s, x, messages);
            && y.sent == x.sent + PassedThrough(messages) && y.log == x.log + StartLines(messages)
            && (y.logged <==> x.logged || StartLines(messages) != [])
    decreases |messages|
  {
    hide AddVary, RespondTo, PassedThrough;
    if messages == [] {
      assert x.sent + PassedThrough(messages) == x.sent && x.log + [] == x.log;
    } else {
      var m, rest := messages[0], messages[1..];
      HeadMessage(s, x, m);
      HeadStep(s, RespondTo(s, x, m), rest);
      assert PassedThrough(messages) == PassedThrough([m]) + PassedThrough(rest);
      assert x.sent + PassedThrough([m]) + PassedThrough(rest) == x.sent + (PassedThrough([m]) + PassedThrough(rest));
      var line := if m.Start? then [LogLine(m.status, None)] else [];
      assert x.log + line + StartLines(rest) == x.log + (line + StartLines(rest));
    }
  }

  lemma HeadMessage(s: Setting, x: Exchange, m: Message)
    requires s.isHead
    ensures var y := RespondTo(s, x, m);
            && y.sent == x.sent + PassedThrough([m])
            && y.log == x.log + (if m.Start? then [LogLine(m.status, None)] else [])
            && (y.logged <==> x.logged || m.Start?)
  {
  }

  /** A HEAD response passes through as it is but for `Vary`, whatever the application sends, and is logged when
      it starts; an error before that is logged as a 500. */
  lemma HeadPassesThrough(s: Setting, run: InnerRun)
    requires s.isHead
    ensures Outcome(s, run).sent == PassedThrough(run.messages)
    ensures Outcome(s, run).log ==
            if run.raises && StartLines(run.messages) == [] then [LogLine(500, None)] else StartLines(run.messages)
  {
    hide RespondToAll, PassedThrough;
    HeadStep(s, UNTOUCHED, run.messages);
    assert [] + PassedThrough(run.messages) == PassedThrough(run.messages);
    assert [] + StartLines(run.messages) == StartLines(run.messages);
  }

  // ---- Messages of no response -----------------------------------------------------------------------

  predicate IsOther(m: Message) {
    m.Other?
  }

  lemma OtherPassesThrough(s: Setting, x: Exchange, m: Message)
    ensures Sorting.Filter(IsOther, RespondTo(s, x, m).sent) ==
            Sorting.Filter(IsOther, x.sent) + if IsOther(m) then [m] else []
    ensures m.Other? ==> RespondTo(s, x, m) == x.(sent := x.sent + [m])
  {
    Sorting.FilterAppend(IsOther, x.sent, m);
    var y := RespondTo(s, x, m);
    if y.sent != x.sent && !IsOther(m) {
      hide AddVary, CodedHeaders, CodedBody;
      var added := y.sent[|x.sent|..];
      assert y.sent == x.sent + added && forall i :: 0 <= i < |added| ==> !IsOther(added[i]);
      Sorting.FilterConcat(IsOther, x.sent, added);
      NoneIsOther(added);
    }
  }

  lemma NoneIsOther(messages: seq<Message>)
    requires |messages| <= 2 && forall i :: 0 <= i < |messages| ==> !IsOther(messages[i])
    ensures Sorting.Filter(IsOther, messages) == []
  {
    var kept := Sorting.Filter(IsOther, messages);
    Sorting.FilterMembers(IsOther, messages);
    assert forall m :: m !in kept;
    assert forall i :: 0 <= i < |kept| ==> kept[i] in kept;
  }

  /** Messages that are no part of a response reach the server as they are, all of them and in order, whatever the
      application sends and however it ends. */
  lemma {:induction false} OthersPassThrough(s: Setting, x: Exchange, messages: seq<Message>)
    ensures Sorting.Filter(IsOther, RespondToAll(s, x, messages).sent) ==
            Sorting.Filter(IsOther, x.sent) + Sorting.Filter(IsOther, messages)
    decreases |messages|
  {
    hide RespondTo;
    if messages == [] {
      assert Sorting.Filter(IsOther, x.sent) + [] == Sorting.Filter(IsOther, x.sent);
    } else {
      var m, rest := messages[0], messages[1..];
      OtherPassesThrough(s, x, m);
      OthersPassThrough(s, RespondTo(s, x, m), rest);
      assert messages == [m] + rest;
      Sorting.FilterCons(IsOther, m, rest);
      hide Sorting.Filter, IsOther;
      Between(Sorting.Filter(IsOther, x.sent), if IsOther(m) then [m] else [], Sorting.Filter(IsOther, rest));
    }
  }

  lemma Between(before: seq<Message>, one: seq<Message>, after: seq<Message>)
    ensures before + one + after == before + (one + after)
    ensures before + [] == before && [] + after == after
  {
  }

  // ---- Refusing --------------------------------------------------------------------------------------

  /** A body is sent uncoded to a client that refuses identity exactly when it is too small to compress. */
  lemma RefusedIdentityIsSentWhenSmall(
    read: string -> Option<Float>, offered: Option<string>, s: Setting, run: InnerRun)
    requires !IdentityAcceptable(read, offered) && !IsRefused(read, offered) && s.encoding == Chosen(read, offered)
    requires !s.isHead && IsResponse(run.messages) && run.messages[0].headers.contentEncoding.None?
    ensures |Outcome(s, run).sent| == 2 && Outcome(s, run).sent[0].Start?
    ensures Outcome(s, run).sent[0].headers.contentEncoding.None? <==> |ContentOf(run.messages)| < MINIMUM_SIZE
  {
    hide Chosen, IdentityAcceptable, AddVary, Outcome, ContentOf;
    ResponseIsBuffered(s, run);
  }
}
