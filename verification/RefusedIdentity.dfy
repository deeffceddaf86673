/** A client that names brotli and refuses an uncoded body, and what a short response is to it. */
module RefusedIdentity {
  import opened Wrappers
  import opened ContentCoding
  import opened Compression
  import Parameters
  import Text

  /** A text that stripping and lowercasing leave alone. */
  predicate IsPlainName(s: string) {
    && s != "" && !Text.IsSpace(s[0]) && !Text.IsSpace(s[|s| - 1])
    && (forall c :: c in s ==> Text.LowerChar(c) == c) && ';' !in s && ',' !in s
  }

  lemma PlainNameIsItsOwn(s: string)
    requires IsPlainName(s)
    ensures Text.Lower(Stripped(s)) == s && Stripped(s) == s && Text.Split(s, ';') == [s] && Text.Split(s, ',') == [s]
  {
    Text.StripOfStripped(s, Text.IsSpace);
    Text.SplitOfPlain(s, ';');
    Text.SplitOfPlain(s, ',');
    assert forall i :: 0 <= i < |s| ==> s[i] in s;
  }

  lemma NoParameters(read: string -> Option<Float>, parameters: seq<string>)
    requires parameters == []
    ensures ReadQuality(read, parameters) == (1.0, true)
  {
  }

  lemma NamedPart(read: string -> Option<Float>, name: string)
    requires IsPlainName(name)
    ensures ReadPart(read, name) == Some(Preference(name, 1.0))
  {
    PlainNameIsItsOwn(name);
    hide Text.Split, Stripped, Text.Lower, IsPlainName, ReadQuality;
    assert [name][1..] == [];
    NoParameters(read, [name][1..]);
  }

  /** `q` and `zero` make the parameter `q=0`. */
  lemma ZeroQuality(read: string -> Option<Float>, q: string, zero: string)
    requires q == "q" && zero == "0" && read(zero) == Some(Finite(0.0))
    ensures Parameters.IsQuality(q + "=" + zero) && Parameters.Partition(q + "=" + zero).1 == zero
    ensures Stripped(q + "=" + zero) == q + "=" + zero
  {
    var s := q + "=" + zero;
    assert |s| == 3 && s[0] == 'q' && s[2] == '0' && '=' !in q;
    Parameters.PartitionOfParameter(q, zero);
    PlainNameIsItsOwn(q);
    hide Parameters.Partition;
    Text.StripOfStripped(s, Text.IsSpace);
  }

  lemma RefusedPart(read: string -> Option<Float>, name: string, q: string, zero: string)
    requires IsPlainName(name) && q == "q" && zero == "0" && read(zero) == Some(Finite(0.0))
    ensures ReadPart(read, name + ";" + (q + "=" + zero)) == Some(Preference(name, 0.0))
  {
    var parameter := q + "=" + zero;
    PlainNameIsItsOwn(name);
    ZeroQuality(read, q, zero);
    assert ';' !in parameter;
    Text.SplitOfPlain(parameter, ';');
    Text.SplitOfConcat(name, ';', parameter);
    hide Text.Split, Stripped, Text.Lower, IsPlainName, Parameters.IsQuality, Parameters.Partition;
    assert [name] + [parameter] == [name, parameter] && [name, parameter][1..] == [parameter];
    assert [parameter][..0] == [];
    NoParameters(read, [parameter][..0]);
  }

  lemma TwoParts(read: string -> Option<Float>, one: string, two: string, p: Preference, q: Preference)
    requires ReadPart(read, one) == Some(p) && ReadPart(read, two) == Some(q)
    ensures ReadParts(read, [one, two]) == map[p.name := p.quality][q.name := q.quality]
  {
    hide ReadPart;
    assert [one, two][..1] == [one] && [one][..0] == [];
    assert ReadParts(read, [one]) == map[p.name := p.quality];
  }

  lemma BrotliWithoutIdentity(wanted: map<string, real>)
    requires wanted == map["br" := 1.0]["identity" := 0.0]
    ensures BestOf(wanted, OFFERED) == Some(Preference("br", 1.0))
  {
    assert "zstd" !in wanted && "gzip" !in wanted && "*" !in wanted && wanted["br"] == 1.0;
    assert OFFERED[..2] == ["zstd", "br"] && ["zstd", "br"][..1] == ["zstd"] && ["zstd"][..0] == [];
    assert BestOf(wanted, ["zstd"]) == None;
    assert BestOf(wanted, ["zstd", "br"]) == Some(Preference("br", 1.0));
  }

  /** The header `br,identity;q=0`. */
  function BrotliOnly(): string {
    "br" + "," + ("identity" + ";" + ("q" + "=" + "0"))
  }

  lemma BrotliOnlyIs(read: string -> Option<Float>, br: string, identity: string, q: string, zero: string)
    requires br == "br" && identity == "identity" && q == "q" && zero == "0" && read(zero) == Some(Finite(0.0))
    ensures Wanted(read, Some(br + "," + (identity + ";" + (q + "=" + zero)))) == map[br := 1.0][identity := 0.0]
  {
    ArePlainNames(br, identity, q, zero);
    hide *;
    RefusedPart(read, identity, q, zero);
    TwoPartHeader(read, br, identity + ";" + (q + "=" + zero), Preference(identity, 0.0));
  }

  lemma ArePlainNames(br: string, identity: string, q: string, zero: string)
    requires br == "br" && identity == "identity" && q == "q" && zero == "0"
    ensures IsPlainName(br) && IsPlainName(identity) && ',' !in identity + ";" + (q + "=" + zero)
  {
    assert |br| == 2 && |identity| == 8;
  }

  lemma TwoPartHeader(read: string -> Option<Float>, named: string, other: string, p: Preference)
    requires IsPlainName(named) && ',' !in other && ReadPart(read, other) == Some(p)
    ensures Wanted(read, Some(named + "," + other)) == map[named := 1.0][p.name := p.quality]
  {
    hide *;
    NamedPart(read, named);
    PlainNameIsItsOwn(named);
    Text.SplitOfPlain(other, ',');
    Text.SplitOfConcat(named, ',', other);
    WantedIsReadParts(read, named + "," + other);
    assert [named] + [other] == [named, other];
    TwoParts(read, named, other, Preference(named, 1.0), p);
  }

  lemma WantedIsReadParts(read: string -> Option<Float>, header: string)
    ensures Wanted(read, Some(header)) == ReadParts(read, Text.Split(header, ','))
  {
    hide ReadParts, Text.Split;
  }

  /** It asks for brotli and refuses identity, so it is answered, in brotli. */
  lemma BrotliOnlyIsAnswered(read: string -> Option<Float>)
    requires read("0") == Some(Finite(0.0))
    ensures Chosen(read, Some(BrotliOnly())) == Some("br")
    ensures !IdentityAcceptable(read, Some(BrotliOnly())) && !IsRefused(read, Some(BrotliOnly()))
  {
    BrotliOnlyIs(read, "br", "identity", "q", "0");
    BrotliWithoutIdentity(map["br" := 1.0]["identity" := 0.0]);
    hide Wanted, BestOf;
  }

  /** And yet a short body that the application has not coded leaves uncoded. */
  lemma ShortBodyLeavesUncoded(
    read: string -> Option<Float>, compress: (string, Bytes) -> Bytes, status: int, h: Headers, body: Bytes)
    requires read("0") == Some(Finite(0.0)) && h.contentEncoding.None? && |body| < MINIMUM_SIZE
    ensures !IdentityAcceptable(read, Some(BrotliOnly())) && !IsRefused(read, Some(BrotliOnly()))
    ensures var x := Outcome(Setting(false, Chosen(read, Some(BrotliOnly())), compress),
                             InnerRun([Start(status, h), Body(body, false)], false));
            && |x.sent| == 2 && x.sent[1] == Body(body, false)
            && x.sent[0].Start? && x.sent[0].headers.contentEncoding.None?
  {
    hide BrotliOnly, Chosen, IdentityAcceptable, IsRefused, AddVary, Outcome;
    BrotliOnlyIsAnswered(read);
    var run := InnerRun([Start(status, h), Body(body, false)], false);
    assert run.messages[1..] == [Body(body, false)];
    assert Concat(ChunksOf(run.messages[1..])) == body by { ConcatOfOne(ChunksOf(run.messages[1..])); }
    ResponseIsBuffered(Setting(false, Chosen(read, Some(BrotliOnly())), compress), run);
  }

  lemma ConcatOfOne(chunks: seq<Bytes>)
    requires |chunks| == 1
    ensures Concat(chunks) == chunks[0]
  {
    assert chunks[1..] == [] && chunks[0] + [] == chunks[0];
  }
}
