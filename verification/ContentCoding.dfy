/** Negotiating a content coding from `Accept-Encoding` (section 12.5.3 of RFC 9110). */
module ContentCoding {
  import opened Wrappers
  import Parameters
  import Text

  /** The codings offered, most preferred first. */
  const OFFERED := ["zstd", "br", "gzip"]

  /** What `float` makes of a text it can read. */
  datatype Float = NotANumber | Infinite(negative: bool) | Finite(value: real)

  /** A coding and its quality. */
  datatype Preference = Preference(name: string, quality: real)

  /** `min(1.0, max(0.0, x))`. A NaN compares greater than nothing, so `max` keeps the zero. */
  function Clamp(x: Float): (q: real)
    ensures 0.0 <= q <= 1.0
  {
    match x
    case NotANumber => 0.0
    case Infinite(negative) => if negative then 0.0 else 1.0
    case Finite(v) => if v < 0.0 then 0.0 else if v > 1.0 then 1.0 else v
  }

  // ---- Reading the header ----------------------------------------------------------------------------

  function Stripped(s: string): string {
    Text.Strip(s, Text.IsSpace)
  }

  /** The quality and whether it is readable, after the parameters so far. One unreadable quality is enough to
      drop the coding; otherwise the last one counts. */
  function ReadQuality(read: string -> Option<Float>, parameters: seq<string>): (r: (real, bool))
    ensures 0.0 <= r.0 <= 1.0
  {
    if parameters == [] then (1.0, true)
    else
      var n := |parameters| - 1;
      var (quality, readable) := ReadQuality(read, parameters[..n]);
      var parameter := Stripped(parameters[n]);
      if !Parameters.IsQuality(parameter) then (quality, readable)
      else
        var x := read(Parameters.Partition(parameter).1);
        if x.None? then (quality, false) else (Clamp(x.value), readable)
  }

  predicate IsQ(p: string) {
    Parameters.IsQuality(Stripped(p))
  }

  /** The value of parameter `p`, when it can be read. */
  function ValueOf(read: string -> Option<Float>, p: string): Option<Float> {
    read(Parameters.Partition(Stripped(p)).1)
  }

  predicate IsReadable(read: string -> Option<Float>, p: string) {
    IsQ(p) ==> ValueOf(read, p).Some?
  }

  function QualityIn(read: string -> Option<Float>, p: string): real {
    var x := ValueOf(read, p);
    if x.Some? then Clamp(x.value) else 0.0
  }

  lemma ReadQualityStep(read: string -> Option<Float>, parameters: seq<string>)
    ensures parameters == [] ==> ReadQuality(read, parameters) == (1.0, true)
    ensures parameters != [] ==>
              var n := |parameters| - 1;
              && (ReadQuality(read, parameters).1 <==>
                      ReadQuality(read, parameters[..n]).1 && IsReadable(read, parameters[n]))
              && (IsReadable(read, parameters[n]) ==>
                    ReadQuality(read, parameters).0 ==
                    if IsQ(parameters[n]) then QualityIn(read, parameters[n]) else ReadQuality(read, parameters[..n]).0)
  {
  }

  /** A single `q` that cannot be read, first or last, makes the part unreadable. */
  lemma {:induction false} ReadableMeans(read: string -> Option<Float>, parameters: seq<string>)
    ensures ReadQuality(read, parameters).1 <==> forall p :: p in parameters ==> IsReadable(read, p)
  {
    hide *;
    ReadQualityStep(read, parameters);
    if parameters != [] {
      var n := |parameters| - 1;
      ReadableMeans(read, parameters[..n]);
      assert parameters == parameters[..n] + [parameters[n]];
    }
  }

  /** Otherwise the last `q` counts, clamped, and without one the quality is 1. */
  lemma {:induction false} LastQualityCounts(read: string -> Option<Float>, parameters: seq<string>, i: nat)
    requires ReadQuality(read, parameters).1 && i <= |parameters|
    requires forall j :: i <= j < |parameters| ==> !IsQ(parameters[j])
    requires i > 0 ==> IsQ(parameters[i - 1])
    ensures ReadQuality(read, parameters).0 == if i == 0 then 1.0 else QualityIn(read, parameters[i - 1])
  {
    hide *;
    ReadQualityStep(read, parameters);
    if i < |parameters| {
      var n := |parameters| - 1;
      assert forall j :: 0 <= j < n ==> parameters[..n][j] == parameters[j];
      LastQualityCounts(read, parameters[..n], i);
    }
  }

  function ReadPart(read: string -> Option<Float>, part: string): (r: Option<Preference>)
    ensures r.Some? ==> 0.0 <= r.value.quality <= 1.0 && r.value.name != ""
  {
    var pieces := Text.Split(part, ';');
    var name := Text.Lower(Stripped(pieces[0]));
    var (quality, readable) := ReadQuality(read, pieces[1..]);
    if name == "" || !readable then None else Some(Preference(name, quality))
  }

  function ReadParts(read: string -> Option<Float>, parts: seq<string>): map<string, real> {
    if parts == [] then map[]
    else
      var n := |parts| - 1;
      var before, last := ReadParts(read, parts[..n]), ReadPart(read, parts[n]);
      if last.None? then before else before[last.value.name := last.value.quality]
  }

  function Wanted(read: string -> Option<Float>, header: Option<string>): map<string, real> {
    ReadParts(read, Text.Split(if header.Some? then header.value else "", ','))
  }

  method ReadParameters(read: string -> Option<Float>, parameters: seq<string>) returns (quality: real, readable: bool)
    ensures (quality, readable) == ReadQuality(read, parameters)
  {
    hide Parameters.IsQuality, Parameters.Partition, Stripped;
    quality, readable := 1.0, true;
    for k := 0 to |parameters|
      invariant (quality, readable) == ReadQuality(read, parameters[..k])
    {
      assert parameters[..k + 1][..k] == parameters[..k];
      var parameter := Stripped(parameters[k]);
      if Parameters.IsQuality(parameter) {
        var x := read(Parameters.Partition(parameter).1);
        if x.None? { readable := false; } else { quality := Clamp(x.value); }
      }
    }
    assert parameters[..|parameters|] == parameters;
  }

  method ParseAcceptEncoding(read: string -> Option<Float>, header: Option<string>) returns (codings: map<string, real>)
    ensures codings == Wanted(read, header)
  {
    hide Stripped, ReadQuality;
    codings := map[];
    var parts := Text.Split(if header.Some? then header.value else "", ',');
    for i := 0 to |parts|
      invariant codings == ReadParts(read, parts[..i])
    {
      assert parts[..i + 1][..i] == parts[..i];
      var pieces := Text.Split(parts[i], ';');
      var name := Text.Lower(Stripped(pieces[0]));
      if name == "" { continue; }
      var quality, readable := ReadParameters(read, pieces[1..]);
      if readable { codings := codings[name := quality]; }
    }
    assert parts[..|parts|] == parts;
  }

  predicate Names(p: Option<Preference>, name: string) {
    p.Some? && p.value.name == name
  }

  /** A name has the quality of the last readable part that gives it, and it is absent when none does. */
  lemma {:induction false} LastPartWins(read: string -> Option<Float>, parts: seq<string>, name: string)
    returns (i: int)
    ensures -1 <= i < |parts|
    ensures name in ReadParts(read, parts) ==>
              i >= 0 && ReadPart(read, parts[i]) == Some(Preference(name, ReadParts(read, parts)[name]))
    ensures name !in ReadParts(read, parts) ==> i == -1
    ensures forall j :: i < j < |parts| ==> !Names(ReadPart(read, parts[j]), name)
  {
    hide *;
    ReadPartsStep(read, parts, name);
    if parts == [] { return -1; }
    var n := |parts| - 1;
    if Names(ReadPart(read, parts[n]), name) { return n; }
    i := LastPartWins(read, parts[..n], name);
    assert forall k :: 0 <= k < n ==> parts[..n][k] == parts[k];
  }

  lemma ReadPartsStep(read: string -> Option<Float>, parts: seq<string>, name: string)
    ensures parts == [] ==> name !in ReadParts(read, parts)
    ensures parts != [] ==>
              var n := |parts| - 1;
              if Names(ReadPart(read, parts[n]), name)
              then name in ReadParts(read, parts)
                   && ReadPart(read, parts[n]) == Some(Preference(name, ReadParts(read, parts)[name]))
              else (name in ReadParts(read, parts) <==> name in ReadParts(read, parts[..n]))
                   && (name in ReadParts(read, parts) ==>
                         ReadParts(read, parts)[name] == ReadParts(read, parts[..n])[name])
  {
    hide ReadPart;
  }

  // ---- Choosing --------------------------------------------------------------------------------------

  /** How much a coding is wanted: `*` stands for those not named, except zstd. */
  function Quality(wanted: map<string, real>, coding: string): real {
    if coding in wanted then wanted[coding]
    else if coding == "zstd" then 0.0
    else if "*" in wanted then wanted["*"]
    else 0.0
  }

  /** The best of the codings so far; a later one has to be strictly better. */
  function BestOf(wanted: map<string, real>, codings: seq<string>): (r: Option<Preference>)
    ensures r.Some? ==> r.value.quality == Quality(wanted, r.value.name) > 0.0
  {
    if codings == [] then None
    else
      var n := |codings| - 1;
      var before, quality := BestOf(wanted, codings[..n]), Quality(wanted, codings[n]);
      if quality > (if before.Some? then before.value.quality else 0.0)
      then Some(Preference(codings[n], quality))
      else before
  }

  function Chosen(read: string -> Option<Float>, header: Option<string>): Option<string> {
    var best := BestOf(Wanted(read, header), OFFERED);
    if best.Some? then Some(best.value.name) else None
  }

  method ChooseEncoding(read: string -> Option<Float>, header: Option<string>) returns (r: Option<string>)
    ensures r == Chosen(read, header)
  {
    hide Wanted, Quality;
    var wanted := ParseAcceptEncoding(read, header);
    var best: Option<string>, bestQuality := None, 0.0;
    for i := 0 to |OFFERED|
      invariant var b := BestOf(wanted, OFFERED[..i]);
                if b.Some? then best == Some(b.value.name)
                        && bestQuality == b.value.quality else best == None && bestQuality == 0.0
    {
      assert OFFERED[..i + 1][..i] == OFFERED[..i];
      var quality := Quality(wanted, OFFERED[i]);
      if quality > bestQuality { best, bestQuality := Some(OFFERED[i]), quality; }
    }
    assert OFFERED[..|OFFERED|] == OFFERED;
    return best;
  }

  predicate IdentityAcceptable(read: string -> Option<Float>, header: Option<string>) {
    if header.None? then true
    else
      var wanted := Wanted(read, header);
      if "identity" in wanted then wanted["identity"] > 0.0 else (if "*" in wanted then wanted["*"] else 1.0) > 0.0
  }

  /** Coding `i` is wanted, more than each one before it and no less than each one after. */
  ghost predicate IsBest(wanted: map<string, real>, codings: seq<string>, i: nat)
    requires i < |codings|
  {
    && Quality(wanted, codings[i]) > 0.0
    && (forall j :: 0 <= j < i ==> Quality(wanted, codings[j]) < Quality(wanted, codings[i]))
    && (forall j :: i < j < |codings| ==> Quality(wanted, codings[j]) <= Quality(wanted, codings[i]))
  }

  lemma {:induction false} BestIsBest(wanted: map<string, real>, codings: seq<string>) returns (i: nat)
    ensures BestOf(wanted, codings).Some? ==>
              i < |codings| && codings[i] == BestOf(wanted, codings).value.name && IsBest(wanted, codings, i)
    ensures BestOf(wanted, codings).None? ==> forall j :: 0 <= j < |codings| ==> Quality(wanted, codings[j]) <= 0.0
  {
    i := 0;
    if codings != [] {
      hide Quality;
      var n := |codings| - 1;
      var front := codings[..n];
      i := BestIsBest(wanted, front);
      assert forall k :: 0 <= k < n ==> front[k] == codings[k];
      var before := BestOf(wanted, front);
      if Quality(wanted, codings[n]) > (if before.Some? then before.value.quality else 0.0) { i := n; }
    }
  }

  /** The choice is the offered coding of the highest quality, the first such one in the server's order; there
      is none exactly when every offered coding has quality 0. */
  lemma ChosenIsTheBestOffered(read: string -> Option<Float>, header: Option<string>)
    ensures Chosen(read, header).Some? ==>
              exists i :: 0 <= i < |OFFERED| && Chosen(read, header) == Some(OFFERED[i])
                      && IsBest(Wanted(read, header), OFFERED, i)
    ensures Chosen(read, header).None? <==> forall c :: c in OFFERED ==> Quality(Wanted(read, header), c) <= 0.0
  {
    var i := BestIsBest(Wanted(read, header), OFFERED);
    hide Wanted, Quality, BestOf;
    assert Chosen(read, header).Some? ==> OFFERED[i] in OFFERED;
  }

  /** `coding` is refused: by name, through `*`, or by not being named, which for zstd is enough. */
  predicate IsUnwanted(wanted: map<string, real>, coding: string) {
    if coding in wanted then wanted[coding] == 0.0 else coding == "zstd" || "*" !in wanted || wanted["*"] == 0.0
  }

  predicate IdentityIsRefused(wanted: map<string, real>) {
    if "identity" in wanted then wanted["identity"] == 0.0 else "*" in wanted && wanted["*"] == 0.0
  }

  lemma UnwantedMeansNoQuality(wanted: map<string, real>, coding: string)
    ensures IsUnwanted(wanted, coding) <==> Quality(wanted, coding) == 0.0
  {
  }

  lemma QualitiesAreFractions(read: string -> Option<Float>, header: Option<string>, name: string)
    ensures name in Wanted(read, header) ==> 0.0 <= Wanted(read, header)[name] <= 1.0
    ensures Quality(Wanted(read, header), name) >= 0.0
  {
    hide ReadParts, Text.Split;
    var parts := Text.Split(if header.Some? then header.value else "", ',');
    PartsAreFractions(read, parts, name);
    PartsAreFractions(read, parts, "*");
  }

  lemma PartsAreFractions(read: string -> Option<Float>, parts: seq<string>, name: string)
    ensures name in ReadParts(read, parts) ==> 0.0 <= ReadParts(read, parts)[name] <= 1.0
  {
    hide ReadParts, ReadPart;
    var i := LastPartWins(read, parts, name);
  }

  lemma IdentityMeans(read: string -> Option<Float>, header: Option<string>)
    ensures IdentityAcceptable(read, header) <==> header.None? || !IdentityIsRefused(Wanted(read, header))
  {
    hide Wanted;
    QualitiesAreFractions(read, header, "identity");
    QualitiesAreFractions(read, header, "*");
  }

  /** Nothing acceptable exists exactly when the header is there, refuses every offered coding and refuses an
      uncoded body, by name or through `*`. */
  lemma NotAcceptableExactlyWhen(read: string -> Option<Float>, header: Option<string>)
    ensures Chosen(read, header).None? && !IdentityAcceptable(read, header) <==>
            && header.Some? && (forall c :: c in OFFERED ==> IsUnwanted(Wanted(read, header), c))
            && IdentityIsRefused(Wanted(read, header))
  {
    hide *;
    ChosenIsTheBestOffered(read, header);
    IdentityMeans(read, header);
    forall c ensures IsUnwanted(Wanted(read, header), c) <==> Quality(Wanted(read, header), c) <= 0.0 {
      UnwantedMeansNoQuality(Wanted(read, header), c);
      QualitiesAreFractions(read, header, c);
    }
  }
}
