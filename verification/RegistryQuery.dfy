/** `registry_query`: the boolean query built from the positive and the negated chunks. */
module RegistryQuery {
  import opened Wrappers

  /** A `tsquery`. An atom is a lexeme or a phrase, whatever the text search configuration makes of it. */
  datatype Query =
    | Empty
    | Atom(text: string)
    | Or(left: Query, right: Query)
    | And(left: Query, right: Query)
    | Not(arg: Query)

  function NumNode(q: Query): nat {
    match q
    case Empty => 0
    case Atom(_) => 1
    case Or(a, b) => NumNode(a) + NumNode(b) + 1
    case And(a, b) => NumNode(a) + NumNode(b) + 1
    case Not(a) => NumNode(a) + 1
  }

  /** `document @@ q`, where `has` says which atoms the document has. The empty query matches nothing. */
  predicate Matches(q: Query, has: string -> bool) {
    match q
    case Empty => false
    case Atom(a) => has(a)
    case Or(a, b) => Matches(a, has) || Matches(b, has)
    case And(a, b) => Matches(a, has) && Matches(b, has)
    case Not(a) => !Matches(a, has)
  }

  predicate HasLexeme(parse: string -> Query, chunk: string) {
    NumNode(parse(chunk)) != 0
  }

  /** The positives so far OR-ed, skipping those without a lexeme; nothing while none has one. */
  function AnyOf(parse: string -> Query, positives: seq<string>): Option<Query> {
    if positives == [] then None
    else
      var n := |positives| - 1;
      var before := AnyOf(parse, positives[..n]);
      if !HasLexeme(parse, positives[n]) then before
      else if before.None? then Some(parse(positives[n]))
      else Some(Or(before.value, parse(positives[n])))
  }

  /** `q` with the negatives so far AND NOT-ed. */
  function ButNot(parse: string -> Query, q: Query, negatives: seq<string>): Query {
    if negatives == [] then q
    else
      var n := |negatives| - 1;
      var before := ButNot(parse, q, negatives[..n]);
      if HasLexeme(parse, negatives[n]) then And(before, Not(parse(negatives[n]))) else before
  }

  function Built(parse: string -> Query, positives: seq<string>, negatives: seq<string>): Option<Query> {
    var q := AnyOf(parse, positives);
    if q.None? then None else Some(ButNot(parse, q.value, negatives))
  }

  /** Some chunk with a lexeme matches. */
  ghost predicate SomeMatches(parse: string -> Query, chunks: seq<string>, has: string -> bool) {
    exists i :: 0 <= i < |chunks| && HasLexeme(parse, chunks[i]) && Matches(parse(chunks[i]), has)
  }

  method RegistryQuery(parse: string -> Query, positives: seq<string>, negatives: seq<string>)
    returns (q: Option<Query>)
    ensures q == Built(parse, positives, negatives)
  {
    q := None;
    for i := 0 to |positives|
      invariant q == AnyOf(parse, positives[..i])
    {
      assert positives[..i + 1][..i] == positives[..i];
      var part := parse(positives[i]);
      if NumNode(part) == 0 { continue; }
      q := Some(if q.None? then part else Or(q.value, part));
    }
    assert positives[..|positives|] == positives;
    if q.None? { return; }
    for i := 0 to |negatives|
      invariant q == Some(ButNot(parse, AnyOf(parse, positives).value, negatives[..i]))
    {
      assert negatives[..i + 1][..i] == negatives[..i];
      var part := parse(negatives[i]);
      if NumNode(part) == 0 { continue; }
      q := Some(And(q.value, Not(part)));
    }
    assert negatives[..|negatives|] == negatives;
  }

  lemma {:induction false} AnyOfMeans(parse: string -> Query, positives: seq<string>, has: string -> bool)
    ensures AnyOf(parse, positives).Some? <==> exists i :: 0 <= i < |positives| && HasLexeme(parse, positives[i])
    ensures AnyOf(parse, positives).Some? ==>
              (Matches(AnyOf(parse, positives).value, has) <==> SomeMatches(parse, positives, has))
  {
    if positives != [] {
      var n := |positives| - 1;
      var front := positives[..n];
      AnyOfMeans(parse, front, has);
      assert forall i :: 0 <= i < n ==> front[i] == positives[i];
      hide HasLexeme, AnyOf;
      assert SomeMatches(parse, positives, has) <==>
             SomeMatches(parse, front, has) || (HasLexeme(parse, positives[n]) && Matches(parse(positives[n]), has));
    }
  }

  lemma {:induction false} ButNotMeans(parse: string -> Query, q: Query, negatives: seq<string>, has: string -> bool)
    ensures Matches(ButNot(parse, q, negatives), has) <==> Matches(q, has) && !SomeMatches(parse, negatives, has)
  {
    if negatives != [] {
      var n := |negatives| - 1;
      var front := negatives[..n];
      ButNotMeans(parse, q, front, has);
      assert forall i :: 0 <= i < n ==> front[i] == negatives[i];
      assert SomeMatches(parse, negatives, has) <==>
             SomeMatches(parse, front, has) || (HasLexeme(parse, negatives[n]) && Matches(parse(negatives[n]), has));
    }
  }

  /** Only the empty query has no lexeme, and it matches nothing. */
  lemma MatchingMeans(parse: string -> Query, chunks: seq<string>, has: string -> bool)
    ensures SomeMatches(parse, chunks, has) <==> exists c :: c in chunks && Matches(parse(c), has)
    ensures forall c :: HasLexeme(parse, c) <==> parse(c) != Empty
  {
    forall q: Query ensures NumNode(q) == 0 <==> q == Empty {}
    if c :| c in chunks && Matches(parse(c), has) {
      var i :| 0 <= i < |chunks| && chunks[i] == c;
    }
  }

  /** Whatever the chunks parse to, the query is missing exactly when no positive has a lexeme, and it matches a
      document exactly when some positive does and no negative does, of those that have a lexeme. */
  lemma QueryMeans(parse: string -> Query, positives: seq<string>, negatives: seq<string>, has: string -> bool)
    ensures Built(parse, positives, negatives).None? <==> forall p :: p in positives ==> !HasLexeme(parse, p)
    ensures Built(parse, positives, negatives).Some? ==>
              (Matches(Built(parse, positives, negatives).value, has) <==>
               SomeMatches(parse, positives, has) && !SomeMatches(parse, negatives, has))
    ensures Built(parse, positives, negatives).Some? <==> exists p :: p in positives && parse(p) != Empty
    ensures Built(parse, positives, negatives).Some? ==>
              (Matches(Built(parse, positives, negatives).value, has) <==>
               && (exists p :: p in positives && Matches(parse(p), has))
               && !exists n :: n in negatives && Matches(parse(n), has))
  {
    MatchingMeans(parse, positives, has);
    MatchingMeans(parse, negatives, has);
    AnyOfMeans(parse, positives, has);
    if AnyOf(parse, positives).Some? {
      ButNotMeans(parse, AnyOf(parse, positives).value, negatives, has);
    }
  }
}
