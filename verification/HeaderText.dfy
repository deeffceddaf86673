/** A header that is a list: elements separated by commas, each with its parameters after semicolons. */
module HeaderText {
  import Text

  /** One element of the header as written: the text before the first semicolon, and the parameters after it. */
  datatype Element = Element(name: string, parameters: seq<string>)

  predicate IsPiece(s: string) {
    ',' !in s && ';' !in s
  }

  predicate IsElement(e: Element) {
    IsPiece(e.name) && forall p :: p in e.parameters ==> IsPiece(p)
  }

  function Written(e: Element): string {
    Text.Join([e.name] + e.parameters, ';')
  }

  function WrittenAll(elements: seq<Element>): (texts: seq<string>)
    ensures |texts| == |elements| && forall i :: 0 <= i < |texts| ==> texts[i] == Written(elements[i])
  {
    seq(|elements|, i requires 0 <= i < |elements| => Written(elements[i]))
  }

  function Header(elements: seq<Element>): string {
    Text.Join(WrittenAll(elements), ',')
  }

  lemma PiecesOf(e: Element)
    requires IsElement(e)
    ensures Text.Split(Written(e), ';') == [e.name] + e.parameters
  {
    Text.SplitOfJoin([e.name] + e.parameters, ';');
  }

  lemma HeaderIsSplit(elements: seq<Element>)
    requires elements != [] && forall e :: e in elements ==> IsElement(e)
    ensures Text.Split(Header(elements), ',') == WrittenAll(elements)
  {
    var texts := WrittenAll(elements);
    forall t | t in texts ensures ',' !in t {
      var i :| 0 <= i < |texts| && texts[i] == t;
      assert elements[i] in elements;
      Text.CharsOfJoin([elements[i].name] + elements[i].parameters, ';', ',');
    }
    Text.SplitOfJoin(texts, ',');
  }

  /** Every header is such a text. */
  lemma EveryHeaderIsWritten(header: string) returns (elements: seq<Element>)
    ensures elements != [] && (forall e :: e in elements ==> IsElement(e)) && Header(elements) == header
  {
    var texts := Text.Split(header, ',');
    Text.JoinOfSplit(header, ',');
    hide Text.Split, Text.Join, Written, IsElement;
    elements := [];
    for i := 0 to |texts|
      invariant |elements| == i && forall e :: e in elements ==> IsElement(e)
      invariant forall k :: 0 <= k < i ==> Written(elements[k]) == texts[k]
    {
      assert texts[i] in texts;
      var e := ElementOf(texts[i]);
      elements := elements + [e];
    }
    assert WrittenAll(elements) == texts;
  }

  lemma ElementOf(text: string) returns (e: Element)
    requires ',' !in text
    ensures IsElement(e) && Written(e) == text
  {
    var pieces := Text.Split(text, ';');
    Text.JoinOfSplit(text, ';');
    Text.CharsOfJoin(pieces, ';', ',');
    hide Text.Split, Text.Join;
    e := Element(pieces[0], pieces[1..]);
    assert [e.name] + e.parameters == pieces;
    forall p | p in pieces ensures IsPiece(p) {}
  }
}
