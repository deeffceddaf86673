/** Header parameters, `name=value`, and the `q` among them (section 12.4.2 of RFC 9110). */
module Parameters {
  import Text

  /** Text before and after the first '='; nothing after it when there is none. */
  function Partition(s: string): (r: (string, string))
    ensures '=' !in r.0 && (s == r.0 + "=" + r.1 || (s == r.0 && r.1 == ""))
  {
    if s == [] then ([], [])
    else if s[0] == '=' then ([], s[1..])
    else var rest := Partition(s[1..]); ([s[0]] + rest.0, rest.1)
  }

  lemma {:induction false} PartitionOfParameter(name: string, value: string)
    requires '=' !in name
    ensures Partition(name + "=" + value) == (name, value)
  {
    var s := name + "=" + value;
    if name == [] {
      assert s[1..] == value;
    } else {
      PartitionOfParameter(name[1..], value);
      assert s[1..] == name[1..] + "=" + value && name == [name[0]] + name[1..];
    }
  }

  predicate IsQuality(parameter: string) {
    Text.Lower(Text.Strip(Partition(parameter).0, Text.IsSpace)) == "q"
  }

  predicate IsBlank(s: string) {
    forall c :: c in s ==> Text.IsSpace(c)
  }

  /** The text reads `q=value`, the name in either case and with blanks around it, or it is the bare name. */
  ghost predicate SetsQuality(parameter: string, value: string) {
    exists a, name, b :: IsBlank(a) && (name == "q" || name == "Q") && IsBlank(b)
                         && (parameter == a + name + b + "=" + value || (parameter == a + name + b && value == ""))
  }

  lemma {:induction false} PartitionOfName(name: string)
    requires '=' !in name
    ensures Partition(name) == (name, "")
  {
    if name != [] {
      PartitionOfName(name[1..]);
      assert name == [name[0]] + name[1..];
    }
  }

  lemma BlankAround(a: string, name: string, b: string)
    requires IsBlank(a) && (name == "q" || name == "Q") && IsBlank(b)
    ensures '=' !in a + name + b && Text.Strip(a + name + b, Text.IsSpace) == name
  {
    var s, i := a + name + b, |a|;
    BlanksAt(a);
    BlanksAt(b);
    hide Text.Strip, IsBlank;
    assert s[i] == name[0] && s[i..i + 1] == name;
    assert forall k :: 0 <= k < i ==> s[k] == a[k];
    assert forall k :: i + 1 <= k < |s| ==> s[k] == b[k - i - 1];
    Text.StripIsBetween(s, Text.IsSpace, i, i + 1);
  }

  lemma BlanksAt(s: string)
    ensures IsBlank(s) <==> forall k :: 0 <= k < |s| ==> Text.IsSpace(s[k])
    ensures IsBlank(s) ==> '=' !in s
  {
    hide Text.Strip;
    assert forall k :: 0 <= k < |s| ==> s[k] in s;
    assert !Text.IsSpace('=');
  }

  /** A text whose stripped lower case is `q` is that name between blanks. */
  lemma NameBetweenBlanks(s: string) returns (a: string, name: string, b: string)
    requires Text.Lower(Text.Strip(s, Text.IsSpace)) == "q"
    ensures s == a + name + b && IsBlank(a) && (name == "q" || name == "Q") && IsBlank(b)
  {
    var i, j := Text.StripParts(s, Text.IsSpace);
    hide Text.IsSpace, Text.Strip, IsBlank;
    a, name, b := s[..i], s[i..j], s[j..];
    assert |name| == |Text.Lower(name)| == 1 && Text.Lower(name)[0] == 'q';
    BlanksAt(a);
    BlanksAt(b);
  }

  /** A `q` parameter is found exactly where one is written, with its value. */
  lemma QualityIsWritten(parameter: string, value: string)
    ensures SetsQuality(parameter, value) <==> IsQuality(parameter) && Partition(parameter).1 == value
  {
    if SetsQuality(parameter, value) { WrittenIsQuality(parameter, value); }
    if IsQuality(parameter) && Partition(parameter).1 == value {
      var a, name, b := NameBetweenBlanks(Partition(parameter).0);
      hide Partition, IsBlank;
      assert parameter == Partition(parameter).0 + "=" + value || (parameter == Partition(parameter).0 && value == "");
    }
  }

  lemma WrittenIsQuality(parameter: string, value: string)
    requires SetsQuality(parameter, value)
    ensures IsQuality(parameter) && Partition(parameter).1 == value
  {
    hide Partition, Text.Strip, Text.IsSpace;
    var a, name, b :| IsBlank(a) && (name == "q" || name == "Q") && IsBlank(b)
      && (parameter == a + name + b + "=" + value || (parameter == a + name + b && value == ""));
    BlankAround(a, name, b);
    if parameter == a + name + b {
      PartitionOfName(parameter);
    } else {
      PartitionOfParameter(a + name + b, value);
    }
    if parameter == a + name + b && value == "" { PartitionOfName(parameter); }
    assert Text.Lower(name) == "q";
  }
}
