/** The string operations the registry relies on, over Unicode scalar values. Case folding is ASCII only. */
module Text {
  /** What `str.isspace`, `str.strip`, `str.split` and the regular expression `\s` call whitespace. */
  predicate IsSpace(c: char) {
    var u := c as int;
    || 0x09 <= u <= 0x0D || 0x1C <= u <= 0x20 || u == 0x85 || u == 0xA0 || u == 0x1680
    || 0x2000 <= u <= 0x200A || u == 0x2028 || u == 0x2029 || u == 0x202F || u == 0x205F || u == 0x3000
  }

  function LowerChar(c: char): char {
    if 'A' <= c <= 'Z' then c + ('a' - 'A') else c
  }

  /** Every character `str.isspace` holds for, and the letters that fold. */
  lemma CharactersAre(c: char)
    ensures IsSpace(c) <==>
            c as int in {0x09, 0x0A, 0x0B, 0x0C, 0x0D, 0x1C, 0x1D, 0x1E, 0x1F, 0x20, 0x85, 0xA0, 0x1680, 0x2000, 0x2001,
                         0x2002, 0x2003, 0x2004, 0x2005, 0x2006, 0x2007, 0x2008, 0x2009, 0x200A, 0x2028, 0x2029, 0x202F,
                         0x205F, 0x3000}
    ensures 65 <= c as int <= 90 ==> LowerChar(c) as int == c as int + 32
    ensures !(65 <= c as int <= 90) ==> LowerChar(c) == c
  {
  }

  function Lower(s: string): (r: string)
    ensures |r| == |s|
    ensures forall i :: 0 <= i < |s| ==> r[i] == LowerChar(s[i])
  {
    seq(|s|, i requires 0 <= i < |s| => LowerChar(s[i]))
  }

  function Replace(s: string, old_: char, new_: char): (r: string)
    ensures |r| == |s|
    ensures forall i :: 0 <= i < |s| ==> r[i] == if s[i] == old_ then new_ else s[i]
  {
    seq(|s|, i requires 0 <= i < |s| => if s[i] == old_ then new_ else s[i])
  }

  function StripLeft(s: string, blank: char -> bool): (r: string)
    ensures r == [] || !blank(r[0])
    ensures |r| <= |s| && r == s[|s| - |r|..]
    ensures forall i :: 0 <= i < |s| - |r| ==> blank(s[i])
  {
    if s != [] && blank(s[0]) then StripLeft(s[1..], blank) else s
  }

  function StripRight(s: string, blank: char -> bool): (r: string)
    ensures r == [] || !blank(r[|r| - 1])
    ensures r <= s
    ensures forall i :: |r| <= i < |s| ==> blank(s[i])
  {
    if s != [] && blank(s[|s| - 1]) then StripRight(s[..|s| - 1], blank) else s
  }

  function Strip(s: string, blank: char -> bool): string {
    StripRight(StripLeft(s, blank), blank)
  }

  /** Stripping leaves exactly the part between the blanks at the two ends. */
  lemma StripParts(s: string, blank: char -> bool) returns (i: nat, j: nat)
    ensures Strip(s, blank) == [] || (!blank(Strip(s, blank)[0]) && !blank(Strip(s, blank)[|Strip(s, blank)| - 1]))
    ensures i <= j <= |s| && Strip(s, blank) == s[i..j]
    ensures (forall k :: 0 <= k < i ==> blank(s[k])) && (forall k :: j <= k < |s| ==> blank(s[k]))
  {
    hide StripLeft, StripRight;
    var l := StripLeft(s, blank);
    var r := StripRight(l, blank);
    i, j := |s| - |l|, |s| - |l| + |r|;
    assert r == l[..|r|] == s[i..j];
    forall k | j <= k < |s| ensures blank(s[k]) {
      assert s[k] == l[k - i];
    }
  }

  lemma StripOfStripped(s: string, blank: char -> bool)
    requires s == [] || (!blank(s[0]) && !blank(s[|s| - 1]))
    ensures Strip(s, blank) == s
  {
  }

  /** The part between two blank ends that starts and ends with something is what stripping leaves. */
  lemma StripIsBetween(s: string, blank: char -> bool, i: nat, j: nat)
    requires i < j <= |s| && !blank(s[i]) && !blank(s[j - 1])
    requires (forall k :: 0 <= k < i ==> blank(s[k])) && (forall k :: j <= k < |s| ==> blank(s[k]))
    ensures Strip(s, blank) == s[i..j]
  {
    hide *;
    StripLeftIs(s, blank, i);
    TailOf(s, blank, i, j);
    StripRightIs(s[i..], blank, j - i);
    StripIs(s, blank);
  }

  lemma StripIs(s: string, blank: char -> bool)
    ensures Strip(s, blank) == StripRight(StripLeft(s, blank), blank)
  {
    hide StripLeft, StripRight;
  }

  lemma TailOf(s: string, blank: char -> bool, i: nat, j: nat)
    requires i < j <= |s| && !blank(s[j - 1]) && forall k :: j <= k < |s| ==> blank(s[k])
    ensures s[i..][..j - i] == s[i..j] && !blank(s[i..][j - i - 1])
    ensures forall k :: j - i <= k < |s[i..]| ==> blank(s[i..][k])
  {
    forall k | j - i <= k < |s[i..]| ensures blank(s[i..][k]) {
      assert s[i..][k] == s[i + k];
    }
  }

  lemma {:induction false} StripLeftIs(s: string, blank: char -> bool, i: nat)
    requires i < |s| && !blank(s[i]) && forall k :: 0 <= k < i ==> blank(s[k])
    ensures StripLeft(s, blank) == s[i..]
  {
    if i > 0 {
      StripLeftIs(s[1..], blank, i - 1);
      assert s[1..][i - 1..] == s[i..];
    }
  }

  lemma {:induction false} StripRightIs(s: string, blank: char -> bool, j: nat)
    requires 0 < j <= |s| && !blank(s[j - 1]) && forall k :: j <= k < |s| ==> blank(s[k])
    ensures StripRight(s, blank) == s[..j]
  {
  }

  lemma StripOfBlanks(s: string, blank: char -> bool)
    requires forall k :: 0 <= k < |s| ==> blank(s[k])
    ensures Strip(s, blank) == ""
  {
  }

  // ---- Splitting on a separator ----------------------------------------------------------------------

  function Split(s: string, sep: char): (parts: seq<string>)
    ensures parts != []
  {
    if s == [] then [[]]
    else
      var rest := Split(s[1..], sep);
      if s[0] == sep then [[]] + rest else [[s[0]] + rest[0]] + rest[1..]
  }

  function Join(parts: seq<string>, sep: char): string {
    if parts == [] then []
    else if |parts| == 1 then parts[0]
    else parts[0] + [sep] + Join(parts[1..], sep)
  }

  lemma {:induction false} JoinOfSplit(s: string, sep: char)
    ensures Join(Split(s, sep), sep) == s
    ensures forall p :: p in Split(s, sep) ==> sep !in p
  {
    if s != [] {
      JoinOfSplit(s[1..], sep);
      var rest := Split(s[1..], sep);
      if s[0] == sep {
        assert ([[]] + rest)[1..] == rest;
      } else {
        var parts := [[s[0]] + rest[0]] + rest[1..];
        assert parts[1..] == rest[1..];
        assert rest == [rest[0]] + rest[1..];
      }
    }
  }

  lemma SplitCons(c: char, t: string, sep: char)
    ensures Split([c] + t, sep) ==
            if c == sep then [[]] + Split(t, sep) else [[c] + Split(t, sep)[0]] + Split(t, sep)[1..]
  {
  }

  lemma {:induction false} SplitOfConcat(a: string, sep: char, b: string)
    ensures Split(a + [sep] + b, sep) == Split(a, sep) + Split(b, sep)
  {
    if a == [] {
      assert a + [sep] + b == [sep] + b;
      SplitCons(sep, b, sep);
    } else {
      SplitOfConcat(a[1..], sep, b);
      var tail := a[1..] + [sep] + b;
      assert a + [sep] + b == [a[0]] + tail;
      SplitCons(a[0], tail, sep);
      PrependToParts(a[0], Split(a[1..], sep), Split(b, sep), sep);
    }
  }

  lemma PrependToParts(c: char, x: seq<string>, y: seq<string>, sep: char)
    requires x != []
    ensures (if c == sep then [[]] + (x + y) else [[c] + (x + y)[0]] + (x + y)[1..])
         == (if c == sep then [[]] + x else [[c] + x[0]] + x[1..]) + y
  {
  }

  lemma {:induction false} SplitOfPlain(a: string, sep: char)
    requires sep !in a
    ensures Split(a, sep) == [a]
  {
    if a != [] {
      SplitOfPlain(a[1..], sep);
      assert a == [a[0]] + a[1..];
    }
  }

  lemma {:induction false} SplitOfJoin(parts: seq<string>, sep: char)
    requires parts != [] && forall p :: p in parts ==> sep !in p
    ensures Split(Join(parts, sep), sep) == parts
  {
    SplitOfPlain(parts[0], sep);
    assert parts == [parts[0]] + parts[1..];
    if |parts| > 1 {
      SplitOfJoin(parts[1..], sep);
      SplitOfConcat(parts[0], sep, Join(parts[1..], sep));
    }
  }

  lemma {:induction false} JoinOfConcat(a: seq<string>, b: seq<string>, sep: char)
    requires a != [] && b != []
    ensures Join(a + b, sep) == Join(a, sep) + [sep] + Join(b, sep)
  {
    if |a| == 1 {
      assert (a + b)[1..] == b;
    } else {
      JoinOfConcat(a[1..], b, sep);
      assert (a + b)[1..] == a[1..] + b;
      var x, y := Join(a[1..], sep), Join(b, sep);
      assert a[0] + [sep] + (x + [sep] + y) == a[0] + [sep] + x + [sep] + y;
    }
  }

  /** Joining adds nothing but the separator. */
  lemma {:induction false} CharsOfJoin(parts: seq<string>, sep: char, c: char)
    requires c != sep
    ensures c in Join(parts, sep) <==> exists p :: p in parts && c in p
  {
    if |parts| > 1 {
      var tail := Join(parts[1..], sep);
      CharsOfJoin(parts[1..], sep, c);
      assert parts == [parts[0]] + parts[1..];
      assert c in parts[0] + [sep] + tail <==> c in parts[0] || c in tail;
    } else if |parts| == 1 {
      assert parts[0] in parts;
    }
  }

  // ---- Comparing strings -----------------------------------------------------------------------------

  /** Code point order, as Python compares strings. */
  predicate AtMost(a: string, b: string) {
    a == [] || (b != [] && (a[0] < b[0] || (a[0] == b[0] && AtMost(a[1..], b[1..]))))
  }

  /** Where two strings first differ decides, and a prefix comes before what continues it. */
  lemma {:induction false} AtMostMeans(front: string, x: char, a: string, y: char, b: string)
    ensures x != y ==> (AtMost(front + [x] + a, front + [y] + b) <==> x < y)
    ensures AtMost(front, front + a) && (a != "" ==> !AtMost(front + a, front))
  {
    var s, t, u := front + [x] + a, front + [y] + b, front + a;
    if front != [] {
      AtMostMeans(front[1..], x, a, y, b);
      assert s[1..] == front[1..] + [x] + a && t[1..] == front[1..] + [y] + b && u[1..] == front[1..] + a;
    }
  }

  lemma {:induction false} AtMostIsTotal(a: string, b: string)
    ensures AtMost(a, b) || AtMost(b, a)
    ensures AtMost(a, b) && AtMost(b, a) ==> a == b
  {
    if a != [] && b != [] {
      AtMostIsTotal(a[1..], b[1..]);
      assert a == [a[0]] + a[1..] && b == [b[0]] + b[1..];
    }
  }

  lemma {:induction false} AtMostIsTransitive(a: string, b: string, c: string)
    requires AtMost(a, b) && AtMost(b, c)
    ensures AtMost(a, c)
  {
    if a != [] {
      if a[0] == b[0] == c[0] { AtMostIsTransitive(a[1..], b[1..], c[1..]); }
    }
  }
}
