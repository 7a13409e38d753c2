/** The handful of java.lang.String and java.lang.Integer operations the game server
    relies on. A Java String is a sequence of UTF-16 code units, so that is what a
    JString is here; a Java int is a 32-bit two's-complement integer. */
module JavaText {

  /** One UTF-16 code unit, the value range of a Java `char`. */
  type Char16 = c: int | 0 <= c < 0x1_0000

  type JString = seq<Char16>

  /** The value range of a Java `int`. */
  type Int32 = x: int | -0x8000_0000 <= x < 0x8000_0000

  datatype Option<T> = None | Some(value: T)

  const Newline: Char16 := 10
  const Space: Char16 := 32
  const Hash: Char16 := 35
  const Plus: Char16 := 43
  const Minus: Char16 := 45
  const Zero: Char16 := 48

  /** The code units of a string literal of the program; every literal the server
      sends lies in the Basic Multilingual Plane, where a character is one unit. */
  function Lit(s: string): JString
  {
    seq(|s|, i requires 0 <= i < |s| => if s[i] as int < 0x1_0000 then s[i] as int else 0xFFFD)
  }

  /** String.startsWith */
  predicate StartsWith(s: JString, prefix: JString)
  {
    prefix <= s
  }

  /** Java's `%` on int: the remainder takes the sign of the dividend, is smaller than
      the divisor in magnitude, and differs from the dividend by a multiple of it. */
  function JavaRem(a: int, b: int): (r: int)
    requires b != 0
    ensures (a - r) % b == 0
    ensures a >= 0 ==> 0 <= r < if b > 0 then b else -b
    ensures a < 0 ==> 0 >= r > if b > 0 then -b else b
  {
    if a >= 0 then
      ModOfMultiple(a / b, b);
      assert a - a % b == (a / b) * b;
      a % b
    else
      ModOfMultiple(-((-a) / b), b);
      assert a + (-a) % b == (-((-a) / b)) * b;
      -((-a) % b)
  }

  lemma ModOfMultiple(q: int, b: int)
    requires b != 0
    ensures (q * b) % b == 0
  {
    var y := q * b;
    var k := q - y / b;
    assert y == b * (y / b) + y % b;
    assert b * k == y % b by {
      assert b * k == b * q - b * (y / b);
    }
  }

  // ---------------------------------------------------------------------------
  // String.replace of one code unit by another

  function Replace(s: JString, from: Char16, to: Char16): JString
  {
    seq(|s|, i requires 0 <= i < |s| => if s[i] == from then to else s[i])
  }

  /** After the replacement the replaced unit is gone, everything else is in place. */
  lemma ReplaceRemoves(s: JString, from: Char16, to: Char16)
    requires from != to
    ensures from !in Replace(s, from, to)
    ensures |Replace(s, from, to)| == |s|
    ensures forall i :: 0 <= i < |s| && s[i] != from ==> Replace(s, from, to)[i] == s[i]
  {
  }

  /** Replacing back recovers the string whenever the new unit did not occur in it. */
  lemma ReplaceRoundTrip(s: JString, from: Char16, to: Char16)
    requires to !in s
    ensures Replace(Replace(s, from, to), to, from) == s
  {
  }

  // ---------------------------------------------------------------------------
  // String.split on a one-unit separator

  /** The pieces of s between occurrences of sep, empty pieces included; FieldsCount
      shows there is one piece more than there are separators. */
  function Fields(s: JString, sep: Char16): (r: seq<JString>)
    ensures |r| >= 1
    decreases |s|
  {
    if s == [] then [[]]
    else
      var rest := Fields(s[1..], sep);
      if s[0] == sep then [[]] + rest else [[s[0]] + rest[0]] + rest[1..]
  }

  /** There is one piece more than there are separators. */
  lemma {:induction false} FieldsCount(s: JString, sep: Char16)
    ensures |Fields(s, sep)| == multiset(s)[sep] + 1
    decreases |s|
  {
    if s != [] {
      FieldsCount(s[1..], sep);
      assert s == [s[0]] + s[1..];
    }
  }

  /** The pieces glued back together with sep between them: the inverse of Fields. */
  function Join(parts: seq<JString>, sep: Char16): JString
  {
    if parts == [] then []
    else if |parts| == 1 then parts[0]
    else parts[0] + [sep] + Join(parts[1..], sep)
  }

  /** String.split(String.valueOf(sep)) with its default limit 0: a string without the
      separator is returned whole; otherwise the pieces, minus trailing empty ones. */
  function Split(s: JString, sep: Char16): (r: seq<JString>)
    ensures sep !in s ==> r == [s]
    ensures forall k :: 0 <= k < |r| ==> sep !in r[k]
    ensures r == [] || r[|r| - 1] != [] || sep !in s
  {
    if sep !in s then [s]
    else
      FieldsLackSeparator(s, sep);
      DropTrailingEmpty(Fields(s, sep))
  }

  /** The pieces without the empty ones at the end: a prefix of the pieces that ends
      in a non-empty piece, after which only empty pieces were dropped. */
  function DropTrailingEmpty(parts: seq<JString>): (r: seq<JString>)
    ensures |r| <= |parts| && r == parts[..|r|]
    ensures r == [] || r[|r| - 1] != []
    ensures forall k :: |r| <= k < |parts| ==> parts[k] == []
  {
    if parts != [] && parts[|parts| - 1] == [] then DropTrailingEmpty(parts[..|parts| - 1])
    else parts
  }

  /** Joining the pieces of Fields with the separator gives s back. */
  lemma {:induction false} JoinFields(s: JString, sep: Char16)
    ensures Join(Fields(s, sep), sep) == s
    decreases |s|
  {
    if s != [] {
      var rest := Fields(s[1..], sep);
      JoinFields(s[1..], sep);
      if s[0] == sep {
        assert Fields(s, sep) == [[]] + rest;
        assert Join([[]] + rest, sep) == [sep] + Join(rest, sep);
      } else {
        assert Fields(s, sep) == [[s[0]] + rest[0]] + rest[1..];
        JoinPrepend(s[0], rest, sep);
      }
      assert s == [s[0]] + s[1..];
    }
  }

  /** A unit put in front of the first piece comes out in front of the joined string. */
  lemma JoinPrepend(c: Char16, parts: seq<JString>, sep: Char16)
    requires |parts| >= 1
    ensures Join([[c] + parts[0]] + parts[1..], sep) == [c] + Join(parts, sep)
  {
    var q := [[c] + parts[0]] + parts[1..];
    assert q[0] == [c] + parts[0] && q[1..] == parts[1..];
  }

  /** No piece of Fields contains the separator. */
  lemma {:induction false} FieldsLackSeparator(s: JString, sep: Char16)
    ensures forall k :: 0 <= k < |Fields(s, sep)| ==> sep !in Fields(s, sep)[k]
    decreases |s|
  {
    if s != [] {
      FieldsLackSeparator(s[1..], sep);
      var rest := Fields(s[1..], sep);
      var r := Fields(s, sep);
      if s[0] == sep {
        assert r == [[]] + rest;
      } else {
        assert r == [[s[0]] + rest[0]] + rest[1..];
        forall k | 0 <= k < |r| ensures sep !in r[k] {
          if k > 0 {
            assert r[k] == rest[k];
          }
        }
      }
    }
  }

  /** A piece free of the separator followed by the separator splits off as one field. */
  lemma {:induction false} FieldsCons(x: JString, sep: Char16, y: JString)
    requires sep !in x
    ensures Fields(x + [sep] + y, sep) == [x] + Fields(y, sep)
    decreases |x|
  {
    if x == [] {
      assert [] + [sep] + y == [sep] + y;
      assert ([sep] + y)[1..] == y;
    } else {
      FieldsCons(x[1..], sep, y);
      assert (x + [sep] + y)[1..] == x[1..] + [sep] + y;
      assert [x[0]] + x[1..] == x;
    }
  }

  /** A string free of the separator is one field. */
  lemma {:induction false} FieldsOfPiece(x: JString, sep: Char16)
    requires sep !in x
    ensures Fields(x, sep) == [x]
    decreases |x|
  {
    if x != [] {
      FieldsOfPiece(x[1..], sep);
      assert [x[0]] + x[1..] == x;
    }
  }

  /** Splitting what Join glued recovers the pieces, provided none held the separator. */
  lemma {:induction false} FieldsJoin(parts: seq<JString>, sep: Char16)
    requires |parts| >= 1
    requires forall k :: 0 <= k < |parts| ==> sep !in parts[k]
    ensures Fields(Join(parts, sep), sep) == parts
    decreases |parts|
  {
    if |parts| == 1 {
      FieldsOfPiece(parts[0], sep);
    } else {
      FieldsJoin(parts[1..], sep);
      FieldsCons(parts[0], sep, Join(parts[1..], sep));
      assert [parts[0]] + parts[1..] == parts;
    }
  }

  /** split gives back two or more separator-free pieces joined by the separator, as
      long as the last piece is not empty. */
  lemma SplitJoin(parts: seq<JString>, sep: Char16)
    requires |parts| >= 2 && parts[|parts| - 1] != []
    requires forall k :: 0 <= k < |parts| ==> sep !in parts[k]
    ensures Split(Join(parts, sep), sep) == parts
  {
    var s := Join(parts, sep);
    assert s == parts[0] + [sep] + Join(parts[1..], sep);
    assert s[|parts[0]|] == sep;
    FieldsJoin(parts, sep);
  }

  // ---------------------------------------------------------------------------
  // Integer.parseInt and Integer.toString

  predicate IsDigit(c: Char16)
  {
    Zero <= c <= Zero + 9
  }

  predicate AllDigits(s: JString)
  {
    forall i :: 0 <= i < |s| ==> IsDigit(s[i])
  }

  /** The value of a string of decimal digits, read left to right. */
  function DigitsValue(s: JString): nat
    requires AllDigits(s)
  {
    if s == [] then 0 else DigitsValue(s[..|s| - 1]) * 10 + (s[|s| - 1] - Zero)
  }

  /** Integer.parseInt(s) in radix 10: an optional sign, at least one digit, and a value
      inside the int range; None stands for the NumberFormatException. Only ASCII digits
      are accepted. */
  function ParseInt(s: JString): Option<Int32>
  {
    if s == [] then None
    else
      var digits := if s[0] == Minus || s[0] == Plus then s[1..] else s;
      if digits == [] || !AllDigits(digits) then None
      else
        var v: int := if s[0] == Minus then -(DigitsValue(digits) as int) else DigitsValue(digits);
        if -0x8000_0000 <= v < 0x8000_0000 then Some(v) else None
  }

  /** The decimal digits of n, without leading zeros. */
  function NatDigits(n: nat): (r: JString)
    ensures r != [] && AllDigits(r)
    ensures Space !in r && Newline !in r && Hash !in r
  {
    if n < 10 then [Zero + n] else NatDigits(n / 10) + [Zero + n % 10]
  }

  /** Integer.toString(n), which string concatenation of an int also uses. */
  function IntToString(n: int): JString
  {
    if n < 0 then [Minus] + NatDigits(-n) else NatDigits(n)
  }

  lemma {:induction false} DigitsValueOfNatDigits(n: nat)
    ensures DigitsValue(NatDigits(n)) == n
  {
    if n >= 10 {
      DigitsValueOfNatDigits(n / 10);
      var d := NatDigits(n);
      assert d[..|d| - 1] == NatDigits(n / 10);
    }
  }

  /** parseInt reads back every int that toString writes. */
  lemma ParseIntToString(n: Int32)
    ensures ParseInt(IntToString(n)) == Some(n)
    ensures Space !in IntToString(n)
  {
    var s := IntToString(n);
    if n < 0 {
      var m: nat := -(n as int);
      DigitsValueOfNatDigits(m);
      assert s == [Minus] + NatDigits(m);
      assert s[0] == Minus && s[1..] == NatDigits(m);
    } else {
      DigitsValueOfNatDigits(n);
      assert s == NatDigits(n);
      assert IsDigit(s[0]);
    }
  }
}
