/** The few ECMAScript string and number operations the middlewares rely on:
    `parseInt`, the conversion of an integral number to text inside a template
    literal, `name.split(".").pop()`, the text of an array in a template literal,
    and the white-space class `\s`. */
module JsText {

  import opened Wrappers

  /** WhiteSpace or LineTerminator code points: the class `\s` of a regular
      expression and the characters `parseInt` skips at the start. */
  predicate IsJsSpace(c: char) {
    var n := c as int;
    n == 0x09 || n == 0x0A || n == 0x0B || n == 0x0C || n == 0x0D || n == 0x20 ||
    n == 0xA0 || n == 0x1680 || (0x2000 <= n <= 0x200A) || n == 0x2028 ||
    n == 0x2029 || n == 0x202F || n == 0x205F || n == 0x3000 || n == 0xFEFF
  }

  /** The code points that the regular-expression atom `.` does not match. */
  predicate IsLineTerminator(c: char) {
    c == '\n' || c == '\r' || c as int == 0x2028 || c as int == 0x2029
  }

  predicate IsDecimalDigit(c: char) {
    '0' <= c <= '9'
  }

  function DigitChar(d: int): (c: char)
    requires 0 <= d < 10
    ensures IsDecimalDigit(c) && c as int - '0' as int == d
  {
    "0123456789"[d]
  }

  /** Decimal text of a natural number, without leading zeros. */
  function NatToString(n: nat): string
    decreases n
  {
    if n < 10 then [DigitChar(n)] else NatToString(n / 10) + [DigitChar(n % 10)]
  }

  /** `${n}` for an integral number n: an optional minus sign, then the decimal
      digits of |n|. */
  function IntToString(n: int): string
  {
    if n < 0 then "-" + NatToString(-n) else NatToString(n)
  }

  /** The decimal text of a natural number is a non-empty run of digits that
      starts with '0' only for 0 itself. */
  lemma {:induction false} NatToStringDigits(n: nat)
    ensures |NatToString(n)| > 0
    ensures forall i :: 0 <= i < |NatToString(n)| ==> IsDecimalDigit(NatToString(n)[i])
    ensures NatToString(n)[0] == '0' ==> n == 0 && NatToString(n) == "0"
    decreases n
  {
    if n >= 10 {
      NatToStringDigits(n / 10);
      var s, p := NatToString(n), NatToString(n / 10);
      assert s == p + [DigitChar(n % 10)];
      assert forall i :: 0 <= i < |p| ==> s[i] == p[i];
    }
  }

  /** The text of an integer is non-empty, made of decimal digits after an
      optional leading '-', and starts with '-' exactly when the integer is
      negative. */
  lemma IntToStringShape(n: int)
    ensures |IntToString(n)| > 0
    ensures forall i :: 0 <= i < |IntToString(n)| ==> IsDecimalDigit(IntToString(n)[i]) || (i == 0 && IntToString(n)[i] == '-')
    ensures IntToString(n)[0] == '-' <==> n < 0
  {
    var m: nat := if n < 0 then -n else n;
    NatToStringDigits(m);
    var d := NatToString(m);
    if n < 0 {
      assert forall i :: 1 <= i < |d| + 1 ==> IntToString(n)[i] == d[i - 1];
    }
  }

  /** The value of c as a digit in radix 36 ('0'-'9', then 'a'-'z' or
      'A'-'Z'), or 36 when c is no digit at all. */
  function DigitValue(c: char): (v: nat)
    ensures v <= 36
    ensures IsDecimalDigit(c) ==> v == c as int - '0' as int
  {
    if '0' <= c <= '9' then c as int - '0' as int
    else if 'a' <= c <= 'z' then c as int - 'a' as int + 10
    else if 'A' <= c <= 'Z' then c as int - 'A' as int + 10
    else 36
  }

  /** s without its leading white space. */
  function TrimStart(s: string): (r: string)
    ensures |r| <= |s| && r == s[|s| - |r|..]
    ensures r == [] || !IsJsSpace(r[0])
    ensures forall i :: 0 <= i < |s| - |r| ==> IsJsSpace(s[i])
  {
    if s != [] && IsJsSpace(s[0]) then TrimStart(s[1..]) else s
  }

  /** Length of the longest prefix of s made of digits of the given radix. */
  function DigitPrefixLength(s: string, radix: nat): (k: nat)
    ensures k <= |s|
    ensures forall i :: 0 <= i < k ==> DigitValue(s[i]) < radix
    ensures k < |s| ==> DigitValue(s[k]) >= radix
  {
    if s != [] && DigitValue(s[0]) < radix then 1 + DigitPrefixLength(s[1..], radix) else 0
  }

  lemma ProductNonNegative(a: nat, b: nat)
    ensures a * b >= 0
  {
  }

  /** The number written by the digits s in the given radix. */
  function DigitsValue(s: string, radix: nat): nat
  {
    if s == [] then 0
    else
      var prev := DigitsValue(s[..|s| - 1], radix);
      ProductNonNegative(prev, radix);
      prev * radix + (if DigitValue(s[|s| - 1]) < radix then DigitValue(s[|s| - 1]) else 0)
  }

  /** The unsigned part of `parseInt`: radix 16 after "0x" or "0X",
      otherwise radix 10, then the longest run of digits of that radix; None
      when there is no digit. */
  function ParseUnsigned(u: string): Option<nat>
  {
    var hex := |u| >= 2 && u[0] == '0' && (u[1] == 'x' || u[1] == 'X');
    var radix := if hex then 16 else 10;
    var v := if hex then u[2..] else u;
    var k := DigitPrefixLength(v, radix);
    if k == 0 then None else Some(DigitsValue(v[..k], radix))
  }

  /** Text that starts after the white space: an optional sign, then the
      unsigned part. */
  function ParseSigned(t: string): Option<int>
  {
    var u := if t != [] && (t[0] == '-' || t[0] == '+') then t[1..] else t;
    match ParseUnsigned(u)
    case None => None
    case Some(v) => Some(if t != [] && t[0] == '-' then -(v as int) else v as int)
  }

  /** `parseInt(s)` with no radix argument: skip leading white space, then
      read a signed number. None stands for NaN. */
  function ParseInt(s: string): Option<int>
  {
    ParseSigned(TrimStart(s))
  }

  lemma {:induction false} NatToStringValue(n: nat)
    ensures DigitsValue(NatToString(n), 10) == n
    decreases n
  {
    var s := NatToString(n);
    if n >= 10 {
      NatToStringValue(n / 10);
      assert s[..|s| - 1] == NatToString(n / 10);
    }
  }

  lemma {:induction false} AllDigitsPrefix(s: string)
    requires forall i :: 0 <= i < |s| ==> IsDecimalDigit(s[i])
    ensures DigitPrefixLength(s, 10) == |s|
  {
    if s != [] {
      AllDigitsPrefix(s[1..]);
    }
  }

  /** Leading white space is skipped only when there is some. */
  lemma TrimStartNoSpace(s: string)
    requires s != [] && !IsJsSpace(s[0])
    ensures TrimStart(s) == s
  {
  }

  /** A non-empty run of decimal digits is read whole, in radix 10. */
  lemma ParseUnsignedOfDigits(d: string)
    requires |d| > 0 && forall i :: 0 <= i < |d| ==> IsDecimalDigit(d[i])
    ensures ParseUnsigned(d) == Some(DigitsValue(d, 10))
  {
    AllDigitsPrefix(d);
    if |d| >= 2 {
      DigitIsNoHexMark(d[1]);
    }
    ParseUnsignedDecimal(d);
  }

  lemma DigitIsNoHexMark(c: char)
    requires IsDecimalDigit(c)
    ensures c != 'x' && c != 'X'
  {
  }

  /** Text without the "0x" mark that is all decimal digits is read whole,
      in radix 10. */
  lemma ParseUnsignedDecimal(u: string)
    requires !(|u| >= 2 && u[0] == '0' && (u[1] == 'x' || u[1] == 'X'))
    requires 0 < DigitPrefixLength(u, 10) == |u|
    ensures ParseUnsigned(u) == Some(DigitsValue(u, 10))
  {
    assert u[..|u|] == u;
  }

  /** Text whose unsigned reading is n, and which starts with a digit,
      reads as n. */
  lemma ParseIntUnsigned(d: string, n: nat)
    requires ParseUnsigned(d) == Some(n)
    requires d != [] && IsDecimalDigit(d[0])
    ensures ParseInt(d) == Some(n)
  {
    TrimStartNoSpace(d);
  }

  /** Such text after a minus sign reads as -n. */
  lemma ParseIntNegated(d: string, n: nat)
    requires ParseUnsigned(d) == Some(n)
    ensures ParseInt("-" + d) == Some(-(n as int))
  {
    var s := "-" + d;
    assert s[0] == '-' && s[1..] == d;
    TrimStartNoSpace(s);
  }

  /** The decimal text of n reads back as n, and starts with a digit. */
  lemma ParseUnsignedOfNatToString(n: nat)
    ensures ParseUnsigned(NatToString(n)) == Some(n)
    ensures NatToString(n) != [] && IsDecimalDigit(NatToString(n)[0])
  {
    NatToStringValue(n);
    NatToStringDigits(n);
    ParseUnsignedOfDigits(NatToString(n));
  }

  /** Reading back the text of an integer gives that integer: the number a
      template literal prints is the number `parseInt` reads. */
  lemma ParseIntOfIntToString(n: int)
    ensures ParseInt(IntToString(n)) == Some(n)
  {
    if n < 0 {
      ParseUnsignedOfNatToString(-n);
      ParseIntNegated(NatToString(-n), -n);
    } else {
      ParseUnsignedOfNatToString(n);
      ParseIntUnsigned(NatToString(n), n);
    }
  }

  /** `name.split(".").pop()`: the text after the last '.', or all of name
      when it has no '.'. */
  function Extension(name: string): string
  {
    if name == [] || name[|name| - 1] == '.' then [] else Extension(name[..|name| - 1]) + [name[|name| - 1]]
  }

  /** The extension holds no '.', ends the name, and is either the whole
      name or follows its last '.'. */
  lemma {:induction false} ExtensionIsLastSegment(name: string)
    ensures '.' !in Extension(name)
    ensures |Extension(name)| <= |name| && name[|name| - |Extension(name)|..] == Extension(name)
    ensures |Extension(name)| < |name| ==> name[|name| - |Extension(name)| - 1] == '.'
  {
    if name != [] && name[|name| - 1] != '.' {
      var init, c := name[..|name| - 1], name[|name| - 1];
      ExtensionIsLastSegment(init);
      var e0 := Extension(init);
      var r := Extension(name);
      assert r == e0 + [c];
      assert '.' !in r by {
        forall i | 0 <= i < |r| ensures r[i] != '.' {
          if i < |e0| {
            assert r[i] == e0[i] && e0[i] in e0;
          }
        }
      }
      assert name[|name| - |r|..] == init[|init| - |e0|..] + [c];
      if |e0| < |init| {
        assert name[|name| - |r| - 1] == init[|init| - |e0| - 1];
      }
    }
  }

  /** A dot-free suffix of name is no longer than a suffix that follows a
      '.'. */
  lemma DotFreeSuffixBound(name: string, a: string, b: string)
    requires '.' !in a
    requires |a| <= |name| && name[|name| - |a|..] == a
    requires |b| < |name| && name[|name| - |b| - 1] == '.'
    ensures |a| <= |b|
  {
    var n := |name|;
    forall j | n - |a| <= j < n
      ensures name[j] != '.'
    {
      assert name[j] == a[j - (n - |a|)];
      assert a[j - (n - |a|)] in a;
    }
  }

  /** The three properties in Extension's contract determine its result: any
      dot-free suffix that is the whole name or follows a '.' is the
      extension. */
  lemma ExtensionUnique(name: string, e: string)
    requires '.' !in e
    requires |e| <= |name| && name[|name| - |e|..] == e
    requires |e| < |name| ==> name[|name| - |e| - 1] == '.'
    ensures Extension(name) == e
  {
    var r := Extension(name);
    ExtensionIsLastSegment(name);
    if |r| < |name| {
      DotFreeSuffixBound(name, e, r);
    }
    if |e| < |name| {
      DotFreeSuffixBound(name, r, e);
    }
    assert r == name[|name| - |r|..] == e;
  }

  /** The text of an array of strings in a template literal: its elements
      separated by ",". */
  function Join(xs: seq<string>): string
  {
    if xs == [] then "" else if |xs| == 1 then xs[0] else xs[0] + "," + Join(xs[1..])
  }
}
