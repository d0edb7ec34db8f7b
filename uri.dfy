/** ECMAScript `encodeURI`: every code point outside the URI-unescaped set
    and the reserved set is written as its UTF-8 bytes, each as "%" and two
    upper-case hexadecimal digits. A Dafny `char` is a Unicode scalar value,
    so the lone-surrogate case in which `encodeURI` throws cannot arise. */
module Uri {

  /** Code points `encodeURI` leaves as they are: letters, digits, the marks
      "-_.!~*'()", the reserved characters ";/?:@&=+$," and "#". */
  predicate IsUriSafe(c: char) {
    ('A' <= c <= 'Z') || ('a' <= c <= 'z') || ('0' <= c <= '9') ||
    c in "-_.!~*'()" || c in ";/?:@&=+$,#"
  }

  type Byte = b: int | 0 <= b < 256

  /** The UTF-8 encoding of one code point. */
  function Utf8(c: char): (bs: seq<Byte>)
    ensures 1 <= |bs| <= 4
    ensures |bs| == 1 <==> c as int < 0x80
  {
    var n := c as int;
    if n < 0x80 then [n]
    else if n < 0x800 then [0xC0 + n / 0x40, 0x80 + n % 0x40]
    else if n < 0x10000 then [0xE0 + n / 0x1000, 0x80 + (n / 0x40) % 0x40, 0x80 + n % 0x40]
    else [0xF0 + n / 0x40000, 0x80 + (n / 0x1000) % 0x40, 0x80 + (n / 0x40) % 0x40, 0x80 + n % 0x40]
  }

  function HexDigit(d: int): (c: char)
    requires 0 <= d < 16
    ensures IsUriSafe(c)
  {
    "0123456789ABCDEF"[d]
  }

  /** Each byte as "%" followed by two hexadecimal digits. */
  function PercentEncode(bs: seq<Byte>): (r: string)
    ensures |r| == 3 * |bs|
    ensures forall i :: 0 <= i < |r| ==> r[i] == '%' || IsUriSafe(r[i])
  {
    if bs == [] then []
    else ['%', HexDigit(bs[0] / 16), HexDigit(bs[0] % 16)] + PercentEncode(bs[1..])
  }

  /** The escape of one code point: itself when safe, its percent-encoded
      UTF-8 bytes otherwise. */
  function EscapeChar(c: char): string
  {
    if IsUriSafe(c) then [c] else PercentEncode(Utf8(c))
  }

  function EncodeUri(s: string): (r: string)
    ensures |r| >= |s|
    ensures forall i :: 0 <= i < |r| ==> r[i] == '%' || IsUriSafe(r[i])
  {
    if s == [] then [] else EscapeChar(s[0]) + EncodeUri(s[1..])
  }

  /** Encoding works code point by code point, so it distributes over
      concatenation. */
  lemma {:induction false} EncodeUriAppend(a: string, b: string)
    ensures EncodeUri(a + b) == EncodeUri(a) + EncodeUri(b)
  {
    if a == [] {
      assert a + b == b;
    } else {
      assert (a + b)[1..] == a[1..] + b;
      EncodeUriAppend(a[1..], b);
    }
  }

  /** A string made only of safe code points is its own encoding. */
  lemma {:induction false} EncodeUriOfSafe(s: string)
    requires forall i :: 0 <= i < |s| ==> IsUriSafe(s[i])
    ensures EncodeUri(s) == s
  {
    if s != [] {
      EncodeUriOfSafe(s[1..]);
    }
  }

  /** A code point is left unchanged exactly when it is safe; any other
      code point grows to a percent escape. */
  lemma EncodeUriOfChar(c: char)
    ensures IsUriSafe(c) ==> EncodeUri([c]) == [c]
    ensures !IsUriSafe(c) ==> EncodeUri([c]) == PercentEncode(Utf8(c)) && EncodeUri([c])[0] == '%'
  {
    assert [c][1..] == [];
  }
}
