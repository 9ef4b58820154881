/**
 Characters: references by number, UTF-8 and UTF-16.
 */
module XmlChar {
  import opened XmlTok

  type Unit = u: int | 0 <= u < 0x10000

  /** The C type `int`. */
  newtype Int32 = x: int | -0x8000_0000 <= x < 0x8000_0000

  /** Char of XML 1.0, section 2.2. */
  predicate IsChar(n: int) {
    n == 0x9 || n == 0xA || n == 0xD || 0x20 <= n <= 0xD7FF || 0xE000 <= n <= 0xFFFD || 0x10000 <= n <= 0x10FFFF
  }

  /** `checkCharRefNumber` */
  function CheckCharRefNumber(result: Int32): (r: Int32)
    requires 0 <= result < 0x110000
    ensures r == if IsChar(result as int) then result else -1
  {
    var page := result / 0x100;
    if 0xD8 <= page <= 0xDF then -1
    else if page == 0 && result < 0x20 && result != 0x9 && result != 0xA && result != 0xD then -1
    else if page == 0xFF && (result == 0xFFFE || result == 0xFFFF) then -1
    else result
  }

  /* ----- the number of a reference ----- */

  predicate IsDigit(c: Byte) {
    0x30 <= c <= 0x39
  }

  predicate IsHex(c: Byte) {
    IsDigit(c) || 0x41 <= c <= 0x46 || 0x61 <= c <= 0x66
  }

  function DigitValue(c: Byte): (d: nat)
    requires IsHex(c)
    ensures d < 16
  {
    if IsDigit(c) then c - 0x30 else if c < 0x61 then c - 0x41 + 10 else c - 0x61 + 10
  }

  /** The number that digits denote. */
  function Number(s: Text, hex: bool): nat
    requires forall k: nat :: k < |s| ==> if hex then IsHex(s[k]) else IsDigit(s[k])
  {
    if s == [] then 0
    else (if hex then 16 else 10) * Number(s[..|s| - 1], hex) + DigitValue(s[|s| - 1])
  }

  /** More digits only make the number larger. */
  lemma {:induction false} NumberGrows(s: Text, k: nat, hex: bool)
    requires forall k: nat :: k < |s| ==> if hex then IsHex(s[k]) else IsDigit(s[k])
    requires k <= |s|
    ensures Number(s[..k], hex) <= Number(s, hex)
    decreases |s|
  {
    if k < |s| {
      NumberGrows(s[..|s| - 1], k, hex);
      assert s[..|s| - 1][..k] == s[..k];
    } else {
      assert s[..k] == s;
    }
  }

  const SEMI: Byte := 0x3B

  /** A reference at `ptr` as the scanner accepts it, with its digits between `from` and `to`. */
  ghost predicate IsCharRef(b: Text, ptr: nat, from: nat, to: nat, hex: bool) {
    && ptr + 2 < |b| && to < |b| && b[to] == SEMI
    && from == (if hex then ptr + 3 else ptr + 2) && from < to
    && (hex <==> b[ptr + 2] == LOWER_X)
    && forall k: nat :: from <= k < to ==> if hex then IsHex(b[k]) else IsDigit(b[k])
  }

  /** The number that a reference gives, or -1. */
  function RefNumber(digits: Text, hex: bool): (r: int)
    requires forall k: nat :: k < |digits| ==> if hex then IsHex(digits[k]) else IsDigit(digits[k])
    ensures r == -1 || (0 <= r < 0x110000 && IsChar(r))
  {
    var n := Number(digits, hex);
    if IsChar(n) then n else -1
  }

  predicate AreDigits(b: Text, from: nat, to: nat, hex: bool)
    requires from <= to <= |b|
  {
    forall k: nat :: k < to - from ==> if hex then IsHex(b[from..to][k]) else IsDigit(b[from..to][k])
  }

  /** One digit more. */
  lemma NumberNext(b: Text, from: nat, p: nat, to: nat, hex: bool)
    requires from <= p < to <= |b| && AreDigits(b, from, to, hex)
    ensures AreDigits(b, from, p, hex) && AreDigits(b, from, p + 1, hex) && if hex then IsHex(b[p]) else IsDigit(b[p])
    ensures Number(b[from..p + 1], hex) == (if hex then 16 else 10) * Number(b[from..p], hex) + DigitValue(b[p])
    ensures Number(b[from..p + 1], hex) <= Number(b[from..to], hex)
  {
    assert b[from..to][p - from] == b[p];
    assert b[from..p + 1][..p - from] == b[from..p];
    assert b[from..to][..p - from] == b[from..p];
    assert b[from..to][..p + 1 - from] == b[from..p + 1];
    NumberGrows(b[from..to], p + 1 - from, hex);
  }

  /** `charRefNumber` computes in the range of an `int`, however many digits there are. */
  method HexNumber(b: Text, from: nat, ghost to: nat) returns (r: Int32)
    requires from <= to < |b| && b[to] == SEMI && AreDigits(b, from, to, true)
    ensures r as int == RefNumber(b[from..to], true)
  {
    hide Number;
    var result: Int32, ptr := 0, from;
    NoDigits(b, from);
    while b[ptr] != SEMI
      invariant from <= ptr <= to && AreDigits(b, from, ptr, true)
      invariant 0 <= result < 0x110000 && result as int == Number(b[from..ptr], true)
      decreases |b| - ptr
    {
      NumberNext(b, from, ptr, to, true);
      var c := b[ptr];
      if 0x30 <= c <= 0x39 {
        result := result * 16;
        result := result + (c - 0x30) as Int32;
      } else if 0x41 <= c <= 0x46 {
        result := result * 16;
        result := result + 10 + (c - 0x41) as Int32;
      } else if 0x61 <= c <= 0x66 {
        result := result * 16;
        result := result + 10 + (c - 0x61) as Int32;
      }
      if result >= 0x110000 {
        return -1;
      }
      ptr := ptr + 1;
    }
    SemicolonEnds(b, from, ptr, to, true);
    r := CheckCharRefNumber(result);
  }

  method DecimalNumber(b: Text, from: nat, ghost to: nat) returns (r: Int32)
    requires from <= to < |b| && b[to] == SEMI && AreDigits(b, from, to, false)
    ensures r as int == RefNumber(b[from..to], false)
  {
    hide Number;
    var result: Int32, ptr := 0, from;
    NoDigits(b, from);
    while b[ptr] != SEMI
      invariant from <= ptr <= to && AreDigits(b, from, ptr, false)
      invariant 0 <= result < 0x110000 && result as int == Number(b[from..ptr], false)
      decreases |b| - ptr
    {
      NumberNext(b, from, ptr, to, false);
      result := result * 10;
      result := result + (b[ptr] - 0x30) as Int32;
      if result >= 0x110000 {
        return -1;
      }
      ptr := ptr + 1;
    }
    SemicolonEnds(b, from, ptr, to, false);
    r := CheckCharRefNumber(result);
  }

  lemma SemicolonEnds(b: Text, from: nat, p: nat, to: nat, hex: bool)
    requires from <= p <= to < |b| && AreDigits(b, from, to, hex)
    ensures p < to ==> b[p] != SEMI
  {
    if p < to {
      assert b[from..to][p - from] == b[p];
    }
  }

  lemma NoDigits(b: Text, p: nat)
    requires p <= |b|
    ensures forall hex: bool :: AreDigits(b, p, p, hex) && Number(b[p..p], hex) == 0
  {
  }

  method CharRefNumber(b: Text, start: nat, ghost from: nat, ghost to: nat, ghost hex: bool) returns (r: Int32)
    requires IsCharRef(b, start, from, to, hex)
    ensures AreDigits(b, from, to, hex) && r as int == RefNumber(b[from..to], hex)
  {
    if b[start + 2] == LOWER_X {
      r := HexNumber(b, start + 3, to);
    } else {
      r := DecimalNumber(b, start + 2, to);
    }
  }

  /* ----- UTF-8 and UTF-16 ----- */

  /** `XmlUtf8Encode`: nothing for a number that cannot be encoded. */
  function Utf8Encode(c: int): (s: Text)
    ensures |s| <= 4
  {
    if c < 0 then []
    else if c < 0x80 then [c]
    else if c < 0x800 then [0xC0 + c / 0x40, 0x80 + c % 0x40]
    else if c < 0x10000 then [0xE0 + c / 0x1000, 0x80 + c / 0x40 % 0x40, 0x80 + c % 0x40]
    else if c < 0x110000 then [0xF0 + c / 0x40000, 0x80 + c / 0x1000 % 0x40, 0x80 + c / 0x40 % 0x40, 0x80 + c % 0x40]
    else []
  }

  /** `XmlUtf16Encode` */
  function Utf16Encode(c: int): (s: seq<Unit>)
    ensures |s| <= 2
  {
    if c < 0 then []
    else if c < 0x10000 then [c]
    else if c < 0x110000 then [0xD800 + (c - 0x10000) / 0x400, 0xDC00 + (c - 0x10000) % 0x400]
    else []
  }

  /** UTF8_INVALID2, UTF8_INVALID3 and UTF8_INVALID4. */
  predicate Utf8Invalid(p: Text)
    requires 2 <= |p| <= 4
  {
    if |p| == 2 then p[0] < 0xC2 || p[1] < 0x80 || p[1] > 0xBF
    else if |p| == 3 then
      p[2] < 0x80
      || (if p[0] == 0xEF && p[1] == 0xBF then p[2] > 0xBD else p[2] > 0xBF)
      || (if p[0] == 0xE0 then p[1] < 0xA0 || p[1] > 0xBF
          else p[1] < 0x80 || (if p[0] == 0xED then p[1] > 0x9F else p[1] > 0xBF))
    else
      p[3] < 0x80 || p[3] > 0xBF || p[2] < 0x80 || p[2] > 0xBF
      || (if p[0] == 0xF0 then p[1] < 0x90 || p[1] > 0xBF
          else p[1] < 0x80 || (if p[0] == 0xF4 then p[1] > 0x8F else p[1] > 0xBF))
  }

  /** The number of bytes that the class table gives to a first byte. */
  function Utf8Width(b: Byte): (n: nat)
    ensures 1 <= n <= 4
  {
    if 0xC0 <= b <= 0xDF then 2 else if 0xE0 <= b <= 0xEF then 3 else if 0xF0 <= b <= 0xF4 then 4 else 1
  }

  /** A whole character that the tokenizer lets pass. */
  predicate IsUtf8(p: Text) {
    |p| > 0 && |p| == Utf8Width(p[0]) && (if |p| == 1 then p[0] < 0x80 else !Utf8Invalid(p))
  }

  /** A number that has an encoding: no surrogate, no U+FFFE and U+FFFF. */
  predicate IsScalar(c: int) {
    0 <= c <= 0xD7FF || 0xE000 <= c <= 0xFFFD || 0x10000 <= c <= 0x10FFFF
  }

  /** Six bits of a continuation byte, and the bits of a first byte. */
  function Six(b: int): nat {
    b % 0x40
  }

  /** The number that a character stands for. */
  function Utf8Number(p: Text): nat
    requires 1 <= |p| <= 4
  {
    var first: int := p[0];
    match |p|
    case 1 => first
    case 2 => first % 0x20 * 0x40 + Six(p[1])
    case 3 => first % 0x10 * 0x1000 + Six(p[1]) * 0x40 + Six(p[2])
    case _ => first % 8 * 0x40000 + Six(p[1]) * 0x1000 + Six(p[2]) * 0x40 + Six(p[3])
  }

  /** Digits to the base 64. */
  lemma Base64(c: nat, d: nat, x: nat, y: nat, z: nat)
    requires x < 0x40 && y < 0x40 && z < 0x40
    requires c == d * 0x40000 + x * 0x1000 + y * 0x40 + z
    ensures c / 0x40000 == d && c / 0x1000 == d * 0x40 + x && c / 0x1000 % 0x40 == x
    ensures c / 0x40 == d * 0x1000 + x * 0x40 + y && c / 0x40 % 0x40 == y && c % 0x40 == z
  {
    assert c / 0x40000 == d;
    assert c / 0x1000 == d * 0x40 + x;
    assert c / 0x40 == d * 0x1000 + x * 0x40 + y;
  }

  lemma FromBase64(c: nat)
    ensures c == c / 0x40000 * 0x40000 + c / 0x1000 % 0x40 * 0x1000 + c / 0x40 % 0x40 * 0x40 + c % 0x40
  {
    assert c / 0x40000 == c / 0x1000 / 0x40;
    assert c / 0x1000 == c / 0x40 / 0x40;
  }

  /** The validity tests accept exactly the encodings (RFC 3629, section 3). */
  lemma EncodedIsValid(c: int)
    requires IsScalar(c)
    ensures IsUtf8(Utf8Encode(c)) && Utf8Number(Utf8Encode(c)) == c
  {
    FromBase64(c);
    if c < 0x80 {
    } else if c < 0x800 {
      EncodedIsValid2(c);
    } else if c < 0x10000 {
      EncodedIsValid3(c);
    } else {
      EncodedIsValid4(c);
    }
  }

  lemma EncodedIsValid2(c: int)
    requires 0x80 <= c < 0x800
    ensures IsUtf8(Utf8Encode(c)) && Utf8Number(Utf8Encode(c)) == c
  {
    var d, z := c / 0x40, c % 0x40;
    assert 2 <= d < 0x20 && c == d * 0x40 + z;
    assert (0xC0 + d) % 0x20 == d && Six(0x80 + z) == z;
  }

  lemma EncodedIsValid3(c: int)
    requires IsScalar(c) && 0x800 <= c < 0x10000
    ensures IsUtf8(Utf8Encode(c)) && Utf8Number(Utf8Encode(c)) == c
  {
    FromBase64(c);
    var d, y, z := c / 0x1000, c / 0x40 % 0x40, c % 0x40;
    assert c / 0x40000 == 0 && d < 0x10 && d % 0x40 == d;
    assert c == d * 0x1000 + y * 0x40 + z;
    assert (0xE0 + d) % 0x10 == d && Six(0x80 + y) == y && Six(0x80 + z) == z;
    var p := Utf8Encode(c);
    assert p == [0xE0 + d, 0x80 + y, 0x80 + z];
  }

  lemma EncodedIsValid4(c: int)
    requires 0x10000 <= c < 0x110000
    ensures IsUtf8(Utf8Encode(c)) && Utf8Number(Utf8Encode(c)) == c
  {
    FromBase64(c);
    var d, x, y, z := c / 0x40000, c / 0x1000 % 0x40, c / 0x40 % 0x40, c % 0x40;
    assert c == d * 0x40000 + x * 0x1000 + y * 0x40 + z && d <= 4;
    assert (0xF0 + d) % 8 == d && Six(0x80 + x) == x && Six(0x80 + y) == y && Six(0x80 + z) == z;
    var p := Utf8Encode(c);
    assert p == [0xF0 + d, 0x80 + x, 0x80 + y, 0x80 + z];
  }

  lemma ValidIsEncoded(p: Text)
    requires IsUtf8(p)
    ensures IsScalar(Utf8Number(p)) && Utf8Encode(Utf8Number(p)) == p
  {
    if |p| == 1 {
      assert p == [p[0]];
    } else if |p| == 2 {
      ValidIsEncoded2(p);
    } else if |p| == 3 {
      ValidIsEncoded3(p);
    } else {
      ValidIsEncoded4(p);
    }
  }

  lemma ValidIsEncoded2(p: Text)
    requires IsUtf8(p) && |p| == 2
    ensures IsScalar(Utf8Number(p)) && Utf8Encode(Utf8Number(p)) == p
  {
    var d, z := p[0] - 0xC0, p[1] - 0x80;
    assert p[0] % 0x20 == d && Six(p[1]) == z;
    Base64(Utf8Number(p), 0, 0, d, z);
    assert p == [0xC0 + d, 0x80 + z];
  }

  lemma ValidIsEncoded3(p: Text)
    requires IsUtf8(p) && |p| == 3
    ensures IsScalar(Utf8Number(p)) && Utf8Encode(Utf8Number(p)) == p
  {
    var d, y, z := p[0] - 0xE0, p[1] - 0x80, p[2] - 0x80;
    assert p[0] % 0x10 == d && Six(p[1]) == y && Six(p[2]) == z;
    Base64(Utf8Number(p), 0, d, y, z);
    assert p == [0xE0 + d, 0x80 + y, 0x80 + z];
  }

  lemma Encode4(c: int)
    requires 0x10000 <= c < 0x110000
    ensures Utf8Encode(c) == [0xF0 + c / 0x40000, 0x80 + c / 0x1000 % 0x40, 0x80 + c / 0x40 % 0x40, 0x80 + c % 0x40]
  {
  }

  lemma ValidIsEncoded4(p: Text)
    requires IsUtf8(p) && |p| == 4
    ensures IsScalar(Utf8Number(p)) && Utf8Encode(Utf8Number(p)) == p
  {
    var d, x, y, z := p[0] - 0xF0, p[1] - 0x80, p[2] - 0x80, p[3] - 0x80;
    assert p[0] % 8 == d && Six(p[1]) == x && Six(p[2]) == y && Six(p[3]) == z;
    hide Utf8Encode;
    var c := Utf8Number(p);
    assert x < 0x40 && y < 0x40 && z < 0x40 && d <= 4;
    assert 0x10000 <= c < 0x110000;
    Base64(c, d, x, y, z);
    Encode4(c);
    assert p == [0xF0 + d, 0x80 + x, 0x80 + y, 0x80 + z];
  }

  /* ----- whole texts ----- */

  predicate AllScalar(cs: seq<int>) {
    forall k: nat :: k < |cs| ==> IsScalar(cs[k])
  }

  function Bytes(cs: seq<int>): Text {
    if cs == [] then [] else Bytes(cs[..|cs| - 1]) + Utf8Encode(cs[|cs| - 1])
  }

  function Units(cs: seq<int>): seq<Unit> {
    if cs == [] then [] else Units(cs[..|cs| - 1]) + Utf16Encode(cs[|cs| - 1])
  }

  lemma {:induction false} BytesOfPrefix(cs: seq<int>, k: nat)
    requires k <= |cs|
    ensures Bytes(cs[..k]) <= Bytes(cs)
    decreases |cs|
  {
    if k < |cs| {
      var front := cs[..|cs| - 1];
      BytesOfPrefix(front, k);
      assert front[..k] == cs[..k];
    } else {
      assert cs[..k] == cs;
    }
  }

  /** The next character of an encoded text. */
  lemma NextChar(cs: seq<int>, k: nat, b: Text)
    requires AllScalar(cs) && k < |cs| && b == Bytes(cs)
    ensures var from, c := |Bytes(cs[..k])|, cs[k];
            && from + |Utf8Encode(c)| <= |b| && b[from..from + |Utf8Encode(c)|] == Utf8Encode(c)
            && |Bytes(cs[..k + 1])| == from + |Utf8Encode(c)|
            && Units(cs[..k + 1]) == Units(cs[..k]) + Utf16Encode(c)
  {
    hide Utf8Encode, Utf16Encode;
    assert cs[..k + 1][..k] == cs[..k];
    BytesOfPrefix(cs, k + 1);
  }

  /** The units that `utf8_toUtf16` makes of one character. */
  function UnitsOf(p: Text): (u: seq<Unit>)
    requires IsUtf8(p)
    ensures |u| == if |p| == 4 then 2 else 1
  {
    var n := Utf8Number(p);
    if |p| == 4 then
      ValidIsEncoded(p);
      assert 0x10000 <= n;
      var m := n - 0x10000;
      [0xD800 + m / 0x400, 0xDC00 + m % 0x400]
    else
      ValidIsEncoded(p);
      [n]
  }

  lemma UnitsOfEncoded(c: int)
    requires IsScalar(c)
    ensures IsUtf8(Utf8Encode(c)) && UnitsOf(Utf8Encode(c)) == Utf16Encode(c)
  {
    EncodedIsValid(c);
  }

  lemma NoChars(cs: seq<int>)
    ensures cs[..0] == [] && Bytes([]) == [] && Units([]) == []
  {
  }

  /** The text ends where the characters do. */
  lemma CharsEnd(cs: seq<int>, k: nat, b: Text)
    requires AllScalar(cs) && k <= |cs| && b == Bytes(cs)
    ensures |Bytes(cs[..k])| <= |b| && (|Bytes(cs[..k])| == |b| <==> k == |cs|)
  {
    hide Bytes;
    if k < |cs| {
      NextChar(cs, k, b);
      UnitsOfEncoded(cs[k]);
    } else {
      assert cs[..k] == cs;
    }
  }

  lemma FirstByte(c: int, b: Text, from: nat)
    requires IsScalar(c) && from + |Utf8Encode(c)| <= |b| && b[from..from + |Utf8Encode(c)|] == Utf8Encode(c)
    ensures from < |b| && |Utf8Encode(c)| == Utf8Width(b[from])
  {
    EncodedIsValid(c);
    assert b[from..from + |Utf8Encode(c)|][0] == b[from];
  }

  /**
   `utf8_toUtf16`: as many characters as there is room for become exactly their UTF-16
   units, and a pair of units is never torn apart.
   */
  method Utf8ToUtf16(b: Text, to: array<Unit>, ghost cs: seq<int>) returns (from: nat, n: nat, ghost k: nat)
    requires AllScalar(cs) && b == Bytes(cs)
    modifies to
    ensures k <= |cs| && from == |Bytes(cs[..k])| && n <= to.Length && to[..n] == Units(cs[..k])
    ensures k < |cs| ==> n + |Utf16Encode(cs[k])| > to.Length
    ensures k == |cs| ==> from == |b|
    ensures forall i: nat :: n <= i < to.Length ==> to[i] == old(to[i])
  {
    hide Bytes, Units, Utf8Encode, Utf16Encode, IsUtf8, Utf8Number;
    from, n, k := 0, 0, 0;
    NoChars(cs);
    while from != |b| && n != to.Length
      invariant k <= |cs| && from == |Bytes(cs[..k])| <= |b| && n <= to.Length && to[..n] == Units(cs[..k])
      invariant forall i: nat :: n <= i < to.Length ==> to[i] == old(to[i])
      decreases |cs| - k
    {
      CharsEnd(cs, k, b);
      NextChar(cs, k, b);
      UnitsOfEncoded(cs[k]);
      var w := Utf8Width(b[from]);
      FirstByte(cs[k], b, from);
      var units := UnitsOf(b[from..from + w]);
      if w == 4 && n + 1 == to.Length {
        return;
      }
      ghost var was := to[..n];
      to[n] := units[0];
      if w == 4 {
        to[n + 1] := units[1];
      }
      n := n + |units|;
      assert to[..n] == was + units;
      from := from + w;
      k := k + 1;
    }
    CharsEnd(cs, k, b);
    if k < |cs| {
      UnitsOfEncoded(cs[k]);
    }
  }
}
