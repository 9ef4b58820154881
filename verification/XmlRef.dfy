/**
 What the tokenizer's references consist of when the class table agrees with ASCII.
 */
module XmlRef {
  import opened XmlTok
  import opened XmlScan
  import opened XmlChar

  /* ----- the ASCII half of a class table ----- */

  const CR: Byte := 0x0D
  const COLON: Byte := 0x3A

  function AsciiType(c: Byte): ByteType
    requires c < 0x80
  {
    if c == 0x0A then Lf
    else if c == CR then Cr
    else if c == 0x09 || c == SPACE then S
    else if c < 0x20 then NonXml
    else if IsDigit(c) then Digit
    else if IsHex(c) then Hex
    else if 0x41 <= c <= 0x5A || 0x61 <= c <= 0x7A || c == 0x5F then Nmstrt
    else match c
         case 0x21 => Excl case 0x22 => Quot case 0x23 => Num case 0x25 => Percnt case 0x26 => Amp
         case 0x27 => Apos case 0x28 => Lpar case 0x29 => Rpar case 0x2A => Ast case 0x2B => Plus
         case 0x2C => Comma case 0x2D => Minus case 0x2E => Name case 0x2F => Sol case 0x3A => Colon
         case 0x3B => Semi case 0x3C => Lt case 0x3D => Equals case 0x3E => Gt case 0x3F => Quest
         case 0x5B => Lsqb case 0x5D => Rsqb case 0x7C => Verbar
         case _ => Other
  }

  predicate IsHigh(t: ByteType) {
    t == Lead2 || t == Lead3 || t == Lead4 || t == Trail || t == NonXml || t == Malform || t == Nmstrt || t == Name
    || t == Other || t == NonAscii
  }

  /** The table agrees with ASCII; without namespaces a colon is a name character, and in
      the internal table a carriage return is white space. */
  ghost predicate AsciiTable(e: Encoding) {
    forall c: Byte ::
      if c < 0x80 then
        e.typeOf(c) == AsciiType(c) || (c == COLON && e.typeOf(c) == Nmstrt) || (c == CR && e.typeOf(c) == S)
      else IsHigh(e.typeOf(c))
  }

  lemma AsciiClasses(e: Encoding, c: Byte)
    requires AsciiTable(e)
    ensures e.typeOf(c) == Semi <==> c == SEMI
    ensures e.typeOf(c) == Num <==> c == 0x23
    ensures e.typeOf(c) == Amp <==> c == 0x26
    ensures e.typeOf(c) == Digit <==> IsDigit(c)
    ensures e.typeOf(c) == Hex <==> IsHex(c) && !IsDigit(c)
    ensures c == SPACE ==> e.typeOf(c) == S
    ensures c == LOWER_X ==> e.typeOf(c) == Nmstrt
  {
    hide AsciiTable;
    if c < 0x80 {
      TableEntry(e, c);
    } else {
      TableEntry(e, c);
    }
  }

  lemma SpaceClass(e: Encoding, c: Byte)
    requires AsciiTable(e)
    ensures c == SPACE ==> e.typeOf(c) == S
  {
    hide AsciiTable;
    if c == SPACE {
      TableEntry(e, c);
    }
  }

  lemma TableEntry(e: Encoding, c: Byte)
    requires AsciiTable(e)
    ensures if c < 0x80 then
              e.typeOf(c) == AsciiType(c) || (c == COLON && e.typeOf(c) == Nmstrt) || (c == CR && e.typeOf(c) == S)
            else IsHigh(e.typeOf(c))
  {
  }

  /** A character reference that the scanner has found is one by its characters. */
  lemma {:induction false} ScannedDigits(e: Encoding, b: Text, p: nat, hex: bool)
    requires AsciiTable(e) && p <= |b|
    requires Run(e, b, p, if hex then HexDigits(InContent) else Digits(InContent)).Tok?
    ensures var r := Run(e, b, p, if hex then HexDigits(InContent) else Digits(InContent));
            && r.tok == CharRef && p < r.next <= |b| && b[r.next - 1] == SEMI
            && forall k: nat :: p <= k < r.next - 1 ==> if hex then IsHex(b[k]) else IsDigit(b[k])
    decreases |b| - p
  {
    hide Run, AsciiTable;
    RunRef(e, b, p, if hex then HexDigits(InContent) else Digits(InContent));
    if p < |b| {
      AsciiClasses(e, b[p]);
      if b[p] != SEMI {
        ScannedDigits(e, b, p + 1, hex);
      }
    }
  }

  lemma FirstDigits(e: Encoding, b: Text, p: nat)
    requires p <= |b|
    ensures Run(e, b, p, CharRefStart(InContent)) ==
            if p == |b| then Partial else if b[p] == LOWER_X then Run(e, b, p + 1, HexStart(InContent))
            else if e.typeOf(b[p]) == Digit then Run(e, b, p + 1, Digits(InContent)) else Invalid(p)
    ensures Run(e, b, p, HexStart(InContent)) ==
            if p == |b| then Partial
            else if e.typeOf(b[p]) == Digit || e.typeOf(b[p]) == Hex then Run(e, b, p + 1, HexDigits(InContent))
            else Invalid(p)
  {
    hide Run;
    RunRef(e, b, p, CharRefStart(InContent));
    RunRef(e, b, p, HexStart(InContent));
  }

  lemma ScannedNumber(e: Encoding, b: Text, p: nat)
    requires AsciiTable(e) && p <= |b| && Run(e, b, p, CharRefStart(InContent)).Tok?
    ensures var r := Run(e, b, p, CharRefStart(InContent));
            && p < r.next <= |b| && b[r.next - 1] == SEMI
            && var hex := b[p] == LOWER_X;
            var from := if hex then p + 1 else p;
            from < r.next - 1 && forall k: nat :: from <= k < r.next - 1 ==> if hex then IsHex(b[k]) else IsDigit(b[k])
  {
    hide AsciiTable, RefStep, Run;
    FirstDigits(e, b, p);
    AsciiClasses(e, b[p]);
    if b[p] == LOWER_X {
      FirstDigits(e, b, p + 1);
      AsciiClasses(e, b[p + 1]);
      ScannedDigits(e, b, p + 2, true);
    } else {
      ScannedDigits(e, b, p + 1, false);
    }
  }

  /** A reference that is no entity reference begins with a number sign. */
  lemma CharRefHead(e: Encoding, b: Text, p: nat)
    requires p <= |b|
    requires var r := Run(e, b, p, RefStart(InContent)); r.Tok? && r.tok == CharRef
    ensures p < |b| && Run(e, b, p, RefStart(InContent)) == Run(e, b, p + 1, CharRefStart(InContent))
  {
    hide Run, NameLook;
    RunRef(e, b, p, RefStart(InContent));
    var l := NameLook(e, b, p, true);
    if l.Past? {
      RefNameEnds(e, b, l.next);
    } else {
      RefEnds(e, b, p);
    }
  }

  lemma ScannedCharRef(e: Encoding, b: Text, p: nat)
    requires AsciiTable(e) && p < |b|
    requires var r := Run(e, b, p + 1, RefStart(InContent)); r.Tok? && r.tok == CharRef
    ensures var r := Run(e, b, p + 1, RefStart(InContent));
            && p + 2 < r.next <= |b|
            && var hex := b[p + 2] == LOWER_X;
            IsCharRef(b, p, if hex then p + 3 else p + 2, r.next - 1, hex)
  {
    hide Run, AsciiTable, RefStep;
    CharRefHead(e, b, p + 1);
    ScannedNumber(e, b, p + 2);
  }

  lemma {:induction false} RefNameEnds(e: Encoding, b: Text, p: nat)
    requires p <= |b|
    ensures var r := Run(e, b, p, RefName(InContent)); r.Tok? ==> r.tok == EntityRef && p < r.next <= |b|
    decreases |b| - p
  {
    hide Run, NameLook;
    RunRef(e, b, p, RefName(InContent));
    if p < |b| {
      RefEnds(e, b, p);
      var l := NameLook(e, b, p, false);
      if l.Past? {
        RefNameEnds(e, b, l.next);
      }
    }
  }

  /* ----- characters of several bytes ----- */

  /** The bytes behind the first are no spaces and begin no characters, in every character of
      several bytes that passes the test of the encoding. */
  ghost predicate SoundChars(e: Encoding) {
    forall s: Text :: |s| >= 2 && |s| == Width(e.typeOf(s[0])) && !e.isInvalid(s) ==> SoundTail(e, s)
  }

  predicate SoundTail(e: Encoding, s: Text) {
    forall k: nat :: 1 <= k < |s| ==> s[k] != SPACE && !IsLead(e.typeOf(s[k]))
  }

  /** The upper half of the class table of UTF-8. */
  function Utf8Type(c: Byte): ByteType
    requires 0x80 <= c
  {
    if c < 0xC0 then Trail else if c < 0xE0 then Lead2 else if c < 0xF0 then Lead3 else if c < 0xF5 then Lead4
    else if c < 0xFE then NonXml else Malform
  }

  function Utf8Class(c: Byte, ns: bool, internal: bool): ByteType {
    if c >= 0x80 then Utf8Type(c)
    else if c == COLON && !ns then Nmstrt
    else if c == CR && internal then S
    else AsciiType(c)
  }

  /** UTF-8 with its class table and its tests for invalid characters, with or without
      namespaces, for documents or for the texts of entities. */
  function Utf8(ns: bool, internal: bool, isName: Text -> bool, isNmstrt: Text -> bool): Encoding {
    Encoding((c: Byte) => Utf8Class(c, ns, internal), isName, isNmstrt, (s: Text) => 2 <= |s| <= 4 && Utf8Invalid(s))
  }

  lemma Utf8IsSound(ns: bool, internal: bool, isName: Text -> bool, isNmstrt: Text -> bool)
    ensures var e := Utf8(ns, internal, isName, isNmstrt); AsciiTable(e) && SoundChars(e)
  {
    var e := Utf8(ns, internal, isName, isNmstrt);
    hide AsciiType;
    assert AsciiTable(e);
    forall s: Text | |s| >= 2 && |s| == Width(e.typeOf(s[0])) && !e.isInvalid(s) ensures SoundTail(e, s) {
      LeadsAreHigh(s[0], ns, internal);
      forall k: nat | 1 <= k < |s| ensures s[k] != SPACE && !IsLead(e.typeOf(s[k])) {
        assert 0x80 <= s[k] < 0xC0;
      }
    }
  }

  lemma LeadsAreHigh(c: Byte, ns: bool, internal: bool)
    ensures IsLead(Utf8Class(c, ns, internal)) ==> 0xC0 <= c < 0xF5
  {
  }
}
