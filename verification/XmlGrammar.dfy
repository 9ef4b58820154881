/**
 Markup in content by the productions of XML 1.0 (numbers in brackets) and of Namespaces in
 XML 1.0: what a tag, a comment, a processing instruction or a reference consists of, byte by
 byte, and which token it is.
 */
module XmlGrammar {
  import opened XmlTok
  import opened XmlRef

  /** Characters, each with its bytes. */
  type Chars = seq<Text>

  function Flat(cs: Chars): Text {
    if cs == [] then [] else cs[0] + Flat(cs[1..])
  }

  predicate IsLetter(c: Byte) {
    0x41 <= c <= 0x5A || 0x61 <= c <= 0x7A
  }

  /** [84] to [89], [5]: a character of a name, at its start or not. Characters beyond ASCII are
      those of the encoding; the colon is one where there are no namespaces. */
  predicate IsNameChar(e: Encoding, c: Text, start: bool) {
    && c != [] && |c| == Width(e.typeOf(c[0]))
    && if |c| >= 2 then if start then e.isNmstrt(c) else e.isName(c)
       else if c[0] < 0x80 then
         || IsLetter(c[0]) || c[0] == 0x5F || (c[0] == 0x3A && e.typeOf(0x3A) == Nmstrt)
         || (!start && (0x30 <= c[0] <= 0x39 || c[0] == 0x2D || c[0] == 0x2E))
       else e.typeOf(c[0]) == Nmstrt || (!start && e.typeOf(c[0]) == Name)
  }

  /** [2]: any character. */
  predicate IsAnyChar(e: Encoding, c: Text) {
    && c != [] && |c| == Width(e.typeOf(c[0]))
    && if |c| >= 2 then !e.isInvalid(c)
       else if c[0] < 0x80 then c[0] >= 0x20 || c[0] in {0x09, 0x0A, 0x0D}
       else e.typeOf(c[0]) !in {NonXml, Malform, Trail}
  }

  /** [3] */
  predicate IsSpaceByte(c: Byte) {
    c in {0x20, 0x09, 0x0A, 0x0D}
  }

  predicate IsSpace(s: Text) {
    forall k: nat :: k < |s| ==> IsSpaceByte(s[k])
  }

  predicate NameChars(e: Encoding, cs: Chars) {
    forall k: nat :: k < |cs| ==> IsNameChar(e, cs[k], false)
  }

  /** [5] */
  predicate IsName(e: Encoding, cs: Chars) {
    cs != [] && IsNameChar(e, cs[0], true) && NameChars(e, cs[1..])
  }

  /** A name with a prefix or without, in namespaces [7]. */
  datatype QName = QName(prefix: Chars, local: Chars)

  predicate IsQName(e: Encoding, n: QName) {
    IsName(e, n.local) && (n.prefix == [] || (IsName(e, n.prefix) && e.typeOf(0x3A) == Colon))
  }

  function PrintQName(n: QName): Text {
    (if n.prefix == [] then [] else Flat(n.prefix) + [0x3A]) + Flat(n.local)
  }

  /** [66], [68] */
  datatype Reference = Named(name: Chars) | Decimal(digits: Text) | Hexadecimal(digits: Text)

  predicate IsReference(e: Encoding, r: Reference) {
    match r
    case Named(name) => IsName(e, name)
    case Decimal(ds) => ds != [] && forall k: nat :: k < |ds| ==> 0x30 <= ds[k] <= 0x39
    case Hexadecimal(ds) =>
      ds != [] && forall k: nat :: k < |ds| ==>
        0x30 <= ds[k] <= 0x39 || 0x41 <= ds[k] <= 0x46 || 0x61 <= ds[k] <= 0x66
  }

  /** A reference behind its ampersand. */
  function PrintReference(r: Reference): Text {
    match r
    case Named(name) => Flat(name) + [0x3B]
    case Decimal(ds) => [0x23] + ds + [0x3B]
    case Hexadecimal(ds) => [0x23, 0x78] + ds + [0x3B]
  }

  /** [10]: what an attribute value is made of. */
  datatype Item = One(c: Text) | Ref(r: Reference)

  predicate IsItem(e: Encoding, i: Item, quote: Byte) {
    match i
    case One(c) => IsAnyChar(e, c) && c[0] !in {0x3C, 0x26, quote}
    case Ref(r) => IsReference(e, r)
  }

  function PrintItem(i: Item): Text {
    match i case One(c) => c case Ref(r) => [0x26] + PrintReference(r)
  }

  function PrintItems(items: seq<Item>): Text {
    if items == [] then [] else PrintItem(items[0]) + PrintItems(items[1..])
  }

  predicate AreItems(e: Encoding, items: seq<Item>, quote: Byte) {
    forall k: nat :: k < |items| ==> IsItem(e, items[k], quote)
  }

  /** [41] with the white space in front of it. */
  datatype Attr = Attr(space: Text, name: QName, before: Text, behind: Text, quote: Byte, value: seq<Item>)

  predicate IsAttr(e: Encoding, a: Attr) {
    && IsSpace(a.space) && a.space != [] && IsQName(e, a.name) && IsSpace(a.before) && IsSpace(a.behind)
    && (a.quote == 0x22 || a.quote == 0x27) && AreItems(e, a.value, a.quote)
  }

  function PrintAttr(a: Attr): Text {
    a.space + (PrintQName(a.name)
               + (a.before + ([0x3D] + (a.behind + ([a.quote] + (PrintItems(a.value) + [a.quote]))))))
  }

  /** What follows the name in a tag, [40] and [44]. */
  datatype Tail = Tail(atts: seq<Attr>, space: Text, empty: bool)

  predicate IsTail(e: Encoding, t: Tail) {
    IsSpace(t.space) && forall k: nat :: k < |t.atts| ==> IsAttr(e, t.atts[k])
  }

  function PrintTail(t: Tail): Text
    decreases |t.atts|
  {
    if t.atts == [] then t.space + if t.empty then [0x2F, 0x3E] else [0x3E]
    else PrintAttr(t.atts[0]) + PrintTail(t.(atts := t.atts[1..]))
  }

  /** Characters among which the two are never together. */
  predicate Never(cs: Chars, c: Byte, d: Byte) {
    forall k: nat :: k + 1 < |cs| ==> !(cs[k] == [c] && cs[k + 1] == [d])
  }

  predicate AnyChars(e: Encoding, cs: Chars) {
    forall k: nat :: k < |cs| ==> IsAnyChar(e, cs[k])
  }

  datatype Markup =
    | Element(name: QName, tail: Tail)
    | EndTagOf(endName: Chars, space: Text)
    | Remark(body: Chars)
    | Instruction(target: Chars, content: Chars)
    | Refers(r: Reference)
    | Section

  /** A character of the name in an end tag, where the tokenizer takes any number of colons. */
  predicate IsEndChar(e: Encoding, c: Text) {
    IsNameChar(e, c, false) || (c == [0x3A] && e.typeOf(0x3A) == Colon)
  }

  /** [17]: no target but `xml` reads so in some mixture of cases. */
  predicate IsTarget(t: Text) {
    t != [0x78, 0x6D, 0x6C] ==> !(|t| == 3 && t[0] in {0x58, 0x78} && t[1] in {0x4D, 0x6D} && t[2] in {0x4C, 0x6C})
  }

  predicate IsMarkup(e: Encoding, m: Markup) {
    match m
    case Element(name, tail) => IsQName(e, name) && IsTail(e, tail)
    case EndTagOf(name, space) =>
      && name != [] && IsNameChar(e, name[0], true) && IsSpace(space)
      && forall k: nat :: 1 <= k < |name| ==> IsEndChar(e, name[k])
    case Remark(body) =>
      AnyChars(e, body) && Never(body, 0x2D, 0x2D) && (body == [] || body[|body| - 1] != [0x2D])
    case Instruction(target, content) =>
      && IsName(e, target) && IsTarget(Flat(target)) && AnyChars(e, content) && Never(content, 0x3F, 0x3E)
      && (content != [] ==> |content[0]| == 1 && IsSpaceByte(content[0][0]))
    case Refers(r) => IsReference(e, r)
    case Section => true
  }

  /** The bytes of markup: [40], [44], [42], [15], [16], [67], [19]. */
  function Print(m: Markup): Text {
    match m
    case Element(name, tail) => [0x3C] + (PrintQName(name) + PrintTail(tail))
    case EndTagOf(name, space) => [0x3C, 0x2F] + (Flat(name) + (space + [0x3E]))
    case Remark(body) => [0x3C, 0x21, 0x2D, 0x2D] + (Flat(body) + [0x2D, 0x2D, 0x3E])
    case Instruction(target, content) => [0x3C, 0x3F] + (Flat(target) + (Flat(content) + [0x3F, 0x3E]))
    case Refers(r) => [0x26] + PrintReference(r)
    case Section => [0x3C, 0x21, 0x5B, 0x43, 0x44, 0x41, 0x54, 0x41, 0x5B]
  }

  function TagToken(atts: bool, empty: bool): Token {
    if empty then if atts then EmptyElementWithAtts else EmptyElementNoAtts
    else if atts then StartTagWithAtts else StartTagNoAtts
  }

  /** Which token it is. */
  function TokenOf(m: Markup): Token {
    match m
    case Element(_, tail) => TagToken(tail.atts != [], tail.empty)
    case EndTagOf(_, _) => EndTag
    case Remark(_) => Comment
    case Instruction(target, _) => if Flat(target) == [0x78, 0x6D, 0x6C] then XmlDecl else Pi
    case Refers(r) => if r.Named? then EntityRef else CharRef
    case Section => CdataSectOpen
  }

  /* ----- bytes and classes ----- */

  /** The class of an ASCII byte that has a meaning of its own. */
  lemma Punctuation(e: Encoding, c: Byte)
    requires AsciiTable(e)
    ensures e.typeOf(c) == ByteType.Lt <==> c == 0x3C
    ensures e.typeOf(c) == Gt <==> c == 0x3E
    ensures e.typeOf(c) == Amp <==> c == 0x26
    ensures e.typeOf(c) == Sol <==> c == 0x2F
    ensures e.typeOf(c) == Excl <==> c == 0x21
    ensures e.typeOf(c) == Quest <==> c == 0x3F
    ensures e.typeOf(c) == Equals <==> c == 0x3D
    ensures e.typeOf(c) == Semi <==> c == 0x3B
    ensures e.typeOf(c) == Num <==> c == 0x23
    ensures e.typeOf(c) == Minus <==> c == 0x2D
    ensures e.typeOf(c) == Lsqb <==> c == 0x5B
    ensures e.typeOf(c) == Rsqb <==> c == 0x5D
    ensures e.typeOf(c) == Quot <==> c == 0x22
    ensures e.typeOf(c) == Apos <==> c == 0x27
  {
    hide AsciiTable;
    TableEntry(e, c);
  }

  lemma SpaceAndColon(e: Encoding, c: Byte)
    requires AsciiTable(e)
    ensures Space(e.typeOf(c)) <==> IsSpaceByte(c)
    ensures e.typeOf(c) == Colon ==> c == 0x3A
    ensures c == 0x3A ==> e.typeOf(c) == Colon || e.typeOf(c) == Nmstrt
    ensures e.typeOf(c) == Digit <==> 0x30 <= c <= 0x39
    ensures e.typeOf(c) == Hex <==> 0x41 <= c <= 0x46 || 0x61 <= c <= 0x66
    ensures c == 0x78 ==> e.typeOf(c) == Nmstrt
  {
    hide AsciiTable;
    TableEntry(e, c);
  }

  lemma NameClasses(e: Encoding, c: Byte)
    requires AsciiTable(e)
    ensures c < 0x80 ==>
              && (e.typeOf(c) == Nmstrt || e.typeOf(c) == Hex <==>
                    IsLetter(c) || c == 0x5F || (c == 0x3A && e.typeOf(c) == Nmstrt))
              && (e.typeOf(c) == Digit || e.typeOf(c) == Name || e.typeOf(c) == Minus <==>
                    0x30 <= c <= 0x39 || c == 0x2D || c == 0x2E)
              && !IsLead(e.typeOf(c)) && e.typeOf(c) != NonAscii && e.typeOf(c) != Malform && e.typeOf(c) != Trail
              && (e.typeOf(c) == NonXml <==> c < 0x20 && c !in {0x09, 0x0A, 0x0D})
    ensures c >= 0x80 ==> e.typeOf(c) != Hex && e.typeOf(c) != Digit && e.typeOf(c) != Minus
  {
    hide AsciiTable;
    TableEntry(e, c);
  }

  /** What the scanners take for a character of a name is one. */
  lemma NameLookIs(e: Encoding, b: Text, p: nat, start: bool)
    requires AsciiTable(e) && p < |b|
    ensures var l, n := NameLook(e, b, p, start), Width(e.typeOf(b[p]));
            && (l.Past? ==> l.next == p + n)
            && (l.Past? <==> p + n <= |b| && IsNameChar(e, b[p..p + n], start))
            && (l.End? ==> !l.result.Tok?)
  {
    hide AsciiTable;
    NameClasses(e, b[p]);
    var n := Width(e.typeOf(b[p]));
    if p + n <= |b| {
      assert b[p..p + n][0] == b[p];
    }
  }

  lemma AnyLookIs(e: Encoding, b: Text, p: nat)
    requires AsciiTable(e) && p < |b|
    ensures var l, n := AnyLook(e, b, p), Width(e.typeOf(b[p]));
            && (l.Past? ==> l.next == p + n)
            && (l.Past? <==> p + n <= |b| && IsAnyChar(e, b[p..p + n]))
            && (l.End? ==> !l.result.Tok?)
  {
    hide AsciiTable;
    NameClasses(e, b[p]);
    var n := Width(e.typeOf(b[p]));
    if p + n <= |b| {
      assert b[p..p + n][0] == b[p];
    }
  }

  /* ----- places ----- */

  /** The text stands in the buffer at `p`. */
  ghost predicate Has(b: Text, p: nat, t: Text) {
    p + |t| <= |b| && b[p..p + |t|] == t
  }

  lemma HasSplit(b: Text, p: nat, s: Text, t: Text)
    ensures Has(b, p, s + t) <==> Has(b, p, s) && Has(b, p + |s|, t)
  {
    if Has(b, p, s + t) {
      assert s == (s + t)[..|s|] && t == (s + t)[|s|..];
    }
    if Has(b, p, s) && Has(b, p + |s|, t) {
      assert b[p..p + |s + t|] == b[p..p + |s|] + b[p + |s|..p + |s| + |t|];
    }
  }

  lemma HasByte(b: Text, p: nat, c: Byte)
    ensures Has(b, p, [c]) <==> p < |b| && b[p] == c
  {
    if Has(b, p, [c]) {
      assert b[p..p + 1][0] == b[p];
    }
    if p < |b| && b[p] == c {
      assert b[p..p + 1] == [c];
    }
  }

  lemma HasNothing(b: Text, p: nat)
    ensures Has(b, p, []) <==> p <= |b|
  {
  }

  lemma HasSlice(b: Text, p: nat, q: nat)
    requires p <= q <= |b|
    ensures Has(b, p, b[p..q])
  {
  }
}
