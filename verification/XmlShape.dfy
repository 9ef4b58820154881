/**
 Tokens of content by their bytes: how each kind of markup begins and ends, where line ends
 are, and what character data is.
 */
module XmlShape {
  import opened XmlTok
  import opened XmlScan
  import opened XmlRef
  import opened XmlGrammar
  import opened XmlReads
  import opened XmlTokens
  import XmlChunks
  import XmlChar
  import XmlTagValues

  predicate IsTag(tok: Token) {
    tok in {StartTagNoAtts, StartTagWithAtts, EmptyElementNoAtts, EmptyElementWithAtts}
  }

  predicate IsMarkupToken(tok: Token) {
    tok != DataChars && tok != DataNewline
  }

  /* ----- how markup begins ----- */

  lemma NameStarts(e: Encoding, cs: Chars)
    requires AsciiTable(e) && cs != [] && IsNameChar(e, cs[0], true)
    ensures Flat(cs) != [] && Flat(cs)[0] !in {0x2F, 0x3F, 0x21, 0x23}
  {
    hide AsciiTable;
    assert Flat(cs)[0] == cs[0][0];
    NameClasses(e, cs[0][0]);
  }

  lemma HasAt(b: Text, p: nat, t: Text, k: nat)
    requires Has(b, p, t) && k < |t|
    ensures p + k < |b| && b[p + k] == t[k]
  {
    assert b[p + k] == b[p..p + |t|][k];
  }

  /** The first bytes decide on the kind of markup. */
  lemma BeginningTells(e: Encoding, b: Text, p: nat)
    requires AsciiTable(e) && p <= |b|
    requires var r := XmlChunks.ContentTok(e, b, p); r.Tok? && IsMarkupToken(r.tok)
    ensures p + 1 < |b|
    ensures var tok := XmlChunks.ContentTok(e, b, p).tok;
            && (IsTag(tok) <==> b[p] == 0x3C && b[p + 1] !in {0x2F, 0x3F, 0x21})
            && (tok == EndTag <==> b[p] == 0x3C && b[p + 1] == 0x2F)
            && (tok == Pi || tok == XmlDecl <==> b[p] == 0x3C && b[p + 1] == 0x3F)
            && (tok == EntityRef <==> b[p] == 0x26 && b[p + 1] != 0x23)
            && (tok == CharRef <==> b[p] == 0x26 && b[p + 1] == 0x23)
            && (tok == Comment <==> Has(b, p, [0x3C, 0x21, 0x2D, 0x2D]))
            && (tok == CdataSectOpen <==> Has(b, p, [0x3C, 0x21, 0x5B, 0x43, 0x44, 0x41, 0x54, 0x41, 0x5B]))
  {
    hide AsciiTable, Run;
    var m := TokenIsMarkup(e, b, p);
    FirstBytes(e, m);
    hide IsMarkup, Print, TokenOf;
    HasAt(b, p, Print(m), 0);
    HasAt(b, p, Print(m), 1);
    if m.Remark? || m.Section? {
      HasAt(b, p, Print(m), 2);
      HasBeginning(b, p, Print(m), if m.Remark? then [0x3C, 0x21, 0x2D, 0x2D] else Print(m));
    }
    NotBoth(b, p);
  }

  lemma HasBeginning(b: Text, p: nat, t: Text, s: Text)
    requires Has(b, p, t) && s <= t
    ensures Has(b, p, s)
  {
    assert b[p..p + |s|] == b[p..p + |t|][..|s|];
  }

  lemma NotBoth(b: Text, p: nat)
    ensures Has(b, p, [0x3C, 0x21, 0x2D, 0x2D]) ==> p + 2 < |b| && b[p] == 0x3C && b[p + 1] == 0x21 && b[p + 2] == 0x2D
    ensures Has(b, p, [0x3C, 0x21, 0x5B, 0x43, 0x44, 0x41, 0x54, 0x41, 0x5B]) ==>
              p + 2 < |b| && b[p] == 0x3C && b[p + 1] == 0x21 && b[p + 2] == 0x5B
  {
    if Has(b, p, [0x3C, 0x21, 0x2D, 0x2D]) {
      HasAt(b, p, [0x3C, 0x21, 0x2D, 0x2D], 0);
      HasAt(b, p, [0x3C, 0x21, 0x2D, 0x2D], 1);
      HasAt(b, p, [0x3C, 0x21, 0x2D, 0x2D], 2);
    }
    var t: Text := [0x3C, 0x21, 0x5B, 0x43, 0x44, 0x41, 0x54, 0x41, 0x5B];
    if Has(b, p, t) {
      HasAt(b, p, t, 0);
      HasAt(b, p, t, 1);
      HasAt(b, p, t, 2);
    }
  }

  lemma FirstBytes(e: Encoding, m: Markup)
    requires AsciiTable(e) && IsMarkup(e, m)
    ensures |Print(m)| >= 2
    ensures m.Element? ==> Print(m)[0] == 0x3C && Print(m)[1] !in {0x2F, 0x3F, 0x21} && IsTag(TokenOf(m))
    ensures m.EndTagOf? ==> Print(m)[0] == 0x3C && Print(m)[1] == 0x2F && TokenOf(m) == EndTag
    ensures m.Instruction? ==> Print(m)[0] == 0x3C && Print(m)[1] == 0x3F && (TokenOf(m) == Pi || TokenOf(m) == XmlDecl)
    ensures m.Remark? ==> [0x3C, 0x21, 0x2D, 0x2D] <= Print(m) && TokenOf(m) == Comment
    ensures m.Section? ==>
              Print(m) == [0x3C, 0x21, 0x5B, 0x43, 0x44, 0x41, 0x54, 0x41, 0x5B] && TokenOf(m) == CdataSectOpen
    ensures m.Refers? ==>
              Print(m)[0] == 0x26
              && if m.r.Named? then Print(m)[1] != 0x23 && TokenOf(m) == EntityRef
                 else Print(m)[1] == 0x23 && TokenOf(m) == CharRef
  {
    hide AsciiTable, IsNameChar, PrintTail, IsTail, Flat;
    match m {
      case Element(name, _) => NameStarts(e, if name.prefix == [] then name.local else name.prefix);
      case Refers(r) =>
        if r.Named? {
          NameStarts(e, r.name);
        }
      case _ =>
    }
  }

  /* ----- how markup ends ----- */

  /** No byte of ASCII is hidden inside a character of several bytes, as in valid UTF-8. */
  ghost predicate Whole(e: Encoding, b: Text) {
    forall i: nat, j: nat :: i < j < |b| && j < i + Width(e.typeOf(b[i])) ==> b[j] >= 0x80
  }

  /** Valid UTF-8 is of this kind. */
  lemma ValidIsWhole(e: Encoding, cs: seq<int>)
    requires XmlChar.AllScalar(cs) && XmlTagValues.Utf8Classes(e)
    ensures Whole(e, XmlChar.Bytes(cs))
  {
    hide XmlChar.Bytes, XmlTagValues.Utf8Classes, Width;
    var b := XmlChar.Bytes(cs);
    forall i: nat, j: nat | i < j < |b| && j < i + Width(e.typeOf(b[i])) ensures b[j] >= 0x80 {
      XmlTagValues.LeadOfChar(e, cs, i, j);
    }
  }

  /** A character is one byte, or none of its bytes is in ASCII. */
  predicate IsApart(c: Text) {
    |c| == 1 || forall k: nat :: k < |c| ==> c[k] >= 0x80
  }

  lemma CharIsApart(e: Encoding, b: Text, p: nat, c: Text)
    requires AsciiTable(e) && Whole(e, b) && c != [] && |c| == Width(e.typeOf(c[0])) && Has(b, p, c)
    ensures IsApart(c)
  {
    hide AsciiTable;
    NameClasses(e, c[0]);
    HasChar(e, b, p, c);
    forall k: nat | 1 <= k < |c| ensures c[k] >= 0x80 {
      HasAt(b, p, c, k);
    }
  }

  predicate AllApart(cs: Chars) {
    forall k: nat :: k < |cs| ==> cs[k] != [] && IsApart(cs[k])
  }

  lemma {:induction false} CharsAreApart(e: Encoding, b: Text, p: nat, cs: Chars)
    requires AsciiTable(e) && Whole(e, b) && Has(b, p, Flat(cs))
    requires forall k: nat :: k < |cs| ==> cs[k] != [] && |cs[k]| == Width(e.typeOf(cs[k][0]))
    ensures AllApart(cs)
    decreases |cs|
  {
    hide AsciiTable, Whole, Has, IsApart;
    if cs != [] {
      HasSplit(b, p, cs[0], Flat(cs[1..]));
      CharIsApart(e, b, p, cs[0]);
      CharsAreApart(e, b, p + |cs[0]|, cs[1..]);
      forall k: nat | k < |cs| ensures cs[k] != [] && IsApart(cs[k]) {
        if k > 0 {
          assert cs[k] == cs[1..][k - 1];
        }
      }
    }
  }

  /** A byte of ASCII that no character consists of is not there. */
  lemma {:induction false} NotAmong(cs: Chars, d: Byte)
    requires AllApart(cs) && d < 0x80 && [d] !in cs
    ensures d !in Flat(cs)
  {
    if cs != [] {
      NotAmong(cs[1..], d);
      assert cs[0] in cs;
      if |cs[0]| == 1 {
        assert cs[0] == [cs[0][0]];
      }
    }
  }

  /** The first byte of a text is that of its first character. */
  lemma FlatBegins(cs: Chars, d: Byte)
    requires AllApart(cs) && d < 0x80 && Flat(cs) != [] && Flat(cs)[0] == d
    ensures cs != [] && cs[0] == [d]
  {
    assert cs[0][0] == Flat(cs)[0];
    if |cs[0]| == 1 {
      assert cs[0] == [cs[0][0]];
    }
  }

  /** Two bytes of ASCII are together only if two characters are. */
  lemma {:induction false} NeverTogether(cs: Chars, c: Byte, d: Byte, i: nat)
    requires AllApart(cs) && c < 0x80 && d < 0x80 && Never(cs, c, d) && i + 1 < |Flat(cs)|
    ensures !(Flat(cs)[i] == c && Flat(cs)[i + 1] == d)
    decreases |cs|
  {
    var first, rest := cs[0], cs[1..];
    if i >= |first| {
      assert Flat(cs)[i] == Flat(rest)[i - |first|] && Flat(cs)[i + 1] == Flat(rest)[i + 1 - |first|];
      NeverTogether(rest, c, d, i - |first|);
    } else if |first| == 1 {
      assert first == [first[0]];
      if Flat(cs)[i] == c && Flat(cs)[i + 1] == d {
        assert Flat(cs)[1] == Flat(rest)[0];
        FlatBegins(rest, d);
      }
    } else {
      assert Flat(cs)[i] == first[i];
    }
  }

  lemma {:induction false} FlatLast(cs: Chars, d: Byte)
    requires AllApart(cs) && d < 0x80 && Flat(cs) != [] && Flat(cs)[|Flat(cs)| - 1] == d
    ensures cs != [] && cs[|cs| - 1] == [d]
    decreases |cs|
  {
    var first, rest := cs[0], cs[1..];
    if rest == [] {
      assert Flat(cs) == first;
      if |first| == 1 {
        assert first == [first[0]];
      }
    } else {
      assert rest[0] != [];
      assert Flat(rest)[|Flat(rest)| - 1] == Flat(cs)[|Flat(cs)| - 1];
      FlatLast(rest, d);
    }
  }

  /** Bytes that are in no name. */
  predicate NoNameByte(d: Byte) {
    d < 0x80 && !IsLetter(d) && !(0x30 <= d <= 0x39) && d !in {0x2D, 0x2E, 0x3A, 0x5F}
  }

  lemma NameIsFree(e: Encoding, b: Text, p: nat, cs: Chars, d: Byte)
    requires AsciiTable(e) && Whole(e, b) && Has(b, p, Flat(cs)) && NoNameByte(d)
    requires forall k: nat :: k < |cs| ==> IsNameChar(e, cs[k], true) || IsEndChar(e, cs[k])
    ensures d !in Flat(cs)
  {
    hide AsciiTable, Whole, Has, IsApart;
    forall k: nat | k < |cs| ensures cs[k] != [] && |cs[k]| == Width(e.typeOf(cs[k][0])) && cs[k] != [d] {
      ColonWidth(e);
    }
    CharsAreApart(e, b, p, cs);
    NotAmong(cs, d);
  }

  lemma ColonWidth(e: Encoding)
    requires AsciiTable(e)
    ensures Width(e.typeOf(0x3A)) == 1
  {
    hide AsciiTable;
    NameClasses(e, 0x3A);
  }

  lemma IsNameMeans(e: Encoding, cs: Chars)
    requires IsName(e, cs)
    ensures forall k: nat :: k < |cs| ==> IsNameChar(e, cs[k], true) || IsEndChar(e, cs[k])
  {
    forall k: nat | k < |cs| ensures IsNameChar(e, cs[k], true) || IsEndChar(e, cs[k]) {
      if k > 0 {
        assert cs[k] == cs[1..][k - 1];
      }
    }
  }

  lemma QNameIsFree(e: Encoding, b: Text, p: nat, n: QName, d: Byte)
    requires AsciiTable(e) && Whole(e, b) && IsQName(e, n) && Has(b, p, PrintQName(n)) && NoNameByte(d)
    ensures d !in PrintQName(n) && PrintQName(n) != []
  {
    hide AsciiTable, Whole, Has, IsName, Flat;
    IsNameMeans(e, n.local);
    SomeName(e, n.local);
    if n.prefix == [] {
      assert PrintQName(n) == Flat(n.local);
      NameIsFree(e, b, p, n.local, d);
    } else {
      IsNameMeans(e, n.prefix);
      HasSplit(b, p, Flat(n.prefix) + [0x3A], Flat(n.local));
      HasSplit(b, p, Flat(n.prefix), [0x3A]);
      NameIsFree(e, b, p, n.prefix, d);
      NameIsFree(e, b, p + |Flat(n.prefix)| + 1, n.local, d);
    }
  }

  lemma SomeName(e: Encoding, cs: Chars)
    requires IsName(e, cs)
    ensures Flat(cs) != []
  {
  }

  /** The markup that a token is, and its kind. */
  lemma MarkupOf(e: Encoding, b: Text, p: nat) returns (m: Markup)
    requires AsciiTable(e) && p <= |b|
    requires var r := XmlChunks.ContentTok(e, b, p); r.Tok? && IsMarkupToken(r.tok)
    ensures IsMarkup(e, m) && Has(b, p, Print(m))
    ensures var r := XmlChunks.ContentTok(e, b, p);
            && r.tok == TokenOf(m) && r.next == p + |Print(m)|
            && (IsTag(r.tok) <==> m.Element?) && (r.tok == EndTag <==> m.EndTagOf?) && (r.tok == Comment <==> m.Remark?)
            && (r.tok == Pi || r.tok == XmlDecl <==> m.Instruction?)
            && (r.tok == EntityRef || r.tok == CharRef <==> m.Refers?)
  {
    hide AsciiTable, Run, Has;
    m := TokenIsMarkup(e, b, p);
    FirstBytes(e, m);
  }

  /* ----- tags ----- */

  predicate IsQuote(c: Byte) {
    c == 0x22 || c == 0x27
  }

  lemma AttrEnds(e: Encoding, a: Attr)
    requires IsAttr(e, a)
    ensures PrintAttr(a) != [] && IsQuote(PrintAttr(a)[|PrintAttr(a)| - 1])
  {
    hide PrintQName, PrintItems, IsQName, AreItems;
    var t := PrintItems(a.value) + [a.quote];
    assert PrintAttr(a) == (a.space + PrintQName(a.name) + a.before + [0x3D] + a.behind + [a.quote]) + t;
  }

  /** The last bytes of a tag, and its quotes. */
  lemma {:induction false} TailEnds(e: Encoding, t: Tail)
    requires IsTail(e, t)
    ensures var s := PrintTail(t);
            && s != [] && s[|s| - 1] == 0x3E
            && (|s| >= 2 ==> (t.empty <==> s[|s| - 2] == 0x2F)) && (|s| == 1 ==> !t.empty)
            && (t.atts != [] <==> exists k: nat :: k < |s| && IsQuote(s[k]))
    decreases |t.atts|
  {
    hide PrintAttr, IsAttr;
    var s := PrintTail(t);
    if t.atts == [] {
      assert s == t.space + if t.empty then [0x2F, 0x3E] else [0x3E];
    } else {
      var first, rest := PrintAttr(t.atts[0]), PrintTail(t.(atts := t.atts[1..]));
      AttrEnds(e, t.atts[0]);
      TailEnds(e, t.(atts := t.atts[1..]));
      assert s == first + rest;
      assert IsQuote(s[|first| - 1]);
    }
  }

  /** A tag ends in a greater-than sign; it is an empty element iff a slash is before that, and
      has attributes iff a quote is in it. */
  lemma TagShape(e: Encoding, b: Text, p: nat)
    requires AsciiTable(e) && Whole(e, b) && p <= |b|
    requires var r := XmlChunks.ContentTok(e, b, p); r.Tok? && IsTag(r.tok)
    ensures var r := XmlChunks.ContentTok(e, b, p);
            && p + 2 < r.next <= |b| && b[r.next - 1] == 0x3E
            && (r.tok in {EmptyElementNoAtts, EmptyElementWithAtts} <==> b[r.next - 2] == 0x2F)
            && (r.tok in {StartTagWithAtts, EmptyElementWithAtts} <==>
                exists k: nat :: p <= k < r.next && IsQuote(b[k]))
  {
    hide AsciiTable, Whole, Run, Has, IsQuote, XmlChunks.ContentTok, Print;
    var m := MarkupOf(e, b, p);
    ElementShape(e, b, p, m.name, m.tail);
  }

  lemma ElementShape(e: Encoding, b: Text, p: nat, name: QName, t: Tail)
    requires AsciiTable(e) && Whole(e, b) && IsQName(e, name) && IsTail(e, t) && Has(b, p, Print(Element(name, t)))
    ensures var q := p + |Print(Element(name, t))|;
            && p + 2 < q <= |b| && b[q - 1] == 0x3E
            && (t.empty <==> b[q - 2] == 0x2F)
            && (t.atts != [] <==> exists k: nat :: p <= k < q && IsQuote(b[k]))
  {
    hide AsciiTable, Whole, Has, PrintQName, PrintTail, IsQName, IsTail;
    var n, s := PrintQName(name), PrintTail(t);
    var text := [0x3C] + (n + s);
    HasSplit(b, p, [0x3C], n + s);
    HasSplit(b, p + 1, n, s);
    QNameIsFree(e, b, p + 1, name, 0x2F);
    QNameIsFree(e, b, p + 1, name, 0x22);
    QNameIsFree(e, b, p + 1, name, 0x27);
    TailEnds(e, t);
    ElementBytes(b, p, n, s);
    if t.atts != [] {
      var k: nat :| k < |s| && IsQuote(s[k]);
      HasAt(b, p + 1 + |n|, s, k);
      assert IsQuote(b[p + 1 + |n| + k]);
    } else {
      forall k: nat | p <= k < p + |text| ensures !IsQuote(b[k]) {
        if k > p + |n| {
          assert b[k] == s[k - p - 1 - |n|];
        }
      }
    }
  }

  lemma ElementBytes(b: Text, p: nat, n: Text, s: Text)
    requires Has(b, p, [0x3C]) && Has(b, p + 1, n) && Has(b, p + 1 + |n|, s) && n != [] && s != []
    requires !IsQuote(0x3C) && 0x22 !in n && 0x27 !in n && 0x2F !in n
    ensures var q := p + 1 + |n| + |s|;
            && q <= |b| && b[q - 1] == s[|s| - 1]
            && (|s| >= 2 ==> b[q - 2] == s[|s| - 2]) && (|s| == 1 ==> b[q - 2] != 0x2F)
            && !IsQuote(b[p]) && (forall k: nat :: p < k <= p + |n| ==> !IsQuote(b[k]))
            && forall k: nat :: p + |n| < k < q ==> b[k] == s[k - p - 1 - |n|]
  {
    HasByte(b, p, 0x3C);
    var u := p + 1 + |n|;
    assert forall k: nat :: p < k < u ==> b[k] == b[p + 1..u][k - p - 1];
    assert forall k: nat :: u <= k < u + |s| ==> b[k] == b[u..u + |s|][k - u];
  }

  /* ----- end tags, references, comments, processing instructions ----- */

  /** An end tag and a reference end at the first greater-than sign and semicolon. */
  lemma EndsAtMark(e: Encoding, b: Text, p: nat)
    requires AsciiTable(e) && Whole(e, b) && p <= |b|
    requires var r := XmlChunks.ContentTok(e, b, p); r.Tok? && r.tok in {EndTag, EntityRef, CharRef}
    ensures var r := XmlChunks.ContentTok(e, b, p);
            var mark := if r.tok == EndTag then 0x3E else 0x3B;
            && p < r.next <= |b| && b[r.next - 1] == mark && forall k: nat :: p <= k < r.next - 1 ==> b[k] != mark
  {
    hide AsciiTable, Whole, Run, Has, XmlChunks.ContentTok, IsMarkup, Print, TokenOf;
    var m := MarkupOf(e, b, p);
    MarkIsLast(e, b, p, m);
  }

  lemma MarkIsLast(e: Encoding, b: Text, p: nat, m: Markup)
    requires AsciiTable(e) && Whole(e, b) && IsMarkup(e, m) && (m.EndTagOf? || m.Refers?) && Has(b, p, Print(m))
    ensures var q, mark := p + |Print(m)|, if m.EndTagOf? then 0x3E else 0x3B;
            && p < q <= |b| && b[q - 1] == mark && forall k: nat :: p <= k < q - 1 ==> b[k] != mark
  {
    hide AsciiTable, Whole, Has, IsMarkup, Print;
    var init := MarkedBy(e, b, p, m);
    HasAllButLast(b, p, init, if m.EndTagOf? then 0x3E else 0x3B);
  }

  lemma HasAllButLast(b: Text, p: nat, init: Text, mark: Byte)
    requires Has(b, p, init + [mark]) && mark !in init
    ensures var q := p + |init| + 1; q <= |b| && b[q - 1] == mark && forall k: nat :: p <= k < q - 1 ==> b[k] != mark
  {
    var t := init + [mark];
    assert forall k: nat :: p <= k < p + |t| ==> b[k] == b[p..p + |t|][k - p];
  }

  lemma MarkedBy(e: Encoding, b: Text, p: nat, m: Markup) returns (init: Text)
    requires AsciiTable(e) && Whole(e, b) && IsMarkup(e, m) && (m.EndTagOf? || m.Refers?) && Has(b, p, Print(m))
    ensures var mark := if m.EndTagOf? then 0x3E else 0x3B;
            Print(m) == init + [mark] && mark !in init
  {
    hide AsciiTable, Whole, Has, Flat, IsNameChar;
    match m {
      case EndTagOf(name, space) =>
        init := [0x3C, 0x2F] + Flat(name) + space;
        assert Print(m) == init + [0x3E];
        HasSplit(b, p, [0x3C, 0x2F], Flat(name) + (space + [0x3E]));
        HasSplit(b, p + 2, Flat(name), space + [0x3E]);
        NameIsFree(e, b, p + 2, name, 0x3E);
      case Refers(r) =>
        match r {
          case Named(name) =>
            init := [0x26] + Flat(name);
            assert Print(m) == init + [0x3B];
            HasSplit(b, p, [0x26], Flat(name) + [0x3B]);
            HasSplit(b, p + 1, Flat(name), [0x3B]);
            IsNameMeans(e, name);
            NameIsFree(e, b, p + 1, name, 0x3B);
          case Decimal(ds) =>
            init := [0x26, 0x23] + ds;
            assert Print(m) == init + [0x3B];
          case Hexadecimal(ds) =>
            init := [0x26, 0x23, 0x78] + ds;
            assert Print(m) == init + [0x3B];
        }
    }
  }

  lemma AnyAreApart(e: Encoding, b: Text, p: nat, cs: Chars)
    requires AsciiTable(e) && Whole(e, b) && AnyChars(e, cs) && Has(b, p, Flat(cs))
    ensures AllApart(cs)
  {
    hide AsciiTable, Whole, Has, IsApart;
    CharsAreApart(e, b, p, cs);
  }

  /** A comment ends at the first two dashes, and a greater-than sign is behind them. */
  lemma CommentShape(e: Encoding, b: Text, p: nat)
    requires AsciiTable(e) && Whole(e, b) && p <= |b|
    requires var r := XmlChunks.ContentTok(e, b, p); r.Tok? && r.tok == Comment
    ensures var q := XmlChunks.ContentTok(e, b, p).next;
            && p + 7 <= q <= |b| && b[q - 3] == 0x2D && b[q - 2] == 0x2D && b[q - 1] == 0x3E
            && forall k: nat :: p + 4 <= k < q - 3 ==> !(b[k] == 0x2D && b[k + 1] == 0x2D)
  {
    hide AsciiTable, Whole, Run, Has, XmlChunks.ContentTok, IsMarkup, Print;
    var m := MarkupOf(e, b, p);
    CommentEndsFirst(e, b, p, m.body);
  }

  lemma CommentEndsFirst(e: Encoding, b: Text, p: nat, body: Chars)
    requires AsciiTable(e) && Whole(e, b) && IsMarkup(e, Remark(body)) && Has(b, p, Print(Remark(body)))
    ensures var q := p + |Print(Remark(body))|;
            && p + 7 <= q <= |b| && b[q - 3] == 0x2D && b[q - 2] == 0x2D && b[q - 1] == 0x3E
            && forall k: nat :: p + 4 <= k < q - 3 ==> !(b[k] == 0x2D && b[k + 1] == 0x2D)
  {
    hide AsciiTable, Whole, Has, IsAnyChar, Flat;
    var head: Text, text, tail: Text := [0x3C, 0x21, 0x2D, 0x2D], Flat(body), [0x2D, 0x2D, 0x3E];
    HasSplit(b, p, head, text + tail);
    HasSplit(b, p + 4, text, tail);
    AnyAreApart(e, b, p + 4, body);
    HasThree(b, p + 4 + |text|, 0x2D, 0x2D, 0x3E);
    forall k: nat | p + 4 <= k < p + 4 + |text| ensures !(b[k] == 0x2D && b[k + 1] == 0x2D) {
      HasAt(b, p + 4, text, k - p - 4);
      if k + 1 < p + 4 + |text| {
        HasAt(b, p + 4, text, k + 1 - p - 4);
        NeverTogether(body, 0x2D, 0x2D, k - p - 4);
      } else if b[k] == 0x2D {
        FlatLast(body, 0x2D);
      }
    }
  }

  /** A processing instruction ends at the first question mark with a greater-than sign behind
      it, and is an XML declaration iff its target is `xml`. */
  lemma InstructionShape(e: Encoding, b: Text, p: nat)
    requires AsciiTable(e) && Whole(e, b) && p <= |b|
    requires var r := XmlChunks.ContentTok(e, b, p); r.Tok? && (r.tok == Pi || r.tok == XmlDecl)
    ensures var r := XmlChunks.ContentTok(e, b, p);
            var q := r.next;
            && p + 5 <= q <= |b| && b[q - 2] == 0x3F && b[q - 1] == 0x3E
            && (forall k: nat :: p + 2 <= k < q - 2 ==> !(b[k] == 0x3F && b[k + 1] == 0x3E))
            && (r.tok == XmlDecl <==>
                  Has(b, p + 2, [0x78, 0x6D, 0x6C]) && p + 5 < |b| && (b[p + 5] == 0x3F || IsSpaceByte(b[p + 5])))
  {
    hide AsciiTable, Whole, Run, Has, XmlChunks.ContentTok, IsMarkup, Print, IsSpaceByte, Flat;
    var m := MarkupOf(e, b, p);
    InstructionEnds(e, b, p, m.target, m.content);
  }

  lemma InstructionEnds(e: Encoding, b: Text, p: nat, target: Chars, content: Chars)
    requires AsciiTable(e) && Whole(e, b) && IsMarkup(e, Instruction(target, content))
    requires Has(b, p, Print(Instruction(target, content)))
    ensures var q := p + |Print(Instruction(target, content))|;
            && p + 5 <= q <= |b| && b[q - 2] == 0x3F && b[q - 1] == 0x3E
            && (forall k: nat :: p + 2 <= k < q - 2 ==> !(b[k] == 0x3F && b[k + 1] == 0x3E))
            && (Flat(target) == [0x78, 0x6D, 0x6C] <==>
                  Has(b, p + 2, [0x78, 0x6D, 0x6C]) && p + 5 < |b| && (b[p + 5] == 0x3F || IsSpaceByte(b[p + 5])))
  {
    hide AsciiTable, Whole, Has, Flat, IsName, IsTarget, IsSpaceByte, AnyChars, Never;
    InstructionParts(b, p, Flat(target), Flat(content));
    EarlierBytes(e, b, p + 2, target, content);
    BehindTarget(b, p + 2 + |Flat(target)|, content);
    TargetTells(e, b, p + 2, target);
    SomeName(e, target);
  }

  lemma EarlierBytes(e: Encoding, b: Text, p: nat, target: Chars, content: Chars)
    requires AsciiTable(e) && Whole(e, b) && IsName(e, target) && AnyChars(e, content) && Never(content, 0x3F, 0x3E)
    requires Has(b, p, Flat(target)) && Has(b, p + |Flat(target)|, Flat(content))
    requires var q := p + |Flat(target)| + |Flat(content)|; q < |b| && b[q] == 0x3F
    ensures forall k: nat :: p <= k < p + |Flat(target)| + |Flat(content)| ==> !(b[k] == 0x3F && b[k + 1] == 0x3E)
  {
    hide AsciiTable, Whole, Has, Flat, IsName, IsNameChar, IsEndChar, AnyChars, Never;
    IsNameMeans(e, target);
    NameIsFree(e, b, p, target, 0x3F);
    AnyAreApart(e, b, p + |Flat(target)|, content);
    NoEarlierEnd(b, p, Flat(target), content);
  }

  lemma InstructionParts(b: Text, p: nat, name: Text, text: Text)
    requires Has(b, p, [0x3C, 0x3F] + (name + (text + [0x3F, 0x3E])))
    ensures var n := p + 2 + |name|;
            var q := n + |text|;
            Has(b, p + 2, name) && Has(b, n, text) && q + 2 <= |b| && b[q] == 0x3F && b[q + 1] == 0x3E
  {
    hide Has;
    var n := p + 2 + |name|;
    HasSplit(b, p, [0x3C, 0x3F], name + (text + [0x3F, 0x3E]));
    HasSplit(b, p + 2, name, text + [0x3F, 0x3E]);
    HasSplit(b, n, text, [0x3F, 0x3E]);
    HasAt(b, n + |text|, [0x3F, 0x3E], 0);
    HasAt(b, n + |text|, [0x3F, 0x3E], 1);
  }

  lemma NoEarlierEnd(b: Text, p: nat, target: Text, content: Chars)
    requires Has(b, p, target) && Has(b, p + |target|, Flat(content)) && 0x3F !in target
    requires AllApart(content) && Never(content, 0x3F, 0x3E)
    requires var q := p + |target| + |Flat(content)|; q < |b| && b[q] == 0x3F
    ensures forall k: nat :: p <= k < p + |target| + |Flat(content)| ==> !(b[k] == 0x3F && b[k + 1] == 0x3E)
  {
    hide Has, Flat, IsApart;
    var text := Flat(content);
    var n := p + |target|;
    forall k: nat | p <= k < n + |text| ensures !(b[k] == 0x3F && b[k + 1] == 0x3E) {
      if k < n {
        HasAt(b, p, target, k - p);
      } else if k + 1 < n + |text| {
        HasAt(b, n, text, k - n);
        HasAt(b, n, text, k + 1 - n);
        NeverTogether(content, 0x3F, 0x3E, k - n);
      }
    }
  }

  lemma BehindTarget(b: Text, n: nat, content: Chars)
    requires Has(b, n, Flat(content)) && n + |Flat(content)| < |b| && b[n + |Flat(content)|] == 0x3F
    requires content != [] ==> |content[0]| == 1 && IsSpaceByte(content[0][0])
    ensures n < |b| && (b[n] == 0x3F || IsSpaceByte(b[n]))
  {
    hide IsSpaceByte;
    if content != [] {
      HasAt(b, n, Flat(content), 0);
    }
  }

  lemma TargetTells(e: Encoding, b: Text, p: nat, target: Chars)
    requires AsciiTable(e) && Whole(e, b) && IsName(e, target) && Has(b, p, Flat(target))
    requires var n := p + |Flat(target)|; n < |b| && (b[n] == 0x3F || IsSpaceByte(b[n]))
    ensures Flat(target) == [0x78, 0x6D, 0x6C] <==>
            Has(b, p, [0x78, 0x6D, 0x6C]) && p + 3 < |b| && (b[p + 3] == 0x3F || IsSpaceByte(b[p + 3]))
  {
    hide AsciiTable, Whole, IsName, Flat;
    var t := Flat(target);
    IsNameMeans(e, target);
    if Has(b, p, [0x78, 0x6D, 0x6C]) && p + 3 < |b| && (b[p + 3] == 0x3F || IsSpaceByte(b[p + 3])) {
      HasThree(b, p, 0x78, 0x6D, 0x6C);
      NameIsFree(e, b, p, target, b[p + 3]);
      if |t| > 3 {
        HasAt(b, p, t, 3);
      }
      SomeName(e, target);
      assert |t| == 3;
      HasAt(b, p, t, 0);
      HasAt(b, p, t, 1);
      HasAt(b, p, t, 2);
    }
  }

  /* ----- line ends and character data ----- */

  lemma LessIsMarkup(e: Encoding, b: Text, p: nat)
    requires AsciiTable(e) && p < |b| && (b[p] == 0x3C || b[p] == 0x26) && Run(e, b, p, AtStart).Tok?
    ensures IsMarkupToken(Run(e, b, p, AtStart).tok)
  {
    hide AsciiTable, Run, Has, IsReference, PrintReference;
    MarkupBegins(e, b, p);
    var m: Markup;
    if b[p] == 0x3C {
      m := LessFrom(e, b, p);
    } else {
      var r := ReferenceFrom(e, b, p + 1, InContent);
      HasByte(b, p, 0x26);
      HasSplit(b, p, [0x26], PrintReference(r));
      m := Refers(r);
    }
    MarkupIsRead(e, b, p, m);
    FirstBytes(e, m);
  }

  /** The class of a carriage return in a document. */
  lemma LineEndBytes(e: Encoding, c: Byte)
    requires AsciiTable(e) && e.typeOf(0x0D) == Cr
    ensures e.typeOf(c) == Lf <==> c == 0x0A
    ensures e.typeOf(c) == Cr <==> c == 0x0D
  {
    hide AsciiTable;
    TableEntry(e, c);
  }

  /** A line end is a line feed, or a carriage return with the line feed behind it if there is
      one (XML 1.0, section 2.11). */
  lemma NewlineIff(e: Encoding, b: Text, p: nat, q: nat)
    requires AsciiTable(e) && e.typeOf(0x0D) == Cr && p <= |b|
    ensures XmlChunks.ContentTok(e, b, p) == Tok(DataNewline, q) <==>
            && p < |b|
            && ((b[p] == 0x0A && q == p + 1)
                || (b[p] == 0x0D && p + 1 < |b| && q == if b[p + 1] == 0x0A then p + 2 else p + 1))
  {
    hide AsciiTable, Run, AnyLook;
    if p == |b| {
      RunText(e, b, p, AtStart);
    } else {
      Punctuation(e, b[p]);
      LineEndBytes(e, b[p]);
      EndsAreNoTokens(e, b, p);
      RunStart(e, b, p);
      if b[p] == 0x3C || b[p] == 0x26 {
        if Run(e, b, p, AtStart).Tok? {
          LessIsMarkup(e, b, p);
        }
      } else if b[p] == 0x0D {
        RunText(e, b, p + 1, AfterCr);
        if p + 1 < |b| {
          LineEndBytes(e, b[p + 1]);
        }
      } else if b[p] == 0x5D {
        BracketIsText(e, b, p + 1);
      } else if b[p] != 0x0A && AnyLook(e, b, p).Past? {
        XmlChunks.DataEnds(e, b, AnyLook(e, b, p).next);
      }
    }
  }

  /** `]]>` */
  predicate SectionEndAt(b: Text, k: nat) {
    k + 3 <= |b| && b[k] == 0x5D && b[k + 1] == 0x5D && b[k + 2] == 0x3E
  }

  /** Bytes that are no data. */
  predicate Special(c: Byte) {
    c in {0x3C, 0x26, 0x0A, 0x0D}
  }

  /** One step of the data loop. */
  lemma DataStep(e: Encoding, b: Text, p: nat)
    requires AsciiTable(e) && e.typeOf(0x0D) == Cr && Whole(e, b) && p < |b|
    ensures var s, n := TextStep(e, b, p, InData), Width(e.typeOf(b[p]));
            && (s.To? ==> s == To(p + n, InData) && p + n <= |b| && !SectionEndAt(b, p))
            && (s.To? ==> forall k: nat :: p <= k < p + n ==> !Special(b[k]) && (k > p ==> b[k] != 0x5D))
            && (s.Stop? && s.result.Tok? ==>
                  s.result == Tok(DataChars, p) && (Special(b[p]) || b[p] == 0x5D || AnyLook(e, b, p).End?))
            && (s.Stop? && !s.result.Tok? ==> SectionEndAt(b, p) && s.result == Invalid(p + 2))
  {
    Punctuation(e, b[p]);
    LineEndBytes(e, b[p]);
    NameClasses(e, b[p]);
    hide AsciiTable;
  }

  lemma {:induction false} DataHas(e: Encoding, b: Text, p: nat)
    requires AsciiTable(e) && e.typeOf(0x0D) == Cr && Whole(e, b) && p <= |b| && Run(e, b, p, InData).Tok?
    ensures var r := Run(e, b, p, InData);
            && p <= r.next <= |b| && r.tok == DataChars
            && (forall k: nat :: p <= k < r.next ==> !Special(b[k]) && !SectionEndAt(b, k))
            && (r.next < |b| ==> Special(b[r.next]) || b[r.next] == 0x5D || AnyLook(e, b, r.next).End?)
    decreases |b| - p
  {
    hide AsciiTable, Run, AnyLook, TextStep, Whole, Special;
    RunText(e, b, p, InData);
    if p < |b| {
      DataStep(e, b, p);
      var s := TextStep(e, b, p, InData);
      if s.To? {
        DataHas(e, b, s.next);
      }
    }
  }

  /** Character data is made of neither markup nor line ends nor the end of a CDATA section, and
      it ends only before one of these, before a bracket, at something that is no character or
      at the end of the buffer ([14]). */
  lemma DataShape(e: Encoding, b: Text, p: nat)
    requires AsciiTable(e) && e.typeOf(0x0D) == Cr && Whole(e, b) && p <= |b|
    requires var r := XmlChunks.ContentTok(e, b, p); r.Tok? && r.tok == DataChars
    ensures var q := XmlChunks.ContentTok(e, b, p).next;
            && p < q <= |b| && (forall k: nat :: p <= k < q ==> !Special(b[k]) && !SectionEndAt(b, k))
            && (q < |b| ==> Special(b[q]) || b[q] == 0x5D || AnyLook(e, b, q).End?)
  {
    hide AsciiTable, Run, AnyLook, Whole, Special, SectionEndAt;
    var s := DataBegins(e, b, p);
    DataHas(e, b, s);
  }

  /** The first character of data, behind which the data loop begins. */
  lemma DataBegins(e: Encoding, b: Text, p: nat) returns (s: nat)
    requires AsciiTable(e) && e.typeOf(0x0D) == Cr && Whole(e, b) && p <= |b|
    requires Run(e, b, p, AtStart).Tok? && Run(e, b, p, AtStart).tok == DataChars
    ensures p < s <= |b| && Run(e, b, p, AtStart) == Run(e, b, s, InData)
    ensures forall k: nat :: p <= k < s ==> !Special(b[k]) && !SectionEndAt(b, k)
  {
    hide AsciiTable, Run, AnyLook, TextStep, Whole, SectionEndAt;
    NotNewline(e, b, p);
    NoMarkupInData(e, b, p);
    if b[p] == 0x5D {
      BracketBegins(e, b, p);
      BracketStep(e, b, p);
      s := p + 1;
    } else {
      PlainBegins(e, b, p);
      FirstChar(e, b, p);
      s := AnyLook(e, b, p).next;
    }
  }

  lemma BracketBegins(e: Encoding, b: Text, p: nat)
    requires AsciiTable(e) && p < |b| && b[p] == 0x5D
    ensures Run(e, b, p, AtStart) == Run(e, b, p + 1, AfterRsqb)
  {
    hide AsciiTable, Run, AnyLook;
    Punctuation(e, b[p]);
    RunStart(e, b, p);
  }

  lemma PlainBegins(e: Encoding, b: Text, p: nat)
    requires AsciiTable(e) && e.typeOf(0x0D) == Cr && p < |b| && Run(e, b, p, AtStart).Tok?
    requires !Special(b[p]) && b[p] != 0x5D
    ensures AnyLook(e, b, p).Past? && Run(e, b, p, AtStart) == Run(e, b, AnyLook(e, b, p).next, InData)
  {
    hide AsciiTable, Run, AnyLook;
    Punctuation(e, b[p]);
    LineEndBytes(e, b[p]);
    RunStart(e, b, p);
    EndsAreNoTokens(e, b, p);
  }

  lemma NotNewline(e: Encoding, b: Text, p: nat)
    requires AsciiTable(e) && e.typeOf(0x0D) == Cr && p <= |b|
    requires Run(e, b, p, AtStart).Tok? && Run(e, b, p, AtStart).tok == DataChars
    ensures p < |b| && b[p] != 0x0A && b[p] != 0x0D
  {
    hide AsciiTable, Run, AnyLook, TextStep;
    if p == |b| {
      RunText(e, b, p, AtStart);
    } else {
      LineEndBytes(e, b[p]);
      RunStart(e, b, p);
      RunText(e, b, p + 1, AfterCr);
      if p + 1 < |b| {
        AfterCrIsNewline(e, b, p + 1);
      }
    }
  }

  lemma AfterCrIsNewline(e: Encoding, b: Text, p: nat)
    requires p < |b|
    ensures var s := TextStep(e, b, p, AfterCr); s.Stop? && s.result.Tok? && s.result.tok == DataNewline
  {
  }

  lemma NoMarkupInData(e: Encoding, b: Text, p: nat)
    requires AsciiTable(e) && p < |b| && Run(e, b, p, AtStart).Tok? && Run(e, b, p, AtStart).tok == DataChars
    ensures b[p] != 0x3C && b[p] != 0x26
  {
    hide AsciiTable, Run;
    if b[p] == 0x3C || b[p] == 0x26 {
      LessIsMarkup(e, b, p);
    }
  }

  /** A bracket with which a token begins. */
  lemma BracketStep(e: Encoding, b: Text, p: nat)
    requires AsciiTable(e) && p < |b| && b[p] == 0x5D && Run(e, b, p + 1, AfterRsqb).Tok?
    ensures !SectionEndAt(b, p) && Run(e, b, p + 1, AfterRsqb) == Run(e, b, p + 1, InData)
  {
    hide AsciiTable, Run, AnyLook;
    RunText(e, b, p + 1, AfterRsqb);
  }

  lemma FirstChar(e: Encoding, b: Text, p: nat)
    requires AsciiTable(e) && e.typeOf(0x0D) == Cr && Whole(e, b) && p < |b| && AnyLook(e, b, p).Past?
    requires !Special(b[p]) && b[p] != 0x5D
    ensures var q := AnyLook(e, b, p).next; forall k: nat :: p <= k < q ==> !Special(b[k]) && !SectionEndAt(b, k)
  {
    AnyLookIs(e, b, p);
    hide AsciiTable;
  }

  /* ----- data is found ----- */

  predicate AllPlain(cs: Chars) {
    forall k: nat :: k < |cs| ==> cs[k] != [] && !Special(cs[k][0])
  }

  lemma AnyCharsTail(e: Encoding, cs: Chars)
    requires AnyChars(e, cs) && AllPlain(cs) && cs != []
    ensures IsAnyChar(e, cs[0]) && AnyChars(e, cs[1..]) && AllPlain(cs[1..])
  {
    hide IsAnyChar;
  }

  lemma DataCharOn(e: Encoding, b: Text, p: nat, c: Text)
    requires AsciiTable(e) && e.typeOf(0x0D) == Cr && IsAnyChar(e, c) && !Special(c[0]) && Has(b, p, c)
    requires c == [0x5D] ==> p + 1 < |b| && !SectionEndAt(b, p) && (b[p + 1] == 0x5D ==> p + 2 < |b|)
    ensures p + |c| <= |b| && Run(e, b, p, InData) == Run(e, b, p + |c|, InData)
    ensures c[0] != 0x5D ==> Run(e, b, p, AtStart) == Run(e, b, p + |c|, InData)
    ensures c[0] == 0x5D ==> Run(e, b, p, AtStart) == Run(e, b, p + 1, InData)
  {
    hide AsciiTable, Run;
    HasChar(e, b, p, c);
    Punctuation(e, b[p]);
    LineEndBytes(e, b[p]);
    NameClasses(e, b[p]);
    AnyLookIs(e, b, p);
    RunText(e, b, p, InData);
    RunStart(e, b, p);
    if c[0] == 0x5D {
      assert c == [0x5D];
      RunText(e, b, p + 1, AfterRsqb);
    }
  }

  /** Where data has to end: at markup or a line end. */
  lemma DataEndsAt(e: Encoding, b: Text, p: nat)
    requires AsciiTable(e) && e.typeOf(0x0D) == Cr && p < |b| && Special(b[p])
    ensures Run(e, b, p, InData) == Tok(DataChars, p)
  {
    hide AsciiTable, Run;
    Punctuation(e, b[p]);
    LineEndBytes(e, b[p]);
    NameClasses(e, b[p]);
    RunText(e, b, p, InData);
  }

  lemma {:induction false} DataGoesOn(e: Encoding, b: Text, p: nat, cs: Chars)
    requires AsciiTable(e) && e.typeOf(0x0D) == Cr && AnyChars(e, cs) && AllPlain(cs) && Has(b, p, Flat(cs))
    requires var q := p + |Flat(cs)|; q < |b| && Special(b[q]) && forall k: nat :: p <= k < q ==> !SectionEndAt(b, k)
    ensures Run(e, b, p, InData) == Tok(DataChars, p + |Flat(cs)|)
    decreases |cs|
  {
    hide AsciiTable, Run, Has, IsAnyChar, SectionEndAt, AnyChars, AllPlain;
    if cs == [] {
      DataEndsAt(e, b, p);
    } else {
      HasSplit(b, p, cs[0], Flat(cs[1..]));
      AnyCharsTail(e, cs);
      PlainFirst(cs);
      RoomBehind(b, p, cs);
      DataCharOn(e, b, p, cs[0]);
      AnyCharSize(e, cs[0]);
      DataGoesOn(e, b, p + |cs[0]|, cs[1..]);
    }
  }

  lemma PlainFirst(cs: Chars)
    requires AllPlain(cs) && cs != []
    ensures cs[0] != [] && !Special(cs[0][0])
  {
  }

  /** A bracket in front of what ends the data. */
  lemma RoomBehind(b: Text, p: nat, cs: Chars)
    requires cs != [] && Has(b, p, Flat(cs)) && p + |Flat(cs)| < |b| && Special(b[p + |Flat(cs)|])
    ensures cs[0] == [0x5D] ==> p + 1 < |b| && (b[p + 1] == 0x5D ==> p + 2 < |b|)
  {
  }

  /** Characters without markup, line ends and the end of a CDATA section, up to markup or a line
      end, are one token of data. */
  lemma DataIsRead(e: Encoding, b: Text, p: nat, cs: Chars)
    requires AsciiTable(e) && e.typeOf(0x0D) == Cr && cs != [] && AnyChars(e, cs) && AllPlain(cs) && Has(b, p, Flat(cs))
    requires var q := p + |Flat(cs)|; q < |b| && Special(b[q]) && forall k: nat :: p <= k < q ==> !SectionEndAt(b, k)
    ensures XmlChunks.ContentTok(e, b, p) == Tok(DataChars, p + |Flat(cs)|)
  {
    hide AsciiTable, Run, Has, IsAnyChar, SectionEndAt, AnyChars, AllPlain;
    HasSplit(b, p, cs[0], Flat(cs[1..]));
    AnyCharsTail(e, cs);
    PlainFirst(cs);
    RoomBehind(b, p, cs);
    AnyCharSize(e, cs[0]);
    OneByteChar(e, cs[0], 0x5D);
    DataCharOn(e, b, p, cs[0]);
    DataGoesOn(e, b, p + |cs[0]|, cs[1..]);
  }
}
