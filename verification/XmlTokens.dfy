/**
 All tokens are markup of the grammar: whatever the tokenizer finds in content, but for data
 and line ends, is a tag, a comment, a processing instruction, a reference or the start of a
 CDATA section by the productions of XML 1.0.
 */
module XmlTokens {
  import opened XmlTok
  import opened XmlScan
  import opened XmlRef
  import opened XmlGrammar
  import opened XmlReads
  import XmlChunks

  /* ----- names ----- */

  lemma FlatCons(c: Text, cs: Chars)
    ensures Flat([c] + cs) == c + Flat(cs)
  {
    assert ([c] + cs)[1..] == cs;
  }

  /** The characters of a name as far as they go. */
  lemma {:induction false} NameCharsFrom(e: Encoding, b: Text, p: nat, m: Mode) returns (cs: Chars, q: nat)
    requires AsciiTable(e) && Sane(b, p, m) && InName(m)
    ensures Sane(b, q, m) && p <= q == p + |Flat(cs)| && Has(b, p, Flat(cs)) && NameChars(e, cs)
    ensures Run(e, b, p, m) == Run(e, b, q, m)
    ensures q < |b| ==> !NameLook(e, b, q, false).Past?
    decreases |b| - p
  {
    hide AsciiTable, Run, NameLook, Has, IsNameChar, Width;
    cs, q := [], p;
    HasNothing(b, p);
    if p < |b| && NameLook(e, b, p, false).Past? {
      NameLookIs(e, b, p, false);
      var r := NameLook(e, b, p, false).next;
      var c := b[p..r];
      HasSlice(b, p, r);
      NameOn(e, b, p, m);
      var rest: Chars;
      rest, q := NameCharsFrom(e, b, r, m);
      FlatCons(c, rest);
      HasSplit(b, p, c, Flat(rest));
      cs := [c] + rest;
    }
  }

  lemma NameFrom(e: Encoding, b: Text, p: nat, m: Mode) returns (cs: Chars, q: nat)
    requires AsciiTable(e) && BeforeName(m) && p < |b| && NameLook(e, b, p, true).Past?
    ensures Sane(b, q, Begun(m, p)) && p <= q == p + |Flat(cs)| && Has(b, p, Flat(cs)) && IsName(e, cs)
    ensures Run(e, b, p, m) == Run(e, b, q, Begun(m, p))
    ensures q < |b| ==> !NameLook(e, b, q, false).Past?
  {
    hide AsciiTable, Run, NameLook, Has, IsNameChar, Width;
    NameLookIs(e, b, p, true);
    var r := NameLook(e, b, p, true).next;
    var c := b[p..r];
    HasSlice(b, p, r);
    NameBegins(e, b, p, m);
    var rest;
    rest, q := NameCharsFrom(e, b, r, Begun(m, p));
    FlatCons(c, rest);
    HasSplit(b, p, c, Flat(rest));
    cs := [c] + rest;
    assert cs[1..] == rest;
  }

  /** Behind a colon there is a name. */
  lemma NameBehindColon(e: Encoding, b: Text, p: nat, m: Mode)
    requires p <= |b| && (m.TagColon? || m.AttColon?) && Run(e, b, p, m).Tok?
    ensures p < |b| && NameLook(e, b, p, true).Past?
  {
    hide Run, NameLook;
    if p < |b| {
      EndsAreNoTokens(e, b, p);
    }
    if m.TagColon? {
      RunTag(e, b, p, m);
    } else {
      RunAtt(e, b, p, m);
    }
  }

  lemma EndsAreNoTokens(e: Encoding, b: Text, p: nat)
    requires p < |b|
    ensures NameLook(e, b, p, true).End? ==> !NameLook(e, b, p, true).result.Tok?
    ensures NameLook(e, b, p, false).End? ==> !NameLook(e, b, p, false).result.Tok?
    ensures AnyLook(e, b, p).End? ==> !AnyLook(e, b, p).result.Tok?
  {
  }

  /** A second colon is an error. */
  lemma NoSecondColon(e: Encoding, b: Text, p: nat, m: Mode)
    requires p < |b| && (m == TagName(true) || m == AttName(true)) && Run(e, b, p, m).Tok?
    requires !NameLook(e, b, p, false).Past?
    ensures e.typeOf(b[p]) != Colon
  {
    hide Run, NameLook;
    EndsAreNoTokens(e, b, p);
    if m.TagName? {
      RunTagName(e, b, p, true);
    } else {
      RunAttName(e, b, p, true);
    }
  }

  /** A token does not end in a name, but behind it. */
  lemma NotTheEnd(e: Encoding, b: Text, p: nat, m: Mode)
    requires Sane(b, p, m) && Run(e, b, p, m).Tok? && !IsTextMode(m)
    ensures p < |b|
  {
  }

  lemma QNameFrom(e: Encoding, b: Text, p: nat, m: Mode) returns (n: QName, q: nat)
    requires AsciiTable(e) && (m.AfterLt? || m.TagSpace? || m.BetweenAtts?) && p < |b| && NameLook(e, b, p, true).Past?
    requires Run(e, b, p, m).Tok?
    ensures p <= q < |b| && q == p + |PrintQName(n)| && Has(b, p, PrintQName(n)) && IsQName(e, n)
    ensures Run(e, b, p, m) == Run(e, b, q, InQName(m, n))
    ensures !NameLook(e, b, q, false).Past? && e.typeOf(b[q]) != Colon
  {
    hide AsciiTable, Run, NameLook, Has, IsName, Flat;
    var first;
    first, q := NameFrom(e, b, p, m);
    NotTheEnd(e, b, q, Begun(m, p));
    if e.typeOf(b[q]) == Colon {
      SpaceAndColon(e, b[q]);
      ColonOn(e, b, q, Begun(m, p));
      HasByte(b, q, 0x3A);
      HasSplit(b, p, Flat(first), [0x3A]);
      var colon := if m.AfterLt? then TagColon else AttColon;
      NameBehindColon(e, b, q + 1, colon);
      var at, second := q + 1, [];
      second, q := NameFrom(e, b, at, colon);
      HasSplit(b, p, Flat(first) + [0x3A], Flat(second));
      NotTheEnd(e, b, q, Begun(colon, at));
      NoSecondColon(e, b, q, Begun(colon, at));
      n := QName(first, second);
      NameIsSome(e, first);
    } else {
      n := QName([], first);
      assert [] + Flat(first) == Flat(first);
    }
  }

  lemma NameIsSome(e: Encoding, cs: Chars)
    requires IsName(e, cs)
    ensures cs != []
  {
  }

  /* ----- white space ----- */

  lemma {:induction false} SpaceFrom(e: Encoding, b: Text, p: nat, m: Mode) returns (s: Text, q: nat)
    requires AsciiTable(e) && p <= |b| && InSpace(m)
    ensures p <= q <= |b| && q == p + |s| && Has(b, p, s) && IsSpace(s)
    ensures Run(e, b, p, m) == Run(e, b, q, m)
    ensures q < |b| ==> !IsSpaceByte(b[q])
    decreases |b| - p
  {
    hide AsciiTable, Run, Has;
    s, q := [], p;
    HasNothing(b, p);
    if p < |b| && IsSpaceByte(b[p]) {
      SpaceAndColon(e, b[p]);
      SpaceOn(e, b, p, m);
      var rest;
      rest, q := SpaceFrom(e, b, p + 1, m);
      HasByte(b, p, b[p]);
      HasSplit(b, p, [b[p]], rest);
      s := [b[p]] + rest;
    }
  }

  /** White space behind a name or a value, if there is any. */
  lemma SpaceBehind(e: Encoding, b: Text, p: nat, m: Mode) returns (s: Text, q: nat)
    requires AsciiTable(e) && p <= |b| && (m.TagName? || m.AfterValue? || m.AttName? || m.EndTagName?)
    ensures p <= q <= |b| && q == p + |s| && Has(b, p, s) && IsSpace(s)
    ensures Run(e, b, p, m) == Run(e, b, q, if s == [] then m else Spaced(m))
    ensures q < |b| ==> !IsSpaceByte(b[q])
    ensures s == [] ==> q == p
  {
    hide AsciiTable, Run, Has;
    s, q := [], p;
    HasNothing(b, p);
    if p < |b| && IsSpaceByte(b[p]) {
      SpaceAndColon(e, b[p]);
      SpaceBegins(e, b, p, m);
      var rest;
      rest, q := SpaceFrom(e, b, p + 1, Spaced(m));
      HasByte(b, p, b[p]);
      HasSplit(b, p, [b[p]], rest);
      s := [b[p]] + rest;
    }
  }

  /* ----- references ----- */

  lemma {:induction false} DigitsFrom(e: Encoding, b: Text, p: nat, m: Mode) returns (ds: Text, q: nat)
    requires AsciiTable(e) && p <= |b| && InDigits(m)
    ensures p <= q <= |b| && q == p + |ds| && Has(b, p, ds) && forall k: nat :: k < |ds| ==> IsDigitOf(m, ds[k])
    ensures Run(e, b, p, m) == Run(e, b, q, m)
    ensures q < |b| ==> !IsDigitOf(m, b[q])
    decreases |b| - p
  {
    hide AsciiTable, Run, Has;
    ds, q := [], p;
    HasNothing(b, p);
    if p < |b| && IsDigitOf(m, b[p]) {
      DigitOn(e, b, p, m);
      var rest;
      rest, q := DigitsFrom(e, b, p + 1, m);
      HasByte(b, p, b[p]);
      HasSplit(b, p, [b[p]], rest);
      ds := [b[p]] + rest;
    }
  }

  /** Behind the name or the digits there is a semicolon. */
  lemma OnlySemicolon(e: Encoding, b: Text, p: nat, m: Mode)
    requires AsciiTable(e) && p <= |b| && (m.RefName? || InDigits(m)) && Run(e, b, p, m).Tok?
    requires p < |b| ==> if m.RefName? then !NameLook(e, b, p, false).Past? else !IsDigitOf(m, b[p])
    ensures p < |b| && b[p] == 0x3B
  {
    hide AsciiTable, Run, NameLook;
    if p < |b| {
      Punctuation(e, b[p]);
      SpaceAndColon(e, b[p]);
      EndsAreNoTokens(e, b, p);
    }
    RunRef(e, b, p, m);
  }

  lemma NumberFrom(e: Encoding, b: Text, p: nat, place: Place, hex: bool) returns (ds: Text, q: nat)
    requires AsciiTable(e) && p <= |b| && Run(e, b, p, if hex then HexStart(place) else CharRefStart(place)).Tok?
    requires !hex ==> p < |b| && b[p] != 0x78
    ensures p <= q < |b| && q == p + |ds| && ds != [] && Has(b, p, ds) && b[q] == 0x3B
    ensures var m := if hex then HexDigits(place) else Digits(place);
            && (forall k: nat :: k < |ds| ==> IsDigitOf(m, ds[k]))
            && Run(e, b, p, if hex then HexStart(place) else CharRefStart(place)) == Run(e, b, q, m)
  {
    hide AsciiTable, Run, Has;
    var m := if hex then HexDigits(place) else Digits(place);
    FirstIsDigit(e, b, p, place, hex);
    DigitBegins(e, b, p, place, hex);
    var rest;
    rest, q := DigitsFrom(e, b, p + 1, m);
    OnlySemicolon(e, b, q, m);
    HasByte(b, p, b[p]);
    HasSplit(b, p, [b[p]], rest);
    ds := [b[p]] + rest;
  }

  lemma FirstIsDigit(e: Encoding, b: Text, p: nat, place: Place, hex: bool)
    requires AsciiTable(e) && p <= |b| && Run(e, b, p, if hex then HexStart(place) else CharRefStart(place)).Tok?
    requires !hex ==> p < |b| && b[p] != 0x78
    ensures p < |b| && IsDigitOf(if hex then HexDigits(place) else Digits(place), b[p])
  {
    hide AsciiTable, Run, NameLook;
    if p < |b| {
      SpaceAndColon(e, b[p]);
    }
    RunRef(e, b, p, if hex then HexStart(place) else CharRefStart(place));
  }

  /** A reference begins with a name or a number sign. */
  lemma RefBegins(e: Encoding, b: Text, p: nat, place: Place)
    requires AsciiTable(e) && p <= |b| && Run(e, b, p, RefStart(place)).Tok?
    ensures p < |b| && (NameLook(e, b, p, true).Past? || b[p] == 0x23)
  {
    hide AsciiTable, Run, NameLook;
    if p < |b| {
      Punctuation(e, b[p]);
      EndsAreNoTokens(e, b, p);
    }
    RunRef(e, b, p, RefStart(place));
  }

  lemma ReferenceFrom(e: Encoding, b: Text, p: nat, place: Place) returns (r: Reference)
    requires AsciiTable(e) && p <= |b| && Run(e, b, p, RefStart(place)).Tok?
    ensures IsReference(e, r) && Has(b, p, PrintReference(r)) && PrintReference(r) != []
  {
    hide AsciiTable, Run, NameLook, Has, IsName, Flat;
    RefBegins(e, b, p, place);
    if NameLook(e, b, p, true).Past? {
      var cs, q := NameFrom(e, b, p, RefStart(place));
      OnlySemicolon(e, b, q, RefName(place));
      HasByte(b, q, 0x3B);
      HasSplit(b, p, Flat(cs), [0x3B]);
      r := Named(cs);
    } else {
      NumberBegins(e, b, p, place);
      NotTheEnd(e, b, p + 1, CharRefStart(place));
      HasByte(b, p, 0x23);
      var hex := b[p + 1] == 0x78;
      if hex {
        NumberBegins(e, b, p + 1, place);
        HasByte(b, p + 1, 0x78);
        HasSplit(b, p, [0x23], [0x78]);
        assert [0x23] + [0x78] == [0x23, 0x78];
      }
      var from := if hex then p + 2 else p + 1;
      var ds, q := NumberFrom(e, b, from, place, hex);
      HasSplit(b, p, if hex then [0x23, 0x78] else [0x23], ds);
      HasByte(b, q, 0x3B);
      HasSplit(b, p, (if hex then [0x23, 0x78] else [0x23]) + ds, [0x3B]);
      r := if hex then Hexadecimal(ds) else Decimal(ds);
    }
  }

  /* ----- attributes ----- */

  lemma ItemsCons(i: Item, items: seq<Item>)
    ensures PrintItems([i] + items) == PrintItem(i) + PrintItems(items)
  {
    assert ([i] + items)[1..] == items;
  }

  /** In a value every character goes on, but for the quote, a reference and what is refused. */
  lemma ValueGoesOn(e: Encoding, b: Text, p: nat, quote: Byte)
    requires AsciiTable(e) && p <= |b| && (quote == 0x22 || quote == 0x27)
    requires Run(e, b, p, InValue(QuoteOf(quote))).Tok?
    ensures p < |b| && b[p] != 0x3C && (b[p] !in {0x26, quote} ==> AnyLook(e, b, p).Past?)
  {
    hide AsciiTable, Run, AnyLook;
    if p < |b| {
      Punctuation(e, b[p]);
      EndsAreNoTokens(e, b, p);
    }
    RunAtt(e, b, p, InValue(QuoteOf(quote)));
  }

  lemma {:induction false} ItemsFrom(e: Encoding, b: Text, p: nat, quote: Byte) returns (items: seq<Item>, q: nat)
    requires AsciiTable(e) && p <= |b| && (quote == 0x22 || quote == 0x27)
    requires Run(e, b, p, InValue(QuoteOf(quote))).Tok?
    ensures p <= q < |b| && q == p + |PrintItems(items)| && Has(b, p, PrintItems(items)) && AreItems(e, items, quote)
    ensures b[q] == quote && Run(e, b, p, InValue(QuoteOf(quote))) == Run(e, b, q + 1, AfterValue)
    decreases |b| - p
  {
    hide AsciiTable, Run, AnyLook, Has, IsItem, PrintItem;
    items, q := [], p;
    HasNothing(b, p);
    ValueGoesOn(e, b, p, quote);
    ValueChar(e, b, p, quote);
    if b[p] != quote {
      var item := ItemFrom(e, b, p, quote);
      ReadsItem(e, b, p, item, quote);
      var rest;
      rest, q := ItemsFrom(e, b, p + |PrintItem(item)|, quote);
      ItemsCons(item, rest);
      HasSplit(b, p, PrintItem(item), PrintItems(rest));
      items := [item] + rest;
    }
  }

  lemma ItemFrom(e: Encoding, b: Text, p: nat, quote: Byte) returns (i: Item)
    requires AsciiTable(e) && p < |b| && (quote == 0x22 || quote == 0x27) && b[p] != quote
    requires Run(e, b, p, InValue(QuoteOf(quote))).Tok?
    ensures IsItem(e, i, quote) && Has(b, p, PrintItem(i)) && PrintItem(i) != []
  {
    hide AsciiTable, Run, AnyLook, Has, IsReference, PrintReference;
    ValueGoesOn(e, b, p, quote);
    ValueChar(e, b, p, quote);
    if b[p] == 0x26 {
      var r := ReferenceFrom(e, b, p + 1, InQuotes(QuoteOf(quote)));
      HasByte(b, p, 0x26);
      HasSplit(b, p, [0x26], PrintReference(r));
      i := Ref(r);
    } else {
      AnyLookIs(e, b, p);
      var q := AnyLook(e, b, p).next;
      HasSlice(b, p, q);
      assert b[p..q][0] == b[p];
      i := One(b[p..q]);
    }
  }

  /** Behind the name of an attribute, and before the value. */
  lemma OnlyEquals(e: Encoding, b: Text, p: nat, m: Mode)
    requires AsciiTable(e) && p <= |b| && (m.AttName? || m.BeforeEquals?) && Run(e, b, p, m).Tok?
    requires p < |b| ==> !IsSpaceByte(b[p])
    requires m.AttName? ==> p < |b| && !NameLook(e, b, p, false).Past? && e.typeOf(b[p]) != Colon
    ensures p < |b| && b[p] == 0x3D
  {
    hide AsciiTable, Run, NameLook;
    if p < |b| {
      Punctuation(e, b[p]);
      SpaceAndColon(e, b[p]);
      EndsAreNoTokens(e, b, p);
    }
    RunAtt(e, b, p, m);
  }

  lemma OnlyQuote(e: Encoding, b: Text, p: nat)
    requires AsciiTable(e) && p <= |b| && Run(e, b, p, BeforeQuote).Tok? && (p < |b| ==> !IsSpaceByte(b[p]))
    ensures p < |b| && (b[p] == 0x22 || b[p] == 0x27)
  {
    hide AsciiTable, Run;
    if p < |b| {
      Punctuation(e, b[p]);
      SpaceAndColon(e, b[p]);
    }
    RunAtt(e, b, p, BeforeQuote);
  }

  lemma EqualsFrom(e: Encoding, b: Text, p: nat, colon: bool) returns (before: Text, behind: Text, q: nat)
    requires AsciiTable(e) && p < |b| && Run(e, b, p, AttName(colon)).Tok?
    requires !NameLook(e, b, p, false).Past? && e.typeOf(b[p]) != Colon
    ensures IsSpace(before) && IsSpace(behind) && p <= q < |b| && q == p + |before| + 1 + |behind|
    ensures Has(b, p, before) && Has(b, p + |before|, [0x3D]) && Has(b, p + |before| + 1, behind)
    ensures (b[q] == 0x22 || b[q] == 0x27) && Run(e, b, p, AttName(colon)) == Run(e, b, q, BeforeQuote)
  {
    hide AsciiTable, Run, NameLook, Has;
    var r;
    before, r := SpaceBehind(e, b, p, AttName(colon));
    var m := if before == [] then AttName(colon) else BeforeEquals;
    OnlyEquals(e, b, r, m);
    EqualsSign(e, b, r, m);
    HasByte(b, r, 0x3D);
    behind, q := SpaceFrom(e, b, r + 1, BeforeQuote);
    OnlyQuote(e, b, q);
  }

  lemma ValueFrom(e: Encoding, b: Text, p: nat) returns (items: seq<Item>)
    requires AsciiTable(e) && p < |b| && (b[p] == 0x22 || b[p] == 0x27) && Run(e, b, p, BeforeQuote).Tok?
    ensures AreItems(e, items, b[p]) && Has(b, p, [b[p]]) && Has(b, p + 1, PrintItems(items))
    ensures Has(b, p + 1 + |PrintItems(items)|, [b[p]])
  {
    hide AsciiTable, Run, Has, AreItems;
    OpeningQuote(e, b, p);
    var q;
    items, q := ItemsFrom(e, b, p + 1, b[p]);
    HasByte(b, p, b[p]);
    HasByte(b, q, b[p]);
  }

  /** The parts of an attribute make it. */
  lemma AttrWhole(b: Text, p: nat, a: Attr)
    requires var q := p + |a.space|;
             var r := q + |PrintQName(a.name)|;
             var s := r + |a.before|;
             var t := s + 1 + |a.behind|;
             var u := t + 1 + |PrintItems(a.value)|;
             && Has(b, p, a.space) && Has(b, q, PrintQName(a.name)) && Has(b, r, a.before) && Has(b, s, [0x3D])
             && Has(b, s + 1, a.behind) && Has(b, t, [a.quote]) && Has(b, t + 1, PrintItems(a.value))
             && Has(b, u, [a.quote])
    ensures Has(b, p, PrintAttr(a))
  {
    hide Has, PrintQName, PrintItems;
    var value := PrintItems(a.value) + [a.quote];
    var quoted := [a.quote] + value;
    var behind := a.behind + quoted;
    var equals := [0x3D] + behind;
    var before := a.before + equals;
    var q := p + |a.space|;
    var r := q + |PrintQName(a.name)|;
    var s := r + |a.before|;
    var t := s + 1 + |a.behind|;
    HasSplit(b, t + 1, PrintItems(a.value), [a.quote]);
    HasSplit(b, t, [a.quote], value);
    HasSplit(b, s + 1, a.behind, quoted);
    HasSplit(b, s, [0x3D], behind);
    HasSplit(b, r, a.before, equals);
    HasSplit(b, q, PrintQName(a.name), before);
    HasSplit(b, p, a.space, PrintQName(a.name) + before);
  }

  lemma AttrFrom(e: Encoding, b: Text, p: nat, space: Text, m: Mode) returns (a: Attr)
    requires AsciiTable(e) && (m.TagSpace? || m.BetweenAtts?) && space != [] && IsSpace(space) && Has(b, p, space)
    requires var q := p + |space|; q < |b| && NameLook(e, b, q, true).Past? && Run(e, b, q, m).Tok?
    ensures IsAttr(e, a) && Has(b, p, PrintAttr(a)) && PrintAttr(a) != []
  {
    hide AsciiTable, Run, NameLook, Has, PrintQName, PrintItems, IsQName, AreItems, IsSpace;
    var name, r := QNameFrom(e, b, p + |space|, m);
    var before, behind, t := EqualsFrom(e, b, r, name.prefix != []);
    var items := ValueFrom(e, b, t);
    a := Attr(space, name, before, behind, b[t], items);
    AttrWhole(b, p, a);
  }

  /* ----- tags ----- */

  /** Behind white space in a tag there is a name, a slash or the end; so behind a name or a
      value, or white space. */
  lemma TagGoesOn(e: Encoding, b: Text, p: nat, m: Mode)
    requires AsciiTable(e) && p <= |b| && (m.TagName? || m.TagSpace? || m.AfterValue? || m.BetweenAtts?)
    requires Run(e, b, p, m).Tok? && (p < |b| ==> !IsSpaceByte(b[p]))
    requires m.TagName? ==> p < |b| && !NameLook(e, b, p, false).Past? && e.typeOf(b[p]) != Colon
    ensures p < |b|
    ensures b[p] != 0x3E && b[p] != 0x2F ==> (m.TagSpace? || m.BetweenAtts?) && NameLook(e, b, p, true).Past?
    ensures b[p] == 0x2F ==> p + 1 < |b| && b[p + 1] == 0x3E
  {
    hide AsciiTable, Run, NameLook;
    if m.TagName? || m.TagSpace? {
      RunTag(e, b, p, m);
    } else {
      RunAtt(e, b, p, m);
    }
    if b[p] == 0x2F {
      SlashOn(e, b, p, m);
      RunTag(e, b, p + 1, Slash(m.AfterValue? || m.BetweenAtts?));
    } else if b[p] != 0x3E {
      if m.TagName? || m.TagSpace? {
        TagNameOn(e, b, p, m);
      } else {
        AttNameOn(e, b, p, m);
      }
    }
  }

  lemma TagNameOn(e: Encoding, b: Text, p: nat, m: Mode)
    requires AsciiTable(e) && p < |b| && (m.TagName? || m.TagSpace?) && Run(e, b, p, m).Tok?
    requires !IsSpaceByte(b[p]) && b[p] != 0x3E && b[p] != 0x2F
    requires m.TagName? ==> !NameLook(e, b, p, false).Past? && e.typeOf(b[p]) != Colon
    ensures m.TagSpace? && NameLook(e, b, p, true).Past?
  {
    hide AsciiTable, Run, NameLook, AnyLook;
    Punctuation(e, b[p]);
    SpaceAndColon(e, b[p]);
    EndsAreNoTokens(e, b, p);
    RunTag(e, b, p, m);
  }

  lemma AttNameOn(e: Encoding, b: Text, p: nat, m: Mode)
    requires AsciiTable(e) && p < |b| && (m.AfterValue? || m.BetweenAtts?) && Run(e, b, p, m).Tok?
    requires !IsSpaceByte(b[p]) && b[p] != 0x3E && b[p] != 0x2F
    ensures m.BetweenAtts? && NameLook(e, b, p, true).Past?
  {
    hide AsciiTable, Run, NameLook, AnyLook;
    Punctuation(e, b[p]);
    SpaceAndColon(e, b[p]);
    EndsAreNoTokens(e, b, p);
    RunAtt(e, b, p, m);
  }

  lemma TailCons(a: Attr, t: Tail)
    ensures PrintTail(t.(atts := [a] + t.atts)) == PrintAttr(a) + PrintTail(t)
  {
    assert ([a] + t.atts)[1..] == t.atts;
  }

  lemma {:induction false} TailFrom(e: Encoding, b: Text, p: nat, m: Mode) returns (t: Tail)
    requires AsciiTable(e) && p <= |b| && (m.TagName? || m.AfterValue?) && Run(e, b, p, m).Tok?
    requires m.TagName? ==> p < |b| && !NameLook(e, b, p, false).Past? && e.typeOf(b[p]) != Colon
    ensures IsTail(e, t) && Has(b, p, PrintTail(t))
    decreases |b| - p
  {
    hide AsciiTable, Run, NameLook, Has, PrintAttr, IsAttr, IsSpace;
    var space, q := SpaceBehind(e, b, p, m);
    var m' := if space == [] then m else Spaced(m);
    TagGoesOn(e, b, q, m');
    if b[q] == 0x3E || b[q] == 0x2F {
      t := Tail([], space, b[q] == 0x2F);
      HasByte(b, q, b[q]);
      if t.empty {
        HasByte(b, q + 1, 0x3E);
        HasSplit(b, q, [0x2F], [0x3E]);
        assert [0x2F] + [0x3E] == [0x2F, 0x3E];
      }
      HasSplit(b, p, space, if t.empty then [0x2F, 0x3E] else [0x3E]);
    } else {
      var a := AttrFrom(e, b, p, space, m');
      ReadsAttr(e, b, p, a, m);
      var rest := TailFrom(e, b, p + |PrintAttr(a)|, AfterValue);
      TailCons(a, rest);
      HasSplit(b, p, PrintAttr(a), PrintTail(rest));
      t := rest.(atts := [a] + rest.atts);
    }
  }

  lemma ElementFrom(e: Encoding, b: Text, p: nat) returns (m: Markup)
    requires AsciiTable(e) && p + 1 < |b| && b[p] == 0x3C && NameLook(e, b, p + 1, true).Past?
    requires Run(e, b, p + 1, AfterLt).Tok?
    ensures IsMarkup(e, m) && Has(b, p, Print(m))
  {
    hide AsciiTable, Run, NameLook, Has, PrintQName, PrintTail, IsQName, IsTail;
    var name, q := QNameFrom(e, b, p + 1, AfterLt);
    var t := TailFrom(e, b, q, InQName(AfterLt, name));
    HasSplit(b, p + 1, PrintQName(name), PrintTail(t));
    HasByte(b, p, 0x3C);
    HasSplit(b, p, [0x3C], PrintQName(name) + PrintTail(t));
    m := Element(name, t);
  }

  /* ----- end tags ----- */

  lemma {:induction false} EndCharsFrom(e: Encoding, b: Text, p: nat) returns (cs: Chars, q: nat)
    requires AsciiTable(e) && p <= |b|
    ensures p <= q <= |b| && q == p + |Flat(cs)| && Has(b, p, Flat(cs))
    ensures forall k: nat :: k < |cs| ==> IsEndChar(e, cs[k])
    ensures Run(e, b, p, EndTagName) == Run(e, b, q, EndTagName)
    ensures q < |b| ==> !NameLook(e, b, q, false).Past? && e.typeOf(b[q]) != Colon
    decreases |b| - p
  {
    hide AsciiTable, Run, NameLook, Has, IsEndChar, Flat;
    cs, q := [], p;
    HasNothing(b, p);
    FlatNothing();
    if p < |b| && (NameLook(e, b, p, false).Past? || e.typeOf(b[p]) == Colon) {
      var c := EndCharFrom(e, b, p);
      EndCharOn(e, b, p, c);
      var rest;
      rest, q := EndCharsFrom(e, b, p + |c|);
      FlatCons(c, rest);
      HasSplit(b, p, c, Flat(rest));
      cs := [c] + rest;
    }
  }

  lemma FlatNothing()
    ensures Flat([]) == []
  {
  }

  lemma EndCharFrom(e: Encoding, b: Text, p: nat) returns (c: Text)
    requires AsciiTable(e) && p < |b| && (NameLook(e, b, p, false).Past? || e.typeOf(b[p]) == Colon)
    ensures IsEndChar(e, c) && Has(b, p, c) && c != []
  {
    hide AsciiTable, NameLook, Has, IsNameChar;
    if NameLook(e, b, p, false).Past? {
      NameLookIs(e, b, p, false);
      c := b[p..NameLook(e, b, p, false).next];
      HasSlice(b, p, NameLook(e, b, p, false).next);
    } else {
      SpaceAndColon(e, b[p]);
      HasByte(b, p, 0x3A);
      c := [0x3A];
    }
  }

  lemma OnlyGreater(e: Encoding, b: Text, p: nat, m: Mode)
    requires AsciiTable(e) && p <= |b| && (m.EndTagName? || m.EndTagSpace?) && Run(e, b, p, m).Tok?
    requires p < |b| ==> !IsSpaceByte(b[p])
    requires p < |b| && m.EndTagName? ==> !NameLook(e, b, p, false).Past? && e.typeOf(b[p]) != Colon
    ensures p < |b| && b[p] == 0x3E
  {
    hide AsciiTable, Run, NameLook;
    if p < |b| {
      Punctuation(e, b[p]);
      SpaceAndColon(e, b[p]);
      EndsAreNoTokens(e, b, p);
    }
    RunNamed(e, b, p, m);
  }

  lemma EndFrom(e: Encoding, b: Text, p: nat) returns (name: Chars, space: Text)
    requires AsciiTable(e) && p < |b| && NameLook(e, b, p, true).Past? && Run(e, b, p, EndTagStart).Tok?
    ensures IsMarkup(e, EndTagOf(name, space)) && Has(b, p, Flat(name) + (space + [0x3E]))
  {
    hide AsciiTable, Run, NameLook, Has, IsNameChar, IsEndChar, IsSpace, Width, Flat;
    NameLookIs(e, b, p, true);
    var r := NameLook(e, b, p, true).next;
    var c := b[p..r];
    HasSlice(b, p, r);
    NameBegins(e, b, p, EndTagStart);
    var rest, q := EndCharsFrom(e, b, r);
    var s;
    space, s := SpaceBehind(e, b, q, EndTagName);
    OnlyGreater(e, b, s, if space == [] then EndTagName else EndTagSpace);
    FlatCons(c, rest);
    HasSplit(b, p, c, Flat(rest));
    HasByte(b, s, 0x3E);
    HasSplit(b, q, space, [0x3E]);
    name := [c] + rest;
    HasSplit(b, p, Flat(name), space + [0x3E]);
  }

  /* ----- comments ----- */

  lemma {:induction false} CommentFrom(e: Encoding, b: Text, p: nat) returns (body: Chars)
    requires AsciiTable(e) && p <= |b| && Run(e, b, p, InComment).Tok?
    ensures IsMarkup(e, Remark(body)) && Has(b, p, Flat(body) + [0x2D, 0x2D, 0x3E])
    decreases |b| - p
  {
    hide AsciiTable, Run, AnyLook, Has, IsAnyChar, Flat, IsMarkup;
    NotTheEnd(e, b, p, InComment);
    var c := CommentCharFrom(e, b, p);
    if c == [] {
      NoComment(e);
      body := [];
      FlatNothing();
      assert [] + [0x2D, 0x2D, 0x3E] == [0x2D, 0x2D, 0x3E];
    } else {
      CommentCharOn(e, b, p, c);
      var rest := CommentFrom(e, b, p + |c|);
      FlatCons(c, rest);
      body := [c] + rest;
      assert Flat(body) + [0x2D, 0x2D, 0x3E] == c + (Flat(rest) + [0x2D, 0x2D, 0x3E]);
      HasSplit(b, p, c, Flat(rest) + [0x2D, 0x2D, 0x3E]);
      CommentCons(e, b, p + |c|, c, rest);
    }
  }

  lemma NoComment(e: Encoding)
    ensures IsMarkup(e, Remark([]))
  {
  }

  /** The next character of a comment, or nothing when it ends here. */
  lemma CommentCharFrom(e: Encoding, b: Text, p: nat) returns (c: Text)
    requires AsciiTable(e) && p < |b| && Run(e, b, p, InComment).Tok?
    ensures if c == [] then Has(b, p, [0x2D, 0x2D, 0x3E])
            else IsAnyChar(e, c) && Has(b, p, c) && (c == [0x2D] ==> p + 1 < |b| && b[p + 1] != 0x2D)
  {
    hide AsciiTable, Run, AnyLook, Has, IsAnyChar, Width;
    DashesEnd(e, b, p);
    if b[p] == 0x2D && b[p + 1] == 0x2D {
      c := [];
      ThreeBytes(b, p, 0x2D, 0x2D, 0x3E);
    } else if b[p] == 0x2D {
      c := [0x2D];
      HasByte(b, p, 0x2D);
      DashIsChar(e);
    } else {
      AnyLookIs(e, b, p);
      c := b[p..AnyLook(e, b, p).next];
      HasSlice(b, p, AnyLook(e, b, p).next);
      assert c[0] == b[p];
    }
  }

  lemma DashesEnd(e: Encoding, b: Text, p: nat)
    requires AsciiTable(e) && p < |b| && Run(e, b, p, InComment).Tok?
    ensures b[p] == 0x2D ==> p + 1 < |b| && (b[p + 1] == 0x2D ==> p + 2 < |b| && b[p + 2] == 0x3E)
    ensures b[p] != 0x2D ==> AnyLook(e, b, p).Past?
  {
    hide AsciiTable, Run, AnyLook;
    Punctuation(e, b[p]);
    CommentTurn(e, b, p);
    EndsAreNoTokens(e, b, p);
  }

  lemma DashIsChar(e: Encoding)
    requires AsciiTable(e)
    ensures IsAnyChar(e, [0x2D]) && IsAnyChar(e, [0x3F])
  {
    hide AsciiTable;
    NameClasses(e, 0x2D);
    NameClasses(e, 0x3F);
  }

  lemma ThreeBytes(b: Text, p: nat, c: Byte, d: Byte, f: Byte)
    requires p + 3 <= |b| && b[p] == c && b[p + 1] == d && b[p + 2] == f
    ensures Has(b, p, [c, d, f])
  {
    assert b[p..p + 3] == [c, d, f];
  }

  lemma CommentCons(e: Encoding, b: Text, p: nat, c: Text, rest: Chars)
    requires AsciiTable(e) && IsAnyChar(e, c) && IsMarkup(e, Remark(rest)) && Has(b, p, Flat(rest) + [0x2D, 0x2D, 0x3E])
    requires c == [0x2D] ==> p < |b| && b[p] != 0x2D
    ensures IsMarkup(e, Remark([c] + rest))
  {
    hide AsciiTable, IsAnyChar;
    if c == [0x2D] {
      if rest == [] {
        assert Flat(rest) + [0x2D, 0x2D, 0x3E] == [0x2D, 0x2D, 0x3E];
        HasThree(b, p, 0x2D, 0x2D, 0x3E);
      } else {
        assert Flat(rest) + [0x2D, 0x2D, 0x3E] == rest[0] + (Flat(rest[1..]) + [0x2D, 0x2D, 0x3E]);
        HasSplit(b, p, rest[0], Flat(rest[1..]) + [0x2D, 0x2D, 0x3E]);
        AnyCharSize(e, rest[0]);
        HasChar(e, b, p, rest[0]);
      }
    }
  }

  /* ----- processing instructions ----- */

  lemma PiCharFrom(e: Encoding, b: Text, p: nat, decl: bool) returns (c: Text)
    requires AsciiTable(e) && p < |b| && Run(e, b, p, PiBody(decl)).Tok?
    ensures if c == [] then Has(b, p, [0x3F] + [0x3E])
            else
              && IsAnyChar(e, c) && Has(b, p, c) && (c == [0x3F] ==> p + 1 < |b| && b[p + 1] != 0x3E)
              && p + |c| <= |b| && Run(e, b, p, PiBody(decl)) == Run(e, b, p + |c|, PiBody(decl))
  {
    hide AsciiTable, Run, AnyLook, Has, PiToken, IsAnyChar;
    PiTurn(e, b, p, decl);
    EndsAreNoTokens(e, b, p);
    if b[p] == 0x3F && b[p + 1] == 0x3E {
      c := [];
      HasByte(b, p, 0x3F);
      HasByte(b, p + 1, 0x3E);
      HasSplit(b, p, [0x3F], [0x3E]);
    } else if b[p] == 0x3F {
      c := [0x3F];
      HasByte(b, p, 0x3F);
      DashIsChar(e);
    } else {
      AnyLookIs(e, b, p);
      c := b[p..AnyLook(e, b, p).next];
      HasSlice(b, p, AnyLook(e, b, p).next);
      assert c[0] == b[p];
    }
  }

  lemma {:induction false} PiBodyFrom(e: Encoding, b: Text, p: nat, decl: bool) returns (cs: Chars)
    requires AsciiTable(e) && p <= |b| && Run(e, b, p, PiBody(decl)).Tok?
    ensures AnyChars(e, cs) && Never(cs, 0x3F, 0x3E) && Has(b, p, Flat(cs) + [0x3F, 0x3E])
    decreases |b| - p
  {
    hide AsciiTable, Run, AnyLook, Has, IsAnyChar, Flat;
    NotTheEnd(e, b, p, PiBody(decl));
    var c := PiCharFrom(e, b, p, decl);
    if c == [] {
      cs := [];
      FlatNothing();
      assert [] + [0x3F, 0x3E] == [0x3F] + [0x3E];
    } else {
      var rest := PiBodyFrom(e, b, p + |c|, decl);
      FlatCons(c, rest);
      cs := [c] + rest;
      assert Flat(cs) + [0x3F, 0x3E] == c + (Flat(rest) + [0x3F, 0x3E]);
      HasSplit(b, p, c, Flat(rest) + [0x3F, 0x3E]);
      PiCons(e, b, p + |c|, c, rest);
    }
  }

  lemma PiCons(e: Encoding, b: Text, p: nat, c: Text, rest: Chars)
    requires IsAnyChar(e, c) && AnyChars(e, rest) && Never(rest, 0x3F, 0x3E) && Has(b, p, Flat(rest) + [0x3F, 0x3E])
    requires c == [0x3F] ==> p < |b| && b[p] != 0x3E
    ensures AnyChars(e, [c] + rest) && Never([c] + rest, 0x3F, 0x3E)
  {
    hide IsAnyChar;
    if c == [0x3F] && rest != [] {
      assert Flat(rest) + [0x3F, 0x3E] == rest[0] + (Flat(rest[1..]) + [0x3F, 0x3E]);
      HasSplit(b, p, rest[0], Flat(rest[1..]) + [0x3F, 0x3E]);
      AnyCharSize(e, rest[0]);
      HasChar(e, b, p, rest[0]);
    }
  }

  /** Behind the target. */
  lemma TargetEnds(e: Encoding, b: Text, from: nat, p: nat)
    requires AsciiTable(e) && from <= p <= |b| && Run(e, b, p, PiTarget(from)).Tok?
    requires p < |b| ==> !NameLook(e, b, p, false).Past?
    ensures p < |b| && IsTarget(b[from..p]) && (b[p] == 0x3F || IsSpaceByte(b[p]))
  {
    hide AsciiTable, Run, NameLook, CheckPiTarget;
    if p < |b| {
      Punctuation(e, b[p]);
      SpaceAndColon(e, b[p]);
      EndsAreNoTokens(e, b, p);
      RunPiTarget(e, b, p, from);
      TargetIsRefused(b[from..p]);
    }
    RunNamed(e, b, p, PiTarget(from));
  }

  lemma TargetIsRefused(t: Text)
    ensures CheckPiTarget(t).Refused? <==> !IsTarget(t)
  {
    if |t| == 3 {
      assert t == [t[0], t[1], t[2]];
    }
  }

  lemma ContentFrom(e: Encoding, b: Text, from: nat, p: nat) returns (content: Chars)
    requires AsciiTable(e) && from <= p <= |b| && Run(e, b, p, PiTarget(from)).Tok?
    requires p < |b| ==> !NameLook(e, b, p, false).Past?
    ensures AnyChars(e, content) && Never(content, 0x3F, 0x3E) && Has(b, p, Flat(content) + [0x3F, 0x3E])
    ensures content != [] ==> |content[0]| == 1 && IsSpaceByte(content[0][0])
    ensures IsTarget(b[from..p])
  {
    hide AsciiTable, Run, NameLook, Has, IsAnyChar, Flat, IsTarget, PiToken;
    TargetEnds(e, b, from, p);
    TargetOn(e, b, from, p);
    HasByte(b, p, b[p]);
    if b[p] == 0x3F {
      PiQuestEnds(e, b, p + 1, b[from..p] == [0x78, 0x6D, 0x6C]);
      HasByte(b, p + 1, 0x3E);
      HasSplit(b, p, [0x3F], [0x3E]);
      content := [];
      FlatNothing();
      assert [] + [0x3F, 0x3E] == [0x3F] + [0x3E];
    } else {
      var rest := PiBodyFrom(e, b, p + 1, b[from..p] == [0x78, 0x6D, 0x6C]);
      var c := [b[p]];
      SpaceIsChar(e, b[p]);
      FlatCons(c, rest);
      content := [c] + rest;
      assert Flat(content) + [0x3F, 0x3E] == c + (Flat(rest) + [0x3F, 0x3E]);
      HasSplit(b, p, c, Flat(rest) + [0x3F, 0x3E]);
      PiCons(e, b, p + 1, c, rest);
    }
  }

  lemma SpaceIsChar(e: Encoding, c: Byte)
    requires AsciiTable(e) && IsSpaceByte(c)
    ensures IsAnyChar(e, [c]) && c != 0x3F
  {
    hide AsciiTable;
    NameClasses(e, c);
  }

  lemma PiQuestEnds(e: Encoding, b: Text, p: nat, decl: bool)
    requires p <= |b| && Run(e, b, p, PiQuest(decl)).Tok?
    ensures p < |b| && b[p] == 0x3E
  {
    hide Run, NameLook;
    RunNamed(e, b, p, PiQuest(decl));
  }

  lemma InstructionFrom(e: Encoding, b: Text, p: nat) returns (target: Chars, content: Chars)
    requires AsciiTable(e) && p < |b| && NameLook(e, b, p, true).Past? && Run(e, b, p, PiStart).Tok?
    ensures IsMarkup(e, Instruction(target, content)) && Has(b, p, Flat(target) + (Flat(content) + [0x3F, 0x3E]))
  {
    hide AsciiTable, Run, NameLook, Has, IsAnyChar, Flat, IsTarget, IsName, AnyChars, Never;
    var q;
    target, q := NameFrom(e, b, p, PiStart);
    HasIs(b, p, Flat(target));
    content := ContentFrom(e, b, p, q);
    HasSplit(b, p, Flat(target), Flat(content) + [0x3F, 0x3E]);
  }

  /* ----- all of it ----- */

  /** What can stand behind a less-than sign. */
  lemma LessGoesOn(e: Encoding, b: Text, p: nat)
    requires AsciiTable(e) && p <= |b| && Run(e, b, p, AfterLt).Tok?
    ensures p < |b| && (NameLook(e, b, p, true).Past? || b[p] in {0x2F, 0x3F, 0x21})
  {
    hide AsciiTable, Run, NameLook, AnyLook;
    if p < |b| {
      Punctuation(e, b[p]);
      EndsAreNoTokens(e, b, p);
    }
    RunDecl(e, b, p, AfterLt);
  }

  lemma NameGoesOn(e: Encoding, b: Text, p: nat, m: Mode)
    requires p <= |b| && (m.EndTagStart? || m.PiStart?) && Run(e, b, p, m).Tok?
    ensures p < |b| && NameLook(e, b, p, true).Past?
  {
    hide Run, NameLook;
    if p < |b| {
      EndsAreNoTokens(e, b, p);
    }
    RunNamed(e, b, p, m);
  }

  lemma BangGoesOn(e: Encoding, b: Text, p: nat)
    requires AsciiTable(e) && p <= |b| && Run(e, b, p, AfterExcl).Tok?
    ensures p < |b| && (b[p] == 0x2D || b[p] == 0x5B)
    ensures b[p] == 0x2D ==> p + 1 < |b| && b[p + 1] == 0x2D && Run(e, b, p + 2, InComment).Tok?
    ensures b[p] == 0x5B ==> Has(b, p + 1, [0x43, 0x44, 0x41, 0x54, 0x41, 0x5B])
  {
    hide AsciiTable, Run, NameLook, AnyLook;
    RunDecl(e, b, p, AfterExcl);
    if p < |b| {
      Punctuation(e, b[p]);
      if b[p] == 0x2D {
        RunDecl(e, b, p + 1, CommentStart);
      } else if b[p] == 0x5B {
        RunDecl(e, b, p + 1, InCdataStart);
        if p + 7 <= |b| {
          AgreeingIs(b, p + 1, 0);
        }
      }
    }
  }

  lemma {:induction false} AgreeingIs(b: Text, p: nat, k: nat)
    requires k <= 6 && p + 6 <= |b| && forall j: nat :: j < k ==> b[p + j] == CDATA_LSQB[j]
    ensures Agreeing(b, p, k) == 6 ==> Has(b, p, [0x43, 0x44, 0x41, 0x54, 0x41, 0x5B])
    decreases 6 - k
  {
    if k < 6 {
      if b[p + k] == CDATA_LSQB[k] {
        AgreeingIs(b, p, k + 1);
      }
    } else {
      assert b[p..p + 6] == CDATA_LSQB;
    }
  }

  lemma BangFrom(e: Encoding, b: Text, p: nat) returns (m: Markup)
    requires AsciiTable(e) && p + 2 <= |b| && b[p] == 0x3C && b[p + 1] == 0x21 && Run(e, b, p + 2, AfterExcl).Tok?
    ensures IsMarkup(e, m) && Has(b, p, Print(m))
  {
    hide AsciiTable, Run, Has, Flat;
    BangGoesOn(e, b, p + 2);
    HasByte(b, p, 0x3C);
    HasByte(b, p + 1, 0x21);
    HasByte(b, p + 2, b[p + 2]);
    HasSplit(b, p, [0x3C], [0x21]);
    HasSplit(b, p, [0x3C] + [0x21], [b[p + 2]]);
    if b[p + 2] == 0x2D {
      var body := CommentFrom(e, b, p + 4);
      HasByte(b, p + 3, 0x2D);
      HasSplit(b, p, [0x3C] + [0x21] + [0x2D], [0x2D]);
      assert [0x3C] + [0x21] + [0x2D] + [0x2D] == [0x3C, 0x21, 0x2D, 0x2D];
      HasSplit(b, p, [0x3C, 0x21, 0x2D, 0x2D], Flat(body) + [0x2D, 0x2D, 0x3E]);
      m := Remark(body);
    } else {
      HasSplit(b, p, [0x3C] + [0x21] + [0x5B], [0x43, 0x44, 0x41, 0x54, 0x41, 0x5B]);
      m := Section;
      assert Print(m) == [0x3C] + [0x21] + [0x5B] + [0x43, 0x44, 0x41, 0x54, 0x41, 0x5B];
    }
  }

  lemma LessFrom(e: Encoding, b: Text, p: nat) returns (m: Markup)
    requires AsciiTable(e) && p < |b| && b[p] == 0x3C && Run(e, b, p + 1, AfterLt).Tok?
    ensures IsMarkup(e, m) && Has(b, p, Print(m))
  {
    hide AsciiTable, Run, NameLook, Has, IsMarkup;
    LessGoesOn(e, b, p + 1);
    AfterLess(e, b, p + 1);
    HasByte(b, p, 0x3C);
    if b[p + 1] == 0x2F {
      NameGoesOn(e, b, p + 2, EndTagStart);
      var name, space := EndFrom(e, b, p + 2);
      HasByte(b, p + 1, 0x2F);
      TwoBytes(b, p, 0x3C, 0x2F, Flat(name) + (space + [0x3E]));
      m := EndTagOf(name, space);
    } else if b[p + 1] == 0x3F {
      NameGoesOn(e, b, p + 2, PiStart);
      var target, content := InstructionFrom(e, b, p + 2);
      HasByte(b, p + 1, 0x3F);
      TwoBytes(b, p, 0x3C, 0x3F, Flat(target) + (Flat(content) + [0x3F, 0x3E]));
      m := Instruction(target, content);
    } else if b[p + 1] == 0x21 {
      m := BangFrom(e, b, p);
    } else {
      m := ElementFrom(e, b, p);
    }
  }

  lemma TwoBytes(b: Text, p: nat, c: Byte, d: Byte, t: Text)
    requires p + 2 <= |b| && b[p] == c && b[p + 1] == d && Has(b, p + 2, t)
    ensures Has(b, p, [c, d] + t)
  {
    hide Has;
    HasByte(b, p, c);
    HasByte(b, p + 1, d);
    HasSplit(b, p, [c], [d]);
    assert [c] + [d] == [c, d];
    HasSplit(b, p, [c, d], t);
  }

  /** What a token that is markup begins with. */
  lemma MarkupStarts(e: Encoding, b: Text, p: nat)
    requires AsciiTable(e) && p <= |b|
    requires var r := Run(e, b, p, AtStart); r.Tok? && r.tok != DataChars && r.tok != DataNewline
    ensures p < |b| && (b[p] == 0x3C || b[p] == 0x26)
  {
    hide AsciiTable, Run, AnyLook;
    if p < |b| {
      Punctuation(e, b[p]);
      EndsAreNoTokens(e, b, p);
      RunStart(e, b, p);
      var t := e.typeOf(b[p]);
      if t == Rsqb {
        BracketIsText(e, b, p + 1);
      } else if t == Cr {
        RunText(e, b, p + 1, AfterCr);
      } else if t != ByteType.Lt && t != Amp && t != Lf && AnyLook(e, b, p).Past? {
        XmlChunks.DataEnds(e, b, AnyLook(e, b, p).next);
      }
    } else {
      RunText(e, b, p, AtStart);
    }
  }

  lemma BracketIsText(e: Encoding, b: Text, p: nat)
    requires p <= |b|
    ensures var r := Run(e, b, p, AfterRsqb); r.Tok? ==> r.tok == DataChars
  {
    hide Run, AnyLook;
    RunText(e, b, p, AfterRsqb);
    XmlChunks.DataEnds(e, b, p);
  }

  lemma TokenIsMarkup(e: Encoding, b: Text, p: nat) returns (m: Markup)
    requires AsciiTable(e) && p <= |b|
    requires var r := Run(e, b, p, AtStart); r.Tok? && r.tok != DataChars && r.tok != DataNewline
    ensures IsMarkup(e, m) && Has(b, p, Print(m)) && Run(e, b, p, AtStart) == Tok(TokenOf(m), p + |Print(m)|)
  {
    hide AsciiTable, Run, Has, IsReference, PrintReference;
    MarkupStarts(e, b, p);
    MarkupBegins(e, b, p);
    if b[p] == 0x3C {
      hide IsMarkup, Print;
      m := LessFrom(e, b, p);
    } else {
      var r := ReferenceFrom(e, b, p + 1, InContent);
      HasByte(b, p, 0x26);
      HasSplit(b, p, [0x26], PrintReference(r));
      m := Refers(r);
    }
    MarkupIsRead(e, b, p, m);
  }

  /** The tokens of content other than data and line ends are exactly the markup of the
      grammar, each as the token that it is and from its first byte to its last. */
  lemma TokenIffMarkup(e: Encoding, b: Text, p: nat, tok: Token, q: nat)
    requires AsciiTable(e) && p <= |b| && tok != DataChars && tok != DataNewline
    ensures XmlChunks.ContentTok(e, b, p) == Tok(tok, q) <==>
            exists m: Markup :: IsMarkup(e, m) && Has(b, p, Print(m)) && tok == TokenOf(m) && q == p + |Print(m)|
  {
    hide AsciiTable, Run, IsMarkup, Print, TokenOf, Has;
    if XmlChunks.ContentTok(e, b, p) == Tok(tok, q) {
      var m := TokenIsMarkup(e, b, p);
    }
    if m: Markup :| IsMarkup(e, m) && Has(b, p, Print(m)) && tok == TokenOf(m) && q == p + |Print(m)| {
      MarkupIsRead(e, b, p, m);
    }
  }
}
