/**
 The attributes that are found in a tag are those that are written there: where each name and
 each value stands, for all tags of the grammar.
 */
module XmlTagSpans {
  import opened XmlTok
  import opened XmlScan
  import opened XmlRef
  import opened XmlGrammar
  import opened XmlReads
  import XmlGetAtts

  /** From one place to the other the scanner passes neither the start of a name of an attribute
      nor the start or the end of a value. */
  ghost predicate Quiet(e: Encoding, b: Text, p: nat, m: Mode, q: nat, m': Mode) {
    && Sane(b, p, m) && Sane(b, q, m')
    && forall n: nat, v: nat :: XmlGetAtts.Spans(e, b, p, m, n, v) == XmlGetAtts.Spans(e, b, q, m', n, v)
  }

  lemma QuietStep(e: Encoding, b: Text, p: nat, m: Mode, q: nat, m': Mode)
    requires Sane(b, p, m) && p < |b| && OneStep(e, b, p, m) == To(q, m')
    requires !m'.AfterValue? && (m'.InValue? ==> !m.BeforeQuote?) && (m'.AttName? ==> !m.TagSpace? && !m.BetweenAtts?)
    ensures Quiet(e, b, p, m, q, m')
  {
    hide OneStep, XmlGetAtts.Spans;
    forall n: nat, v: nat ensures XmlGetAtts.Spans(e, b, p, m, n, v) == XmlGetAtts.Spans(e, b, q, m', n, v) {
      XmlGetAtts.SpansTurn(e, b, p, m, n, v);
    }
  }

  lemma QuietNothing(e: Encoding, b: Text, p: nat, m: Mode)
    requires Sane(b, p, m)
    ensures Quiet(e, b, p, m, p, m)
  {
  }

  lemma QuietTwice(e: Encoding, b: Text, p: nat, m: Mode, q: nat, m': Mode, r: nat, m'': Mode)
    requires Quiet(e, b, p, m, q, m') && Quiet(e, b, q, m', r, m'')
    ensures Quiet(e, b, p, m, r, m'')
  {
    hide XmlGetAtts.Spans;
  }

  /* ----- names and white space ----- */

  lemma NameQuiet(e: Encoding, b: Text, p: nat, m: Mode)
    requires p < |b| && (m.TagName? || m.AttName? || m.RefName?) && NameLook(e, b, p, false).Past?
    ensures Quiet(e, b, p, m, NameLook(e, b, p, false).next, m)
  {
    hide NameLook, XmlGetAtts.Spans, Quiet;
    QuietStep(e, b, p, m, NameLook(e, b, p, false).next, m);
  }

  lemma {:induction false} NameCharsQuiet(e: Encoding, b: Text, p: nat, cs: Chars, m: Mode)
    requires AsciiTable(e) && (m.TagName? || m.AttName? || m.RefName?) && NameChars(e, cs) && Has(b, p, Flat(cs))
    ensures Quiet(e, b, p, m, p + |Flat(cs)|, m)
    decreases |cs|
  {
    hide AsciiTable, NameLook, Has, IsNameChar, Width, Quiet;
    if cs != [] {
      NameCharSize(e, cs[0], false);
      HasSplit(b, p, cs[0], Flat(cs[1..]));
      HasChar(e, b, p, cs[0]);
      NameLookIs(e, b, p, false);
      NameQuiet(e, b, p, m);
      NameCharsQuiet(e, b, p + |cs[0]|, cs[1..], m);
      QuietTwice(e, b, p, m, p + |cs[0]|, m, p + |Flat(cs)|, m);
    } else {
      HasNothing(b, p);
      QuietNothing(e, b, p, m);
    }
  }

  /** The start of a name that is not the name of an attribute. */
  lemma BeginQuiet(e: Encoding, b: Text, p: nat, m: Mode)
    requires p < |b| && (m.TagColon? || m.AttColon? || m.RefStart?) && NameLook(e, b, p, true).Past?
    ensures Quiet(e, b, p, m, NameLook(e, b, p, true).next, Begun(m, p))
  {
    hide NameLook, XmlGetAtts.Spans, Quiet;
    QuietStep(e, b, p, m, NameLook(e, b, p, true).next, Begun(m, p));
  }

  lemma IsNameQuiet(e: Encoding, b: Text, p: nat, cs: Chars, m: Mode)
    requires AsciiTable(e) && (m.TagColon? || m.AttColon? || m.RefStart?) && IsName(e, cs) && Has(b, p, Flat(cs))
    ensures Quiet(e, b, p, m, p + |Flat(cs)|, Begun(m, p))
  {
    hide AsciiTable, NameLook, Has, NameChars, IsNameChar, Width, Quiet;
    NameCharSize(e, cs[0], true);
    HasSplit(b, p, cs[0], Flat(cs[1..]));
    HasChar(e, b, p, cs[0]);
    NameLookIs(e, b, p, true);
    BeginQuiet(e, b, p, m);
    NameCharsQuiet(e, b, p + |cs[0]|, cs[1..], Begun(m, p));
    QuietTwice(e, b, p, m, p + |cs[0]|, Begun(m, p), p + |Flat(cs)|, Begun(m, p));
  }

  lemma ColonQuiet(e: Encoding, b: Text, p: nat, m: Mode)
    requires p < |b| && e.typeOf(b[p]) == Colon && (m == TagName(false) || m == AttName(false))
    ensures Quiet(e, b, p, m, p + 1, if m.TagName? then TagColon else AttColon)
  {
    NoName(e, b, p);
    hide NameLook, XmlGetAtts.Spans, Quiet;
    QuietStep(e, b, p, m, p + 1, if m.TagName? then TagColon else AttColon);
  }

  /** The rest of a name with a prefix or without, behind its first character. */
  lemma QNameRestQuiet(e: Encoding, b: Text, p: nat, n: QName, m: Mode)
    requires AsciiTable(e) && IsQName(e, n) && Has(b, p, PrintQName(n)) && (m == TagName(false) || m == AttName(false))
    ensures var first := if n.prefix == [] then n.local[0] else n.prefix[0];
            && NameLook(e, b, p, true) == Past(p + |first|) && p + |first| <= |b| && p < |b|
            && Quiet(e, b, p + |first|, m, p + |PrintQName(n)|,
                     if m.TagName? then TagName(n.prefix != []) else AttName(n.prefix != []))
  {
    hide AsciiTable, Has, Quiet, NameLook, IsNameChar, Width, NameChars;
    var cs := if n.prefix == [] then n.local else n.prefix;
    var q := p + |Flat(cs)|;
    if n.prefix == [] {
      assert PrintQName(n) == Flat(cs);
    } else {
      HasSplit(b, p, Flat(n.prefix) + [0x3A], Flat(n.local));
      HasSplit(b, p, Flat(n.prefix), [0x3A]);
    }
    NameCharSize(e, cs[0], true);
    HasSplit(b, p, cs[0], Flat(cs[1..]));
    HasChar(e, b, p, cs[0]);
    NameLookIs(e, b, p, true);
    NameCharsQuiet(e, b, p + |cs[0]|, cs[1..], m);
    if n.prefix != [] {
      var colon := if m.TagName? then TagColon else AttColon;
      HasByte(b, q, 0x3A);
      ColonQuiet(e, b, q, m);
      QuietTwice(e, b, p + |cs[0]|, m, q, m, q + 1, colon);
      IsNameQuiet(e, b, q + 1, n.local, colon);
      QuietTwice(e, b, p + |cs[0]|, m, q + 1, colon, p + |PrintQName(n)|, Begun(colon, q + 1));
    }
  }

  lemma SpaceQuiet(e: Encoding, b: Text, p: nat, m: Mode)
    requires p < |b| && Space(e.typeOf(b[p])) && (m.TagSpace? || m.BetweenAtts? || m.BeforeEquals? || m.BeforeQuote?)
    ensures Quiet(e, b, p, m, p + 1, m)
  {
    NoName(e, b, p);
    hide NameLook, XmlGetAtts.Spans, Quiet;
    QuietStep(e, b, p, m, p + 1, m);
  }

  lemma {:induction false} SpacesQuiet(e: Encoding, b: Text, p: nat, s: Text, m: Mode)
    requires AsciiTable(e) && (m.TagSpace? || m.BetweenAtts? || m.BeforeEquals? || m.BeforeQuote?)
    requires IsSpace(s) && Has(b, p, s)
    ensures Quiet(e, b, p, m, p + |s|, m)
    decreases |s|
  {
    hide AsciiTable, Quiet;
    if s != [] {
      assert s == [s[0]] + s[1..];
      HasSplit(b, p, [s[0]], s[1..]);
      HasByte(b, p, s[0]);
      SpaceAndColon(e, s[0]);
      SpaceQuiet(e, b, p, m);
      SpacesQuiet(e, b, p + 1, s[1..], m);
      QuietTwice(e, b, p, m, p + 1, m, p + |s|, m);
    } else {
      QuietNothing(e, b, p, m);
    }
  }

  lemma FirstSpaceQuiet(e: Encoding, b: Text, p: nat, m: Mode)
    requires p < |b| && Space(e.typeOf(b[p])) && (m.TagName? || m.AfterValue? || m.AttName?)
    ensures Quiet(e, b, p, m, p + 1, Spaced(m))
  {
    NoName(e, b, p);
    hide NameLook, XmlGetAtts.Spans, Quiet;
    QuietStep(e, b, p, m, p + 1, Spaced(m));
  }

  lemma SpaceBehindQuiet(e: Encoding, b: Text, p: nat, s: Text, m: Mode)
    requires AsciiTable(e) && (m.TagName? || m.AfterValue? || m.AttName?) && IsSpace(s) && Has(b, p, s)
    ensures Quiet(e, b, p, m, p + |s|, if s == [] then m else Spaced(m))
  {
    hide AsciiTable, Quiet;
    if s != [] {
      assert s == [s[0]] + s[1..];
      HasSplit(b, p, [s[0]], s[1..]);
      HasByte(b, p, s[0]);
      SpaceAndColon(e, s[0]);
      FirstSpaceQuiet(e, b, p, m);
      SpacesQuiet(e, b, p + 1, s[1..], Spaced(m));
      QuietTwice(e, b, p, m, p + 1, Spaced(m), p + |s|, Spaced(m));
    } else {
      QuietNothing(e, b, p, m);
    }
  }

  /* ----- values ----- */

  lemma RefByteQuiet(e: Encoding, b: Text, p: nat, m: Mode, m': Mode)
    requires AsciiTable(e) && p < |b| && IsRefMode(m) && m.place.InQuotes?
    requires RefStep(e, b, p, m) == To(p + 1, m')
    ensures Quiet(e, b, p, m, p + 1, m')
  {
    hide AsciiTable, RefStep, XmlGetAtts.Spans, Quiet;
    RefTo(e, b, p, m);
    QuietStep(e, b, p, m, p + 1, m');
  }

  lemma RefTo(e: Encoding, b: Text, p: nat, m: Mode)
    requires p < |b| && IsRefMode(m)
    ensures var s := RefStep(e, b, p, m); s.To? ==> IsRefMode(s.mode) || s.mode.InValue?
  {
    hide NameLook;
  }

  lemma {:induction false} DigitsQuiet(e: Encoding, b: Text, p: nat, ds: Text, m: Mode)
    requires AsciiTable(e) && InDigits(m) && m.place.InQuotes? && Has(b, p, ds)
    requires forall k: nat :: k < |ds| ==> IsDigitOf(m, ds[k])
    ensures Quiet(e, b, p, m, p + |ds|, m)
    decreases |ds|
  {
    hide AsciiTable, Quiet, NameLook;
    if ds != [] {
      assert ds == [ds[0]] + ds[1..];
      HasSplit(b, p, [ds[0]], ds[1..]);
      HasByte(b, p, ds[0]);
      SpaceAndColon(e, ds[0]);
      RefByteQuiet(e, b, p, m, m);
      DigitsQuiet(e, b, p + 1, ds[1..], m);
      QuietTwice(e, b, p, m, p + 1, m, p + |ds|, m);
    } else {
      QuietNothing(e, b, p, m);
    }
  }

  lemma SemicolonQuiet(e: Encoding, b: Text, p: nat, m: Mode)
    requires AsciiTable(e) && p < |b| && b[p] == 0x3B && (m.RefName? || InDigits(m)) && m.place.InQuotes?
    ensures Quiet(e, b, p, m, p + 1, InValue(m.place.open))
  {
    hide AsciiTable, Quiet, NameLook;
    Punctuation(e, b[p]);
    NoName(e, b, p);
    RefByteQuiet(e, b, p, m, InValue(m.place.open));
  }

  lemma NumberQuiet(e: Encoding, b: Text, p: nat, ds: Text, place: Place, hex: bool)
    requires AsciiTable(e) && place.InQuotes? && ds != [] && Has(b, p, ds) && Has(b, p + |ds|, [0x3B])
    requires var m := if hex then HexDigits(place) else Digits(place); forall k: nat :: k < |ds| ==> IsDigitOf(m, ds[k])
    ensures Quiet(e, b, p, if hex then HexStart(place) else CharRefStart(place), p + |ds| + 1, InValue(place.open))
  {
    hide AsciiTable, Quiet, NameLook, Has;
    var m := if hex then HexDigits(place) else Digits(place);
    var start := if hex then HexStart(place) else CharRefStart(place);
    assert ds == [ds[0]] + ds[1..];
    HasSplit(b, p, [ds[0]], ds[1..]);
    HasByte(b, p, ds[0]);
    SpaceAndColon(e, ds[0]);
    RefByteQuiet(e, b, p, start, m);
    DigitsQuiet(e, b, p + 1, ds[1..], m);
    HasByte(b, p + |ds|, 0x3B);
    SemicolonQuiet(e, b, p + |ds|, m);
    QuietTwice(e, b, p, start, p + 1, m, p + |ds|, m);
    QuietTwice(e, b, p, start, p + |ds|, m, p + |ds| + 1, InValue(place.open));
  }

  lemma MarkQuiet(e: Encoding, b: Text, p: nat, place: Place)
    requires AsciiTable(e) && p < |b| && place.InQuotes?
    ensures b[p] == 0x23 ==> Quiet(e, b, p, RefStart(place), p + 1, CharRefStart(place))
    ensures b[p] == 0x78 ==> Quiet(e, b, p, CharRefStart(place), p + 1, HexStart(place))
  {
    hide AsciiTable, Quiet, NameLook;
    Punctuation(e, b[p]);
    NoName(e, b, p);
    if b[p] == 0x23 {
      RefByteQuiet(e, b, p, RefStart(place), CharRefStart(place));
    } else if b[p] == 0x78 {
      RefByteQuiet(e, b, p, CharRefStart(place), HexStart(place));
    }
  }

  lemma ReferenceQuiet(e: Encoding, b: Text, p: nat, r: Reference, open: ByteType)
    requires AsciiTable(e) && IsReference(e, r) && Has(b, p, PrintReference(r))
    ensures Quiet(e, b, p, RefStart(InQuotes(open)), p + |PrintReference(r)|, InValue(open))
  {
    hide AsciiTable, Quiet, Has, IsName, Flat;
    var place := InQuotes(open);
    var m, q := RefStart(place), p + |PrintReference(r)|;
    match r {
      case Named(name) =>
        HasSplit(b, p, Flat(name), [0x3B]);
        IsNameQuiet(e, b, p, name, m);
        HasByte(b, q - 1, 0x3B);
        SemicolonQuiet(e, b, q - 1, RefName(place));
        QuietTwice(e, b, p, m, q - 1, RefName(place), q, InValue(open));
      case Decimal(ds) =>
        HasSplit(b, p, [0x23] + ds, [0x3B]);
        HasSplit(b, p, [0x23], ds);
        HasByte(b, p, 0x23);
        MarkQuiet(e, b, p, place);
        NumberQuiet(e, b, p + 1, ds, place, false);
        QuietTwice(e, b, p, m, p + 1, CharRefStart(place), q, InValue(open));
      case Hexadecimal(ds) =>
        HasSplit(b, p, [0x23, 0x78] + ds, [0x3B]);
        HasSplit(b, p, [0x23, 0x78], ds);
        HasTwo(b, p, 0x23, 0x78, ds);
        MarkQuiet(e, b, p, place);
        MarkQuiet(e, b, p + 1, place);
        QuietTwice(e, b, p, m, p + 1, CharRefStart(place), p + 2, HexStart(place));
        NumberQuiet(e, b, p + 2, ds, place, true);
        QuietTwice(e, b, p, m, p + 2, HexStart(place), q, InValue(open));
    }
  }

  lemma ValueCharQuiet(e: Encoding, b: Text, p: nat, quote: Byte)
    requires AsciiTable(e) && p < |b| && (quote == 0x22 || quote == 0x27) && b[p] != quote
    ensures b[p] == 0x26 ==> Quiet(e, b, p, InValue(QuoteOf(quote)), p + 1, RefStart(InQuotes(QuoteOf(quote))))
    ensures b[p] != 0x26 && b[p] != 0x3C && AnyLook(e, b, p).Past? ==>
              Quiet(e, b, p, InValue(QuoteOf(quote)), AnyLook(e, b, p).next, InValue(QuoteOf(quote)))
  {
    hide AsciiTable, Quiet, AnyLook, XmlGetAtts.Spans;
    Punctuation(e, b[p]);
    var m := InValue(QuoteOf(quote));
    if b[p] == 0x26 {
      QuietStep(e, b, p, m, p + 1, RefStart(InQuotes(QuoteOf(quote))));
    } else if b[p] != 0x3C && AnyLook(e, b, p).Past? {
      QuietStep(e, b, p, m, AnyLook(e, b, p).next, m);
    }
  }

  lemma ItemQuiet(e: Encoding, b: Text, p: nat, i: Item, quote: Byte)
    requires AsciiTable(e) && IsItem(e, i, quote) && (quote == 0x22 || quote == 0x27) && Has(b, p, PrintItem(i))
    ensures Quiet(e, b, p, InValue(QuoteOf(quote)), p + |PrintItem(i)|, InValue(QuoteOf(quote)))
  {
    hide AsciiTable, Quiet, AnyLook, Has, PrintReference, IsReference;
    var m := InValue(QuoteOf(quote));
    match i {
      case One(c) =>
        HasChar(e, b, p, c);
        AnyLookIs(e, b, p);
        ValueCharQuiet(e, b, p, quote);
      case Ref(r) =>
        HasSplit(b, p, [0x26], PrintReference(r));
        HasByte(b, p, 0x26);
        ValueCharQuiet(e, b, p, quote);
        ReferenceQuiet(e, b, p + 1, r, QuoteOf(quote));
        QuietTwice(e, b, p, m, p + 1, RefStart(InQuotes(QuoteOf(quote))), p + |PrintItem(i)|, m);
    }
  }

  lemma {:induction false} ItemsQuiet(e: Encoding, b: Text, p: nat, items: seq<Item>, quote: Byte)
    requires AsciiTable(e) && AreItems(e, items, quote) && (quote == 0x22 || quote == 0x27)
             && Has(b, p, PrintItems(items))
    ensures Quiet(e, b, p, InValue(QuoteOf(quote)), p + |PrintItems(items)|, InValue(QuoteOf(quote)))
    decreases |items|
  {
    hide AsciiTable, Quiet, Has, PrintItem, IsItem;
    var m := InValue(QuoteOf(quote));
    if items == [] {
      HasNothing(b, p);
      QuietNothing(e, b, p, m);
    } else {
      var q := p + |PrintItem(items[0])|;
      HasSplit(b, p, PrintItem(items[0]), PrintItems(items[1..]));
      ItemQuiet(e, b, p, items[0], quote);
      ItemsQuiet(e, b, q, items[1..], quote);
      QuietTwice(e, b, p, m, q, m, p + |PrintItems(items)|, m);
    }
  }

  /* ----- attributes ----- */

  /** The name of an attribute begins, and its value begins and ends. */
  lemma NameEvent(e: Encoding, b: Text, p: nat, m: Mode, n: nat, v: nat)
    requires p < |b| && (m.TagSpace? || m.BetweenAtts?) && NameLook(e, b, p, true).Past?
    ensures XmlGetAtts.Spans(e, b, p, m, n, v) ==
              XmlGetAtts.Spans(e, b, NameLook(e, b, p, true).next, AttName(false), p, v)
  {
    hide NameLook, XmlGetAtts.Spans;
    XmlGetAtts.SpansTurn(e, b, p, m, n, v);
  }

  lemma OpenEvent(e: Encoding, b: Text, p: nat, n: nat, v: nat)
    requires AsciiTable(e) && p < |b| && (b[p] == 0x22 || b[p] == 0x27)
    ensures XmlGetAtts.Spans(e, b, p, BeforeQuote, n, v) ==
              XmlGetAtts.Spans(e, b, p + 1, InValue(QuoteOf(b[p])), n, p + 1)
  {
    hide AsciiTable, XmlGetAtts.Spans, NameLook;
    Punctuation(e, b[p]);
    XmlGetAtts.SpansTurn(e, b, p, BeforeQuote, n, v);
  }

  lemma CloseEvent(e: Encoding, b: Text, p: nat, n: nat, v: nat)
    requires AsciiTable(e) && p < |b| && (b[p] == 0x22 || b[p] == 0x27)
    ensures XmlGetAtts.Spans(e, b, p, InValue(QuoteOf(b[p])), n, v) ==
            [XmlGetAtts.Span(n, v, p)] + XmlGetAtts.Spans(e, b, p + 1, AfterValue, n, v)
  {
    hide AsciiTable, XmlGetAtts.Spans, AnyLook;
    Punctuation(e, b[p]);
    XmlGetAtts.SpansTurn(e, b, p, InValue(QuoteOf(b[p])), n, v);
  }

  lemma EqualsQuiet(e: Encoding, b: Text, p: nat, m: Mode)
    requires AsciiTable(e) && p < |b| && b[p] == 0x3D && (m.AttName? || m.BeforeEquals?)
    ensures Quiet(e, b, p, m, p + 1, BeforeQuote)
  {
    Punctuation(e, b[p]);
    NoName(e, b, p);
    hide AsciiTable, NameLook, XmlGetAtts.Spans, Quiet;
    QuietStep(e, b, p, m, p + 1, BeforeQuote);
  }

  lemma BetweenQuiet(e: Encoding, b: Text, p: nat, a: Attr, colon: bool)
    requires AsciiTable(e) && IsSpace(a.before) && IsSpace(a.behind)
    requires Has(b, p, a.before) && Has(b, p + |a.before|, [0x3D]) && Has(b, p + |a.before| + 1, a.behind)
    ensures Quiet(e, b, p, AttName(colon), p + |a.before| + 1 + |a.behind|, BeforeQuote)
  {
    hide AsciiTable, Quiet, Has, IsSpace;
    var q := p + |a.before|;
    var m := if a.before == [] then AttName(colon) else BeforeEquals;
    SpaceBehindQuiet(e, b, p, a.before, AttName(colon));
    HasByte(b, q, 0x3D);
    EqualsQuiet(e, b, q, m);
    SpacesQuiet(e, b, q + 1, a.behind, BeforeQuote);
    QuietTwice(e, b, p, AttName(colon), q, m, q + 1, BeforeQuote);
    QuietTwice(e, b, p, AttName(colon), q + 1, BeforeQuote, q + 1 + |a.behind|, BeforeQuote);
  }

  /** Where the name and the value of an attribute stand that is written at `p`. */
  function SpanOf(p: nat, a: Attr): XmlGetAtts.Span {
    var name := p + |a.space|;
    var value := name + |PrintQName(a.name)| + |a.before| + 1 + |a.behind| + 1;
    XmlGetAtts.Span(name, value, value + |PrintItems(a.value)|)
  }

  lemma AttrSpans(e: Encoding, b: Text, p: nat, a: Attr, m: Mode, n: nat, v: nat)
    requires AsciiTable(e) && IsAttr(e, a) && (m.TagName? || m.AfterValue?) && Has(b, p, PrintAttr(a))
    ensures p + |PrintAttr(a)| <= |b|
    ensures var s := SpanOf(p, a);
            XmlGetAtts.Spans(e, b, p, m, n, v) ==
            [s] + XmlGetAtts.Spans(e, b, p + |PrintAttr(a)|, AfterValue, s.name, s.value)
  {
    hide AsciiTable, Has, Quiet, XmlGetAtts.Spans, PrintQName, PrintItems, PrintAttr, IsQName, AreItems, IsSpace,
         NameLook;
    AttrParts(b, p, a);
    var s := SpanOf(p, a);
    NamePart(e, b, p, a, m, n, v);
    ValuePart(e, b, s.name + |PrintQName(a.name)|, a, s.name, v);
  }

  /** Up to the end of the name. */
  lemma NamePart(e: Encoding, b: Text, p: nat, a: Attr, m: Mode, n: nat, v: nat)
    requires AsciiTable(e) && IsAttr(e, a) && (m.TagName? || m.AfterValue?)
    requires Has(b, p, a.space) && Has(b, p + |a.space|, PrintQName(a.name))
    ensures var q := p + |a.space|;
            && q + |PrintQName(a.name)| <= |b|
            && XmlGetAtts.Spans(e, b, p, m, n, v) ==
               XmlGetAtts.Spans(e, b, q + |PrintQName(a.name)|, AttName(a.name.prefix != []), q, v)
  {
    hide AsciiTable, Has, XmlGetAtts.Spans, PrintQName, PrintItems, IsQName, AreItems, IsSpace, NameLook;
    var q := p + |a.space|;
    SpaceBehindQuiet(e, b, p, a.space, m);
    QNameRestQuiet(e, b, q, a.name, AttName(false));
    NameEvent(e, b, q, Spaced(m), n, v);
  }

  /** From the end of the name to the end of the value. */
  lemma ValuePart(e: Encoding, b: Text, p: nat, a: Attr, n: nat, v: nat)
    requires AsciiTable(e) && IsAttr(e, a)
    requires var s := p + |a.before|;
             var t := s + 1 + |a.behind|;
             && Has(b, p, a.before) && Has(b, s, [0x3D]) && Has(b, s + 1, a.behind) && Has(b, t, [a.quote])
             && Has(b, t + 1, PrintItems(a.value)) && Has(b, t + 1 + |PrintItems(a.value)|, [a.quote])
    ensures var value := p + |a.before| + 1 + |a.behind| + 1;
            var end := value + |PrintItems(a.value)|;
            && end < |b|
            && XmlGetAtts.Spans(e, b, p, AttName(a.name.prefix != []), n, v) ==
               [XmlGetAtts.Span(n, value, end)] + XmlGetAtts.Spans(e, b, end + 1, AfterValue, n, value)
  {
    hide AsciiTable, Has, XmlGetAtts.Spans, PrintQName, PrintItems, IsQName, AreItems, IsSpace;
    var t := p + |a.before| + 1 + |a.behind|;
    var end := t + 1 + |PrintItems(a.value)|;
    BetweenQuiet(e, b, p, a, a.name.prefix != []);
    HasByte(b, t, a.quote);
    OpenEvent(e, b, t, n, v);
    ItemsQuiet(e, b, t + 1, a.value, a.quote);
    HasByte(b, end, a.quote);
    CloseEvent(e, b, end, n, t + 1);
  }

  /** The attributes of a tag whose name ends at `p`. */
  function SpansOf(p: nat, atts: seq<Attr>): seq<XmlGetAtts.Span>
    decreases |atts|
  {
    if atts == [] then [] else [SpanOf(p, atts[0])] + SpansOf(p + |PrintAttr(atts[0])|, atts[1..])
  }

  lemma {:induction false} TailSpans(e: Encoding, b: Text, p: nat, t: Tail, m: Mode, n: nat, v: nat)
    requires AsciiTable(e) && IsTail(e, t) && (m.TagName? || m.AfterValue?) && Has(b, p, PrintTail(t))
    ensures p <= |b| && XmlGetAtts.Spans(e, b, p, m, n, v) == SpansOf(p, t.atts)
    decreases |t.atts|
  {
    hide AsciiTable, Has, XmlGetAtts.Spans, PrintAttr, IsAttr, IsSpace, Quiet;
    if t.atts == [] {
      HasSplit(b, p, t.space, if t.empty then [0x2F, 0x3E] else [0x3E]);
      NoMoreSpans(e, b, p, t, m, n, v);
    } else {
      var a, rest := t.atts[0], t.(atts := t.atts[1..]);
      HasSplit(b, p, PrintAttr(a), PrintTail(rest));
      AttrSpans(e, b, p, a, m, n, v);
      TailSpans(e, b, p + |PrintAttr(a)|, rest, AfterValue, SpanOf(p, a).name, SpanOf(p, a).value);
    }
  }

  lemma NoMoreSpans(e: Encoding, b: Text, p: nat, t: Tail, m: Mode, n: nat, v: nat)
    requires AsciiTable(e) && IsSpace(t.space) && (m.TagName? || m.AfterValue?)
    requires Has(b, p, t.space) && Has(b, p + |t.space|, if t.empty then [0x2F, 0x3E] else [0x3E])
    ensures p <= |b| && XmlGetAtts.Spans(e, b, p, m, n, v) == []
  {
    hide AsciiTable, Has, XmlGetAtts.Spans, IsSpace;
    var q := p + |t.space|;
    SpaceBehindQuiet(e, b, p, t.space, m);
    if t.empty {
      assert [0x2F, 0x3E] == [0x2F, 0x3E] + [];
      HasTwo(b, q, 0x2F, 0x3E, []);
    } else {
      HasByte(b, q, 0x3E);
    }
    LastSpans(e, b, q, if t.space == [] then m else Spaced(m), n, v);
  }

  lemma LastSpans(e: Encoding, b: Text, p: nat, m: Mode, n: nat, v: nat)
    requires AsciiTable(e) && p < |b| && (b[p] == 0x3E || (b[p] == 0x2F && p + 1 < |b| && b[p + 1] == 0x3E))
    requires m.TagName? || m.TagSpace? || m.AfterValue? || m.BetweenAtts?
    ensures XmlGetAtts.Spans(e, b, p, m, n, v) == []
  {
    hide AsciiTable, OneStep, XmlGetAtts.Spans;
    LastStep(e, b, p, m);
    XmlGetAtts.SpansTurn(e, b, p, m, n, v);
    if b[p] == 0x2F {
      XmlGetAtts.NoSpansInSlash(e, b, p + 1, Slash(m.AfterValue? || m.BetweenAtts?), n, v);
    }
  }

  lemma LastStep(e: Encoding, b: Text, p: nat, m: Mode)
    requires AsciiTable(e) && p < |b| && (b[p] == 0x3E || b[p] == 0x2F)
    requires m.TagName? || m.TagSpace? || m.AfterValue? || m.BetweenAtts?
    ensures if b[p] == 0x3E then OneStep(e, b, p, m).Stop?
            else OneStep(e, b, p, m) == To(p + 1, Slash(m.AfterValue? || m.BetweenAtts?))
  {
    Punctuation(e, b[p]);
    NoName(e, b, p);
    hide AsciiTable, NameLook;
    if m.TagName? || m.TagSpace? {
      assert OneStep(e, b, p, m) == TagStep(e, b, p, m);
    } else {
      assert OneStep(e, b, p, m) == AttStep(e, b, p, m);
    }
  }

  /** In every tag of the grammar, and so in every tag that is accepted, `getAtts` finds the
      attributes that are written there, each with the place of its name and of its value. */
  lemma AttributesAreWritten(e: Encoding, b: Text, start: nat, name: QName, t: Tail)
    requires AsciiTable(e) && IsMarkup(e, Element(name, t)) && Has(b, start, Print(Element(name, t)))
    ensures XmlGetAtts.StartTag(e, b, start)
    ensures XmlGetAtts.Attributes(e, b, start) == SpansOf(start + 1 + |PrintQName(name)|, t.atts)
  {
    hide AsciiTable, Has, XmlGetAtts.Spans, PrintQName, IsQName, NameLook, PrintTail, IsTail, Run;
    var p := start + 1 + |PrintQName(name)|;
    HasSplit(b, start, [0x3C], PrintQName(name) + PrintTail(t));
    HasSplit(b, start + 1, PrintQName(name), PrintTail(t));
    QNameRestQuiet(e, b, start + 1, name, TagName(false));
    TailSpans(e, b, p, t, TagName(name.prefix != []), 0, 0);
    ReadsElement(e, b, start + 1, name, t);
    NameBegins(e, b, start + 1, AfterLt);
  }
}
