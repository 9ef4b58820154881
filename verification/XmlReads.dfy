/**
 All markup of the grammar is read: the tokenizer finds it, as the token that it is, and ends
 behind it, whatever follows.
 */
module XmlReads {
  import opened XmlTok
  import opened XmlScan
  import opened XmlRef
  import opened XmlGrammar

  /* ----- names ----- */

  predicate InName(m: Mode) {
    m.TagName? || m.AttName? || m.RefName? || m.PiTarget? || m.EndTagName?
  }

  predicate BeforeName(m: Mode) {
    m.AfterLt? || m.EndTagStart? || m.RefStart? || m.PiStart? || m.TagSpace? || m.BetweenAtts? || m.TagColon?
    || m.AttColon?
  }

  /** Where the scanner is behind the first character of a name that begins at `p`. */
  function Begun(m: Mode, p: nat): Mode
    requires BeforeName(m)
    ensures InName(Begun(m, p))
  {
    match m
    case AfterLt => TagName(false)
    case EndTagStart => EndTagName
    case RefStart(place) => RefName(place)
    case PiStart => PiTarget(p)
    case TagColon => TagName(true)
    case AttColon => AttName(true)
    case _ => AttName(false)
  }

  lemma NameOn(e: Encoding, b: Text, p: nat, m: Mode)
    requires Sane(b, p, m) && InName(m) && p < |b| && NameLook(e, b, p, false).Past?
    ensures Sane(b, NameLook(e, b, p, false).next, m)
    ensures Run(e, b, p, m) == Run(e, b, NameLook(e, b, p, false).next, m)
  {
    hide Run, NameLook;
    if m.TagName? {
      RunTag(e, b, p, m);
    } else if m.AttName? {
      RunAtt(e, b, p, m);
    } else if m.RefName? {
      RunRef(e, b, p, m);
    } else {
      RunNamed(e, b, p, m);
    }
  }

  lemma NameBegins(e: Encoding, b: Text, p: nat, m: Mode)
    requires BeforeName(m) && p < |b| && NameLook(e, b, p, true).Past?
    ensures Run(e, b, p, m) == Run(e, b, NameLook(e, b, p, true).next, Begun(m, p))
  {
    hide Run, NameLook;
    if m.AfterLt? {
      RunDecl(e, b, p, m);
    } else if m.RefStart? {
      RunRef(e, b, p, m);
    } else if m.TagSpace? || m.TagColon? {
      RunTag(e, b, p, m);
    } else if m.BetweenAtts? || m.AttColon? {
      RunAtt(e, b, p, m);
    } else {
      RunNamed(e, b, p, m);
    }
  }

  lemma HasChar(e: Encoding, b: Text, p: nat, c: Text)
    requires c != [] && |c| == Width(e.typeOf(c[0])) && Has(b, p, c)
    ensures p < |b| && p + Width(e.typeOf(b[p])) == p + |c| <= |b| && b[p..p + |c|] == c && b[p] == c[0]
  {
    assert b[p..p + |c|][0] == b[p];
  }

  lemma NameCharSize(e: Encoding, c: Text, start: bool)
    requires IsNameChar(e, c, start)
    ensures c != [] && |c| == Width(e.typeOf(c[0]))
  {
  }

  lemma {:induction false} ReadsNameChars(e: Encoding, b: Text, p: nat, cs: Chars, m: Mode)
    requires AsciiTable(e) && Sane(b, p, m) && InName(m) && NameChars(e, cs) && Has(b, p, Flat(cs))
    ensures Sane(b, p + |Flat(cs)|, m)
    ensures Run(e, b, p, m) == Run(e, b, p + |Flat(cs)|, m)
    decreases |cs|
  {
    hide AsciiTable, Run, NameLook, Has, Width, IsNameChar;
    if cs != [] {
      NameCharSize(e, cs[0], false);
      HasSplit(b, p, cs[0], Flat(cs[1..]));
      HasChar(e, b, p, cs[0]);
      NameLookIs(e, b, p, false);
      NameOn(e, b, p, m);
      ReadsNameChars(e, b, p + |cs[0]|, cs[1..], m);
    } else {
      HasNothing(b, p);
    }
  }

  lemma ReadsName(e: Encoding, b: Text, p: nat, cs: Chars, m: Mode)
    requires AsciiTable(e) && BeforeName(m) && IsName(e, cs) && Has(b, p, Flat(cs))
    ensures p <= |b| && Sane(b, p + |Flat(cs)|, Begun(m, p))
    ensures Run(e, b, p, m) == Run(e, b, p + |Flat(cs)|, Begun(m, p))
  {
    hide AsciiTable, Run, NameLook, Has, NameChars, Width, IsNameChar;
    NameCharSize(e, cs[0], true);
    HasSplit(b, p, cs[0], Flat(cs[1..]));
    HasChar(e, b, p, cs[0]);
    NameLookIs(e, b, p, true);
    NameBegins(e, b, p, m);
    ReadsNameChars(e, b, p + |cs[0]|, cs[1..], Begun(m, p));
  }

  /** Behind a name with a prefix no further colon is taken. */
  function InQName(m: Mode, n: QName): Mode
    requires m.AfterLt? || m.TagSpace? || m.BetweenAtts?
  {
    if m.AfterLt? then TagName(n.prefix != []) else AttName(n.prefix != [])
  }

  lemma ColonOn(e: Encoding, b: Text, p: nat, m: Mode)
    requires p < |b| && e.typeOf(b[p]) == Colon && (m == TagName(false) || m == AttName(false))
    ensures Run(e, b, p, m) == Run(e, b, p + 1, if m.TagName? then TagColon else AttColon)
  {
    hide Run;
    if m.TagName? {
      RunTagName(e, b, p, false);
    } else {
      RunAttName(e, b, p, false);
    }
  }

  lemma ReadsQName(e: Encoding, b: Text, p: nat, n: QName, m: Mode)
    requires AsciiTable(e) && IsQName(e, n) && Has(b, p, PrintQName(n)) && (m.AfterLt? || m.TagSpace? || m.BetweenAtts?)
    ensures p + |PrintQName(n)| <= |b|
    ensures Run(e, b, p, m) == Run(e, b, p + |PrintQName(n)|, InQName(m, n))
  {
    hide AsciiTable, Run, Has, IsName, Flat;
    if n.prefix == [] {
      assert PrintQName(n) == Flat(n.local);
      ReadsName(e, b, p, n.local, m);
    } else {
      var q := p + |Flat(n.prefix)|;
      HasSplit(b, p, Flat(n.prefix) + [0x3A], Flat(n.local));
      HasSplit(b, p, Flat(n.prefix), [0x3A]);
      HasByte(b, q, 0x3A);
      ReadsName(e, b, p, n.prefix, m);
      ColonOn(e, b, q, Begun(m, p));
      ReadsName(e, b, q + 1, n.local, if m.AfterLt? then TagColon else AttColon);
    }
  }

  /* ----- white space ----- */

  predicate InSpace(m: Mode) {
    m.TagSpace? || m.BetweenAtts? || m.BeforeEquals? || m.BeforeQuote? || m.EndTagSpace?
  }

  lemma SpaceOn(e: Encoding, b: Text, p: nat, m: Mode)
    requires InSpace(m) && p < |b| && Space(e.typeOf(b[p]))
    ensures Run(e, b, p, m) == Run(e, b, p + 1, m)
  {
    hide Run;
    if m.TagSpace? {
      RunTag(e, b, p, m);
    } else if m.EndTagSpace? {
      RunNamed(e, b, p, m);
    } else {
      RunAtt(e, b, p, m);
    }
  }

  lemma {:induction false} ReadsSpace(e: Encoding, b: Text, p: nat, s: Text, m: Mode)
    requires AsciiTable(e) && InSpace(m) && IsSpace(s) && Has(b, p, s)
    ensures Run(e, b, p, m) == Run(e, b, p + |s|, m)
    decreases |s|
  {
    hide AsciiTable, Run;
    if s != [] {
      assert s == [s[0]] + s[1..];
      HasSplit(b, p, [s[0]], s[1..]);
      HasByte(b, p, s[0]);
      SpaceAndColon(e, s[0]);
      SpaceOn(e, b, p, m);
      ReadsSpace(e, b, p + 1, s[1..], m);
    }
  }

  /** The first white space behind a name or a value. */
  function Spaced(m: Mode): Mode
    requires m.TagName? || m.AfterValue? || m.AttName? || m.EndTagName?
  {
    if m.TagName? then TagSpace
    else if m.AfterValue? then BetweenAtts
    else if m.AttName? then BeforeEquals
    else EndTagSpace
  }

  lemma SpaceBegins(e: Encoding, b: Text, p: nat, m: Mode)
    requires p < |b| && Space(e.typeOf(b[p])) && (m.TagName? || m.AfterValue? || m.AttName? || m.EndTagName?)
    ensures Run(e, b, p, m) == Run(e, b, p + 1, Spaced(m))
  {
    hide Run;
    if m.TagName? {
      RunTagName(e, b, p, m.colon);
    } else if m.AttName? {
      RunAttName(e, b, p, m.colon);
    } else if m.EndTagName? {
      RunEndTagName(e, b, p);
    } else {
      RunAtt(e, b, p, m);
    }
  }

  /** White space behind a name or a value, if there is any. */
  lemma ReadsSpaceBehind(e: Encoding, b: Text, p: nat, s: Text, m: Mode)
    requires AsciiTable(e) && (m.TagName? || m.AfterValue? || m.AttName? || m.EndTagName?) && IsSpace(s) && Has(b, p, s)
    ensures Run(e, b, p, m) == Run(e, b, p + |s|, if s == [] then m else Spaced(m))
  {
    hide AsciiTable, Run;
    if s != [] {
      assert s == [s[0]] + s[1..];
      HasSplit(b, p, [s[0]], s[1..]);
      HasByte(b, p, s[0]);
      SpaceAndColon(e, s[0]);
      SpaceBegins(e, b, p, m);
      ReadsSpace(e, b, p + 1, s[1..], Spaced(m));
    }
  }

  /* ----- references ----- */

  function TokenOfRef(r: Reference): Token {
    if r.Named? then EntityRef else CharRef
  }

  /** Behind a reference: a token in content, and the rest of the value in a value. */
  function BehindRef(e: Encoding, b: Text, q: nat, r: Reference, place: Place): Result
    requires q <= |b|
  {
    match place case InContent => Tok(TokenOfRef(r), q) case InQuotes(open) => Run(e, b, q, InValue(open))
  }

  predicate InDigits(m: Mode) {
    m.Digits? || m.HexDigits?
  }

  predicate IsDigitOf(m: Mode, c: Byte) {
    0x30 <= c <= 0x39 || (m.HexDigits? && (0x41 <= c <= 0x46 || 0x61 <= c <= 0x66))
  }

  lemma DigitOn(e: Encoding, b: Text, p: nat, m: Mode)
    requires AsciiTable(e) && InDigits(m) && p < |b| && IsDigitOf(m, b[p])
    ensures Run(e, b, p, m) == Run(e, b, p + 1, m)
  {
    hide AsciiTable, Run, NameLook;
    SpaceAndColon(e, b[p]);
    RunRef(e, b, p, m);
  }

  lemma {:induction false} ReadsDigits(e: Encoding, b: Text, p: nat, ds: Text, m: Mode)
    requires AsciiTable(e) && InDigits(m) && (forall k: nat :: k < |ds| ==> IsDigitOf(m, ds[k])) && Has(b, p, ds)
    ensures Run(e, b, p, m) == Run(e, b, p + |ds|, m)
    decreases |ds|
  {
    hide AsciiTable, Run;
    if ds != [] {
      assert ds == [ds[0]] + ds[1..];
      HasSplit(b, p, [ds[0]], ds[1..]);
      HasByte(b, p, ds[0]);
      DigitOn(e, b, p, m);
      ReadsDigits(e, b, p + 1, ds[1..], m);
    }
  }

  /** The first digit. */
  lemma DigitBegins(e: Encoding, b: Text, p: nat, place: Place, hex: bool)
    requires AsciiTable(e) && p < |b| && IsDigitOf(if hex then HexDigits(place) else Digits(place), b[p])
    ensures Run(e, b, p, if hex then HexStart(place) else CharRefStart(place)) ==
            Run(e, b, p + 1, if hex then HexDigits(place) else Digits(place))
  {
    hide AsciiTable, Run, NameLook;
    SpaceAndColon(e, b[p]);
    RunRef(e, b, p, if hex then HexStart(place) else CharRefStart(place));
  }

  lemma SemicolonEnds(e: Encoding, b: Text, p: nat, r: Reference, m: Mode)
    requires AsciiTable(e) && p < |b| && b[p] == 0x3B
    requires if r.Named? then m.RefName? else if r.Decimal? then m.Digits? else m.HexDigits?
    ensures Run(e, b, p, m) == BehindRef(e, b, p + 1, r, m.place)
  {
    hide AsciiTable, Run, NameLook;
    Punctuation(e, b[p]);
    NoName(e, b, p);
    RunRef(e, b, p, m);
  }

  /** Punctuation is no part of a name. */
  lemma NoName(e: Encoding, b: Text, p: nat)
    requires p < |b|
    ensures var t := e.typeOf(b[p]);
            t == Semi || t == Sol || t == Gt || t == Equals || t == Quest || t == Colon || t == Num || t == Excl
              || Space(t) ==>
              NameLook(e, b, p, true).NotThis? && NameLook(e, b, p, false).NotThis?
  {
  }

  /** `#`, and `x` behind it for a hexadecimal number. */
  lemma NumberBegins(e: Encoding, b: Text, p: nat, place: Place)
    requires AsciiTable(e) && p < |b|
    ensures b[p] == 0x23 ==> Run(e, b, p, RefStart(place)) == Run(e, b, p + 1, CharRefStart(place))
    ensures b[p] == 0x78 ==> Run(e, b, p, CharRefStart(place)) == Run(e, b, p + 1, HexStart(place))
  {
    hide AsciiTable, Run;
    Punctuation(e, b[p]);
    RunRef(e, b, p, RefStart(place));
    RunRef(e, b, p, CharRefStart(place));
  }

  lemma ReadsReference(e: Encoding, b: Text, p: nat, r: Reference, place: Place)
    requires AsciiTable(e) && IsReference(e, r) && Has(b, p, PrintReference(r))
    ensures p + |PrintReference(r)| <= |b|
    ensures Run(e, b, p, RefStart(place)) == BehindRef(e, b, p + |PrintReference(r)|, r, place)
  {
    hide AsciiTable, Run, BehindRef, Has;
    match r {
      case Named(name) =>
        HasSplit(b, p, Flat(name), [0x3B]);
        ReadsName(e, b, p, name, RefStart(place));
        HasByte(b, p + |Flat(name)|, 0x3B);
        SemicolonEnds(e, b, p + |Flat(name)|, r, RefName(place));
      case Decimal(ds) =>
        HasSplit(b, p, [0x23] + ds, [0x3B]);
        HasSplit(b, p, [0x23], ds);
        HasByte(b, p, 0x23);
        NumberBegins(e, b, p, place);
        ReadsNumber(e, b, p + 1, ds, r, place, false);
      case Hexadecimal(ds) =>
        HasSplit(b, p, [0x23, 0x78] + ds, [0x3B]);
        HasSplit(b, p, [0x23, 0x78], ds);
        assert [0x23, 0x78] == [0x23] + [0x78];
        HasSplit(b, p, [0x23], [0x78]);
        HasByte(b, p, 0x23);
        HasByte(b, p + 1, 0x78);
        NumberBegins(e, b, p, place);
        NumberBegins(e, b, p + 1, place);
        ReadsNumber(e, b, p + 2, ds, r, place, true);
    }
  }

  lemma ReadsNumber(e: Encoding, b: Text, p: nat, ds: Text, r: Reference, place: Place, hex: bool)
    requires AsciiTable(e) && ds != [] && r == (if hex then Hexadecimal(ds) else Decimal(ds)) && IsReference(e, r)
    requires Has(b, p, ds) && Has(b, p + |ds|, [0x3B])
    ensures p + |ds| + 1 <= |b|
    ensures Run(e, b, p, if hex then HexStart(place) else CharRefStart(place)) ==
              BehindRef(e, b, p + |ds| + 1, r, place)
  {
    hide AsciiTable, Run, BehindRef, Has;
    var m := if hex then HexDigits(place) else Digits(place);
    assert ds == [ds[0]] + ds[1..];
    HasSplit(b, p, [ds[0]], ds[1..]);
    HasByte(b, p, ds[0]);
    DigitBegins(e, b, p, place, hex);
    ReadsDigits(e, b, p + 1, ds[1..], m);
    HasByte(b, p + |ds|, 0x3B);
    SemicolonEnds(e, b, p + |ds|, r, m);
  }

  /* ----- attributes ----- */

  function QuoteOf(quote: Byte): ByteType {
    if quote == 0x22 then Quot else Apos
  }

  lemma ValueChar(e: Encoding, b: Text, p: nat, quote: Byte)
    requires AsciiTable(e) && p < |b| && (quote == 0x22 || quote == 0x27)
    ensures var m, t, l := InValue(QuoteOf(quote)), e.typeOf(b[p]), AnyLook(e, b, p);
            && (b[p] == quote ==> Run(e, b, p, m) == Run(e, b, p + 1, AfterValue))
            && (b[p] == 0x26 ==> Run(e, b, p, m) == Run(e, b, p + 1, RefStart(InQuotes(QuoteOf(quote)))))
            && (b[p] !in {0x3C, 0x26, quote} && l.Past? ==> Run(e, b, p, m) == Run(e, b, l.next, m))
  {
    hide AsciiTable, Run, AnyLook;
    Punctuation(e, b[p]);
    RunAtt(e, b, p, InValue(QuoteOf(quote)));
  }

  lemma ReadsItem(e: Encoding, b: Text, p: nat, i: Item, quote: Byte)
    requires AsciiTable(e) && IsItem(e, i, quote) && (quote == 0x22 || quote == 0x27) && Has(b, p, PrintItem(i))
    ensures p + |PrintItem(i)| <= |b|
    ensures Run(e, b, p, InValue(QuoteOf(quote))) == Run(e, b, p + |PrintItem(i)|, InValue(QuoteOf(quote)))
  {
    hide AsciiTable, Run, AnyLook, Has, PrintReference, IsReference;
    match i {
      case One(c) =>
        HasChar(e, b, p, c);
        AnyLookIs(e, b, p);
        ValueChar(e, b, p, quote);
      case Ref(r) =>
        HasSplit(b, p, [0x26], PrintReference(r));
        HasByte(b, p, 0x26);
        ValueChar(e, b, p, quote);
        ReadsReference(e, b, p + 1, r, InQuotes(QuoteOf(quote)));
    }
  }

  lemma {:induction false} ReadsItems(e: Encoding, b: Text, p: nat, items: seq<Item>, quote: Byte)
    requires AsciiTable(e) && AreItems(e, items, quote) && (quote == 0x22 || quote == 0x27)
             && Has(b, p, PrintItems(items))
    ensures p + |PrintItems(items)| <= |b|
    ensures Run(e, b, p, InValue(QuoteOf(quote))) == Run(e, b, p + |PrintItems(items)|, InValue(QuoteOf(quote)))
    decreases |items|
  {
    hide AsciiTable, Run, Has, PrintItem, IsItem;
    if items == [] {
      HasNothing(b, p);
    } else {
      HasSplit(b, p, PrintItem(items[0]), PrintItems(items[1..]));
      ReadsItem(e, b, p, items[0], quote);
      ReadsItems(e, b, p + |PrintItem(items[0])|, items[1..], quote);
    }
  }

  /** From behind a value or the name of the tag through the name of an attribute. */
  lemma ReadsAttrName(e: Encoding, b: Text, p: nat, a: Attr, m: Mode)
    requires AsciiTable(e) && IsAttr(e, a) && (m.TagName? || m.AfterValue?)
    requires Has(b, p, a.space) && Has(b, p + |a.space|, PrintQName(a.name))
    ensures p + |a.space| + |PrintQName(a.name)| <= |b|
    ensures Run(e, b, p, m) == Run(e, b, p + |a.space| + |PrintQName(a.name)|, AttName(a.name.prefix != []))
  {
    hide AsciiTable, Run, Has, PrintQName, IsQName;
    ReadsSpaceBehind(e, b, p, a.space, m);
    ReadsQName(e, b, p + |a.space|, a.name, Spaced(m));
  }

  /** The equals sign and the white space around it. */
  lemma ReadsEquals(e: Encoding, b: Text, p: nat, a: Attr, colon: bool)
    requires AsciiTable(e) && IsSpace(a.before) && IsSpace(a.behind)
    requires Has(b, p, a.before) && Has(b, p + |a.before|, [0x3D]) && Has(b, p + |a.before| + 1, a.behind)
    ensures Run(e, b, p, AttName(colon)) == Run(e, b, p + |a.before| + 1 + |a.behind|, BeforeQuote)
  {
    hide AsciiTable, Run;
    var q := p + |a.before|;
    ReadsSpaceBehind(e, b, p, a.before, AttName(colon));
    HasByte(b, q, 0x3D);
    EqualsSign(e, b, q, if a.before == [] then AttName(colon) else BeforeEquals);
    ReadsSpace(e, b, q + 1, a.behind, BeforeQuote);
  }

  lemma EqualsSign(e: Encoding, b: Text, p: nat, m: Mode)
    requires AsciiTable(e) && p < |b| && b[p] == 0x3D && (m.AttName? || m.BeforeEquals?)
    ensures Run(e, b, p, m) == Run(e, b, p + 1, BeforeQuote)
  {
    hide AsciiTable, Run;
    Punctuation(e, b[p]);
    RunAtt(e, b, p, m);
  }

  lemma OpeningQuote(e: Encoding, b: Text, p: nat)
    requires AsciiTable(e) && p < |b| && (b[p] == 0x22 || b[p] == 0x27)
    ensures Run(e, b, p, BeforeQuote) == Run(e, b, p + 1, InValue(QuoteOf(b[p])))
  {
    hide AsciiTable, Run, NameLook, AnyLook;
    Punctuation(e, b[p]);
    RunAtt(e, b, p, BeforeQuote);
  }

  lemma ReadsValue(e: Encoding, b: Text, p: nat, a: Attr)
    requires AsciiTable(e) && AreItems(e, a.value, a.quote) && (a.quote == 0x22 || a.quote == 0x27)
    requires Has(b, p, [a.quote]) && Has(b, p + 1, PrintItems(a.value))
             && Has(b, p + 1 + |PrintItems(a.value)|, [a.quote])
    ensures p + 2 + |PrintItems(a.value)| <= |b|
    ensures Run(e, b, p, BeforeQuote) == Run(e, b, p + 2 + |PrintItems(a.value)|, AfterValue)
  {
    hide AsciiTable, Run, Has, PrintItems, AreItems;
    HasByte(b, p, a.quote);
    OpeningQuote(e, b, p);
    ReadsItems(e, b, p + 1, a.value, a.quote);
    var q := p + 1 + |PrintItems(a.value)|;
    HasByte(b, q, a.quote);
    ValueChar(e, b, q, a.quote);
  }

  /** The parts of an attribute are one behind the other. */
  lemma AttrParts(b: Text, p: nat, a: Attr)
    requires Has(b, p, PrintAttr(a))
    ensures var q := p + |a.space|;
            var r := q + |PrintQName(a.name)|;
            var s := r + |a.before|;
            var t := s + 1 + |a.behind|;
            var u := t + 1 + |PrintItems(a.value)|;
            && Has(b, p, a.space) && Has(b, q, PrintQName(a.name)) && Has(b, r, a.before) && Has(b, s, [0x3D])
            && Has(b, s + 1, a.behind) && Has(b, t, [a.quote]) && Has(b, t + 1, PrintItems(a.value))
            && Has(b, u, [a.quote]) && p + |PrintAttr(a)| == u + 1
  {
    hide Has, PrintQName, PrintItems;
    var value := PrintItems(a.value) + [a.quote];
    var quoted := [a.quote] + value;
    var behind := a.behind + quoted;
    var equals := [0x3D] + behind;
    var before := a.before + equals;
    var name := PrintQName(a.name) + before;
    HasSplit(b, p, a.space, name);
    var q := p + |a.space|;
    HasSplit(b, q, PrintQName(a.name), before);
    var r := q + |PrintQName(a.name)|;
    HasSplit(b, r, a.before, equals);
    var s := r + |a.before|;
    HasSplit(b, s, [0x3D], behind);
    HasSplit(b, s + 1, a.behind, quoted);
    var t := s + 1 + |a.behind|;
    HasSplit(b, t, [a.quote], value);
    HasSplit(b, t + 1, PrintItems(a.value), [a.quote]);
  }

  lemma ReadsAttr(e: Encoding, b: Text, p: nat, a: Attr, m: Mode)
    requires AsciiTable(e) && IsAttr(e, a) && (m.TagName? || m.AfterValue?) && Has(b, p, PrintAttr(a))
    ensures p + |PrintAttr(a)| <= |b|
    ensures Run(e, b, p, m) == Run(e, b, p + |PrintAttr(a)|, AfterValue)
  {
    hide AsciiTable, Run, Has, PrintQName, PrintItems, PrintAttr, AreItems, IsQName, IsSpace;
    AttrParts(b, p, a);
    var q := p + |a.space| + |PrintQName(a.name)|;
    ReadsAttrName(e, b, p, a, m);
    ReadsEquals(e, b, q, a, a.name.prefix != []);
    ReadsValue(e, b, q + |a.before| + 1 + |a.behind|, a);
  }

  /* ----- tags ----- */

  lemma TagEnds(e: Encoding, b: Text, p: nat, m: Mode, empty: bool)
    requires AsciiTable(e) && (m.TagName? || m.TagSpace? || m.AfterValue? || m.BetweenAtts?)
    requires Has(b, p, if empty then [0x2F, 0x3E] else [0x3E])
    ensures Run(e, b, p, m) ==
            Tok(TagToken(m.AfterValue? || m.BetweenAtts?, empty), p + if empty then 2 else 1)
  {
    hide Run;
    if empty {
      assert [0x2F, 0x3E] == [0x2F] + [0x3E];
      HasSplit(b, p, [0x2F], [0x3E]);
      HasByte(b, p, 0x2F);
      HasByte(b, p + 1, 0x3E);
      SlashOn(e, b, p, m);
      SlashEnds(e, b, p + 1, m.AfterValue? || m.BetweenAtts?);
    } else {
      HasByte(b, p, 0x3E);
      GreaterEnds(e, b, p, m);
    }
  }

  lemma SlashOn(e: Encoding, b: Text, p: nat, m: Mode)
    requires AsciiTable(e) && p < |b| && b[p] == 0x2F && (m.TagName? || m.TagSpace? || m.AfterValue? || m.BetweenAtts?)
    ensures Run(e, b, p, m) == Run(e, b, p + 1, Slash(m.AfterValue? || m.BetweenAtts?))
  {
    hide AsciiTable, Run, AnyLook, NameLook;
    Punctuation(e, b[p]);
    NoName(e, b, p);
    if m.TagName? || m.TagSpace? {
      RunTag(e, b, p, m);
    } else {
      RunAtt(e, b, p, m);
    }
  }

  lemma SlashEnds(e: Encoding, b: Text, p: nat, atts: bool)
    requires p < |b| && b[p] == 0x3E
    ensures Run(e, b, p, Slash(atts)) == Tok(TagToken(atts, true), p + 1)
  {
    hide Run, NameLook;
    RunTag(e, b, p, Slash(atts));
  }

  lemma GreaterEnds(e: Encoding, b: Text, p: nat, m: Mode)
    requires AsciiTable(e) && p < |b| && b[p] == 0x3E && (m.TagName? || m.TagSpace? || m.AfterValue? || m.BetweenAtts?)
    ensures Run(e, b, p, m) == Tok(TagToken(m.AfterValue? || m.BetweenAtts?, false), p + 1)
  {
    hide AsciiTable, Run, AnyLook, NameLook;
    Punctuation(e, b[p]);
    NoName(e, b, p);
    if m.TagName? || m.TagSpace? {
      RunTag(e, b, p, m);
    } else {
      RunAtt(e, b, p, m);
    }
  }

  lemma {:induction false} ReadsTail(e: Encoding, b: Text, p: nat, t: Tail, m: Mode)
    requires AsciiTable(e) && IsTail(e, t) && (m.TagName? || m.AfterValue?) && Has(b, p, PrintTail(t))
    ensures Run(e, b, p, m) == Tok(TagToken(m.AfterValue? || t.atts != [], t.empty), p + |PrintTail(t)|)
    decreases |t.atts|
  {
    hide AsciiTable, Run, Has, PrintAttr, IsAttr, IsSpace;
    if t.atts == [] {
      HasSplit(b, p, t.space, if t.empty then [0x2F, 0x3E] else [0x3E]);
      ReadsSpaceBehind(e, b, p, t.space, m);
      TagEnds(e, b, p + |t.space|, if t.space == [] then m else Spaced(m), t.empty);
    } else {
      var rest := t.(atts := t.atts[1..]);
      HasSplit(b, p, PrintAttr(t.atts[0]), PrintTail(rest));
      ReadsAttr(e, b, p, t.atts[0], m);
      ReadsTail(e, b, p + |PrintAttr(t.atts[0])|, rest, AfterValue);
    }
  }

  lemma ReadsElement(e: Encoding, b: Text, p: nat, name: QName, t: Tail)
    requires AsciiTable(e) && IsQName(e, name) && IsTail(e, t) && Has(b, p, PrintQName(name) + PrintTail(t))
    ensures Run(e, b, p, AfterLt) == Tok(TagToken(t.atts != [], t.empty), p + |PrintQName(name) + PrintTail(t)|)
  {
    hide AsciiTable, Run, Has, PrintQName, PrintTail, IsQName, IsTail;
    HasSplit(b, p, PrintQName(name), PrintTail(t));
    ReadsQName(e, b, p, name, AfterLt);
    ReadsTail(e, b, p + |PrintQName(name)|, t, TagName(name.prefix != []));
  }

  /* ----- end tags ----- */

  lemma EndCharOn(e: Encoding, b: Text, p: nat, c: Text)
    requires AsciiTable(e) && IsEndChar(e, c) && Has(b, p, c)
    ensures p + |c| <= |b|
    ensures Run(e, b, p, EndTagName) == Run(e, b, p + |c|, EndTagName)
  {
    hide AsciiTable, Run, NameLook;
    if c == [0x3A] && e.typeOf(0x3A) == Colon {
      HasByte(b, p, 0x3A);
      NoName(e, b, p);
      RunEndTagName(e, b, p);
    } else {
      HasChar(e, b, p, c);
      NameLookIs(e, b, p, false);
      NameOn(e, b, p, EndTagName);
    }
  }

  lemma {:induction false} ReadsEndChars(e: Encoding, b: Text, p: nat, cs: Chars)
    requires AsciiTable(e) && (forall k: nat :: k < |cs| ==> IsEndChar(e, cs[k])) && Has(b, p, Flat(cs))
    ensures p + |Flat(cs)| <= |b|
    ensures Run(e, b, p, EndTagName) == Run(e, b, p + |Flat(cs)|, EndTagName)
    decreases |cs|
  {
    hide AsciiTable, Run, Has, IsEndChar;
    if cs != [] {
      HasSplit(b, p, cs[0], Flat(cs[1..]));
      EndCharOn(e, b, p, cs[0]);
      ReadsEndChars(e, b, p + |cs[0]|, cs[1..]);
    } else {
      HasNothing(b, p);
    }
  }

  lemma EndTagEnds(e: Encoding, b: Text, p: nat, m: Mode)
    requires AsciiTable(e) && p < |b| && b[p] == 0x3E && (m.EndTagName? || m.EndTagSpace?)
    ensures Run(e, b, p, m) == Tok(EndTag, p + 1)
  {
    hide AsciiTable, Run, NameLook;
    Punctuation(e, b[p]);
    NoName(e, b, p);
    RunNamed(e, b, p, m);
  }

  lemma ReadsEndName(e: Encoding, b: Text, p: nat, name: Chars)
    requires AsciiTable(e) && name != [] && IsNameChar(e, name[0], true)
    requires (forall k: nat :: 1 <= k < |name| ==> IsEndChar(e, name[k])) && Has(b, p, Flat(name))
    ensures p + |Flat(name)| <= |b|
    ensures Run(e, b, p, EndTagStart) == Run(e, b, p + |Flat(name)|, EndTagName)
  {
    hide AsciiTable, Run, Has, NameLook, IsNameChar, IsEndChar, Width;
    HasSplit(b, p, name[0], Flat(name[1..]));
    NameCharSize(e, name[0], true);
    HasChar(e, b, p, name[0]);
    NameLookIs(e, b, p, true);
    NameBegins(e, b, p, EndTagStart);
    ReadsEndChars(e, b, p + |name[0]|, name[1..]);
  }

  lemma ReadsEnd(e: Encoding, b: Text, p: nat, name: Chars, space: Text)
    requires AsciiTable(e) && IsMarkup(e, EndTagOf(name, space)) && Has(b, p, Flat(name) + (space + [0x3E]))
    ensures Run(e, b, p, EndTagStart) == Tok(EndTag, p + |Flat(name) + (space + [0x3E])|)
  {
    hide AsciiTable, Run, Has, IsNameChar, IsEndChar, Flat, IsSpace;
    var q := p + |Flat(name)|;
    HasSplit(b, p, Flat(name), space + [0x3E]);
    HasSplit(b, q, space, [0x3E]);
    ReadsEndName(e, b, p, name);
    ReadsSpaceBehind(e, b, q, space, EndTagName);
    HasByte(b, q + |space|, 0x3E);
    EndTagEnds(e, b, q + |space|, if space == [] then EndTagName else EndTagSpace);
  }

  /* ----- comments ----- */

  /** A character begins with the byte only if it is that byte. */
  lemma OneByteChar(e: Encoding, c: Text, d: Byte)
    requires AsciiTable(e) && IsAnyChar(e, c) && d < 0x80
    ensures c[0] == d <==> c == [d]
  {
    hide AsciiTable;
    NameClasses(e, d);
    if c[0] == d {
      assert |c| == 1;
    }
  }

  lemma AnyCharSize(e: Encoding, c: Text)
    requires IsAnyChar(e, c)
    ensures c != [] && |c| == Width(e.typeOf(c[0]))
  {
  }

  /** Behind a dash in a comment there is no other. */
  lemma NoSecondDash(e: Encoding, b: Text, p: nat, body: Chars)
    requires AsciiTable(e) && IsMarkup(e, Remark(body)) && body != [] && body[0] == [0x2D]
    requires Has(b, p, Flat(body[1..]) + [0x2D, 0x2D, 0x3E])
    ensures p < |b| && b[p] != 0x2D
  {
    hide AsciiTable, IsAnyChar, Has;
    var rest := body[1..];
    assert rest[0] == body[1];
    OneByteChar(e, rest[0], 0x2D);
    HasSplit(b, p, Flat(rest), [0x2D, 0x2D, 0x3E]);
    HasSplit(b, p, rest[0], Flat(rest[1..]));
    AnyCharSize(e, rest[0]);
    HasChar(e, b, p, rest[0]);
  }

  lemma RestOfComment(e: Encoding, body: Chars)
    requires IsMarkup(e, Remark(body)) && body != []
    ensures IsMarkup(e, Remark(body[1..])) && IsAnyChar(e, body[0])
  {
    hide IsAnyChar;
  }

  lemma CommentCharOn(e: Encoding, b: Text, p: nat, c: Text)
    requires AsciiTable(e) && IsAnyChar(e, c) && Has(b, p, c)
    requires c == [0x2D] ==> p + 1 < |b| && b[p + 1] != 0x2D
    ensures p + |c| <= |b|
    ensures Run(e, b, p, InComment) == Run(e, b, p + |c|, InComment)
  {
    hide AsciiTable, Run, AnyLook, IsAnyChar, Has, Width;
    AnyCharSize(e, c);
    HasChar(e, b, p, c);
    AnyLookIs(e, b, p);
    Punctuation(e, b[p]);
    OneByteChar(e, c, 0x2D);
    CommentTurn(e, b, p);
  }

  lemma CommentEnds(e: Encoding, b: Text, p: nat)
    requires AsciiTable(e) && Has(b, p, [0x2D, 0x2D, 0x3E])
    ensures Run(e, b, p, InComment) == Tok(Comment, p + 3)
  {
    hide AsciiTable, Run, AnyLook;
    HasThree(b, p, 0x2D, 0x2D, 0x3E);
    Punctuation(e, b[p]);
    CommentTurn(e, b, p);
  }

  lemma {:induction false} ReadsComment(e: Encoding, b: Text, p: nat, body: Chars)
    requires AsciiTable(e) && IsMarkup(e, Remark(body)) && Has(b, p, Flat(body) + [0x2D, 0x2D, 0x3E])
    ensures Run(e, b, p, InComment) == Tok(Comment, p + |Flat(body)| + 3)
    decreases |body|
  {
    hide AsciiTable, Run, IsAnyChar, Has, IsMarkup;
    if body == [] {
      assert Flat(body) + [0x2D, 0x2D, 0x3E] == [0x2D, 0x2D, 0x3E];
      CommentEnds(e, b, p);
    } else {
      var c, rest := body[0], body[1..];
      RestOfComment(e, body);
      assert Flat(body) + [0x2D, 0x2D, 0x3E] == c + (Flat(rest) + [0x2D, 0x2D, 0x3E]);
      HasSplit(b, p, c, Flat(rest) + [0x2D, 0x2D, 0x3E]);
      if c == [0x2D] {
        NoSecondDash(e, b, p + 1, body);
      }
      CommentCharOn(e, b, p, c);
      ReadsComment(e, b, p + |c|, rest);
    }
  }

  lemma HasThree(b: Text, p: nat, c: Byte, d: Byte, f: Byte)
    requires Has(b, p, [c, d, f])
    ensures p + 3 <= |b| && b[p] == c && b[p + 1] == d && b[p + 2] == f
  {
    assert b[p..p + 3] == [c, d, f];
    assert b[p] == b[p..p + 3][0] && b[p + 1] == b[p..p + 3][1] && b[p + 2] == b[p..p + 3][2];
  }

  /* ----- processing instructions ----- */

  lemma PiTurn(e: Encoding, b: Text, p: nat, decl: bool)
    requires AsciiTable(e) && p < |b|
    ensures b[p] == 0x3F ==>
              Run(e, b, p, PiBody(decl)) ==
              if p + 1 == |b| then Partial
              else if b[p + 1] == 0x3E then Tok(PiToken(decl), p + 2)
              else Run(e, b, p + 1, PiBody(decl))
    ensures b[p] != 0x3F && AnyLook(e, b, p).Past? ==>
              Run(e, b, p, PiBody(decl)) == Run(e, b, AnyLook(e, b, p).next, PiBody(decl))
    ensures b[p] != 0x3F && AnyLook(e, b, p).End? ==> Run(e, b, p, PiBody(decl)) == AnyLook(e, b, p).result
    ensures Run(e, b, p, PiQuest(decl)) == if b[p] == 0x3E then Tok(PiToken(decl), p + 1) else Invalid(p)
  {
    hide AsciiTable, Run, AnyLook, PiToken;
    Punctuation(e, b[p]);
    RunNamed(e, b, p, PiBody(decl));
    RunNamed(e, b, p, PiQuest(decl));
    if b[p] == 0x3F {
      RunNamed(e, b, p + 1, PiBodyQuest(decl));
    }
  }

  lemma {:induction false} ReadsPiBody(e: Encoding, b: Text, p: nat, cs: Chars, decl: bool)
    requires AsciiTable(e) && AnyChars(e, cs) && Never(cs, 0x3F, 0x3E) && Has(b, p, Flat(cs) + [0x3F, 0x3E])
    ensures Run(e, b, p, PiBody(decl)) == Tok(PiToken(decl), p + |Flat(cs)| + 2)
    decreases |cs|
  {
    hide AsciiTable, Run, AnyLook, IsAnyChar, Has, PiToken;
    if cs == [] {
      assert Flat(cs) + [0x3F, 0x3E] == [0x3F] + [0x3E];
      HasSplit(b, p, [0x3F], [0x3E]);
      HasByte(b, p, 0x3F);
      HasByte(b, p + 1, 0x3E);
      PiTurn(e, b, p, decl);
    } else {
      var c, rest := cs[0], cs[1..];
      assert Flat(cs) + [0x3F, 0x3E] == c + (Flat(rest) + [0x3F, 0x3E]);
      HasSplit(b, p, c, Flat(rest) + [0x3F, 0x3E]);
      AnyCharSize(e, c);
      HasChar(e, b, p, c);
      AnyLookIs(e, b, p);
      OneByteChar(e, c, 0x3F);
      PiTurn(e, b, p, decl);
      if c == [0x3F] {
        NextIsNot(e, b, p + 1, cs);
      }
      assert Never(rest, 0x3F, 0x3E);
      ReadsPiBody(e, b, p + |c|, rest, decl);
    }
  }

  /** Behind a question mark in the instruction there is no greater-than sign. */
  lemma NextIsNot(e: Encoding, b: Text, p: nat, cs: Chars)
    requires AsciiTable(e) && AnyChars(e, cs) && Never(cs, 0x3F, 0x3E) && cs != [] && cs[0] == [0x3F]
    requires Has(b, p, Flat(cs[1..]) + [0x3F, 0x3E])
    ensures p < |b| && b[p] != 0x3E
  {
    hide AsciiTable, IsAnyChar, Has;
    var rest := cs[1..];
    HasSplit(b, p, Flat(rest), [0x3F, 0x3E]);
    if rest == [] {
      assert [0x3F, 0x3E] == [0x3F] + [0x3E];
      HasSplit(b, p, [0x3F], [0x3E]);
      HasByte(b, p, 0x3F);
    } else {
      assert rest[0] == cs[1];
      OneByteChar(e, rest[0], 0x3E);
      HasSplit(b, p, rest[0], Flat(rest[1..]));
      AnyCharSize(e, rest[0]);
      HasChar(e, b, p, rest[0]);
    }
  }

  lemma TargetIsAccepted(t: Text)
    requires IsTarget(t)
    ensures CheckPiTarget(t) == Accepted(t == [0x78, 0x6D, 0x6C])
  {
    if |t| == 3 {
      assert t == [t[0], t[1], t[2]];
    }
  }

  lemma TargetOn(e: Encoding, b: Text, from: nat, p: nat)
    requires AsciiTable(e) && from <= p < |b| && IsTarget(b[from..p]) && (b[p] == 0x3F || IsSpaceByte(b[p]))
    ensures var decl := b[from..p] == [0x78, 0x6D, 0x6C];
            Run(e, b, p, PiTarget(from)) == Run(e, b, p + 1, if b[p] == 0x3F then PiQuest(decl) else PiBody(decl))
  {
    hide AsciiTable, Run, NameLook, CheckPiTarget;
    Punctuation(e, b[p]);
    SpaceAndColon(e, b[p]);
    NoName(e, b, p);
    TargetIsAccepted(b[from..p]);
    RunPiTarget(e, b, p, from);
  }

  lemma ReadsPi(e: Encoding, b: Text, p: nat, target: Chars, content: Chars)
    requires AsciiTable(e) && IsMarkup(e, Instruction(target, content))
    requires Has(b, p, Flat(target) + (Flat(content) + [0x3F, 0x3E]))
    ensures Run(e, b, p, PiStart) ==
            Tok(TokenOf(Instruction(target, content)), p + |Flat(target)| + |Flat(content)| + 2)
  {
    hide AsciiTable, Run, IsAnyChar, Has, IsName, IsTarget, AnyChars, Never, Flat;
    HasSplit(b, p, Flat(target), Flat(content) + [0x3F, 0x3E]);
    ReadsName(e, b, p, target, PiStart);
    HasIs(b, p, Flat(target));
    ReadsContent(e, b, p, p + |Flat(target)|, content);
  }

  lemma ReadsContent(e: Encoding, b: Text, from: nat, p: nat, content: Chars)
    requires AsciiTable(e) && from <= p <= |b| && IsTarget(b[from..p])
    requires AnyChars(e, content) && Never(content, 0x3F, 0x3E)
    requires content != [] ==> |content[0]| == 1 && IsSpaceByte(content[0][0])
    requires Has(b, p, Flat(content) + [0x3F, 0x3E])
    ensures Run(e, b, p, PiTarget(from)) ==
            Tok(PiToken(b[from..p] == [0x78, 0x6D, 0x6C]), p + |Flat(content)| + 2)
  {
    hide AsciiTable, Run, IsAnyChar, Has, IsTarget, AnyChars, Never, PiToken;
    var decl := b[from..p] == [0x78, 0x6D, 0x6C];
    if content == [] {
      assert Flat(content) + [0x3F, 0x3E] == [0x3F] + [0x3E];
      HasSplit(b, p, [0x3F], [0x3E]);
      HasByte(b, p, 0x3F);
      HasByte(b, p + 1, 0x3E);
      TargetOn(e, b, from, p);
      PiTurn(e, b, p + 1, decl);
    } else {
      var rest := content[1..];
      assert content[0] == [content[0][0]];
      assert Flat(content) + [0x3F, 0x3E] == content[0] + (Flat(rest) + [0x3F, 0x3E]);
      HasSplit(b, p, content[0], Flat(rest) + [0x3F, 0x3E]);
      HasByte(b, p, content[0][0]);
      TargetOn(e, b, from, p);
      RestOfContent(e, content);
      ReadsPiBody(e, b, p + 1, rest, decl);
    }
  }

  lemma RestOfContent(e: Encoding, content: Chars)
    requires AnyChars(e, content) && Never(content, 0x3F, 0x3E) && content != []
    ensures AnyChars(e, content[1..]) && Never(content[1..], 0x3F, 0x3E)
  {
    hide IsAnyChar;
  }

  lemma HasIs(b: Text, p: nat, t: Text)
    requires Has(b, p, t)
    ensures p + |t| <= |b| && b[p..p + |t|] == t
  {
  }

  /* ----- the start of a CDATA section ----- */

  lemma {:induction false} AllAgree(b: Text, p: nat, k: nat)
    requires k <= 6 && Has(b, p, CDATA_LSQB)
    ensures Agreeing(b, p, k) == 6
    decreases 6 - k
  {
    if k < 6 {
      assert b[p + k] == b[p..p + 6][k];
      AllAgree(b, p, k + 1);
    }
  }

  lemma ReadsSection(e: Encoding, b: Text, p: nat)
    requires Has(b, p, [0x43, 0x44, 0x41, 0x54, 0x41, 0x5B])
    ensures Run(e, b, p, InCdataStart) == Tok(CdataSectOpen, p + 6)
  {
    hide Run, AnyLook;
    AllAgree(b, p, 0);
    RunDecl(e, b, p, InCdataStart);
  }

  /* ----- all of it ----- */

  /** What a character behind a less-than sign and behind an exclamation mark decides. */
  lemma AfterLess(e: Encoding, b: Text, p: nat)
    requires AsciiTable(e) && p < |b|
    ensures b[p] == 0x2F ==> Run(e, b, p, AfterLt) == Run(e, b, p + 1, EndTagStart)
    ensures b[p] == 0x3F ==> Run(e, b, p, AfterLt) == Run(e, b, p + 1, PiStart)
    ensures b[p] == 0x21 ==> Run(e, b, p, AfterLt) == Run(e, b, p + 1, AfterExcl)
    ensures b[p] == 0x2D ==> Run(e, b, p, AfterExcl) == Run(e, b, p + 1, CommentStart)
    ensures b[p] == 0x5B ==> Run(e, b, p, AfterExcl) == Run(e, b, p + 1, InCdataStart)
    ensures b[p] == 0x2D ==> Run(e, b, p, CommentStart) == Run(e, b, p + 1, InComment)
  {
    hide AsciiTable, Run, NameLook, AnyLook;
    Punctuation(e, b[p]);
    NoName(e, b, p);
    RunDecl(e, b, p, AfterLt);
    RunDecl(e, b, p, AfterExcl);
    RunDecl(e, b, p, CommentStart);
  }

  lemma MarkupBegins(e: Encoding, b: Text, p: nat)
    requires AsciiTable(e) && p < |b|
    ensures b[p] == 0x3C ==> Run(e, b, p, AtStart) == Run(e, b, p + 1, AfterLt)
    ensures b[p] == 0x26 ==> Run(e, b, p, AtStart) == Run(e, b, p + 1, RefStart(InContent))
  {
    hide AsciiTable, Run, AnyLook;
    Punctuation(e, b[p]);
    RunStart(e, b, p);
  }

  lemma HasTwo(b: Text, p: nat, c: Byte, d: Byte, t: Text)
    requires Has(b, p, [c, d] + t)
    ensures p + 2 <= |b| && b[p] == c && b[p + 1] == d && Has(b, p + 2, t)
  {
    hide Has;
    HasSplit(b, p, [c, d], t);
    assert [c, d] == [c] + [d];
    HasSplit(b, p, [c], [d]);
    HasByte(b, p, c);
    HasByte(b, p + 1, d);
  }

  /** Markup of the grammar is found where it stands, whatever follows, as the token that it
      is, and the token ends with it. */
  lemma MarkupIsRead(e: Encoding, b: Text, p: nat, m: Markup)
    requires AsciiTable(e) && IsMarkup(e, m) && Has(b, p, Print(m))
    ensures Run(e, b, p, AtStart) == Tok(TokenOf(m), p + |Print(m)|)
  {
    hide AsciiTable, Run, Has, PrintQName, PrintTail, IsQName, IsTail, PrintReference, IsReference, Flat, IsName,
         AnyChars, Never,
         IsTarget, IsEndChar, IsNameChar, IsSpace;
    match m {
      case Element(name, tail) =>
        HasSplit(b, p, [0x3C], PrintQName(name) + PrintTail(tail));
        HasByte(b, p, 0x3C);
        MarkupBegins(e, b, p);
        ReadsElement(e, b, p + 1, name, tail);
      case EndTagOf(name, space) =>
        HasTwo(b, p, 0x3C, 0x2F, Flat(name) + (space + [0x3E]));
        MarkupBegins(e, b, p);
        AfterLess(e, b, p + 1);
        ReadsEnd(e, b, p + 2, name, space);
      case Remark(body) =>
        assert Print(m) == [0x3C, 0x21] + ([0x2D, 0x2D] + (Flat(body) + [0x2D, 0x2D, 0x3E]));
        HasTwo(b, p, 0x3C, 0x21, [0x2D, 0x2D] + (Flat(body) + [0x2D, 0x2D, 0x3E]));
        HasTwo(b, p + 2, 0x2D, 0x2D, Flat(body) + [0x2D, 0x2D, 0x3E]);
        MarkupBegins(e, b, p);
        AfterLess(e, b, p + 1);
        AfterLess(e, b, p + 2);
        AfterLess(e, b, p + 3);
        ReadsComment(e, b, p + 4, body);
      case Instruction(target, content) =>
        HasTwo(b, p, 0x3C, 0x3F, Flat(target) + (Flat(content) + [0x3F, 0x3E]));
        MarkupBegins(e, b, p);
        AfterLess(e, b, p + 1);
        ReadsPi(e, b, p + 2, target, content);
      case Refers(r) =>
        HasSplit(b, p, [0x26], PrintReference(r));
        HasByte(b, p, 0x26);
        MarkupBegins(e, b, p);
        ReadsReference(e, b, p + 1, r, InContent);
      case Section =>
        var rest: Text := [0x43, 0x44, 0x41, 0x54, 0x41, 0x5B];
        assert Print(m) == [0x3C, 0x21] + ([0x5B] + rest);
        HasTwo(b, p, 0x3C, 0x21, [0x5B] + rest);
        HasSplit(b, p + 2, [0x5B], rest);
        HasByte(b, p + 2, 0x5B);
        MarkupBegins(e, b, p);
        AfterLess(e, b, p + 1);
        AfterLess(e, b, p + 2);
        ReadsSection(e, b, p + 3);
    }
  }
}
