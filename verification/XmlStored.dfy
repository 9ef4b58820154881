/**
 What is stored for an attribute value, piece by piece (XML 1.0, sections 2.11, 3.3.3 and 4.6):
 characters as they stand or as references, line ends and white space.
 */
module XmlStored {
  import opened Wrappers
  import opened XmlTok
  import opened XmlScan
  import opened XmlChar
  import opened XmlRef
  import opened XmlExpand
  import opened XmlNormalize
  import G = XmlGrammar
  import R = XmlReads
  import V = XmlTagValues

  /** How a character is written in a value. */
  datatype Form = Plain | ByName | ByDecimal | ByHex(lower: bool)

  datatype Piece = Piece(c: int, form: Form)

  /** What may be written so: any character but the less-than sign and the ampersand, the five
      that have names, and by its number any character of XML (section 2.2). */
  predicate IsPiece(p: Piece) {
    && IsScalar(p.c)
    && match p.form
       case Plain => p.c != 0x3C && p.c != 0x26
       case ByName => p.c in {0x3C, 0x3E, 0x26, 0x22, 0x27}
       case _ => p.c in {0x09, 0x0A, 0x0D} || p.c >= 0x20
  }

  /** `lt`, `gt`, `amp`, `quot`, `apos` */
  function NameOf(c: int): Text {
    if c == 0x3C then [0x6C, 0x74]
    else if c == 0x3E then [0x67, 0x74]
    else if c == 0x26 then [0x61, 0x6D, 0x70]
    else if c == 0x22 then [0x71, 0x75, 0x6F, 0x74]
    else [0x61, 0x70, 0x6F, 0x73]
  }

  function Decimal(n: nat): Text {
    if n < 10 then [0x30 + n] else Decimal(n / 10) + [0x30 + n % 10]
  }

  function HexDigit(d: nat, lower: bool): Byte
    requires d < 16
  {
    if d < 10 then 0x30 + d else if lower then 0x61 + (d - 10) else 0x41 + (d - 10)
  }

  function Hexadecimal(n: nat, lower: bool): Text {
    if n < 16 then [HexDigit(n, lower)] else Hexadecimal(n / 16, lower) + [HexDigit(n % 16, lower)]
  }

  function Write(p: Piece): Text
    requires IsPiece(p)
  {
    match p.form
    case Plain => Utf8Encode(p.c)
    case ByName => [0x26] + NameOf(p.c) + [0x3B]
    case ByDecimal => [0x26, 0x23] + Decimal(p.c) + [0x3B]
    case ByHex(lower) => [0x26, 0x23, 0x78] + Hexadecimal(p.c, lower) + [0x3B]
  }

  predicate ArePieces(ps: seq<Piece>) {
    forall k: nat :: k < |ps| ==> IsPiece(ps[k])
  }

  function WriteAll(ps: seq<Piece>): Text
    requires ArePieces(ps)
  {
    if ps == [] then [] else Write(ps[0]) + WriteAll(ps[1..])
  }

  /** What the value is: white space that stands for itself becomes a space, a carriage return
      with a line feed becomes one, and everything else is the character. */
  function Means(ps: seq<Piece>): Text
    requires ArePieces(ps)
  {
    if ps == [] then []
    else if ps[0].form.Plain? && ps[0].c in {0x20, 0x09, 0x0A, 0x0D} then
      if ps[0].c == 0x0D && |ps| > 1 && ps[1] == Piece(0x0A, Plain) then [0x20] + Means(ps[2..])
      else [0x20] + Means(ps[1..])
    else Utf8Encode(ps[0].c) + Means(ps[1..])
  }

  /* ----- numbers ----- */

  lemma {:induction false} DecimalIs(n: nat)
    ensures Decimal(n) != [] && forall k: nat :: k < |Decimal(n)| ==> IsDigit(Decimal(n)[k])
    ensures Number(Decimal(n), false) == n
  {
    if n >= 10 {
      DecimalIs(n / 10);
      var s := Decimal(n);
      assert s[..|s| - 1] == Decimal(n / 10);
    } else {
      assert Decimal(n)[..0] == [];
    }
  }

  lemma {:induction false} HexadecimalIs(n: nat, lower: bool)
    ensures Hexadecimal(n, lower) != []
    ensures forall k: nat :: k < |Hexadecimal(n, lower)| ==> IsHex(Hexadecimal(n, lower)[k])
    ensures Number(Hexadecimal(n, lower), true) == n
  {
    if n >= 16 {
      HexadecimalIs(n / 16, lower);
      var s := Hexadecimal(n, lower);
      assert s[..|s| - 1] == Hexadecimal(n / 16, lower);
    } else {
      assert Hexadecimal(n, lower)[..0] == [];
    }
  }

  /* ----- one piece ----- */

  /** The conditions on the tables: those of UTF-8, for a document. */
  ghost predicate Fits(e: Encoding, env: Env) {
    Tables(e, env) && V.Utf8Classes(e) && e.typeOf(0x0D) == Cr
  }

  /** The rest of a value is stored behind what is there. */
  ghost predicate Stores(e: Encoding, b: Text, p: nat, env: Env, open: set<Text>, pool: Text, q: nat, text: Text)
    requires Tables(e, env) && p <= |b| && q <= |b|
  {
    Append(e, b, p, env, open, true, pool) == Append(e, b, q, env, open, true, pool + text)
  }

  lemma ByteClass(e: Encoding, env: Env, c: Byte)
    requires Fits(e, env)
    ensures e.typeOf(c) == ByteType.Lt <==> c == 0x3C
    ensures e.typeOf(c) == Amp <==> c == 0x26
    ensures e.typeOf(c) == Lf <==> c == 0x0A
    ensures e.typeOf(c) == Cr <==> c == 0x0D
    ensures e.typeOf(c) == S <==> c == 0x20 || c == 0x09
    ensures Width(e.typeOf(c)) == Utf8Width(c)
  {
    hide AsciiTable;
    TableEntry(e, c);
  }

  /** The classes of data. */
  predicate InData(t: ByteType) {
    t != ByteType.Lt && t != Amp && t != Lf && t != Cr && t != S
  }

  /** A plain character that is data. */
  predicate IsData(c: int) {
    IsScalar(c) && c !in {0x3C, 0x26, 0x20, 0x09, 0x0A, 0x0D}
  }

  lemma DataChar(e: Encoding, env: Env, b: Text, p: nat, c: int)
    requires Fits(e, env) && IsData(c) && G.Has(b, p, Utf8Encode(c))
    ensures p < |b| && |Utf8Encode(c)| == Width(e.typeOf(b[p])) && p + |Utf8Encode(c)| <= |b|
    ensures InData(e.typeOf(b[p]))
    ensures b[p..p + |Utf8Encode(c)|] == Utf8Encode(c)
  {
    EncodedIsValid(c);
    var s := Utf8Encode(c);
    assert s[0] == b[p..p + |s|][0] == b[p];
    FirstOfEncoded(c);
    hide Utf8Encode, Tables;
    ByteClass(e, env, b[p]);
  }

  lemma FirstOfEncoded(c: int)
    requires IsScalar(c)
    ensures Utf8Encode(c) != [] && (Utf8Encode(c)[0] == c || (c >= 0x80 && Utf8Encode(c)[0] >= 0x80))
  {
  }

  /** Without a less-than sign data is never an error. */
  lemma {:induction false} DataIsFine(e: Encoding, env: Env, b: Text, p: nat)
    requires Fits(e, env) && p <= |b| && 0x3C !in b
    ensures DataEnd(e, b, p).Tok?
    decreases |b| - p
  {
    hide Fits;
    if p < |b| {
      ByteClass(e, env, b[p]);
      DataIsFine(e, env, b, Min(p + Width(e.typeOf(b[p])), |b|));
    }
  }

  /** Data is stored as it stands; whether the token ends behind this character makes no
      difference. */
  lemma DataOn(e: Encoding, env: Env, b: Text, p: nat, c: int, open: set<Text>, pool: Text)
    requires Fits(e, env) && IsData(c) && G.Has(b, p, Utf8Encode(c)) && 0x3C !in b
    ensures p <= |b| && p + |Utf8Encode(c)| <= |b|
    ensures Stores(e, b, p, env, open, pool, p + |Utf8Encode(c)|, Utf8Encode(c))
  {
    hide Fits, Append, AsciiTable, Utf8Encode, DataEnd;
    DataChar(e, env, b, p, c);
    TablesFit(e, env);
    var q := p + |Utf8Encode(c)|;
    DataIsFine(e, env, b, q);
    DataTokOn(e, env, b, p, q, open, pool);
    assert b[p..q] == Utf8Encode(c);
  }

  lemma DataTokOn(e: Encoding, env: Env, b: Text, p: nat, q: nat, open: set<Text>, pool: Text)
    requires Tables(e, env) && p < q <= |b| && q == p + Width(e.typeOf(b[p]))
    requires InData(e.typeOf(b[p])) && DataEnd(e, b, q).Tok?
    ensures Append(e, b, p, env, open, true, pool) == Append(e, b, q, env, open, true, pool + b[p..q])
  {
    hide Append, AsciiTable, Act, DataEnd, ValueTok, Width;
    var end := DataEnd(e, b, q).next;
    AppendTurn(e, b, p, env, open, true, pool);
    DataAct(e, b, p, env);
    DataTurn(e, b, q);
    if end != q {
      AppendTurn(e, b, q, env, open, true, pool + b[p..q]);
      DataAct(e, b, q, env);
      TwoParts(pool, b, p, q, end);
    }
  }

  lemma TwoParts(pool: Text, b: Text, p: nat, q: nat, r: nat)
    requires p <= q <= r <= |b|
    ensures pool + b[p..r] == (pool + b[p..q]) + b[q..r]
  {
    assert b[p..r] == b[p..q] + b[q..r];
  }

  lemma TablesFit(e: Encoding, env: Env)
    requires Fits(e, env)
    ensures Tables(e, env)
  {
  }

  /** What a token of data asks for. */
  lemma DataAct(e: Encoding, b: Text, p: nat, env: Env)
    requires AsciiTable(e) && p < |b| && InData(e.typeOf(b[p]))
    ensures var end := DataEnd(e, b, Min(p + Width(e.typeOf(b[p])), |b|));
            Act(e, b, p, env) == if end.Tok? then Add(b[p..end.next], end.next) else Fail(InvalidToken)
  {
    hide AsciiTable, RefTok, DataEnd;
    DataEndIs(e, b, Min(p + Width(e.typeOf(b[p])), |b|));
  }

  lemma {:induction false} DataEndIs(e: Encoding, b: Text, p: nat)
    requires p <= |b|
    ensures DataEnd(e, b, p).Tok? || DataEnd(e, b, p).Invalid?
    decreases |b| - p
  {
    if p < |b| {
      DataEndIs(e, b, Min(p + Width(e.typeOf(b[p])), |b|));
    }
  }

  /* ----- white space ----- */

  /** White space and line ends are stored as one space each, CR LF as one. */
  lemma SpaceOn(e: Encoding, env: Env, b: Text, p: nat, open: set<Text>, pool: Text)
    requires Fits(e, env) && p < |b| && b[p] in {0x20, 0x09, 0x0A, 0x0D}
    ensures var q := if b[p] == 0x0D && p + 1 < |b| && b[p + 1] == 0x0A then p + 2 else p + 1;
            Stores(e, b, p, env, open, pool, q, [0x20])
  {
    hide Fits, Append, AsciiTable, Act;
    TablesFit(e, env);
    AppendTurn(e, b, p, env, open, true, pool);
    SpaceAct(e, env, b, p);
    assert AddSpace(pool, true) == pool + [0x20];
  }

  lemma SpaceAct(e: Encoding, env: Env, b: Text, p: nat)
    requires Fits(e, env) && p < |b| && b[p] in {0x20, 0x09, 0x0A, 0x0D}
    ensures AsciiTable(e)
    ensures Act(e, b, p, env) == Blank(if b[p] == 0x0D && p + 1 < |b| && b[p + 1] == 0x0A then p + 2 else p + 1)
  {
    ByteClass(e, env, b[p]);
    if p + 1 < |b| {
      ByteClass(e, env, b[p + 1]);
    }
    hide V.Utf8Classes, AsciiTable, RefTok, DataEnd, RefValue;
  }

  /* ----- references ----- */

  function CharsOf(t: Text): (cs: seq<Text>)
    ensures |cs| == |t|
  {
    if t == [] then [] else [[t[0]]] + CharsOf(t[1..])
  }

  lemma {:induction false} CharsOfText(e: Encoding, env: Env, t: Text)
    requires Fits(e, env) && forall k: nat :: k < |t| ==> G.IsLetter(t[k])
    ensures G.Flat(CharsOf(t)) == t
    ensures forall k: nat, start: bool :: k < |t| ==> G.IsNameChar(e, CharsOf(t)[k], start)
    decreases |t|
  {
    hide Fits;
    if t != [] {
      ByteClass(e, env, t[0]);
      CharsOfText(e, env, t[1..]);
      assert CharsOf(t)[1..] == CharsOf(t[1..]);
      assert CharsOf(t)[0] == [t[0]];
    }
  }

  lemma NameIsName(e: Encoding, env: Env, c: int)
    requires Fits(e, env)
    ensures G.IsName(e, CharsOf(NameOf(c))) && G.Flat(CharsOf(NameOf(c))) == NameOf(c)
  {
    var t := NameOf(c);
    CharsOfText(e, env, t);
    forall k: nat | k < |t| - 1 ensures G.IsNameChar(e, CharsOf(t)[1..][k], false) {
      assert CharsOf(t)[1..][k] == CharsOf(t)[k + 1];
    }
  }

  lemma RefFound(e: Encoding, env: Env, b: Text, p: nat, r: G.Reference)
    requires Fits(e, env) && G.IsReference(e, r) && G.Has(b, p, [0x26] + G.PrintReference(r))
    ensures AsciiTable(e) && p < |b| && e.typeOf(b[p]) == Amp
    ensures ValueTok(e, b, p) == Tok(if r.Named? then EntityRef else CharRef, p + 1 + |G.PrintReference(r)|)
    ensures p + 1 + |G.PrintReference(r)| <= |b|
    ensures b[p + 1..p + 1 + |G.PrintReference(r)|] == G.PrintReference(r)
  {
    TablesFit(e, env);
    hide Fits, AsciiTable, Run, G.IsReference, G.PrintReference, DataEnd;
    G.HasSplit(b, p, [0x26], G.PrintReference(r));
    G.HasByte(b, p, 0x26);
    ByteClass(e, env, b[p]);
    R.ReadsReference(e, b, p + 1, r, InContent);
  }

  /** A named character is stored as that character. */
  lemma NamedOn(e: Encoding, env: Env, b: Text, p: nat, c: int, open: set<Text>, pool: Text)
    requires Fits(e, env) && c in {0x3C, 0x3E, 0x26, 0x22, 0x27} && G.Has(b, p, [0x26] + NameOf(c) + [0x3B])
    ensures p + 2 + |NameOf(c)| <= |b|
    ensures Stores(e, b, p, env, open, pool, p + 2 + |NameOf(c)|, [c])
  {
    hide Fits, Append, AsciiTable, Act, NameOf, Predefined, G.IsName, G.Flat, ValueTok, G.Has;
    TablesFit(e, env);
    NameIsName(e, env, c);
    var r := G.Named(CharsOf(NameOf(c)));
    assert [0x26] + NameOf(c) + [0x3B] == [0x26] + G.PrintReference(r);
    RefFound(e, env, b, p, r);
    AppendTurn(e, b, p, env, open, true, pool);
    NamedAct(e, b, p, env, c);
  }

  lemma NamedAct(e: Encoding, b: Text, p: nat, env: Env, c: int)
    requires AsciiTable(e) && c in {0x3C, 0x3E, 0x26, 0x22, 0x27}
    requires p + 2 + |NameOf(c)| <= |b| && b[p + 1..p + 2 + |NameOf(c)|] == NameOf(c) + [0x3B]
    requires ValueTok(e, b, p) == Tok(EntityRef, p + 2 + |NameOf(c)|)
    ensures Act(e, b, p, env) == Add([c], p + 2 + |NameOf(c)|)
  {
    hide AsciiTable, ValueTok;
    var q := p + 2 + |NameOf(c)|;
    ButLast(b, p + 1, q, NameOf(c), 0x3B);
    TheFive(c);
  }

  lemma ButLast(b: Text, p: nat, q: nat, t: Text, c: Byte)
    requires p <= q <= |b| && b[p..q] == t + [c]
    ensures p < q && b[p..q - 1] == t
  {
    assert |b[p..q]| == |t| + 1;
    forall k: nat | k < |t| ensures b[p + k] == t[k] {
      assert b[p + k] == b[p..q][k] == (t + [c])[k];
    }
  }

  lemma TheFive(c: int)
    requires c in {0x3C, 0x3E, 0x26, 0x22, 0x27}
    ensures Predefined(NameOf(c)) == Just(c as Byte)
  {
  }

  /** The digits of a number as a reference. */
  function NumberRef(c: nat, form: Form): G.Reference
    requires form.ByDecimal? || form.ByHex?
  {
    if form.ByDecimal? then G.Decimal(Decimal(c)) else G.Hexadecimal(Hexadecimal(c, form.lower))
  }

  lemma NumberIsRef(e: Encoding, c: nat, form: Form)
    requires form.ByDecimal? || form.ByHex?
    ensures G.IsReference(e, NumberRef(c, form)) && !NumberRef(c, form).Named?
    ensures var ds := NumberRef(c, form).digits;
            && (forall k: nat :: k < |ds| ==> if form.ByHex? then IsHex(ds[k]) else IsDigit(ds[k]))
            && Number(ds, form.ByHex?) == c
  {
    if form.ByDecimal? {
      DecimalIs(c);
    } else {
      HexadecimalIs(c, form.lower);
    }
  }

  /** A character by its number is stored as that character, white space included. */
  lemma NumberOn(e: Encoding, env: Env, b: Text, p: nat, c: nat, form: Form, open: set<Text>, pool: Text)
    requires Fits(e, env) && (form.ByDecimal? || form.ByHex?) && IsChar(c)
    requires G.Has(b, p, [0x26] + G.PrintReference(NumberRef(c, form)))
    ensures var q := p + 1 + |G.PrintReference(NumberRef(c, form))|;
            q <= |b| && Stores(e, b, p, env, open, pool, q, Utf8Encode(c))
  {
    hide Fits, Append, AsciiTable, Act, NumberRef, G.PrintReference, ValueTok, G.Has, Utf8Encode;
    TablesFit(e, env);
    NumberIsRef(e, c, form);
    var r := NumberRef(c, form);
    RefFound(e, env, b, p, r);
    AppendTurn(e, b, p, env, open, true, pool);
    NumberAct(e, b, p, env, c, form);
    SpaceEncoded();
    assert c == 0x20 ==> AddSpace(pool, true) == pool + Utf8Encode(c);
  }

  lemma SpaceEncoded()
    ensures Utf8Encode(0x20) == [0x20]
  {
  }

  lemma NumberAct(e: Encoding, b: Text, p: nat, env: Env, c: nat, form: Form)
    requires AsciiTable(e) && (form.ByDecimal? || form.ByHex?) && IsChar(c)
    requires var t := G.PrintReference(NumberRef(c, form));
             && p + 1 + |t| <= |b| && b[p + 1..p + 1 + |t|] == t && ValueTok(e, b, p) == Tok(CharRef, p + 1 + |t|)
    ensures var q := p + 1 + |G.PrintReference(NumberRef(c, form))|;
            Act(e, b, p, env) == if c == 0x20 then Blank(q) else Add(Utf8Encode(c), q)
  {
    hide AsciiTable, ValueTok, Utf8Encode;
    NumberIsRef(e, c, form);
    ScannedValue(e, b, p);
    NumberValue(b, p, c, form);
  }

  lemma NumberValue(b: Text, p: nat, c: nat, form: Form)
    requires (form.ByDecimal? || form.ByHex?) && IsChar(c)
    requires var t := G.PrintReference(NumberRef(c, form));
             p + 1 + |t| <= |b| && b[p + 1..p + 1 + |t|] == t && CharRefAt(b, p, p + 1 + |t|)
    ensures RefValue(b, p, p + 1 + |G.PrintReference(NumberRef(c, form))|) == c
  {
    hide Decimal, Hexadecimal, RefValue, CharRefAt, Number, IsChar;
    var r := NumberRef(c, form);
    var q := p + 1 + |G.PrintReference(r)|;
    if form.ByDecimal? {
      DecimalIs(c);
      PartOf(b, p + 1, [0x23], r.digits);
      ValueIs(b, p, q, r.digits, false, c);
    } else {
      HexadecimalIs(c, form.lower);
      PartOf(b, p + 1, [0x23, 0x78], r.digits);
      ValueIs(b, p, q, r.digits, true, c);
    }
  }

  lemma ValueIs(b: Text, p: nat, q: nat, ds: Text, hex: bool, c: nat)
    requires CharRefAt(b, p, q) && ds != [] && IsChar(c)
    requires forall k: nat :: k < |ds| ==> if hex then IsHex(ds[k]) else IsDigit(ds[k])
    requires Number(ds, hex) == c && (hex <==> b[p + 2] == 0x78)
    requires var from := if hex then p + 3 else p + 2; from <= q - 1 && b[from..q - 1] == ds
    ensures RefValue(b, p, q) == c
  {
    hide Number, IsChar;
  }

  /** The digits between what begins and what ends a reference. */
  lemma PartOf(b: Text, p: nat, head: Text, ds: Text)
    requires var t := head + ds + [0x3B]; p + |t| <= |b| && b[p..p + |t|] == t && head != [] && ds != []
    ensures b[p + |head|..p + |head| + |ds|] == ds && b[p + |head|] == ds[0]
    ensures forall k: nat :: k < |head| ==> b[p + k] == head[k]
  {
    var t := head + ds + [0x3B];
    assert forall k: nat :: k < |t| ==> b[p + k] == b[p..p + |t|][k] == t[k];
    forall k: nat | k < |ds| ensures b[p + |head| + k] == ds[k] {
      assert t[|head| + k] == ds[k];
    }
  }

  /* ----- all pieces ----- */

  lemma PiecesTail(ps: seq<Piece>)
    requires ArePieces(ps) && ps != []
    ensures IsPiece(ps[0]) && ArePieces(ps[1..])
  {
  }

  /** A line feed is the first byte of a piece only as itself. */
  lemma FirstByte(ps: seq<Piece>, d: Byte)
    requires ArePieces(ps) && d < 0x20
    ensures ps == [] ==> WriteAll(ps) == []
    ensures ps != [] ==> WriteAll(ps) != [] && (WriteAll(ps)[0] == d <==> ps[0] == Piece(d, Plain))
  {
    if ps != [] {
      hide Decimal, Hexadecimal, NameOf;
      FirstOfEncoded(ps[0].c);
    }
  }

  /** Nothing that is written has a less-than sign in it. */
  lemma {:induction false} NoLess(ps: seq<Piece>)
    requires ArePieces(ps)
    ensures 0x3C !in WriteAll(ps)
  {
    if ps != [] {
      NoLessIn(ps[0]);
      hide Write, IsPiece;
      NoLess(ps[1..]);
    }
  }

  lemma NoLessIn(p: Piece)
    requires IsPiece(p)
    ensures 0x3C !in Write(p)
  {
    match p.form {
      case Plain => NoLessEncoded(p.c);
      case ByName =>
      case ByDecimal =>
        DecimalIs(p.c);
        hide Decimal;
      case ByHex(lower) =>
        HexadecimalIs(p.c, lower);
        hide Hexadecimal;
    }
  }

  lemma NoLessEncoded(c: int)
    requires IsScalar(c) && c != 0x3C
    ensures 0x3C !in Utf8Encode(c)
  {
  }

  /** One piece that is no white space. */
  lemma PieceOn(e: Encoding, env: Env, b: Text, p: nat, piece: Piece, open: set<Text>, pool: Text)
    requires Fits(e, env) && IsPiece(piece) && G.Has(b, p, Write(piece)) && 0x3C !in b
    requires !(piece.form.Plain? && piece.c in {0x20, 0x09, 0x0A, 0x0D})
    ensures p <= |b| && p + |Write(piece)| <= |b|
    ensures Stores(e, b, p, env, open, pool, p + |Write(piece)|, Utf8Encode(piece.c))
  {
    hide Fits, G.Has, Append, AsciiTable, Decimal, Hexadecimal, NameOf;
    TablesFit(e, env);
    var c := piece.c;
    match piece.form {
      case Plain => DataOn(e, env, b, p, c, open, pool);
      case ByName =>
        NamedOn(e, env, b, p, c, open, pool);
        assert Utf8Encode(c) == [c];
      case ByDecimal =>
        assert Write(piece) == [0x26] + G.PrintReference(NumberRef(c, piece.form));
        NumberOn(e, env, b, p, c, piece.form, open, pool);
      case ByHex(_) =>
        assert Write(piece) == [0x26] + G.PrintReference(NumberRef(c, piece.form));
        NumberOn(e, env, b, p, c, piece.form, open, pool);
    }
  }

  /** White space, with what follows it. */
  lemma SpacePieceOn(e: Encoding, env: Env, b: Text, p: nat, ps: seq<Piece>, open: set<Text>, pool: Text)
    requires Fits(e, env) && ArePieces(ps) && ps != [] && ps[0].form.Plain? && ps[0].c in {0x20, 0x09, 0x0A, 0x0D}
    requires G.Has(b, p, WriteAll(ps)) && p + |WriteAll(ps)| == |b|
    ensures var n := if ps[0].c == 0x0D && |ps| > 1 && ps[1] == Piece(0x0A, Plain) then 2 else 1;
            && p + n <= |b| && G.Has(b, p + n, WriteAll(ps[n..])) && p + n + |WriteAll(ps[n..])| == |b|
            && Stores(e, b, p, env, open, pool, p + n, [0x20])
  {
    hide Fits, G.Has, Append, AsciiTable, Write, IsPiece, Stores;
    TablesFit(e, env);
    SpaceWritten(ps[0]);
    G.HasSplit(b, p, Write(ps[0]), WriteAll(ps[1..]));
    G.HasByte(b, p, ps[0].c);
    FirstByte(ps[1..], 0x0A);
    if p + 1 < |b| {
      FirstIs(b, p + 1, WriteAll(ps[1..]));
    }
    SpaceOn(e, env, b, p, open, pool);
    if ps[0].c == 0x0D && |ps| > 1 && ps[1] == Piece(0x0A, Plain) {
      SpaceWritten(ps[1]);
      assert ps[1..][1..] == ps[2..];
      G.HasSplit(b, p + 1, Write(ps[1]), WriteAll(ps[2..]));
    }
  }

  lemma SpaceWritten(p: Piece)
    requires IsPiece(p) && p.form.Plain? && p.c in {0x20, 0x09, 0x0A, 0x0D}
    ensures Write(p) == [p.c]
  {
  }

  lemma FirstIs(b: Text, p: nat, t: Text)
    requires G.Has(b, p, t) && t != []
    ensures p < |b| && b[p] == t[0]
  {
    assert b[p..p + |t|][0] == b[p];
  }

  lemma {:induction false} PiecesOn(e: Encoding, env: Env, b: Text, p: nat, ps: seq<Piece>, open: set<Text>, pool: Text)
    requires Fits(e, env) && ArePieces(ps) && 0x3C !in b && G.Has(b, p, WriteAll(ps)) && p + |WriteAll(ps)| == |b|
    ensures Tables(e, env) && Append(e, b, p, env, open, true, pool) == (NoError, pool + Means(ps))
    decreases |ps|
  {
    hide Fits, G.Has, Append, AsciiTable, Write, IsPiece, Utf8Encode, Act, ClosedCount;
    TablesFit(e, env);
    if ps == [] {
      AppendTurn(e, b, p, env, open, true, pool);
      NothingLeft(e, b, env);
      assert pool + [] == pool;
    } else {
      PiecesTail(ps);
      if ps[0].form.Plain? && ps[0].c in {0x20, 0x09, 0x0A, 0x0D} {
        SpacePieceOn(e, env, b, p, ps, open, pool);
        var n := if ps[0].c == 0x0D && |ps| > 1 && ps[1] == Piece(0x0A, Plain) then 2 else 1;
        PiecesOn(e, env, b, p + n, ps[n..], open, pool + [0x20]);
        assert pool + ([0x20] + Means(ps[n..])) == pool + [0x20] + Means(ps[n..]);
      } else {
        G.HasSplit(b, p, Write(ps[0]), WriteAll(ps[1..]));
        PieceOn(e, env, b, p, ps[0], open, pool);
        var text := Utf8Encode(ps[0].c);
        PiecesOn(e, env, b, p + |Write(ps[0])|, ps[1..], open, pool + text);
        assert pool + (text + Means(ps[1..])) == pool + text + Means(ps[1..]);
      }
    }
  }

  lemma NothingLeft(e: Encoding, b: Text, env: Env)
    requires AsciiTable(e)
    ensures Act(e, b, |b|, env) == Done
  {
    hide AsciiTable, RefTok, DataEnd;
  }

  /** For every value without references to entities of the document, and for every table of
      entities: it is stored as what its pieces mean. */
  lemma StoredIsMeant(e: Encoding, env: Env, ps: seq<Piece>, open: set<Text>)
    requires Fits(e, env) && ArePieces(ps)
    ensures Tables(e, env) && Store(e, WriteAll(ps), env, open, true) == (NoError, Means(ps))
  {
    hide Fits, G.Has, Append, AsciiTable, WriteAll;
    TablesFit(e, env);
    NoLess(ps);
    var b := WriteAll(ps);
    assert G.Has(b, 0, b) by {
      G.HasSlice(b, 0, |b|);
      assert b[0..|b|] == b;
    }
    PiecesOn(e, env, b, 0, ps, open, []);
    assert [] + Means(ps) == Means(ps);
  }

  /* ----- references to entities ----- */

  /** A reference to an entity of the document, by itself: what is stored, and which error there
      is when it cannot be (section 4.1). */
  lemma EntityIsStored(e: Encoding, env: Env, name: seq<Text>, open: set<Text>)
    requires Fits(e, env) && G.IsName(e, name)
    requires G.Flat(name) !in [[0x6C, 0x74], [0x67, 0x74], [0x61, 0x6D, 0x70], [0x71, 0x75, 0x6F, 0x74],
                               [0x61, 0x70, 0x6F, 0x73]]
    ensures Tables(e, env)
    ensures var n, stored := G.Flat(name), Store(e, [0x26] + G.Flat(name) + [0x3B], env, open, true);
            if n !in env.entities then stored == (if env.checkDecl then (UndefinedEntity, []) else (NoError, []))
            else if env.checkDecl && !env.entities[n].isInternal then stored == (EntityDeclaredInPe, [])
            else if n in open then stored == (RecursiveEntityRef, [])
            else if env.entities[n].notation then stored == (BinaryEntityRef, [])
            else if env.entities[n].text.Nothing? then stored == (AttributeExternalEntityRef, [])
            else stored == Append(env.internal, env.entities[n].text.value, 0, env, open + {n}, true, [])
  {
    hide Fits, G.Has, AsciiTable, G.IsName, G.Flat, ValueTok, Act, Append, Predefined;
    TablesFit(e, env);
    var r := G.Named(name);
    var b := [0x26] + G.PrintReference(r);
    assert [0x26] + G.Flat(name) + [0x3B] == b;
    G.HasSlice(b, 0, |b|);
    assert b[0..|b|] == b;
    RefFound(e, env, b, 0, r);
    NotPredefined(G.Flat(name));
    EntityAct(e, b, env, G.Flat(name));
    AppendTurn(e, b, 0, env, open, true, []);
    EndOfText(e, b, env, open);
  }

  lemma NotPredefined(name: Text)
    requires name !in [[0x6C, 0x74], [0x67, 0x74], [0x61, 0x6D, 0x70], [0x71, 0x75, 0x6F, 0x74],
                       [0x61, 0x70, 0x6F, 0x73]]
    ensures Predefined(name).Nothing?
  {
  }

  lemma EntityAct(e: Encoding, b: Text, env: Env, name: Text)
    requires AsciiTable(e) && b == [0x26] + name + [0x3B] && Predefined(name).Nothing?
    requires ValueTok(e, b, 0) == Tok(EntityRef, |b|)
    ensures Act(e, b, 0, env) ==
            if name !in env.entities then if env.checkDecl then Fail(UndefinedEntity) else Add([], |b|)
            else if env.checkDecl && !env.entities[name].isInternal then Fail(EntityDeclaredInPe)
            else Expand(name, |b|)
  {
    hide AsciiTable, ValueTok, Predefined;
    assert b[1..|b| - 1] == name;
  }

  lemma EndOfText(e: Encoding, b: Text, env: Env, open: set<Text>)
    requires Tables(e, env)
    ensures forall pool: Text :: Append(e, b, |b|, env, open, true, pool) == (NoError, pool)
  {
    hide AsciiTable, Act, Append;
    NothingLeft(e, b, env);
    forall pool: Text ensures Append(e, b, |b|, env, open, true, pool) == (NoError, pool) {
      AppendTurn(e, b, |b|, env, open, true, pool);
    }
  }

  /** The number of a character that is none is an error (section 4.1, WFC Legal Character). */
  lemma NoSuchChar(e: Encoding, env: Env, c: nat, form: Form, open: set<Text>)
    requires Fits(e, env) && (form.ByDecimal? || form.ByHex?) && !IsChar(c)
    ensures Tables(e, env) && Store(e, [0x26] + G.PrintReference(NumberRef(c, form)), env, open, true) ==
              (BadCharRef, [])
  {
    hide Fits, Append, AsciiTable, Act, NumberRef, G.PrintReference, ValueTok, G.Has, IsChar;
    TablesFit(e, env);
    NumberIsRef(e, c, form);
    var r := NumberRef(c, form);
    var b := [0x26] + G.PrintReference(r);
    G.HasSlice(b, 0, |b|);
    assert b[0..|b|] == b;
    RefFound(e, env, b, 0, r);
    AppendTurn(e, b, 0, env, open, true, []);
    NoCharAct(e, b, env, c, form);
  }

  lemma NoCharAct(e: Encoding, b: Text, env: Env, c: nat, form: Form)
    requires AsciiTable(e) && (form.ByDecimal? || form.ByHex?) && !IsChar(c)
    requires b == [0x26] + G.PrintReference(NumberRef(c, form)) && ValueTok(e, b, 0) == Tok(CharRef, |b|)
    ensures Act(e, b, 0, env) == Fail(BadCharRef)
  {
    hide AsciiTable, ValueTok, IsChar, Utf8Encode, RefValue;
    ScannedValue(e, b, 0);
    NoNumber(b, c, form);
  }

  lemma NoNumber(b: Text, c: nat, form: Form)
    requires (form.ByDecimal? || form.ByHex?) && !IsChar(c)
    requires b == [0x26] + G.PrintReference(NumberRef(c, form)) && CharRefAt(b, 0, |b|)
    ensures RefValue(b, 0, |b|) == -1
  {
    hide Decimal, Hexadecimal, RefValue, CharRefAt, Number, IsChar;
    var r := NumberRef(c, form);
    assert b[1..1 + |G.PrintReference(r)|] == G.PrintReference(r);
    if form.ByDecimal? {
      DecimalIs(c);
      PartOf(b, 1, [0x23], r.digits);
      NoValue(b, r.digits, false, c);
    } else {
      HexadecimalIs(c, form.lower);
      PartOf(b, 1, [0x23, 0x78], r.digits);
      NoValue(b, r.digits, true, c);
    }
  }

  lemma NoValue(b: Text, ds: Text, hex: bool, c: nat)
    requires CharRefAt(b, 0, |b|) && ds != [] && !IsChar(c)
    requires forall k: nat :: k < |ds| ==> if hex then IsHex(ds[k]) else IsDigit(ds[k])
    requires Number(ds, hex) == c && (hex <==> b[2] == 0x78)
    requires var from := if hex then 3 else 2; from <= |b| - 1 && b[from..|b| - 1] == ds
    ensures RefValue(b, 0, |b|) == -1
  {
    hide Number, IsChar;
  }

  /* ----- writing any text ----- */

  /** A way to write a text: markup characters and quotes by their names, line ends and tabs by
      their numbers, and the rest as it is. */
  function Escaped(cs: seq<int>): (ps: seq<Piece>)
    ensures |ps| == |cs|
  {
    if cs == [] then [] else [EscapedChar(cs[0])] + Escaped(cs[1..])
  }

  function EscapedChar(c: int): Piece {
    Piece(c, if c in {0x3C, 0x3E, 0x26, 0x22, 0x27} then ByName
             else if c in {0x09, 0x0A, 0x0D} then ByDecimal
             else Plain)
  }

  lemma {:induction false} EscapedMeans(cs: seq<int>)
    requires AllScalar(cs)
    ensures ArePieces(Escaped(cs)) && Means(Escaped(cs)) == Bytes(cs)
    decreases |cs|
  {
    if cs != [] {
      EscapedMeans(cs[1..]);
      var p, rest := EscapedChar(cs[0]), Escaped(cs[1..]);
      assert Escaped(cs) == [p] + rest;
      assert Escaped(cs)[1..] == rest;
      assert IsPiece(p);
      BytesFirst(cs);
      hide Bytes, IsPiece;
      assert cs[0] == 0x20 ==> Utf8Encode(cs[0]) == [0x20];
    }
  }

  lemma {:induction false} BytesFirst(cs: seq<int>)
    requires AllScalar(cs) && cs != []
    ensures Bytes(cs) == Utf8Encode(cs[0]) + Bytes(cs[1..])
    decreases |cs|
  {
    hide Utf8Encode, Bytes;
    var n := |cs| - 1;
    BytesLast(cs);
    if n == 0 {
      BytesNone();
      assert cs[..0] == [] && cs[1..] == [];
    } else {
      BytesFirst(cs[..n]);
      BytesLast(cs[1..]);
      assert cs[..n][1..] == cs[1..][..n - 1] && cs[1..][n - 1] == cs[n];
    }
  }

  lemma BytesLast(cs: seq<int>)
    requires cs != []
    ensures Bytes(cs) == Bytes(cs[..|cs| - 1]) + Utf8Encode(cs[|cs| - 1])
  {
  }

  lemma BytesNone()
    ensures Bytes([]) == []
  {
  }

  /** Every text can be written so that it is stored as it is, whatever entities there are. */
  lemma EscapedComesBack(e: Encoding, env: Env, cs: seq<int>, open: set<Text>)
    requires Fits(e, env) && AllScalar(cs)
    ensures ArePieces(Escaped(cs)) && Tables(e, env)
    ensures Store(e, WriteAll(Escaped(cs)), env, open, true) == (NoError, Bytes(cs))
  {
    hide Fits, AsciiTable, Store;
    EscapedMeans(cs);
    StoredIsMeant(e, env, Escaped(cs), open);
  }

  /** UTF-8 is such an encoding. */
  lemma Utf8Fits(ns: bool, isName: Text -> bool, isNmstrt: Text -> bool, env: Env)
    requires env.internal == Utf8(ns, true, isName, isNmstrt)
    ensures Fits(Utf8(ns, false, isName, isNmstrt), env)
  {
    Utf8IsSound(ns, false, isName, isNmstrt);
    Utf8IsSound(ns, true, isName, isNmstrt);
    V.ClassesOfUtf8(ns, false, isName, isNmstrt);
    hide AsciiTable, V.Utf8Classes, SoundChars;
  }
}
