/**
 The content tokenizer as an automaton: for every kind of position inside markup, what one
 character does there. The class table and the three character tests of the encoding are
 arbitrary, so all of this holds for every encoding with one-byte units.
 */
module XmlTok {

  type Byte = b: int | 0 <= b < 256

  type Text = seq<Byte>

  datatype ByteType =
    | NonXml | Malform | Lt | Amp | Rsqb | Lead2 | Lead3 | Lead4 | Trail | Cr | Lf | Gt | Quot | Apos
    | Equals | Quest | Excl | Sol | Semi | Num | Lsqb | S | Nmstrt | Colon | Hex | Digit | Name | Minus
    | Other | NonAscii | Percnt | Lpar | Rpar | Ast | Plus | Comma | Verbar

  datatype Encoding = Encoding(
    typeOf: Byte -> ByteType,
    isName: Text -> bool,
    isNmstrt: Text -> bool,
    isInvalid: Text -> bool)

  datatype Token =
    | DataChars | DataNewline | AttributeValueS | EntityRef | CharRef | Comment | Pi | XmlDecl | CdataSectOpen
    | CdataSectClose | EndTag
    | StartTagNoAtts | StartTagWithAtts | EmptyElementNoAtts | EmptyElementWithAtts

  datatype Result =
    | None | Partial | PartialChar | TrailingCr | TrailingRsqb
    | Invalid(next: nat)
    | Tok(tok: Token, next: nat)

  const SPACE: Byte := 0x20
  const MINUS: Byte := 0x2D
  const GT: Byte := 0x3E
  const RSQB: Byte := 0x5D
  const LOWER_X: Byte := 0x78
  const CDATA_LSQB: Text := [0x43, 0x44, 0x41, 0x54, 0x41, 0x5B]

  predicate Space(t: ByteType) {
    t == S || t == Cr || t == Lf
  }

  predicate IsLead(t: ByteType) {
    t == Lead2 || t == Lead3 || t == Lead4
  }

  function Width(t: ByteType): (n: nat)
    ensures 1 <= n <= 4
  {
    if t == Lead2 then 2 else if t == Lead3 then 3 else if t == Lead4 then 4 else 1
  }

  /** What a character does: the scanner goes on behind it or ends; otherwise it is not of
      the kind that was asked for. */
  datatype Look = Past(next: nat) | End(result: Result) | NotThis

  /** CHECK_NMSTRT_CASES and CHECK_NAME_CASES. */
  function NameLook(e: Encoding, b: Text, p: nat, start: bool): (l: Look)
    requires p < |b|
    ensures l.Past? ==> p < l.next <= |b|
  {
    var t := e.typeOf(b[p]);
    if t == NonAscii then End(Invalid(p))
    else if t == Nmstrt || t == Hex then Past(p + 1)
    else if t == Digit || t == Name || t == Minus then if start then NotThis else Past(p + 1)
    else if IsLead(t) then
      var n := Width(t);
      if |b| - p < n then End(PartialChar)
      else if !(if start then e.isNmstrt(b[p..p + n]) else e.isName(b[p..p + n])) then End(Invalid(p))
      else Past(p + n)
    else NotThis
  }

  /** INVALID_CASES, and one byte for every other character. */
  function AnyLook(e: Encoding, b: Text, p: nat): (l: Look)
    requires p < |b|
    ensures l.Past? ==> p < l.next <= |b|
    ensures !l.NotThis?
  {
    var t := e.typeOf(b[p]);
    if t == NonXml || t == Malform || t == Trail then End(Invalid(p))
    else if IsLead(t) then
      var n := Width(t);
      if |b| - p < n then End(PartialChar)
      else if e.isInvalid(b[p..p + n]) then End(Invalid(p))
      else Past(p + n)
    else Past(p + 1)
  }

  /** Where a reference stands: in content or in an attribute value with its kind of quote. */
  datatype Place = InContent | InQuotes(open: ByteType)

  /** Where a scanner is. */
  datatype Mode =
    | AtStart | AfterCr | AfterRsqb | InData
    | AfterLt | AfterExcl | Slash(atts: bool)
    | CommentStart | InComment | CommentDash | CommentDashes
    | InCdataStart
    | PiStart | PiTarget(target: nat) | PiQuest(decl: bool) | PiBody(decl: bool) | PiBodyQuest(decl: bool)
    | EndTagStart | EndTagName | EndTagSpace
    | RefStart(place: Place) | RefName(place: Place)
    | CharRefStart(place: Place) | Digits(place: Place) | HexStart(place: Place) | HexDigits(place: Place)
    | TagName(colon: bool) | TagColon | TagSpace
    | AttName(colon: bool) | AttColon | BeforeEquals | BeforeQuote
    | InValue(open: ByteType) | AfterValue | BetweenAtts

  /** What one character does to a scanner. */
  datatype Step = To(next: nat, mode: Mode) | Stop(result: Result)

  function LookStep(l: Look, mode: Mode, otherwise: Step): Step {
    match l case Past(q) => To(q, mode) case End(r) => Stop(r) case NotThis => otherwise
  }

  /** `checkPiTarget`: no name but `xml` that reads so in some mixture of cases. */
  datatype Target = Refused | Accepted(decl: bool)

  function CheckPiTarget(name: Text): Target {
    if |name| != 3 || (name[0] != 0x78 && name[0] != 0x58) || (name[1] != 0x6D && name[1] != 0x4D)
       || (name[2] != 0x6C && name[2] != 0x4C) then Accepted(false)
    else if name[0] == 0x58 || name[1] == 0x4D || name[2] == 0x4C then Refused
    else Accepted(true)
  }

  function PiToken(decl: bool): Token {
    if decl then XmlDecl else Pi
  }

  function RefEnd(place: Place, tok: Token, q: nat): Step {
    match place case InContent => Stop(Tok(tok, q)) case InQuotes(open) => To(q, InValue(open))
  }

  /** What the end of the buffer means. */
  function AtEnd(m: Mode, p: nat): Result {
    if m == AtStart then None
    else if m == AfterCr then TrailingCr
    else if m == AfterRsqb then TrailingRsqb
    else if m == InData then Tok(DataChars, p)
    else Partial
  }

  /** A position is inside the buffer, and a target begins before it. */
  predicate Sane(b: Text, p: nat, m: Mode) {
    p <= |b| && (m.PiTarget? ==> m.target <= p)
  }

  /** The three modes that may hand over without reading. */
  function Rank(m: Mode): nat {
    if m.AfterRsqb? || m.CommentDash? || m.PiBodyQuest? then 1 else 0
  }

  /** Tokens end, and errors lie, between `p` and the end of the buffer. */
  predicate Inside(b: Text, p: nat, r: Result) {
    (r.Invalid? ==> p <= r.next < |b|) && (r.Tok? ==> p <= r.next <= |b|)
  }

  predicate IsTextMode(m: Mode) {
    m == AtStart || m == AfterCr || m == AfterRsqb || m == InData
  }

  /** A step goes forward, or hands over, or ends inside the buffer; only the start of a
      token and character data can end where they are. */
  predicate Forward(b: Text, p: nat, m: Mode, s: Step) {
    match s
    case To(q, m') =>
      && Sane(b, q, m') && (q > p || (q == p && Rank(m') < Rank(m)))
      && (m == AtStart ==> q > p) && (IsTextMode(m') ==> IsTextMode(m))
    case Stop(r) =>
      Inside(b, p, r) && (r.Tok? ==> (m == AtStart ==> r.next > p) && (r.tok == DataChars ==> m == InData))
  }

  predicate IsRefMode(m: Mode) {
    m.RefStart? || m.RefName? || m.CharRefStart? || m.Digits? || m.HexStart? || m.HexDigits?
  }

  function TextStep(e: Encoding, b: Text, p: nat, m: Mode): (s: Step)
    requires p < |b| && IsTextMode(m)
    ensures Forward(b, p, m, s)
  {
    var t := e.typeOf(b[p]);
    match m
    case AtStart =>
      if t == Lt then To(p + 1, AfterLt)
      else if t == Amp then To(p + 1, RefStart(InContent))
      else if t == Cr then To(p + 1, AfterCr)
      else if t == Lf then Stop(Tok(DataNewline, p + 1))
      else if t == Rsqb then To(p + 1, AfterRsqb)
      else LookStep(AnyLook(e, b, p), InData, Stop(Invalid(p)))
    case AfterCr => Stop(Tok(DataNewline, if t == Lf then p + 1 else p))
    case AfterRsqb =>
      if b[p] != RSQB then To(p, InData)
      else if p + 1 == |b| then Stop(TrailingRsqb)
      else if b[p + 1] != GT then To(p, InData)
      else Stop(Invalid(p + 1))
    case InData =>
      if IsLead(t) then
        var n := Width(t);
        if |b| - p < n || e.isInvalid(b[p..p + n]) then Stop(Tok(DataChars, p)) else To(p + n, InData)
      else if t == Rsqb then
        if p + 1 != |b| && b[p + 1] != RSQB then To(p + 1, InData)
        else if p + 1 != |b| && p + 2 != |b| then
          if b[p + 2] != GT then To(p + 1, InData) else Stop(Invalid(p + 2))
        else Stop(Tok(DataChars, p))
      else if t == Amp || t == Lt || t == NonXml || t == Malform || t == Trail || t == Cr || t == Lf then
        Stop(Tok(DataChars, p))
      else To(p + 1, InData)
  }

  function RefStep(e: Encoding, b: Text, p: nat, m: Mode): (s: Step)
    requires p < |b|
    requires IsRefMode(m)
    ensures Forward(b, p, m, s)
  {
    var t := e.typeOf(b[p]);
    match m
    case RefStart(place) =>
      LookStep(NameLook(e, b, p, true), RefName(place),
               if t == Num then To(p + 1, CharRefStart(place)) else Stop(Invalid(p)))
    case RefName(place) =>
      LookStep(NameLook(e, b, p, false), m, if t == Semi then RefEnd(place, EntityRef, p + 1) else Stop(Invalid(p)))
    case CharRefStart(place) =>
      if b[p] == LOWER_X then To(p + 1, HexStart(place))
      else if t == Digit then To(p + 1, Digits(place)) else Stop(Invalid(p))
    case Digits(place) =>
      if t == Digit then To(p + 1, m) else if t == Semi then RefEnd(place, CharRef, p + 1) else Stop(Invalid(p))
    case HexStart(place) =>
      if t == Digit || t == Hex then To(p + 1, HexDigits(place)) else Stop(Invalid(p))
    case HexDigits(place) =>
      if t == Digit || t == Hex then To(p + 1, m)
      else if t == Semi then RefEnd(place, CharRef, p + 1)
      else Stop(Invalid(p))
  }

  predicate IsTagMode(m: Mode) {
    m.TagName? || m.TagColon? || m.TagSpace? || m.Slash?
  }

  function TagStep(e: Encoding, b: Text, p: nat, m: Mode): (s: Step)
    requires p < |b| && IsTagMode(m)
    ensures Forward(b, p, m, s)
  {
    var t := e.typeOf(b[p]);
    match m
    case Slash(atts) =>
      if b[p] == GT then Stop(Tok(if atts then EmptyElementWithAtts else EmptyElementNoAtts, p + 1))
      else Stop(Invalid(p))
    case TagName(colon) =>
      LookStep(NameLook(e, b, p, false), m,
               if t == Colon && !colon then To(p + 1, TagColon)
               else if Space(t) then To(p + 1, TagSpace)
               else if t == Gt then Stop(Tok(StartTagNoAtts, p + 1))
               else if t == Sol then To(p + 1, Slash(false))
               else Stop(Invalid(p)))
    case TagColon => LookStep(NameLook(e, b, p, true), TagName(true), Stop(Invalid(p)))
    case TagSpace =>
      LookStep(NameLook(e, b, p, true), AttName(false),
               if t == Gt then Stop(Tok(StartTagNoAtts, p + 1))
               else if t == Sol then To(p + 1, Slash(false))
               else if Space(t) then To(p + 1, m)
               else Stop(Invalid(p)))
  }

  predicate IsAttMode(m: Mode) {
    m.AttName? || m.AttColon? || m.BeforeEquals? || m.BeforeQuote? || m.InValue? || m.AfterValue? || m.BetweenAtts?
  }

  function AttStep(e: Encoding, b: Text, p: nat, m: Mode): (s: Step)
    requires p < |b| && IsAttMode(m)
    ensures Forward(b, p, m, s)
  {
    var t := e.typeOf(b[p]);
    if m.AttName? then
      LookStep(NameLook(e, b, p, false), m,
               if t == Colon && !m.colon then To(p + 1, AttColon)
               else if Space(t) then To(p + 1, BeforeEquals)
               else if t == Equals then To(p + 1, BeforeQuote)
               else Stop(Invalid(p)))
    else if m.AttColon? then LookStep(NameLook(e, b, p, true), AttName(true), Stop(Invalid(p)))
    else if m.BeforeEquals? then
      if t == Equals then To(p + 1, BeforeQuote) else if Space(t) then To(p + 1, m) else Stop(Invalid(p))
    else if m.BeforeQuote? then
      if t == Quot || t == Apos then To(p + 1, InValue(t)) else if Space(t) then To(p + 1, m) else Stop(Invalid(p))
    else if m.InValue? then
      if t == m.open then To(p + 1, AfterValue)
      else if t == Amp then To(p + 1, RefStart(InQuotes(m.open)))
      else if t == Lt then Stop(Invalid(p))
      else LookStep(AnyLook(e, b, p), m, Stop(Invalid(p)))
    else if m.AfterValue? then
      if Space(t) then To(p + 1, BetweenAtts)
      else if t == Sol then To(p + 1, Slash(true))
      else if t == Gt then Stop(Tok(StartTagWithAtts, p + 1))
      else Stop(Invalid(p))
    else
      LookStep(NameLook(e, b, p, true), AttName(false),
               if Space(t) then To(p + 1, m)
               else if t == Gt then Stop(Tok(StartTagWithAtts, p + 1))
               else if t == Sol then To(p + 1, Slash(true))
               else Stop(Invalid(p)))
  }

  predicate IsDeclMode(m: Mode) {
    m.AfterLt? || m.AfterExcl? || m.CommentStart? || m.InComment? || m.CommentDash? || m.CommentDashes?
      || m.InCdataStart?
  }

  /** The number of bytes that agree with the start of a CDATA section. */
  function Agreeing(b: Text, p: nat, k: nat): (n: nat)
    requires k <= 6 && p + 6 <= |b|
    ensures k <= n <= 6
    decreases 6 - k
  {
    if k < 6 && b[p + k] == CDATA_LSQB[k] then Agreeing(b, p, k + 1) else k
  }

  function DeclStep(e: Encoding, b: Text, p: nat, m: Mode): (s: Step)
    requires p < |b| && IsDeclMode(m)
    ensures Forward(b, p, m, s)
  {
    var t := e.typeOf(b[p]);
    match m
    case AfterLt =>
      LookStep(NameLook(e, b, p, true), TagName(false),
               if t == Excl then To(p + 1, AfterExcl)
               else if t == Quest then To(p + 1, PiStart)
               else if t == Sol then To(p + 1, EndTagStart)
               else Stop(Invalid(p)))
    case AfterExcl =>
      if t == Minus then To(p + 1, CommentStart) else if t == Lsqb then To(p + 1, InCdataStart) else Stop(Invalid(p))
    case CommentStart => if b[p] == MINUS then To(p + 1, InComment) else Stop(Invalid(p))
    case InComment =>
      if t == Minus then To(p + 1, CommentDash) else LookStep(AnyLook(e, b, p), m, Stop(Invalid(p)))
    case CommentDash => if b[p] == MINUS then To(p + 1, CommentDashes) else To(p, InComment)
    case CommentDashes => if b[p] == GT then Stop(Tok(Comment, p + 1)) else Stop(Invalid(p))
    case InCdataStart =>
      if |b| - p < 6 then Stop(Partial)
      else
        var n := Agreeing(b, p, 0);
        Stop(if n < 6 then Invalid(p + n) else Tok(CdataSectOpen, p + 6))
  }

  predicate IsNamedMode(m: Mode) {
    m.PiStart? || m.PiTarget? || m.PiQuest? || m.PiBody? || m.PiBodyQuest? || m.EndTagStart? || m.EndTagName?
      || m.EndTagSpace?
  }

  function NamedStep(e: Encoding, b: Text, p: nat, m: Mode): (s: Step)
    requires p < |b| && IsNamedMode(m) && Sane(b, p, m)
    ensures Forward(b, p, m, s)
  {
    var t := e.typeOf(b[p]);
    match m
    case PiStart => LookStep(NameLook(e, b, p, true), PiTarget(p), Stop(Invalid(p)))
    case PiTarget(target) =>
      LookStep(NameLook(e, b, p, false), m,
               if Space(t) || t == Quest then
                 match CheckPiTarget(b[target..p])
                 case Refused => Stop(Invalid(p))
                 case Accepted(decl) => To(p + 1, if t == Quest then PiQuest(decl) else PiBody(decl))
               else Stop(Invalid(p)))
    case PiQuest(decl) => if b[p] == GT then Stop(Tok(PiToken(decl), p + 1)) else Stop(Invalid(p))
    case PiBody(decl) =>
      if t == Quest then To(p + 1, PiBodyQuest(decl)) else LookStep(AnyLook(e, b, p), m, Stop(Invalid(p)))
    case PiBodyQuest(decl) => if b[p] == GT then Stop(Tok(PiToken(decl), p + 1)) else To(p, PiBody(decl))
    case EndTagStart => LookStep(NameLook(e, b, p, true), EndTagName, Stop(Invalid(p)))
    case EndTagName =>
      LookStep(NameLook(e, b, p, false), m,
               if Space(t) then To(p + 1, EndTagSpace)
               else if t == Colon then To(p + 1, m)
               else if t == Gt then Stop(Tok(EndTag, p + 1))
               else Stop(Invalid(p)))
    case EndTagSpace =>
      if Space(t) then To(p + 1, m) else if t == Gt then Stop(Tok(EndTag, p + 1)) else Stop(Invalid(p))
  }

  function OneStep(e: Encoding, b: Text, p: nat, m: Mode): (s: Step)
    requires p < |b| && Sane(b, p, m)
    ensures Forward(b, p, m, s)
  {
    if IsTextMode(m) then TextStep(e, b, p, m)
    else if IsRefMode(m) then RefStep(e, b, p, m)
    else if IsTagMode(m) then TagStep(e, b, p, m)
    else if IsAttMode(m) then AttStep(e, b, p, m)
    else if IsDeclMode(m) then DeclStep(e, b, p, m)
    else NamedStep(e, b, p, m)
  }

  /** The scanner from a position on. */
  function Run(e: Encoding, b: Text, p: nat, m: Mode): Result
    requires Sane(b, p, m)
    decreases |b| - p, Rank(m)
  {
    if p == |b| then AtEnd(m, p)
    else match OneStep(e, b, p, m)
         case To(q, m') => Run(e, b, q, m')
         case Stop(r) => r
  }

  /* ----- stability ----- */

  /** Results that more input cannot change. */
  predicate Settled(r: Result) {
    r.Invalid? || (r.Tok? && r.tok != DataChars)
  }

  lemma LookIsStable(e: Encoding, b: Text, x: Text, p: nat, start: bool)
    requires p < |b|
    ensures NameLook(e, b, p, start) == End(PartialChar) || NameLook(e, b + x, p, start) == NameLook(e, b, p, start)
    ensures AnyLook(e, b, p) == End(PartialChar) || AnyLook(e, b + x, p) == AnyLook(e, b, p)
  {
    var n := Width(e.typeOf(b[p]));
    if p + n <= |b| {
      assert (b + x)[p..p + n] == b[p..p + n];
    }
  }

  lemma {:induction false} AgreeingIsStable(b: Text, x: Text, p: nat, k: nat)
    requires k <= 6 && p + 6 <= |b|
    ensures Agreeing(b + x, p, k) == Agreeing(b, p, k)
    decreases 6 - k
  {
    if k < 6 {
      AgreeingIsStable(b, x, p, k + 1);
    }
  }

  ghost predicate SameOrOpen(s: Step, s': Step) {
    (s.Stop? && !Settled(s.result)) || s' == s
  }

  lemma TextStepIsStable(e: Encoding, b: Text, x: Text, p: nat, m: Mode)
    requires p < |b| && IsTextMode(m)
    ensures SameOrOpen(TextStep(e, b, p, m), TextStep(e, b + x, p, m))
  {
    LookIsStable(e, b, x, p, true);
    var n := Width(e.typeOf(b[p]));
    if p + n <= |b| {
      assert (b + x)[p..p + n] == b[p..p + n];
    }
  }

  lemma RefStepIsStable(e: Encoding, b: Text, x: Text, p: nat, m: Mode)
    requires p < |b|
    requires IsRefMode(m)
    ensures SameOrOpen(RefStep(e, b, p, m), RefStep(e, b + x, p, m))
  {
    LookIsStable(e, b, x, p, true);
    LookIsStable(e, b, x, p, false);
    hide NameLook;
  }

  lemma TagStepIsStable(e: Encoding, b: Text, x: Text, p: nat, m: Mode)
    requires p < |b| && IsTagMode(m)
    ensures SameOrOpen(TagStep(e, b, p, m), TagStep(e, b + x, p, m))
  {
    assert (b + x)[p] == b[p];
    if m.TagName? {
      TagNameIsStable(e, b, x, p, m);
    } else {
      LookIsStable(e, b, x, p, true);
      hide NameLook, AnyLook, Forward;
    }
  }

  lemma TagNameIsStable(e: Encoding, b: Text, x: Text, p: nat, m: Mode)
    requires p < |b| && m.TagName?
    ensures SameOrOpen(TagStep(e, b, p, m), TagStep(e, b + x, p, m))
  {
    assert (b + x)[p] == b[p];
    LookIsStable(e, b, x, p, false);
    hide NameLook, AnyLook, Forward;
  }

  lemma AttStepIsStable(e: Encoding, b: Text, x: Text, p: nat, m: Mode)
    requires p < |b| && IsAttMode(m)
    ensures SameOrOpen(AttStep(e, b, p, m), AttStep(e, b + x, p, m))
  {
    assert (b + x)[p] == b[p];
    if m.AttName? {
      AttNameIsStable(e, b, x, p, m);
    } else if m.InValue? {
      AttValueIsStable(e, b, x, p, m);
    } else {
      LookIsStable(e, b, x, p, true);
      hide NameLook, AnyLook, Forward;
    }
  }

  lemma AttValueIsStable(e: Encoding, b: Text, x: Text, p: nat, m: Mode)
    requires p < |b| && m.InValue?
    ensures SameOrOpen(AttStep(e, b, p, m), AttStep(e, b + x, p, m))
  {
    LookIsStable(e, b, x, p, true);
    hide NameLook, AnyLook, Forward;
  }

  lemma AttNameIsStable(e: Encoding, b: Text, x: Text, p: nat, m: Mode)
    requires p < |b| && m.AttName?
    ensures SameOrOpen(AttStep(e, b, p, m), AttStep(e, b + x, p, m))
  {
    LookIsStable(e, b, x, p, false);
    hide NameLook, AnyLook, Forward;
  }

  lemma DeclStepIsStable(e: Encoding, b: Text, x: Text, p: nat, m: Mode)
    requires p < |b| && IsDeclMode(m)
    ensures SameOrOpen(DeclStep(e, b, p, m), DeclStep(e, b + x, p, m))
  {
    LookIsStable(e, b, x, p, true);
    hide NameLook, AnyLook;
    if m == InCdataStart && |b| - p >= 6 {
      AgreeingIsStable(b, x, p, 0);
    }
  }

  lemma NamedStepIsStable(e: Encoding, b: Text, x: Text, p: nat, m: Mode)
    requires p < |b| && IsNamedMode(m) && Sane(b, p, m)
    ensures SameOrOpen(NamedStep(e, b, p, m), NamedStep(e, b + x, p, m))
  {
    assert (b + x)[p] == b[p];
    if m.PiTarget? {
      PiTargetIsStable(e, b, x, p, m);
    } else {
      LookIsStable(e, b, x, p, !m.EndTagName?);
      hide NameLook, AnyLook, Forward, CheckPiTarget;
    }
  }

  lemma PiTargetIsStable(e: Encoding, b: Text, x: Text, p: nat, m: Mode)
    requires p < |b| && m.PiTarget? && Sane(b, p, m)
    ensures SameOrOpen(NamedStep(e, b, p, m), NamedStep(e, b + x, p, m))
  {
    LookIsStable(e, b, x, p, false);
    hide NameLook, AnyLook, Forward, CheckPiTarget;
    assert (b + x)[m.target..p] == b[m.target..p];
  }

  /** A step that is not undecided does not depend on where the buffer ends. */
  lemma StepIsStable(e: Encoding, b: Text, x: Text, p: nat, m: Mode)
    requires p < |b| && Sane(b, p, m)
    ensures SameOrOpen(OneStep(e, b, p, m), OneStep(e, b + x, p, m))
  {
    hide TextStep, RefStep, TagStep, AttStep, DeclStep, NamedStep;
    if IsTextMode(m) {
      TextStepIsStable(e, b, x, p, m);
    } else if IsRefMode(m) {
      RefStepIsStable(e, b, x, p, m);
    } else if IsTagMode(m) {
      TagStepIsStable(e, b, x, p, m);
    } else if IsAttMode(m) {
      AttStepIsStable(e, b, x, p, m);
    } else if IsDeclMode(m) {
      DeclStepIsStable(e, b, x, p, m);
    } else {
      NamedStepIsStable(e, b, x, p, m);
    }
  }

  /** A token or an error that was found stays what it is, whatever is appended. */
  lemma {:induction false} RunIsStable(e: Encoding, b: Text, x: Text, p: nat, m: Mode)
    requires Sane(b, p, m) && Settled(Run(e, b, p, m))
    ensures Run(e, b + x, p, m) == Run(e, b, p, m)
    decreases |b| - p, Rank(m)
  {
    hide OneStep;
    if p < |b| {
      StepIsStable(e, b, x, p, m);
      var s := OneStep(e, b, p, m);
      if s.To? {
        RunIsStable(e, b, x, s.next, s.mode);
      }
    }
  }
}
