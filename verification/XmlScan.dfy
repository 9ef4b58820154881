/**
 The scanners of the content tokenizer with their loops and jumps, each of which finds what
 the automaton finds.
 */
module XmlScan {
  import opened XmlTok

  function After(e: Encoding, b: Text, s: Step): Result
    requires s.To? ==> Sane(b, s.next, s.mode)
  {
    match s case To(q, m) => Run(e, b, q, m) case Stop(r) => r
  }

  lemma RunText(e: Encoding, b: Text, p: nat, m: Mode)
    requires p <= |b| && IsTextMode(m)
    ensures Run(e, b, p, m) == if p == |b| then AtEnd(m, p) else After(e, b, TextStep(e, b, p, m))
  {
    hide TextStep;
  }

  lemma RunRef(e: Encoding, b: Text, p: nat, m: Mode)
    requires p <= |b| && IsRefMode(m)
    ensures Run(e, b, p, m) == if p == |b| then Partial else After(e, b, RefStep(e, b, p, m))
  {
    hide RefStep;
  }

  lemma RunTag(e: Encoding, b: Text, p: nat, m: Mode)
    requires p <= |b| && IsTagMode(m)
    ensures Run(e, b, p, m) == if p == |b| then Partial else After(e, b, TagStep(e, b, p, m))
  {
    hide TagStep;
  }

  lemma RunAtt(e: Encoding, b: Text, p: nat, m: Mode)
    requires p <= |b| && IsAttMode(m)
    ensures Run(e, b, p, m) == if p == |b| then Partial else After(e, b, AttStep(e, b, p, m))
  {
    hide AttStep;
  }

  lemma RunDecl(e: Encoding, b: Text, p: nat, m: Mode)
    requires p <= |b| && IsDeclMode(m)
    ensures Run(e, b, p, m) == if p == |b| then Partial else After(e, b, DeclStep(e, b, p, m))
  {
    hide DeclStep;
  }

  lemma RunNamed(e: Encoding, b: Text, p: nat, m: Mode)
    requires Sane(b, p, m) && IsNamedMode(m)
    ensures Run(e, b, p, m) == if p == |b| then Partial else After(e, b, NamedStep(e, b, p, m))
  {
    hide NamedStep;
  }

  lemma RunTagName(e: Encoding, b: Text, p: nat, colon: bool)
    requires p < |b|
    ensures Run(e, b, p, TagName(colon)) ==
            var l := NameLook(e, b, p, false);
            if l.Past? then Run(e, b, l.next, TagName(colon))
            else if l.End? then l.result
            else
              var t := e.typeOf(b[p]);
              if t == Colon && !colon then Run(e, b, p + 1, TagColon)
              else if Space(t) then Run(e, b, p + 1, TagSpace)
              else if t == Gt then Tok(StartTagNoAtts, p + 1)
              else if t == Sol then Run(e, b, p + 1, Slash(false))
              else Invalid(p)
  {
    hide NameLook, Run;
    RunTag(e, b, p, TagName(colon));
  }

  lemma RunAttName(e: Encoding, b: Text, p: nat, colon: bool)
    requires p < |b|
    ensures Run(e, b, p, AttName(colon)) ==
            var l := NameLook(e, b, p, false);
            if l.Past? then Run(e, b, l.next, AttName(colon))
            else if l.End? then l.result
            else
              var t := e.typeOf(b[p]);
              if t == Colon && !colon then Run(e, b, p + 1, AttColon)
              else if Space(t) then Run(e, b, p + 1, BeforeEquals)
              else if t == Equals then Run(e, b, p + 1, BeforeQuote)
              else Invalid(p)
  {
    hide NameLook, Run;
    RunAtt(e, b, p, AttName(colon));
  }

  lemma RunEndTagName(e: Encoding, b: Text, p: nat)
    requires p < |b|
    ensures Run(e, b, p, EndTagName) ==
            var l := NameLook(e, b, p, false);
            if l.Past? then Run(e, b, l.next, EndTagName)
            else if l.End? then l.result
            else
              var t := e.typeOf(b[p]);
              if Space(t) then Run(e, b, p + 1, EndTagSpace)
              else if t == Colon then Run(e, b, p + 1, EndTagName)
              else if t == Gt then Tok(EndTag, p + 1)
              else Invalid(p)
  {
    hide NameLook, Run;
    RunNamed(e, b, p, EndTagName);
  }

  lemma RunPiTarget(e: Encoding, b: Text, p: nat, target: nat)
    requires target <= p < |b|
    ensures Run(e, b, p, PiTarget(target)) ==
            var l := NameLook(e, b, p, false);
            if l.Past? then Run(e, b, l.next, PiTarget(target))
            else if l.End? then l.result
            else
              var t, check := e.typeOf(b[p]), CheckPiTarget(b[target..p]);
              if (!Space(t) && t != Quest) || check.Refused? then Invalid(p)
              else if t == Quest then Run(e, b, p + 1, PiQuest(check.decl))
              else Run(e, b, p + 1, PiBody(check.decl))
  {
    hide NameLook, Run, CheckPiTarget;
    RunNamed(e, b, p, PiTarget(target));
  }

  lemma RunStart(e: Encoding, b: Text, p: nat)
    requires p < |b|
    ensures Run(e, b, p, AtStart) ==
            var t := e.typeOf(b[p]);
            if t == Lt then Run(e, b, p + 1, AfterLt)
            else if t == Amp then Run(e, b, p + 1, RefStart(InContent))
            else if t == Cr then Run(e, b, p + 1, AfterCr)
            else if t == Lf then Tok(DataNewline, p + 1)
            else if t == Rsqb then Run(e, b, p + 1, AfterRsqb)
            else
              var l := AnyLook(e, b, p);
              if l.Past? then Run(e, b, l.next, InData) else l.result
  {
    hide AnyLook, Run;
    RunText(e, b, p, AtStart);
  }

  /* ----- references ----- */

  method ScanHexCharRef(e: Encoding, b: Text, start: nat) returns (r: Result)
    requires start <= |b|
    ensures r == Run(e, b, start, HexStart(InContent))
  {
    hide Run;
    var p := start;
    RunRef(e, b, p, HexStart(InContent));
    if p != |b| {
      match e.typeOf(b[p]) {
        case Digit | Hex =>
        case _ => return Invalid(p);
      }
      p := p + 1;
      while p != |b|
        invariant p <= |b| && Run(e, b, p, HexDigits(InContent)) == Run(e, b, start, HexStart(InContent))
        decreases |b| - p
      {
        RunRef(e, b, p, HexDigits(InContent));
        match e.typeOf(b[p]) {
          case Digit | Hex =>
          case Semi => return Tok(CharRef, p + 1);
          case _ => return Invalid(p);
        }
        p := p + 1;
      }
      RunRef(e, b, p, HexDigits(InContent));
    }
    return Partial;
  }

  method ScanCharRef(e: Encoding, b: Text, start: nat) returns (r: Result)
    requires start <= |b|
    ensures r == Run(e, b, start, CharRefStart(InContent))
  {
    hide Run;
    var p := start;
    RunRef(e, b, p, CharRefStart(InContent));
    if p != |b| {
      if b[p] == LOWER_X {
        r := ScanHexCharRef(e, b, p + 1);
        return;
      }
      match e.typeOf(b[p]) {
        case Digit =>
        case _ => return Invalid(p);
      }
      p := p + 1;
      while p != |b|
        invariant p <= |b| && Run(e, b, p, Digits(InContent)) == Run(e, b, start, CharRefStart(InContent))
        decreases |b| - p
      {
        RunRef(e, b, p, Digits(InContent));
        match e.typeOf(b[p]) {
          case Digit =>
          case Semi => return Tok(CharRef, p + 1);
          case _ => return Invalid(p);
        }
        p := p + 1;
      }
      RunRef(e, b, p, Digits(InContent));
    }
    return Partial;
  }

  method ScanRef(e: Encoding, b: Text, start: nat) returns (r: Result)
    requires start <= |b|
    ensures r == Run(e, b, start, RefStart(InContent))
  {
    hide Run, NameLook;
    var p := start;
    RunRef(e, b, p, RefStart(InContent));
    if p == |b| {
      return Partial;
    }
    match NameLook(e, b, p, true) {
      case Past(q) => p := q;
      case End(stop) => return stop;
      case NotThis =>
        if e.typeOf(b[p]) == Num {
          r := ScanCharRef(e, b, p + 1);
          return;
        }
        return Invalid(p);
    }
    while p != |b|
      invariant p <= |b| && Run(e, b, p, RefName(InContent)) == Run(e, b, start, RefStart(InContent))
      decreases |b| - p
    {
      RunRef(e, b, p, RefName(InContent));
      match NameLook(e, b, p, false) {
        case Past(q) => p := q;
        case End(stop) => return stop;
        case NotThis =>
          if e.typeOf(b[p]) == Semi {
            return Tok(EntityRef, p + 1);
          }
          return Invalid(p);
      }
    }
    RunRef(e, b, p, RefName(InContent));
    return Partial;
  }

  /** The same reference inside an attribute value. */
  function Quoted(m: Mode, open: ByteType): Mode
    requires IsRefMode(m)
  {
    match m
    case RefStart(_) => RefStart(InQuotes(open))
    case RefName(_) => RefName(InQuotes(open))
    case CharRefStart(_) => CharRefStart(InQuotes(open))
    case Digits(_) => Digits(InQuotes(open))
    case HexStart(_) => HexStart(InQuotes(open))
    case HexDigits(_) => HexDigits(InQuotes(open))
  }

  /** A reference in an attribute value is the reference of content, and then the value goes on. */
  lemma {:induction false} RefInValue(e: Encoding, b: Text, p: nat, m: Mode, open: ByteType)
    requires p <= |b| && IsRefMode(m) && m.place == InContent
    ensures var r := Run(e, b, p, m);
            && (r.Tok? ==> p < r.next <= |b| && Run(e, b, p, Quoted(m, open)) == Run(e, b, r.next, InValue(open)))
            && (!r.Tok? ==> Run(e, b, p, Quoted(m, open)) == r && (r.Invalid? || r == Partial || r == PartialChar))
    decreases |b| - p
  {
    hide Run, NameLook, Forward;
    RunRef(e, b, p, m);
    RunRef(e, b, p, Quoted(m, open));
    if p < |b| {
      RefEnds(e, b, p);
      var s := RefStep(e, b, p, m);
      if s.To? {
        RefInValue(e, b, s.next, s.mode, open);
      }
    }
  }

  lemma RefEnds(e: Encoding, b: Text, p: nat)
    requires p < |b|
    ensures forall start: bool ::
              var l := NameLook(e, b, p, start); l.End? ==> l.result.Invalid? || l.result == PartialChar
  {
  }

  /* ----- comments, CDATA sections, processing instructions, end tags ----- */

  method ScanComment(e: Encoding, b: Text, start: nat) returns (r: Result)
    requires start <= |b|
    ensures r == Run(e, b, start, CommentStart)
  {
    hide Run, AnyLook, DeclStep;
    var p := start;
    CommentBegins(e, b, p);
    if p != |b| {
      if b[p] != MINUS {
        return Invalid(p);
      }
      p := p + 1;
      while p != |b|
        invariant p <= |b| && Run(e, b, p, InComment) == Run(e, b, start, CommentStart)
        decreases |b| - p
      {
        CommentTurn(e, b, p);
        if e.typeOf(b[p]) == Minus {
          p := p + 1;
          if p == |b| {
            return Partial;
          }
          if b[p] == MINUS {
            p := p + 1;
            if p == |b| {
              return Partial;
            }
            if b[p] != GT {
              return Invalid(p);
            }
            return Tok(Comment, p + 1);
          }
        } else {
          match AnyLook(e, b, p) {
            case Past(q) => p := q;
            case End(stop) => return stop;
          }
        }
      }
      CommentBegins(e, b, p);
    }
    return Partial;
  }

  lemma CommentBegins(e: Encoding, b: Text, p: nat)
    requires p <= |b|
    ensures Run(e, b, p, CommentStart) ==
            if p == |b| then Partial else if b[p] == MINUS then Run(e, b, p + 1, InComment) else Invalid(p)
    ensures p == |b| ==> Run(e, b, p, InComment) == Partial
  {
    hide Run, AnyLook;
    RunDecl(e, b, p, CommentStart);
    RunDecl(e, b, p, InComment);
  }

  /** What a character does in a comment; two dashes have to end it. */
  lemma CommentTurn(e: Encoding, b: Text, p: nat)
    requires p < |b|
    ensures Run(e, b, p, InComment) ==
            if e.typeOf(b[p]) != Minus then
              (match AnyLook(e, b, p)
               case Past(q) => Run(e, b, q, InComment)
               case End(r) => r
               case NotThis => Invalid(p))
            else if p + 1 == |b| then Partial
            else if b[p + 1] != MINUS then Run(e, b, p + 1, InComment)
            else if p + 2 == |b| then Partial
            else if b[p + 2] != GT then Invalid(p + 2)
            else Tok(Comment, p + 3)
  {
    hide Run, AnyLook;
    RunDecl(e, b, p, InComment);
    if e.typeOf(b[p]) == Minus {
      RunDecl(e, b, p + 1, CommentDash);
      if p + 1 < |b| && b[p + 1] == MINUS {
        RunDecl(e, b, p + 2, CommentDashes);
      }
    }
  }

  method ScanCdataSection(e: Encoding, b: Text, start: nat) returns (r: Result)
    requires start <= |b|
    ensures r == Run(e, b, start, InCdataStart)
  {
    hide Run;
    RunDecl(e, b, start, InCdataStart);
    if |b| - start < 6 {
      return Partial;
    }
    var i := 0;
    while i < 6
      invariant i <= 6 && Agreeing(b, start, i) == Agreeing(b, start, 0)
    {
      if b[start + i] != CDATA_LSQB[i] {
        return Invalid(start + i);
      }
      i := i + 1;
    }
    return Tok(CdataSectOpen, start + 6);
  }

  /** The body of a processing instruction behind its target. */
  method ScanPiBody(e: Encoding, b: Text, start: nat, decl: bool) returns (r: Result)
    requires start <= |b|
    ensures r == Run(e, b, start, PiBody(decl))
  {
    hide Run, AnyLook;
    var p := start;
    while p != |b|
      invariant p <= |b| && Run(e, b, p, PiBody(decl)) == Run(e, b, start, PiBody(decl))
      decreases |b| - p
    {
      RunNamed(e, b, p, PiBody(decl));
      if e.typeOf(b[p]) == Quest {
        p := p + 1;
        RunNamed(e, b, p, PiBodyQuest(decl));
        if p == |b| {
          return Partial;
        }
        if b[p] == GT {
          return Tok(PiToken(decl), p + 1);
        }
      } else {
        match AnyLook(e, b, p) {
          case Past(q) => p := q;
          case End(stop) => return stop;
        }
      }
    }
    RunNamed(e, b, p, PiBody(decl));
    return Partial;
  }

  method ScanPiQuest(e: Encoding, b: Text, start: nat, decl: bool) returns (r: Result)
    requires start <= |b|
    ensures r == Run(e, b, start, PiQuest(decl))
  {
    RunNamed(e, b, start, PiQuest(decl));
    if start == |b| {
      return Partial;
    }
    if b[start] == GT {
      return Tok(PiToken(decl), start + 1);
    }
    return Invalid(start);
  }

  method ScanPi(e: Encoding, b: Text, start: nat) returns (r: Result)
    requires start <= |b|
    ensures r == Run(e, b, start, PiStart)
  {
    hide Run, NameLook, CheckPiTarget;
    var p := start;
    RunNamed(e, b, p, PiStart);
    if p == |b| {
      return Partial;
    }
    match NameLook(e, b, p, true) {
      case Past(q) => p := q;
      case End(stop) => return stop;
      case NotThis => return Invalid(p);
    }
    while p != |b|
      invariant start <= p <= |b| && Run(e, b, p, PiTarget(start)) == Run(e, b, start, PiStart)
      decreases |b| - p
    {
      RunPiTarget(e, b, p, start);
      match NameLook(e, b, p, false) {
        case Past(q) => p := q;
        case End(stop) => return stop;
        case NotThis =>
          var t := e.typeOf(b[p]);
          if Space(t) || t == Quest {
            var target := CheckPiTarget(b[start..p]);
            if target.Refused? {
              return Invalid(p);
            }
            if t != Quest {
              r := ScanPiBody(e, b, p + 1, target.decl);
            } else {
              r := ScanPiQuest(e, b, p + 1, target.decl);
            }
            return;
          }
          return Invalid(p);
      }
    }
    RunNamed(e, b, p, PiTarget(start));
    return Partial;
  }

  method ScanEndTagSpace(e: Encoding, b: Text, start: nat) returns (r: Result)
    requires start <= |b|
    ensures r == Run(e, b, start, EndTagSpace)
  {
    hide Run;
    var p := start;
    while p != |b|
      invariant p <= |b| && Run(e, b, p, EndTagSpace) == Run(e, b, start, EndTagSpace)
      decreases |b| - p
    {
      RunNamed(e, b, p, EndTagSpace);
      match e.typeOf(b[p]) {
        case S | Cr | Lf =>
        case Gt => return Tok(EndTag, p + 1);
        case _ => return Invalid(p);
      }
      p := p + 1;
    }
    RunNamed(e, b, p, EndTagSpace);
    return Partial;
  }

  method ScanEndTag(e: Encoding, b: Text, start: nat) returns (r: Result)
    requires start <= |b|
    ensures r == Run(e, b, start, EndTagStart)
  {
    hide Run, NameLook;
    var p := start;
    RunNamed(e, b, p, EndTagStart);
    if p == |b| {
      return Partial;
    }
    match NameLook(e, b, p, true) {
      case Past(q) => p := q;
      case End(stop) => return stop;
      case NotThis => return Invalid(p);
    }
    while p != |b|
      invariant p <= |b| && Run(e, b, p, EndTagName) == Run(e, b, start, EndTagStart)
      decreases |b| - p
    {
      RunEndTagName(e, b, p);
      match NameLook(e, b, p, false) {
        case Past(q) => p := q;
        case End(stop) => return stop;
        case NotThis =>
          var t := e.typeOf(b[p]);
          if Space(t) {
            r := ScanEndTagSpace(e, b, p + 1);
            return;
          }
          if t == Gt {
            return Tok(EndTag, p + 1);
          }
          if t != Colon {
            return Invalid(p);
          }
          p := p + 1;
      }
    }
    RunNamed(e, b, p, EndTagName);
    return Partial;
  }

  /* ----- attributes ----- */

  /** The white space before an equals sign; `start` is its first character. */
  method SeekEquals(e: Encoding, b: Text, start: nat) returns (l: Look)
    requires start < |b|
    ensures !l.NotThis?
    ensures l.Past? ==> start < l.next < |b| && Run(e, b, start + 1, BeforeEquals) == Run(e, b, l.next + 1, BeforeQuote)
    ensures l.End? ==> Run(e, b, start + 1, BeforeEquals) == l.result
  {
    hide Run;
    var p := start;
    while true
      invariant start <= p < |b| && Run(e, b, p + 1, BeforeEquals) == Run(e, b, start + 1, BeforeEquals)
      decreases |b| - p
    {
      p := p + 1;
      RunAtt(e, b, p, BeforeEquals);
      if p == |b| {
        return End(Partial);
      }
      var t := e.typeOf(b[p]);
      if t == Equals {
        return Past(p);
      }
      if !Space(t) {
        return End(Invalid(p));
      }
    }
  }

  /** The white space before a value; `start` is the equals sign. */
  method SeekQuote(e: Encoding, b: Text, start: nat) returns (l: Look)
    requires start < |b|
    ensures !l.NotThis?
    ensures l.Past? ==> start < l.next < |b|
                        && Run(e, b, start + 1, BeforeQuote) == Run(e, b, l.next + 1, InValue(e.typeOf(b[l.next])))
    ensures l.End? ==> Run(e, b, start + 1, BeforeQuote) == l.result
  {
    hide Run;
    var p := start;
    while true
      invariant start <= p < |b| && Run(e, b, p + 1, BeforeQuote) == Run(e, b, start + 1, BeforeQuote)
      decreases |b| - p
    {
      p := p + 1;
      RunAtt(e, b, p, BeforeQuote);
      if p == |b| {
        return End(Partial);
      }
      var t := e.typeOf(b[p]);
      if t == Quot || t == Apos {
        return Past(p);
      }
      if !Space(t) {
        return End(Invalid(p));
      }
    }
  }

  /** The loop over an attribute value, up to its closing quote. */
  method SkipValue(e: Encoding, b: Text, start: nat, open: ByteType) returns (l: Look)
    requires start <= |b|
    ensures !l.NotThis?
    ensures l.Past? ==> start <= l.next < |b| && Run(e, b, start, InValue(open)) == Run(e, b, l.next + 1, AfterValue)
    ensures l.End? ==> Run(e, b, start, InValue(open)) == l.result
  {
    hide Run, AnyLook;
    var p := start;
    while true
      invariant start <= p <= |b| && Run(e, b, p, InValue(open)) == Run(e, b, start, InValue(open))
      decreases |b| - p
    {
      RunAtt(e, b, p, InValue(open));
      if p == |b| {
        return End(Partial);
      }
      var t := e.typeOf(b[p]);
      if t == open {
        return Past(p);
      }
      if t == Amp {
        var ref := ScanRef(e, b, p + 1);
        RefInValue(e, b, p + 1, RefStart(InContent), open);
        if !ref.Tok? {
          return End(ref);
        }
        p := ref.next;
      } else if t == Lt {
        return End(Invalid(p));
      } else {
        match AnyLook(e, b, p) {
          case Past(q) => p := q;
          case End(stop) => return End(stop);
        }
      }
    }
  }

  /** The slash of an empty element. */
  method ScanSlash(e: Encoding, b: Text, start: nat, atts: bool) returns (r: Result)
    requires start <= |b|
    ensures r == Run(e, b, start, Slash(atts))
  {
    RunTag(e, b, start, Slash(atts));
    if start == |b| {
      return Partial;
    }
    if b[start] != GT {
      return Invalid(start);
    }
    return Tok(if atts then EmptyElementWithAtts else EmptyElementNoAtts, start + 1);
  }

  /** Behind the closing quote: the end of the tag, or the start of the next name. */
  method NextAtt(e: Encoding, b: Text, start: nat) returns (l: Look)
    requires start <= |b|
    ensures !l.NotThis?
    ensures l.Past? ==> start < l.next <= |b| && Run(e, b, start, AfterValue) == Run(e, b, l.next, AttName(false))
    ensures l.End? ==> Run(e, b, start, AfterValue) == l.result
  {
    hide Run, NameLook;
    var p := start;
    RunAtt(e, b, p, AfterValue);
    if p == |b| {
      return End(Partial);
    }
    if e.typeOf(b[p]) == Sol {
      var r := ScanSlash(e, b, p + 1, true);
      return End(r);
    }
    if e.typeOf(b[p]) == Gt {
      return End(Tok(StartTagWithAtts, p + 1));
    }
    if !Space(e.typeOf(b[p])) {
      return End(Invalid(p));
    }
    while true
      invariant start <= p < |b| && Run(e, b, p + 1, BetweenAtts) == Run(e, b, start, AfterValue)
      decreases |b| - p
    {
      p := p + 1;
      RunAtt(e, b, p, BetweenAtts);
      if p == |b| {
        return End(Partial);
      }
      match NameLook(e, b, p, true) {
        case Past(q) => return Past(q);
        case End(stop) => return End(stop);
        case NotThis =>
          var t := e.typeOf(b[p]);
          if t == Gt {
            return End(Tok(StartTagWithAtts, p + 1));
          }
          if t == Sol {
            var r := ScanSlash(e, b, p + 1, true);
            return End(r);
          }
          if !Space(t) {
            return End(Invalid(p));
          }
      }
    }
  }

  /** A colon in an attribute name must be followed by the start of a name. */
  method ScanColon(e: Encoding, b: Text, start: nat, m: Mode) returns (l: Look)
    requires start <= |b| && (m == TagColon || m == AttColon)
    ensures !l.NotThis?
    ensures l.Past? ==> start < l.next <= |b|
                        && Run(e, b, start, m) ==
                           Run(e, b, l.next, if m == TagColon then TagName(true) else AttName(true))
    ensures l.End? ==> Run(e, b, start, m) == l.result
  {
    hide Run, NameLook;
    if m == TagColon {
      RunTag(e, b, start, m);
    } else {
      RunAtt(e, b, start, m);
    }
    if start == |b| {
      return End(Partial);
    }
    l := NameLook(e, b, start, true);
    if l.NotThis? {
      return End(Invalid(start));
    }
  }

  /** From the equals sign, or the white space before it, up to the next attribute. */
  method ScanEqualsAndValue(e: Encoding, b: Text, start: nat) returns (l: Look)
    requires start < |b| && (Space(e.typeOf(b[start])) || e.typeOf(b[start]) == Equals)
    ensures !l.NotThis?
    ensures var m := if Space(e.typeOf(b[start])) then BeforeEquals else BeforeQuote;
            && (l.Past? ==> start < l.next <= |b| && Run(e, b, start + 1, m) == Run(e, b, l.next, AttName(false)))
            && (l.End? ==> Run(e, b, start + 1, m) == l.result)
  {
    hide Run;
    l := Past(start);
    if e.typeOf(b[start]) != Equals {
      l := SeekEquals(e, b, start);
      if l.End? {
        return;
      }
    }
    l := SeekQuote(e, b, l.next);
    if l.End? {
      return;
    }
    l := SkipValue(e, b, l.next + 1, e.typeOf(b[l.next]));
    if l.End? {
      return;
    }
    l := NextAtt(e, b, l.next + 1);
  }

  method ScanAtts(e: Encoding, b: Text, start: nat) returns (r: Result)
    requires start <= |b|
    ensures r == Run(e, b, start, AttName(false))
  {
    hide Run, NameLook, TagStep, AttStep;
    var p, hadColon := start, false;
    while p != |b|
      invariant p <= |b| && Run(e, b, p, AttName(hadColon)) == Run(e, b, start, AttName(false))
      decreases |b| - p
    {
      RunAttName(e, b, p, hadColon);
      var l := NameLook(e, b, p, false);
      if l.NotThis? {
        var t := e.typeOf(b[p]);
        if t == Colon {
          if hadColon {
            return Invalid(p);
          }
          hadColon := true;
          l := ScanColon(e, b, p + 1, AttColon);
        } else if Space(t) || t == Equals {
          hadColon := false;
          l := ScanEqualsAndValue(e, b, p);
        } else {
          return Invalid(p);
        }
      }
      if l.End? {
        return l.result;
      }
      p := l.next;
    }
    RunAtt(e, b, p, AttName(hadColon));
    return Partial;
  }

  /* ----- tags and content ----- */

  /** White space behind the name of a start tag. */
  method ScanTagSpace(e: Encoding, b: Text, start: nat) returns (r: Result)
    requires start <= |b|
    ensures r == Run(e, b, start, TagSpace)
  {
    hide Run, NameLook;
    var p := start;
    while p != |b|
      invariant p <= |b| && Run(e, b, p, TagSpace) == Run(e, b, start, TagSpace)
      decreases |b| - p
    {
      RunTag(e, b, p, TagSpace);
      match NameLook(e, b, p, true) {
        case Past(q) =>
          r := ScanAtts(e, b, q);
          return;
        case End(stop) => return stop;
        case NotThis =>
          var t := e.typeOf(b[p]);
          if t == Gt {
            return Tok(StartTagNoAtts, p + 1);
          }
          if t == Sol {
            r := ScanSlash(e, b, p + 1, false);
            return;
          }
          if !Space(t) {
            return Invalid(p);
          }
          p := p + 1;
      }
    }
    RunTag(e, b, p, TagSpace);
    return Partial;
  }

  /** The name of a start tag, up to the end of the tag. */
  method ScanTagName(e: Encoding, b: Text, start: nat) returns (r: Result)
    requires start <= |b|
    ensures r == Run(e, b, start, TagName(false))
  {
    hide Run, NameLook, TagStep, AttStep;
    var p, hadColon := start, false;
    while p != |b|
      invariant p <= |b| && Run(e, b, p, TagName(hadColon)) == Run(e, b, start, TagName(false))
      decreases |b| - p
    {
      RunTagName(e, b, p, hadColon);
      var l := NameLook(e, b, p, false);
      if l.NotThis? {
        var t := e.typeOf(b[p]);
        if t == Colon {
          if hadColon {
            return Invalid(p);
          }
          hadColon := true;
          l := ScanColon(e, b, p + 1, TagColon);
        } else if Space(t) {
          r := ScanTagSpace(e, b, p + 1);
          return;
        } else if t == Gt {
          return Tok(StartTagNoAtts, p + 1);
        } else if t == Sol {
          r := ScanSlash(e, b, p + 1, false);
          return;
        } else {
          return Invalid(p);
        }
      }
      if l.End? {
        return l.result;
      }
      p := l.next;
    }
    RunTag(e, b, p, TagName(hadColon));
    return Partial;
  }

  method ScanLt(e: Encoding, b: Text, start: nat) returns (r: Result)
    requires start <= |b|
    ensures r == Run(e, b, start, AfterLt)
  {
    hide Run, NameLook;
    var p := start;
    RunDecl(e, b, p, AfterLt);
    if p == |b| {
      return Partial;
    }
    match NameLook(e, b, p, true) {
      case Past(q) => r := ScanTagName(e, b, q);
      case End(stop) => return stop;
      case NotThis =>
        match e.typeOf(b[p]) {
          case Excl =>
            p := p + 1;
            RunDecl(e, b, p, AfterExcl);
            if p == |b| {
              return Partial;
            }
            match e.typeOf(b[p]) {
              case Minus => r := ScanComment(e, b, p + 1);
              case Lsqb => r := ScanCdataSection(e, b, p + 1);
              case _ => return Invalid(p);
            }
          case Quest => r := ScanPi(e, b, p + 1);
          case Sol => r := ScanEndTag(e, b, p + 1);
          case _ => return Invalid(p);
        }
    }
  }

  /** The loop over character data. */
  method ScanData(e: Encoding, b: Text, start: nat) returns (r: Result)
    requires start <= |b|
    ensures r == Run(e, b, start, InData)
  {
    hide Run;
    var p := start;
    while p != |b|
      invariant p <= |b| && Run(e, b, p, InData) == Run(e, b, start, InData)
      decreases |b| - p
    {
      RunText(e, b, p, InData);
      var t := e.typeOf(b[p]);
      if IsLead(t) {
        var n := Width(t);
        if |b| - p < n || e.isInvalid(b[p..p + n]) {
          return Tok(DataChars, p);
        }
        p := p + n;
        continue;
      }
      if t == Rsqb {
        if p + 1 != |b| {
          if b[p + 1] != RSQB {
            p := p + 1;
            continue;
          }
          if p + 2 != |b| {
            if b[p + 2] != GT {
              p := p + 1;
              continue;
            }
            return Invalid(p + 2);
          }
        }
        return Tok(DataChars, p);
      }
      if t == Amp || t == Lt || t == NonXml || t == Malform || t == Trail || t == Cr || t == Lf {
        return Tok(DataChars, p);
      }
      p := p + 1;
    }
    RunText(e, b, p, InData);
    return Tok(DataChars, p);
  }

  /** Behind a carriage return. */
  method ScanCr(e: Encoding, b: Text, start: nat) returns (r: Result)
    requires start <= |b|
    ensures r == Run(e, b, start, AfterCr)
  {
    var p := start;
    if p == |b| {
      return TrailingCr;
    }
    if e.typeOf(b[p]) == Lf {
      p := p + 1;
    }
    return Tok(DataNewline, p);
  }

  /** Behind a closing bracket: no `]]>` in character data. */
  method ScanRsqb(e: Encoding, b: Text, start: nat) returns (r: Result)
    requires start <= |b|
    ensures r == Run(e, b, start, AfterRsqb)
  {
    hide Run;
    var p := start;
    RunText(e, b, p, AfterRsqb);
    if p == |b| {
      return TrailingRsqb;
    }
    if b[p] == RSQB {
      p := p + 1;
      if p == |b| {
        return TrailingRsqb;
      }
      if b[p] == GT {
        return Invalid(p);
      }
      p := p - 1;
    }
    r := ScanData(e, b, p);
  }

  method ContentToken(e: Encoding, b: Text, start: nat) returns (r: Result)
    requires start <= |b|
    ensures r == Run(e, b, start, AtStart)
  {
    hide Run, AnyLook;
    var p := start;
    if p == |b| {
      RunText(e, b, p, AtStart);
      return None;
    }
    RunStart(e, b, p);
    match e.typeOf(b[p]) {
      case Lt =>
        r := ScanLt(e, b, p + 1);
        return;
      case Amp =>
        r := ScanRef(e, b, p + 1);
        return;
      case Cr =>
        r := ScanCr(e, b, p + 1);
        return;
      case Lf => return Tok(DataNewline, p + 1);
      case Rsqb =>
        r := ScanRsqb(e, b, p + 1);
        return;
      case _ =>
        match AnyLook(e, b, p) {
          case Past(q) => p := q;
          case End(stop) => return stop;
        }
    }
    r := ScanData(e, b, p);
  }
}
