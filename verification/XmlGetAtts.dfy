/**
 The attributes of a start tag, found by a second and looser scanner once the tokenizer has
 accepted the tag.
 */
module XmlGetAtts {
  import opened XmlTok
  import opened XmlScan
  import opened XmlChar
  import opened XmlRef
  import opened XmlExpand
  import opened XmlNormalize

  /** An attribute by the positions of its name and of its value. */
  datatype Span = Span(name: nat, value: nat, end: nat)

  /** The attributes as the tokenizer's automaton passes through them. */
  function Spans(e: Encoding, b: Text, p: nat, m: Mode, name: nat, value: nat): seq<Span>
    requires Sane(b, p, m)
    decreases |b| - p, Rank(m)
  {
    if p == |b| then []
    else
      match OneStep(e, b, p, m)
      case Stop(_) => []
      case To(q, m') =>
        (if m.InValue? && m'.AfterValue? then [Span(name, value, p)] else [])
        + Spans(e, b, q, m', if m'.AttName? && (m.TagSpace? || m.BetweenAtts?) then p else name,
                if m.BeforeQuote? && m'.InValue? then q else value)
  }

  /** A tag that the tokenizer accepts, from the modes inside a tag. */
  predicate InTag(m: Mode) {
    IsAttMode(m) || (IsTagMode(m) && !m.Slash?) || (IsRefMode(m) && m.place.InQuotes?)
  }

  ghost predicate Accepted(e: Encoding, b: Text, p: nat, m: Mode) {
    Sane(b, p, m) && InTag(m) && Run(e, b, p, m).Tok?
  }

  /* ----- the states of the second scanner ----- */

  datatype State = Elsewhere | InsideName | InsideValue

  /** What it knows in each mode of the automaton. */
  predicate Sees(m: Mode, s: State, open: ByteType) {
    if m.TagName? || m.TagColon? || m.AttName? || m.AttColon? then s == InsideName
    else if m.BeforeQuote? then s == InsideName || s == Elsewhere
    else if m.InValue? then s == InsideValue && m.open == open && (open == Quot || open == Apos)
    else if IsRefMode(m) then s == InsideValue && InRef(m, open) && (open == Quot || open == Apos)
    else s == Elsewhere
  }

  /** What a character does to the second scanner. */
  datatype Event = NameBegins | ValueBegins | ValueEnds | TagEnds | NoEvent

  datatype Turn = Turn(state: State, open: ByteType, event: Event)

  /** The characters that START_NAME is for. */
  predicate StartsName(t: ByteType) {
    t == Lead2 || t == Lead3 || t == Lead4 || t == NonAscii || t == Nmstrt || t == Hex
  }

  function TurnOf(t: ByteType, s: State, open: ByteType): Turn {
    if StartsName(t) then
      if s == Elsewhere then Turn(InsideName, open, NameBegins) else Turn(s, open, NoEvent)
    else if t == Quot || t == Apos then
      if s != InsideValue then Turn(InsideValue, t, ValueBegins)
      else if open == t then Turn(Elsewhere, open, ValueEnds)
      else Turn(s, open, NoEvent)
    else if Space(t) then Turn(if s == InsideName then Elsewhere else s, open, NoEvent)
    else if (t == Gt || t == Sol) && s != InsideValue then Turn(s, open, TagEnds)
    else Turn(s, open, NoEvent)
  }

  /** What happens between two modes of the automaton. */
  function EventOf(m: Mode, m': Mode): Event {
    if m'.Slash? then TagEnds
    else if m'.AttName? && (m.TagSpace? || m.BetweenAtts?) then NameBegins
    else if m.BeforeQuote? && m'.InValue? then ValueBegins
    else if m.InValue? && m'.AfterValue? then ValueEnds
    else NoEvent
  }

  predicate NameChar(t: ByteType, start: bool) {
    (StartsName(t) && t != NonAscii) || (!start && (t == Digit || t == Name || t == Minus))
  }

  /** A reference in a value with this kind of quote. */
  predicate InRef(m: Mode, open: ByteType) {
    IsRefMode(m) && m.place.InQuotes? && m.place.open == open
  }

  /** The transitions of the automaton inside a tag, by the class of the character. */
  predicate Goes(m: Mode, t: ByteType, m': Mode) {
    if m.TagName? then
      (m'.TagName? && NameChar(t, false)) || (t == Colon && m'.TagColon?) || (Space(t) && m'.TagSpace?)
        || (t == Sol && m'.Slash?)
    else if m.TagColon? then m'.TagName? && NameChar(t, true)
    else if m.TagSpace? then
      (m'.AttName? && NameChar(t, true)) || (t == Sol && m'.Slash?) || (Space(t) && m'.TagSpace?)
    else if m.AttName? then
      (m'.AttName? && NameChar(t, false)) || (t == Colon && m'.AttColon?) || (Space(t) && m'.BeforeEquals?)
        || (t == Equals && m'.BeforeQuote?)
    else if m.AttColon? then m'.AttName? && NameChar(t, true)
    else if m.BeforeEquals? then (t == Equals && m'.BeforeQuote?) || (Space(t) && m'.BeforeEquals?)
    else if m.BeforeQuote? then
      ((t == Quot || t == Apos) && m'.InValue? && m'.open == t) || (Space(t) && m'.BeforeQuote?)
    else if m.InValue? then
      (t == m.open && m'.AfterValue?) || (t == Amp && InRef(m', m.open))
        || (t != m.open && m'.InValue? && m'.open == m.open)
    else if m.AfterValue? then (Space(t) && m'.BetweenAtts?) || (t == Sol && m'.Slash?)
    else if m.BetweenAtts? then
      (m'.AttName? && NameChar(t, true)) || (t == Sol && m'.Slash?) || (Space(t) && m'.BetweenAtts?)
    else
      IsRefMode(m) && m.place.InQuotes? && (InRef(m', m.place.open) || (m'.InValue? && m'.open == m.place.open))
      && (NameChar(t, false) || t == Num || t == Semi)
  }

  predicate Matches(p: nat, m: Mode, t: ByteType, turn: Turn, step: Step) {
    if step.Stop? then turn.event == TagEnds
    else
      && turn.event == EventOf(m, step.mode)
      && (!step.mode.Slash? ==> InTag(step.mode) && step.next == p + Width(t) && Sees(step.mode, turn.state, turn.open))
  }

  predicate InSomeName(m: Mode) {
    m.TagName? || m.TagColon? || m.AttName? || m.AttColon?
  }

  ghost predicate SeesNext(m: Mode, t: ByteType, m': Mode, s: State, open: ByteType) {
    var turn := TurnOf(t, s, open);
    turn.event == EventOf(m, m') && (!m'.Slash? ==> Sees(m', turn.state, turn.open))
  }

  lemma GoesInside(m: Mode, t: ByteType, m': Mode)
    requires Goes(m, t, m')
    ensures m'.Slash? || InTag(m')
  {
  }

  lemma SeesOnColon(m: Mode, t: ByteType, m': Mode, s: State, open: ByteType)
    requires Goes(m, t, m') && Sees(m, s, open) && (m.TagColon? || m.AttColon?)
    ensures SeesNext(m, t, m', s, open)
  {
    assert s == InsideName;
    assert TurnOf(t, s, open) == Turn(s, open, NoEvent);
  }

  /** Which state a mode outside values is seen in. */
  lemma SeesIs(m: Mode, s: State, open: ByteType)
    ensures InSomeName(m) ==> (Sees(m, s, open) <==> s == InsideName)
    ensures m.TagSpace? || m.BeforeEquals? ==> (Sees(m, s, open) <==> s == Elsewhere)
    ensures m.BeforeQuote? ==> (Sees(m, s, open) <==> s == InsideName || s == Elsewhere)
  {
  }

  lemma TurnInName(t: ByteType, open: ByteType)
    requires t != Quot && t != Apos
    ensures TurnOf(t, InsideName, open) ==
            Turn(if Space(t) then Elsewhere else InsideName, open, if t == Gt || t == Sol then TagEnds else NoEvent)
  {
  }

  lemma EventFromName(m: Mode, m': Mode)
    requires InSomeName(m)
    ensures EventOf(m, m') == if m'.Slash? then TagEnds else NoEvent
  {
  }

  lemma TagNameGoes(m: Mode, t: ByteType, m': Mode)
    requires Goes(m, t, m') && m.TagName?
    ensures t != Quot && t != Apos && t != Gt && (m'.Slash? <==> t == Sol)
    ensures if Space(t) then m'.TagSpace? else m'.Slash? || InSomeName(m')
  {
  }

  lemma AttNameGoes(m: Mode, t: ByteType, m': Mode)
    requires Goes(m, t, m') && m.AttName?
    ensures t != Quot && t != Apos && t != Gt && t != Sol && !m'.Slash?
    ensures if Space(t) then m'.BeforeEquals? else m'.BeforeQuote? || InSomeName(m')
  {
  }

  lemma SeesOnName(m: Mode, t: ByteType, m': Mode, s: State, open: ByteType)
    requires Goes(m, t, m') && Sees(m, s, open) && (m.TagName? || m.AttName?)
    ensures SeesNext(m, t, m', s, open)
  {
    if m.TagName? {
      TagNameGoes(m, t, m');
    } else {
      AttNameGoes(m, t, m');
    }
    hide Goes, TurnOf, EventOf, Sees;
    var turn := TurnOf(t, s, open);
    SeesIs(m, s, open);
    TurnInName(t, open);
    EventFromName(m, m');
    SeesIs(m', turn.state, turn.open);
  }

  lemma SeesOnValue(m: Mode, t: ByteType, m': Mode, s: State, open: ByteType)
    requires Goes(m, t, m') && Sees(m, s, open) && m.InValue?
    ensures SeesNext(m, t, m', s, open)
  {
    assert s == InsideValue && m.open == open;
    if t == open {
      assert m'.AfterValue?;
      assert TurnOf(t, s, open) == Turn(Elsewhere, open, ValueEnds);
      assert EventOf(m, m') == ValueEnds;
    } else if t == Amp {
      assert TurnOf(t, s, open) == Turn(s, open, NoEvent);
    } else {
      assert TurnOf(t, s, open) == Turn(s, open, NoEvent);
    }
  }

  lemma SeesOnRef(m: Mode, t: ByteType, m': Mode, s: State, open: ByteType)
    requires Goes(m, t, m') && Sees(m, s, open) && IsRefMode(m)
    ensures SeesNext(m, t, m', s, open)
  {
    assert TurnOf(t, s, open) == Turn(s, open, NoEvent);
    assert EventOf(m, m') == NoEvent;
  }

  lemma SeesOnGap(m: Mode, t: ByteType, m': Mode, s: State, open: ByteType)
    requires Goes(m, t, m') && Sees(m, s, open) && !InSomeName(m) && !IsRefMode(m) && !m.InValue?
    ensures SeesNext(m, t, m', s, open)
  {
    assert s == Elsewhere || (s == InsideName && m.BeforeQuote?);
    if NameChar(t, true) {
      assert m'.AttName? && TurnOf(t, s, open) == Turn(InsideName, open, NameBegins);
    } else if Space(t) {
      assert TurnOf(t, s, open) == Turn(Elsewhere, open, NoEvent);
    } else if t == Sol {
      assert TurnOf(t, s, open).event == TagEnds;
    } else if t == Equals {
      assert TurnOf(t, s, open) == Turn(s, open, NoEvent);
    } else {
      assert TurnOf(t, s, open) == Turn(InsideValue, t, ValueBegins);
    }
  }

  /** Step by step, the second scanner sees what the automaton does. */
  lemma SeesOn(m: Mode, t: ByteType, m': Mode, s: State, open: ByteType)
    requires Goes(m, t, m') && Sees(m, s, open)
    ensures SeesNext(m, t, m', s, open)
  {
    hide SeesNext, Goes;
    if IsRefMode(m) {
      SeesOnRef(m, t, m', s, open);
    } else if m.InValue? {
      SeesOnValue(m, t, m', s, open);
    } else if m.TagColon? || m.AttColon? {
      SeesOnColon(m, t, m', s, open);
    } else if m.TagName? || m.AttName? {
      SeesOnName(m, t, m', s, open);
    } else {
      SeesOnGap(m, t, m', s, open);
    }
  }

  /** The kinds of characters that a name can have. */
  lemma NamePast(e: Encoding, b: Text, p: nat, start: bool)
    requires p < |b|
    ensures var l, t := NameLook(e, b, p, start), e.typeOf(b[p]);
            && (l.Past? ==> l.next == p + Width(t) && NameChar(t, start))
            && (l.NotThis? ==> !StartsName(t))
            && (l.End? ==> !l.result.Tok?)
  {
  }

  lemma AnyPast(e: Encoding, b: Text, p: nat)
    requires p < |b|
    ensures var l := AnyLook(e, b, p);
            (l.Past? ==> l.next == p + Width(e.typeOf(b[p]))) && (l.End? ==> !l.result.Tok?)
  {
  }

  /** How a step of the automaton goes in a tag. */
  ghost predicate Stepped(e: Encoding, b: Text, p: nat, m: Mode, step: Step)
    requires p < |b|
  {
    match step
    case To(q, m') => Goes(m, e.typeOf(b[p]), m') && q == p + Width(e.typeOf(b[p]))
    case Stop(r) => r.Tok? ==> e.typeOf(b[p]) == Gt && (m.TagName? || m.TagSpace? || m.AfterValue? || m.BetweenAtts?)
  }

  lemma TagSteps(e: Encoding, b: Text, p: nat, m: Mode)
    requires p < |b| && IsTagMode(m) && !m.Slash?
    ensures Stepped(e, b, p, m, TagStep(e, b, p, m))
  {
    hide NameLook;
    NamePast(e, b, p, true);
    NamePast(e, b, p, false);
  }

  lemma AttSteps(e: Encoding, b: Text, p: nat, m: Mode)
    requires p < |b| && IsAttMode(m) && (m.InValue? ==> m.open == Quot || m.open == Apos)
    ensures Stepped(e, b, p, m, AttStep(e, b, p, m))
  {
    hide NameLook, AnyLook;
    NamePast(e, b, p, true);
    NamePast(e, b, p, false);
    AnyPast(e, b, p);
  }

  lemma RefSteps(e: Encoding, b: Text, p: nat, m: Mode)
    requires AsciiTable(e) && p < |b| && IsRefMode(m) && m.place.InQuotes?
    ensures Stepped(e, b, p, m, RefStep(e, b, p, m))
  {
    hide NameLook, AsciiTable, AsciiType;
    NamePast(e, b, p, true);
    NamePast(e, b, p, false);
    AsciiClasses(e, b[p]);
  }

  /** In an accepted tag the second scanner keeps pace with the automaton. */
  lemma KeepsPace(e: Encoding, b: Text, p: nat, m: Mode, s: State, open: ByteType)
    requires AsciiTable(e) && Accepted(e, b, p, m) && Sees(m, s, open)
    ensures p < |b|
    ensures var step := OneStep(e, b, p, m);
            && Matches(p, m, e.typeOf(b[p]), TurnOf(e.typeOf(b[p]), s, open), step)
            && (step.To? && !step.mode.Slash? ==> Accepted(e, b, step.next, step.mode))
  {
    hide TagStep, AttStep, RefStep, AsciiTable, TurnOf, Goes, EventOf;
    if p < |b| {
      if IsTagMode(m) {
        TagSteps(e, b, p, m);
      } else if IsAttMode(m) {
        AttSteps(e, b, p, m);
      } else {
        RefSteps(e, b, p, m);
      }
      var step := OneStep(e, b, p, m);
      if step.To? {
        SeesOn(m, e.typeOf(b[p]), step.mode, s, open);
        GoesInside(m, e.typeOf(b[p]), step.mode);
      } else {
        TagTurn(m, s, open);
      }
    }
  }

  lemma TagTurn(m: Mode, s: State, open: ByteType)
    requires Sees(m, s, open) && (m.TagName? || m.TagSpace? || m.AfterValue? || m.BetweenAtts?)
    ensures TurnOf(Gt, s, open).event == TagEnds
  {
  }

  /* ----- values ----- */

  predicate InSomeValue(m: Mode) {
    m.InValue? || IsRefMode(m)
  }

  lemma SpansTurn(e: Encoding, b: Text, p: nat, m: Mode, name: nat, value: nat)
    requires Sane(b, p, m) && p < |b|
    ensures var step := OneStep(e, b, p, m);
            Spans(e, b, p, m, name, value) ==
            if step.Stop? then []
            else
              (if m.InValue? && step.mode.AfterValue? then [Span(name, value, p)] else [])
              + Spans(e, b, step.next, step.mode,
                      if step.mode.AttName? && (m.TagSpace? || m.BetweenAtts?) then p else name,
                      if m.BeforeQuote? && step.mode.InValue? then step.next else value)
  {
    hide OneStep;
  }

  /** The quotes that a value can have. */
  predicate Quotes(open: ByteType) {
    open == Quot || open == Apos
  }

  function OpenOf(m: Mode): ByteType
    requires m.InValue? || (IsRefMode(m) && m.place.InQuotes?)
  {
    if m.InValue? then m.open else m.place.open
  }

  /** Where a value ends: at its own quote, and nowhere before. */
  lemma {:induction false} ValueHasEnd(e: Encoding, b: Text, p: nat, m: Mode, name: nat, value: nat)
    requires AsciiTable(e) && Accepted(e, b, p, m) && InSomeValue(m) && Quotes(OpenOf(m))
    ensures p < |b|
    ensures var spans := Spans(e, b, p, m, name, value);
            && spans != [] && spans[0].name == name && spans[0].value == value && p <= spans[0].end < |b|
            && (spans[0].end == p <==> m.InValue? && e.typeOf(b[p]) == m.open)
    decreases |b| - p
  {
    hide AsciiTable, OneStep, Spans, Run, Matches, Goes;
    var open := OpenOf(m);
    assert Sees(m, InsideValue, open);
    KeepsPace(e, b, p, m, InsideValue, open);
    SpansTurn(e, b, p, m, name, value);
    ValueGoes(e, b, p, m);
    var step := OneStep(e, b, p, m);
    if !step.mode.AfterValue? {
      ValueHasEnd(e, b, step.next, step.mode, name, value);
    }
  }

  /** How the automaton goes on inside a value. */
  lemma ValueGoes(e: Encoding, b: Text, p: nat, m: Mode)
    requires AsciiTable(e) && Accepted(e, b, p, m) && InSomeValue(m) && Quotes(OpenOf(m))
    ensures p < |b|
    ensures var step, t := OneStep(e, b, p, m), e.typeOf(b[p]);
            && step.To? && step.next == p + Width(t)
            && (step.mode.AfterValue? || (InSomeValue(step.mode) && step.mode != BeforeQuote && InTag(step.mode)
                                          && OpenOf(step.mode) == OpenOf(m)))
            && (step.mode.AfterValue? <==> m.InValue? && t == m.open)
            && (m.InValue? && t != m.open ==> t != Lt && (t == Amp <==> IsRefMode(step.mode)))
  {
    hide AsciiTable, TagStep;
    if p < |b| {
      if m.InValue? {
        hide AnyLook;
        AnyPast(e, b, p);
        AttSteps(e, b, p, m);
      } else {
        hide RefStep;
        RefSteps(e, b, p, m);
      }
    }
  }

  /* ----- the records ----- */

  datatype Attribute = Attribute(name: nat, valuePtr: nat, valueEnd: nat, normalized: bool)

  /** A complete record: the positions of the attribute, and whether its value may be copied. */
  ghost predicate Found(e: Encoding, b: Text, a: Attribute, s: Span) {
    && s.value <= s.end <= |b| && a.name == s.name && a.valuePtr == s.value && a.valueEnd == s.end
    && (a.normalized <==> PlainValue(e, b[s.value..s.end], 0))
  }

  /** The modes in which an attribute has begun. */
  predicate Begun(m: Mode) {
    m.AttName? || m.AttColon? || m.BeforeEquals? || m.BeforeQuote? || InSomeValue(m)
  }

  /** The record of the attribute that is being read. */
  ghost predicate Current(e: Encoding, b: Text, p: nat, m: Mode, name: nat, value: nat, a: Attribute)
    requires Sane(b, p, m)
  {
    && (Begun(m) ==> a.name == name)
    && (Begun(m) && !InSomeValue(m) ==> a.normalized)
    && (InSomeValue(m) ==> Reading(e, b, p, m, name, value, a))
  }

  ghost predicate Reading(e: Encoding, b: Text, p: nat, m: Mode, name: nat, value: nat, a: Attribute)
    requires Sane(b, p, m)
  {
    var spans := Spans(e, b, p, m, name, value);
    && spans != [] && a.valuePtr == value && value <= p <= spans[0].end <= |b|
    && var v := b[value..spans[0].end];
    if m.InValue? then PlainValue(e, v, 0) <==> a.normalized && PlainValue(e, v, p - value)
    else !a.normalized && !PlainValue(e, v, 0)
  }

  /** What the second scanner does to the record. */
  function Updated(e: Encoding, b: Text, p: nat, s: State, open: ByteType, a: Attribute): Attribute
    requires p < |b|
  {
    var t := e.typeOf(b[p]);
    if StartsName(t) then if s == Elsewhere then a.(name := p, normalized := true) else a
    else if Quotes(t) then
      if s != InsideValue then a.(valuePtr := p + 1) else if t == open then a.(valueEnd := p) else a
    else if t == Amp then a.(normalized := false)
    else if t == S then
      if s == InsideValue && (p == a.valuePtr || b[p] != SPACE || p + 1 == |b| || b[p + 1] == SPACE
                              || e.typeOf(b[p + 1]) == open)
      then a.(normalized := false) else a
    else if (t == Cr || t == Lf) && s == InsideValue then a.(normalized := false)
    else a
  }

  /** One character of a value, and what remains plain behind it. */
  lemma PlainTurn(e: Encoding, b: Text, p: nat, m: Mode, open: ByteType, name: nat, value: nat, a: Attribute)
    requires AsciiTable(e) && Accepted(e, b, p, m) && m == InValue(open) && Quotes(open)
    requires Reading(e, b, p, m, name, value, a) && a.name == name
    ensures p < |b|
    ensures var step, a' := OneStep(e, b, p, m), Updated(e, b, p, InsideValue, open, a);
            step.To? && step.next <= |b| && a'.name == name
            && if e.typeOf(b[p]) == open then Found(e, b, a', Span(name, value, p))
               else Sane(b, step.next, step.mode) && Reading(e, b, step.next, step.mode, name, value, a')
  {
    hide AsciiTable, OneStep, Spans, Run, Matches, Goes, PlainValue, InTag, Forward;
    ValueGoes(e, b, p, m);
    ValueHasEnd(e, b, p, m, name, value);
    SpansTurn(e, b, p, m, name, value);
    var step, t, end := OneStep(e, b, p, m), e.typeOf(b[p]), Spans(e, b, p, m, name, value)[0].end;
    var v := b[value..end];
    PlainUnfolds(e, v, p - value);
    if t == open {
      assert end == p;
    } else {
      assert Accepted(e, b, step.next, step.mode) by {
        KeepsPace(e, b, p, m, InsideValue, open);
      }
      ValueHasEnd(e, b, step.next, step.mode, name, value);
      assert end > p && v[p - value] == b[p];
    }
  }

  lemma PlainUnfolds(e: Encoding, v: Text, i: nat)
    ensures PlainValue(e, v, i) <==>
            i >= |v|
            || (var t := e.typeOf(v[i]);
                && t != Amp && t != Cr && t != Lf && t != Lt
                && (t == S ==> i > 0 && v[i] == SPACE && i + 1 < |v| && v[i + 1] != SPACE)
                && PlainValue(e, v, i + Width(t)))
  {
  }

  /** One character of a reference. */
  lemma RefTurn(e: Encoding, b: Text, p: nat, m: Mode, open: ByteType, name: nat, value: nat, a: Attribute)
    requires AsciiTable(e) && Accepted(e, b, p, m) && InRef(m, open) && Quotes(open)
    requires Reading(e, b, p, m, name, value, a)
    ensures p < |b|
    ensures var step, a' := OneStep(e, b, p, m), Updated(e, b, p, InsideValue, open, a);
            && step.To? && Sane(b, step.next, step.mode) && InSomeValue(step.mode)
            && a' == a && Reading(e, b, step.next, step.mode, name, value, a')
  {
    hide AsciiTable, OneStep, Spans, Run, Matches, Goes, PlainValue;
    ValueGoes(e, b, p, m);
    ValueHasEnd(e, b, p, m, name, value);
    SpansTurn(e, b, p, m, name, value);
    RefChars(e, b, p, m);
    var step := OneStep(e, b, p, m);
    assert Accepted(e, b, step.next, step.mode) by {
      KeepsPace(e, b, p, m, InsideValue, open);
    }
    ValueHasEnd(e, b, step.next, step.mode, name, value);
  }

  lemma RefChars(e: Encoding, b: Text, p: nat, m: Mode)
    requires AsciiTable(e) && p < |b| && IsRefMode(m) && m.place.InQuotes? && OneStep(e, b, p, m).To?
    ensures var t := e.typeOf(b[p]); NameChar(t, false) || t == Num || t == Semi
  {
    hide AsciiTable, RefStep;
    RefSteps(e, b, p, m);
  }

  /** Outside values the record changes where a name or a value begins, and only there. */
  lemma GapRecord(e: Encoding, b: Text, p: nat, m: Mode, m': Mode, open: ByteType, s: State, a: Attribute)
    requires p < |b| && Goes(m, e.typeOf(b[p]), m') && Sees(m, s, open) && !InSomeValue(m) && !m'.Slash?
    ensures s != InsideValue && EventOf(m, m') != ValueEnds && EventOf(m, m') != TagEnds
    ensures Updated(e, b, p, s, open, a) ==
            if EventOf(m, m') == NameBegins then a.(name := p, normalized := true)
            else if EventOf(m, m') == ValueBegins then a.(valuePtr := p + 1)
            else a
    ensures EventOf(m, m') == NoEvent ==> (Begun(m') <==> Begun(m)) && !InSomeValue(m')
    ensures EventOf(m, m') == NameBegins ==> !InSomeValue(m') && !m'.InValue?
    ensures m'.InValue? ==> EventOf(m, m') == ValueBegins
    ensures EventOf(m, m') == ValueBegins ==>
              Begun(m) && m'.InValue? && Quotes(m'.open) && e.typeOf(b[p]) == m'.open && Width(e.typeOf(b[p])) == 1
  {
    SeesOn(m, e.typeOf(b[p]), m', s, open);
  }

  lemma AcceptedInTag(e: Encoding, b: Text, p: nat, m: Mode)
    requires Accepted(e, b, p, m)
    ensures Sane(b, p, m) && InTag(m)
  {
  }

  /** A value begins. */
  lemma ValueStarts(e: Encoding, b: Text, p: nat, open: ByteType, name: nat, a: Attribute)
    requires AsciiTable(e) && Accepted(e, b, p, InValue(open)) && Quotes(open)
    requires a.valuePtr == p && a.normalized
    ensures Reading(e, b, p, InValue(open), name, p, a)
  {
    hide AsciiTable, Run, PlainValue, Spans;
    ValueHasEnd(e, b, p, InValue(open), name, p);
  }

  /** The record behind a step outside values. */
  lemma GapCurrent(e: Encoding, b: Text, p: nat, m: Mode, q: nat, m': Mode, open: ByteType, s: State, name: nat,
                   value: nat, a: Attribute)
    requires AsciiTable(e) && p < |b| && Sane(b, p, m) && Sees(m, s, open) && !InSomeValue(m) && !m'.Slash?
    requires Current(e, b, p, m, name, value, a)
    requires Accepted(e, b, q, m') && Goes(m, e.typeOf(b[p]), m') && q == p + Width(e.typeOf(b[p]))
    ensures EventOf(m, m') != ValueEnds
    ensures Current(e, b, q, m', if EventOf(m, m') == NameBegins then p else name,
                    if EventOf(m, m') == ValueBegins then q else value, Updated(e, b, p, s, open, a))
  {
    hide AsciiTable, OneStep, Spans, Run, PlainValue, Sees, TurnOf, Goes, EventOf, Updated, Reading, Begun,
         InSomeValue, InTag;
    GapRecord(e, b, p, m, m', open, s, a);
    if m'.InValue? {
      ValueStarts(e, b, q, m'.open, name, Updated(e, b, p, s, open, a));
    }
    ValueModes(m, m');
  }

  lemma ValueModes(m: Mode, m': Mode)
    ensures m.InValue? ==> InSomeValue(m)
    ensures EventOf(m, m') == NameBegins ==> Begun(m')
    ensures EventOf(m, m') == ValueBegins ==> m'.InValue?
  {
  }

  /** The record behind a step. */
  lemma RecordTurn(e: Encoding, b: Text, p: nat, m: Mode, q: nat, m': Mode, open: ByteType, s: State, name: nat,
                   value: nat, a: Attribute)
    requires AsciiTable(e) && Accepted(e, b, p, m) && Sees(m, s, open) && Current(e, b, p, m, name, value, a)
    requires p < |b| && OneStep(e, b, p, m) == To(q, m') && !m'.Slash?
    ensures Sane(b, q, m')
    ensures var a' := Updated(e, b, p, s, open, a);
            if EventOf(m, m') == ValueEnds then Found(e, b, a', Span(name, value, p))
            else Current(e, b, q, m', if EventOf(m, m') == NameBegins then p else name,
                         if EventOf(m, m') == ValueBegins then q else value, a')
  {
    hide AsciiTable, OneStep, Spans, Run, PlainValue, Matches, TurnOf, Goes, Updated, Reading, InTag;
    KeepsPace(e, b, p, m, s, open);
    if m.InValue? {
      PlainTurn(e, b, p, m, open, name, value, a);
      ValueGoes(e, b, p, m);
    } else if IsRefMode(m) {
      RefTurn(e, b, p, m, open, name, value, a);
    } else {
      GapGoes(e, b, p, m);
      GapCurrent(e, b, p, m, q, m', open, s, name, value, a);
    }
  }

  lemma GapGoes(e: Encoding, b: Text, p: nat, m: Mode)
    requires p < |b| && Sane(b, p, m) && InTag(m) && !InSomeValue(m)
    ensures var step, t := OneStep(e, b, p, m), e.typeOf(b[p]);
            step.To? ==> Goes(m, t, step.mode) && step.next == p + Width(t)
  {
    hide TagStep, AttStep, Goes;
    if IsTagMode(m) {
      TagSteps(e, b, p, m);
    } else {
      AttSteps(e, b, p, m);
    }
  }

  /* ----- the loop ----- */

  /** A start tag at `start` that the tokenizer accepts, from behind its first character on. */
  ghost predicate StartTag(e: Encoding, b: Text, start: nat) {
    start + 1 < |b| && var l := NameLook(e, b, start + 1, true); l.Past? && Accepted(e, b, l.next, TagName(false))
  }

  /** Its attributes. */
  ghost function Attributes(e: Encoding, b: Text, start: nat): seq<Span>
    requires StartTag(e, b, start)
  {
    Spans(e, b, NameLook(e, b, start + 1, true).next, TagName(false), 0, 0)
  }

  /** The records of the attributes that have been read, and of the one that is being read. */
  ghost predicate Recorded(e: Encoding, b: Text, p: nat, m: Mode, name: nat, value: nat, done: seq<Span>,
                           atts: seq<Attribute>)
    requires Sane(b, p, m)
  {
    && (forall k: nat :: k < |done| && k < |atts| ==> Found(e, b, atts[k], done[k]))
    && (|done| < |atts| ==> Current(e, b, p, m, name, value, atts[|done|]))
  }

  lemma RecordedTurn(e: Encoding, b: Text, p: nat, m: Mode, q: nat, m': Mode, open: ByteType, s: State, name: nat,
                     value: nat,
                     done: seq<Span>, atts: seq<Attribute>, atts': seq<Attribute>)
    requires AsciiTable(e) && Accepted(e, b, p, m) && Sees(m, s, open) && Recorded(e, b, p, m, name, value, done, atts)
    requires p < |b| && OneStep(e, b, p, m) == To(q, m') && !m'.Slash?
    requires |atts'| == |atts| && forall k: nat :: k < |atts| && k != |done| ==> atts'[k] == atts[k]
    requires |done| < |atts| ==> atts'[|done|] == Updated(e, b, p, s, open, atts[|done|])
    ensures Sane(b, q, m')
    ensures Recorded(e, b, q, m', if EventOf(m, m') == NameBegins then p else name,
                     if EventOf(m, m') == ValueBegins then q else value,
                     if EventOf(m, m') == ValueEnds then done + [Span(name, value, p)] else done, atts')
  {
    hide AsciiTable, OneStep, Spans, Run, PlainValue, TurnOf, Updated, Reading, Found, Sees;
    if |done| < |atts| {
      RecordTurn(e, b, p, m, q, m', open, s, name, value, atts[|done|]);
    }
  }

  lemma NoSpansInSlash(e: Encoding, b: Text, p: nat, m: Mode, name: nat, value: nat)
    requires p <= |b| && m.Slash?
    ensures Spans(e, b, p, m, name, value) == []
  {
  }

  /** One turn of the loop, with what it means for the automaton. */
  lemma LoopTurn(e: Encoding, b: Text, p: nat, m: Mode, s: State, open: ByteType, name: nat, value: nat)
    requires AsciiTable(e) && Accepted(e, b, p, m) && Sees(m, s, open)
    ensures p < |b|
    ensures var turn, step := TurnOf(e.typeOf(b[p]), s, open), OneStep(e, b, p, m);
            if turn.event == TagEnds then Spans(e, b, p, m, name, value) == []
            else
              && step.To? && !step.mode.Slash? && Accepted(e, b, step.next, step.mode)
              && Sees(step.mode, turn.state, turn.open)
              && step.next == p + Width(e.typeOf(b[p])) && turn.event == EventOf(m, step.mode)
              && Spans(e, b, p, m, name, value) ==
                 (if turn.event == ValueEnds then [Span(name, value, p)] else [])
                 + Spans(e, b, step.next, step.mode, if turn.event == NameBegins then p else name,
                         if turn.event == ValueBegins then step.next else value)
  {
    hide AsciiTable, OneStep, Spans, Run, TurnOf, Sees, InTag;
    KeepsPace(e, b, p, m, s, open);
    SpansTurn(e, b, p, m, name, value);
    var step := OneStep(e, b, p, m);
    if step.To? && step.mode.Slash? {
      NoSpansInSlash(e, b, step.next, step.mode, name, value);
    }
  }

  /** Where the automaton is, and which attributes are behind it. */
  datatype Progress = Progress(m: Mode, name: nat, value: nat, done: seq<Span>)

  /** The loop is in step with the automaton on its way to `all`. */
  ghost predicate InStep(e: Encoding, b: Text, p: nat, g: Progress, s: State, open: ByteType, all: seq<Span>,
                         atts: seq<Attribute>) {
    && Accepted(e, b, p, g.m) && Sees(g.m, s, open) && g.done + Spans(e, b, p, g.m, g.name, g.value) == all
    && Recorded(e, b, p, g.m, g.name, g.value, g.done, atts)
  }

  /** The next character. */
  lemma StaysInStep(e: Encoding, b: Text, p: nat, g: Progress, s: State, open: ByteType, all: seq<Span>,
                    atts: seq<Attribute>, atts': seq<Attribute>)
    returns (g': Progress)
    requires AsciiTable(e) && InStep(e, b, p, g, s, open, all, atts)
    requires p < |b| && TurnOf(e.typeOf(b[p]), s, open).event != TagEnds
    requires |atts'| == |atts| && forall k: nat :: k < |atts| && k != |g.done| ==> atts'[k] == atts[k]
    requires |g.done| < |atts| ==> atts'[|g.done|] == Updated(e, b, p, s, open, atts[|g.done|])
    ensures var t := TurnOf(e.typeOf(b[p]), s, open);
            InStep(e, b, p + Width(e.typeOf(b[p])), g', t.state, t.open, all, atts')
            && |g'.done| == |g.done| + if t.event == ValueEnds then 1 else 0
  {
    hide AsciiTable, OneStep, Spans, Run, TurnOf, Updated, Found, Sees, EventOf, InTag, Current, Recorded, Accepted;
    LoopTurn(e, b, p, g.m, s, open, g.name, g.value);
    AcceptedInTag(e, b, p, g.m);
    var step, event := OneStep(e, b, p, g.m), TurnOf(e.typeOf(b[p]), s, open).event;
    RecordedTurn(e, b, p, g.m, step.next, step.mode, open, s, g.name, g.value, g.done, atts, atts');
    g' := Progress(step.mode, if event == NameBegins then p else g.name,
                   if event == ValueBegins then step.next else g.value,
                   if event == ValueEnds then g.done + [Span(g.name, g.value, p)] else g.done);
    var rest := Spans(e, b, step.next, step.mode, g'.name, g'.value);
    assert g.done + ([Span(g.name, g.value, p)] + rest) == (g.done + [Span(g.name, g.value, p)]) + rest;
    assert g.done + ([] + rest) == g.done + rest;
  }

  lemma EndsInStep(e: Encoding, b: Text, p: nat, g: Progress, s: State, open: ByteType, all: seq<Span>,
                   atts: seq<Attribute>)
    requires AsciiTable(e) && InStep(e, b, p, g, s, open, all, atts)
    ensures p < |b|
    ensures TurnOf(e.typeOf(b[p]), s, open).event == TagEnds ==>
              g.done == all && forall k: nat :: k < |all| && k < |atts| ==> Found(e, b, atts[k], all[k])
  {
    hide AsciiTable, OneStep, Spans, Run, TurnOf, Updated, Found, Sees, EventOf, InTag, Current;
    LoopTurn(e, b, p, g.m, s, open, g.name, g.value);
    assert g.done + [] == g.done;
  }

  lemma FirstInStep(e: Encoding, b: Text, start: nat, open: ByteType, atts: seq<Attribute>)
    requires StartTag(e, b, start)
    ensures start + 1 < |b|
    ensures var t := e.typeOf(b[start + 1]);
            && TurnOf(t, InsideName, open) == Turn(InsideName, open, NoEvent)
            && (atts != [] ==> Updated(e, b, start + 1, InsideName, open, atts[0]) == atts[0])
            && InStep(e, b, start + 1 + Width(t), Progress(TagName(false), 0, 0, []), InsideName, open,
                      Attributes(e, b, start), atts)
  {
    hide Run, Spans, OneStep;
    NamePast(e, b, start + 1, true);
  }

  /**
   `getAtts` counts the attributes of every accepted tag, and for those that the array has
   room for it finds the name and the value that the tokenizer found; a value is marked as
   normalized exactly if it may be copied.
   */
  method GetAtts(e: Encoding, b: Text, start: nat, atts: array<Attribute>) returns (n: nat)
    requires AsciiTable(e) && StartTag(e, b, start)
    modifies atts
    ensures n == |Attributes(e, b, start)|
    ensures forall k: nat :: k < n && k < atts.Length ==> Found(e, b, atts[k], Attributes(e, b, start)[k])
  {
    hide AsciiTable, TurnOf, Updated, Found, InStep, Attributes, StartTag, Width;
    n := 0;
    var state, open, ptr := InsideName, NonXml, start + 1;
    ghost var all, g, first := Attributes(e, b, start), Progress(TagName(false), 0, 0, []), true;
    while true
      invariant start < ptr
      invariant first ==> ptr == start + 1 && state == InsideName && n == 0 && g == Progress(TagName(false), 0, 0, [])
      invariant !first ==> InStep(e, b, ptr, g, state, open, all, atts[..])
      invariant n == |g.done|
      decreases |b| - ptr
    {
      if first {
        FirstInStep(e, b, start, open, atts[..]);
      } else {
        EndsInStep(e, b, ptr, g, state, open, all, atts[..]);
      }
      var turn := TurnOf(e.typeOf(b[ptr]), state, open);
      if turn.event == TagEnds {
        return;
      }
      ghost var before := atts[..];
      if n < atts.Length {
        atts[n] := Updated(e, b, ptr, state, open, atts[n]);
      }
      if first {
        first := false;
        assert atts[..] == before;
      } else {
        g := StaysInStep(e, b, ptr, g, state, open, all, before, atts[..]);
      }
      if turn.event == ValueEnds {
        n := n + 1;
      }
      state, open := turn.state, turn.open;
      ptr := ptr + Width(e.typeOf(b[ptr]));
    }
  }

  /* ----- the tokenizer and the records together ----- */

  predicate IsTagToken(tok: Token) {
    tok == StartTagNoAtts || tok == StartTagWithAtts || tok == EmptyElementNoAtts || tok == EmptyElementWithAtts
  }

  /** The modes that can come to a start tag. */
  predicate LeadsToTag(m: Mode) {
    m == AtStart || m == AfterLt || m.Slash? || InTag(m)
  }

  predicate NoTags(step: Step) {
    match step
    case To(_, m) => !LeadsToTag(m)
    case Stop(r) => !(r.Tok? && IsTagToken(r.tok))
  }

  lemma TextHasNoTags(e: Encoding, b: Text, p: nat, m: Mode)
    requires p < |b| && IsTextMode(m) && !LeadsToTag(m)
    ensures NoTags(TextStep(e, b, p, m))
  {
    LooksAreNoTags(e, b, p);
    hide NameLook, AnyLook, Forward;
  }

  lemma RefHasNoTags(e: Encoding, b: Text, p: nat, m: Mode)
    requires p < |b| && IsRefMode(m) && !LeadsToTag(m)
    ensures NoTags(RefStep(e, b, p, m))
  {
    LooksAreNoTags(e, b, p);
    hide NameLook, AnyLook, Forward;
  }

  lemma DeclHasNoTags(e: Encoding, b: Text, p: nat, m: Mode)
    requires p < |b| && IsDeclMode(m) && !LeadsToTag(m)
    ensures NoTags(DeclStep(e, b, p, m))
  {
    LooksAreNoTags(e, b, p);
    hide NameLook, AnyLook, Forward;
  }

  lemma PiHasNoTags(e: Encoding, b: Text, p: nat, m: Mode)
    requires p < |b| && m.PiTarget? && Sane(b, p, m)
    ensures NoTags(NamedStep(e, b, p, m))
  {
    LooksAreNoTags(e, b, p);
    hide NameLook, AnyLook, Forward, CheckPiTarget;
  }

  lemma NamedHasNoTags(e: Encoding, b: Text, p: nat, m: Mode)
    requires p < |b| && IsNamedMode(m) && !m.PiTarget? && Sane(b, p, m) && !LeadsToTag(m)
    ensures NoTags(NamedStep(e, b, p, m))
  {
    LooksAreNoTags(e, b, p);
    hide NameLook, AnyLook, Forward;
  }

  lemma TagStepsOnly(e: Encoding, b: Text, p: nat, m: Mode)
    requires p < |b| && Sane(b, p, m) && !LeadsToTag(m)
    ensures NoTags(OneStep(e, b, p, m))
  {
    hide TextStep, RefStep, TagStep, AttStep, DeclStep, NamedStep, NoTags;
    if IsTextMode(m) {
      TextHasNoTags(e, b, p, m);
    } else if IsRefMode(m) {
      RefHasNoTags(e, b, p, m);
    } else if IsDeclMode(m) {
      DeclHasNoTags(e, b, p, m);
    } else if m.PiTarget? {
      PiHasNoTags(e, b, p, m);
    } else {
      NamedHasNoTags(e, b, p, m);
    }
  }

  lemma LooksAreNoTags(e: Encoding, b: Text, p: nat)
    requires p < |b|
    ensures forall start: bool :: NameLook(e, b, p, start).End? ==> !NameLook(e, b, p, start).result.Tok?
    ensures AnyLook(e, b, p).End? ==> !AnyLook(e, b, p).result.Tok?
  {
  }

  lemma {:induction false} TagTokensAreTags(e: Encoding, b: Text, p: nat, m: Mode)
    requires Sane(b, p, m)
    ensures var r := Run(e, b, p, m); r.Tok? && IsTagToken(r.tok) ==> LeadsToTag(m)
    decreases |b| - p, Rank(m)
  {
    hide OneStep, LeadsToTag;
    if p < |b| && !LeadsToTag(m) {
      TagStepsOnly(e, b, p, m);
      var step := OneStep(e, b, p, m);
      if step.To? {
        TagTokensAreTags(e, b, step.next, step.mode);
      }
    }
  }

  /** Whatever the tokenizer takes for a start tag or an empty element has a name and is one
      for the second scanner. */
  lemma TagTokenIsTag(e: Encoding, b: Text, start: nat)
    requires start < |b| && e.typeOf(b[start]) == ByteType.Lt
    requires var r := Run(e, b, start, AtStart); r.Tok? && IsTagToken(r.tok)
    ensures StartTag(e, b, start)
  {
    hide NameLook, AnyLook;
    RunStart(e, b, start);
    LtStep(e, b, start + 1);
    var step := DeclStep(e, b, start + 1, AfterLt);
    if step.To? {
      TagTokensAreTags(e, b, step.next, step.mode);
    }
  }

  lemma LtStep(e: Encoding, b: Text, p: nat)
    requires p <= |b|
    ensures p == |b| ==> Run(e, b, p, AfterLt) == Partial
    ensures p < |b| ==>
              var l, step := NameLook(e, b, p, true), DeclStep(e, b, p, AfterLt);
              && (step.To? ==> Run(e, b, p, AfterLt) == Run(e, b, step.next, step.mode))
              && (step.Stop? ==> Run(e, b, p, AfterLt) == step.result && !step.result.Tok?)
              && (l.Past? ==> step == To(l.next, TagName(false)))
              && (!l.Past? && step.To? ==> !LeadsToTag(step.mode))
  {
    hide NameLook;
    if p < |b| {
      LooksAreNoTags(e, b, p);
      RunDecl(e, b, p, AfterLt);
    }
  }

  /* ----- values that are marked ----- */

  /** A character that the tokenizer passes in a value is valid. */
  lemma PassedIsValid(e: Encoding, b: Text, p: nat, m: Mode)
    requires p < |b| && m.InValue? && AttStep(e, b, p, m).To? && e.typeOf(b[p]) != m.open && IsLead(e.typeOf(b[p]))
    ensures var n := Width(e.typeOf(b[p])); p + n <= |b| && !e.isInvalid(b[p..p + n])
  {
  }

  /** A value with nothing but plain characters hides no space in any of them. */
  lemma {:induction false} PlainHidesNoSpace(e: Encoding, b: Text, p: nat, open: ByteType, name: nat, value: nat)
    requires AsciiTable(e) && SoundChars(e) && Accepted(e, b, p, InValue(open)) && Quotes(open) && value <= p
    requires var spans := Spans(e, b, p, InValue(open), name, value);
             spans != [] && p <= spans[0].end <= |b| && PlainValue(e, b[value..spans[0].end], p - value)
    ensures NoHiddenSpace(e, b[p..Spans(e, b, p, InValue(open), name, value)[0].end])
    decreases |b| - p
  {
    hide AsciiTable, OneStep, Spans, Run, Matches, Goes, PlainValue, SoundChars, Accepted, NoHiddenSpace;
    var m := InValue(open);
    ValueGoes(e, b, p, m);
    ValueHasEnd(e, b, p, m, name, value);
    SpansTurn(e, b, p, m, name, value);
    var step, t, end := OneStep(e, b, p, m), e.typeOf(b[p]), Spans(e, b, p, m, name, value)[0].end;
    if t == open {
      NothingHidden(e, b[p..end]);
    } else {
      PlainGoesOn(e, b, value, p, end);
      assert Accepted(e, b, step.next, step.mode) by {
        KeepsPace(e, b, p, m, InsideValue, open);
      }
      ValueHasEnd(e, b, step.next, step.mode, name, value);
      PlainHidesNoSpace(e, b, step.next, open, name, value);
      CharHidesNoSpace(e, b, p, m);
      OneCharMore(e, b, p, step.next, end);
    }
  }

  lemma PlainGoesOn(e: Encoding, b: Text, value: nat, p: nat, end: nat)
    requires value <= p < end <= |b| && PlainValue(e, b[value..end], p - value)
    ensures e.typeOf(b[p]) != Amp && PlainValue(e, b[value..end], p - value + Width(e.typeOf(b[p])))
  {
    var v := b[value..end];
    assert v[p - value] == b[p];
    PlainUnfolds(e, v, p - value);
  }

  lemma NothingHidden(e: Encoding, v: Text)
    requires v == []
    ensures NoHiddenSpace(e, v)
  {
  }

  /** What a character of the value does not hide. */
  lemma CharHidesNoSpace(e: Encoding, b: Text, p: nat, m: Mode)
    requires SoundChars(e) && Accepted(e, b, p, m) && p < |b| && m.InValue? && e.typeOf(b[p]) != m.open
    requires OneStep(e, b, p, m).To?
    ensures var q := p + Width(e.typeOf(b[p]));
            q <= |b| && forall k: nat :: p < k < q ==> b[k] != SPACE && !IsLead(e.typeOf(b[k]))
  {
    hide Run, SoundTail;
    var n := Width(e.typeOf(b[p]));
    if IsLead(e.typeOf(b[p])) {
      PassedIsValid(e, b, p, m);
      var s := b[p..p + n];
      assert s[0] == b[p];
      assert SoundTail(e, s);
      SoundBytes(e, b, p, n);
    }
  }

  lemma SoundBytes(e: Encoding, b: Text, p: nat, n: nat)
    requires p + n <= |b| && SoundTail(e, b[p..p + n])
    ensures forall k: nat :: p < k < p + n ==> b[k] != SPACE && !IsLead(e.typeOf(b[k]))
  {
    forall k: nat | p < k < p + n ensures b[k] != SPACE && !IsLead(e.typeOf(b[k])) {
      assert b[k] == b[p..p + n][k - p];
    }
  }

  lemma OneCharMore(e: Encoding, b: Text, p: nat, q: nat, end: nat)
    requires p < q <= end <= |b| && q == p + Width(e.typeOf(b[p])) && NoHiddenSpace(e, b[q..end])
    requires forall k: nat :: p < k < q ==> b[k] != SPACE && !IsLead(e.typeOf(b[k]))
    ensures NoHiddenSpace(e, b[p..end])
  {
    var v, w := b[p..end], b[q..end];
    forall i: nat, j: nat | i < j < |v| && j < i + Width(e.typeOf(v[i])) ensures v[j] != SPACE {
      assert v[i] == b[p + i] && v[j] == b[p + j];
      if i >= q - p {
        assert w[i - (q - p)] == v[i] && w[j - (q - p)] == v[j];
      }
    }
  }

  /** At `p` the automaton is inside the value of the attribute `s`. */
  ghost predicate AtValue(e: Encoding, b: Text, p: nat, open: ByteType, s: Span) {
    && Accepted(e, b, p, InValue(open)) && Quotes(open) && s.value <= p
    && Spans(e, b, p, InValue(open), s.name, s.value) != [] && Spans(e, b, p, InValue(open), s.name, s.value)[0] == s
  }

  /** The automaton enters the value of `s` where the attribute says. */
  ghost predicate Entered(e: Encoding, b: Text, s: Span) {
    AtValue(e, b, s.value, Quot, s) || AtValue(e, b, s.value, Apos, s)
  }

  ghost predicate AllEntered(e: Encoding, b: Text, spans: seq<Span>, from: nat) {
    forall k: nat :: from <= k < |spans| ==> Entered(e, b, spans[k])
  }

  /** So for all attributes of an accepted tag. */
  lemma {:induction false} ValuesAreEntered(e: Encoding, b: Text, p: nat, m: Mode, s: State, open: ByteType,
                                            name: nat, value: nat)
    requires AsciiTable(e) && Accepted(e, b, p, m) && Sees(m, s, open)
    ensures AllEntered(e, b, Spans(e, b, p, m, name, value), if InSomeValue(m) then 1 else 0)
    decreases |b| - p
  {
    hide AsciiTable, OneStep, Spans, Run, TurnOf, Sees, InTag, Entered, Accepted, InSomeValue;
    AcceptedInTag(e, b, p, m);
    LoopTurn(e, b, p, m, s, open, name, value);
    var turn := TurnOf(e.typeOf(b[p]), s, open);
    if turn.event != TagEnds {
      var step := OneStep(e, b, p, m);
      var name' := if turn.event == NameBegins then p else name;
      var value' := if turn.event == ValueBegins then step.next else value;
      ValuesAreEntered(e, b, step.next, step.mode, turn.state, turn.open, name', value');
      EventModes(e, b, p, m, s, open);
      if turn.event == ValueBegins {
        FirstIsEntered(e, b, step.next, turn.state, step.mode, turn.open, name', value');
      }
    }
  }

  /** A value is entered where it begins, and left where it ends. */
  lemma EventModes(e: Encoding, b: Text, p: nat, m: Mode, s: State, open: ByteType)
    requires AsciiTable(e) && Accepted(e, b, p, m) && Sees(m, s, open) && p < |b|
    requires OneStep(e, b, p, m).To? && !OneStep(e, b, p, m).mode.Slash?
    requires TurnOf(e.typeOf(b[p]), s, open).event == EventOf(m, OneStep(e, b, p, m).mode)
    ensures var m', event := OneStep(e, b, p, m).mode, EventOf(m, OneStep(e, b, p, m).mode);
            && (event == ValueBegins ==> !InSomeValue(m) && m'.InValue?)
            && (event == ValueEnds ==> InSomeValue(m) && !InSomeValue(m'))
            && (event != ValueBegins && event != ValueEnds ==> (InSomeValue(m) <==> InSomeValue(m')))
  {
    hide AsciiTable, OneStep, Run, TurnOf, Goes, InTag;
    if InSomeValue(m) {
      ValueQuotes(m, s, open);
      ValueGoes(e, b, p, m);
    } else {
      AcceptedInTag(e, b, p, m);
      GapGoes(e, b, p, m);
      GapModes(m, e.typeOf(b[p]), OneStep(e, b, p, m).mode);
    }
  }

  lemma ValueQuotes(m: Mode, s: State, open: ByteType)
    requires Sees(m, s, open) && InSomeValue(m)
    ensures (m.InValue? || m.place.InQuotes?) && Quotes(OpenOf(m))
  {
  }

  lemma GapModes(m: Mode, t: ByteType, m': Mode)
    requires Goes(m, t, m') && !InSomeValue(m)
    ensures InSomeValue(m') ==> m.BeforeQuote? && m'.InValue?
    ensures EventOf(m, m') != ValueEnds
  {
  }

  lemma FirstIsEntered(e: Encoding, b: Text, p: nat, s: State, m: Mode, open: ByteType, name: nat, value: nat)
    requires AsciiTable(e) && Accepted(e, b, p, m) && Sees(m, s, open) && m.InValue? && value == p
    ensures Spans(e, b, p, m, name, value) != [] && Entered(e, b, Spans(e, b, p, m, name, value)[0])
  {
    hide AsciiTable, Spans, Run;
    ValueHasEnd(e, b, p, m, name, value);
    assert AtValue(e, b, p, m.open, Spans(e, b, p, m, name, value)[0]);
  }

  lemma AttributesAreEntered(e: Encoding, b: Text, start: nat)
    requires AsciiTable(e) && StartTag(e, b, start)
    ensures AllEntered(e, b, Attributes(e, b, start), 0)
  {
    hide AsciiTable, Spans, Run, Entered, NameLook;
    ValuesAreEntered(e, b, NameLook(e, b, start + 1, true).next, TagName(false), InsideName, NonXml, 0, 0);
  }

  lemma PlainEnteredHidesNoSpace(e: Encoding, b: Text, s: Span)
    requires AsciiTable(e) && SoundChars(e) && Entered(e, b, s)
    ensures s.value <= s.end <= |b|
    ensures PlainValue(e, b[s.value..s.end], 0) ==> NoHiddenSpace(e, b[s.value..s.end])
  {
    hide AsciiTable, SoundChars, Accepted, Spans, PlainValue, NoHiddenSpace;
    var open := if AtValue(e, b, s.value, Quot, s) then Quot else Apos;
    ValueHasEnd(e, b, s.value, InValue(open), s.name, s.value);
    if PlainValue(e, b[s.value..s.end], 0) {
      PlainHidesNoSpace(e, b, s.value, open, s.name, s.value);
    }
  }

  /** A value that `getAtts` marks as normalized is stored as it stands, whatever its type:
      in every accepted tag, and whatever there is around it. */
  lemma MarkedIsStored(e: Encoding, b: Text, start: nat, k: nat, a: Attribute, env: Env, open: set<Text>, cdata: bool)
    requires Tables(e, env) && SoundChars(e) && StartTag(e, b, start) && k < |Attributes(e, b, start)|
    requires Found(e, b, a, Attributes(e, b, start)[k]) && a.normalized
    ensures Store(e, b[a.valuePtr..a.valueEnd], env, open, cdata) == (NoError, b[a.valuePtr..a.valueEnd])
  {
    hide AsciiTable, NoHiddenSpace, Store, PlainValue, SoundChars, Entered, Attributes, StartTag;
    var s := Attributes(e, b, start)[k];
    AttributesAreEntered(e, b, start);
    PlainEnteredHidesNoSpace(e, b, s);
    PlainIsStored(e, b[s.value..s.end], env, open, cdata);
  }
}
