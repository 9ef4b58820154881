/**
 The values of an accepted start tag as `appendAttributeValue` reads them, one by one and cut
 out of the tag: the tokenizer has seen to it that every token in them is a good one.
 */
module XmlTagValues {
  import opened XmlTok
  import opened XmlScan
  import opened XmlChar
  import opened XmlRef
  import opened XmlExpand
  import opened XmlNormalize
  import opened XmlGetAtts
  import opened XmlConvert

  /* ----- references in a slice ----- */

  lemma SliceOfSlice(b: Text, lo: nat, hi: nat, p: nat, q: nat)
    requires lo <= p <= q <= hi <= |b|
    ensures b[lo..hi][p - lo..q - lo] == b[p..q]
    ensures p < q ==> b[lo..hi][p - lo] == b[p]
  {
    var u, v := b[lo..hi][p - lo..q - lo], b[p..q];
    assert |u| == |v| && forall k: nat :: k < |u| ==> u[k] == b[lo..hi][p - lo + k] == b[p + k] == v[k];
  }

  lemma LookInSlice(e: Encoding, b: Text, p: nat, start: bool, lo: nat, hi: nat)
    requires lo <= p < hi <= |b|
    ensures var l, l' := NameLook(e, b, p, start), NameLook(e, b[lo..hi], p - lo, start);
            && (l.Past? && l.next <= hi ==> l' == Past(l.next - lo))
            && (l.NotThis? <==> l'.NotThis?)
  {
    var n := Width(e.typeOf(b[p]));
    SliceOfSlice(b, lo, hi, p, p + 1);
    if p + n <= hi {
      SliceOfSlice(b, lo, hi, p, p + n);
    }
    LooksAlike(e, b, p, b[lo..hi], p - lo, n, start);
  }

  lemma LooksAlike(e: Encoding, b: Text, p: nat, v: Text, i: nat, n: nat, start: bool)
    requires p < |b| && i < |v| && v[i] == b[p] && n == Width(e.typeOf(b[p]))
    requires p + n <= |b| && i + n <= |v| ==> v[i..i + n] == b[p..p + n]
    ensures var l, l' := NameLook(e, b, p, start), NameLook(e, v, i, start);
            && (l.Past? ==> l.next == p + n)
            && (l.Past? && i + n <= |v| ==> l' == Past(i + n))
            && (l.NotThis? <==> l'.NotThis?)
  {
  }

  ghost predicate StepsAlike(step: Step, step': Step, lo: nat, hi: nat) {
    && (step.To? && lo <= step.next <= hi ==> step' == To(step.next - lo, step.mode))
    && (step.Stop? && step.result.Tok? && lo <= step.result.next <= hi ==>
          step' == Stop(Tok(step.result.tok, step.result.next - lo)))
  }

  lemma NameStepInSlice(e: Encoding, b: Text, p: nat, m: Mode, lo: nat, hi: nat)
    requires (m.RefStart? || m.RefName?) && m.place == InContent && lo <= p < hi <= |b|
    ensures StepsAlike(RefStep(e, b, p, m), RefStep(e, b[lo..hi], p - lo, m), lo, hi)
  {
    hide NameLook, Forward;
    var v, i := b[lo..hi], p - lo;
    LookInSlice(e, b, p, m.RefStart?, lo, hi);
    assert v[i] == b[p];
    RefEnds(e, b, p);
    NameStepOf(e, b, p, m);
    NameStepOf(e, v, i, m);
    hide RefStep;
  }

  lemma NameStepOf(e: Encoding, b: Text, p: nat, m: Mode)
    requires (m.RefStart? || m.RefName?) && m.place == InContent && p < |b|
    ensures RefStep(e, b, p, m) ==
            LookStep(NameLook(e, b, p, m.RefStart?), RefName(InContent),
                     if m.RefStart? && e.typeOf(b[p]) == Num then To(p + 1, CharRefStart(InContent))
                     else if m.RefName? && e.typeOf(b[p]) == Semi then Stop(Tok(EntityRef, p + 1))
                     else Stop(Invalid(p)))
  {
    hide NameLook, Forward;
  }

  lemma DigitStepInSlice(e: Encoding, b: Text, p: nat, m: Mode, lo: nat, hi: nat)
    requires IsRefMode(m) && !m.RefStart? && !m.RefName? && m.place == InContent && lo <= p < hi <= |b|
    ensures StepsAlike(RefStep(e, b, p, m), RefStep(e, b[lo..hi], p - lo, m), lo, hi)
  {
    SliceOfSlice(b, lo, hi, p, p + 1);
    hide NameLook, Forward;
  }

  /** A step inside a reference is the same in a slice that it does not leave. */
  lemma RefStepInSlice(e: Encoding, b: Text, p: nat, m: Mode, lo: nat, hi: nat)
    requires IsRefMode(m) && m.place == InContent && lo <= p < hi <= |b|
    ensures StepsAlike(RefStep(e, b, p, m), RefStep(e, b[lo..hi], p - lo, m), lo, hi)
  {
    hide RefStep;
    if m.RefStart? || m.RefName? {
      NameStepInSlice(e, b, p, m, lo, hi);
    } else {
      DigitStepInSlice(e, b, p, m, lo, hi);
    }
  }

  lemma {:induction false} RefInSlice(e: Encoding, b: Text, p: nat, m: Mode, lo: nat, hi: nat)
    requires IsRefMode(m) && m.place == InContent && lo <= p <= hi <= |b|
    requires var r := Run(e, b, p, m); r.Tok? && r.next <= hi
    ensures var r := Run(e, b, p, m); lo <= r.next && Run(e, b[lo..hi], p - lo, m) == Tok(r.tok, r.next - lo)
    decreases |b| - p
  {
    hide Run, RefStep, Forward;
    RunRef(e, b, p, m);
    RefBounds(e, b, p, m);
    RunRef(e, b[lo..hi], p - lo, m);
    RefStepInSlice(e, b, p, m, lo, hi);
    var step := RefStep(e, b, p, m);
    if step.To? {
      RefModes(e, b, p, m);
      RefBounds(e, b, step.next, step.mode);
      RefInSlice(e, b, step.next, step.mode, lo, hi);
    }
  }

  lemma RefModes(e: Encoding, b: Text, p: nat, m: Mode)
    requires IsRefMode(m) && m.place == InContent && p < |b|
    ensures var step := RefStep(e, b, p, m);
            step.To? ==> IsRefMode(step.mode) && step.mode.place == InContent && p < step.next <= |b|
  {
    hide NameLook;
  }

  /** Behind a reference the automaton reads on in the same value. */
  lemma {:induction false} SpansBehindRef(e: Encoding, b: Text, p: nat, m: Mode, open: ByteType, name: nat, value: nat)
    requires IsRefMode(m) && m.place == InContent && p <= |b| && Run(e, b, p, m).Tok?
    ensures Run(e, b, p, m).next <= |b|
    ensures Spans(e, b, p, Quoted(m, open), name, value) ==
              Spans(e, b, Run(e, b, p, m).next, InValue(open), name, value)
    decreases |b| - p
  {
    hide Run, RefStep, Spans, OneStep;
    RefBounds(e, b, p, m);
    RunRef(e, b, p, m);
    SpansTurn(e, b, p, Quoted(m, open), name, value);
    QuotedStep(e, b, p, m, open);
    var step := RefStep(e, b, p, m);
    if step.To? {
      RefModes(e, b, p, m);
      SpansBehindRef(e, b, step.next, step.mode, open, name, value);
    }
  }

  ghost predicate QuotesStep(step: Step, step': Step, open: ByteType) {
    && (step.To? && IsRefMode(step.mode) ==> step' == To(step.next, Quoted(step.mode, open)))
    && (step.Stop? && step.result.Tok? ==> step' == To(step.result.next, InValue(open)))
  }

  lemma QuotedStep(e: Encoding, b: Text, p: nat, m: Mode, open: ByteType)
    requires IsRefMode(m) && m.place == InContent && p < |b|
    ensures QuotesStep(RefStep(e, b, p, m), OneStep(e, b, p, Quoted(m, open)), open)
  {
    hide RefStep;
    if m.RefStart? || m.RefName? {
      QuotedName(e, b, p, m, open);
    } else {
      QuotedDigit(e, b, p, m, open);
    }
  }

  lemma QuotedName(e: Encoding, b: Text, p: nat, m: Mode, open: ByteType)
    requires (m.RefStart? || m.RefName?) && m.place == InContent && p < |b|
    ensures QuotesStep(RefStep(e, b, p, m), RefStep(e, b, p, Quoted(m, open)), open)
  {
    RefEnds(e, b, p);
    hide NameLook, Forward;
  }

  lemma QuotedDigit(e: Encoding, b: Text, p: nat, m: Mode, open: ByteType)
    requires IsRefMode(m) && !m.RefStart? && !m.RefName? && m.place == InContent && p < |b|
    ensures QuotesStep(RefStep(e, b, p, m), RefStep(e, b, p, Quoted(m, open)), open)
  {
    hide NameLook, Forward;
  }

  /* ----- the characters of a value ----- */

  /** The value goes on behind a reference. */
  lemma RefOfValue(e: Encoding, b: Text, p: nat, open: ByteType, s: Span)
    requires AsciiTable(e) && AtValue(e, b, p, open, s) && p < |b| && e.typeOf(b[p]) == Amp
    ensures var r := RefTok(e, b, p + 1); r.Tok? && AtValue(e, b, r.next, open, s)
  {
    hide AsciiTable, Run, Spans, OneStep;
    AmpStep(e, b, p, open);
    SpansTurn(e, b, p, InValue(open), s.name, s.value);
    RefInValue(e, b, p + 1, RefStart(InContent), open);
    SpansBehindRef(e, b, p + 1, RefStart(InContent), open, s.name, s.value);
  }

  lemma AmpStep(e: Encoding, b: Text, p: nat, open: ByteType)
    requires p < |b| && e.typeOf(b[p]) == Amp && Quotes(open)
    ensures OneStep(e, b, p, InValue(open)) == To(p + 1, Quoted(RefStart(InContent), open))
    ensures Run(e, b, p, InValue(open)) == Run(e, b, p + 1, Quoted(RefStart(InContent), open))
  {
    hide AnyLook;
  }

  /** One character of the value. */
  lemma CharOfValue(e: Encoding, b: Text, p: nat, open: ByteType, s: Span)
    requires AsciiTable(e) && SoundChars(e) && AtValue(e, b, p, open, s)
    ensures p <= s.end < |b|
    ensures var t, q := e.typeOf(b[p]), p + Width(e.typeOf(b[p]));
            p < s.end ==>
              && t != Lt
              && (t != Amp ==> q <= s.end && AtValue(e, b, q, open, s) && forall k: nat :: p < k < q ==> b[k] != SPACE)
  {
    hide AsciiTable, Run, Spans, OneStep, SoundChars;
    var m := InValue(open);
    ValueHasEnd(e, b, p, m, s.name, s.value);
    ValueGoes(e, b, p, m);
    if p < s.end && e.typeOf(b[p]) != Amp {
      CharHidesNoSpace(e, b, p, m);
      SpansTurn(e, b, p, m, s.name, s.value);
      KeepsPace(e, b, p, m, InsideValue, open);
      ValueHasEnd(e, b, OneStep(e, b, p, m).next, m, s.name, s.value);
    }
  }

  /* ----- the tokens of a value ----- */

  function ValueOf(b: Text, s: Span): Text
    requires s.value <= s.end <= |b|
  {
    b[s.value..s.end]
  }

  lemma ValueByte(b: Text, s: Span, p: nat)
    requires s.value <= p < s.end <= |b|
    ensures p - s.value < |ValueOf(b, s)| && ValueOf(b, s)[p - s.value] == b[p]
  {
  }

  lemma ValuePart(b: Text, s: Span, p: nat, q: nat)
    requires s.value <= p <= q <= s.end <= |b|
    ensures ValueOf(b, s)[p - s.value..q - s.value] == b[p..q]
  {
    SliceOfSlice(b, s.value, s.end, p, q);
  }

  /** The character data of a value ends inside it. */
  lemma {:induction false} DataOfValue(e: Encoding, b: Text, from: nat, p: nat, open: ByteType, s: Span)
    requires AsciiTable(e) && SoundChars(e) && AtValue(e, b, p, open, s)
    requires s.value <= from <= p && SPACE !in b[from..p]
    ensures p <= s.end <= |b|
    ensures var r := DataEnd(e, ValueOf(b, s), p - s.value);
            && r.Tok? && AtValue(e, b, s.value + r.next, open, s)
            && s.value + r.next <= s.end && SPACE !in b[from..s.value + r.next]
    decreases |b| - p
  {
    hide AsciiTable, AsciiType, SoundChars, AtValue, DataEnd, Width, ValueOf;
    CharOfValue(e, b, p, open, s);
    ValueLength(b, s);
    DataTurn(e, ValueOf(b, s), p - s.value);
    if p < s.end {
      ValueByte(b, s, p);
      SpaceClass(e, b[p]);
      var t := e.typeOf(b[p]);
      if t != Amp && t != Lf && t != Cr && t != S {
        var q := p + Width(t);
        assert b[from..q] == b[from..p] + b[p..q];
        DataOfValue(e, b, from, q, open, s);
      }
    }
  }

  lemma ValueLength(b: Text, s: Span)
    requires s.value <= s.end <= |b|
    ensures |ValueOf(b, s)| == s.end - s.value
  {
  }

  /** What `attributeValueTok` can find in a value: never an error. */
  ghost predicate GoodToken(e: Encoding, b: Text, p: nat, open: ByteType, s: Span, r: Result)
    requires s.value <= p <= s.end <= |b|
  {
    if p == s.end then r == None
    else if r == TrailingCr then AtValue(e, b, p + 1, open, s)
    else
      && r.Tok? && r.tok in {DataChars, DataNewline, AttributeValueS, CharRef, EntityRef}
      && s.value + r.next <= s.end && p < s.value + r.next && AtValue(e, b, s.value + r.next, open, s)
      && (r.tok == DataChars ==> SPACE !in b[p..s.value + r.next])
  }

  lemma TokenOfValue(e: Encoding, b: Text, p: nat, open: ByteType, s: Span)
    requires AsciiTable(e) && SoundChars(e) && AtValue(e, b, p, open, s)
    ensures s.value <= p <= s.end <= |b|
    ensures GoodToken(e, b, p, open, s, ValueTok(e, ValueOf(b, s), p - s.value))
  {
    StartsInside(e, b, p, open, s);
    hide AsciiTable, SoundChars, AtValue, ValueOf, GoodToken, ValueTok;
    CharOfValue(e, b, p, open, s);
    ValueLength(b, s);
    if p == s.end {
      EndOfValue(e, b, p, open, s);
    } else if e.typeOf(b[p]) == Amp {
      ReferenceOfValue(e, b, p, open, s);
    } else if Space(e.typeOf(b[p])) {
      BlankOfValue(e, b, p, open, s);
    } else {
      CharsOfValue(e, b, p, open, s);
    }
  }

  lemma StartsInside(e: Encoding, b: Text, p: nat, open: ByteType, s: Span)
    requires AtValue(e, b, p, open, s)
    ensures s.value <= p
  {
  }

  lemma EndOfValue(e: Encoding, b: Text, p: nat, open: ByteType, s: Span)
    requires s.value <= p <= s.end <= |b| && p == s.end && |ValueOf(b, s)| == s.end - s.value
    ensures GoodToken(e, b, p, open, s, ValueTok(e, ValueOf(b, s), p - s.value))
  {
    hide ValueOf, RefTok, DataEnd;
  }

  lemma CharsOfValue(e: Encoding, b: Text, p: nat, open: ByteType, s: Span)
    requires AsciiTable(e) && SoundChars(e) && AtValue(e, b, p, open, s) && s.value <= p < s.end <= |b|
    requires e.typeOf(b[p]) != Amp && !Space(e.typeOf(b[p])) && |ValueOf(b, s)| == s.end - s.value
    ensures GoodToken(e, b, p, open, s, ValueTok(e, ValueOf(b, s), p - s.value))
  {
    hide AsciiTable, AsciiType, SoundChars, AtValue, DataEnd, RefTok, ValueOf, Width;
    ValueByte(b, s, p);
    SpaceClass(e, b[p]);
    CharOfValue(e, b, p, open, s);
    DataOfValue(e, b, p, p + Width(e.typeOf(b[p])), open, s);
  }

  lemma RefTokInValue(e: Encoding, b: Text, p: nat, s: Span)
    requires s.value <= p <= s.end <= |b| && |ValueOf(b, s)| == s.end - s.value
    requires RefTok(e, b, p).Tok? && RefTok(e, b, p).next <= s.end
    ensures var r := RefTok(e, b, p);
            p <= r.next && RefTok(e, ValueOf(b, s), p - s.value) == Tok(r.tok, r.next - s.value)
  {
    hide Run;
    RefInSlice(e, b, p, RefStart(InContent), s.value, s.end);
  }

  lemma ReferenceOfValue(e: Encoding, b: Text, p: nat, open: ByteType, s: Span)
    requires AsciiTable(e) && SoundChars(e) && AtValue(e, b, p, open, s) && s.value <= p < s.end <= |b|
    requires e.typeOf(b[p]) == Amp && |ValueOf(b, s)| == s.end - s.value
    ensures GoodToken(e, b, p, open, s, ValueTok(e, ValueOf(b, s), p - s.value))
  {
    hide AsciiTable, SoundChars, AtValue, RefTok, ValueTok, ValueOf;
    RefOfValue(e, b, p, open, s);
    var r := RefTok(e, b, p + 1);
    CharOfValue(e, b, r.next, open, s);
    RefTokInValue(e, b, p + 1, s);
    ValueByte(b, s, p);
    AmpTok(e, ValueOf(b, s), p - s.value);
  }

  lemma AmpTok(e: Encoding, v: Text, i: nat)
    requires i < |v| && e.typeOf(v[i]) == Amp
    ensures ValueTok(e, v, i) == RefTok(e, v, i + 1)
  {
    hide RefTok;
  }

  lemma NarrowOfValue(e: Encoding, b: Text, p: nat, open: ByteType, s: Span)
    requires AsciiTable(e) && SoundChars(e) && AtValue(e, b, p, open, s) && p < s.end <= |b| && Space(e.typeOf(b[p]))
    ensures AtValue(e, b, p + 1, open, s)
  {
    hide AsciiTable, SoundChars, AtValue;
    CharOfValue(e, b, p, open, s);
  }

  lemma BlankOfValue(e: Encoding, b: Text, p: nat, open: ByteType, s: Span)
    requires AsciiTable(e) && SoundChars(e) && AtValue(e, b, p, open, s) && s.value <= p < s.end <= |b|
    requires Space(e.typeOf(b[p])) && |ValueOf(b, s)| == s.end - s.value
    ensures GoodToken(e, b, p, open, s, ValueTok(e, ValueOf(b, s), p - s.value))
  {
    hide AsciiTable, SoundChars, AtValue, RefTok, DataEnd, ValueOf;
    ValueByte(b, s, p);
    NarrowOfValue(e, b, p, open, s);
    if p + 1 < s.end {
      ValueByte(b, s, p + 1);
      if e.typeOf(b[p + 1]) == Lf {
        NarrowOfValue(e, b, p + 1, open, s);
      }
    }
  }

  /** What such a token does: it adds no space but as a blank, and is no bad token. */
  lemma ActOfToken(e: Encoding, v: Text, i: nat, env: Env)
    requires AsciiTable(e) && i <= |v|
    requires var r := ValueTok(e, v, i);
             || r.None? || r.TrailingCr?
             || (r.Tok? && r.tok in {DataChars, DataNewline, AttributeValueS, CharRef, EntityRef}
                 && (r.tok == DataChars ==> SPACE !in v[i..r.next]))
    ensures var r, a := ValueTok(e, v, i), Act(e, v, i, env);
            && (a.Add? ==> SPACE !in a.text)
            && (a.Fail? ==> a.error != InvalidToken && a.error != UnexpectedState)
            && (a.Add? || a.Blank? || a.Expand? ==> a.next == if r.Tok? then r.next else i + 1)
            && (r.None? ==> a.Done?)
  {
    hide ValueTok, AsciiTable, RefValue;
    ScannedValue(e, v, i);
  }

  /** No token of the value is bad, and none adds a space as part of other characters. */
  ghost predicate GoodValue(e: Encoding, v: Text, i: nat, env: Env)
    requires Tables(e, env) && i <= |v|
    decreases |v| - i
  {
    match Act(e, v, i, env)
    case Done => true
    case Fail(error) => error != InvalidToken && error != UnexpectedState
    case Add(text, j) => SPACE !in text && GoodValue(e, v, j, env)
    case Blank(j) => GoodValue(e, v, j, env)
    case Expand(_, j) => GoodValue(e, v, j, env)
  }

  lemma {:induction false} ValueIsGood(e: Encoding, b: Text, p: nat, open: ByteType, s: Span, env: Env)
    requires Tables(e, env) && SoundChars(e) && AtValue(e, b, p, open, s)
    ensures s.value <= p <= s.end <= |b|
    ensures |ValueOf(b, s)| == s.end - s.value && GoodValue(e, ValueOf(b, s), p - s.value, env)
    decreases |b| - p
  {
    hide AsciiTable, SoundChars, AtValue, Act, ValueTok, ValueOf;
    TokenOfValue(e, b, p, open, s);
    ValueLength(b, s);
    var v, i := ValueOf(b, s), p - s.value;
    var r := ValueTok(e, v, i);
    if r.Tok? {
      ValuePart(b, s, p, s.value + r.next);
    }
    ActOfToken(e, v, i, env);
    var a := Act(e, v, i, env);
    if a.Add? || a.Blank? || a.Expand? {
      ValueIsGood(e, b, s.value + a.next, open, s, env);
    }
  }

  lemma {:induction false} GoodIsClean(e: Encoding, v: Text, i: nat, env: Env)
    requires Tables(e, env) && i <= |v| && GoodValue(e, v, i, env)
    ensures AddsNoSpace(e, v, i, env)
    decreases |v| - i
  {
    hide Act, AsciiTable;
    var a := Act(e, v, i, env);
    if a.Add? || a.Blank? || a.Expand? {
      GoodIsClean(e, v, a.next, env);
    }
  }

  /** Every attribute of every accepted tag: its value has no bad token of its own, and when
      the texts of the entities are clean, a value that is not CDATA is stored as its words
      joined by single spaces. */
  lemma TagValueIsNormalized(e: Encoding, b: Text, start: nat, k: nat, env: Env, open: set<Text>)
    requires Tables(e, env) && SoundChars(e) && StartTag(e, b, start) && k < |Attributes(e, b, start)|
    ensures var s := Attributes(e, b, start)[k];
            s.value <= s.end <= |b| && GoodValue(e, ValueOf(b, s), 0, env)
    ensures CleanEntities(env) ==>
              var v := ValueOf(b, Attributes(e, b, start)[k]);
              var c, t := Store(e, v, env, open, true), Store(e, v, env, open, false);
              t.0 == c.0 && (c.0 == NoError ==> t.1 == Join(Words(c.1)))
  {
    hide AsciiTable, SoundChars, AtValue, StartTag, Attributes, GoodValue, Store, Join, Words, CleanEntities, ValueOf;
    AttributesAreEntered(e, b, start);
    var s := Attributes(e, b, start)[k];
    assert Entered(e, b, s);
    ValueIsGood(e, b, s.value, if AtValue(e, b, s.value, Quot, s) then Quot else Apos, s, env);
    GoodIsClean(e, ValueOf(b, s), 0, env);
    if CleanEntities(env) {
      StoredIsNormalized(e, ValueOf(b, s), env, open);
    }
  }

  /* ----- valid UTF-8 ----- */

  /** In valid UTF-8 no space is hidden in a character. */
  lemma ValidHidesNoSpace(e: Encoding, cs: seq<int>)
    requires AllScalar(cs) && Utf8Classes(e)
    ensures NoHiddenSpace(e, Bytes(cs))
  {
    hide Bytes, Utf8Encode, Utf8Classes;
    var b := Bytes(cs);
    forall i: nat, j: nat | i < j < |b| && j < i + Width(e.typeOf(b[i])) ensures b[j] != SPACE {
      LeadOfChar(e, cs, i, j);
    }
  }

  /** The lead bytes are those of UTF-8. */
  ghost predicate Utf8Classes(e: Encoding) {
    forall c: Byte :: Width(e.typeOf(c)) == Utf8Width(c)
  }

  lemma ClassesOfUtf8(ns: bool, internal: bool, isName: Text -> bool, isNmstrt: Text -> bool)
    ensures Utf8Classes(Utf8(ns, internal, isName, isNmstrt))
  {
    hide AsciiType;
    var e := Utf8(ns, internal, isName, isNmstrt);
    forall c: Byte ensures Width(e.typeOf(c)) == Utf8Width(c) {
      ClassWidth(c, ns, internal);
    }
  }

  lemma ClassWidth(c: Byte, ns: bool, internal: bool)
    ensures Width(Utf8Class(c, ns, internal)) == Utf8Width(c)
  {
  }

  lemma LeadOfChar(e: Encoding, cs: seq<int>, i: nat, j: nat)
    requires AllScalar(cs) && Utf8Classes(e) && i < j < |Bytes(cs)| && j < i + Width(e.typeOf(Bytes(cs)[i]))
    ensures Bytes(cs)[j] >= 0x80
  {
    hide Bytes, Utf8Encode;
    var k := CharAt(cs, i);
    ByteOfChar(cs, k, i);
    EncodedBytes(cs[k]);
    EncodedIsValid(cs[k]);
    assert Utf8Width(Bytes(cs)[i]) > 1;
    assert i == |Bytes(cs[..k])|;
    ByteOfChar(cs, k, j);
  }

  /** The texts of all entities are valid UTF-8. */
  ghost predicate ValidEntities(env: Env) {
    forall n <- env.entities :: env.entities[n].text.Just? ==> IsValid(env.entities[n].text.value)
  }

  ghost predicate IsValid(b: Text) {
    exists cs: seq<int> :: AllScalar(cs) && b == Bytes(cs)
  }

  lemma ValidEntitiesAreClean(env: Env)
    requires AsciiTable(env.internal) && Utf8Classes(env.internal) && ValidEntities(env)
    ensures CleanEntities(env)
  {
    hide AsciiTable, Utf8Classes, AddsNoSpace, NoHiddenSpace, Bytes;
    forall n <- env.entities | env.entities[n].text.Just?
      ensures AddsNoSpace(env.internal, env.entities[n].text.value, 0, env)
    {
      var b := env.entities[n].text.value;
      assert IsValid(b);
      var cs :| AllScalar(cs) && b == Bytes(cs);
      ValidHidesNoSpace(env.internal, cs);
      ValidIsClean(env.internal, b, 0, env);
    }
  }

  /** In UTF-8, with valid texts of entities: whatever the tag, a value that is not CDATA is
      stored as the words of the CDATA value joined by single spaces. */
  lemma Utf8ValueIsNormalized(ns: bool, isName: Text -> bool, isNmstrt: Text -> bool,
                              b: Text, start: nat, k: nat, env: Env, open: set<Text>)
    requires env.internal == Utf8(ns, true, isName, isNmstrt) && ValidEntities(env)
    requires var e := Utf8(ns, false, isName, isNmstrt); StartTag(e, b, start) && k < |Attributes(e, b, start)|
    ensures var e := Utf8(ns, false, isName, isNmstrt);
            && Tables(e, env)
            && var s := Attributes(e, b, start)[k];
               && s.value <= s.end <= |b|
               && var c, t := Store(e, ValueOf(b, s), env, open, true), Store(e, ValueOf(b, s), env, open, false);
                  t.0 == c.0 && (c.0 == NoError ==> t.1 == Join(Words(c.1)))
  {
    hide AsciiTable, SoundChars, StartTag, Attributes, GoodValue, Store, Join, Words, CleanEntities, ValueOf, Utf8,
         Utf8Classes, ValidEntities;
    var e := Utf8(ns, false, isName, isNmstrt);
    Utf8IsSound(ns, false, isName, isNmstrt);
    Utf8IsSound(ns, true, isName, isNmstrt);
    ClassesOfUtf8(ns, true, isName, isNmstrt);
    ValidEntitiesAreClean(env);
    TagValueIsNormalized(e, b, start, k, env, open);
  }
}
