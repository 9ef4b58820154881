/**
 Feeding the content of a document in pieces: where the scanners have stopped in one buffer
 they go on in a longer one, and what they find does not depend on where the first buffer
 ended.
 */
module XmlChunks {
  import opened Wrappers
  import opened XmlTok
  import opened XmlScan
  import opened XmlRef
  import opened XmlCdata

  /* ----- progress ----- */

  /** Every token is inside the buffer and at least one byte long. */
  lemma {:induction false} RunBounds(e: Encoding, b: Text, p: nat, m: Mode)
    requires Sane(b, p, m)
    ensures var r := Run(e, b, p, m);
            Inside(b, p, r) && (r.Tok? && m == AtStart ==> p < r.next)
    decreases |b| - p, Rank(m)
  {
    hide OneStep;
    if p < |b| {
      var s := OneStep(e, b, p, m);
      if s.To? {
        RunBounds(e, b, s.next, s.mode);
      }
    }
  }

  /* ----- character data ----- */

  /** Character data is only found by the scanners for text. */
  lemma {:induction false} DataIsText(e: Encoding, b: Text, p: nat, m: Mode)
    requires Sane(b, p, m)
    ensures var r := Run(e, b, p, m); r.Tok? && r.tok == DataChars ==> IsTextMode(m)
    decreases |b| - p, Rank(m)
  {
    hide OneStep;
    if p < |b| {
      var s := OneStep(e, b, p, m);
      if s.To? {
        DataIsText(e, b, s.next, s.mode);
      }
    }
  }

  lemma {:induction false} DataEnds(e: Encoding, b: Text, p: nat)
    requires p <= |b|
    ensures var r := Run(e, b, p, InData); r.Invalid? || (r.Tok? && r.tok == DataChars)
    decreases |b| - p
  {
    if p < |b| {
      var s := TextStep(e, b, p, InData);
      if s.To? {
        DataEnds(e, b, s.next);
      }
    }
  }

  /** In the middle of character data the scanner finds what it would find starting afresh,
      unless the data ends here. */
  lemma DataOrStart(e: Encoding, b: Text, p: nat)
    requires p <= |b|
    ensures Continues(e, b, Run(e, b, p, InData), p)
  {
    DataEnds(e, b, p);
    if p < |b| {
      var s, start := TextStep(e, b, p, InData), TextStep(e, b, p, AtStart);
      if e.typeOf(b[p]) == Rsqb && s != Stop(Tok(DataChars, p)) {
        assert start == To(p + 1, AfterRsqb);
        assert Run(e, b, p, AtStart) == Run(e, b, p + 1, AfterRsqb);
        var next := TextStep(e, b, p + 1, AfterRsqb);
        assert next == s;
      } else {
        assert s == Stop(Tok(DataChars, p)) || s == start;
      }
    }
  }

  /** How the longer buffer continues data that ended at `q` in the shorter one. */
  ghost predicate Continues(e: Encoding, b: Text, r: Result, q: nat)
    requires q <= |b|
  {
    r == Tok(DataChars, q) || (r == Run(e, b, q, AtStart) && (r.Invalid? || (r.Tok? && r.tok == DataChars)))
  }

  lemma {:induction false} DataContinues(e: Encoding, b: Text, x: Text, p: nat, m: Mode)
    requires Sane(b, p, m)
    requires var r := Run(e, b, p, m); r.Tok? && r.tok == DataChars
    ensures Run(e, b, p, m).next <= |b|
    ensures Continues(e, b + x, Run(e, b + x, p, m), Run(e, b, p, m).next)
    decreases |b| - p, Rank(m)
  {
    RunBounds(e, b, p, m);
    DataIsText(e, b, p, m);
    if p == |b| {
      DataOrStart(e, b + x, p);
    } else {
      var s := OneStep(e, b, p, m);
      StepIsStable(e, b, x, p, m);
      if s.To? {
        DataContinues(e, b, x, s.next, s.mode);
      } else {
        DataOrStart(e, b + x, p);
      }
    }
  }

  /** Behind character data there is no more of it in the same buffer. */
  lemma {:induction false} DataThenNoData(e: Encoding, b: Text, p: nat, m: Mode)
    requires Sane(b, p, m)
    requires var r := Run(e, b, p, m); r.Tok? && r.tok == DataChars
    ensures Run(e, b, p, m).next <= |b|
    ensures var r := Run(e, b, Run(e, b, p, m).next, AtStart); !(r.Tok? && r.tok == DataChars)
    decreases |b| - p, Rank(m)
  {
    RunBounds(e, b, p, m);
    DataIsText(e, b, p, m);
    if p < |b| {
      var s := OneStep(e, b, p, m);
      if s.To? {
        DataThenNoData(e, b, s.next, s.mode);
      } else {
        DataStops(e, b, p);
      }
    }
  }

  lemma DataStops(e: Encoding, b: Text, p: nat)
    requires p < |b| && TextStep(e, b, p, InData) == Stop(Tok(DataChars, p))
    ensures var r := Run(e, b, p, AtStart); !(r.Tok? && r.tok == DataChars)
  {
    hide Run, TextStep;
    RunText(e, b, p, AtStart);
    StartOfStop(e, b, p);
    var start := TextStep(e, b, p, AtStart);
    if start.To? {
      if IsTextMode(start.mode) {
        RunText(e, b, start.next, start.mode);
      } else {
        DataIsText(e, b, start.next, start.mode);
      }
    }
  }

  /** What a token begins with where data ends. */
  lemma StartOfStop(e: Encoding, b: Text, p: nat)
    requires p < |b| && TextStep(e, b, p, InData) == Stop(Tok(DataChars, p))
    ensures match TextStep(e, b, p, AtStart)
            case Stop(r) => !(r.Tok? && r.tok == DataChars)
            case To(q, m) =>
              && Sane(b, q, m)
              && (IsTextMode(m) ==> m == AfterRsqb || m == AfterCr)
              && (q < |b| && IsTextMode(m) ==>
                    var s := TextStep(e, b, q, m); s.Stop? && !(s.result.Tok? && s.result.tok == DataChars))
  {
  }

  /* ----- the content processor ----- */

  /** What the scanners report: markup as a whole, character data byte by byte. */
  datatype Event = Markup(tok: Token, from: nat, to: nat) | Data(at: nat)

  function DataBytes(from: nat, to: nat): (r: seq<Event>)
    requires from <= to
  {
    if from == to then [] else DataBytes(from, to - 1) + [Data(to - 1)]
  }

  /** `contentTok` */
  function ContentTok(e: Encoding, b: Text, p: nat): (r: Result)
    requires p <= |b|
    ensures Inside(b, p, r) && (r.Tok? ==> p < r.next)
  {
    RunBounds(e, b, p, AtStart);
    Run(e, b, p, AtStart)
  }

  /** What the processor makes of a token that is no character data: it goes on, with a state
      of its own such as the open tags, or it leaves the content behind it, or it refuses it. */
  datatype Reaction<S> = Onwards(state: S) | Leaves | Refuses

  datatype Processor<!S> = Processor(e: Encoding, react: (S, Token, Text) -> Reaction<S>)

  /** Where the processor is, which decides on the tokenizer. */
  datatype Where<S> = Content(state: S) | Cdata(state: S) | Outside

  function NextTok<S>(e: Encoding, b: Text, p: nat, w: Where<S>): (r: Result)
    requires p <= |b|
    ensures Inside(b, p, r) && (r.Tok? ==> p < r.next)
  {
    match w
    case Content(_) => ContentTok(e, b, p)
    case Cdata(_) => CdataTok(e, b, p)
    case Outside => None
  }

  /** Where it is behind a token. */
  function Behind<S>(w: Where<S>, tok: Token, state: S): Where<S> {
    if tok == CdataSectOpen then Cdata(state)
    else if tok == CdataSectClose || w.Content? then Content(state)
    else Cdata(state)
  }

  /** Why it stops: the tokenizer has no token for it, or it refuses the token. */
  datatype Ending = Stopped(result: Result) | Rejected(tok: Token)

  datatype Turn<S> = Goes(head: seq<Event>, next: nat, place: Where<S>) | Ends(ending: Ending)

  /** One token. */
  function OneToken<S>(c: Processor<S>, b: Text, p: nat, w: Where<S>): (t: Turn<S>)
    requires p <= |b|
    ensures t.Goes? ==> p < t.next <= |b|
  {
    match NextTok(c.e, b, p, w)
    case Tok(tok, q) => (
      if tok == DataChars then Goes(DataBytes(p, q), q, w)
      else match c.react(w.state, tok, b[p..q])
           case Onwards(state) => Goes([Markup(tok, p, q)], q, Behind(w, tok, state))
           case Leaves => Goes([Markup(tok, p, q)], q, Outside)
           case Refuses => Ends(Rejected(tok)))
    case r => Ends(Stopped(r))
  }

  /** Everything that is found from `p` on, where the processor stops and why. */
  datatype Scanned<S> = Scanned(events: seq<Event>, stop: nat, ending: Ending, place: Where<S>)

  function ScanAll<S>(c: Processor<S>, b: Text, p: nat, w: Where<S>): (r: Scanned<S>)
    requires p <= |b|
    ensures p <= r.stop <= |b|
    decreases |b| - p
  {
    match OneToken(c, b, p, w)
    case Goes(head, q, w') =>
      var rest := ScanAll(c, b, q, w');
      rest.(events := head + rest.events)
    case Ends(ending) => Scanned([], p, ending, w)
  }

  lemma {:induction false} DataBytesJoin(a: nat, b: nat, c: nat)
    requires a <= b <= c
    ensures DataBytes(a, b) + DataBytes(b, c) == DataBytes(a, c)
    decreases c
  {
    if b < c {
      DataBytesJoin(a, b, c - 1);
    }
  }

  lemma NoBytes(p: nat)
    ensures DataBytes(p, p) == []
  {
  }

  /* ----- two pieces ----- */

  predicate IsError(ending: Ending) {
    ending.Stopped? && ending.result.Invalid?
  }

  /** A scan as a whole, and the same scan with a stop on the way: they say the same in the
      end, and the stop has at most let through some character data at the end. */
  ghost predicate Agree<S>(whole: Scanned<S>, joined: Scanned<S>) {
    && whole.ending == joined.ending && whole.place == joined.place && whole.stop <= joined.stop
    && joined.events == whole.events + DataBytes(whole.stop, joined.stop)
    && (whole.stop < joined.stop ==> IsError(whole.ending) && whole.place.Content?)
  }

  /** The second scan goes on where the first has stopped. */
  function Joined<S>(first: Scanned<S>, rest: Scanned<S>): Scanned<S> {
    rest.(events := first.events + rest.events)
  }

  /** Where the last token begins, if it is character data, and where the processor is then. */
  function LastData<S>(c: Processor<S>, b: Text, p: nat, w: Where<S>): (s: Maybe<(nat, Where<S>)>)
    requires p <= |b|
    ensures s.Just? ==> p <= s.value.0 < |b|
    decreases |b| - p
  {
    match OneToken(c, b, p, w)
    case Goes(_, q, w') =>
      if OneToken(c, b, q, w').Goes? then LastData(c, b, q, w')
      else if NextTok(c.e, b, p, w).tok == DataChars then Just((p, w))
      else Nothing
    case Ends(_) => Nothing
  }

  /** The new input makes an error of the character data at the end of the old. */
  predicate Spoils<S>(c: Processor<S>, b: Text, x: Text, p: nat, w: Where<S>)
    requires p <= |b|
  {
    var s := LastData(c, b, p, w);
    s.Just? && NextTok(c.e, b + x, s.value.0, s.value.1).Invalid?
  }

  lemma AgreeHeaded<S>(head: seq<Event>, whole: Scanned<S>, wholeTail: Scanned<S>,
                       joined: Scanned<S>, joinedTail: Scanned<S>)
    requires whole == wholeTail.(events := head + wholeTail.events)
    requires joined == joinedTail.(events := head + joinedTail.events)
    requires Agree(wholeTail, joinedTail)
    ensures Agree(whole, joined)
  {
    hide DataBytes;
    var more := DataBytes(whole.stop, joined.stop);
    assert head + (wholeTail.events + more) == (head + wholeTail.events) + more;
  }

  lemma JoinedHeaded<S>(head: seq<Event>, first: Scanned<S>, tail: Scanned<S>, rest: Scanned<S>)
    requires first == tail.(events := head + tail.events)
    ensures Joined(first, rest) == Joined(tail, rest).(events := head + Joined(tail, rest).events)
  {
    assert head + (tail.events + rest.events) == (head + tail.events) + rest.events;
  }

  /** How the longer buffer continues data that ended at `q` in the shorter one. */
  ghost predicate GoesOn<S>(e: Encoding, b: Text, w: Where<S>, r: Result, q: nat)
    requires q <= |b|
  {
    || r == Tok(DataChars, q)
    || (r == NextTok(e, b, q, w) && ((r.Invalid? && w.Content?) || (r.Tok? && r.tok == DataChars)))
  }

  /** A token in a longer buffer. */
  lemma TokenIsStable<S>(e: Encoding, b: Text, x: Text, p: nat, w: Where<S>)
    requires p <= |b| && NextTok(e, b, p, w).Tok?
    ensures var r, r' := NextTok(e, b, p, w), NextTok(e, b + x, p, w);
            if r.tok == DataChars then GoesOn(e, b + x, w, r', r.next) else r' == r
  {
    hide Run, CdataTok;
    if w.Content? {
      if ContentTok(e, b, p).tok == DataChars {
        DataContinues(e, b, x, p, AtStart);
      } else {
        RunIsStable(e, b, x, p, AtStart);
      }
    } else {
      CdataIsStable(e, b, x, p);
    }
  }

  /** So is what the processor makes of it. */
  lemma TurnIsStable<S>(c: Processor<S>, b: Text, x: Text, p: nat, w: Where<S>)
    requires p <= |b| && NextTok(c.e, b, p, w).Tok? && NextTok(c.e, b, p, w).tok != DataChars
    ensures OneToken(c, b + x, p, w) == OneToken(c, b, p, w)
  {
    hide NextTok, DataBytes, Behind;
    TokenIsStable(c.e, b, x, p, w);
    var q := NextTok(c.e, b, p, w).next;
    assert (b + x)[p..q] == b[p..q];
  }

  /**
   Content that arrives in two pieces is scanned as if it had arrived at once: going on
   where the first piece stopped gives the same events, the same stop and the same error
   or want of input, if and only if the new input does not make an error of the character
   data at the end of the first piece. If it does, just these data are reported besides.
   */
  lemma {:induction false} PiecesDoNotMatter<S>(c: Processor<S>, b: Text, x: Text, p: nat, w: Where<S>)
    requires p <= |b|
    ensures var first := ScanAll(c, b, p, w);
            var whole := ScanAll(c, b + x, p, w);
            var joined := Joined(first, ScanAll(c, b + x, first.stop, first.place));
            Agree(whole, joined) && (whole == joined <==> !Spoils(c, b, x, p, w))
    ensures Spoils(c, b, x, p, w) ==>
              var s := LastData(c, b, p, w).value;
              s.1.Content? && ScanAll(c, b + x, p, w).stop == s.0 < ScanAll(c, b, p, w).stop
    decreases |b| - p
  {
    hide NextTok, OneToken, DataBytes;
    ScanTurn(c, b, p, w);
    NoBytes(ScanAll(c, b + x, p, w).stop);
    var t := OneToken(c, b, p, w);
    if t.Goes? {
      TokenOf(c, b, p, w);
      PiecesDoNotMatter(c, b, x, t.next, t.place);
      TokenIsStable(c.e, b, x, p, w);
      var r := NextTok(c.e, b, p, w);
      if r.tok == DataChars {
        DataTurn(c, b, p, w);
        if NextTok(c.e, b + x, p, w).Invalid? {
          Spoiled(c, b, x, p, w);
        } else {
          AfterData(c, b + x, p, w, r.next);
          Unspoiled(c, b, x, p, w);
        }
      } else {
        TurnIsStable(c, b, x, p, w);
        ScanTurn(c, b + x, p, w);
        Unspoiled(c, b, x, p, w);
      }
    } else {
      LastDataTurn(c, b, p, w);
      assert [] + ScanAll(c, b + x, p, w).events == ScanAll(c, b + x, p, w).events;
    }
  }

  lemma TokenOf<S>(c: Processor<S>, b: Text, p: nat, w: Where<S>)
    requires p <= |b| && OneToken(c, b, p, w).Goes?
    ensures NextTok(c.e, b, p, w).Tok? && OneToken(c, b, p, w).next == NextTok(c.e, b, p, w).next
  {
    hide NextTok, DataBytes;
  }

  lemma DataTurn<S>(c: Processor<S>, b: Text, p: nat, w: Where<S>)
    requires p <= |b| && NextTok(c.e, b, p, w).Tok? && NextTok(c.e, b, p, w).tok == DataChars
    ensures var q := NextTok(c.e, b, p, w).next; OneToken(c, b, p, w) == Goes(DataBytes(p, q), q, w)
  {
    hide NextTok, DataBytes;
  }

  lemma NoTurn<S>(c: Processor<S>, b: Text, p: nat, w: Where<S>)
    requires p <= |b| && !NextTok(c.e, b, p, w).Tok?
    ensures OneToken(c, b, p, w) == Ends(Stopped(NextTok(c.e, b, p, w)))
  {
    hide NextTok;
  }

  /** One turn of the loop. */
  lemma ScanTurn<S>(c: Processor<S>, b: Text, p: nat, w: Where<S>)
    requires p <= |b|
    ensures var t := OneToken(c, b, p, w);
            ScanAll(c, b, p, w) ==
            if t.Goes? then
              var rest := ScanAll(c, b, t.next, t.place);
              rest.(events := t.head + rest.events)
            else Scanned([], p, t.ending, w)
  {
    hide OneToken;
  }

  lemma LastDataTurn<S>(c: Processor<S>, b: Text, p: nat, w: Where<S>)
    requires p <= |b|
    ensures var t := OneToken(c, b, p, w);
            LastData(c, b, p, w) ==
            if t.Ends? then Nothing
            else if OneToken(c, b, t.next, t.place).Goes? then LastData(c, b, t.next, t.place)
            else if NextTok(c.e, b, p, w) == Tok(DataChars, t.next) then Just((p, w))
            else Nothing
  {
    hide OneToken, NextTok;
    if OneToken(c, b, p, w).Goes? {
      TokenOf(c, b, p, w);
    }
  }

  /** The first token is data, and an error in the longer buffer. */
  lemma Spoiled<S>(c: Processor<S>, b: Text, x: Text, p: nat, w: Where<S>)
    requires p <= |b| && NextTok(c.e, b, p, w).Tok? && NextTok(c.e, b, p, w).tok == DataChars
    requires NextTok(c.e, b + x, p, w).Invalid?
    requires GoesOn(c.e, b + x, w, NextTok(c.e, b + x, p, w), NextTok(c.e, b, p, w).next)
    ensures var first := ScanAll(c, b, p, w);
            var whole := ScanAll(c, b + x, p, w);
            var joined := Joined(first, ScanAll(c, b + x, first.stop, first.place));
            && Agree(whole, joined) && whole.stop == p < first.stop <= joined.stop
            && LastData(c, b, p, w) == Just((p, w)) && w.Content?
  {
    hide NextTok, OneToken, DataBytes;
    var q := NextTok(c.e, b, p, w).next;
    NoMoreData(c.e, b, p, w);
    if NextTok(c.e, b, q, w).Tok? {
      TokenIsStable(c.e, b, x, q, w);
      assert false;
    }
    DataTurn(c, b, p, w);
    NoTurn(c, b, q, w);
    NoTurn(c, b + x, p, w);
    NoTurn(c, b + x, q, w);
    ScanTurn(c, b, p, w);
    ScanTurn(c, b, q, w);
    ScanTurn(c, b + x, p, w);
    ScanTurn(c, b + x, q, w);
    LastDataTurn(c, b, p, w);
    assert DataBytes(p, q) + [] == DataBytes(p, q) && [] + DataBytes(p, q) == DataBytes(p, q);
  }

  lemma NoMoreData<S>(e: Encoding, b: Text, p: nat, w: Where<S>)
    requires p <= |b| && w.Content? && NextTok(e, b, p, w).Tok? && NextTok(e, b, p, w).tok == DataChars
    ensures var r := NextTok(e, b, NextTok(e, b, p, w).next, w); !(r.Tok? && r.tok == DataChars)
  {
    hide Run;
    DataThenNoData(e, b, p, AtStart);
  }

  /** The first token leads to the same continuation in both buffers. */
  lemma Unspoiled<S>(c: Processor<S>, b: Text, x: Text, p: nat, w: Where<S>)
    requires p <= |b| && OneToken(c, b, p, w).Goes? && !NextTok(c.e, b + x, p, w).Invalid?
    requires var t := OneToken(c, b, p, w);
             var tail := ScanAll(c, b + x, t.next, t.place);
             ScanAll(c, b + x, p, w) == tail.(events := t.head + tail.events)
    requires var t := OneToken(c, b, p, w);
             var first, whole := ScanAll(c, b, t.next, t.place), ScanAll(c, b + x, t.next, t.place);
             var joined := Joined(first, ScanAll(c, b + x, first.stop, first.place));
             Agree(whole, joined) && (whole == joined <==> !Spoils(c, b, x, t.next, t.place))
    ensures var first := ScanAll(c, b, p, w);
            var whole := ScanAll(c, b + x, p, w);
            var joined := Joined(first, ScanAll(c, b + x, first.stop, first.place));
            Agree(whole, joined) && (whole == joined <==> !Spoils(c, b, x, p, w))
    ensures var t := OneToken(c, b, p, w);
            && ScanAll(c, b + x, p, w).stop == ScanAll(c, b + x, t.next, t.place).stop
            && ScanAll(c, b, p, w).stop == ScanAll(c, b, t.next, t.place).stop
            && (Spoils(c, b, x, p, w) <==> Spoils(c, b, x, t.next, t.place))
            && (Spoils(c, b, x, p, w) ==> LastData(c, b, p, w) == LastData(c, b, t.next, t.place))
  {
    hide NextTok, OneToken, DataBytes, LastData;
    var t := OneToken(c, b, p, w);
    ScanTurn(c, b, p, w);
    SpoilsLater(c, b, x, p, w);
    var first, tail := ScanAll(c, b, p, w), ScanAll(c, b, t.next, t.place);
    var rest := ScanAll(c, b + x, first.stop, first.place);
    var whole, wholeTail := ScanAll(c, b + x, p, w), ScanAll(c, b + x, t.next, t.place);
    JoinedHeaded(t.head, first, tail, rest);
    AgreeHeaded(t.head, whole, wholeTail, Joined(first, rest), Joined(tail, rest));
    NoBytes(whole.stop);
    assert whole == Joined(first, rest) ==> wholeTail.stop == Joined(tail, rest).stop;
    assert wholeTail.events + [] == wholeTail.events;
  }

  lemma SpoilsLater<S>(c: Processor<S>, b: Text, x: Text, p: nat, w: Where<S>)
    requires p <= |b| && OneToken(c, b, p, w).Goes? && !NextTok(c.e, b + x, p, w).Invalid?
    ensures var t := OneToken(c, b, p, w);
            && (Spoils(c, b, x, p, w) <==> Spoils(c, b, x, t.next, t.place))
            && (Spoils(c, b, x, p, w) ==> LastData(c, b, p, w) == LastData(c, b, t.next, t.place))
  {
    hide NextTok, OneToken, LastData;
    var t := OneToken(c, b, p, w);
    LastDataTurn(c, b, p, w);
    LastDataTurn(c, b, t.next, t.place);
  }

  /** From data on, with the token that goes on where the data ended. */
  lemma AfterData<S>(c: Processor<S>, b: Text, p: nat, w: Where<S>, q: nat)
    requires p <= q <= |b| && GoesOn(c.e, b, w, NextTok(c.e, b, p, w), q) && !NextTok(c.e, b, p, w).Invalid?
    ensures var tail := ScanAll(c, b, q, w);
            ScanAll(c, b, p, w) == tail.(events := DataBytes(p, q) + tail.events)
  {
    hide NextTok, OneToken, DataBytes;
    ScanTurn(c, b, p, w);
    ScanTurn(c, b, q, w);
    DataTurn(c, b, p, w);
    var r := NextTok(c.e, b, p, w);
    if r != Tok(DataChars, q) {
      DataTurn(c, b, q, w);
      DataBytesJoin(p, q, r.next);
      var tail := ScanAll(c, b, r.next, w).events;
      assert DataBytes(p, q) + (DataBytes(q, r.next) + tail) == DataBytes(p, r.next) + tail;
    }
  }

  /* ----- CDATA sections on the way ----- */

  /** What a section reports from `p` on: data, line ends and its end. */
  function SectionEvents(e: Encoding, b: Text, p: nat): seq<Event>
    requires p <= |b|
    decreases |b| - p
  {
    match CdataTok(e, b, p)
    case Tok(tok, q) =>
      if tok == CdataSectClose then [Markup(tok, p, q)]
      else (if tok == DataChars then DataBytes(p, q) else [Markup(tok, p, q)]) + SectionEvents(e, b, q)
    case _ => []
  }

  /** The processor goes on, in the same state, behind the tokens of a section. */
  ghost predicate TakesSections<S(!new)>(c: Processor<S>, state: S) {
    forall tok: Token, t: Text ::
      tok in {CdataSectOpen, DataNewline, CdataSectClose} ==> c.react(state, tok, t) == Onwards(state)
  }

  lemma {:induction false} InsideSection<S(!new)>(c: Processor<S>, b: Text, p: nat, state: S)
    requires p <= |b| && SectionEnd(c.e, b, p).Tok? && TakesSections(c, state)
    ensures var rest := ScanAll(c, b, SectionEnd(c.e, b, p).next, Content(state));
            ScanAll(c, b, p, Cdata(state)) == rest.(events := SectionEvents(c.e, b, p) + rest.events)
    decreases |b| - p
  {
    hide CdataTok, DataBytes, TakesSections;
    ScanTurn(c, b, p, Cdata(state));
    SectionTurn(c, b, p, state);
    var r := CdataTok(c.e, b, p);
    if r.tok != CdataSectClose {
      InsideSection(c, b, r.next, state);
      var head := if r.tok == DataChars then DataBytes(p, r.next) else [Markup(r.tok, p, r.next)];
      var rest := ScanAll(c, b, SectionEnd(c.e, b, p).next, Content(state)).events;
      assert head + (SectionEvents(c.e, b, r.next) + rest) == (head + SectionEvents(c.e, b, r.next)) + rest;
    }
  }

  lemma SectionTurn<S(!new)>(c: Processor<S>, b: Text, p: nat, state: S)
    requires p <= |b| && CdataTok(c.e, b, p).Tok? && TakesSections(c, state)
    ensures var r := CdataTok(c.e, b, p);
            OneToken(c, b, p, Cdata(state)) ==
            Goes(if r.tok == DataChars then DataBytes(p, r.next) else [Markup(r.tok, p, r.next)], r.next,
                 if r.tok == CdataSectClose then Content(state) else Cdata(state))
  {
    hide CdataTok, DataBytes;
    var r := CdataTok(c.e, b, p);
    assert r.tok == DataChars || r.tok in {CdataSectOpen, DataNewline, CdataSectClose};
  }

  /** A section in content: its start, its data and line ends, whatever they look like, and its
      end, behind which content goes on. */
  lemma SectionIsScanned<S(!new)>(c: Processor<S>, b: Text, p: nat, state: S)
    requires p <= |b| && TakesSections(c, state)
    requires var r := ContentTok(c.e, b, p); r.Tok? && r.tok == CdataSectOpen && SectionEnd(c.e, b, r.next).Tok?
    ensures var q := ContentTok(c.e, b, p).next;
            var rest := ScanAll(c, b, SectionEnd(c.e, b, q).next, Content(state));
            ScanAll(c, b, p, Content(state)) ==
            rest.(events := [Markup(CdataSectOpen, p, q)] + (SectionEvents(c.e, b, q) + rest.events))
  {
    hide CdataTok, DataBytes, Run, SectionEnd, SectionEvents;
    var q := ContentTok(c.e, b, p).next;
    ScanTurn(c, b, p, Content(state));
    assert CdataSectOpen in {CdataSectOpen, DataNewline, CdataSectClose};
    assert OneToken(c, b, p, Content(state)) == Goes([Markup(CdataSectOpen, p, q)], q, Cdata(state));
    hide TakesSections;
    InsideSection(c, b, q, state);
  }

  /* ----- an error that comes too late ----- */

  /** A letter begins character data. */
  lemma LetterIsData(e: Encoding, b: Text)
    requires AsciiTable(e) && b != [] && b[0] == 0x61
    ensures Run(e, b, 0, AtStart) == Run(e, b, 1, InData)
  {
    hide AsciiTable;
    TableEntry(e, 0x61);
    RunText(e, b, 0, AtStart);
  }

  lemma BracketsAreError(e: Encoding, b: Text, p: nat)
    requires AsciiTable(e) && p + 3 <= |b| && b[p] == RSQB && b[p + 1] == RSQB && b[p + 2] == GT
    ensures Run(e, b, p, InData) == Invalid(p + 2)
  {
    hide AsciiTable;
    TableEntry(e, RSQB);
    RunText(e, b, p, InData);
  }

  lemma EndOfText(e: Encoding, b: Text)
    ensures Run(e, b, |b|, InData) == Tok(DataChars, |b|) && Run(e, b, |b|, AtStart) == None
  {
  }

  /** The data `a` are reported when they arrive alone; with two brackets and a
      greater-than sign behind them they are not. */
  lemma DataBeforeError<S>(c: Processor<S>, state: S)
    requires AsciiTable(c.e)
    ensures var a: Text, x: Text, w := [0x61], [RSQB, RSQB, GT], Content(state);
            && ScanAll(c, a, 0, w) == Scanned([Data(0)], 1, Stopped(None), w)
            && ScanAll(c, a + x, 0, w) == Scanned([], 0, Stopped(Invalid(3)), w)
            && Spoils(c, a, x, 0, w)
  {
    hide AsciiTable, Run, OneToken, DataBytes, ScanAll, LastData;
    var a: Text, x: Text, w := [0x61], [RSQB, RSQB, GT], Content(state);
    LetterIsData(c.e, a);
    EndOfText(c.e, a);
    LetterIsData(c.e, a + x);
    BracketsAreError(c.e, a + x, 1);
    DataTurn(c, a, 0, w);
    NoTurn(c, a, 1, w);
    NoTurn(c, a + x, 0, w);
    ScanTurn(c, a, 0, w);
    ScanTurn(c, a, 1, w);
    ScanTurn(c, a + x, 0, w);
    LastDataTurn(c, a, 0, w);
    OneByte(0);
    assert [Data(0)] + [] == [Data(0)];
  }

  lemma OneByte(p: nat)
    ensures DataBytes(p, p + 1) == [Data(p)]
  {
    NoBytes(p);
    assert [] + [Data(p)] == [Data(p)];
  }

  /* ----- any number of pieces ----- */

  function Concat(pieces: seq<Text>): Text {
    if pieces == [] then [] else pieces[0] + Concat(pieces[1..])
  }

  /** The buffer `b` is scanned from `p` on, and after each further piece from where the last
      scan has stopped. */
  function ScanPieces<S>(c: Processor<S>, b: Text, p: nat, w: Where<S>, pieces: seq<Text>): (r: Scanned<S>)
    requires p <= |b|
    decreases |pieces|
  {
    var first := ScanAll(c, b, p, w);
    if pieces == [] then first
    else Joined(first, ScanPieces(c, b + pieces[0], first.stop, first.place, pieces[1..]))
  }

  /** Some piece ends with character data of which the rest makes an error. */
  predicate SomeSpoils<S>(c: Processor<S>, b: Text, p: nat, w: Where<S>, pieces: seq<Text>)
    requires p <= |b|
    decreases |pieces|
  {
    pieces != []
    && (|| Spoils(c, b, Concat(pieces), p, w)
        || var first := ScanAll(c, b, p, w);
           SomeSpoils(c, b + pieces[0], first.stop, first.place, pieces[1..]))
  }

  lemma AgreeTwice<S>(first: Scanned<S>, whole: Scanned<S>, rest: Scanned<S>, pieces: Scanned<S>)
    requires Agree(whole, Joined(first, rest)) && Agree(rest, pieces)
    ensures Agree(whole, Joined(first, pieces))
    ensures whole == Joined(first, pieces) <==> whole == Joined(first, rest) && rest == pieces
  {
    hide DataBytes;
    NoBytes(whole.stop);
    NoBytes(rest.stop);
    DataBytesJoin(whole.stop, rest.stop, pieces.stop);
    var a, d := DataBytes(whole.stop, rest.stop), DataBytes(rest.stop, pieces.stop);
    assert first.events + (rest.events + d) == (first.events + rest.events) + d;
    assert (whole.events + a) + d == whole.events + (a + d);
    if whole == Joined(first, pieces) {
      assert whole.stop == rest.stop == pieces.stop;
      assert whole.events + [] == whole.events && rest.events + [] == rest.events;
    }
  }

  /**
   However content is cut into pieces, the scans of the pieces together say what one scan
   of the whole says, if and only if no piece ends with character data of which the rest
   makes an error; and what is reported besides is character data.
   */
  lemma {:induction false} AnyPiecesDoNotMatter<S>(c: Processor<S>, b: Text, p: nat, w: Where<S>, pieces: seq<Text>)
    requires p <= |b|
    ensures var whole, joined := ScanAll(c, b + Concat(pieces), p, w), ScanPieces(c, b, p, w, pieces);
            Agree(whole, joined) && (whole == joined <==> !SomeSpoils(c, b, p, w, pieces))
    decreases |pieces|
  {
    hide DataBytes, ScanAll, Spoils, Agree, Joined;
    if pieces == [] {
      assert b + [] == b;
      AgreeItself(ScanAll(c, b, p, w));
    } else {
      var first := ScanAll(c, b, p, w);
      PiecesDoNotMatter(c, b, Concat(pieces), p, w);
      AnyPiecesDoNotMatter(c, b + pieces[0], first.stop, first.place, pieces[1..]);
      assert b + Concat(pieces) == (b + pieces[0]) + Concat(pieces[1..]);
      AgreeTwice(first, ScanAll(c, b + Concat(pieces), p, w),
                 ScanAll(c, b + Concat(pieces), first.stop, first.place),
                 ScanPieces(c, b + pieces[0], first.stop, first.place, pieces[1..]));
    }
  }

  lemma AgreeItself<S>(r: Scanned<S>)
    ensures Agree(r, r)
  {
    NoBytes(r.stop);
    assert r.events + [] == r.events;
  }
}
