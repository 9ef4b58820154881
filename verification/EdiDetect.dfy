/**
 Detection of the separators from the start of a message, and the self-describing round
 trip with an UNA header (ISO 9735:1988, Annex B).
 */
module EdiDetect {
  import opened EdiText
  import opened EdiRoundTrip

  /** A detector row: the text to look for, the bytes to skip, and where each separator
      stands (0 for the preset's own). */
  datatype Detector = Detector(str: Value, position: nat, skip: nat,
                               seg: nat, data: nat, sub: nat, tag: nat, escape: nat)

  datatype Registered = Registered(preset: Params, detectors: seq<Detector>)

  datatype Detected = NotDetected | Found(params: Params, skip: nat)

  const UNA: Value := [0x55, 0x4E, 0x41]
  const UNB: Value := [0x55, 0x4E, 0x42]
  const STX: Value := [0x53, 0x54, 0x58]
  const ISA: Value := [0x49, 0x53, 0x41]

  const DOT: Byte := 0x2E
  const SPACE: Byte := 0x20

  const EDIFACT := Params(0x27, 0x2B, 0x3A, 0x2B, 0x3F)
  const TRADACOMS := Params(0x27, 0x2B, 0x3A, 0x3D, 0x3F)
  const X12 := Params(0x7E, 0x3A, 0x2A, 0x3A, 0)

  const REGISTRY: seq<Registered> := [
    Registered(EDIFACT, [Detector(UNA, 0, 9, 8, 4, 3, 4, 6), Detector(UNB, 0, 0, 0, 0, 0, 0, 0)]),
    Registered(TRADACOMS, [Detector(STX, 0, 0, 0, 0, 0, 0, 0)]),
    Registered(X12, [Detector(ISA, 0, 0, 105, 6, 104, 3, 0)])
  ]

  /** A byte of the message; beyond its end, the terminating NUL. */
  function ByteAt(msg: Value, k: nat): Byte {
    if k < |msg| then msg[k] else 0
  }

  predicate Applies(d: Detector, msg: Value) {
    d.position + |d.str| <= |msg| && d.skip <= |msg| && d.str <= msg
  }

  function Pick(d: Detector, pos: nat, msg: Value, preset: Byte): Byte {
    if pos != 0 then ByteAt(msg, d.position + pos) else preset
  }

  function Read(d: Detector, msg: Value, preset: Params): Params {
    Params(Pick(d, d.seg, msg, preset.seg), Pick(d, d.data, msg, preset.data), Pick(d, d.sub, msg, preset.sub),
           Pick(d, d.tag, msg, preset.tag), Pick(d, d.escape, msg, preset.escape))
  }

  function DetectRow(ds: seq<Detector>, preset: Params, msg: Value): Detected {
    if ds == [] then NotDetected
    else if Applies(ds[0], msg) then Found(Read(ds[0], msg, preset), ds[0].skip)
    else DetectRow(ds[1..], preset, msg)
  }

  /** The first detector of the first preset that applies. */
  function Detect(registry: seq<Registered>, msg: Value): Detected {
    if registry == [] then NotDetected
    else
      var d := DetectRow(registry[0].detectors, registry[0].preset, msg);
      if d.Found? then d else Detect(registry[1..], msg)
  }

  /** `edi__detect`, with its two loops. */
  method DetectSeparators(registry: seq<Registered>, msg: Value) returns (d: Detected)
    ensures d == Detect(registry, msg)
  {
    var c := 0;
    while c < |registry|
      invariant c <= |registry| && Detect(registry[c..], msg) == Detect(registry, msg)
    {
      var rows := registry[c].detectors;
      var n := 0;
      while n < |rows|
        invariant n <= |rows|
        invariant DetectRow(rows[n..], registry[c].preset, msg) == DetectRow(rows, registry[c].preset, msg)
      {
        var row := rows[n];
        if row.position + |row.str| <= |msg| && row.skip <= |msg| {
          if row.str <= msg {
            return Found(Read(row, msg, registry[c].preset), row.skip);
          }
        }
        n := n + 1;
      }
      c := c + 1;
    }
    return NotDetected;
  }

  /** The whole parser with detection switched on: no message without a detector. */
  function ParseDetected(registry: seq<Registered>, msg: Value): (r: (Detected, Parsed)) {
    match Detect(registry, msg)
    case NotDetected => (NotDetected, Parsed([], NoError))
    case Found(p, skip) =>
      (Found(p, skip), if skip <= |msg| then Parse(msg[skip..], skip, p) else Parsed([], NoError))
  }

  /* ----- the header ----- */

  const PERCENT: Byte := 0x25

  /** The trailer format of the UNA header, `%s%E.%R %S`. */
  const UNA_FORMAT: Value := [PERCENT, 0x73, PERCENT, 0x45, DOT, PERCENT, 0x52, SPACE, PERCENT, 0x53]

  datatype Header = NoHeader | Header(name: Value, trailer: Value)

  /** Formats without the backspace `%_` and without a `%` at the end. */
  predicate PlainFormat(f: Value) {
    if f == [] then true
    else if f[0] == PERCENT then |f| >= 2 && f[1] != 0x5F && PlainFormat(f[2..])
    else PlainFormat(f[1..])
  }

  function Directive(c: Byte, p: Params): Value {
    if c == 0x53 then [p.seg]
    else if c == 0x45 then [p.data]
    else if c == 0x73 then [p.sub]
    else if c == 0x54 then [p.tag]
    else if c == 0x52 then [p.escape]
    else [PERCENT, c]
  }

  function Expand(f: Value, p: Params): Value
    requires PlainFormat(f)
  {
    if f == [] then []
    else if f[0] == PERCENT then Directive(f[1], p) + Expand(f[2..], p)
    else [f[0]] + Expand(f[1..], p)
  }

  /** The text of an interchange with its header: an interchange that brings its own header
      segment gets the trailer in place of that segment's separator. */
  function PrintWith(m: seq<Elements>, h: Header, p: Params): Value
    requires h.Header? ==> PlainFormat(h.trailer)
  {
    if h.NoHeader? || m == [] || m[0] == [] || m[0][0].Composite? then Print(m, p)
    else if m[0][0].value == h.name then PrintElements(m[0], true, p) + Expand(h.trailer, p) + Print(m[1..], p)
    else Escape(h.name, p) + Expand(h.trailer, p) + Print(m, p)
  }

  const UNA_HEADER := Header(UNA, UNA_FORMAT)

  lemma UnaFormatExpands(p: Params)
    ensures PlainFormat(UNA_FORMAT)
    ensures Expand(UNA_FORMAT, p) == [p.sub, p.data, DOT, p.escape, SPACE, p.seg]
  {
    hide PlainFormat, Expand;
    var f := UNA_FORMAT;
    ExpandEnd(p);
    assert f[10..] == [] && f[0..] == f;
    UnaEndExpands(p);
    ExpandsAt(f, 4, p, [p.escape, SPACE, p.seg]);
    ExpandsAt(f, 2, p, [DOT, p.escape, SPACE, p.seg]);
    ExpandsAt(f, 0, p, [p.data, DOT, p.escape, SPACE, p.seg]);
  }

  lemma UnaEndExpands(p: Params)
    ensures PlainFormat(UNA_FORMAT[5..]) && Expand(UNA_FORMAT[5..], p) == [p.escape, SPACE, p.seg]
  {
    hide PlainFormat, Expand;
    var f := UNA_FORMAT;
    ExpandEnd(p);
    assert f[10..] == [];
    ExpandsAt(f, 8, p, []);
    ExpandsAt(f, 7, p, [p.seg]);
    ExpandsAt(f, 5, p, [SPACE, p.seg]);
  }

  lemma ExpandEnd(p: Params)
    ensures PlainFormat([]) && Expand([], p) == []
  {
  }

  /** One character or directive of a format. */
  lemma ExpandsAt(f: Value, i: nat, p: Params, rest: Value)
    requires i < |f| && (f[i] == PERCENT ==> i + 2 <= |f| && f[i + 1] != 0x5F)
    requires var j := if f[i] == PERCENT then i + 2 else i + 1; PlainFormat(f[j..]) && Expand(f[j..], p) == rest
    ensures PlainFormat(f[i..]) && Expand(f[i..], p) ==
              (if f[i] == PERCENT then Directive(f[i + 1], p) else [f[i]]) + rest
  {
    assert f[i..][1..] == f[i + 1..];
    if f[i] == PERCENT {
      assert f[i..][2..] == f[i + 2..];
    }
  }

  /** An interchange that does not come back although the parser made it: `A:'` is a
      composite of one value, is printed as `A'`, and then is a simple element. */
  lemma ParsedDoesNotComeBack()
    ensures Admissible(EDIFACT)
    ensures ElementsOf(Parse([LETTER_A, EDIFACT.sub, EDIFACT.seg], 0, EDIFACT).segments) == [ONE_VALUE]
    ensures Print([ONE_VALUE], EDIFACT) == [LETTER_A, EDIFACT.seg]
    ensures ElementsOf(Parse([LETTER_A, EDIFACT.seg], 0, EDIFACT).segments) == [[Simple([LETTER_A])]]
    ensures !NormalForm(ONE_VALUE)
  {
    hide Parse, Print, NormAll, Norm;
    ParseOneValue(EDIFACT);
    PrintOneValue(EDIFACT);
    ParsePrint([ONE_VALUE], 0, EDIFACT);
    NormAllElements([ONE_VALUE], 0, EDIFACT);
  }

  const LETTER_A: Byte := 0x41
  const ONE_VALUE: Elements := [Composite([[LETTER_A]])]

  lemma ParseOneValue(p: Params)
    requires p == EDIFACT
    ensures ElementsOf(Parse([LETTER_A, p.sub, p.seg], 0, p).segments) == [ONE_VALUE]
  {
    var msg := [LETTER_A, p.sub, p.seg];
    assert Scan(msg, 0, false, true, p) == Scan(msg, 1, false, true, p) == 1;
    assert msg[0..1] == [LETTER_A];
    assert Unescape([LETTER_A], false, p) == [LETTER_A] + Unescape([LETTER_A][1..], false, p) == [LETTER_A];
    assert [] + ONE_VALUE == ONE_VALUE;
    assert ParseElements(msg, 2, [], Values([[LETTER_A]]), p) == (ONE_VALUE, 2);
    assert ParseElements(msg, 0, [], NoElement, p) == ParseElements(msg, 2, [], Values([[LETTER_A]]), p);
    assert SkipNewlines(msg, 0) == 0 && SkipNewlines(msg, 3) == 3;
    assert ParseSegments(msg, 3, 0, [Segment(ONE_VALUE, 0)], p) == Parsed([Segment(ONE_VALUE, 0)], NoError);
    assert ParseSegments(msg, 0, 0, [], p) == ParseSegments(msg, 3, 0, [Segment(ONE_VALUE, 0)], p);
  }

  lemma PrintOneValue(p: Params)
    requires p == EDIFACT
    ensures Print([ONE_VALUE], p) == [LETTER_A, p.seg]
    ensures Norm(ONE_VALUE) == [Simple([LETTER_A])] && WritableAll([ONE_VALUE], p) && Admissible(p)
  {
    assert Escape([LETTER_A], p) == [LETTER_A] + Escape([LETTER_A][1..], p) == [LETTER_A];
    assert PrintElements(ONE_VALUE, true, p) == [LETTER_A];
    assert Print([ONE_VALUE], p) == PrintSegment(ONE_VALUE, p) + Print([ONE_VALUE][1..], p);
    assert Newlines([LETTER_A]) == 0 && [LETTER_A][0..] == [LETTER_A];
    assert StripElement(ONE_VALUE[0]) == ONE_VALUE[0] by {
      assert [[LETTER_A]][0 := [LETTER_A]] == [[LETTER_A]];
    }
    assert StripFirst(ONE_VALUE) == ONE_VALUE;
    assert CanonAll(ONE_VALUE) == [Simple([LETTER_A])];
  }

  /** The letters of the header name do not need escaping. */
  predicate NameIsPlain(name: Value, p: Params) {
    forall k: nat :: k < |name| ==> !IsSpecial(name[k], p)
  }

  lemma {:induction false} PlainIsNotEscaped(v: Value, p: Params)
    requires NameIsPlain(v, p)
    ensures Escape(v, p) == v
    decreases |v|
  {
    if v != [] {
      PlainIsNotEscaped(v[1..], p);
    }
  }

  /** The UNA header gives back the separators, except that the tag separator always comes
      out as the element separator. */
  lemma DetectUna(msg: Value, p: Params)
    requires [0x55, 0x4E, 0x41, p.sub, p.data, 0x2E, p.escape, 0x20, p.seg] <= msg
    ensures Detect(REGISTRY, msg) == Found(p.(tag := p.data), 9)
  {
    var row := Detector(UNA, 0, 9, 8, 4, 3, 4, 6);
    var head := [0x55, 0x4E, 0x41, p.sub, p.data, 0x2E, p.escape, 0x20, p.seg];
    assert forall k: nat :: k < 9 ==> msg[k] == head[k];
    assert UNA == msg[..3];
    assert Applies(row, msg);
    assert REGISTRY[0].detectors[0] == row;
  }

  /** An interchange printed with the UNA header describes itself. */
  lemma SelfDescribing(m: seq<Elements>, p: Params)
    requires Admissible(p) && p.escape != 0 && p.tag == p.data && NameIsPlain(UNA, p)
    requires m != [] && m[0] != [] && m[0][0].Simple? && m[0][0].value != UNA
    ensures PlainFormat(UNA_FORMAT)
    ensures var r := ParseDetected(REGISTRY, PrintWith(m, UNA_HEADER, p));
            r == (Found(p, 9), Parsed(NormAll(m, 9, p), NoError))
    ensures PrintWith(m, UNA_HEADER, p) ==
            [0x55, 0x4E, 0x41, p.sub, p.data, 0x2E, p.escape, 0x20, p.seg] + Print(m, p)
    ensures var r := ParseDetected(REGISTRY, PrintWith(m, UNA_HEADER, p));
            ElementsOf(r.1.segments) == m <==> forall k: nat :: k < |m| ==> NormalForm(m[k])
  {
    UnaFormatExpands(p);
    PlainIsNotEscaped(UNA, p);
    var head := [0x55, 0x4E, 0x41, p.sub, p.data, 0x2E, p.escape, 0x20, p.seg];
    var msg := PrintWith(m, UNA_HEADER, p);
    assert UNA + [p.sub, p.data, DOT, p.escape, SPACE, p.seg] == head;
    assert msg == head + Print(m, p);
    DetectUna(msg, p);
    assert msg[9..] == Print(m, p);
    ParsePrint(m, 9, p);
    RoundTrip(m, 9, p);
  }

  /** An interchange that brings an UNA segment of its own. With nothing else in it, the
      segment turns into the header and does not come back, and the others do. With further
      elements it is taken for a header that it is not: the tag separator comes out as the
      separator inside composites. */
  lemma OwnUnaSegment(m: seq<Elements>, p: Params)
    requires Admissible(p) && p.escape != 0 && p.tag == p.data && NameIsPlain(UNA, p)
    requires m != [] && m[0] != [] && m[0][0] == Simple(UNA)
    ensures PlainFormat(UNA_FORMAT)
    ensures var r := ParseDetected(REGISTRY, PrintWith(m, UNA_HEADER, p));
            if |m[0]| > 1 then r.0.Found? && r.0.skip == 9 && r.0.params.sub == p.tag != p.sub
            else r == (Found(p, 9), if |m| == 1 then Parsed([], Empty) else Parsed(NormAll(m[1..], 9, p), NoError))
  {
    hide Parse, Print, NormAll, Expand, Detect, PrintElements;
    UnaFormatExpands(p);
    PlainIsNotEscaped(UNA, p);
    var header := [p.sub, p.data, DOT, p.escape, SPACE, p.seg];
    var msg := PrintWith(m, UNA_HEADER, p);
    assert msg == PrintElements(m[0], true, p) + header + Print(m[1..], p);
    UnaIsFirst(m[0], p);
    if |m[0]| > 1 {
      DetectFalseUna(msg, p.tag);
    } else {
      DetectUna(msg, p);
      assert msg[9..] == Print(m[1..], p);
      if |m| == 1 {
        PrintNothing(p);
      } else {
        ParsePrint(m[1..], 9, p);
      }
    }
  }

  lemma UnaIsFirst(es: Elements, p: Params)
    requires es != [] && es[0] == Simple(UNA) && Escape(UNA, p) == UNA
    ensures |es| == 1 ==> PrintElements(es, true, p) == UNA
    ensures |es| > 1 ==> UNA + [p.tag] <= PrintElements(es, true, p)
  {
    FirstAndRest(es, p);
    hide Escape, PrintElements;
    if |es| > 1 {
      BeginsWith(UNA, p.tag, PrintElements(es[1..], false, p));
    }
  }

  lemma FirstAndRest(es: Elements, p: Params)
    requires es != [] && es[0].Simple?
    ensures |es| == 1 ==> PrintElements(es, true, p) == Escape(es[0].value, p)
    ensures |es| > 1 ==>
              PrintElements(es, true, p) == Escape(es[0].value, p) + ([p.tag] + PrintElements(es[1..], false, p))
  {
    hide Escape;
  }

  lemma BeginsWith(v: Value, c: Byte, rest: Value)
    ensures v + [c] <= v + ([c] + rest)
  {
    assert v + ([c] + rest) == (v + [c]) + rest;
  }

  /** Whatever stands behind the letters is taken for the separators. */
  lemma DetectFalseUna(msg: Value, c: Byte)
    requires |msg| >= 9 && UNA + [c] <= msg
    ensures var d := Detect(REGISTRY, msg); d.Found? && d.skip == 9 && d.params.sub == c
  {
    var row := Detector(UNA, 0, 9, 8, 4, 3, 4, 6);
    assert UNA <= msg by {
      assert UNA == (UNA + [c])[..3] == msg[..4][..3];
    }
    assert msg[3] == (UNA + [c])[3];
    assert Applies(row, msg);
    assert REGISTRY[0].detectors[0] == row;
  }

  /** Without a first element no header is printed, and nothing is detected, unless the
      segment separator is a letter with which a header begins. */
  lemma WithoutFirstElement(m: seq<Elements>, p: Params)
    requires (m == [] || m[0] == []) && p.seg !in {UNA[0], STX[0], ISA[0]}
    ensures PlainFormat(UNA_FORMAT)
    ensures ParseDetected(REGISTRY, PrintWith(m, UNA_HEADER, p)) == (NotDetected, Parsed([], NoError))
  {
    hide Expand, PlainFormat, Detect, Parse, PrintElements, PrintSegment;
    UnaFormatExpands(p);
    var msg := PrintWith(m, UNA_HEADER, p);
    if m != [] {
      EmptySegment(p);
      assert msg == [p.seg] + Print(m[1..], p);
    }
    NothingApplies(msg);
  }

  lemma EmptySegment(p: Params)
    ensures PrintSegment([], p) == [p.seg]
  {
  }

  lemma NothingApplies(msg: Value)
    requires msg == [] || msg[0] !in {UNA[0], STX[0], ISA[0]}
    ensures Detect(REGISTRY, msg).NotDetected?
  {
    hide Applies;
    NotApplied(UNA, msg);
    NotApplied(UNB, msg);
    NotApplied(STX, msg);
    NotApplied(ISA, msg);
    NoRow(REGISTRY[0].detectors, EDIFACT, msg);
    NoRow(REGISTRY[1].detectors, TRADACOMS, msg);
    NoRow(REGISTRY[2].detectors, X12, msg);
    hide DetectRow;
    assert Detect(REGISTRY[3..], msg) == NotDetected;
    assert REGISTRY[2..][0] == REGISTRY[2] && REGISTRY[2..][1..] == REGISTRY[3..];
    assert REGISTRY[1..][0] == REGISTRY[1] && REGISTRY[1..][1..] == REGISTRY[2..];
    assert Detect(REGISTRY[2..], msg) == NotDetected;
    assert Detect(REGISTRY[1..], msg) == NotDetected;
  }

  lemma NotApplied(str: Value, msg: Value)
    requires str != [] && (msg == [] || msg[0] != str[0])
    ensures forall d: Detector :: d.str == str ==> !Applies(d, msg)
  {
  }

  lemma {:induction false} NoRow(ds: seq<Detector>, preset: Params, msg: Value)
    requires forall k: nat :: k < |ds| ==> !Applies(ds[k], msg)
    ensures DetectRow(ds, preset, msg).NotDetected?
  {
    if ds != [] {
      NoRow(ds[1..], preset, msg);
    }
  }

  /* ----- messages without an UNA header ----- */

  /** The separators of a message are known by its first three letters: UN/EDIFACT has `'`,
      `+`, `:` and `?`, with `+` behind the tag as well. */
  lemma DetectUnb(msg: Value)
    requires [0x55, 0x4E, 0x42] <= msg
    ensures Detect(REGISTRY, msg) == Found(Params(0x27, 0x2B, 0x3A, 0x2B, 0x3F), 0)
  {
    assert msg[..3] == [0x55, 0x4E, 0x42];
    assert msg[2] == msg[..3][2] != UNA[2];
    assert !Applies(REGISTRY[0].detectors[0], msg);
    assert REGISTRY[0].detectors[1..][0] == Detector(UNB, 0, 0, 0, 0, 0, 0, 0);
    assert DetectRow(REGISTRY[0].detectors, EDIFACT, msg) == DetectRow(REGISTRY[0].detectors[1..], EDIFACT, msg);
  }

  /** TRADACOMS has the same, but `=` behind the tag. */
  lemma DetectStx(msg: Value)
    requires [0x53, 0x54, 0x58] <= msg
    ensures Detect(REGISTRY, msg) == Found(Params(0x27, 0x2B, 0x3A, 0x3D, 0x3F), 0)
  {
    assert msg[..3] == [0x53, 0x54, 0x58];
    NotEdifact(msg);
    assert REGISTRY[1..][0] == REGISTRY[1];
    assert Applies(REGISTRY[1].detectors[0], msg);
  }

  /** X12 names its separators in the header, at fixed places, and has no escape character. */
  lemma DetectIsa(msg: Value)
    requires [0x49, 0x53, 0x41] <= msg
    ensures Detect(REGISTRY, msg) ==
              Found(Params(ByteAt(msg, 105), ByteAt(msg, 6), ByteAt(msg, 104), ByteAt(msg, 3), 0), 0)
  {
    assert msg[..3] == [0x49, 0x53, 0x41];
    NotEdifact(msg);
    NotApplied(STX, msg);
    NoRow(REGISTRY[1].detectors, TRADACOMS, msg);
    assert REGISTRY[1..][0] == REGISTRY[1] && REGISTRY[1..][1..] == REGISTRY[2..] && REGISTRY[2..][0] == REGISTRY[2];
    assert Applies(REGISTRY[2].detectors[0], msg);
  }

  lemma NotEdifact(msg: Value)
    requires msg != [] && msg[0] != 0x55
    ensures Detect(REGISTRY, msg) == Detect(REGISTRY[1..], msg)
  {
    NotApplied(UNA, msg);
    NotApplied(UNB, msg);
    NoRow(REGISTRY[0].detectors, EDIFACT, msg);
  }

  /** What a printed interchange begins with. */
  lemma BeginsWithFirst(m: seq<Elements>, name: Value, p: Params)
    requires m != [] && m[0] != [] && FirstValue(m[0][0]) == name && name != [] && Escape(name, p) == name
    ensures name <= Print(m, p)
  {
    hide Escape, PrintValues, Print;
    ValueBegins(m[0][0], name, p);
    ElementBegins(m[0], p);
    SegmentBegins(m, p);
  }

  lemma ValueBegins(e: Element, name: Value, p: Params)
    requires FirstValue(e) == name && name != [] && Escape(name, p) == name
    ensures name <= PrintElement(e, p)
  {
    hide Escape;
  }

  lemma ElementBegins(es: Elements, p: Params)
    requires es != []
    ensures PrintElement(es[0], p) <= PrintElements(es, true, p)
  {
    hide PrintElement;
  }

  lemma SegmentBegins(m: seq<Elements>, p: Params)
    requires m != []
    ensures PrintElements(m[0], true, p) <= Print(m, p)
  {
    hide PrintElements;
    assert Print(m, p) == PrintElements(m[0], true, p) + ([p.seg] + Print(m[1..], p));
  }

  /** A printed interchange in normal form whose separators are detected comes back. */
  lemma DetectedComesBack(m: seq<Elements>, p: Params)
    requires Admissible(p) && p.escape != 0 && m != [] && Detect(REGISTRY, Print(m, p)) == Found(p, 0)
    requires forall k: nat :: k < |m| ==> NormalForm(m[k])
    ensures var r := ParseDetected(REGISTRY, Print(m, p));
            r.0 == Found(p, 0) && r.1.error == NoError && ElementsOf(r.1.segments) == m
  {
    hide Detect, Parse, Print, NormalForm, NormAll;
    assert Print(m, p)[0..] == Print(m, p);
    ParsePrint(m, 0, p);
    RoundTrip(m, 0, p);
  }

  lemma UnbIsPlain(p: Params)
    requires p == Params(0x27, 0x2B, 0x3A, 0x2B, 0x3F)
    ensures Admissible(p) && Escape(UNB, p) == UNB
  {
    PlainIsNotEscaped(UNB, p);
  }

  lemma StxIsPlain(p: Params)
    requires p == Params(0x27, 0x2B, 0x3A, 0x3D, 0x3F)
    ensures Admissible(p) && Escape(STX, p) == STX
  {
    PlainIsNotEscaped(STX, p);
  }

  /** An interchange in normal form that begins with UNB, printed with the separators of
      UN/EDIFACT, describes itself: nothing is skipped and it comes back. */
  lemma SelfDescribingUnb(m: seq<Elements>)
    requires m != [] && m[0] != [] && FirstValue(m[0][0]) == [0x55, 0x4E, 0x42]
    requires forall k: nat :: k < |m| ==> NormalForm(m[k])
    ensures var p := Params(0x27, 0x2B, 0x3A, 0x2B, 0x3F);
            var r := ParseDetected(REGISTRY, Print(m, p));
            r.0 == Found(p, 0) && r.1.error == NoError && ElementsOf(r.1.segments) == m
  {
    hide Detect, ParseDetected, Print, NormalForm, Escape, Admissible;
    var p := Params(0x27, 0x2B, 0x3A, 0x2B, 0x3F);
    UnbIsPlain(p);
    BeginsWithFirst(m, UNB, p);
    DetectUnb(Print(m, p));
    DetectedComesBack(m, p);
  }

  /** So does one that begins with STX, with the separators of TRADACOMS. */
  lemma SelfDescribingStx(m: seq<Elements>)
    requires m != [] && m[0] != [] && FirstValue(m[0][0]) == [0x53, 0x54, 0x58]
    requires forall k: nat :: k < |m| ==> NormalForm(m[k])
    ensures var p := Params(0x27, 0x2B, 0x3A, 0x3D, 0x3F);
            var r := ParseDetected(REGISTRY, Print(m, p));
            r.0 == Found(p, 0) && r.1.error == NoError && ElementsOf(r.1.segments) == m
  {
    hide Detect, ParseDetected, Print, NormalForm, Escape, Admissible;
    var p := Params(0x27, 0x2B, 0x3A, 0x3D, 0x3F);
    StxIsPlain(p);
    BeginsWithFirst(m, STX, p);
    DetectStx(Print(m, p));
    DetectedComesBack(m, p);
  }

  lemma PrintNothing(p: Params)
    ensures Print([], p) == [] && Parse([], 9, p) == Parsed([], Empty)
  {
  }
}
