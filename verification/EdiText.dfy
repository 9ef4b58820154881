/**
 EDI interchanges as text: what the builder prints and what the parser makes of a message,
 as functions on byte sequences.
 */
module EdiText {

  type Byte = b: int | 0 <= b < 256

  type Value = seq<Byte>

  datatype Element = Simple(value: Value) | Composite(values: seq<Value>)

  /** A segment as the builder reads it: its elements. */
  type Elements = seq<Element>

  /** A segment as the parser leaves it, with its offset in the message. */
  datatype Segment = Segment(elements: Elements, offset: nat)

  datatype Params = Params(seg: Byte, data: Byte, sub: Byte, tag: Byte, escape: Byte)

  const CR: Byte := 13
  const LF: Byte := 10

  /** A character compared with a separator: characters from 128 on are negative, the
      separators are not. */
  predicate Is(b: Byte, sep: Byte) {
    b == sep && b < 128
  }

  predicate IsSpecial(b: Byte, p: Params) {
    Is(b, p.seg) || Is(b, p.data) || Is(b, p.sub) || Is(b, p.tag) || Is(b, p.escape)
  }

  /* ----- printing ----- */

  function Escape(v: Value, p: Params): Value {
    if v == [] then []
    else (if p.escape != 0 && IsSpecial(v[0], p) then [p.escape] else []) + [v[0]] + Escape(v[1..], p)
  }

  function PrintValues(vs: seq<Value>, p: Params): Value {
    if vs == [] then []
    else Escape(vs[0], p) + if |vs| == 1 then [] else [p.sub] + PrintValues(vs[1..], p)
  }

  function PrintElement(e: Element, p: Params): Value {
    match e case Simple(v) => Escape(v, p) case Composite(vs) => PrintValues(vs, p)
  }

  function PrintElements(es: Elements, first: bool, p: Params): Value {
    if es == [] then []
    else PrintElement(es[0], p)
         + if |es| == 1 then [] else [if first then p.tag else p.data] + PrintElements(es[1..], false, p)
  }

  function PrintSegment(es: Elements, p: Params): Value {
    PrintElements(es, true, p) + [p.seg]
  }

  function Print(m: seq<Elements>, p: Params): Value {
    if m == [] then [] else PrintSegment(m[0], p) + Print(m[1..], p)
  }

  /* ----- parsing ----- */

  function Peek(msg: Value, i: nat): Byte
    requires i <= |msg|
  {
    if i < |msg| then msg[i] else 0
  }

  predicate IsEscape(b: Byte, p: Params) {
    p.escape != 0 && Is(b, p.escape)
  }

  /** The characters that end a value; `first` is for the first element of a segment. */
  predicate Stops(b: Byte, first: bool, p: Params) {
    Is(b, p.sub) || (!first && Is(b, p.data)) || (first && Is(b, p.tag)) || Is(b, p.seg)
  }

  /** Where the scanning loop for a value stops; `e` says an escape has just been read. */
  function Scan(msg: Value, i: nat, e: bool, first: bool, p: Params): (j: nat)
    requires i <= |msg|
    ensures i <= j <= |msg|
    decreases |msg| - i
  {
    if i == |msg| then i
    else if e then Scan(msg, i + 1, false, first, p)
    else if IsEscape(msg[i], p) then Scan(msg, i + 1, true, first, p)
    else if Stops(msg[i], first, p) then i
    else Scan(msg, i + 1, false, first, p)
  }

  function Unescape(s: Value, e: bool, p: Params): Value {
    if s == [] then []
    else if !e && IsEscape(s[0], p) then Unescape(s[1..], true, p)
    else [s[0]] + Unescape(s[1..], false, p)
  }

  datatype Open = NoElement | Values(values: seq<Value>)

  /** The element that a value completes. */
  function Finish(open: Open, v: Value, composite: bool): Element {
    match open
    case NoElement => if composite then Composite([v]) else Simple(v)
    case Values(vs) => Composite(vs + [v])
  }

  function Closed(es: Elements, open: Open): Elements {
    match open case NoElement => es case Values(vs) => es + [Composite(vs)]
  }

  /** The element loop: `es` are the finished elements, `open` the composite being read. */
  function ParseElements(msg: Value, i: nat, es: Elements, open: Open, p: Params): (r: (Elements, nat))
    requires i <= |msg|
    ensures i <= r.1 <= |msg|
    decreases |msg| - i
  {
    if i == |msg| || Is(msg[i], p.seg) then (Closed(es, open), i)
    else
      var j := Scan(msg, i, false, es == [], p);
      var v := Unescape(msg[i..j], false, p);
      var c := Peek(msg, j);
      var el := Finish(open, v, Is(c, p.sub));
      if j == |msg| || Is(c, p.seg) then (es + [el], j)
      else if Is(c, p.data) || Is(c, p.tag) then ParseElements(msg, j + 1, es + [el], NoElement, p)
      else ParseElements(msg, j + 1, es, Values(if el.Simple? then [el.value] else el.values), p)
  }

  function SkipNewlines(msg: Value, i: nat): (j: nat)
    requires i <= |msg|
    ensures i <= j <= |msg|
    decreases |msg| - i
  {
    if i < |msg| && (msg[i] == CR || msg[i] == LF) then SkipNewlines(msg, i + 1) else i
  }

  datatype Error = NoError | Unterminated | Empty

  datatype Parsed = Parsed(segments: seq<Segment>, error: Error)

  function ParseSegments(msg: Value, i: nat, base: nat, segments: seq<Segment>, p: Params): Parsed
    requires i <= |msg|
    decreases |msg| - i
  {
    var start := SkipNewlines(msg, i);
    if start == |msg| then Parsed(segments, NoError)
    else
      var (es, j) := ParseElements(msg, start, [], NoElement, p);
      var segments' := segments + [Segment(es, base + start)];
      if j == |msg| then Parsed(segments', Unterminated)
      else ParseSegments(msg, j + 1, base, segments', p)
  }

  /** The parser after detection: `base` bytes have been skipped. */
  function Parse(msg: Value, base: nat, p: Params): Parsed {
    if msg == [] then Parsed([], Empty) else ParseSegments(msg, 0, base, [], p)
  }
}
