/**
 UTF-16 and UTF-32 as the converter reads and writes them, one character at a time, with
 byte order marks (RFC 2781, sections 2.1, 2.2 and 3.2).
 */
module IconvCodec {

  type Byte = b: int | 0 <= b < 256
  type Unit = u: int | 0 <= u < 0x10000
  type Bytes = seq<Byte>

  datatype Error = Incomplete | Illegal | TooBig

  /** A codec: the width of its units, their byte order, and whether it uses a mark. */
  datatype Codec = Codec(wide: bool, big: bool, useBom: bool)

  datatype Mode = Mode(bomDone: bool, swapped: bool)

  const FRESH_MODE := Mode(false, false)

  function Size(c: Codec): nat {
    if c.wide then 4 else 2
  }

  /* ----- units ----- */

  function Word(a: Byte, b: Byte, big: bool): (u: Unit) {
    if big then a * 0x100 + b else b * 0x100 + a
  }

  function WordBytes(u: Unit, big: bool): (s: Bytes)
    ensures |s| == 2
  {
    if big then [u / 0x100, u % 0x100] else [u % 0x100, u / 0x100]
  }

  function Quad(b: Bytes, big: bool): (w: nat)
    requires |b| >= 4
  {
    var w, x, y, z: int := b[0], b[1], b[2], b[3];
    if big then w * 0x1000000 + x * 0x10000 + y * 0x100 + z
    else z * 0x1000000 + y * 0x10000 + x * 0x100 + w
  }

  function QuadBytes(w: nat, big: bool): (s: Bytes)
    requires w < 0x1_0000_0000
    ensures |s| == 4
  {
    if big then [w / 0x1000000, w / 0x10000 % 0x100, w / 0x100 % 0x100, w % 0x100]
    else [w % 0x100, w / 0x100 % 0x100, w / 0x10000 % 0x100, w / 0x1000000]
  }

  predicate IsHigh(u: Unit) {
    0xD800 <= u <= 0xDBFF
  }

  predicate IsLow(u: Unit) {
    0xDC00 <= u <= 0xDFFF
  }

  /** `utf16_to_ucs4` */
  function ToUcs4(w: seq<Unit>): nat
    requires |w| == 1 || |w| == 2
    requires |w| == 1 ==> !IsHigh(w[0])
  {
    var first: int := w[0];
    if IsHigh(w[0]) then
      var second: int := w[1];
      first % 0x400 * 0x400 + second % 0x400 + 0x10000
    else first
  }

  /** `ucs4_to_utf16` */
  function ToUtf16(c: nat): (w: seq<Unit>)
    requires c <= 0x10FFFF
    ensures |w| == 1 || |w| == 2
  {
    if c < 0x10000 then [c] else [0xD800 + (c - 0x10000) / 0x400, 0xDC00 + (c - 0x10000) % 0x400]
  }

  /** A scalar value: what one character can be. */
  predicate IsScalar(c: int) {
    0 <= c <= 0xD7FF || 0xE000 <= c <= 0x10FFFF
  }

  /** One character in UTF-16. */
  predicate IsChar(w: seq<Unit>) {
    (|w| == 1 && !IsHigh(w[0]) && !IsLow(w[0])) || (|w| == 2 && IsHigh(w[0]) && IsLow(w[1]))
  }

  lemma ScalarIsChar(c: int)
    requires IsScalar(c)
    ensures IsChar(ToUtf16(c)) && ToUcs4(ToUtf16(c)) == c
  {
  }

  lemma CharIsScalar(w: seq<Unit>)
    requires IsChar(w)
    ensures IsScalar(ToUcs4(w)) && ToUtf16(ToUcs4(w)) == w
  {
  }

  lemma WordRoundTrip(u: Unit, big: bool)
    ensures var s := WordBytes(u, big); Word(s[0], s[1], big) == u
  {
  }

  lemma QuadRoundTrip(w: nat, big: bool)
    requires w < 0x1_0000_0000
    ensures Quad(QuadBytes(w, big), big) == w
  {
    assert w / 0x10000 == w / 0x1000000 * 0x100 + w / 0x10000 % 0x100 by {
      assert w / 0x1000000 == w / 0x10000 / 0x100;
    }
    assert w / 0x100 == w / 0x10000 * 0x100 + w / 0x100 % 0x100 by {
      assert w / 0x10000 == w / 0x100 / 0x100;
    }
  }

  /** The swapped mark is read as such, and as nothing else. */
  lemma MarkSwapped(big: bool)
    ensures var s := WordBytes(0xFEFF, big); Word(s[0], s[1], !big) == 0xFFFE
    ensures Quad(QuadBytes(0xFEFF, big), !big) == 0xFFFE0000
  {
  }

  /* ----- one character ----- */

  /** What reading finds: an error, a byte order mark, or a character. */
  datatype Read = NotRead(error: Error) | Mark(size: nat, mode: Mode) | Char(units: seq<Unit>, size: nat, mode: Mode)

  /** `utf16_mbtowc` */
  function Read16(c: Codec, m: Mode, b: Bytes): (r: Read)
    ensures r.Char? ==> IsChar(r.units) && 0 < r.size <= |b|
    ensures r.Mark? ==> 0 < r.size <= |b| && r.mode.bomDone && !m.bomDone
  {
    var big := if m.swapped then !c.big else c.big;
    if |b| < 2 then NotRead(Incomplete)
    else
      var u := Word(b[0], b[1], big);
      if c.useBom && !m.bomDone && u == 0xFFFE then Mark(2, Mode(true, true))
      else if c.useBom && !m.bomDone && u == 0xFEFF then Mark(2, m.(bomDone := true))
      else
        var m' := if c.useBom then m.(bomDone := true) else m;
        if IsLow(u) then NotRead(Illegal)
        else if IsHigh(u) then
          if |b| < 4 then NotRead(Incomplete)
          else
            var v := Word(b[2], b[3], big);
            if !IsLow(v) then NotRead(Illegal) else Char([u, v], 4, m')
        else Char([u], 2, m')
  }

  /** `utf32_mbtowc` */
  function Read32(c: Codec, m: Mode, b: Bytes): (r: Read)
    ensures r.Char? ==> IsChar(r.units) && 0 < r.size <= |b|
    ensures r.Mark? ==> 0 < r.size <= |b| && r.mode.bomDone && !m.bomDone
  {
    if |b| < 4 then NotRead(Incomplete)
    else
      var w := Quad(b, if m.swapped then !c.big else c.big);
      if c.useBom && !m.bomDone && w == 0xFFFE0000 then Mark(4, Mode(true, true))
      else if c.useBom && !m.bomDone && w == 0x0000FEFF then Mark(4, m.(bomDone := true))
      else if 0xD800 <= w <= 0xDFFF || 0x10FFFF < w then NotRead(Illegal)
      else
        ScalarIsChar(w);
        Char(ToUtf16(w), 4, if c.useBom then m.(bomDone := true) else m)
  }

  function ReadOne(c: Codec, m: Mode, b: Bytes): (r: Read)
    ensures r.Char? ==> IsChar(r.units) && 0 < r.size <= |b|
    ensures r.Mark? ==> 0 < r.size <= |b| && r.mode.bomDone && !m.bomDone
  {
    if c.wide then Read32(c, m, b) else Read16(c, m, b)
  }

  function MarkBytes(c: Codec): Bytes {
    if c.wide then QuadBytes(0xFEFF, c.big) else WordBytes(0xFEFF, c.big)
  }

  function CharBytes(c: Codec, w: seq<Unit>): (s: Bytes)
    requires IsChar(w)
    ensures |s| > 0
  {
    if c.wide then CharIsScalar(w); QuadBytes(ToUcs4(w), c.big)
    else WordBytes(w[0], c.big) + if |w| == 2 then WordBytes(w[1], c.big) else []
  }

  /** What writing a character puts out; the mark goes in front of the first. */
  function Written(c: Codec, m: Mode, w: seq<Unit>): (s: Bytes)
    requires IsChar(w)
    ensures |s| > 0
  {
    (if c.useBom && !m.bomDone then MarkBytes(c) else []) + CharBytes(c, w)
  }

  function AfterWriting(c: Codec, m: Mode): Mode {
    if c.useBom then m.(bomDone := true) else m
  }

  /* ----- a conversion ----- */

  datatype State = State(from: Mode, to: Mode)

  /** How a call ends: what it has consumed and put out, and the modes it leaves. */
  datatype Ended = Ended(error: bool, what: Error, consumed: nat, out: Bytes, state: State)

  /** `win_iconv` with input and `room` bytes for output: a character that cannot be read or
      written leaves no trace. */
  function Convert(from: Codec, to: Codec, s: State, b: Bytes, room: nat): (r: Ended)
    ensures r.consumed <= |b| && |r.out| <= room
    decreases |b|
  {
    if b == [] then Ended(false, Incomplete, 0, [], s)
    else
      match ReadOne(from, s.from, b)
      case NotRead(e) => Ended(true, e, 0, [], s)
      case Mark(n, m) => Later(Convert(from, to, s.(from := m), b[n..], room), n, [])
      case Char(w, n, m) =>
        var t := Written(to, s.to, w);
        if |t| > room then Ended(true, TooBig, 0, [], s)
        else Later(Convert(from, to, State(m, AfterWriting(to, s.to)), b[n..], room - |t|), n, t)
  }

  /** The same, after `n` bytes have been consumed and `t` has been put out. */
  function Later(r: Ended, n: nat, t: Bytes): Ended {
    r.(consumed := n + r.consumed, out := t + r.out)
  }

  /* ----- stopping and resuming ----- */

  lemma MoreInput(c: Codec, m: Mode, b: Bytes, x: Bytes)
    requires ReadOne(c, m, b) != NotRead(Incomplete)
    ensures ReadOne(c, m, b + x) == ReadOne(c, m, b)
  {
  }

  /** What a second call finds that gets what the first has left. */
  function Second(from: Codec, to: Codec, first: Ended, b: Bytes, room: nat): Ended
    requires first.consumed <= |b| && |first.out| <= room
  {
    Convert(from, to, first.state, b[first.consumed..], room - |first.out|)
  }

  /** A call that stops early and a second call with what is left are one call. */
  ghost predicate Resumed(from: Codec, to: Codec, first: Ended, whole: Ended, b: Bytes, room: nat) {
    && first.consumed <= |b| && |first.out| <= room
    && whole == Later(Second(from, to, first, b, room), first.consumed, first.out)
  }

  lemma ResumedLater(from: Codec, to: Codec, first: Ended, whole: Ended, b: Bytes, room: nat, n: nat, t: Bytes)
    requires n <= |b| && |t| <= room && Resumed(from, to, first, whole, b[n..], room - |t|)
    ensures Resumed(from, to, Later(first, n, t), Later(whole, n, t), b, room)
  {
    hide Convert;
    assert b[n..][first.consumed..] == b[n + first.consumed..];
    var r := Second(from, to, first, b[n..], room - |t|);
    assert t + (first.out + r.out) == (t + first.out) + r.out;
  }

  lemma ResumedNothing(from: Codec, to: Codec, first: Ended, s: State, b: Bytes, room: nat)
    requires first.consumed == 0 && first.out == [] && first.state == s
    ensures Resumed(from, to, first, Convert(from, to, s, b, room), b, room)
  {
    hide Convert;
    assert b[0..] == b;
    var r := Convert(from, to, s, b, room);
    assert [] + r.out == r.out;
  }

  /** One turn of the loop. */
  lemma ConvertTurn(from: Codec, to: Codec, s: State, b: Bytes, room: nat)
    ensures var r := ReadOne(from, s.from, b);
            Convert(from, to, s, b, room) ==
            if b == [] then Ended(false, Incomplete, 0, [], s)
            else if r.NotRead? then Ended(true, r.error, 0, [], s)
            else if r.Mark? then Later(Convert(from, to, s.(from := r.mode), b[r.size..], room), r.size, [])
            else
              var t := Written(to, s.to, r.units);
              if |t| > room then Ended(true, TooBig, 0, [], s)
              else Later(Convert(from, to, State(r.mode, AfterWriting(to, s.to)), b[r.size..], room - |t|), r.size, t)
  {
    hide ReadOne, Written, AfterWriting;
  }

  lemma {:induction false} Resumes(from: Codec, to: Codec, s: State, b: Bytes, x: Bytes, room: nat, room': nat)
    requires room <= room'
    ensures Resumed(from, to, Convert(from, to, s, b, room), Convert(from, to, s, b + x, room'), b + x, room')
    decreases |b|
  {
    hide ReadOne, Written, AfterWriting, Convert, Resumed, Later;
    ConvertTurn(from, to, s, b, room);
    ConvertTurn(from, to, s, b + x, room');
    var read := ReadOne(from, s.from, b);
    if b == [] || read.NotRead? {
      ResumedNothing(from, to, Convert(from, to, s, b, room), s, b + x, room');
    } else {
      MoreInput(from, s.from, b, x);
      assert (b + x)[read.size..] == b[read.size..] + x;
      var t := if read.Mark? then [] else Written(to, s.to, read.units);
      var s' := if read.Mark? then s.(from := read.mode) else State(read.mode, AfterWriting(to, s.to));
      if |t| > room {
        ResumedNothing(from, to, Convert(from, to, s, b, room), s, b + x, room');
      } else {
        Resumes(from, to, s', b[read.size..], x, room - |t|, room' - |t|);
        ResumedLater(from, to, Convert(from, to, s', b[read.size..], room - |t|),
                     Convert(from, to, s', b[read.size..] + x, room' - |t|), b + x, room', read.size, t);
      }
    }
  }

  /* ----- any number of calls ----- */

  /** A call: how far the input has arrived, and the room for output. */
  datatype Call = Call(end: nat, room: nat)

  function Rooms(calls: seq<Call>): nat {
    if calls == [] then 0 else calls[0].room + Rooms(calls[1..])
  }

  /** The calls come with more and more input, from `at` on. */
  predicate InOrder(calls: seq<Call>, at: nat, size: nat) {
    if calls == [] then at <= size else at <= calls[0].end <= size && InOrder(calls[1..], calls[0].end, size)
  }

  /** What all calls together have consumed and put out: each goes on where the last stopped,
      whatever the reason. */
  function Session(from: Codec, to: Codec, s: State, b: Bytes, at: nat, arrived: nat, calls: seq<Call>): (r: Ended)
    requires at <= arrived && InOrder(calls, arrived, |b|)
    ensures at + r.consumed <= |b| && |r.out| <= Rooms(calls)
    decreases |calls|
  {
    if calls == [] then Ended(false, Incomplete, 0, [], s)
    else
      var r := Convert(from, to, s, b[at..calls[0].end], calls[0].room);
      Later(Session(from, to, r.state, b, at + r.consumed, calls[0].end, calls[1..]), r.consumed, r.out)
  }

  /**
   However a conversion is cut into calls, by input that arrives in pieces or by small
   output buffers, the calls and a last one with all the rest put out what one call with
   ample room would put out, and end as it would.
   */
  lemma {:induction false} CallsDoNotMatter(from: Codec, to: Codec, s: State, b: Bytes, at: nat, arrived: nat,
                                            calls: seq<Call>, room: nat)
    requires at <= arrived && InOrder(calls, arrived, |b|) && Rooms(calls) <= room
    ensures Resumed(from, to, Session(from, to, s, b, at, arrived, calls), Convert(from, to, s, b[at..], room),
                    b[at..], room)
    decreases |calls|
  {
    hide Convert, Resumed, Later;
    if calls == [] {
      ResumedNothing(from, to, Session(from, to, s, b, at, arrived, calls), s, b[at..], room);
    } else {
      var piece := b[at..calls[0].end];
      var r := Convert(from, to, s, piece, calls[0].room);
      assert b[at..] == piece + b[calls[0].end..];
      Resumes(from, to, s, piece, b[calls[0].end..], calls[0].room, room);
      var rest := Session(from, to, r.state, b, at + r.consumed, calls[0].end, calls[1..]);
      CallsDoNotMatter(from, to, r.state, b, at + r.consumed, calls[0].end, calls[1..], room - |r.out|);
      ResumedTwice(from, to, r, Convert(from, to, s, b[at..], room), rest, b[at..], b[at + r.consumed..], room);
    }
  }

  lemma ResumedTwice(from: Codec, to: Codec, first: Ended, whole: Ended, rest: Ended, b: Bytes, b': Bytes, room: nat)
    requires Resumed(from, to, first, whole, b, room) && b' == b[first.consumed..]
    requires Resumed(from, to, rest, Convert(from, to, first.state, b', room - |first.out|), b', room - |first.out|)
    ensures Resumed(from, to, Later(rest, first.consumed, first.out), whole, b, room)
  {
    hide Convert;
    assert b'[rest.consumed..] == b[first.consumed + rest.consumed..];
    var last := Second(from, to, rest, b', room - |first.out|);
    assert first.out + (rest.out + last.out) == (first.out + rest.out) + last.out;
  }

  /* ----- whole texts ----- */

  predicate AllScalar(cs: seq<int>) {
    forall k: nat :: k < |cs| ==> IsScalar(cs[k])
  }

  /** A text in a codec, without a mark. */
  function Body(c: Codec, cs: seq<int>): Bytes
    requires AllScalar(cs)
  {
    if cs == [] then []
    else ScalarIsChar(cs[0]); CharBytes(c, ToUtf16(cs[0])) + Body(c, cs[1..])
  }

  /** A text as the converter writes it: the mark, if any, comes with the first character. */
  function Encoded(c: Codec, cs: seq<int>): Bytes
    requires AllScalar(cs)
  {
    (if c.useBom && cs != [] then MarkBytes(c) else []) + Body(c, cs)
  }

  /** Reading undoes writing when the byte orders agree. */
  lemma ReadsWritten(c: Codec, m: Mode, w: seq<Unit>, rest: Bytes, big: bool)
    requires IsChar(w) && big == (if m.swapped then !c.big else c.big) && (c.useBom ==> m.bomDone)
    ensures var t := CharBytes(c.(big := big), w);
            ReadOne(c, m, t + rest) == Char(w, |t|, m)
  {
    var t := CharBytes(c.(big := big), w);
    var b := t + rest;
    if c.wide {
      CharIsScalar(w);
      QuadRoundTrip(ToUcs4(w), big);
      assert b[0] == t[0] && b[1] == t[1] && b[2] == t[2] && b[3] == t[3];
      assert Quad(b, big) == Quad(t, big);
    } else {
      WordRoundTrip(w[0], big);
      assert b[0] == t[0] && b[1] == t[1];
      if |w| == 2 {
        WordRoundTrip(w[1], big);
        assert b[2] == t[2] && b[3] == t[3];
      }
    }
  }

  /** The mark is skipped, and tells a swapped byte order. */
  lemma ReadsMark(c: Codec, big: bool, rest: Bytes)
    requires c.useBom
    ensures var t := MarkBytes(c.(big := big));
            ReadOne(c, FRESH_MODE, t + rest) == Mark(|t|, Mode(true, big != c.big))
  {
    var t := MarkBytes(c.(big := big));
    var b := t + rest;
    MarkSwapped(big);
    if c.wide {
      QuadRoundTrip(0xFEFF, big);
      assert b[0] == t[0] && b[1] == t[1] && b[2] == t[2] && b[3] == t[3];
      assert Quad(b, c.big) == Quad(t, c.big);
    } else {
      WordRoundTrip(0xFEFF, big);
      assert b[0] == t[0] && b[1] == t[1];
    }
  }

  function Total(to: Codec, m: Mode, cs: seq<int>): Bytes
    requires AllScalar(cs)
  {
    (if to.useBom && !m.bomDone && cs != [] then MarkBytes(to) else []) + Body(to, cs)
  }

  lemma {:induction false} ConvertsBody(from: Codec, to: Codec, s: State, cs: seq<int>, big: bool, room: nat)
    requires AllScalar(cs) && big == (if s.from.swapped then !from.big else from.big)
             && (from.useBom ==> s.from.bomDone)
    requires |Total(to, s.to, cs)| <= room
    ensures var b := Body(from.(big := big), cs);
            Convert(from, to, s, b, room) ==
            Ended(false, Incomplete, |b|, Total(to, s.to, cs),
                  s.(to := if cs == [] then s.to else AfterWriting(to, s.to)))
    decreases |cs|
  {
    hide ReadOne, CharBytes, MarkBytes, Convert, Body, Written, AfterWriting, Total;
    var b := Body(from.(big := big), cs);
    ConvertTurn(from, to, s, b, room);
    if cs == [] {
      NoText(from.(big := big), to, s.to);
    } else {
      ScalarIsChar(cs[0]);
      var w := ToUtf16(cs[0]);
      var rest := Body(from.(big := big), cs[1..]);
      var t := CharBytes(from.(big := big), w);
      BodyFirst(from.(big := big), cs);
      ReadsWritten(from, s.from, w, rest, big);
      assert b[|t|..] == rest;
      TotalFirst(to, s.to, cs);
      ConvertsBody(from, to, State(s.from, AfterWriting(to, s.to)), cs[1..], big, room - |Written(to, s.to, w)|);
      WritesOnce(to, s.to);
    }
  }

  lemma NoText(c: Codec, to: Codec, m: Mode)
    ensures Body(c, []) == [] && Total(to, m, []) == []
  {
  }

  lemma BodyFirst(c: Codec, cs: seq<int>)
    requires AllScalar(cs) && cs != []
    ensures IsChar(ToUtf16(cs[0])) && Body(c, cs) == CharBytes(c, ToUtf16(cs[0])) + Body(c, cs[1..])
  {
    hide CharBytes;
    ScalarIsChar(cs[0]);
  }

  lemma TotalFirst(to: Codec, m: Mode, cs: seq<int>)
    requires AllScalar(cs) && cs != []
    ensures IsChar(ToUtf16(cs[0]))
    ensures Total(to, m, cs) == Written(to, m, ToUtf16(cs[0])) + Total(to, AfterWriting(to, m), cs[1..])
  {
    hide CharBytes, MarkBytes, Body;
    BodyFirst(to, cs);
    var mark := if to.useBom && !m.bomDone then MarkBytes(to) else [];
    var first, rest := CharBytes(to, ToUtf16(cs[0])), Body(to, cs[1..]);
    assert mark + (first + rest) == (mark + first) + rest;
    assert Total(to, AfterWriting(to, m), cs[1..]) == rest by {
      assert [] + rest == rest;
    }
  }

  lemma WritesOnce(c: Codec, m: Mode)
    ensures AfterWriting(c, AfterWriting(c, m)) == AfterWriting(c, m)
  {
  }

  /**
   A text in one codec becomes the same text in another, marks included; and a text whose
   mark announces the other byte order is read all the same.
   */
  lemma Converts(from: Codec, to: Codec, cs: seq<int>, big: bool, room: nat)
    requires AllScalar(cs) && |Encoded(to, cs)| <= room && (from.useBom || big == from.big)
    ensures var b := Encoded(from.(big := big), cs);
            var r := Convert(from, to, State(FRESH_MODE, FRESH_MODE), b, room);
            !r.error && r.consumed == |b| && r.out == Encoded(to, cs)
  {
    hide ReadOne, CharBytes, MarkBytes;
    var b := Encoded(from.(big := big), cs);
    if from.useBom && cs != [] {
      var rest := Body(from.(big := big), cs);
      ReadsMark(from, big, rest);
      var t := MarkBytes(from.(big := big));
      assert b[|t|..] == rest;
      ConvertsBody(from, to, State(Mode(true, big != from.big), FRESH_MODE), cs, big, room);
    } else {
      assert b == Body(from.(big := big), cs);
      if cs != [] {
        ConvertsBody(from, to, State(FRESH_MODE, FRESH_MODE), cs, big, room);
      }
    }
  }

  /** A character that a codec takes for a mark at the start of a text. */
  predicate IsMark(c: Codec, first: int) {
    c.useBom && (first == 0xFEFF || (first == 0xFFFE && !c.wide))
  }

  /** Any other first character is read as such, and then no mark is looked for. */
  lemma ReadsFirst(c: Codec, first: int, rest: Bytes)
    requires c.useBom && IsScalar(first) && !IsMark(c, first)
    ensures IsChar(ToUtf16(first))
    ensures var t := CharBytes(c, ToUtf16(first));
            ReadOne(c, FRESH_MODE, t + rest) == Char(ToUtf16(first), |t|, Mode(true, false))
  {
    ScalarIsChar(first);
    var w := ToUtf16(first);
    var t := CharBytes(c, w);
    var b := t + rest;
    if c.wide {
      QuadRoundTrip(first, c.big);
      assert b[0] == t[0] && b[1] == t[1] && b[2] == t[2] && b[3] == t[3];
      assert Quad(b, c.big) == Quad(t, c.big);
    } else {
      WordRoundTrip(w[0], c.big);
      assert b[0] == t[0] && b[1] == t[1];
      if |w| == 2 {
        WordRoundTrip(w[1], c.big);
        assert b[2] == t[2] && b[3] == t[3];
      }
    }
  }

  /** A first character that is taken for a mark: the mark in the byte order of the codec or
      the other one. */
  lemma ReadsFalseMark(c: Codec, first: int, rest: Bytes)
    requires IsMark(c, first)
    ensures IsChar(ToUtf16(first))
    ensures var t := CharBytes(c, ToUtf16(first));
            ReadOne(c, FRESH_MODE, t + rest) == Mark(|t|, Mode(true, first == 0xFFFE))
  {
    ScalarIsChar(first);
    var t := CharBytes(c, ToUtf16(first));
    var b := t + rest;
    if c.wide {
      QuadRoundTrip(first, c.big);
      assert b[0] == t[0] && b[1] == t[1] && b[2] == t[2] && b[3] == t[3];
      assert Quad(b, c.big) == Quad(t, c.big);
    } else {
      WordRoundTrip(first, c.big);
      assert b[0] == t[0] && b[1] == t[1];
    }
  }

  /**
   A text without a mark, in the byte order of the codec, although the codec uses marks: it
   becomes the same text unless its first character is taken for a mark. The right mark is
   dropped; behind the other one the rest is read in the other byte order.
   */
  lemma ConvertsUnmarked(from: Codec, to: Codec, cs: seq<int>, room: nat)
    requires AllScalar(cs) && from.useBom && |Encoded(to, cs)| <= room
    ensures var b := Body(from, cs);
            var r := Convert(from, to, State(FRESH_MODE, FRESH_MODE), b, room);
            if cs == [] || !IsMark(from, cs[0]) then !r.error && r.consumed == |b| && r.out == Encoded(to, cs)
            else if cs[0] == 0xFEFF then !r.error && r.consumed == |b| && r.out == Encoded(to, cs[1..])
            else r == Later(Convert(from, to, State(Mode(true, true), FRESH_MODE), Body(from, cs[1..]), room), 2, [])
  {
    hide ReadOne, CharBytes, MarkBytes, Convert, Body, Written, AfterWriting, IsMark;
    var b := Body(from, cs);
    var s := State(FRESH_MODE, FRESH_MODE);
    ConvertTurn(from, to, s, b, room);
    EncodedIsTotal(to, cs);
    if cs == [] {
      NoText(from, to, FRESH_MODE);
    } else {
      BodyFirst(from, cs);
      var w, rest := ToUtf16(cs[0]), Body(from, cs[1..]);
      assert b[|CharBytes(from, w)|..] == rest;
      TotalFirst(to, FRESH_MODE, cs);
      EncodedIsTotal(to, cs[1..]);
      if IsMark(from, cs[0]) {
        ReadsFalseMark(from, cs[0], rest);
        MarkSize(from, cs[0]);
        if cs[0] == 0xFEFF {
          TotalTail(to, cs);
          ConvertsBody(from, to, State(Mode(true, false), FRESH_MODE), cs[1..], from.big, room);
          assert [] + Total(to, FRESH_MODE, cs[1..]) == Total(to, FRESH_MODE, cs[1..]);
        }
      } else {
        ReadsFirst(from, cs[0], rest);
        ConvertsBody(from, to, State(Mode(true, false), AfterWriting(to, FRESH_MODE)), cs[1..], from.big,
                     room - |Written(to, FRESH_MODE, w)|);
      }
    }
  }

  lemma EncodedIsTotal(to: Codec, cs: seq<int>)
    requires AllScalar(cs)
    ensures Encoded(to, cs) == Total(to, FRESH_MODE, cs)
  {
    hide MarkBytes, Body;
  }

  lemma MarkSize(c: Codec, first: int)
    requires IsMark(c, first)
    ensures IsScalar(first) && IsChar(ToUtf16(first)) && (!c.wide ==> |CharBytes(c, ToUtf16(first))| == 2)
    ensures first != 0xFEFF ==> first == 0xFFFE && !c.wide
  {
    ScalarIsChar(first);
  }

  lemma TotalTail(to: Codec, cs: seq<int>)
    requires AllScalar(cs) && cs != []
    ensures |Total(to, FRESH_MODE, cs[1..])| <= |Total(to, FRESH_MODE, cs)|
  {
    hide MarkBytes, CharBytes, Body;
    BodyFirst(to, cs);
  }

  /* ----- errors ----- */

  /** The byte order in which a codec reads in a mode. */
  function OrderOf(c: Codec, m: Mode): bool {
    if m.swapped then !c.big else c.big
  }

  /** Enough bytes for a character: four in UTF-32, and in UTF-16 two, or four when the first
      two are a high surrogate, D800 to DBFF. */
  predicate Enough(c: Codec, m: Mode, b: Bytes) {
    if c.wide then |b| >= 4
    else |b| >= 2 && (0xD8 <= (if OrderOf(c, m) then b[0] else b[1]) <= 0xDB ==> |b| >= 4)
  }

  function Two(high: int, low: int): int {
    high * 0x100 + low
  }

  function Four(w: int, x: int, y: int, z: int): int {
    w * 0x1000000 + x * 0x10000 + y * 0x100 + z
  }

  /** The bytes of a character in a byte order (RFC 2781, section 2.1, and UTF-32). */
  predicate Spells(wide: bool, big: bool, b: Bytes, s: int) {
    if wide then
      |b| == 4 && s == if big then Four(b[0], b[1], b[2], b[3]) else Four(b[3], b[2], b[1], b[0])
    else if s < 0x10000 then |b| == 2 && s == if big then Two(b[0], b[1]) else Two(b[1], b[0])
    else
      && |b| == 4
      && (if big then Two(b[0], b[1]) else Two(b[1], b[0])) == 0xD800 + (s - 0x10000) / 0x400
      && (if big then Two(b[2], b[3]) else Two(b[3], b[2])) == 0xDC00 + (s - 0x10000) % 0x400
  }

  lemma WordSpelling(u: Unit, b: Bytes, big: bool)
    requires |b| == 2
    ensures u == (if big then Two(b[0], b[1]) else Two(b[1], b[0])) <==> b == WordBytes(u, big)
  {
    var w, x: int := b[0], b[1];
    if big {
      assert u == Two(w, x) <==> w == u / 0x100 && x == u % 0x100;
    } else {
      assert u == Two(x, w) <==> x == u / 0x100 && w == u % 0x100;
    }
  }

  lemma QuadSpelling(s: nat, b: Bytes, big: bool)
    requires |b| == 4 && s < 0x1_0000_0000
    ensures s == (if big then Four(b[0], b[1], b[2], b[3]) else Four(b[3], b[2], b[1], b[0])) <==>
              b == QuadBytes(s, big)
  {
    if big {
      Digits(s, b[0], b[1], b[2], b[3]);
    } else {
      Digits(s, b[3], b[2], b[1], b[0]);
    }
  }

  lemma Digits(s: nat, w: Byte, x: Byte, y: Byte, z: Byte)
    requires s < 0x1_0000_0000
    ensures s == Four(w, x, y, z) <==>
            w == s / 0x1000000 && x == s / 0x10000 % 0x100 && y == s / 0x100 % 0x100 && z == s % 0x100
  {
    var a, d, g, h: int := w, x, y, z;
    assert s / 0x1000000 == s / 0x10000 / 0x100;
    assert s / 0x10000 == s / 0x100 / 0x100;
    if s == Four(w, x, y, z) {
      assert s == 0x100 * (a * 0x10000 + d * 0x100 + g) + h;
      assert s / 0x100 == a * 0x10000 + d * 0x100 + g;
      assert s / 0x10000 == a * 0x100 + d;
    }
  }

  /** Exactly these bytes are written for a character. */
  lemma WritesSpelling(c: Codec, s: int, b: Bytes)
    requires IsScalar(s)
    ensures IsChar(ToUtf16(s))
    ensures Spells(c.wide, c.big, b, s) <==> b == CharBytes(c, ToUtf16(s))
  {
    ScalarIsChar(s);
    if |b| == |CharBytes(c, ToUtf16(s))| {
      if c.wide {
        WritesWide(c, s, b);
      } else {
        WritesUnits(c, s, b);
      }
    }
  }

  lemma WritesWide(c: Codec, s: int, b: Bytes)
    requires IsScalar(s) && IsChar(ToUtf16(s)) && c.wide && |b| == 4
    ensures Spells(c.wide, c.big, b, s) <==> b == CharBytes(c, ToUtf16(s))
  {
    hide QuadBytes, Four;
    ScalarIsChar(s);
    QuadSpelling(s, b, c.big);
  }

  lemma WritesUnits(c: Codec, s: int, b: Bytes)
    requires IsScalar(s) && IsChar(ToUtf16(s)) && !c.wide && |b| == |CharBytes(c, ToUtf16(s))|
    ensures Spells(c.wide, c.big, b, s) <==> b == CharBytes(c, ToUtf16(s))
  {
    hide WordBytes, Two;
    var w := ToUtf16(s);
    if s < 0x10000 {
      WordSpelling(w[0], b, c.big);
      assert WordBytes(w[0], c.big) + [] == WordBytes(w[0], c.big);
    } else {
      assert b == b[..2] + b[2..];
      WordSpelling(w[0], b[..2], c.big);
      WordSpelling(w[1], b[2..], c.big);
    }
  }

  /** The mark is U+FEFF in the byte order of the codec (RFC 2781, section 3.2). */
  lemma MarkIsSpelled(c: Codec)
    ensures Spells(c.wide, c.big, MarkBytes(c), 0xFEFF)
  {
    WordRoundTrip(0xFEFF, c.big);
    QuadRoundTrip(0xFEFF, c.big);
  }

  /** What cannot be read: too little input, and otherwise bytes that no character has. */
  lemma WhyNotRead(c: Codec, m: Mode, b: Bytes)
    ensures ReadOne(c, m, b) == NotRead(Incomplete) <==> !Enough(c, m, b)
    ensures ReadOne(c, m, b) == NotRead(Illegal) <==>
              Enough(c, m, b) && forall x: Bytes :: ReadOne(c, m, b + x).NotRead?
    ensures ReadOne(c, m, b) != NotRead(TooBig)
  {
    ReadsEnough(c, m, b);
    hide ReadOne;
    if ReadOne(c, m, b) == NotRead(Illegal) {
      forall x: Bytes ensures ReadOne(c, m, b + x).NotRead? {
        MoreInput(c, m, b, x);
      }
    } else if Enough(c, m, b) {
      assert b + [] == b;
      assert !ReadOne(c, m, b + []).NotRead?;
    }
  }

  lemma ReadsEnough(c: Codec, m: Mode, b: Bytes)
    ensures ReadOne(c, m, b) == NotRead(Incomplete) <==> !Enough(c, m, b)
    ensures ReadOne(c, m, b).NotRead? && Enough(c, m, b) ==> ReadOne(c, m, b) == NotRead(Illegal)
  {
    if !c.wide && |b| >= 2 {
      HighByte(b[0], b[1], OrderOf(c, m));
    }
  }

  lemma HighByte(x: Byte, y: Byte, big: bool)
    ensures IsHigh(Word(x, y, big)) <==> 0xD8 <= (if big then x else y) <= 0xDB
  {
  }

  /** A character that is read is spelled by the bytes it is read from, in the byte order
      that is in force. */
  lemma ReadsSpelling(c: Codec, m: Mode, b: Bytes)
    requires ReadOne(c, m, b).Char?
    ensures var r := ReadOne(c, m, b);
            IsScalar(ToUcs4(r.units)) && Spells(c.wide, OrderOf(c, m), b[..r.size], ToUcs4(r.units))
  {
    var r := ReadOne(c, m, b);
    CharIsScalar(r.units);
    if c.wide {
      ScalarIsChar(Quad(b, OrderOf(c, m)));
    }
  }

  /** Of a low surrogate that begins a text in UTF-16, one byte alone is not enough, although
      nothing can complete it. */
  lemma HopelessByte(x: Bytes)
    ensures var c := Codec(false, true, false);
            && ReadOne(c, FRESH_MODE, [0xDC]) == NotRead(Incomplete)
            && ReadOne(c, FRESH_MODE, [0xDC] + x).NotRead?
  {
  }

  /** There and back again. */
  lemma RoundTrip(c: Codec, d: Codec, cs: seq<int>, room: nat)
    requires AllScalar(cs) && |Encoded(c, cs)| <= room && |Encoded(d, cs)| <= room
    ensures var there := Convert(c, d, State(FRESH_MODE, FRESH_MODE), Encoded(c, cs), room);
            var back := Convert(d, c, State(FRESH_MODE, FRESH_MODE), there.out, room);
            !there.error && !back.error && back.out == Encoded(c, cs)
  {
    Converts(c, d, cs, c.big, room);
    Converts(d, c, cs, d.big, room);
  }
}
