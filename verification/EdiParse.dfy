/**
 The parser in place: nested loops over the message which leave the values in the string
 pools and an interchange of pointers to them.
 */
module EdiParse {
  import opened EdiText
  import opened EdiPool

  /** A value as the interchange holds it: a pointer and a length. */
  datatype Ref = Ref(ptr: Ptr, len: nat)

  datatype ElementRef = SimpleRef(value: Ref) | CompositeRef(values: seq<Ref>)

  datatype SegmentRef = SegmentRef(elements: seq<ElementRef>, offset: nat)

  /* ----- what the pointers mean ----- */

  ghost predicate MeansValue(u: Used, r: Ref, v: Value) {
    Holds(u, r.ptr, v) && r.len == |v|
  }

  ghost predicate MeansElement(u: Used, r: ElementRef, e: Element) {
    match r
    case SimpleRef(ref) => e.Simple? && MeansValue(u, ref, e.value)
    case CompositeRef(refs) =>
      e.Composite? && |refs| == |e.values| && forall k: nat :: k < |refs| ==> MeansValue(u, refs[k], e.values[k])
  }

  ghost predicate MeansElements(u: Used, rs: seq<ElementRef>, es: Elements) {
    |rs| == |es| && forall k: nat :: k < |rs| ==> MeansElement(u, rs[k], es[k])
  }

  ghost predicate MeansSegment(u: Used, r: SegmentRef, s: Segment) {
    MeansElements(u, r.elements, s.elements) && r.offset == s.offset
  }

  ghost predicate Means(u: Used, rs: seq<SegmentRef>, ss: seq<Segment>) {
    |rs| == |ss| && forall k: nat :: k < |rs| ==> MeansSegment(u, rs[k], ss[k])
  }

  lemma ElementStays(u: Used, w: Used, r: ElementRef, e: Element)
    requires MeansElement(u, r, e) && Extends(u, w)
    ensures MeansElement(w, r, e)
  {
    hide Holds, Extends;
    match r
    case SimpleRef(ref) => HoldsStays(u, w, ref.ptr, e.value);
    case CompositeRef(refs) =>
      forall k: nat | k < |refs| ensures MeansValue(w, refs[k], e.values[k]) {
        assert MeansValue(u, refs[k], e.values[k]);
        HoldsStays(u, w, refs[k].ptr, e.values[k]);
      }
  }

  lemma ElementsStay(u: Used, w: Used, rs: seq<ElementRef>, es: Elements)
    requires MeansElements(u, rs, es) && Extends(u, w)
    ensures MeansElements(w, rs, es)
  {
    forall k: nat | k < |rs| ensures MeansElement(w, rs[k], es[k]) {
      ElementStays(u, w, rs[k], es[k]);
    }
  }

  lemma SegmentsStay(u: Used, w: Used, rs: seq<SegmentRef>, ss: seq<Segment>)
    requires Means(u, rs, ss) && Extends(u, w)
    ensures Means(w, rs, ss)
  {
    forall k: nat | k < |rs| ensures MeansSegment(w, rs[k], ss[k]) {
      ElementsStay(u, w, rs[k].elements, ss[k].elements);
    }
  }

  /* ----- the buffers of an interchange, in order ----- */

  function RefsOf(e: ElementRef): seq<Ref> {
    match e case SimpleRef(r) => [r] case CompositeRef(rs) => rs
  }

  function ElementsRefs(es: seq<ElementRef>): seq<Ref> {
    if es == [] then [] else ElementsRefs(es[..|es| - 1]) + RefsOf(es[|es| - 1])
  }

  function Refs(ss: seq<SegmentRef>): seq<Ref> {
    if ss == [] then [] else Refs(ss[..|ss| - 1]) + ElementsRefs(ss[|ss| - 1].elements)
  }

  /** Each value has its own buffer, with room for its terminator. */
  ghost predicate Buffers(refs: seq<Ref>, regions: seq<Region>) {
    |refs| == |regions|
    && forall k: nat :: k < |refs| ==> refs[k].ptr == regions[k].ptr && refs[k].len < regions[k].size
  }

  lemma BuffersMore(refs: seq<Ref>, regions: seq<Region>, ref: Ref, size: nat)
    requires Buffers(refs, regions) && ref.len < size
    ensures Buffers(refs + [ref], regions + [Region(ref.ptr, size)])
  {
  }

  /** The element list with one value more: a new element, or one more value of the last. */
  function WithValue(es: seq<ElementRef>, newel: bool, ref: Ref, composite: bool): (r: seq<ElementRef>)
    requires newel || (es != [] && es[|es| - 1].CompositeRef?)
  {
    if newel then es + [if composite then CompositeRef([ref]) else SimpleRef(ref)]
    else es[|es| - 1 := CompositeRef(es[|es| - 1].values + [ref])]
  }

  lemma WithValueRefs(es: seq<ElementRef>, newel: bool, ref: Ref, composite: bool)
    requires newel || (es != [] && es[|es| - 1].CompositeRef?)
    ensures ElementsRefs(WithValue(es, newel, ref, composite)) == ElementsRefs(es) + [ref]
  {
    var r := WithValue(es, newel, ref, composite);
    assert r[..|r| - 1] == if newel then es else es[..|es| - 1];
  }

  lemma WithValueMeans(u: Used, es: seq<ElementRef>, ref: Ref, composite: bool, vs: Elements, open: Open, v: Value)
    requires MeansElements(u, es, Closed(vs, open)) && MeansValue(u, ref, v)
    ensures open.NoElement? || (es != [] && es[|es| - 1].CompositeRef?)
    ensures MeansElements(u, WithValue(es, open.NoElement?, ref, composite), vs + [Finish(open, v, composite)])
  {
    hide Holds;
    var all := vs + [Finish(open, v, composite)];
    if open.Values? {
      assert MeansElement(u, es[|es| - 1], Closed(vs, open)[|es| - 1]);
    }
    var r := WithValue(es, open.NoElement?, ref, composite);
    forall k: nat | k < |r| ensures MeansElement(u, r[k], all[k]) {
      if k < |vs| {
        assert MeansElement(u, es[k], Closed(vs, open)[k]);
        assert all[k] == Closed(vs, open)[k] && r[k] == es[k];
      }
    }
  }

  /* ----- the loops ----- */

  /** The loop that looks for the end of a value. */
  method ScanValue(msg: Value, start: nat, first: bool, p: Params) returns (j: nat)
    requires start <= |msg|
    ensures j == Scan(msg, start, false, first, p)
  {
    var e := false;
    j := start;
    while j < |msg|
      invariant start <= j <= |msg|
      invariant Scan(msg, j, e, first, p) == Scan(msg, start, false, first, p)
    {
      if e {
        j := j + 1;
        e := false;
        continue;
      }
      if IsEscape(msg[j], p) {
        e := true;
        j := j + 1;
        continue;
      }
      if Stops(msg[j], first, p) {
        break;
      }
      j := j + 1;
    }
  }

  /** The one pool is larger than the message, and no more of it is taken than has been read. */
  ghost predicate Ample(pool: Pool, size: nat, pos: nat)
    reads pool, pool.stringpool
  {
    |pool.stringpool| == 1 && |pool.sp| == 1 && size < pool.stringpool[0].Length && pool.sp[0] <= pos
  }

  /** One value: it is scanned, stored, and joins the elements. */
  method ReadValue(pool: Pool, msg: Value, ts: nat, before: seq<ElementRef>, newel: bool, p: Params,
                   ghost es: Elements, ghost open: Open)
    returns (elements: seq<ElementRef>, j: nat, ghost ref: Ref)
    requires pool.Valid() && ts < |msg| && !Is(msg[ts], p.seg)
    requires newel == open.NoElement? && (|before| == (if newel then 0 else 1) <==> es == [])
    requires MeansElements(pool.used, before, Closed(es, open))
    modifies pool, pool.stringpool
    ensures pool.Valid() && Extends(old(pool.used), pool.used)
    ensures j == Scan(msg, ts, false, es == [], p)
    ensures var el := Finish(open, Unescape(msg[ts..j], false, p), Is(Peek(msg, j), p.sub));
            MeansElements(pool.used, elements, es + [el])
    ensures j >= ts && ref.len < j - ts + 1 && pool.regions == old(pool.regions) + [Region(ref.ptr, j - ts + 1)]
    ensures ElementsRefs(elements) == ElementsRefs(before) + [ref]
    ensures old(Ample(pool, |msg|, ts)) && j < |msg| ==>
              pool.stringpool == old(pool.stringpool) && Ample(pool, |msg|, j + 1)
    ensures old(Ample(pool, |msg|, ts)) ==> |pool.stringpool| <= 2
    ensures forall b <- pool.stringpool :: b in old(pool.stringpool) || fresh(b)
  {
    hide Holds, Extends, Scan, Unescape, ParseElements, MeansElements, Closed, WithValue, Buffers, ElementsRefs,
         Finish, Stops, Pool.Valid;
    j := ScanValue(msg, ts, |before| == (if newel then 0 else 1), p);
    ghost var was := pool.used;
    ghost var v := Unescape(msg[ts..j], false, p);
    var ptr, n := pool.Store(msg, ts, j - ts, p);
    var composite := Is(Peek(msg, j), p.sub);
    ElementsStay(was, pool.used, before, Closed(es, open));
    WithValueMeans(pool.used, before, Ref(ptr, n), composite, es, open, v);
    elements := WithValue(before, newel, Ref(ptr, n), composite);
    WithValueRefs(before, newel, Ref(ptr, n), composite);
    ref := Ref(ptr, n);
  }

  lemma BuffersAdded(refs: seq<Ref>, regions: seq<Region>, ref: Ref, size: nat, from: nat)
    requires from <= |regions| && Buffers(refs, regions[from..]) && ref.len < size
    ensures Buffers(refs + [ref], (regions + [Region(ref.ptr, size)])[from..])
  {
    BuffersMore(refs, regions[from..], ref, size);
    assert (regions + [Region(ref.ptr, size)])[from..] == regions[from..] + [Region(ref.ptr, size)];
  }

  /** The loop over the elements of a segment. */
  method ReadElements(pool: Pool, msg: Value, start: nat, p: Params) returns (elements: seq<ElementRef>, j: nat)
    requires pool.Valid() && start <= |msg| && Ample(pool, |msg|, start)
    modifies pool, pool.stringpool
    ensures pool.Valid() && Extends(old(pool.used), pool.used)
    ensures var r := ParseElements(msg, start, [], NoElement, p);
            j == r.1 && MeansElements(pool.used, elements, r.0)
    ensures old(pool.regions) <= pool.regions
            && Buffers(ElementsRefs(elements), pool.regions[|old(pool.regions)|..])
    ensures start <= j <= |msg|
    ensures j < |msg| ==> Ample(pool, |msg|, j + 1)
    ensures |pool.stringpool| <= 2
    ensures forall b <- pool.stringpool :: b in old(pool.stringpool) || fresh(b)
  {
    hide Holds, Extends, Scan, Unescape, ParseElements, MeansElements, Closed, Buffers, ElementsRefs, Finish, Stops;
    elements := [];
    var newel := true;
    j := start;
    ghost var es: Elements, open: Open, done := [], NoElement, false;
    ghost var from := |pool.regions|;
    assert pool.regions[from..] == [];
    NoElements(pool.used);
    while j < |msg| && !Is(msg[j], p.seg)
      invariant start <= j <= |msg|
      invariant pool.Valid() && Extends(old(pool.used), pool.used)
      invariant newel == open.NoElement? && (|elements| == (if newel then 0 else 1) <==> es == [])
      invariant MeansElements(pool.used, elements, Closed(es, open))
      invariant ParseElements(msg, j, es, open, p) == ParseElements(msg, start, [], NoElement, p)
      invariant old(pool.regions) <= pool.regions
      invariant Buffers(ElementsRefs(elements), pool.regions[from..])
      invariant Ample(pool, |msg|, j)
      invariant pool.stringpool == old(pool.stringpool)
      decreases |msg| - j
    {
      var ts := j;
      var before := elements;
      ghost var regions, was := pool.regions, pool.used;
      ghost var ref;
      elements, j, ref := ReadValue(pool, msg, ts, before, newel, p, es, open);
      ghost var v := Unescape(msg[ts..j], false, p);
      var c := Peek(msg, j);
      ExtendsTrans(old(pool.used), was, pool.used);
      BuffersAdded(ElementsRefs(before), regions, ref, j - ts + 1, from);
      OneElement(msg, ts, es, open, p);
      SameCount(pool.used, elements, es + [Finish(open, v, Is(c, p.sub))]);
      if j == |msg| || Is(c, p.seg) {
        es, open, done := es + [Finish(open, v, Is(c, p.sub))], NoElement, true;
        break;
      }
      if Is(c, p.data) || Is(c, p.tag) {
        newel := true;
        es, open := es + [Finish(open, v, Is(c, p.sub))], NoElement;
      } else {
        newel := false;
        open := NextOpen(open, v, Is(c, p.sub));
      }
      j := j + 1;
    }
    if !done {
      NoMoreElements(msg, j, es, open, p);
    }
  }

  lemma SameCount(u: Used, rs: seq<ElementRef>, es: Elements)
    requires MeansElements(u, rs, es)
    ensures |rs| == |es|
  {
  }

  function NextOpen(open: Open, v: Value, composite: bool): Open {
    var el := Finish(open, v, composite);
    Values(if el.Simple? then [el.value] else el.values)
  }

  lemma NoMoreElements(msg: Value, i: nat, es: Elements, open: Open, p: Params)
    requires i <= |msg| && (i == |msg| || Is(msg[i], p.seg))
    ensures ParseElements(msg, i, es, open, p) == (Closed(es, open), i)
  {
  }

  lemma NoElements(u: Used)
    ensures Extends(u, u)
    ensures MeansElements(u, [], Closed([], NoElement)) && Buffers(ElementsRefs([]), [])
  {
  }

  /** One turn of the element loop. */
  lemma OneElement(msg: Value, i: nat, es: Elements, open: Open, p: Params)
    requires i < |msg| && !Is(msg[i], p.seg)
    ensures var j := Scan(msg, i, false, es == [], p);
            var c := Peek(msg, j);
            var el := Finish(open, Unescape(msg[i..j], false, p), Is(c, p.sub));
            && Closed(es + [el], NoElement) == es + [el]
            && ParseElements(msg, i, es, open, p) ==
               (if j == |msg| || Is(c, p.seg) then (es + [el], j)
               else if Is(c, p.data) || Is(c, p.tag) then ParseElements(msg, j + 1, es + [el], NoElement, p)
               else ParseElements(msg, j + 1, es, NextOpen(open, Unescape(msg[i..j], false, p), Is(c, p.sub)), p))
            && (j < |msg| && !Is(c, p.seg) && !Is(c, p.data) && !Is(c, p.tag) ==>
                  Closed(es, NextOpen(open, Unescape(msg[i..j], false, p), Is(c, p.sub))) == es + [el])
  {
    var j := Scan(msg, i, false, es == [], p);
    ScanStops(msg, i, false, es == [], p);
  }

  /** The scanning loop ends at a separator or at the end of the message. */
  lemma {:induction false} ScanStops(msg: Value, i: nat, e: bool, first: bool, p: Params)
    requires i <= |msg|
    ensures var j := Scan(msg, i, e, first, p); j < |msg| ==> Stops(msg[j], first, p)
    decreases |msg| - i
  {
    if i < |msg| && (e || IsEscape(msg[i], p) || !Stops(msg[i], first, p)) {
      ScanStops(msg, i + 1, !e && IsEscape(msg[i], p), first, p);
    }
  }

  /* ----- the interchange ----- */

  lemma NoSegments(u: Used)
    ensures Means(u, [], []) && Buffers(Refs([]), []) && Extends(u, u)
  {
  }

  lemma SegmentAdded(u: Used, rs: seq<SegmentRef>, ss: seq<Segment>, r: SegmentRef, s: Segment)
    requires Means(u, rs, ss) && MeansElements(u, r.elements, s.elements) && r.offset == s.offset
    ensures Means(u, rs + [r], ss + [s])
  {
    hide MeansElements;
    assert forall k: nat :: k < |rs| ==> MeansSegment(u, rs[k], ss[k]);
  }

  lemma BuffersJoin(rs: seq<SegmentRef>, r: SegmentRef, regions: seq<Region>, regions': seq<Region>)
    requires Buffers(Refs(rs), regions) && regions <= regions'
    requires Buffers(ElementsRefs(r.elements), regions'[|regions|..])
    ensures Buffers(Refs(rs + [r]), regions')
  {
    assert (rs + [r])[..|rs|] == rs;
    assert regions' == regions + regions'[|regions|..];
    assert Refs(rs + [r]) == Refs(rs) + ElementsRefs(r.elements);
  }

  /** One turn of the segment loop. */
  lemma OneSegment(msg: Value, i: nat, base: nat, segments: seq<Segment>, p: Params)
    requires i <= |msg|
    ensures var start := SkipNewlines(msg, i);
            start <= |msg| &&
            var (es, j) := ParseElements(msg, start, [], NoElement, p);
            j <= |msg| &&
            ParseSegments(msg, i, base, segments, p) ==
            (if start == |msg| then Parsed(segments, NoError)
             else if j == |msg| then Parsed(segments + [Segment(es, base + start)], Unterminated)
             else ParseSegments(msg, j + 1, base, segments + [Segment(es, base + start)], p))
  {
  }

  method SkipCrLf(msg: Value, i: nat) returns (j: nat)
    requires i <= |msg|
    ensures j == SkipNewlines(msg, i) && i <= j <= |msg|
  {
    j := i;
    while j < |msg| && (msg[j] == CR || msg[j] == LF)
      invariant i <= j <= |msg| && SkipNewlines(msg, j) == SkipNewlines(msg, i)
    {
      j := j + 1;
    }
  }

  /** The segments read so far and where their values are. */
  ghost predicate Holding(pool: Pool, segments: seq<SegmentRef>, done: seq<Segment>)
    reads pool, pool.stringpool
  {
    && pool.Valid()
    && Means(pool.used, segments, done) && Buffers(Refs(segments), pool.regions)
  }

  /** One segment is read and joins the others. */
  method ReadSegment(pool: Pool, msg: Value, start: nat, offset: nat, before: seq<SegmentRef>, p: Params,
                     ghost done: seq<Segment>)
    returns (segments: seq<SegmentRef>, j: nat)
    requires start <= |msg| && Holding(pool, before, done) && Ample(pool, |msg|, start)
    modifies pool, pool.stringpool
    ensures var r := ParseElements(msg, start, [], NoElement, p);
            j == r.1 && j <= |msg| && Holding(pool, segments, done + [Segment(r.0, offset)])
    ensures j < |msg| ==> Ample(pool, |msg|, j + 1)
    ensures |pool.stringpool| <= 2
    ensures forall b <- pool.stringpool :: b in old(pool.stringpool) || fresh(b)
  {
    hide Means, MeansElements, ParseElements, Buffers, Refs, ElementsRefs, Extends, Pool.Valid;
    ghost var was, regions := pool.used, pool.regions;
    var elements;
    elements, j := ReadElements(pool, msg, start, p);
    segments := before + [SegmentRef(elements, offset)];
    SegmentsStay(was, pool.used, before, done);
    SegmentAdded(pool.used, before, done, SegmentRef(elements, offset),
                 Segment(ParseElements(msg, start, [], NoElement, p).0, offset));
    BuffersJoin(before, SegmentRef(elements, offset), regions, pool.regions);
  }

  /**
   `edi_parser_parse`, behind the detection. The pointers it leaves mean the interchange
   that the message denotes, each value has a buffer of its own, and a message that is
   not cut off needs no pool but the first.
   */
  method ParseMessage(msg: Value, base: nat, p: Params) returns (pool: Pool, segments: seq<SegmentRef>, error: Error)
    ensures fresh(pool) && pool.Valid() && forall b <- pool.stringpool :: fresh(b)
    ensures var r := Parse(msg, base, p);
            error == r.error && Means(pool.used, segments, r.segments)
    ensures Buffers(Refs(segments), pool.regions) && AllApart(pool.regions)
    ensures |pool.stringpool| <= if error == Unterminated then 2 else 1
  {
    hide Means, MeansElements, ParseElements, ParseSegments, Buffers, Refs, ElementsRefs, AllApart, AllInUse,
         SkipNewlines, Pool.Valid;
    pool := new Pool();
    segments, error := [], NoError;
    NoSegments(pool.used);
    BuffersApart(pool);
    if |msg| == 0 {
      error := Empty;
      return;
    }
    var _ := pool.Get(|msg| + 1);
    NoSegments(pool.used);
    var i := 0;
    ghost var done: seq<Segment> := [];
    while i < |msg|
      invariant fresh(pool) && forall b <- pool.stringpool :: fresh(b)
      invariant i <= |msg| && Ample(pool, |msg|, i) && Holding(pool, segments, done)
      invariant ParseSegments(msg, i, base, done, p) == Parse(msg, base, p)
      invariant error == NoError
    {
      OneSegment(msg, i, base, done, p);
      i := SkipCrLf(msg, i);
      if i == |msg| {
        break;
      }
      ghost var es := ParseElements(msg, i, [], NoElement, p).0;
      ghost var offset := base + i;
      assert pool.stringpool[0] in pool.stringpool;
      assert pool.stringpool == [pool.stringpool[0]] && fresh(pool.stringpool[0]);
      segments, i := ReadSegment(pool, msg, i, base + i, segments, p, done);
      done := done + [Segment(es, offset)];
      if i == |msg| {
        error := Unterminated;
        break;
      }
      i := i + 1;
    }
    if error == NoError {
      NoMoreSegments(msg, base, done, p);
    }
    BuffersApart(pool);
  }

  lemma BuffersApart(pool: Pool)
    requires pool.Valid()
    ensures AllApart(pool.regions) && |pool.sp| == |pool.stringpool|
  {
  }

  lemma NoMoreSegments(msg: Value, base: nat, segments: seq<Segment>, p: Params)
    ensures ParseSegments(msg, |msg|, base, segments, p) == Parsed(segments, NoError)
  {
  }

  /* ----- the end of an interchange ----- */

  ghost predicate Owned(u: Used, p: Ptr) {
    p.block in u && p.at < |u[p.block]|
  }

  /** The blocks of the values that are not in a pool, in order. */
  ghost function Outside(u: Used, refs: seq<Ref>): seq<array<Byte>> {
    if refs == [] then []
    else
      var last := refs[|refs| - 1].ptr;
      Outside(u, refs[..|refs| - 1]) + if Owned(u, last) then [] else [last.block]
  }

  lemma {:induction false} OutsideSplits(u: Used, a: seq<Ref>, b: seq<Ref>)
    ensures Outside(u, a + b) == Outside(u, a) + Outside(u, b)
    decreases |b|
  {
    if b == [] {
      assert a + b == a;
    } else {
      var last := |b| - 1;
      OutsideSplits(u, a, b[..last]);
      assert (a + b)[..|a| + last] == a + b[..last];
    }
  }

  /** Every value that the parser stored is in a pool. */
  lemma {:induction false} NoneOutside(u: Used, refs: seq<Ref>, regions: seq<Region>)
    requires Buffers(refs, regions) && AllInUse(u, regions)
    ensures Outside(u, refs) == []
    decreases |refs|
  {
    if refs != [] {
      var last := |refs| - 1;
      assert InUse(u, regions[last]);
      assert AllInUse(u, regions[..last]);
      NoneOutside(u, refs[..last], regions[..last]);
    }
  }

  /** `edi__stringpool_free` for the values of one element; `freed` collects the calls of `free`. */
  method FreeElement(pool: Pool, e: ElementRef, before: seq<array<Byte>>) returns (freed: seq<array<Byte>>)
    requires pool.Valid()
    ensures freed == before + Outside(pool.used, RefsOf(e))
  {
    freed := before;
    match e
    case CompositeRef(values) =>
      var i := 0;
      while i < |values|
        invariant i <= |values| && freed == before + Outside(pool.used, values[..i])
      {
        var owned := pool.Owns(values[i].ptr);
        if !owned {
          freed := freed + [values[i].ptr.block];
        }
        assert values[..i + 1][..i] == values[..i];
        i := i + 1;
      }
      assert values[..i] == values;
    case SimpleRef(value) =>
      var owned := pool.Owns(value.ptr);
      if !owned {
        freed := freed + [value.ptr.block];
      }
  }

  method FreeElements(pool: Pool, elements: seq<ElementRef>, before: seq<array<Byte>>) returns (freed: seq<array<Byte>>)
    requires pool.Valid()
    ensures freed == before + Outside(pool.used, ElementsRefs(elements))
  {
    hide Pool.Valid, Outside, RefsOf;
    freed := before;
    OutsideNothing(pool.used);
    var d := 0;
    while d < |elements|
      invariant d <= |elements| && freed == before + Outside(pool.used, ElementsRefs(elements[..d]))
    {
      freed := FreeElement(pool, elements[d], freed);
      assert elements[..d + 1][..d] == elements[..d];
      OutsideSplits(pool.used, ElementsRefs(elements[..d]), RefsOf(elements[d]));
      d := d + 1;
    }
    assert elements[..d] == elements;
  }

  lemma OutsideNothing(u: Used)
    ensures Outside(u, []) == []
  {
  }

  method FreeSegments(pool: Pool, segments: seq<SegmentRef>) returns (freed: seq<array<Byte>>)
    requires pool.Valid()
    ensures freed == Outside(pool.used, Refs(segments))
  {
    hide Pool.Valid, Outside, ElementsRefs;
    freed := [];
    OutsideNothing(pool.used);
    var c := 0;
    while c < |segments|
      invariant c <= |segments| && freed == Outside(pool.used, Refs(segments[..c]))
    {
      freed := FreeElements(pool, segments[c].elements, freed);
      assert segments[..c + 1][..c] == segments[..c];
      OutsideSplits(pool.used, Refs(segments[..c]), ElementsRefs(segments[c].elements));
      c := c + 1;
    }
    assert segments[..c] == segments;
  }

  lemma PoolIsSound(pool: Pool)
    requires pool.Valid()
    ensures AllInUse(pool.used, pool.regions)
    ensures forall j: nat, k: nat :: j < k < |pool.stringpool| ==> pool.stringpool[j] != pool.stringpool[k]
  {
  }

  /**
   `edi_interchange_destroy` frees every block of the pools once and, besides, the values
   that lie outside the pools: for an interchange that the parser made, none.
   */
  method Destroy(pool: Pool, segments: seq<SegmentRef>) returns (freed: seq<array<Byte>>)
    requires pool.Valid()
    modifies pool
    ensures pool.Valid() && pool.stringpool == []
    ensures freed == old(Outside(pool.used, Refs(segments))) + old(pool.stringpool)
    ensures old(Buffers(Refs(segments), pool.regions)) ==>
              freed == old(pool.stringpool) && forall j: nat, k: nat :: j < k < |freed| ==> freed[j] != freed[k]
  {
    hide Buffers, AllInUse, AllApart, Outside, Refs, Pool.Valid;
    PoolIsSound(pool);
    if Buffers(Refs(segments), pool.regions) {
      NoneOutside(pool.used, Refs(segments), pool.regions);
    }
    freed := FreeSegments(pool, segments);
    ghost var outside := freed;
    var c := 0;
    while c < |pool.stringpool|
      invariant c <= |pool.stringpool| && freed == outside + pool.stringpool[..c]
    {
      freed := freed + [pool.stringpool[c]];
      c := c + 1;
    }
    assert pool.stringpool[..c] == pool.stringpool;
    pool.Reset();
  }
}
