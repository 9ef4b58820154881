/**
 The builder in place: it writes into a buffer of `buflen` bytes and one for the
 terminator, and what it writes is the text, cut off at the buffer's end.
 */
module EdiBuild {
  import opened EdiText
  import opened EdiDetect
  import opened EdiPrint

  function Trunc(t: Value, n: nat): (r: Value)
    ensures |r| <= n && |r| <= |t|
  {
    if |t| <= n then t else t[..n]
  }

  /** The buffer holds the text `t` as far as it fits. */
  ghost predicate Written(buf: Value, bufpos: nat, buflen: nat, t: Value) {
    bufpos <= buflen < |buf| && buf[..bufpos] == Trunc(t, buflen)
  }

  lemma WrittenMore(buf: Value, bufpos: nat, buflen: nat, t: Value, u: Value)
    requires Written(buf, bufpos, buflen, t) && bufpos == buflen
    ensures Written(buf, bufpos, buflen, t + u)
  {
    assert (t + u)[..buflen] == t[..buflen];
  }

  ghost predicate SameAfter(a: Value, b: Value, n: nat) {
    |a| == |b| && forall k: nat :: n < k < |a| ==> a[k] == b[k]
  }

  /** One byte more. */
  method Put(buf: array<Byte>, bufpos: nat, buflen: nat, b: Byte, ghost t: Value)
    requires bufpos < buflen && Written(buf[..], bufpos, buflen, t)
    modifies buf
    ensures Written(buf[..], bufpos + 1, buflen, t + [b])
    ensures SameAfter(old(buf[..]), buf[..], bufpos)
  {
    buf[bufpos] := b;
    assert buf[..bufpos] == old(buf[..])[..bufpos];
  }

  method Terminate(buf: array<Byte>, bufpos: nat, buflen: nat, ghost t: Value)
    requires Written(buf[..], bufpos, buflen, t)
    modifies buf
    ensures Written(buf[..], bufpos, buflen, t) && buf[bufpos] == 0
    ensures SameAfter(old(buf[..]), buf[..], bufpos)
  {
    buf[bufpos] := 0;
    assert buf[..bufpos] == old(buf[..])[..bufpos];
  }

  /** What remains to be written when `u` has been: nothing more once the buffer is full. */
  ghost predicate Remains(u: Value, rest: Value, full: Value, room: bool) {
    u <= full && (room ==> u + rest == full)
  }

  /** `addescaped` */
  method AddEscaped(buf: array<Byte>, start: nat, buflen: nat, value: Value, p: Params, ghost t: Value) returns (n: nat)
    requires Written(buf[..], start, buflen, t)
    modifies buf
    ensures start + n <= buflen < buf.Length && buf[start + n] == 0
    ensures Written(buf[..], start + n, buflen, t + Escape(value, p))
    ensures SameAfter(old(buf[..]), buf[..], start + n)
  {
    hide Trunc, Escape, IsSpecial;
    var bufpos, k := start, 0;
    ghost var u: Value, full: Value := t, t + Escape(value, p);
    assert value[0..] == value;
    EscapeNothing(p);
    while k < |value| && bufpos < buflen
      invariant k <= |value| && start <= bufpos
      invariant Written(buf[..], bufpos, buflen, u)
      invariant Remains(u, Escape(value[k..], p), full, bufpos < buflen)
      invariant SameAfter(old(buf[..]), buf[..], bufpos)
    {
      var c := value[k];
      EscapeNext(value, k, p, u);
      if IsSpecial(c, p) && p.escape != 0 {
        Put(buf, bufpos, buflen, p.escape, u);
        u := u + [p.escape];
        bufpos := bufpos + 1;
        if bufpos >= buflen { break; }
      }
      Put(buf, bufpos, buflen, c, u);
      u := u + [c];
      bufpos := bufpos + 1;
      k := k + 1;
      if bufpos >= buflen { break; }
    }
    if bufpos < buflen {
      assert value[k..] == [];
      assert u + [] == u;
    }
    CutOff(buf[..], bufpos, buflen, u, full);
    Terminate(buf, bufpos, buflen, full);
    n := bufpos - start;
  }

  lemma EscapeNothing(p: Params)
    ensures Escape([], p) == []
  {
  }

  lemma EscapeNext(value: Value, k: nat, p: Params, u: Value)
    requires k < |value|
    ensures var c := value[k];
            u + Escape(value[k..], p) ==
            if IsSpecial(c, p) && p.escape != 0 then u + [p.escape] + [c] + Escape(value[k + 1..], p)
            else u + [c] + Escape(value[k + 1..], p)
  {
    assert value[k..][1..] == value[k + 1..];
  }

  /** A full buffer holds the beginning of every continuation of the text. */
  lemma CutOff(buf: Value, bufpos: nat, buflen: nat, u: Value, full: Value)
    requires Written(buf, bufpos, buflen, u)
    requires u == full || (bufpos == buflen && u <= full)
    ensures Written(buf, bufpos, buflen, full)
  {
    if u != full {
      assert full == u + full[|u|..];
      WrittenMore(buf, bufpos, buflen, u, full[|u|..]);
    }
  }

  /** `addhdrtrailer` */
  method AddHdrTrailer(buf: array<Byte>, start: nat, buflen: nat, format: Value, p: Params, ghost t: Value)
    returns (n: nat)
    requires PlainFormat(format)
    requires Written(buf[..], start, buflen, t)
    modifies buf
    ensures start + n <= buflen < buf.Length && buf[start + n] == 0
    ensures Written(buf[..], start + n, buflen, t + Expand(format, p))
    ensures SameAfter(old(buf[..]), buf[..], start + n)
  {
    hide Trunc, PlainFormat, Expand;
    var bufpos, k := start, 0;
    ghost var u: Value, full: Value := t, t + Expand(format, p);
    assert format[0..] == format;
    ExpandNothing(p);
    while k < |format| && bufpos < buflen
      invariant k <= |format| && start <= bufpos
      invariant PlainFormat(format[k..])
      invariant Written(buf[..], bufpos, buflen, u)
      invariant Remains(u, Expand(format[k..], p), full, bufpos < buflen)
      invariant SameAfter(old(buf[..]), buf[..], bufpos)
    {
      ExpandNext(format, k, p, u);
      var c := format[k];
      if c == PERCENT {
        k := k + 1;
        c := format[k];
        match c
        case 0x53 => c := p.seg;
        case 0x45 => c := p.data;
        case 0x73 => c := p.sub;
        case 0x54 => c := p.tag;
        case 0x52 => c := p.escape;
        case _ =>
          Put(buf, bufpos, buflen, PERCENT, u);
          u := u + [PERCENT];
          bufpos := bufpos + 1;
          if bufpos >= buflen { break; }
      }
      Put(buf, bufpos, buflen, c, u);
      u := u + [c];
      bufpos := bufpos + 1;
      k := k + 1;
    }
    if bufpos < buflen {
      assert format[k..] == [];
      assert u + [] == u;
    }
    CutOff(buf[..], bufpos, buflen, u, full);
    Terminate(buf, bufpos, buflen, full);
    n := bufpos - start;
  }

  lemma ExpandNothing(p: Params)
    ensures PlainFormat([]) && Expand([], p) == []
  {
  }

  lemma ExpandNext(format: Value, k: nat, p: Params, u: Value)
    requires k < |format| && PlainFormat(format[k..])
    ensures format[k] != PERCENT ==>
              PlainFormat(format[k + 1..]) && u + Expand(format[k..], p) == u + [format[k]] + Expand(format[k + 1..], p)
    ensures format[k] == PERCENT ==>
              k + 1 < |format| && PlainFormat(format[k + 2..])
              && var d := Directive(format[k + 1], p);
              u + Expand(format[k..], p) ==
              if |d| == 1 then u + [d[0]] + Expand(format[k + 2..], p)
              else u + [PERCENT] + [format[k + 1]] + Expand(format[k + 2..], p)
  {
    assert format[k..][1..] == format[k + 1..];
    if format[k] == PERCENT {
      assert format[k..][2..] == format[k + 2..];
    }
  }

  /* ----- elements, segments, the interchange ----- */

  lemma ValuesNext(vs: seq<Value>, i: nat, p: Params, u: Value)
    requires i < |vs|
    ensures u + PrintValues(vs[i..], p) ==
            if i + 1 < |vs| then u + Escape(vs[i], p) + [p.sub] + PrintValues(vs[i + 1..], p) else u + Escape(vs[i], p)
  {
    assert vs[i..][1..] == vs[i + 1..];
  }

  lemma ElementsNext(es: Elements, d: nat, p: Params, u: Value)
    requires d < |es|
    ensures u + PrintElements(es[d..], d == 0, p) ==
            if d + 1 < |es| then
              u + PrintElement(es[d], p) + [if d == 0 then p.tag else p.data] + PrintElements(es[d + 1..], false, p)
            else u + PrintElement(es[d], p)
  {
    hide PrintElement;
    assert es[d..][1..] == es[d + 1..];
  }

  lemma NothingToPrint(p: Params)
    ensures PrintValues([], p) == [] && PrintElements([], true, p) == [] && PrintElements([], false, p) == []
            && Print([], p) == []
  {
  }

  lemma RemainsAll(u: Value, full: Value)
    requires Remains(u, [], full, true)
    ensures u == full
  {
    assert u + [] == u;
  }

  lemma Assoc(a: Value, b: Value, c: Value, full: Value)
    requires full == a + b + c
    ensures a + b <= full && a <= full
  {
    assert full[..|a|] == a;
  }

  /** The loop over the values of a composite. */
  method AddComposite(buf: array<Byte>, start: nat, buflen: nat, vs: seq<Value>, p: Params, ghost t: Value)
    returns (n: nat)
    requires Written(buf[..], start, buflen, t)
    modifies buf
    ensures start + n <= buflen < buf.Length
    ensures Written(buf[..], start + n, buflen, t + PrintValues(vs, p))
    ensures SameAfter(old(buf[..]), buf[..], start + n)
  {
    hide Trunc, Escape, PrintValues;
    var bufpos, i := start, 0;
    ghost var u: Value, full: Value := t, t + PrintValues(vs, p);
    assert vs[0..] == vs;
    NothingToPrint(p);
    while i < |vs|
      invariant i <= |vs| && start <= bufpos && (i > 0 && i < |vs| ==> bufpos < buflen)
      invariant Written(buf[..], bufpos, buflen, u)
      invariant Remains(u, PrintValues(vs[i..], p), full, true)
      invariant SameAfter(old(buf[..]), buf[..], bufpos)
    {
      ValuesNext(vs, i, p, u);
      var n := AddEscaped(buf, bufpos, buflen, vs[i], p, u);
      bufpos := bufpos + n;
      u := u + Escape(vs[i], p);
      if bufpos >= buflen { break; }
      if i + 1 < |vs| {
        Put(buf, bufpos, buflen, p.sub, u);
        u := u + [p.sub];
        bufpos := bufpos + 1;
        if bufpos >= buflen { break; }
      } else {
        assert vs[i + 1..] == [];
        assert u + [] == u;
      }
      i := i + 1;
    }
    if i == |vs| {
      assert vs[i..] == [];
      RemainsAll(u, full);
    }
    CutOff(buf[..], bufpos, buflen, u, full);
    n := bufpos - start;
  }

  method AddElement(buf: array<Byte>, start: nat, buflen: nat, e: Element, p: Params, ghost t: Value) returns (n: nat)
    requires Written(buf[..], start, buflen, t)
    modifies buf
    ensures start + n <= buflen < buf.Length
    ensures Written(buf[..], start + n, buflen, t + PrintElement(e, p))
    ensures SameAfter(old(buf[..]), buf[..], start + n)
  {
    match e
    case Simple(value) => n := AddEscaped(buf, start, buflen, value, p, t);
    case Composite(vs) => n := AddComposite(buf, start, buflen, vs, p, t);
  }

  /** What is printed before the first element of the interchange. */
  function Preamble(es: Elements, h: Header, p: Params): Value
    requires h.Header? ==> PlainFormat(h.trailer)
  {
    if h.NoHeader? || es == [] || es[0].Composite? || es[0].value == h.name then []
    else Escape(h.name, p) + Expand(h.trailer, p)
  }

  function Ending(es: Elements, h: Header, p: Params): Value
    requires h.Header? ==> PlainFormat(h.trailer)
  {
    if h.NoHeader? || es == [] || es[0].Composite? || es[0].value != h.name then [p.seg] else Expand(h.trailer, p)
  }

  /** The header before the first element; `own` says that the interchange brings its own. */
  method AddPreamble(buf: array<Byte>, start: nat, buflen: nat, es: Elements, h: Header, p: Params, ghost t: Value)
    returns (n: nat, own: bool)
    requires h.Header? ==> PlainFormat(h.trailer)
    requires Written(buf[..], start, buflen, t)
    modifies buf
    ensures start + n <= buflen < buf.Length
    ensures Written(buf[..], start + n, buflen, t + Preamble(es, h, p))
    ensures SameAfter(old(buf[..]), buf[..], start + n)
    ensures own == OwnHeader(es, h)
  {
    hide Trunc, Escape, PlainFormat, Expand;
    own := false;
    n := 0;
    assert t + [] == t;
    if h.Header? && es != [] && es[0].Simple? {
      if h.name == es[0].value {
        own := true;
      } else {
        assert t + Escape(h.name, p) + Expand(h.trailer, p) == t + Preamble(es, h, p);
        n := AddEscaped(buf, start, buflen, h.name, p, t);
        if start + n >= buflen {
          Assoc(t, Escape(h.name, p), Expand(h.trailer, p), t + Preamble(es, h, p));
          CutOff(buf[..], start + n, buflen, t + Escape(h.name, p), t + Preamble(es, h, p));
          return;
        }
        var k := AddHdrTrailer(buf, start + n, buflen, h.trailer, p, t + Escape(h.name, p));
        n := n + k;
      }
    }
  }

  /** The loop over the elements of a segment. */
  method AddElements(buf: array<Byte>, start: nat, buflen: nat, es: Elements, p: Params, ghost t: Value)
    returns (n: nat)
    requires Written(buf[..], start, buflen, t)
    modifies buf
    ensures start + n <= buflen < buf.Length
    ensures Written(buf[..], start + n, buflen, t + PrintElements(es, true, p))
    ensures SameAfter(old(buf[..]), buf[..], start + n)
  {
    hide Trunc, Escape, PrintElements, PrintElement;
    var bufpos, d := start, 0;
    ghost var u: Value, full: Value := t, t + PrintElements(es, true, p);
    assert es[0..] == es;
    NothingToPrint(p);
    while d < |es|
      invariant d <= |es| && start <= bufpos
      invariant Written(buf[..], bufpos, buflen, u)
      invariant Remains(u, PrintElements(es[d..], d == 0, p), full, true)
      invariant SameAfter(old(buf[..]), buf[..], bufpos)
    {
      ElementsNext(es, d, p, u);
      var n := AddElement(buf, bufpos, buflen, es[d], p, u);
      bufpos := bufpos + n;
      u := u + PrintElement(es[d], p);
      if bufpos >= buflen { break; }
      if d + 1 < |es| {
        var sep: Byte := if d == 0 then p.tag else p.data;
        Put(buf, bufpos, buflen, sep, u);
        u := u + [sep];
        bufpos := bufpos + 1;
      } else {
        assert es[d + 1..] == [];
        assert u + [] == u;
      }
      d := d + 1;
      if bufpos >= buflen { break; }
    }
    if d == |es| {
      assert es[d..] == [];
    }
    if Remains(u, [], full, true) {
      RemainsAll(u, full);
    }
    CutOff(buf[..], bufpos, buflen, u, full);
    n := bufpos - start;
  }

  function SegmentText(es: Elements, h: Header, p: Params): Value
    requires h.Header? ==> PlainFormat(h.trailer)
  {
    Preamble(es, h, p) + PrintElements(es, true, p) + Ending(es, h, p)
  }

  /** One turn of the loop over the segments; `h` is there for the first one only. */
  method AddSegment(buf: array<Byte>, start: nat, buflen: nat, es: Elements, h: Header, p: Params, ghost t: Value)
    returns (n: nat)
    requires h.Header? ==> PlainFormat(h.trailer)
    requires Written(buf[..], start, buflen, t)
    modifies buf
    ensures start + n <= buflen < buf.Length
    ensures Written(buf[..], start + n, buflen, t + SegmentText(es, h, p))
    ensures SameAfter(old(buf[..]), buf[..], start + n)
  {
    hide Trunc, PrintElements, PlainFormat, Expand, Preamble, Ending;
    ghost var full := t + SegmentText(es, h, p);
    ghost var u: Value := t + Preamble(es, h, p);
    ghost var w: Value := u + PrintElements(es, true, p);
    assert full == w + Ending(es, h, p);
    assert full == u + (PrintElements(es, true, p) + Ending(es, h, p));
    var own;
    n, own := AddPreamble(buf, start, buflen, es, h, p, t);
    if start + n >= buflen {
      Assoc(u, PrintElements(es, true, p), Ending(es, h, p), full);
      CutOff(buf[..], start + n, buflen, u, full);
      return;
    }
    var k := AddElements(buf, start + n, buflen, es, p, u);
    n := n + k;
    if start + n >= buflen {
      Assoc(u, PrintElements(es, true, p), Ending(es, h, p), full);
      CutOff(buf[..], start + n, buflen, w, full);
      return;
    }
    EndingIs(es, h, p);
    if own {
      k := AddHdrTrailer(buf, start + n, buflen, h.trailer, p, w);
      n := n + k;
    } else {
      Put(buf, start + n, buflen, p.seg, w);
      n := n + 1;
    }
  }

  predicate OwnHeader(es: Elements, h: Header) {
    h.Header? && es != [] && es[0] == Simple(h.name)
  }

  lemma EndingIs(es: Elements, h: Header, p: Params)
    requires h.Header? ==> PlainFormat(h.trailer)
    ensures Ending(es, h, p) == if OwnHeader(es, h) then Expand(h.trailer, p) else [p.seg]
  {
  }

  lemma PrintWithBySegment(m: seq<Elements>, h: Header, p: Params)
    requires h.Header? ==> PlainFormat(h.trailer)
    requires m != []
    ensures PrintWith(m, h, p) == SegmentText(m[0], h, p) + Print(m[1..], p)
  {
    hide Escape, Expand, PlainFormat, PrintElements;
  }

  /** The header for the segment `c`. */
  function HeaderFor(h: Header, c: nat): Header {
    if c == 0 then h else NoHeader
  }

  /** The text of the segments from `c` on. */
  function Todo(m: seq<Elements>, c: nat, h: Header, p: Params): Value
    requires c <= |m|
    requires h.Header? ==> PlainFormat(h.trailer)
  {
    if c == 0 then PrintWith(m, h, p) else Print(m[c..], p)
  }

  lemma NothingLeft(m: seq<Elements>, h: Header, p: Params)
    requires h.Header? ==> PlainFormat(h.trailer)
    ensures Todo(m, |m|, h, p) == []
  {
    if m != [] {
      assert m[|m|..] == [];
    }
  }

  lemma NextSegment(m: seq<Elements>, c: nat, h: Header, p: Params)
    requires c < |m|
    requires h.Header? ==> PlainFormat(h.trailer)
    ensures Todo(m, c, h, p) == SegmentText(m[c], HeaderFor(h, c), p) + Todo(m, c + 1, h, p)
  {
    if c == 0 {
      PrintWithBySegment(m, h, p);
    } else {
      assert m[c..][1..] == m[c + 1..];
      assert SegmentText(m[c], NoHeader, p) == PrintElements(m[c], true, p) + [p.seg];
    }
  }

  lemma RemainsNext(u: Value, piece: Value, rest: Value, full: Value)
    requires Remains(u, piece + rest, full, true)
    ensures Remains(u + piece, rest, full, true)
  {
    assert u + (piece + rest) == (u + piece) + rest;
  }

  /**
   `edi_interchange_build`: whatever room the buffer has, it gets the beginning of the
   text that an unlimited buffer would get and a terminator, and nothing behind the
   terminator changes.
   */
  method Build(buf: array<Byte>, buflen: nat, m: seq<Elements>, h: Header, p: Params) returns (n: nat)
    requires buflen < buf.Length
    requires h.Header? ==> PlainFormat(h.trailer)
    requires h.Header? && m != [] && m[0] != [] ==> m[0][0].Simple?
    modifies buf
    ensures var full := PrintWith(m, h, p);
            n == (if |full| <= buflen then |full| else buflen) && buf[..n] == full[..n]
    ensures h.NoHeader? ==> n == if TextSize(m, p) <= buflen then TextSize(m, p) else buflen
    ensures buf[n] == 0
    ensures forall k :: n < k < buf.Length ==> buf[k] == old(buf[k])
  {
    hide PrintWith, SegmentText, Print, PlainFormat, Expand, Trunc, Remains, Todo;
    var bufpos: nat, c: nat := 0, 0;
    ghost var u: Value, full: Value := [], PrintWith(m, h, p);
    AtTheStart(m, h, p, buf[..], buflen);
    while c < |m|
      invariant c <= |m|
      invariant Written(buf[..], bufpos, buflen, u)
      invariant Remains(u, Todo(m, c, h, p), full, true)
      invariant SameAfter(old(buf[..]), buf[..], bufpos)
    {
      NextSegment(m, c, h, p);
      var k := AddSegment(buf, bufpos, buflen, m[c], HeaderFor(h, c), p, u);
      bufpos := bufpos + k;
      RemainsNext(u, SegmentText(m[c], HeaderFor(h, c), p), Todo(m, c + 1, h, p), full);
      u := u + SegmentText(m[c], HeaderFor(h, c), p);
      c := c + 1;
      if bufpos >= buflen { break; }
    }
    AtTheEnd(m, c, h, p, u, full);
    CutOff(buf[..], bufpos, buflen, u, full);
    Terminate(buf, bufpos, buflen, full);
    n := bufpos;
    LengthWritten(buf[..], n, buflen, full);
    TextWithoutHeader(m, h, p);
  }

  lemma TextWithoutHeader(m: seq<Elements>, h: Header, p: Params)
    requires h.Header? ==> PlainFormat(h.trailer)
    ensures h.NoHeader? ==> |PrintWith(m, h, p)| == TextSize(m, p)
  {
    TextLength(m, p);
  }

  lemma AtTheStart(m: seq<Elements>, h: Header, p: Params, buf: Value, buflen: nat)
    requires h.Header? ==> PlainFormat(h.trailer)
    requires buflen < |buf|
    ensures Remains([], Todo(m, 0, h, p), PrintWith(m, h, p), true)
    ensures Written(buf, 0, buflen, [])
  {
    assert [] + PrintWith(m, h, p) == PrintWith(m, h, p);
  }

  lemma AtTheEnd(m: seq<Elements>, c: nat, h: Header, p: Params, u: Value, full: Value)
    requires c <= |m|
    requires h.Header? ==> PlainFormat(h.trailer)
    requires Remains(u, Todo(m, c, h, p), full, true)
    ensures u <= full && (c == |m| ==> u == full)
  {
    if c == |m| {
      NothingLeft(m, h, p);
      RemainsAll(u, full);
    }
  }

  lemma LengthWritten(buf: Value, n: nat, buflen: nat, full: Value)
    requires Written(buf, n, buflen, full)
    ensures n == (if |full| <= buflen then |full| else buflen) && buf[..n] == full[..n]
  {
    assert |buf[..n]| == n;
  }
}
