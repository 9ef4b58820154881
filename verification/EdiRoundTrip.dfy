/**
 Parsing undoes printing.  For every interchange and all admissible separators, parsing
 the printed text gives the interchange's normal form; so the round trip is exact
 precisely for interchanges that are their own normal form.
 */
module EdiRoundTrip {
  import opened EdiText

  /** Separators an interchange can be told apart with; the tag separator may be the
      element separator. */
  predicate Admissible(p: Params) {
    && 0 < p.seg < 128 && 0 < p.data < 128 && 0 < p.sub < 128 && 0 < p.tag < 128 && p.escape < 128
    && p.seg != p.data && p.seg != p.sub && p.data != p.sub && p.tag != p.seg && p.tag != p.sub
    && p.escape !in {p.seg, p.data, p.sub, p.tag}
    && {CR, LF} !! {p.seg, p.data, p.sub, p.tag, p.escape}
  }

  /** A value without an escape character can only be written when nothing in it ends it. */
  predicate Writable(v: Value, first: bool, p: Params) {
    p.escape != 0 || forall k: nat :: k < |v| ==> !Stops(v[k], first, p)
  }

  predicate WritableElement(e: Element, first: bool, p: Params) {
    match e
    case Simple(v) => Writable(v, first, p)
    case Composite(vs) => forall k: nat :: k < |vs| ==> Writable(vs[k], first, p)
  }

  predicate WritableElements(es: Elements, first: bool, p: Params) {
    forall k: nat :: k < |es| ==> WritableElement(es[k], first && k == 0, p)
  }

  /* ----- the normal form ----- */

  /** An element is read as composite only when it holds at least two values. */
  function Canon(e: Element): Element {
    match e
    case Simple(_) => e
    case Composite(vs) => if vs == [] then Simple([]) else if |vs| == 1 then Simple(vs[0]) else e
  }

  function CanonAll(es: Elements): (r: Elements)
    ensures |r| == |es|
  {
    seq(|es|, i requires 0 <= i < |es| => Canon(es[i]))
  }

  /** An empty last value is dropped, with its element if it is alone in it. */
  function DropEmptyEnd(es: Elements): Elements {
    if es == [] then es
    else
      var init, last := es[..|es| - 1], es[|es| - 1];
      match last
      case Simple(v) => if v == [] then init else es
      case Composite(vs) =>
        if vs != [] && vs[|vs| - 1] == [] then init + [Composite(vs[..|vs| - 1])] else es
  }

  /** How many characters at the start of a value are taken for line ends. */
  function Newlines(v: Value): (n: nat)
    ensures n <= |v|
  {
    if v != [] && (v[0] == CR || v[0] == LF) then 1 + Newlines(v[1..]) else 0
  }

  function FirstValue(e: Element): Value {
    match e case Simple(v) => v case Composite(vs) => if vs == [] then [] else vs[0]
  }

  function SkipInFirst(es: Elements): nat {
    if es == [] then 0 else Newlines(FirstValue(es[0]))
  }

  function StripElement(e: Element): Element {
    match e
    case Simple(v) => Simple(v[Newlines(v)..])
    case Composite(vs) => if vs == [] then e else Composite(vs[0 := vs[0][Newlines(vs[0])..]])
  }

  function StripFirst(es: Elements): (r: Elements)
    ensures |r| == |es|
  {
    if es == [] then es else es[0 := StripElement(es[0])]
  }

  function Norm(es: Elements): Elements {
    DropEmptyEnd(CanonAll(StripFirst(es)))
  }

  /** The normal form of an interchange whose text begins at `at`. */
  function NormAll(m: seq<Elements>, at: nat, p: Params): seq<Segment> {
    if m == [] then []
    else [Segment(Norm(m[0]), at + SkipInFirst(m[0]))] + NormAll(m[1..], at + |PrintSegment(m[0], p)|, p)
  }

  /* ----- values ----- */

  /** `text` stands in `msg` at `i`. */
  ghost predicate At(msg: Value, i: nat, text: Value) {
    i + |text| <= |msg| && msg[i..i + |text|] == text
  }

  lemma AtSplit(msg: Value, i: nat, a: Value, b: Value)
    ensures At(msg, i, a + b) <==> At(msg, i, a) && At(msg, i + |a|, b)
  {
    if At(msg, i, a + b) {
      assert a == (a + b)[..|a|] && b == (a + b)[|a|..];
    }
    if At(msg, i, a) && At(msg, i + |a|, b) {
      assert msg[i..i + |a + b|] == msg[i..i + |a|] + msg[i + |a|..i + |a| + |b|];
    }
  }

  function EscapeOf(b: Byte, p: Params): Value {
    if p.escape != 0 && IsSpecial(b, p) then [p.escape] else []
  }

  lemma EscapeCons(v: Value, p: Params)
    requires v != []
    ensures Escape(v, p) == EscapeOf(v[0], p) + ([v[0]] + Escape(v[1..], p))
  {
    hide IsSpecial;
    Associate(EscapeOf(v[0], p), [v[0]], Escape(v[1..], p));
  }

  lemma AtOne(msg: Value, i: nat, b: Byte)
    requires At(msg, i, [b])
    ensures i < |msg| && msg[i] == b
  {
    assert msg[i..i + 1] == [b];
    assert msg[i] == msg[i..i + 1][0];
  }

  /** One character of a printed value, with its escape character if it has one. */
  lemma ScanOne(msg: Value, i: nat, b: Byte, first: bool, p: Params)
    requires Admissible(p) && (p.escape != 0 || !Stops(b, first, p))
    requires At(msg, i, EscapeOf(b, p)) && At(msg, i + |EscapeOf(b, p)|, [b])
    ensures i + |EscapeOf(b, p)| + 1 <= |msg|
    ensures Scan(msg, i, false, first, p) == Scan(msg, i + |EscapeOf(b, p)| + 1, false, first, p)
  {
    var n := |EscapeOf(b, p)|;
    AtOne(msg, i + n, b);
    if n == 1 {
      AtOne(msg, i, p.escape);
    }
  }

  /** The scanner stops at exactly the first separator after a printed value. */
  lemma {:induction false} ScanEscaped(msg: Value, i: nat, v: Value, first: bool, p: Params)
    requires Admissible(p) && Writable(v, first, p)
    requires At(msg, i, Escape(v, p))
    requires var j := i + |Escape(v, p)|; j < |msg| && Stops(msg[j], first, p)
    ensures Scan(msg, i, false, first, p) == i + |Escape(v, p)|
    decreases |v|
  {
    if v == [] {
      StopsHere(msg, i, first, p);
    } else {
      WritableFirst(v, first, p);
      hide Admissible, Stops, Scan, At, Escape, IsSpecial, EscapeOf, Writable;
      EscapeCons(v, p);
      var esc, rest := EscapeOf(v[0], p), Escape(v[1..], p);
      AtSplit(msg, i, esc, [v[0]] + rest);
      AtSplit(msg, i + |esc|, [v[0]], rest);
      ScanOne(msg, i, v[0], first, p);
      ScanEscaped(msg, i + |esc| + 1, v[1..], first, p);
    }
  }

  lemma StopsHere(msg: Value, i: nat, first: bool, p: Params)
    requires Admissible(p) && i < |msg| && Stops(msg[i], first, p)
    ensures Scan(msg, i, false, first, p) == i && Escape([], p) == []
  {
  }

  lemma WritableFirst(v: Value, first: bool, p: Params)
    requires Writable(v, first, p) && v != []
    ensures (p.escape != 0 || !Stops(v[0], first, p)) && Writable(v[1..], first, p)
  {
    if p.escape == 0 {
      forall k: nat | k < |v| - 1 ensures !Stops(v[1..][k], first, p) {
        assert v[1..][k] == v[k + 1];
      }
    }
  }

  /** Removing the escape characters undoes adding them. */
  lemma {:induction false} UnescapeEscape(v: Value, p: Params)
    requires Admissible(p)
    ensures Unescape(Escape(v, p), false, p) == v
    decreases |v|
  {
    if v != [] {
      UnescapeEscape(v[1..], p);
      var esc := if p.escape != 0 && IsSpecial(v[0], p) then [p.escape] else [];
      var rest := Escape(v[1..], p);
      assert Escape(v, p) == esc + ([v[0]] + rest);
      assert ([v[0]] + rest)[1..] == rest;
      if esc != [] {
        assert (esc + ([v[0]] + rest))[1..] == [v[0]] + rest;
      } else {
        assert esc + ([v[0]] + rest) == [v[0]] + rest;
      }
    }
  }

  /** One printed value and the separator after it. */
  lemma ReadValue(msg: Value, i: nat, v: Value, c: Byte, first: bool, p: Params)
    requires Admissible(p) && Writable(v, first, p) && Stops(c, first, p)
    requires At(msg, i, Escape(v, p) + [c])
    ensures var j := i + |Escape(v, p)|;
            && j < |msg| && Scan(msg, i, false, first, p) == j && msg[j] == c
            && Unescape(msg[i..j], false, p) == v
  {
    AtSplit(msg, i, Escape(v, p), [c]);
    var j := i + |Escape(v, p)|;
    assert msg[j] == c by { assert [c] == msg[j..j + 1]; }
    ScanEscaped(msg, i, v, first, p);
    UnescapeEscape(v, p);
  }

  /** A printed value that is not empty does not begin with a separator. */
  lemma EscapeStart(v: Value, first: bool, p: Params)
    requires Admissible(p) && Writable(v, first, p) && v != []
    ensures Escape(v, p) != [] && !Is(Escape(v, p)[0], p.seg)
    ensures Escape(v, p)[0] == v[0] || Escape(v, p)[0] == p.escape != 0
    ensures v[0] == CR || v[0] == LF ==> Escape(v, p) == [v[0]] + Escape(v[1..], p)
  {
    assert [] + [v[0]] + Escape(v[1..], p) == [v[0]] + Escape(v[1..], p);
  }

  function Separator(first: bool, p: Params): Byte {
    if first then p.tag else p.data
  }

  /** What the element loop sees of a printed value. */
  lemma ReadFacts(msg: Value, i: nat, v: Value, c: Byte, first: bool, p: Params)
    requires Admissible(p) && Writable(v, first, p) && Stops(c, first, p)
    requires At(msg, i, Escape(v, p) + [c])
    ensures i < |msg| && (Is(msg[i], p.seg) <==> v == [] && Is(c, p.seg))
    ensures var j := i + |Escape(v, p)|;
            j < |msg| && Scan(msg, i, false, first, p) == j && msg[j] == c && Unescape(msg[i..j], false, p) == v
  {
    hide Escape, Unescape, Scan, Admissible, At, Writable, Is, Stops;
    ReadValue(msg, i, v, c, first, p);
    NotAtEnd(msg, i, v, c, first, p);
  }

  lemma NoEscape(p: Params)
    ensures Escape([], p) == []
  {
  }

  lemma ParseStops(msg: Value, i: nat, es: Elements, open: Open, p: Params)
    requires i < |msg| && Is(msg[i], p.seg)
    ensures ParseElements(msg, i, es, open, p) == (Closed(es, open), i)
  {
  }

  /** One turn of the element loop. */
  lemma ParseTurn(msg: Value, i: nat, es: Elements, open: Open, p: Params)
    requires i < |msg| && !Is(msg[i], p.seg)
    ensures var j := Scan(msg, i, false, es == [], p);
            j < |msg| ==>
              var c := msg[j];
              var el := Finish(open, Unescape(msg[i..j], false, p), Is(c, p.sub));
              ParseElements(msg, i, es, open, p) ==
              if Is(c, p.seg) then (es + [el], j)
              else if Is(c, p.data) || Is(c, p.tag) then ParseElements(msg, j + 1, es + [el], NoElement, p)
              else ParseElements(msg, j + 1, es, Values(if el.Simple? then [el.value] else el.values), p)
  {
    hide Is, Unescape, Scan;
  }

  /** The values of a composite that goes on behind `v`. */
  function OpenWith(open: Open, v: Value): Open {
    Values(match open case NoElement => [v] case Values(vs) => vs + [v])
  }

  /** A value that is the last of its segment. */
  lemma ReadLast(msg: Value, i: nat, es: Elements, open: Open, v: Value, p: Params)
    requires Admissible(p) && Writable(v, es == [], p) && At(msg, i, Escape(v, p) + [p.seg])
    ensures i + |Escape(v, p)| < |msg|
    ensures ParseElements(msg, i, es, open, p) ==
            (if v == [] then Closed(es, open) else es + [Finish(open, v, false)], i + |Escape(v, p)|)
  {
    SeparatorsDiffer(p.seg, es == [], p);
    hide Escape, Unescape, Scan, Admissible, At, Writable, Is, Stops, ParseElements, Closed, Separator;
    ReadFacts(msg, i, v, p.seg, es == [], p);
    if v == [] {
      NoEscape(p);
      ParseStops(msg, i, es, open, p);
    } else {
      ParseTurn(msg, i, es, open, p);
    }
  }

  /** A value with another one of the same composite behind it. */
  lemma ReadSub(msg: Value, i: nat, es: Elements, open: Open, v: Value, p: Params)
    requires Admissible(p) && Writable(v, es == [], p) && At(msg, i, Escape(v, p) + [p.sub])
    ensures i + |Escape(v, p)| < |msg|
    ensures ParseElements(msg, i, es, open, p) == ParseElements(msg, i + |Escape(v, p)| + 1, es, OpenWith(open, v), p)
  {
    SeparatorsDiffer(p.sub, es == [], p);
    hide Escape, Unescape, Scan, Admissible, At, Writable, Is, Stops, ParseElements, Closed, Separator;
    ReadFacts(msg, i, v, p.sub, es == [], p);
    ParseTurn(msg, i, es, open, p);
  }

  /** A value that is the last of its element. */
  lemma ReadNext(msg: Value, i: nat, es: Elements, open: Open, v: Value, p: Params)
    requires Admissible(p) && Writable(v, es == [], p) && At(msg, i, Escape(v, p) + [Separator(es == [], p)])
    ensures i + |Escape(v, p)| < |msg|
    ensures ParseElements(msg, i, es, open, p) ==
            ParseElements(msg, i + |Escape(v, p)| + 1, es + [Finish(open, v, false)], NoElement, p)
  {
    SeparatorsDiffer(Separator(es == [], p), es == [], p);
    hide Escape, Unescape, Scan, Admissible, At, Writable, Is, Stops, ParseElements, Closed, Separator;
    ReadFacts(msg, i, v, Separator(es == [], p), es == [], p);
    ParseTurn(msg, i, es, open, p);
  }

  lemma SeparatorsDiffer(c: Byte, first: bool, p: Params)
    requires Admissible(p) && (c == p.seg || c == p.sub || c == Separator(first, p))
    ensures Stops(c, first, p) && p.seg != p.sub && Separator(first, p) != p.seg && Separator(first, p) != p.sub
    ensures (Is(c, p.seg) <==> c == p.seg) && (Is(c, p.sub) <==> c == p.sub)
    ensures Is(c, p.data) || Is(c, p.tag) <==> c != p.seg && c != p.sub
  {
  }

  lemma NotAtEnd(msg: Value, i: nat, v: Value, c: Byte, first: bool, p: Params)
    requires Admissible(p) && Writable(v, first, p)
    requires At(msg, i, Escape(v, p) + [c])
    ensures i < |msg| && (Is(msg[i], p.seg) <==> v == [] && Is(c, p.seg))
  {
    AtSplit(msg, i, Escape(v, p), [c]);
    if v != [] {
      EscapeStart(v, first, p);
      assert msg[i] == Escape(v, p)[0];
    } else {
      assert [c] == msg[i..i + 1];
    }
  }

  lemma ValuesSplit(vs: seq<Value>, c: Byte, p: Params)
    requires vs != []
    ensures PrintValues(vs, p) + [c] ==
            if |vs| == 1 then Escape(vs[0], p) + [c]
            else (Escape(vs[0], p) + [p.sub]) + (PrintValues(vs[1..], p) + [c])
  {
    hide Escape;
    if |vs| > 1 {
      Regroup(Escape(vs[0], p), [p.sub], PrintValues(vs[1..], p), [c]);
    } else {
      assert Escape(vs[0], p) + [] == Escape(vs[0], p);
    }
  }

  /** The values of a composite from one of them on, `done` being read already, up to the
      separator `c` after the last. */
  lemma {:induction false} ParseComposite(msg: Value, i: nat, es: Elements, done: seq<Value>, vs: seq<Value>,
                                          c: Byte, p: Params)
    requires Admissible(p) && vs != [] && |done| + |vs| >= 2
    requires WritableElement(Composite(vs), es == [], p)
    requires c == p.seg || c == Separator(es == [], p)
    requires At(msg, i, PrintValues(vs, p) + [c])
    ensures var r := ParseElements(msg, i, es, if done == [] then NoElement else Values(done), p);
            var j := i + |PrintValues(vs, p)|;
            if c == p.seg then r == (es + DropEmptyEnd([Composite(done + vs)]), j)
            else j < |msg| && r == ParseElements(msg, j + 1, es + [Composite(done + vs)], NoElement, p)
    decreases |vs|
  {
    hide ParseElements, Escape, At, PrintValues, Admissible, Writable, DropEmptyEnd, Separator;
    var v := vs[0];
    var open := if done == [] then NoElement else Values(done);
    ValuesSplit(vs, c, p);
    LengthOfValues(vs, p);
    if |vs| == 1 {
      var all := done + vs;
      assert all == done + [v] && all[..|all| - 1] == done && all[|all| - 1] == v;
      if c == p.seg {
        ReadLast(msg, i, es, open, v, p);
        DropEmptyLast(all);
      } else {
        ReadNext(msg, i, es, open, v, p);
      }
    } else {
      AtSplit(msg, i, Escape(v, p) + [p.sub], PrintValues(vs[1..], p) + [c]);
      ReadSub(msg, i, es, open, v, p);
      assert done + [v] + vs[1..] == done + vs;
      assert OpenWith(open, v) == Values(done + [v]) by {
        if done == [] {
          assert done + [v] == [v];
        }
      }
      WritableTail(vs, es == [], p);
      ParseComposite(msg, i + |Escape(v, p)| + 1, es, done + [v], vs[1..], c, p);
    }
  }

  lemma WritableTail(vs: seq<Value>, first: bool, p: Params)
    requires vs != [] && WritableElement(Composite(vs), first, p)
    ensures WritableElement(Composite(vs[1..]), first, p)
  {
    hide Writable;
    forall k: nat | k < |vs| - 1 ensures Writable(vs[1..][k], first, p) {
      assert vs[1..][k] == vs[k + 1];
    }
  }

  lemma DropEmptyLast(vs: seq<Value>)
    requires vs != []
    ensures DropEmptyEnd([Composite(vs)]) ==
            [Composite(if vs[|vs| - 1] == [] then vs[..|vs| - 1] else vs)]
  {
    var es := [Composite(vs)];
    assert es[..|es| - 1] == [] && es[|es| - 1] == Composite(vs);
  }

  lemma LengthOfValues(vs: seq<Value>, p: Params)
    requires vs != []
    ensures |PrintValues(vs, p)| == |Escape(vs[0], p)| + if |vs| == 1 then 0 else 1 + |PrintValues(vs[1..], p)|
  {
  }

  predicate Canonical(es: Elements) {
    forall k: nat :: k < |es| && es[k].Composite? ==> |es[k].values| >= 2
  }

  lemma ElementsSplit(es: Elements, first: bool, p: Params)
    requires es != []
    ensures PrintElements(es, first, p) + [p.seg] ==
            if |es| == 1 then PrintElement(es[0], p) + [p.seg]
            else (PrintElement(es[0], p) + [Separator(first, p)]) + (PrintElements(es[1..], false, p) + [p.seg])
    ensures |PrintElements(es, first, p)| ==
            |PrintElement(es[0], p)| + if |es| == 1 then 0 else 1 + |PrintElements(es[1..], false, p)|
  {
    hide PrintElement;
    if |es| > 1 {
      Regroup(PrintElement(es[0], p), [Separator(first, p)], PrintElements(es[1..], false, p), [p.seg]);
    } else {
      assert PrintElement(es[0], p) + [] == PrintElement(es[0], p);
    }
  }

  lemma Regroup(a: Value, b: Value, c: Value, d: Value)
    ensures a + (b + c) + d == (a + b) + (c + d)
  {
  }

  /** The last element of a segment. */
  lemma ParseOnly(msg: Value, i: nat, es: Elements, e: Element, p: Params)
    requires Admissible(p) && Canonical([e]) && WritableElement(e, es == [], p)
    requires At(msg, i, PrintElement(e, p) + [p.seg])
    ensures ParseElements(msg, i, es, NoElement, p) == (es + DropEmptyEnd([e]), i + |PrintElement(e, p)|)
  {
    hide ParseElements, PrintElement, At, WritableElement, Admissible, DropEmptyEnd, Separator, Canonical;
    ParseElement(msg, i, es, e, p.seg, p);
  }

  /** An element with others behind it. */
  lemma ParseFirst(msg: Value, i: nat, es: Elements, e: Element, more: Value, p: Params)
    requires Admissible(p) && Canonical([e]) && WritableElement(e, es == [], p)
    requires At(msg, i, (PrintElement(e, p) + [Separator(es == [], p)]) + more)
    ensures var j := i + |PrintElement(e, p)| + 1;
            && At(msg, j, more)
            && j <= |msg| && ParseElements(msg, i, es, NoElement, p) == ParseElements(msg, j, es + [e], NoElement, p)
  {
    SeparatorsDiffer(Separator(es == [], p), es == [], p);
    hide ParseElements, PrintElement, At, WritableElement, Admissible, DropEmptyEnd, Separator, Canonical;
    AtAfter(msg, i, PrintElement(e, p), Separator(es == [], p), more);
    ParseElement(msg, i, es, e, Separator(es == [], p), p);
  }

  /** The elements of a segment from one of them on, up to the segment separator. */
  lemma {:induction false} ParsePrinted(msg: Value, i: nat, es: Elements, rest: Elements, p: Params)
    requires Admissible(p) && rest != [] && Canonical(rest)
    requires WritableElements(rest, es == [], p)
    requires At(msg, i, PrintElements(rest, es == [], p) + [p.seg])
    ensures ParseElements(msg, i, es, NoElement, p) ==
            (es + DropEmptyEnd(rest), i + |PrintElements(rest, es == [], p)|)
    decreases |rest|
  {
    hide ParseElements, PrintElement, PrintElements, At, WritableElement, Admissible, DropEmptyEnd, Separator,
         Canonical, WritableElements;
    ElementsSplit(rest, es == [], p);
    ElementsHead(rest, es == [], p);
    if |rest| == 1 {
      assert rest == [rest[0]];
      ParseOnly(msg, i, es, rest[0], p);
    } else {
      var tail := rest[1..];
      ParseFirst(msg, i, es, rest[0], PrintElements(tail, false, p) + [p.seg], p);
      ElementsTail(rest, es == [], p);
      ParsePrinted(msg, i + |PrintElement(rest[0], p)| + 1, es + [rest[0]], tail, p);
      DropEmptyEndTail(rest);
      AssociateElements(es, [rest[0]], DropEmptyEnd(tail));
    }
  }

  lemma AtAfter(msg: Value, i: nat, a: Value, c: Byte, b: Value)
    requires At(msg, i, (a + [c]) + b)
    ensures At(msg, i, a + [c]) && At(msg, i + |a| + 1, b)
  {
    hide At;
    AtSplit(msg, i, a + [c], b);
  }

  lemma ElementsHead(es: Elements, first: bool, p: Params)
    requires es != [] && Canonical(es) && WritableElements(es, first, p)
    ensures Canonical([es[0]]) && WritableElement(es[0], first, p)
  {
    assert WritableElement(es[0], first && 0 == 0, p);
  }

  lemma ElementsTail(es: Elements, first: bool, p: Params)
    requires es != [] && Canonical(es) && WritableElements(es, first, p)
    ensures Canonical(es[1..]) && WritableElements(es[1..], false, p)
  {
    hide WritableElement;
    forall k: nat | k < |es| - 1 ensures WritableElement(es[1..][k], false && k == 0, p) {
      assert WritableElement(es[k + 1], first && k + 1 == 0, p);
    }
  }

  lemma AssociateElements(a: Elements, b: Elements, c: Elements)
    ensures a + b + c == a + (b + c)
  {
  }

  lemma DropEmptyEndTail(es: Elements)
    requires |es| >= 2
    ensures DropEmptyEnd(es) == [es[0]] + DropEmptyEnd(es[1..])
  {
    assert es[..|es| - 1] == [es[0]] + es[1..][..|es| - 2];
  }

  lemma ParseElement(msg: Value, i: nat, es: Elements, e: Element, c: Byte, p: Params)
    requires Admissible(p) && Canonical([e]) && WritableElement(e, es == [], p)
    requires c == p.seg || c == Separator(es == [], p)
    requires At(msg, i, PrintElement(e, p) + [c])
    ensures var r := ParseElements(msg, i, es, NoElement, p);
            var j := i + |PrintElement(e, p)|;
            if c == p.seg then r == (es + DropEmptyEnd([e]), j)
            else j < |msg| && r == ParseElements(msg, j + 1, es + [e], NoElement, p)
  {
    hide ParseElements, Admissible, At, Escape, Writable, PrintValues, DropEmptyEnd, Separator;
    assert [e][0] == e;
    match e
    case Composite(vs) =>
      ParseComposite(msg, i, es, [], vs, c, p);
      assert [] + vs == vs;
    case Simple(v) =>
      if c == p.seg {
        ReadLast(msg, i, es, NoElement, v, p);
        DropSimple(v);
        assert es + [] == es;
      } else {
        ReadNext(msg, i, es, NoElement, v, p);
      }
  }

  lemma DropSimple(v: Value)
    ensures DropEmptyEnd([Simple(v)]) == if v == [] then [] else [Simple(v)]
  {
    assert [Simple(v)][..0] == [];
  }

  /* ----- segments ----- */

  lemma {:induction false} CanonPrintsAlike(es: Elements, first: bool, p: Params)
    ensures PrintElements(CanonAll(es), first, p) == PrintElements(es, first, p)
    decreases |es|
  {
    if es != [] {
      var c := CanonAll(es);
      match es[0] {
        case Simple(_) =>
        case Composite(vs) => assert PrintElement(c[0], p) == PrintElement(es[0], p);
      }
      assert c[1..] == CanonAll(es[1..]);
      CanonPrintsAlike(es[1..], false, p);
    }
  }

  lemma CanonAllCanonical(es: Elements, first: bool, p: Params)
    requires WritableElements(es, first, p)
    ensures Canonical(CanonAll(es)) && WritableElements(CanonAll(es), first, p)
  {
    var c := CanonAll(es);
    forall k: nat | k < |es| ensures WritableElement(c[k], first && k == 0, p) {
      assert WritableElement(es[k], first && k == 0, p);
    }
  }

  lemma EscapeNewline(v: Value, p: Params)
    requires Admissible(p) && v != [] && (v[0] == CR || v[0] == LF)
    ensures Escape(v, p) == [v[0]] + Escape(v[1..], p)
  {
  }

  lemma NewlineMore(v: Value, n: nat, text: Value)
    requires v != [] && n <= |v| - 1
    ensures v[1..][n..] == v[n + 1..]
    ensures [v[0]] + (v[1..][..n] + text) == v[..n + 1] + text
    ensures forall k: nat :: k < n + 1 ==> v[k] == if k == 0 then v[0] else v[1..][k - 1]
  {
  }

  lemma {:induction false} EscapeAfterNewlines(v: Value, p: Params)
    requires Admissible(p)
    ensures Escape(v, p) == v[..Newlines(v)] + Escape(v[Newlines(v)..], p)
    ensures var w := v[Newlines(v)..]; w != [] ==> w[0] != CR && w[0] != LF
    ensures forall k: nat :: k < Newlines(v) ==> v[k] == CR || v[k] == LF
    decreases |v|
  {
    hide Escape, Admissible;
    if Newlines(v) > 0 {
      EscapeAfterNewlines(v[1..], p);
      var n := Newlines(v[1..]);
      EscapeNewline(v, p);
      NewlineMore(v, n, Escape(v[n + 1..], p));
    } else {
      assert v[0..] == v;
    }
  }

  lemma ElementAfterNewlines(e: Element, p: Params)
    requires Admissible(p)
    ensures var v := FirstValue(e);
            PrintElement(e, p) == v[..Newlines(v)] + PrintElement(StripElement(e), p)
  {
    var v := FirstValue(e);
    var n := Newlines(v);
    EscapeAfterNewlines(v, p);
    hide Escape, Newlines, PrintValues, Admissible;
    match e
    case Simple(_) =>
    case Composite(vs) =>
      if vs != [] {
        ValuesFirst(vs, v[n..], p);
        ValuesFirst(vs, v, p);
        assert vs[0 := v] == vs;
        Associate(v[..n], Escape(v[n..], p), MoreValues(vs, p));
      } else {
        NoValues(p);
      }
  }

  function MoreValues(vs: seq<Value>, p: Params): Value
    requires vs != []
  {
    if |vs| == 1 then [] else [p.sub] + PrintValues(vs[1..], p)
  }

  lemma ValuesFirst(vs: seq<Value>, v: Value, p: Params)
    requires vs != []
    ensures PrintValues(vs[0 := v], p) == Escape(v, p) + MoreValues(vs, p)
  {
    hide Escape;
    assert vs[0 := v][1..] == vs[1..];
  }

  lemma NoValues(p: Params)
    ensures PrintValues([], p) == []
  {
  }

  function Rest(es: Elements, p: Params): Value
    requires es != []
  {
    (if |es| == 1 then [] else [p.tag] + PrintElements(es[1..], false, p)) + [p.seg]
  }

  lemma SegmentSplit(es: Elements, p: Params)
    requires es != []
    ensures PrintSegment(es, p) == PrintElement(es[0], p) + Rest(es, p)
  {
    hide PrintElement;
  }

  lemma RestOfStripped(es: Elements, p: Params)
    requires es != []
    ensures Rest(StripFirst(es), p) == Rest(es, p)
  {
    hide PrintElements, StripElement;
    assert StripFirst(es)[1..] == es[1..];
  }

  lemma Associate(a: Value, b: Value, c: Value)
    ensures a + b + c == a + (b + c)
  {
  }

  /** Line ends at the start of a segment's first value are printed in front of the rest. */
  lemma PrintAfterNewlines(es: Elements, p: Params)
    requires Admissible(p) && es != []
    ensures var v := FirstValue(es[0]);
            PrintSegment(es, p) == v[..Newlines(v)] + PrintSegment(StripFirst(es), p)
  {
    hide PrintElement, PrintElements, PrintSegment, Newlines, Rest, FirstValue, StripElement, Admissible;
    ElementAfterNewlines(es[0], p);
    SegmentSplit(es, p);
    SegmentSplit(StripFirst(es), p);
    RestOfStripped(es, p);
    var v := FirstValue(es[0]);
    Associate(v[..Newlines(v)], PrintElement(StripElement(es[0]), p), Rest(es, p));
  }

  /** What is printed after them is no line end. */
  lemma StartsCleanly(es: Elements, p: Params)
    requires Admissible(p)
    ensures var t := PrintSegment(StripFirst(es), p); t != [] && t[0] != CR && t[0] != LF
  {
    if es != [] {
      var v := FirstValue(es[0]);
      var w := v[Newlines(v)..];
      EscapeAfterNewlines(v, p);
      var e' := StripElement(es[0]);
      assert FirstValue(e') == w;
      var t := PrintElement(e', p);
      if w != [] {
        assert Escape(w, p)[0] in {w[0], p.escape} && (Escape(w, p)[0] == p.escape != 0 || Escape(w, p)[0] == w[0]);
        assert t[0] == Escape(w, p)[0];
      } else {
        assert t == [] || t[0] == p.sub;
      }
    }
  }

  lemma {:induction false} SkipRun(msg: Value, i: nat, w: Value)
    requires At(msg, i, w) && i + |w| < |msg|
    requires forall k: nat :: k < |w| ==> w[k] == CR || w[k] == LF
    requires msg[i + |w|] != CR && msg[i + |w|] != LF
    ensures SkipNewlines(msg, i) == i + |w|
    decreases |w|
  {
    if w != [] {
      AtSplit(msg, i, [w[0]], w[1..]);
      assert w == [w[0]] + w[1..];
      assert msg[i] == w[0] by { assert msg[i..i + 1] == [w[0]]; }
      SkipRun(msg, i + 1, w[1..]);
    }
  }

  /** One printed segment. */
  lemma ParseSegment(msg: Value, i: nat, es: Elements, p: Params)
    requires Admissible(p) && WritableElements(es, true, p)
    requires At(msg, i, PrintSegment(es, p))
    ensures var start := i + SkipInFirst(es);
            var end := i + |PrintSegment(es, p)| - 1;
            && end < |msg| && SkipNewlines(msg, i) == start <= end
            && ParseElements(msg, start, [], NoElement, p) == (Norm(es), end)
  {
    hide PrintSegment, PrintElements, ParseElements, SkipNewlines, DropEmptyEnd, CanonAll, Admissible, At, Newlines,
         FirstValue,
      WritableElements, StripFirst, SkipInFirst;
    var t := PrintSegment(StripFirst(es), p);
    var w := LineEnds(es);
    LineEndsInFront(es, p);
    AtLength(msg, i, PrintSegment(es, p));
    StartsCleanly(es, p);
    AtSplit(msg, i, w, t);
    var start := i + |w|;
    AtStart(msg, start, t);
    SkipRun(msg, i, w);
    StripWritable(es, p);
    ParseStripped(msg, start, StripFirst(es), p);
  }

  lemma AtLength(msg: Value, i: nat, t: Value)
    requires At(msg, i, t)
    ensures i + |t| <= |msg|
  {
  }

  /** The line ends at the start of a segment. */
  function LineEnds(es: Elements): Value {
    if es == [] then [] else FirstValue(es[0])[..Newlines(FirstValue(es[0]))]
  }

  lemma LineEndsInFront(es: Elements, p: Params)
    requires Admissible(p)
    ensures |LineEnds(es)| == SkipInFirst(es) && PrintSegment(es, p) == LineEnds(es) + PrintSegment(StripFirst(es), p)
    ensures forall k: nat :: k < |LineEnds(es)| ==> LineEnds(es)[k] == CR || LineEnds(es)[k] == LF
  {
    hide PrintSegment, Newlines, FirstValue, StripElement, Admissible;
    if es != [] {
      PrintAfterNewlines(es, p);
      EscapeAfterNewlines(FirstValue(es[0]), p);
    } else {
      assert [] + PrintSegment(es, p) == PrintSegment(es, p);
    }
  }

  lemma AtStart(msg: Value, i: nat, t: Value)
    requires At(msg, i, t) && t != []
    ensures i < |msg| && msg[i] == t[0]
  {
  }

  lemma StripWritable(es: Elements, p: Params)
    requires WritableElements(es, true, p)
    ensures WritableElements(StripFirst(es), true, p)
  {
    if es != [] {
      assert WritableElement(es[0], true, p);
      forall k: nat | k < |es| ensures WritableElement(StripFirst(es)[k], true && k == 0, p) {
        assert WritableElement(es[k], true && k == 0, p);
      }
    }
  }

  lemma ParseNothing(msg: Value, i: nat, p: Params)
    requires Admissible(p) && At(msg, i, PrintSegment([], p))
    ensures ParseElements(msg, i, [], NoElement, p) == ([], i)
    ensures PrintSegment([], p) == [p.seg] && DropEmptyEnd(CanonAll([])) == []
  {
    assert PrintSegment([], p) == [p.seg];
    AtStart(msg, i, [p.seg]);
  }

  lemma ParseStripped(msg: Value, i: nat, es: Elements, p: Params)
    requires Admissible(p) && WritableElements(es, true, p)
    requires At(msg, i, PrintSegment(es, p))
    ensures ParseElements(msg, i, [], NoElement, p) ==
            (DropEmptyEnd(CanonAll(es)), i + |PrintSegment(es, p)| - 1)
  {
    hide ParseElements, PrintElements, At, Admissible, WritableElements, Canonical, CanonAll, DropEmptyEnd;
    if es == [] {
      ParseNothing(msg, i, p);
    } else {
      var c := CanonAll(es);
      CanonPrintsAlike(es, true, p);
      CanonAllCanonical(es, true, p);
      ParsePrinted(msg, i, [], c, p);
      assert [] + DropEmptyEnd(c) == DropEmptyEnd(c);
    }
  }

  /* ----- interchanges ----- */

  ghost predicate WritableAll(m: seq<Elements>, p: Params) {
    forall k: nat :: k < |m| ==> WritableElements(m[k], true, p)
  }

  lemma {:induction false} ParseAll(msg: Value, i: nat, m: seq<Elements>, base: nat, segments: seq<Segment>, p: Params)
    requires Admissible(p) && WritableAll(m, p)
    requires At(msg, i, Print(m, p)) && i + |Print(m, p)| == |msg|
    ensures ParseSegments(msg, i, base, segments, p) == Parsed(segments + NormAll(m, base + i, p), NoError)
    decreases |m|
  {
    hide PrintSegment, ParseElements, SkipNewlines, Norm, Admissible, SkipInFirst;
    if m == [] {
      assert segments + [] == segments;
    } else {
      var es := m[0];
      AtSplit(msg, i, PrintSegment(es, p), Print(m[1..], p));
      ParseSegment(msg, i, es, p);
      var next := i + |PrintSegment(es, p)|;
      var seg := Segment(Norm(es), base + i + SkipInFirst(es));
      assert WritableAll(m[1..], p);
      ParseAll(msg, next, m[1..], base, segments + [seg], p);
      assert segments + [seg] + NormAll(m[1..], base + next, p) == segments + NormAll(m, base + i, p);
    }
  }

  /** Parsing what was printed gives the normal form, for every interchange. */
  lemma ParsePrint(m: seq<Elements>, base: nat, p: Params)
    requires Admissible(p) && WritableAll(m, p)
    ensures Parse(Print(m, p), base, p) == Parsed(NormAll(m, base, p), if m == [] then Empty else NoError)
  {
    hide ParseSegments, PrintSegment, NormAll, Admissible, WritableAll;
    var msg := Print(m, p);
    assert msg[0..0 + |msg|] == msg;
    if m == [] {
      NothingPrinted(base, p);
    } else {
      SegmentIsSome(m[0], p);
      ParseAll(msg, 0, m, base, [], p);
      assert [] + NormAll(m, base, p) == NormAll(m, base, p);
    }
  }

  lemma NothingPrinted(base: nat, p: Params)
    ensures NormAll([], base, p) == []
  {
  }

  lemma SegmentIsSome(es: Elements, p: Params)
    ensures PrintSegment(es, p) != []
  {
  }

  /** The segments for which the round trip is exact. */
  predicate NormalForm(es: Elements) {
    && Canonical(es)
    && (es != [] ==>
          && Newlines(FirstValue(es[0])) == 0
          && var last := es[|es| - 1];
             if last.Simple? then last.value != [] else last.values[|last.values| - 1] != [])
  }

  /** Exactly these are their own normal form. */
  lemma NormalIffFixed(es: Elements)
    ensures NormalForm(es) <==> Norm(es) == es
  {
    if es != [] {
      StripKeepsShape(es[0]);
      var b := CanonAll(StripFirst(es));
      if NormalForm(es) {
        assert b == es;
      }
      if Norm(es) == es {
        FixedElements(es);
        assert Canonical(es);
      }
    }
  }

  lemma StripKeepsShape(e: Element)
    ensures FirstValue(StripElement(e)) == FirstValue(e)[Newlines(FirstValue(e))..]
    ensures Newlines(FirstValue(e)) == 0 ==> StripElement(e) == e
    ensures e.Composite? <==> StripElement(e).Composite?
    ensures e.Composite? ==> |StripElement(e).values| == |e.values|
  {
  }

  lemma FixedElements(es: Elements)
    requires es != [] && Norm(es) == es
    ensures Newlines(FirstValue(es[0])) == 0
    ensures CanonAll(es) == es
    ensures DropEmptyEnd(es) == es
  {
    var a := StripFirst(es);
    var b := CanonAll(a);
    var last := |es| - 1;
    StripKeepsShape(es[0]);
    assert b[last] == Canon(a[last]);
    assert b == es by {
      forall k: nat | k < |es| ensures b[k] == es[k] {
      }
    }
    assert FirstValue(b[0]) == FirstValue(a[0]);
    assert a == es;
  }

  /* ----- the exact domain of the round trip ----- */

  function ElementsOf(segments: seq<Segment>): (r: seq<Elements>)
    ensures |r| == |segments|
  {
    seq(|segments|, i requires 0 <= i < |segments| => segments[i].elements)
  }

  lemma {:induction false} NormAllElements(m: seq<Elements>, at: nat, p: Params)
    ensures |NormAll(m, at, p)| == |m|
    ensures forall k: nat :: k < |m| ==> NormAll(m, at, p)[k].elements == Norm(m[k])
    decreases |m|
  {
    hide Norm, NormAll, PrintSegment;
    if m == [] {
      NothingPrinted(at, p);
    } else {
      NormAllParts(m, at, p);
      NormAllElements(m[1..], at + |PrintSegment(m[0], p)|, p);
      var n := NormAll(m, at, p);
      forall k: nat | k < |m| ensures n[k].elements == Norm(m[k]) {
        if k > 0 {
          assert n[k] == n[1..][k - 1] && m[k] == m[1..][k - 1];
        }
      }
    }
  }

  /** Without an escape character the parser never returns a value with a separator in it. */
  lemma {:induction false} ScanAvoidsStops(msg: Value, i: nat, first: bool, p: Params)
    requires i <= |msg| && p.escape == 0
    ensures var j := Scan(msg, i, false, first, p);
            Unescape(msg[i..j], false, p) == msg[i..j] && Writable(msg[i..j], first, p)
    decreases |msg| - i
  {
    if i < |msg| && !Stops(msg[i], first, p) {
      ScanAvoidsStops(msg, i + 1, first, p);
      var j := Scan(msg, i, false, first, p);
      assert msg[i..j] == [msg[i]] + msg[i + 1..j];
      assert msg[i..j][1..] == msg[i + 1..j];
    }
  }

  lemma {:induction false} ParsedIsWritable(msg: Value, i: nat, es: Elements, open: Open, p: Params)
    requires i <= |msg| && p.escape == 0
    requires WritableElements(es, true, p)
    requires open.Values? ==> WritableElement(Composite(open.values), es == [], p)
    ensures WritableElements(ParseElements(msg, i, es, open, p).0, true, p)
    decreases |msg| - i
  {
    if i == |msg| || Is(msg[i], p.seg) {
      return;
    }
    var j := Scan(msg, i, false, es == [], p);
    var v := Unescape(msg[i..j], false, p);
    ScanAvoidsStops(msg, i, es == [], p);
    var c := Peek(msg, j);
    var el := Finish(open, v, Is(c, p.sub));
    assert WritableElement(el, es == [], p);
    assert WritableElements(es + [el], true, p);
    if j < |msg| && !Is(c, p.seg) {
      if Is(c, p.data) || Is(c, p.tag) {
        ParsedIsWritable(msg, j + 1, es + [el], NoElement, p);
      } else {
        ParsedIsWritable(msg, j + 1, es, Values(if el.Simple? then [el.value] else el.values), p);
      }
    }
  }

  lemma {:induction false} ParsedAreWritable(msg: Value, i: nat, base: nat, segments: seq<Segment>, p: Params)
    requires i <= |msg| && p.escape == 0
    requires WritableAll(ElementsOf(segments), p)
    ensures WritableAll(ElementsOf(ParseSegments(msg, i, base, segments, p).segments), p)
    decreases |msg| - i
  {
    var start := SkipNewlines(msg, i);
    if start < |msg| {
      var (es, j) := ParseElements(msg, start, [], NoElement, p);
      ParsedIsWritable(msg, start, [], NoElement, p);
      var segments' := segments + [Segment(es, base + start)];
      assert ElementsOf(segments') == ElementsOf(segments) + [es];
      if j < |msg| {
        ParsedAreWritable(msg, j + 1, base, segments', p);
      }
    }
  }

  /** Parsing what was printed returns the interchange if and only if every segment is in
      normal form and, when there is no escape character, no value holds a separator that
      would end it. */
  lemma RoundTrip(m: seq<Elements>, base: nat, p: Params)
    requires Admissible(p) && m != []
    ensures ElementsOf(Parse(Print(m, p), base, p).segments) == m <==>
            WritableAll(m, p) && forall k: nat :: k < |m| ==> NormalForm(m[k])
  {
    var msg := Print(m, p);
    var segments := Parse(msg, base, p).segments;
    if WritableAll(m, p) {
      ParsePrint(m, base, p);
      NormAllElements(m, base, p);
      forall k: nat | k < |m| ensures NormalForm(m[k]) <==> segments[k].elements == m[k] {
        NormalIffFixed(m[k]);
      }
      assert ElementsOf(segments) == m <==> forall k: nat :: k < |m| ==> segments[k].elements == m[k];
    } else if p.escape == 0 && msg != [] {
      ParsedAreWritable(msg, 0, base, [], p);
    }
  }

  /** The offset that the parser records is where the segment was printed. */
  lemma {:induction false} OffsetsOfNormal(m: seq<Elements>, at: nat, p: Params, k: nat)
    requires k < |m| && forall i: nat :: i < |m| ==> NormalForm(m[i])
    ensures |NormAll(m, at, p)| == |m| && NormAll(m, at, p)[k].offset == at + |Print(m[..k], p)|
    decreases |m|
  {
    hide NormalForm, PrintSegment, Norm, SkipInFirst, Print, NormAll;
    NormAllElements(m, at, p);
    NothingSkipped(m[0]);
    NormAllParts(m, at, p);
    if k > 0 {
      PrintPrefix(m, k, p);
      var next := at + |PrintSegment(m[0], p)|;
      OffsetsOfNormal(m[1..], next, p, k - 1);
    } else {
      NoPrefix(m, p);
    }
  }

  lemma NothingSkipped(es: Elements)
    requires NormalForm(es)
    ensures SkipInFirst(es) == 0
  {
  }

  lemma NormAllParts(m: seq<Elements>, at: nat, p: Params)
    requires m != []
    ensures var n := NormAll(m, at, p);
            && n != [] && n[0] == Segment(Norm(m[0]), at + SkipInFirst(m[0]))
            && n[1..] == NormAll(m[1..], at + |PrintSegment(m[0], p)|, p)
  {
    hide Norm, SkipInFirst, PrintSegment;
  }

  lemma PrintPrefix(m: seq<Elements>, k: nat, p: Params)
    requires 0 < k <= |m|
    ensures |Print(m[..k], p)| == |PrintSegment(m[0], p)| + |Print(m[1..][..k - 1], p)|
  {
    hide PrintSegment;
    assert m[..k][1..] == m[1..][..k - 1];
  }

  lemma NoPrefix(m: seq<Elements>, p: Params)
    ensures |Print(m[..0], p)| == 0
  {
  }
}
