/**
 What a printed interchange looks like: which bytes are escaped and no others, where the
 separators stand, and how long the text is.
 */
module EdiPrint {
  import opened EdiText

  /** The bytes of a value that are one of the five that structure a message. */
  function Structural(v: Value, p: Params): (n: nat)
    ensures n <= |v|
  {
    if v == [] then 0
    else Structural(v[..|v| - 1], p) +
         if v[|v| - 1] < 128 && v[|v| - 1] in {p.seg, p.data, p.sub, p.tag, p.escape} then 1 else 0
  }

  /** How many escape characters a value gets. */
  function Escapes(v: Value, p: Params): nat {
    if p.escape == 0 then 0 else Structural(v, p)
  }

  lemma {:induction false} EscapeJoins(a: Value, b: Value, p: Params)
    ensures Escape(a + b, p) == Escape(a, p) + Escape(b, p)
    decreases |a|
  {
    if a == [] {
      assert a + b == b;
    } else {
      EscapeJoins(a[1..], b, p);
      assert (a + b)[1..] == a[1..] + b;
      var head := (if p.escape != 0 && IsSpecial(a[0], p) then [p.escape] else []) + [a[0]];
      assert head + (Escape(a[1..], p) + Escape(b, p)) == (head + Escape(a[1..], p)) + Escape(b, p);
    }
  }

  lemma EscapeOne(c: Byte, p: Params)
    ensures Escape([c], p) ==
            if p.escape != 0 && c < 128 && c in {p.seg, p.data, p.sub, p.tag, p.escape} then [p.escape, c] else [c]
  {
    assert [c][1..] == [];
  }

  /** Every byte of a value stands where the escape characters before it have moved it, with
      one of its own in front if it is structural; and there is nothing else. */
  lemma {:induction false} EscapedAt(v: Value, p: Params, k: nat)
    requires k < |v|
    ensures |Escape(v, p)| == |v| + Escapes(v, p)
    ensures var at := k + Escapes(v[..k + 1], p);
            && at < |Escape(v, p)| && Escape(v, p)[at] == v[k]
            && (p.escape != 0 && v[k] < 128 && v[k] in {p.seg, p.data, p.sub, p.tag, p.escape} ==>
                  at > 0 && Escape(v, p)[at - 1] == p.escape)
    decreases |v|
  {
    hide Escape;
    var n := |v| - 1;
    EscapeLength(v, p);
    EscapeLength(v[..n], p);
    EscapeSnoc(v, p);
    assert v[..n + 1] == v;
    if k < n {
      EscapedAt(v[..n], p, k);
      assert v[..n][..k + 1] == v[..k + 1];
    }
  }

  lemma EscapeSnoc(v: Value, p: Params)
    requires v != []
    ensures var n := |v| - 1;
            && Escape(v, p) == Escape(v[..n], p) + Escape([v[n]], p)
            && |Escape([v[n]], p)| == 1 + Escapes(v, p) - Escapes(v[..n], p)
            && Escape([v[n]], p)[|Escape([v[n]], p)| - 1] == v[n]
            && (|Escape([v[n]], p)| == 2 ==> Escape([v[n]], p)[0] == p.escape)
  {
    hide Escape;
    var n := |v| - 1;
    assert v == v[..n] + [v[n]];
    EscapeJoins(v[..n], [v[n]], p);
    EscapeOne(v[n], p);
  }

  lemma {:induction false} EscapeLength(v: Value, p: Params)
    ensures |Escape(v, p)| == |v| + Escapes(v, p)
  {
    if v != [] {
      hide Escape;
      EscapeLength(v[..|v| - 1], p);
      EscapeSnoc(v, p);
    }
  }

  /** A value without structural bytes is printed as it stands, and so is every value when
      there is no escape character. */
  lemma {:induction false} PlainAsItStands(v: Value, p: Params)
    ensures Escape(v, p) == v <==> Escapes(v, p) == 0
  {
    EscapeLength(v, p);
    if Escapes(v, p) == 0 && v != [] {
      hide Escape;
      PlainAsItStands(v[..|v| - 1], p);
      EscapeSnoc(v, p);
      EscapeOne(v[|v| - 1], p);
      assert v == v[..|v| - 1] + [v[|v| - 1]];
    }
  }

  /* ----- the separators ----- */

  function JoinWith(sep: Byte, parts: seq<Value>): Value {
    if parts == [] then []
    else if |parts| == 1 then parts[0]
    else parts[0] + [sep] + JoinWith(sep, parts[1..])
  }

  function EscapedAll(vs: seq<Value>, p: Params): (r: seq<Value>)
    ensures |r| == |vs|
  {
    seq(|vs|, k requires 0 <= k < |vs| => Escape(vs[k], p))
  }

  function PrintedAll(es: Elements, p: Params): (r: seq<Value>)
    ensures |r| == |es|
  {
    seq(|es|, k requires 0 <= k < |es| => PrintElement(es[k], p))
  }

  lemma {:induction false} ValuesAreJoined(vs: seq<Value>, p: Params)
    ensures PrintValues(vs, p) == JoinWith(p.sub, EscapedAll(vs, p))
  {
    hide Escape;
    if vs != [] {
      ValuesAreJoined(vs[1..], p);
      assert EscapedAll(vs, p)[1..] == EscapedAll(vs[1..], p);
    }
  }

  lemma {:induction false} ElementsAreJoined(es: Elements, p: Params)
    ensures PrintElements(es, false, p) == JoinWith(p.data, PrintedAll(es, p))
  {
    hide PrintElement;
    if es != [] {
      ElementsAreJoined(es[1..], p);
      assert PrintedAll(es, p)[1..] == PrintedAll(es[1..], p);
    }
  }

  /** A segment: the values of a composite have the sub-element separator between them, the
      first element has the tag separator behind it and the others the element separator
      between them, and the segment separator is at the end. */
  lemma SegmentIsJoined(es: Elements, p: Params)
    ensures forall vs: seq<Value> :: PrintElement(Composite(vs), p) == JoinWith(p.sub, EscapedAll(vs, p))
    ensures PrintSegment(es, p) ==
            (if |es| < 2 then JoinWith(p.tag, PrintedAll(es, p))
             else PrintElement(es[0], p) + [p.tag] + JoinWith(p.data, PrintedAll(es[1..], p))) + [p.seg]
  {
    hide Escape;
    forall vs: seq<Value> ensures PrintElement(Composite(vs), p) == JoinWith(p.sub, EscapedAll(vs, p)) {
      ValuesAreJoined(vs, p);
    }
    if |es| >= 2 {
      ElementsAreJoined(es[1..], p);
    }
  }

  /* ----- the length of a text ----- */

  function ValueSize(v: Value, p: Params): nat {
    |v| + Escapes(v, p)
  }

  function ValuesSize(vs: seq<Value>, p: Params): nat {
    if vs == [] then 0 else ValueSize(vs[0], p) + ValuesSize(vs[1..], p)
  }

  function Between(n: nat): nat {
    if n == 0 then 0 else n - 1
  }

  function ElementSize(e: Element, p: Params): nat {
    match e case Simple(v) => ValueSize(v, p) case Composite(vs) => ValuesSize(vs, p) + Between(|vs|)
  }

  function ElementsSize(es: Elements, p: Params): nat {
    if es == [] then 0 else ElementSize(es[0], p) + ElementsSize(es[1..], p)
  }

  /** All values with their escape characters, a separator between each two of a composite and
      of a segment, and one behind each segment. */
  function TextSize(m: seq<Elements>, p: Params): nat {
    if m == [] then 0 else ElementsSize(m[0], p) + Between(|m[0]|) + 1 + TextSize(m[1..], p)
  }

  lemma {:induction false} ValuesLength(vs: seq<Value>, p: Params)
    ensures |PrintValues(vs, p)| == ValuesSize(vs, p) + Between(|vs|)
  {
    hide Escape;
    if vs != [] {
      EscapeLength(vs[0], p);
      ValuesLength(vs[1..], p);
    }
  }

  lemma {:induction false} ElementsLength(es: Elements, first: bool, p: Params)
    ensures |PrintElements(es, first, p)| == ElementsSize(es, p) + Between(|es|)
    decreases |es|
  {
    hide Escape, PrintValues;
    if es != [] {
      match es[0] {
        case Simple(v) => EscapeLength(v, p);
        case Composite(vs) => ValuesLength(vs, p);
      }
      ElementsLength(es[1..], false, p);
    }
  }

  lemma {:induction false} TextLength(m: seq<Elements>, p: Params)
    ensures |Print(m, p)| == TextSize(m, p)
  {
    hide PrintElements;
    if m != [] {
      ElementsLength(m[0], true, p);
      TextLength(m[1..], p);
    }
  }
}
