/**
 Attribute-value normalization (XML 1.0, section 3.3.3): what becomes of white space, and
 which values may be copied as they are.
 */
module XmlNormalize {
  import opened Wrappers
  import opened XmlTok
  import opened XmlScan
  import opened XmlChar
  import opened XmlRef
  import opened XmlExpand

  /* ----- words ----- */

  /** The words of a text, which single out what spaces separate. */
  function Words(t: Text): (ws: seq<Text>)
    ensures t != [] && t[|t| - 1] != SPACE ==> ws != []
  {
    if t == [] then []
    else
      var front, c := t[..|t| - 1], t[|t| - 1];
      if c == SPACE then Words(front)
      else if front == [] || front[|front| - 1] == SPACE then Words(front) + [[c]]
      else Words(front)[|Words(front)| - 1 := Words(front)[|Words(front)| - 1] + [c]]
  }

  /** Words with one space between each and the next. */
  function Join(ws: seq<Text>): Text {
    if ws == [] then []
    else if |ws| == 1 then ws[0]
    else Join(ws[..|ws| - 1]) + [SPACE] + ws[|ws| - 1]
  }

  /** What the pool drops on the way: spaces at the start and behind spaces. */
  function Squeeze(t: Text): Text {
    if t == [] then []
    else
      var s := Squeeze(t[..|t| - 1]);
      if t[|t| - 1] == SPACE then AddSpace(s, false) else s + [t[|t| - 1]]
  }

  /** `poolChop` at the end. */
  function Chop(t: Text): Text {
    if t != [] && t[|t| - 1] == SPACE then t[..|t| - 1] else t
  }

  /** Words never contain spaces and are never empty. */
  lemma {:induction false} WordsAreWords(t: Text)
    ensures forall w <- Words(t) :: w != [] && SPACE !in w
  {
    if t != [] {
      var front, c := t[..|t| - 1], t[|t| - 1];
      WordsAreWords(front);
      if c != SPACE && front != [] && front[|front| - 1] != SPACE {
        var ws := Words(front);
        assert ws[|ws| - 1] in ws;
      }
    }
  }

  predicate EndsInSpace(t: Text) {
    t != [] && t[|t| - 1] == SPACE
  }

  lemma JoinMore(ws: seq<Text>, w: Text)
    ensures Join(ws + [w]) == if ws == [] then w else Join(ws) + [SPACE] + w
  {
    assert (ws + [w])[..|ws|] == ws;
  }

  /** A letter more for the last word. */
  lemma JoinLonger(ws: seq<Text>, c: Byte)
    requires ws != []
    ensures Join(ws[|ws| - 1 := ws[|ws| - 1] + [c]]) == Join(ws) + [c]
  {
    var last := |ws| - 1;
    assert ws == ws[..last] + [ws[last]];
    assert ws[last := ws[last] + [c]] == ws[..last] + [ws[last] + [c]];
    JoinMore(ws[..last], ws[last]);
    JoinMore(ws[..last], ws[last] + [c]);
    if last > 0 {
      assert Join(ws[..last]) + [SPACE] + (ws[last] + [c]) == Join(ws[..last]) + [SPACE] + ws[last] + [c];
    }
  }

  lemma JoinEnds(ws: seq<Text>)
    requires forall w <- ws :: w != [] && SPACE !in w
    ensures ws == [] <==> Join(ws) == []
    ensures !EndsInSpace(Join(ws))
  {
    if ws != [] {
      var w := ws[|ws| - 1];
      assert w in ws;
      assert w[|w| - 1] in w;
      assert ws == ws[..|ws| - 1] + [w];
      JoinMore(ws[..|ws| - 1], w);
      assert Join(ws)[|Join(ws)| - 1] == w[|w| - 1];
    }
  }

  /** Squeezing leaves the words, joined by single spaces, and at most one space at the end. */
  lemma {:induction false} SqueezeIsJoin(t: Text)
    ensures Squeeze(t) == Join(Words(t)) + if EndsInSpace(t) && Words(t) != [] then [SPACE] else []
  {
    if t != [] {
      var front, c := t[..|t| - 1], t[|t| - 1];
      SqueezeIsJoin(front);
      WordsAreWords(front);
      JoinEnds(Words(front));
      var ws := Words(front);
      if c != SPACE {
        if front == [] || front[|front| - 1] == SPACE {
          JoinMore(ws, [c]);
        } else {
          JoinLonger(ws, c);
        }
      }
    }
  }

  /** The whole of normalization for values that are not CDATA: the words, joined by single
      spaces. */
  lemma CollapseIsJoin(t: Text)
    ensures Chop(Squeeze(t)) == Join(Words(t))
    ensures var s := Chop(Squeeze(t));
            && (s != [] ==> s[0] != SPACE && s[|s| - 1] != SPACE)
            && forall k: nat :: k + 1 < |s| ==> !(s[k] == SPACE && s[k + 1] == SPACE)
  {
    SqueezeIsJoin(t);
    WordsAreWords(t);
    JoinEnds(Words(t));
    SqueezedIsTight(t);
    var q, s := Squeeze(t), Chop(Squeeze(t));
    assert s == Join(Words(t));
    assert forall k: nat :: k < |s| ==> s[k] == q[k];
  }

  lemma {:induction false} SqueezedIsTight(t: Text)
    ensures var s := Squeeze(t);
            (s != [] ==> s[0] != SPACE) && forall k: nat :: k + 1 < |s| ==> !(s[k] == SPACE && s[k + 1] == SPACE)
  {
    if t != [] {
      SqueezedIsTight(t[..|t| - 1]);
    }
  }

  /* ----- CDATA and other values ----- */

  /** No space is hidden inside a character of several bytes, as in valid text. */
  ghost predicate NoHiddenSpace(e: Encoding, b: Text) {
    forall i: nat, j: nat :: i < j < |b| && j < i + Width(e.typeOf(b[i])) ==> b[j] != SPACE
  }

  /** No token of the text adds a space to the pool as part of other characters. */
  ghost predicate AddsNoSpace(e: Encoding, b: Text, p: nat, env: Env)
    requires Tables(e, env) && p <= |b|
    decreases |b| - p
  {
    match Act(e, b, p, env)
    case Add(text, q) => SPACE !in text && AddsNoSpace(e, b, q, env)
    case Blank(q) => AddsNoSpace(e, b, q, env)
    case Expand(_, q) => AddsNoSpace(e, b, q, env)
    case _ => true
  }

  /** So for the texts of all entities. */
  ghost predicate CleanEntities(env: Env)
    requires AsciiTable(env.internal)
  {
    forall n <- env.entities :: env.entities[n].text.Just? ==>
        AddsNoSpace(env.internal, env.entities[n].text.value, 0, env)
  }

  /** Valid text is of this kind. */
  lemma {:induction false} ValidIsClean(e: Encoding, b: Text, p: nat, env: Env)
    requires Tables(e, env) && NoHiddenSpace(e, b) && p <= |b|
    ensures AddsNoSpace(e, b, p, env)
    decreases |b| - p
  {
    hide Act, AsciiTable, NoHiddenSpace;
    AddHasNoSpace(e, b, p, env);
    var a := Act(e, b, p, env);
    if a.Add? || a.Blank? || a.Expand? {
      ValidIsClean(e, b, a.next, env);
    }
  }

  lemma DataTurn(e: Encoding, b: Text, p: nat)
    requires p <= |b|
    ensures DataEnd(e, b, p) ==
            if p == |b| then Tok(DataChars, p)
            else
              var t := e.typeOf(b[p]);
              if t == ByteType.Lt then Invalid(p)
              else if t == Amp || t == Lf || t == Cr || t == S then Tok(DataChars, p)
              else DataEnd(e, b, Min(p + Width(t), |b|))
  {
  }

  /** Text that a token adds contains no space. */
  lemma {:induction false} DataHasNoSpace(e: Encoding, b: Text, from: nat, p: nat)
    requires AsciiTable(e) && NoHiddenSpace(e, b) && from <= p <= |b| && SPACE !in b[from..p]
    ensures var r := DataEnd(e, b, p); r.Tok? ==> SPACE !in b[from..r.next]
    decreases |b| - p
  {
    hide AsciiTable, AsciiType, NoHiddenSpace, DataEnd, Width;
    DataTurn(e, b, p);
    if p < |b| {
      var t := e.typeOf(b[p]);
      SpaceClass(e, b[p]);
      if t != ByteType.Lt && t != Amp && t != Lf && t != Cr && t != S {
        var q := Min(p + Width(t), |b|);
        CharHasNoSpace(e, b, p);
        assert b[from..q] == b[from..p] + b[p..q];
        DataHasNoSpace(e, b, from, q);
      }
    }
  }

  lemma CharHasNoSpace(e: Encoding, b: Text, p: nat)
    requires NoHiddenSpace(e, b) && p < |b| && b[p] != SPACE
    ensures SPACE !in b[p..Min(p + Width(e.typeOf(b[p])), |b|)]
  {
  }

  /** What a token adds contains no space unless its data do. */
  lemma AddOfToken(e: Encoding, b: Text, p: nat, env: Env)
    requires AsciiTable(e) && p <= |b|
    requires var r := ValueTok(e, b, p); r.Tok? && r.tok == DataChars ==> SPACE !in b[p..r.next]
    ensures var a := Act(e, b, p, env); a.Add? ==> SPACE !in a.text
  {
    hide ValueTok, AsciiTable, RefValue;
    ScannedValue(e, b, p);
  }

  lemma AddHasNoSpace(e: Encoding, b: Text, p: nat, env: Env)
    requires AsciiTable(e) && NoHiddenSpace(e, b) && p <= |b|
    ensures var a := Act(e, b, p, env); a.Add? ==> SPACE !in a.text
  {
    hide RefTok, AsciiTable, AsciiType, NoHiddenSpace, Act;
    var token := ValueTok(e, b, p);
    if token.Tok? && token.tok == DataChars {
      SpaceClass(e, b[p]);
      CharHasNoSpace(e, b, p);
      DataHasNoSpace(e, b, p, Min(p + Width(e.typeOf(b[p])), |b|));
    }
    AddOfToken(e, b, p, env);
  }

  lemma {:induction false} SqueezeAdds(x: Text, t: Text)
    requires SPACE !in t
    ensures Squeeze(x + t) == Squeeze(x) + t
    decreases |t|
  {
    if t == [] {
      assert x + t == x;
    } else {
      SqueezeAdds(x, t[..|t| - 1]);
      assert (x + t)[..|x + t| - 1] == x + t[..|t| - 1];
    }
  }

  lemma SqueezeBlank(x: Text)
    ensures AddSpace(x, true) == x + [SPACE] && Squeeze(x + [SPACE]) == AddSpace(Squeeze(x), false)
  {
    assert (x + [SPACE])[..|x|] == x;
  }

  /** The string in the pool is at every moment the squeezed string of a CDATA value. */
  lemma {:induction false} PoolIsSqueezed(e: Encoding, b: Text, p: nat, env: Env, open: set<Text>, x: Text)
    requires Tables(e, env) && p <= |b| && AddsNoSpace(e, b, p, env) && CleanEntities(env)
    ensures var r := Append(e, b, p, env, open, true, x);
            Append(e, b, p, env, open, false, Squeeze(x)) == (r.0, Squeeze(r.1))
    decreases ClosedCount(env, open), |b| - p
  {
    hide Act, AsciiTable, AddSpace, ClosedCount, Squeeze;
    match Act(e, b, p, env)
    case Add(text, q) =>
      SqueezeAdds(x, text);
      PoolIsSqueezed(e, b, q, env, open, x + text);
    case Blank(q) =>
      SqueezeBlank(x);
      PoolIsSqueezed(e, b, q, env, open, x + [SPACE]);
    case Expand(n, q) =>
      var entity := env.entities[n];
      if n !in open && !entity.notation && entity.text.Just? {
        FewerClosed(env, open, n);
        PoolIsSqueezed(env.internal, entity.text.value, 0, env, open + {n}, x);
        var r := Append(env.internal, entity.text.value, 0, env, open + {n}, true, x);
        if r.0 == NoError {
          PoolIsSqueezed(e, b, q, env, open, r.1);
        }
      }
    case _ =>
  }

  /** `storeAttributeValue`, without the terminator. */
  function Store(e: Encoding, b: Text, env: Env, open: set<Text>, cdata: bool): (r: (Error, Text))
    requires Tables(e, env)
  {
    var r := Append(e, b, 0, env, open, cdata, []);
    if r.0 != NoError || cdata then r else (NoError, Chop(r.1))
  }

  /**
   A value that is not CDATA is its CDATA value with the words joined by single spaces, and
   it has the same errors.
   */
  lemma StoredIsNormalized(e: Encoding, b: Text, env: Env, open: set<Text>)
    requires Tables(e, env) && AddsNoSpace(e, b, 0, env) && CleanEntities(env)
    ensures var c, t := Store(e, b, env, open, true), Store(e, b, env, open, false);
            t.0 == c.0 && (c.0 == NoError ==> t.1 == Join(Words(c.1)))
  {
    hide Append, Join, Words, Chop, AsciiTable, AddsNoSpace, CleanEntities;
    PoolIsSqueezed(e, b, 0, env, open, []);
    CollapseIsJoin(Store(e, b, env, open, true).1);
  }

  /* ----- values that may be copied ----- */

  /** What `getAtts` looks for: no references, no line ends, no `<`, and only single plain
      spaces inside the value. */
  predicate PlainValue(e: Encoding, v: Text, i: nat)
    decreases |v| - i
  {
    i >= |v|
    || (var t := e.typeOf(v[i]);
        && t != Amp && t != Cr && t != Lf && t != Lt
        && (t == S ==> i > 0 && v[i] == SPACE && i + 1 < |v| && v[i + 1] != SPACE)
        && PlainValue(e, v, i + Width(t)))
  }

  /** Behind a space there is none. */
  predicate AfterSpace(v: Text, i: nat) {
    0 < i < |v| && v[i - 1] == SPACE ==> v[i] != SPACE
  }

  lemma PlainStep(e: Encoding, v: Text, i: nat)
    requires AsciiTable(e) && NoHiddenSpace(e, v) && i < |v| && PlainValue(e, v, i)
    ensures var q := Min(i + Width(e.typeOf(v[i])), |v|);
            && PlainValue(e, v, q) && AfterSpace(v, q)
            && (q == i + 1 || v[q - 1] != SPACE)
            && (v[i] == SPACE ==> e.typeOf(v[i]) == S)
  {
    hide AsciiTable, AsciiType;
    SpaceClass(e, v[i]);
  }

  lemma {:induction false} PlainData(e: Encoding, v: Text, i: nat)
    requires AsciiTable(e) && NoHiddenSpace(e, v) && i <= |v| && PlainValue(e, v, i) && AfterSpace(v, i)
    ensures var r := DataEnd(e, v, i);
            r.Tok? && PlainValue(e, v, r.next) && AfterSpace(v, r.next)
    decreases |v| - i
  {
    hide AsciiTable, AsciiType, NoHiddenSpace, AfterSpace, DataEnd, PlainValue;
    DataTurn(e, v, i);
    if i < |v| {
      PlainKinds(e, v, i);
    }
    if i < |v| && e.typeOf(v[i]) != S {
      PlainStep(e, v, i);
      PlainData(e, v, Min(i + Width(e.typeOf(v[i])), |v|));
    }
  }

  lemma {:induction false} PlainAppend(e: Encoding, v: Text, i: nat, env: Env, open: set<Text>, cdata: bool)
    requires Tables(e, env) && NoHiddenSpace(e, v) && i <= |v| && PlainValue(e, v, i) && AfterSpace(v, i)
    ensures Append(e, v, i, env, open, cdata, v[..i]) == (NoError, v)
    decreases |v| - i
  {
    hide AsciiTable, AsciiType, NoHiddenSpace, PlainValue, Act, Append, AfterSpace, AddSpace;
    AppendTurn(e, v, i, env, open, cdata, v[..i]);
    PlainAct(e, v, i, env);
    if i == |v| {
      assert v[..i] == v;
    } else {
      PlainStep(e, v, i);
      var a := Act(e, v, i, env);
      if a.Blank? {
        PlainBlank(e, v, i, cdata);
      } else {
        assert v[..i] + v[i..a.next] == v[..a.next];
      }
      PlainAppend(e, v, a.next, env, open, cdata);
    }
  }

  /** A space is added wherever the value has one. */
  lemma PlainBlank(e: Encoding, v: Text, i: nat, cdata: bool)
    requires i < |v| && PlainValue(e, v, i) && AfterSpace(v, i) && e.typeOf(v[i]) == S
    ensures AddSpace(v[..i], cdata) == v[..i + 1]
  {
    PlainKinds(e, v, i);
    assert v[..i + 1] == v[..i] + [v[i]];
  }

  /** What the tokens of such a value ask for. */
  lemma PlainAct(e: Encoding, v: Text, i: nat, env: Env)
    requires Tables(e, env) && NoHiddenSpace(e, v) && i <= |v| && PlainValue(e, v, i) && AfterSpace(v, i)
    ensures var a := Act(e, v, i, env);
            if i == |v| then a == Done
            else if e.typeOf(v[i]) == S then a == Blank(i + 1) && PlainValue(e, v, i + 1) && AfterSpace(v, i + 1)
            else
              && a.Add? && i < a.next <= |v| && a.text == v[i..a.next]
              && PlainValue(e, v, a.next) && AfterSpace(v, a.next)
  {
    hide AsciiTable, AsciiType, NoHiddenSpace, PlainValue, RefTok, DataEnd, AfterSpace;
    if i < |v| {
      PlainStep(e, v, i);
      PlainKinds(e, v, i);
      if e.typeOf(v[i]) != S {
        PlainData(e, v, Min(i + Width(e.typeOf(v[i])), |v|));
      }
    }
  }

  lemma PlainKinds(e: Encoding, v: Text, i: nat)
    requires i < |v| && PlainValue(e, v, i)
    ensures var t := e.typeOf(v[i]);
            t != Amp && t != Cr && t != Lf && t != Lt && (t == S ==> i > 0 && v[i] == SPACE && i + 1 < |v|)
  {
  }

  lemma {:induction false} PlainEnd(e: Encoding, v: Text, i: nat)
    requires AsciiTable(e) && NoHiddenSpace(e, v) && i < |v| && PlainValue(e, v, i)
    ensures v[|v| - 1] != SPACE
    decreases |v| - i
  {
    hide AsciiTable, AsciiType;
    SpaceClass(e, v[i]);
    var q := i + Width(e.typeOf(v[i]));
    if q < |v| {
      PlainEnd(e, v, q);
    }
  }

  /** Copying such a value is what storing it would do, as CDATA and otherwise. */
  lemma PlainIsStored(e: Encoding, v: Text, env: Env, open: set<Text>, cdata: bool)
    requires Tables(e, env) && NoHiddenSpace(e, v) && PlainValue(e, v, 0)
    ensures Store(e, v, env, open, cdata) == (NoError, v)
  {
    hide Append, AsciiTable, NoHiddenSpace, PlainValue;
    assert v[..0] == [];
    PlainAppend(e, v, 0, env, open, cdata);
    if v != [] {
      PlainEnd(e, v, 0);
    }
  }
}
