/**
 The prolog processor's element declarations: fields updated in place, arrays that are
 doubled when they are full and reused, stale contents and all, by the next declaration.
 */
module ContentParser {
  import opened ContentModel
  import opened ContentGrammar
  import opened ContentBuild

  const INIT_GROUP_SIZE := 32
  const INIT_SCAFFOLD_ELEMENTS := 32

  /** A cell as the declaration means it: the quantifier of an open group and the name of
      any group are left over from earlier declarations. */
  function Clean(p: Part, open: bool): Part {
    p.(quant := if open then None else p.quant, name := if p.kind == NameKind then p.name else "")
  }

  function View(parts: seq<Part>, stack: seq<nat>): (r: seq<Part>)
    ensures |r| == |parts|
  {
    seq(|parts|, i requires 0 <= i < |parts| => Clean(parts[i], i in stack))
  }

  /** Links are not affected by the view. */
  lemma ViewLinked(parts: seq<Part>, stack: seq<nat>, g: nat)
    requires g < |parts| && (parts[g].lastchild != 0 ==> g < parts[g].lastchild < |parts|)
    ensures View(parts, stack)[g].lastchild == parts[g].lastchild
    ensures View(Linked(parts, g), stack) == Linked(View(parts, stack), g)
  {
  }

  function Base(parts: seq<Part>, stack: seq<nat>): seq<Part>
    requires Sound(parts, stack)
  {
    if stack == [] then parts else Linked(parts, Last(stack))
  }

  lemma ViewBase(parts: seq<Part>, stack: seq<nat>)
    requires Sound(parts, stack)
    ensures Sound(View(parts, stack), stack) && View(Base(parts, stack), stack) == Base(View(parts, stack), stack)
  {
    if stack != [] {
      ViewLinked(parts, stack, Last(stack));
    }
  }

  lemma ViewSnoc(parts: seq<Part>, stack: seq<nat>, p: Part)
    requires forall i: nat :: i < |stack| ==> stack[i] < |parts|
    ensures View(parts + [p], stack) == View(parts, stack) + [Clean(p, false)]
    ensures View(parts + [p], stack + [|parts|]) == View(parts, stack) + [Clean(p, true)]
  {
    assert forall i: nat :: i < |parts| ==> (i in stack + [|parts|] <==> i in stack);
    assert |parts| in stack + [|parts|] && |parts| !in stack;
  }

  /** A new name cell, and a new group cell, in the view. */
  lemma ViewAdd(parts: seq<Part>, stack: seq<nat>, p: Part)
    requires Sound(parts, stack) && Unlinked(p)
    ensures Sound(View(parts, stack), stack)
    ensures View(Base(parts, stack) + [p], stack) == AddPart(View(parts, stack), stack, Clean(p, false))
    ensures View(Base(parts, stack) + [p], stack + [|parts|]) == AddPart(View(parts, stack), stack, Clean(p, true))
  {
    ViewBase(parts, stack);
    ViewSnoc(Base(parts, stack), stack, p);
    hide View, Linked;
  }

  lemma SoundAdd(parts: seq<Part>, stack: seq<nat>, p: Part)
    requires Sound(parts, stack) && Unlinked(p)
    ensures Sound(Base(parts, stack) + [p], stack) && Sound(Base(parts, stack) + [p], stack + [|parts|])
  {
  }

  lemma TopLeaves(stack: seq<nat>)
    requires stack != [] && Increasing(stack)
    ensures var rest := stack[..|stack| - 1];
            Last(stack) !in rest && forall i: nat :: i in stack <==> i in rest || i == Last(stack)
  {
    var rest := stack[..|stack| - 1];
    assert stack == rest + [Last(stack)];
    forall k: nat | k < |rest| ensures rest[k] != Last(stack) {
      assert stack[k] < stack[|stack| - 1];
    }
  }

  lemma ViewClose(parts: seq<Part>, stack: seq<nat>, q: Quant)
    requires Sound(parts, stack) && stack != [] && Increasing(stack) && parts[Last(stack)].kind != NameKind
    ensures var g := Last(stack);
            var parts' := parts[g := parts[g].(quant := q)];
            var v := View(parts, stack);
            View(parts', stack[..|stack| - 1]) == v[g := v[g].(quant := q)]
            && Sound(parts', stack[..|stack| - 1])
  {
    TopLeaves(stack);
    var g, rest := Last(stack), stack[..|stack| - 1];
    var parts' := parts[g := parts[g].(quant := q)];
    hide Increasing, Last;
    SoundQuant(parts, stack, g, q);
    hide Sound;
    var v, w := View(parts, stack), View(parts', rest);
    forall i: nat | i < |parts| ensures w[i] == if i == g then v[g].(quant := q) else v[i] {
      assert w[i] == Clean(parts'[i], i in rest) && v[i] == Clean(parts[i], i in stack);
    }
  }

  lemma SoundQuant(parts: seq<Part>, stack: seq<nat>, g: nat, q: Quant)
    requires Sound(parts, stack) && stack != [] && g < |parts|
    ensures Sound(parts[g := parts[g].(quant := q)], stack[..|stack| - 1])
  {
  }

  lemma ViewKind(parts: seq<Part>, stack: seq<nat>, k: Kind)
    requires Sound(parts, stack) && stack != [] && parts[Last(stack)].kind != NameKind && k != NameKind
    ensures var g := Last(stack);
            var parts' := parts[g := parts[g].(kind := k)];
            var v := View(parts, stack);
            View(parts', stack) == v[g := v[g].(kind := k)] && Sound(parts', stack)
  {
  }

  predicate Unlinked(p: Part) {
    p.firstchild == p.lastchild == p.childcnt == p.nextsib == 0
  }

  lemma TopKind(parts: seq<Part>, stack: seq<nat>)
    requires Sound(parts, stack) && stack != []
    ensures View(parts, stack)[Last(stack)].kind == parts[Last(stack)].kind
  {
  }

  /** The first `|` of a group that is not mixed makes it a choice. */
  lemma ChosenIs(s: State, chosen: State)
    requires Valid(s) && s.stack != [] && s.conn != []
    requires var g := Last(s.stack);
             chosen == if Last(s.conn) == Unset && s.parts[g].kind != Mixed
                       then s.(parts := s.parts[g := s.parts[g].(kind := Choice)]) else s
    ensures Chosen(s) == chosen.(conn := chosen.conn[|s.conn| - 1 := Pipe])
  {
    hide Sound, Levelled;
  }

  ghost predicate Groups(parts: seq<Part>, stack: seq<nat>) {
    forall i: nat :: i < |stack| && stack[i] < |parts| ==> parts[stack[i]].kind != NameKind
  }

  /** The connectors of the open groups; level 0 has none. */
  function Conns(gc: seq<Connector>, level: int): (r: seq<Connector>)
    requires level == 0 || 0 < level < |gc|
    ensures |r| == level
  {
    if level == 0 then [] else gc[1..level + 1]
  }

  lemma ConnsClosed(gc: seq<Connector>, level: int, l: int)
    requires 0 <= l <= level && (level == 0 || level < |gc|)
    ensures Conns(gc, l) == Conns(gc, level)[..l]
  {
  }

  lemma ConnsOpened(gc: seq<Connector>, gc': seq<Connector>, level: int, l: int)
    requires gc <= gc' && 1 <= l <= level + 1 && l < |gc'| && (level == 0 || level < |gc|)
    ensures Conns(gc'[l := Unset], l) == Conns(gc, level)[..l - 1] + [Unset]
  {
  }

  lemma ConnsSet(gc: seq<Connector>, level: int, c: Connector)
    requires 0 < level < |gc|
    ensures Conns(gc[level := c], level) == Conns(gc, level)[level - 1 := c]
  {
  }

  ghost predicate Increasing(stack: seq<nat>) {
    forall i: nat, j: nat :: i < j < |stack| ==> stack[i] < stack[j]
  }

  /** The content handed to the application. */
  class Content {
    const cells: array<Cell>
    const strs: array<char>
    constructor (cells: array<Cell>, strs: array<char>)
      ensures this.cells == cells && this.strs == strs
    {
      this.cells, this.strs := cells, strs;
    }
  }

  class DeclParser {
    var handler: Handler
    var level: int
    var groupConnector: seq<Connector>
    var inDecl: bool
    var scaffold: seq<Part>
    var scaffCount: nat
    var scaffIndex: seq<nat>
    var scaffLevel: nat
    var contentStringLen: nat

    /** The arrays are big enough for what is in use. */
    ghost predicate Fits()
      reads this
    {
      && 0 <= level && (level == 0 || level < |groupConnector|)
      && scaffCount <= |scaffold| && scaffLevel <= |scaffIndex|
      && |scaffIndex| in {0, |groupConnector|}
      && Increasing(scaffIndex[..scaffLevel])
      && Sound(scaffold[..scaffCount], scaffIndex[..scaffLevel])
      && Groups(scaffold[..scaffCount], scaffIndex[..scaffLevel])
    }

    ghost function Abs(): State
      reads this
      requires Fits()
    {
      State(handler, level, Conns(groupConnector, level), inDecl,
            View(scaffold[..scaffCount], scaffIndex[..scaffLevel]), scaffIndex[..scaffLevel], contentStringLen)
    }

    ghost predicate Ready()
      reads this
    {
      Fits() && Valid(Abs())
    }

    constructor ()
      ensures Ready() && handler == InternalSubset
    {
      handler, level := InternalSubset, 0;
      groupConnector, scaffold, scaffIndex := [], [], [];
      inDecl, scaffCount, scaffLevel, contentStringLen := false, 0, 0, 0;
    }

    /** Room for the connector of level `l`. */
    method EnsureGroup(l: int)
      requires 1 <= l <= level + 1 && Fits()
      modifies `groupConnector, `scaffIndex
      ensures l < |groupConnector| && |scaffIndex| in {0, |groupConnector|}
      ensures old(groupConnector) <= groupConnector && old(scaffIndex) <= scaffIndex
    {
      if l >= |groupConnector| {
        if |groupConnector| > 0 {
          var n := |groupConnector|;
          groupConnector := groupConnector + seq(n, _ => Unset);
          if |scaffIndex| > 0 {
            scaffIndex := scaffIndex + seq(n, _ => 0);
          }
        } else {
          groupConnector := seq(INIT_GROUP_SIZE, _ => Unset);
        }
      }
    }

    method EnsureScaffold()
      requires Fits() && |groupConnector| > 0
      modifies `scaffold, `scaffIndex
      ensures Fits() && scaffCount < |scaffold| && |scaffIndex| == |groupConnector|
      ensures scaffold[..scaffCount] == old(scaffold[..scaffCount])
      ensures scaffIndex[..scaffLevel] == old(scaffIndex[..scaffLevel])
    {
      if |scaffIndex| == 0 {
        scaffIndex := seq(|groupConnector|, _ => 0);
      }
      if scaffCount >= |scaffold| {
        if |scaffold| > 0 {
          scaffold := scaffold + seq(|scaffold|, _ => NEW_PART);
        } else {
          scaffold := seq(INIT_SCAFFOLD_ELEMENTS, _ => NEW_PART);
        }
      }
    }

    /** A new scaffold cell, linked to its parent and previous sibling; its type, quantifier
        and name are whatever the cell held before. */
    method NextScaffoldPart() returns (next: nat)
      requires Fits() && |groupConnector| > 0
      modifies `scaffold, `scaffCount, `scaffIndex
      ensures next == old(scaffCount) && scaffCount == next + 1 <= |scaffold|
      ensures |scaffIndex| == |groupConnector| && scaffIndex[..scaffLevel] == old(scaffIndex[..scaffLevel])
      ensures Unlinked(scaffold[next])
      ensures scaffold[..next] == old(Base(scaffold[..scaffCount], scaffIndex[..scaffLevel]))
    {
      EnsureScaffold();
      ghost var parts := scaffold[..scaffCount];
      next := scaffCount;
      scaffCount := scaffCount + 1;
      if scaffLevel > 0 {
        var parent := scaffIndex[scaffLevel - 1];
        assert parent == scaffIndex[..scaffLevel][scaffLevel - 1];
        var last := scaffold[parent].lastchild;
        assert last == parts[parent].lastchild;
        if last != 0 {
          scaffold := scaffold[last := scaffold[last].(nextsib := next)];
        }
        var p := scaffold[parent];
        if p.childcnt == 0 {
          p := p.(firstchild := next);
        }
        scaffold := scaffold[parent := p.(lastchild := next, childcnt := p.childcnt + 1)];
      }
      scaffold := scaffold[next := scaffold[next].(firstchild := 0, lastchild := 0, childcnt := 0, nextsib := 0)];
    }

    method OpenGroup(l: int)
      requires Ready() && 1 <= l <= level + 1 && scaffLevel == l - 1
      modifies this
      ensures Fits() && Abs() == old(Opened(Abs(), l))
    {
      hide View, Linked, Base, AddPart, Sound, Groups, Levelled;
      ghost var parts, stack := scaffold[..scaffCount], scaffIndex[..scaffLevel];
      hide Conns, Increasing;
      ghost var gc := groupConnector;
      EnsureGroup(l);
      ConnsOpened(gc, groupConnector, level, l);
      assert scaffIndex[..scaffLevel] == stack;
      var myindex := NextScaffoldPart();
      groupConnector := groupConnector[l := Unset];
      level := l;
      scaffIndex := scaffIndex[scaffLevel := myindex];
      scaffLevel := scaffLevel + 1;
      scaffold := scaffold[myindex := scaffold[myindex].(kind := Seq)];
      assert scaffold[..scaffCount] == Base(parts, stack) + [scaffold[myindex]];
      assert scaffIndex[..scaffLevel] == stack + [|parts|];
      ViewAdd(parts, stack, scaffold[myindex]);
      SoundAdd(parts, stack, scaffold[myindex]);
      BaseGroups(parts, stack, scaffold[myindex]);
    }

    method AddName(name: string, q: Quant)
      requires Ready() && |groupConnector| > 0
      modifies this
      ensures Fits()
      ensures Abs() == old(var s := Abs();
                           s.(parts := AddPart(s.parts, s.stack, NEW_PART.(kind := NameKind, quant := q, name := name)),
                              strLen := s.strLen + |name| + 1))
    {
      hide View, Linked, Base;
      ghost var parts, stack := scaffold[..scaffCount], scaffIndex[..scaffLevel];
      var myindex := NextScaffoldPart();
      scaffold := scaffold[myindex := scaffold[myindex].(kind := NameKind, quant := q, name := name)];
      contentStringLen := contentStringLen + |name| + 1;
      assert scaffold[..scaffCount] == Base(parts, stack) + [scaffold[myindex]];
      ViewAdd(parts, stack, scaffold[myindex]);
      SoundAdd(parts, stack, scaffold[myindex]);
      BaseGroups(parts, stack, scaffold[myindex]);
    }

    method SetKind(k: Kind)
      requires Ready() && scaffLevel > 0 && k in {Mixed, Choice}
      modifies `scaffold
      ensures Fits()
      ensures Abs() == old(var s := Abs();
                           s.(parts := s.parts[Last(s.stack) := s.parts[Last(s.stack)].(kind := k)]))
    {
      hide View;
      ghost var parts, stack := scaffold[..scaffCount], scaffIndex[..scaffLevel];
      var g := scaffIndex[scaffLevel - 1];
      assert g == Last(stack);
      scaffold := scaffold[g := scaffold[g].(kind := k)];
      assert scaffold[..scaffCount] == parts[g := parts[g].(kind := k)];
      ViewKind(parts, stack, k);
    }

    /** `build_model`: exactly `scaffCount` cells and `contentStringLen` characters. */
    method BuildModel(ghost m: Model) returns (c: Content)
      requires scaffCount <= |scaffold|
      requires Shows(View(scaffold[..scaffCount], []), 0, m)
      requires scaffCount == Size(m) && contentStringLen == Chars(m)
      ensures fresh(c) && Delivered(c, ModelSpec(m))
    {
      ShowsInView(scaffold[..scaffCount], 0, m);
      var cells := new Cell[scaffCount];
      var strs := new char[contentStringLen];
      var contpos, strpos := BuildNode(scaffold[..scaffCount], 0, 0, cells, strs, 1, 0, m);
      assert contpos == cells.Length && strpos == strs.Length;
      PackedIsSeen(cells[..], strs[..], 0, 1, 0, m);
      c := new Content(cells, strs);
    }

    method CloseGroup(l: int, q: Quant, ghost m: Model) returns (c: Content?)
      requires Ready() && scaffLevel > 0 && 0 <= l <= level
      requires scaffLevel == 1 ==> Complete(Abs(), m) && m.quant == q
      modifies this
      ensures Fits() && Abs() == old(Closed(Abs(), l, q))
      ensures old(scaffLevel) > 1 ==> c == null
      ensures old(scaffLevel) == 1 ==> c != null && fresh(c) && Delivered(c, ModelSpec(m))
    {
      hide View, Shows, Delivered;
      ghost var parts, stack := scaffold[..scaffCount], scaffIndex[..scaffLevel];
      hide Conns;
      ConnsClosed(groupConnector, level, l);
      level := l;
      scaffLevel := scaffLevel - 1;
      var g := scaffIndex[scaffLevel];
      assert g == Last(stack);
      scaffold := scaffold[g := scaffold[g].(quant := q)];
      assert scaffold[..scaffCount] == parts[g := parts[g].(quant := q)];
      assert scaffIndex[..scaffLevel] == stack[..|stack| - 1];
      ViewClose(parts, stack, q);
      c := null;
      if scaffLevel == 0 {
        assert stack[..|stack| - 1] == [];
        c := BuildModel(m);
        inDecl := false;
        contentStringLen := 0;
      }
    }

    method Connect(c: Connector)
      requires Fits() && level > 0
      modifies `groupConnector
      ensures Fits() && Abs() == old(var s := Abs(); s.(conn := s.conn[level - 1 := c]))
    {
      ConnsSet(groupConnector, level, c);
      groupConnector := groupConnector[level := c];
    }

    method Sequence() returns (ok: bool)
      requires Ready() && level > 0
      modifies this
      ensures Fits()
      ensures ok <==> old(Last(Abs().conn)) != Pipe
      ensures ok ==> Abs() == old(var s := Abs(); s.(conn := s.conn[|s.conn| - 1 := Comm]))
    {
      if groupConnector[level] == Pipe {
        return false;
      }
      Connect(Comm);
      return true;
    }

    method Alternative() returns (ok: bool)
      requires Ready() && level > 0 && scaffLevel > 0
      modifies this
      ensures Fits()
      ensures ok <==> old(Last(Abs().conn)) != Comm
      ensures ok ==> Abs() == old(Chosen(Abs()))
    {
      hide View, Conns, Sound, Groups, Increasing, Chosen, Levelled;
      AtTop();
      if groupConnector[level] == Comm {
        return false;
      }
      ghost var s := Abs();
      if groupConnector[level] == Unset && scaffold[scaffIndex[scaffLevel - 1]].kind != Mixed {
        SetKind(Choice);
      }
      ChosenIs(s, Abs());
      Connect(Pipe);
      return true;
    }

    /** What the abstract state says of the group being read. */
    lemma AtTop()
      requires Ready() && level > 0 && scaffLevel > 0
      ensures var s := Abs();
              && s.conn != [] && |s.conn| == level && Last(s.conn) == groupConnector[level]
              && s.stack != [] && Last(s.stack) == scaffIndex[scaffLevel - 1] < |s.parts|
              && s.parts[Last(s.stack)].kind == scaffold[Last(s.stack)].kind
    {
      hide View, Groups, Increasing, Levelled;
      TopKind(scaffold[..scaffCount], scaffIndex[..scaffLevel]);
      assert scaffIndex[scaffLevel - 1] == Last(scaffIndex[..scaffLevel]);
    }

    method NewDeclaration()
      requires Ready()
      modifies this
      ensures Fits() && Abs() == old(Abs()).(inDecl := true, parts := [], stack := [])
    {
      scaffLevel, scaffCount, inDecl := 0, 0, true;
      assert View(scaffold[..0], scaffIndex[..0]) == [];
    }

    method Keyword(t: ContentType) returns (c: Content)
      ensures fresh(c) && c.cells[..] == [Cell(t, None, -1, 0, 0)]
    {
      var cells := new Cell[1];
      cells[0] := Cell(t, None, -1, 0, 0);
      var strs := new char[0];
      c := new Content(cells, strs);
    }

    /** The prolog processor's reaction to a role. */
    method React(l: int, role: Role, tok: Tok, ghost m: Model) returns (ok: bool, content: Content?)
      requires Ready() && Possible(Abs(), l, role, tok)
      requires role.GroupClose? && |Abs().stack| == 1 ==> Complete(Abs(), m) && m.quant == role.quant
      modifies this
      ensures ok <==> old(Reacted(Abs(), l, role, tok)).Next?
      ensures ok ==> Fits() && Abs() == old(Reacted(Abs(), l, role, tok)).state
      ensures ok ==> match role
                     case ContentEmpty => content != null && fresh(content) && Delivered(content, EmptySpec)
                     case ContentAny => content != null && fresh(content) && Delivered(content, AnySpec)
                     case GroupClose(_) =>
                       if old(scaffLevel) == 1 then content != null && fresh(content)
                         && Delivered(content, ModelSpec(m))
                       else content == null
                     case _ => content == null
    {
      hide View, Shows, Complete, Conns, Sound, Groups, Increasing, Opened, Closed, Chosen, AddPart;
      ok, content := true, null;
      match role
      case RoleError =>
        ok := false;
      case NoRole =>
      case ElementName =>
        NewDeclaration();
      case ContentEmpty =>
        content := Keyword(TypeEmpty);
        inDecl := false;
      case ContentAny =>
        content := Keyword(TypeAny);
        inDecl := false;
      case ContentPcdata =>
        SetKind(Mixed);
      case ContentElement(q) =>
        AddName(tok.name, q);
      case GroupOpen =>
        OpenGroup(l);
      case GroupSequence =>
        ok := Sequence();
      case GroupChoice =>
        ok := Alternative();
      case GroupClose(q) =>
        content := CloseGroup(l, q, m);
    }

    /** One token of a declaration. */
    method Token(tok: Tok, ghost m: Model) returns (ok: bool, content: Content?)
      requires Ready()
      requires Completes(Abs(), tok) ==> Complete(Abs(), m) && m.quant == tok.quant
      modifies this
      ensures ok <==> old(Step(Abs(), tok)).Next?
      ensures ok ==> Ready() && Abs() == old(Step(Abs(), tok)).state
      ensures ok ==> Handed(old(Abs()), tok, m, content) && (content != null ==> fresh(content))
    {
      hide Delivered, Reacted, TokenRole, Possible, Complete, Completes, View, Conns, Sound, Groups, Increasing,
           Levelled;
      var r := TokenRole(handler, level, tok);
      CompletesRole(Abs(), tok);
      RolesArePossible(Abs(), tok);
      ok, content := React(r.level, r.role, tok, m);
      handler := r.handler;
    }

    /** A whole element declaration, after any number of earlier ones: accepted exactly when
        it is in the grammar, and then the application gets the tree it was written as. */
    method ReadDeclaration(toks: seq<Tok>) returns (ok: bool, content: Content?)
      requires Ready() && handler == InternalSubset
      modifies this
      ensures ok <==> exists name, spec :: IsSpec(spec) && Strip(toks) == PrintDecl(name, spec)
      ensures ok ==> Ready() && handler == InternalSubset && content != null && fresh(content)
      ensures ok ==> exists name, spec :: IsSpec(spec) && Strip(toks) == PrintDecl(name, spec)
                                          && Delivered(content, spec)
    {
      hide Complete, Step, Run, Delivered, View, Conns, Sound, Groups, Increasing, Handed, IsSpec, PrintSpec,
           PrintDecl, Strip;
      StripNothing();
      assert toks[..0] == [];
      handler := Element0;
      ghost var s0 := Abs();
      AcceptedIffGrammar(s0, toks);
      content := null;
      ghost var p := Progress("", EmptySpec);
      var i := 0;
      RunNone(s0);
      while i < |toks|
        invariant i <= |toks| && Ready() && Run(s0, toks[..i]) == Next(Abs())
        invariant content != null ==> fresh(content)
        invariant Tracks(handler, Strip(toks[..i]), p, content)
      {
        ghost var before := Abs();
        var tok := toks[i];
        ghost var m := Leaf("", None);
        assert toks[..i + 1] == toks[..i] + [tok];
        RunConcat(s0, toks[..i], [tok]);
        RunOne(before, tok);
        StripSnoc(toks[..i], tok);
        ghost var tree := p;
        if Completes(before, tok) {
          var name, model := TreeAt(s0, toks, i);
          m, tree := model, Progress(name, ModelSpec(model));
        }
        ghost var last := content;
        var c;
        ok, c := Token(tok, m);
        if !ok {
          RunConcat(s0, toks[..i + 1], toks[i + 1..]);
          assert toks == toks[..i + 1] + toks[i + 1..];
          return false, null;
        }
        if c != null {
          content := c;
        }
        p := TrackStep(before, tok, Strip(toks[..i]), p, tree, m, last, c, content);
        i := i + 1;
      }
      assert toks[..i] == toks;
      ok := handler == InternalSubset;
    }
  }

  /** What a declaration has been read as so far (of interest at its end). */
  datatype Progress = Progress(name: string, spec: Spec)

  ghost predicate Tracks(h: Handler, read: seq<Tok>, p: Progress, content: Content?)
    reads if content == null then {} else {content.cells, content.strs}
  {
    && (h == Element0 ==> read == [])
    && (h == Element1 ==> read == [Name(p.name, None)])
    && (h == Closing ==> read + [DeclClose] == PrintDecl(p.name, p.spec))
    && (h == InternalSubset ==> read == PrintDecl(p.name, p.spec))
    && (h in {Closing, InternalSubset} ==> IsSpec(p.spec) && content != null && Delivered(content, p.spec))
  }

  lemma RunNone(s: State)
    requires Valid(s)
    ensures Run(s, []) == Next(s)
  {
  }

  /** The content that comes with a token. */
  ghost predicate Handed(s: State, tok: Tok, m: Model, c: Content?)
    requires Valid(s)
    reads if c == null then {} else {c.cells, c.strs}
  {
    match TokenRole(s.handler, s.level, tok).role
    case ContentEmpty => c != null && Delivered(c, EmptySpec)
    case ContentAny => c != null && Delivered(c, AnySpec)
    case GroupClose(_) => if |s.stack| == 1 then c != null && Delivered(c, ModelSpec(m)) else c == null
    case _ => c == null
  }

  lemma TrackStep(s: State, tok: Tok, read: seq<Tok>, p: Progress, tree: Progress, m: Model,
                  last: Content?, c: Content?, content: Content?) returns (p': Progress)
    requires Valid(s) && Step(s, tok).Next?
    requires Tracks(s.handler, read, p, last) && Handed(s, tok, m, c)
    requires content == if c != null then c else last
    requires Completes(s, tok) ==> IsSpec(tree.spec) && tree.spec == ModelSpec(m)
                                   && read + [tok] == [Name(tree.name, None)] + PrintSpec(tree.spec)
    ensures Tracks(Step(s, tok).state.handler, read + if tok == Space then [] else [tok], p', content)
  {
    hide Delivered, Sound, Reacted;
    if s.handler == Element0 && tok.Name? {
      p' := Progress(tok.name, p.spec);
    } else if s.handler == Element1 && tok != Space {
      p' := p.(spec := if tok == Name("EMPTY", None) then EmptySpec else AnySpec);
    } else if Completes(s, tok) {
      p' := tree;
    } else {
      p' := p;
      assert read + [] == read;
    }
  }

  /** The token ends the content model. */
  ghost predicate Completes(s: State, tok: Tok)
    requires Valid(s)
  {
    tok.CloseParen? && Step(s, tok).Next? && Step(s, tok).state.handler == Closing
  }

  lemma CompletesRole(s: State, tok: Tok)
    requires Valid(s)
    ensures var r := TokenRole(s.handler, s.level, tok);
            r.role.GroupClose? && |s.stack| == 1 ==> Completes(s, tok) && r.role.quant == tok.quant
  {
    hide Sound, Linked, AddPart;
  }

  lemma RolesArePossible(s: State, tok: Tok)
    requires Valid(s)
    ensures var r := TokenRole(s.handler, s.level, tok); Possible(s, r.level, r.role, tok)
  {
    hide Sound;
    match s.handler
    case Element0 =>
    case Element1 =>
    case Element2 =>
    case Element3 =>
    case Element4 =>
    case Element5 =>
    case Element6 =>
    case Element7 =>
    case Closing =>
    case InternalSubset =>
    case Error =>
  }

  /** What the automaton guarantees about the roles it returns. */
  ghost predicate Possible(s: State, l: int, role: Role, tok: Tok)
    requires Valid(s)
  {
    && (role == GroupOpen ==> 1 <= l <= s.level + 1 && |s.stack| == l - 1)
    && (role == ContentPcdata || role.GroupClose? || role in {GroupSequence, GroupChoice} ==>
          s.stack != [] && s.conn != [])
    && (role.GroupClose? ==> 0 <= l <= s.level)
    && (role in {GroupSequence, GroupChoice} ==> l == s.level)
    && (role.ContentElement? ==> tok.Name? && s.level >= 1)
  }

  /** What the application gets for a declaration. */
  ghost predicate Delivered(c: Content, spec: Spec)
    reads c.cells, c.strs
  {
    match spec
    case EmptySpec => c.cells[..] == [Cell(TypeEmpty, None, -1, 0, 0)]
    case AnySpec => c.cells[..] == [Cell(TypeAny, None, -1, 0, 0)]
    case ModelSpec(m) =>
      && c.cells.Length == Size(m) && c.strs.Length == Chars(m)
      && Packed(c.cells[..], c.strs[..], 0, 1, 0, m)
      && Seen(c.cells[..], c.strs[..], 0, m)
  }

  lemma {:induction false} ShowsInView(parts: seq<Part>, i: nat, m: Model)
    requires Shows(View(parts, []), i, m)
    ensures Shows(parts, i, m)
    decreases m
  {
    if m.Node? {
      ShowsAllInView(parts, i + 1, m.kids);
    }
  }

  lemma {:induction false} ShowsAllInView(parts: seq<Part>, i: nat, kids: Models)
    requires ShowsAll(View(parts, []), i, kids)
    ensures ShowsAll(parts, i, kids)
    decreases kids
  {
    match kids
    case Nil =>
    case Cons(m, tail) =>
      ShowsInView(parts, i, m);
      ShowsAllInView(parts, i + Size(m), tail);
  }

  lemma BaseGroups(parts: seq<Part>, stack: seq<nat>, p: Part)
    requires Sound(parts, stack) && Groups(parts, stack) && Increasing(stack)
    ensures Groups(Base(parts, stack) + [p], stack)
    ensures p.kind != NameKind ==> Groups(Base(parts, stack) + [p], stack + [|parts|])
    ensures Increasing(stack + [|parts|])
  {
  }

  lemma StripNothing()
    ensures Strip([]) == []
  {
  }
}
