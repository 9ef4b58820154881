/**
 The grammar of element declarations (productions [45] to [51] of XML 1.0), what the
 scaffold looks like when it represents a content model, and the two directions of the
 correspondence: every declaration of the grammar runs through the automaton and leaves
 its own tree in the scaffold, and whatever runs through the automaton is a declaration
 of the grammar.
 */
module ContentGrammar {
  import opened ContentModel

  /** A content model tree, as the element declaration handler is to receive it. */
  datatype Model = Leaf(name: string, quant: Quant) | Node(kind: Kind, kids: Models, quant: Quant)
  datatype Models = Nil | Cons(head: Model, tail: Models)

  datatype Spec = EmptySpec | AnySpec | ModelSpec(model: Model)

  function Len(kids: Models): nat {
    match kids case Nil => 0 case Cons(_, tail) => 1 + Len(tail)
  }

  /** The number of scaffold cells, and of characters with a NUL after each name. */
  function Size(m: Model): nat
    ensures Size(m) >= 1
  {
    match m case Leaf(_, _) => 1 case Node(_, kids, _) => 1 + SizeAll(kids)
  }

  function SizeAll(kids: Models): nat {
    match kids case Nil => 0 case Cons(m, tail) => Size(m) + SizeAll(tail)
  }

  function Chars(m: Model): nat {
    match m case Leaf(name, _) => |name| + 1 case Node(_, kids, _) => CharsAll(kids)
  }

  function CharsAll(kids: Models): nat {
    match kids case Nil => 0 case Cons(m, tail) => Chars(m) + CharsAll(tail)
  }

  /** Productions [48] cp, [49] choice and [50] seq. */
  predicate IsCp(m: Model) {
    match m
    case Leaf(_, _) => true
    case Node(kind, kids, _) =>
      AreCps(kids) && kids.Cons? && (kind == Seq || (kind == Choice && kids.tail.Cons?))
  }

  predicate AreCps(kids: Models) {
    match kids case Nil => true case Cons(m, tail) => IsCp(m) && AreCps(tail)
  }

  predicate AreNames(kids: Models) {
    match kids case Nil => true case Cons(m, tail) => m.Leaf? && m.quant == None && AreNames(tail)
  }

  /** Productions [46] contentspec, [47] children and [51] Mixed. */
  predicate IsSpec(spec: Spec) {
    match spec
    case EmptySpec => true
    case AnySpec => true
    case ModelSpec(m) =>
      m.Node? &&
      if m.kind == Mixed then
        AreNames(m.kids) && (m.quant == Rep || (m.quant == None && m.kids == Nil))
      else IsCp(m)
  }

  function Print(m: Model): seq<Tok> {
    match m
    case Leaf(name, q) => [Name(name, q)]
    case Node(kind, kids, q) => [OpenParen] + PrintKids(kids, if kind == Choice then Or else Comma) + [CloseParen(q)]
  }

  function PrintKids(kids: Models, sep: Tok): seq<Tok> {
    match kids
    case Nil => []
    case Cons(m, Nil) => Print(m)
    case Cons(m, tail) => Print(m) + [sep] + PrintKids(tail, sep)
  }

  function PrintNames(kids: Models): seq<Tok> {
    match kids case Nil => [] case Cons(m, tail) => [Or] + Print(m) + PrintNames(tail)
  }

  function PrintSpec(spec: Spec): seq<Tok> {
    match spec
    case EmptySpec => [Name("EMPTY", None)]
    case AnySpec => [Name("ANY", None)]
    case ModelSpec(m) =>
      if m.Node? && m.kind == Mixed
      then [OpenParen, PoundName("PCDATA")] + PrintNames(m.kids) + [CloseParen(m.quant)]
      else Print(m)
  }

  /** Production [45] elementdecl after `<!ELEMENT`, without white space. */
  function PrintDecl(name: string, spec: Spec): seq<Tok> {
    [Name(name, None)] + PrintSpec(spec) + [DeclClose]
  }

  /* ----- the scaffold as a tree ----- */

  /** The cells from `i` on hold the tree `m` in preorder: first child next to its parent,
      each sibling linked to the next.  The link after the root is not part of it. */
  ghost predicate Shows(parts: seq<Part>, i: nat, m: Model)
    decreases m
  {
    && i + Size(m) <= |parts|
    && parts[i].quant == m.quant
    && match m
       case Leaf(name, _) => parts[i].kind == NameKind && parts[i].name == name
       case Node(kind, kids, _) =>
         && parts[i].kind == kind != NameKind
         && parts[i].childcnt == Len(kids)
         && (kids.Cons? ==> parts[i].firstchild == i + 1)
         && ShowsAll(parts, i + 1, kids)
  }

  ghost predicate ShowsAll(parts: seq<Part>, i: nat, kids: Models)
    decreases kids
  {
    match kids
    case Nil => true
    case Cons(m, tail) =>
      && Shows(parts, i, m)
      && (tail.Cons? ==> parts[i].nextsib == i + Size(m))
      && ShowsAll(parts, i + Size(m), tail)
  }

  /** Same cells from `i` on for `n` cells, but for the sibling link at `j`. */
  ghost predicate SameBut(a: seq<Part>, b: seq<Part>, i: nat, n: nat, j: nat) {
    && i + n <= |a| && i + n <= |b|
    && forall k: nat :: i <= k < i + n ==> a[k].(nextsib := if k == j then b[k].nextsib else a[k].nextsib) == b[k]
  }

  lemma {:induction false} ShowsFrame(a: seq<Part>, b: seq<Part>, i: nat, m: Model, j: nat)
    requires Shows(a, i, m) && SameBut(a, b, i, Size(m), j)
    requires j <= i || j >= i + Size(m)
    ensures Shows(b, i, m)
    decreases m
  {
    if m.Node? {
      assert SameBut(a, b, i + 1, SizeAll(m.kids), j);
      ShowsAllFrame(a, b, i + 1, m.kids, j);
    }
  }

  lemma {:induction false} ShowsAllFrame(a: seq<Part>, b: seq<Part>, i: nat, kids: Models, j: nat)
    requires ShowsAll(a, i, kids) && SameBut(a, b, i, SizeAll(kids), j)
    requires j < i || j >= i + SizeAll(kids)
    ensures ShowsAll(b, i, kids)
    decreases kids
  {
    match kids
    case Nil =>
    case Cons(m, tail) =>
      ShowsFrame(a, b, i, m, j);
      ShowsAllFrame(a, b, i + Size(m), tail, j);
  }

  /* ----- running the automaton over a printed model ----- */

  lemma {:induction false} RunConcat(s: State, a: seq<Tok>, b: seq<Tok>)
    requires Valid(s)
    ensures Run(s, a + b) == var o := Run(s, a); if o.Fail? then Fail else Run(o.state, b)
    decreases |a|
  {
    if a == [] {
      assert a + b == b;
    } else {
      assert (a + b)[1..] == a[1..] + b;
      var o := Step(s, a[0]);
      if o.Next? {
        RunConcat(o.state, a[1..], b);
      }
    }
  }

  lemma RunOne(s: State, t: Tok)
    requires Valid(s)
    ensures Run(s, [t]) == Step(s, t)
  {
    var o := Step(s, t);
    if o.Next? {
      assert Run(o.state, []) == o;
    }
  }

  lemma OneKid(m: Model)
    ensures var kids := Cons(m, Nil);
            Len(kids) == 1 && SizeAll(kids) == Size(m) && CharsAll(kids) == Chars(m)
  {
    assert SizeAll(Nil) == 0 && CharsAll(Nil) == 0;
  }

  lemma OneKidShows(parts: seq<Part>, i: nat, m: Model)
    ensures ShowsAll(parts, i, Cons(m, Nil)) <==> Shows(parts, i, m)
  {
    assert ShowsAll(parts, i + Size(m), Nil);
  }

  lemma RunCons(s: State, t: Tok, ts: seq<Tok>)
    requires Valid(s)
    ensures Run(s, [t] + ts) == var o := Step(s, t); if o.Fail? then Fail else Run(o.state, ts)
  {
    assert ([t] + ts)[1..] == ts;
  }

  lemma RunHead(s: State, ts: seq<Tok>)
    requires Valid(s) && ts != []
    ensures Run(s, ts) == var o := Step(s, ts[0]); if o.Fail? then Fail else Run(o.state, ts[1..])
  {
  }

  /** A particle may start here. */
  ghost predicate AtCp(s: State) {
    Valid(s) && s.handler in {Element2, Element6}
  }

  function LastIndex(i: nat, kids: Models): nat
    decreases kids
  {
    match kids
    case Nil => i
    case Cons(m, Nil) => i
    case Cons(m, tail) => LastIndex(i + Size(m), tail)
  }

  /** The record of the open group after its further children `kids`, from cell `n` on. */
  function Extended(rec: Part, n: nat, kids: Models, choice: bool, conn: Connector): Part
    requires kids.Cons?
  {
    rec.(firstchild := if rec.childcnt == 0 then n else rec.firstchild,
         lastchild := LastIndex(n, kids),
         childcnt := rec.childcnt + Len(kids),
         kind := if choice && kids.tail.Cons? && conn == Unset && rec.kind != Mixed then Choice else rec.kind)
  }

  ghost predicate CellOk(parts: seq<Part>, g: nat) {
    g < |parts| && (parts[g].lastchild != 0 ==> g < parts[g].lastchild < |parts|)
  }

  /** What the further children `kids` of cell `g` do to the scaffold. */
  ghost predicate Grown(parts: seq<Part>, parts': seq<Part>, g: nat, kids: Models, choice: bool, conn: Connector)
    requires CellOk(parts, g) && kids.Cons?
  {
    var n := |parts|;
    && |parts'| == n + SizeAll(kids)
    && (forall i: nat :: i < n && i != g ==> parts'[i] == Linked(parts, g)[i])
    && parts'[g] == Extended(parts[g], n, kids, choice, conn)
    && ShowsAll(parts', n, kids)
  }

  /** The group's record when a separator has been read. */
  function Marked(parts: seq<Part>, g: nat, choice: bool, conn: Connector): seq<Part>
    requires g < |parts|
  {
    if choice && conn == Unset && parts[g].kind != Mixed then parts[g := parts[g].(kind := Choice)] else parts
  }

  lemma GrownMoreShows(p0: seq<Part>, p1: seq<Part>, p3: seq<Part>, g: nat, kids: Models, choice: bool, conn: Connector)
    requires CellOk(p0, g) && kids.Cons? && kids.tail.Cons?
    requires Grown(p0, p1, g, Cons(kids.head, Nil), false, conn)
    requires CellOk(Marked(p1, g, choice, conn), g)
    requires Grown(Marked(p1, g, choice, conn), p3, g, kids.tail, choice, SepConn(choice))
    ensures ShowsAll(p3, |p0|, kids)
  {
    var n, m := |p0|, kids.head;
    OneKid(m);
    OneKidShows(p1, n, m);
    assert p1[g].lastchild == n;
    assert SameBut(p1, p3, n, Size(m), n);
    ShowsFrame(p1, p3, n, m, n);
  }

  lemma GrownMore(p0: seq<Part>, p1: seq<Part>, p3: seq<Part>, g: nat, kids: Models, choice: bool, conn: Connector)
    requires CellOk(p0, g) && kids.Cons? && kids.tail.Cons?
    requires Grown(p0, p1, g, Cons(kids.head, Nil), false, conn)
    requires CellOk(Marked(p1, g, choice, conn), g)
    requires Grown(Marked(p1, g, choice, conn), p3, g, kids.tail, choice, SepConn(choice))
    ensures Grown(p0, p3, g, kids, choice, conn)
  {
    GrownMoreShows(p0, p1, p3, g, kids, choice, conn);
    OneKid(kids.head);
    hide ShowsAll, Shows;
    assert p1[g].lastchild == |p0|;
  }

  /** A single new cell for a name. */
  lemma GrownLeaf(parts: seq<Part>, g: nat, name: string, q: Quant, conn: Connector)
    requires CellOk(parts, g)
    ensures var part := NEW_PART.(kind := NameKind, quant := q, name := name);
            Grown(parts, Linked(parts, g) + [part], g, Cons(Leaf(name, q), Nil), false, conn)
  {
    var m := Leaf(name, q);
    var parts' := Linked(parts, g) + [NEW_PART.(kind := NameKind, quant := q, name := name)];
    OneKid(m);
    OneKidShows(parts', |parts|, m);
    assert parts'[g] == Linked(parts, g)[g];
  }

  /** A group: a new cell, its particles, and the quantifier at the end. */
  lemma GrownGroup(parts: seq<Part>, p2: seq<Part>, g: nat, m: Model, conn: Connector)
    requires CellOk(parts, g) && IsCp(m) && m.Node?
    requires var p1 := Linked(parts, g) + [NEW_PART];
             Grown(p1, p2, |parts|, m.kids, m.kind == Choice, Unset)
    ensures var n := |parts|;
            Grown(parts, p2[n := p2[n].(quant := m.quant)], g, Cons(m, Nil), false, conn)
  {
    var n := |parts|;
    var p3 := p2[n := p2[n].(quant := m.quant)];
    RootShows(p2, n, m);
    OneKid(m);
    OneKidShows(p3, n, m);
    hide ShowsAll, Shows;
    assert p3[g] == Linked(parts, g)[g];
  }

  lemma RootShows(parts: seq<Part>, n: nat, m: Model)
    requires m.Node? && n < |parts| && m.kind != NameKind
    requires n + Size(m) <= |parts|
    requires parts[n].kind == m.kind && parts[n].childcnt == Len(m.kids)
    requires m.kids.Cons? ==> parts[n].firstchild == n + 1
    requires ShowsAll(parts, n + 1, m.kids)
    ensures Shows(parts[n := parts[n].(quant := m.quant)], n, m)
  {
    ShowsAllFrame(parts, parts[n := parts[n].(quant := m.quant)], n + 1, m.kids, 0);
  }

  /** What reading `kids` in the group on top of the stack does to the state. */
  ghost predicate Read(s: State, s': State, kids: Models, choice: bool)
    requires Valid(s) && s.stack != [] && s.conn != [] && kids.Cons?
  {
    && Valid(s') && s'.handler == Element7
    && s'.level == s.level && s'.stack == s.stack && s'.inDecl == s.inDecl
    && s'.strLen == s.strLen + CharsAll(kids)
    && s'.conn == (if kids.tail.Cons? then s.conn[|s.conn| - 1 := SepConn(choice)] else s.conn)
    && Grown(s.parts, s'.parts, Last(s.stack), kids, choice, Last(s.conn))
  }

  function SepTok(choice: bool): Tok {
    if choice then Or else Comma
  }

  function SepConn(choice: bool): Connector {
    if choice then Pipe else Comm
  }

  lemma StepOpen(s: State)
    requires AtCp(s)
    ensures Step(s, OpenParen) ==
            Next(s.(handler := Element6, level := s.level + 1, conn := s.conn + [Unset],
                    parts := Linked(s.parts, Last(s.stack)) + [NEW_PART], stack := s.stack + [|s.parts|]))
  {
    assert s.conn[..s.level] == s.conn;
  }

  lemma StepLeaf(s: State, name: string, q: Quant)
    requires AtCp(s)
    ensures Step(s, Name(name, q)) ==
            Next(s.(handler := Element7, strLen := s.strLen + |name| + 1,
                    parts := Linked(s.parts, Last(s.stack)) + [NEW_PART.(kind := NameKind, quant := q, name := name)]))
  {
  }

  lemma StepSep(s: State, choice: bool)
    requires Valid(s) && s.handler == Element7 && Last(s.conn) in {Unset, SepConn(choice)}
    ensures var g := Last(s.stack);
            Step(s, SepTok(choice)) ==
            Next(s.(handler := Element6, conn := s.conn[|s.conn| - 1 := SepConn(choice)],
                    parts := Marked(s.parts, g, choice, Last(s.conn))))
  {
  }

  lemma StepClose(s: State, q: Quant)
    requires Valid(s) && s.handler == Element7
    ensures var g := Last(s.stack);
            var top := s.level == 1;
            Step(s, CloseParen(q)) ==
            Next(s.(handler := if top then Closing else Element7, level := s.level - 1,
                    conn := s.conn[..s.level - 1], stack := s.stack[..s.level - 1],
                    parts := s.parts[g := s.parts[g].(quant := q)],
                    inDecl := !top, strLen := if top then 0 else s.strLen))
  {
  }

  /** One particle. */
  lemma {:induction false} RunCp(s: State, m: Model)
    requires AtCp(s) && IsCp(m)
    ensures var o := Run(s, Print(m));
            o.Next? && Read(s, o.state, Cons(m, Nil), false)
    decreases m
  {
    hide Step, Read;
    match m
    case Leaf(name, q) =>
      ReadLeaf(s, name, q);
      RunOne(s, Name(name, q));
    case Node(kind, kids, q) =>
      var choice := kind == Choice;
      var body := PrintKids(kids, SepTok(choice));
      StepOpen(s);
      var s1 := Step(s, OpenParen).state;
      RunKids(s1, kids, choice);
      var s2 := Run(s1, body).state;
      ReadGroup(s, s1, s2, m);
      RunOne(s, OpenParen);
      RunOne(s2, CloseParen(q));
      RunConcat(s, [OpenParen], body + [CloseParen(q)]);
      RunConcat(s1, body, [CloseParen(q)]);
      assert Print(m) == [OpenParen] + (body + [CloseParen(q)]);
  }

  lemma ReadLeaf(s: State, name: string, q: Quant)
    requires AtCp(s)
    ensures var o := Step(s, Name(name, q));
            o.Next? && Read(s, o.state, Cons(Leaf(name, q), Nil), false)
  {
    StepLeaf(s, name, q);
    GrownLeaf(s.parts, Last(s.stack), name, q, Last(s.conn));
    OneKid(Leaf(name, q));
    hide Step, TokenRole, Reacted, Grown;
  }

  lemma ReadGroup(s: State, s1: State, s2: State, m: Model)
    requires AtCp(s) && IsCp(m) && m.Node?
    requires Step(s, OpenParen) == Next(s1)
    requires s1.stack != [] && s1.conn != [] && Read(s1, s2, m.kids, m.kind == Choice)
    ensures var o := Step(s2, CloseParen(m.quant));
            o.Next? && Read(s, o.state, Cons(m, Nil), false)
  {
    hide Step, TokenRole, Reacted, Shows, ShowsAll;
    StepOpen(s);
    StepClose(s2, m.quant);
    OneKid(m);
    GrownGroup(s.parts, s2.parts, Last(s.stack), m, Last(s.conn));
    hide Grown;
    var s3 := Step(s2, CloseParen(m.quant)).state;
    assert s3.conn == s.conn && s3.stack == s.stack;
  }

  lemma AssociateToks(a: seq<Tok>, b: seq<Tok>, c: seq<Tok>)
    ensures a + b + c == a + (b + c)
  {
  }

  lemma PrintKidsCons(kids: Models, sep: Tok)
    requires kids.Cons?
    ensures kids.tail.Nil? ==> PrintKids(kids, sep) == Print(kids.head)
    ensures kids.tail.Cons? ==> PrintKids(kids, sep) == Print(kids.head) + ([sep] + PrintKids(kids.tail, sep))
  {
    hide Print;
    AssociateToks(Print(kids.head), [sep], PrintKids(kids.tail, sep));
  }

  /** The particles of a group, from a point where one of them may start. */
  lemma {:induction false} RunKids(s: State, kids: Models, choice: bool)
    requires AtCp(s) && AreCps(kids) && kids.Cons?
    requires kids.tail.Cons? ==> Last(s.conn) in {Unset, SepConn(choice)}
    ensures var o := Run(s, PrintKids(kids, SepTok(choice)));
            o.Next? && Read(s, o.state, kids, choice)
    decreases kids
  {
    hide Read, Step, Run, Print, PrintKids;
    var m, tail := kids.head, kids.tail;
    PrintKidsCons(kids, SepTok(choice));
    RunCp(s, m);
    var s1 := Run(s, Print(m)).state;
    ReadFirst(s, s1, m, choice);
    if tail.Cons? {
      var sep := SepTok(choice);
      var rest := PrintKids(tail, sep);
      var s2 := Step(s1, sep).state;
      RunKids(s2, tail, choice);
      ReadMore(s, s1, s2, Run(s2, rest).state, kids, choice);
      RunOne(s1, sep);
      RunConcat(s, Print(m), [sep] + rest);
      RunConcat(s1, [sep], rest);
    }
  }

  /** After a particle, a separator that fits the group leads to the next one. */
  lemma ReadFirst(s: State, s1: State, m: Model, choice: bool)
    requires Valid(s) && s.stack != [] && s.conn != []
    requires Read(s, s1, Cons(m, Nil), false)
    ensures Read(s, s1, Cons(m, Nil), choice)
    ensures Last(s.conn) in {Unset, SepConn(choice)} ==>
              var o := Step(s1, SepTok(choice));
              o.Next? && AtCp(o.state) && Last(o.state.conn) == SepConn(choice)
  {
    if Last(s.conn) in {Unset, SepConn(choice)} {
      StepSep(s1, choice);
    }
  }

  lemma ReadMore(s: State, s1: State, s2: State, s3: State, kids: Models, choice: bool)
    requires Valid(s) && s.stack != [] && s.conn != [] && kids.Cons? && kids.tail.Cons?
    requires Last(s.conn) in {Unset, SepConn(choice)}
    requires Read(s, s1, Cons(kids.head, Nil), false)
    requires Step(s1, SepTok(choice)) == Next(s2)
    requires s2.stack != [] && s2.conn != [] && Read(s2, s3, kids.tail, choice)
    ensures Read(s, s3, kids, choice)
  {
    StepSep(s1, choice);
    OneKid(kids.head);
    hide Step, TokenRole, Reacted, Grown;
    GrownMore(s.parts, s1.parts, s3.parts, Last(s.stack), kids, choice, Last(s.conn));
  }

  /** What reading further names of a mixed model does. */
  ghost predicate ReadNames(s: State, s': State, kids: Models)
    requires Valid(s) && s.stack != [] && kids.Cons?
  {
    && Valid(s') && s'.handler == Element5
    && s'.level == s.level && s'.stack == s.stack && s'.inDecl == s.inDecl && s'.conn == s.conn
    && s'.strLen == s.strLen + CharsAll(kids)
    && Grown(s.parts, s'.parts, Last(s.stack), kids, false, Unset)
  }

  lemma {:induction false} RunNames(s: State, kids: Models)
    requires Valid(s) && s.handler in {Element3, Element5} && AreNames(kids)
    ensures var o := Run(s, PrintNames(kids));
            o.Next? && if kids.Nil? then o.state == s else ReadNames(s, o.state, kids)
    decreases kids
  {
    hide Step, ReadNames;
    match kids
    case Nil =>
    case Cons(m, tail) =>
      OneName(s, m.name);
      var s2 := Step(Step(s, Or).state, Name(m.name, None)).state;
      RunNames(s2, tail);
      assert PrintNames(kids)[1..] == [Name(m.name, None)] + PrintNames(tail);
      assert PrintNames(kids)[1..][1..] == PrintNames(tail);
      if tail.Cons? {
        ReadMoreNames(s, s2, Run(s2, PrintNames(tail)).state, kids);
      }
  }

  lemma ReadMoreNames(s: State, s2: State, s3: State, kids: Models)
    requires Valid(s) && s.stack != [] && kids.Cons? && kids.tail.Cons?
    requires ReadNames(s, s2, Cons(kids.head, Nil)) && ReadNames(s2, s3, kids.tail)
    ensures ReadNames(s, s3, kids)
  {
    OneKid(kids.head);
    SeparatorIsIgnored(s2.parts, s3.parts, Last(s.stack), kids.tail, Unset, Comm);
    hide Grown;
    GrownMore(s.parts, s2.parts, s3.parts, Last(s.stack), kids, false, Unset);
  }

  lemma SeparatorIsIgnored(p0: seq<Part>, p1: seq<Part>, g: nat, kids: Models, c0: Connector, c1: Connector)
    requires CellOk(p0, g) && kids.Cons? && Grown(p0, p1, g, kids, false, c0)
    ensures Grown(p0, p1, g, kids, false, c1)
  {
  }

  lemma OneName(s: State, name: string)
    requires Valid(s) && s.handler in {Element3, Element5}
    ensures var o := Step(s, Or);
            o.Next? && var o' := Step(o.state, Name(name, None));
            o'.Next? && Valid(o'.state) && o'.state.handler == Element5 && o'.state.stack != []
            && ReadNames(s, o'.state, Cons(Leaf(name, None), Nil))
  {
    GrownLeaf(s.parts, Last(s.stack), name, None, Unset);
    OneKid(Leaf(name, None));
    hide Grown;
  }

  /** The tokens of a model up to the parenthesis that ends it. */
  function Body(m: Model): seq<Tok>
    requires m.Node?
  {
    if m.kind == Mixed then [OpenParen, PoundName("PCDATA")] + PrintNames(m.kids)
    else [OpenParen] + PrintKids(m.kids, SepTok(m.kind == Choice))
  }

  /** Everything but the last quantifier is in the scaffold, and the name characters have
      been counted. */
  ghost predicate Complete(s: State, m: Model) {
    && s.inDecl && s.stack == [0] && s.strLen == Chars(m) && |s.parts| == Size(m)
    && Shows(s.parts[0 := s.parts[0].(quant := m.quant)], 0, m)
  }

  const GROUP_START := State(Element2, 1, [Unset], true, [NEW_PART], [0], 0)

  const MIXED_START := GROUP_START.(handler := Element3, parts := [NEW_PART.(kind := Mixed)])

  lemma StartGroup(s: State)
    requires Valid(s) && s.handler == Element1
    ensures Valid(GROUP_START) && Step(s, OpenParen) == Next(GROUP_START)
  {
    assert s.conn[..0] + [Unset] == [Unset];
    assert TokenRole(s.handler, s.level, OpenParen) == RoleResult(Element2, 1, GroupOpen);
    assert AddPart([], [], NEW_PART) == [NEW_PART];
  }

  lemma StartMixed()
    requires Valid(GROUP_START)
    ensures Valid(MIXED_START) && Step(GROUP_START, PoundName("PCDATA")) == Next(MIXED_START)
  {
  }

  /** The state behind the names of a mixed model. */
  ghost predicate MixedRead(s: State, m: Model) {
    m.Node? && AreNames(m.kids) && if m.kids.Nil? then s == MIXED_START else ReadNames(MIXED_START, s, m.kids)
  }

  lemma MixedCloses(s: State, m: Model)
    requires IsSpec(ModelSpec(m)) && m.kind == Mixed && Valid(MIXED_START) && MixedRead(s, m)
    ensures Closable(s, m.quant)
  {
    hide Grown, ShowsAll, Shows;
  }

  lemma MixedIsComplete(s: State, m: Model)
    requires IsSpec(ModelSpec(m)) && m.kind == Mixed && Valid(MIXED_START) && MixedRead(s, m)
    ensures Complete(s, m)
  {
    if m.kids.Cons? {
      assert s.parts[0] == Extended(MIXED_START.parts[0], 1, m.kids, false, Unset);
    }
    RootShows(s.parts, 0, m);
  }

  lemma RunMixed(m: Model)
    requires IsSpec(ModelSpec(m)) && m.kind == Mixed && Valid(MIXED_START)
    ensures var o := Run(MIXED_START, PrintNames(m.kids));
            o.Next? && Complete(o.state, m) && Closable(o.state, m.quant)
  {
    RunNames(MIXED_START, m.kids);
    hide Run, Step, ReadNames, Complete, Closable;
    var s := Run(MIXED_START, PrintNames(m.kids)).state;
    MixedCloses(s, m);
    MixedIsComplete(s, m);
  }

  lemma RunChildren(m: Model)
    requires IsSpec(ModelSpec(m)) && m.kind != Mixed && Valid(GROUP_START)
    ensures var o := Run(GROUP_START, PrintKids(m.kids, SepTok(m.kind == Choice)));
            o.Next? && Complete(o.state, m) && Closable(o.state, m.quant)
  {
    RunKids(GROUP_START, m.kids, m.kind == Choice);
    var s3 := Run(GROUP_START, PrintKids(m.kids, SepTok(m.kind == Choice))).state;
    StepClose(s3, m.quant);
    hide Step, TokenRole, Reacted;
    assert s3.parts[0] == Extended(GROUP_START.parts[0], 1, m.kids, m.kind == Choice, Unset);
    RootShows(s3.parts, 0, m);
  }

  /** The next closing parenthesis ends the declaration's content model. */
  ghost predicate Closable(s: State, q: Quant) {
    Valid(s) && s.stack == [0] && |s.parts| > 0 &&
    var o := Step(s, CloseParen(q));
    o.Next? && o.state.handler == Closing && !o.state.inDecl && o.state.strLen == 0
    && o.state.parts == s.parts[0 := s.parts[0].(quant := q)]
  }

  /** The state in which the closing parenthesis of the whole model is read. */
  lemma RunBody(s: State, m: Model)
    requires Valid(s) && s.handler == Element1
    requires m.Node? && IsSpec(ModelSpec(m))
    ensures var o := Run(s, Body(m));
            o.Next? && Complete(o.state, m) && Closable(o.state, m.quant)
  {
    hide Step, Run, Complete, Closable, Valid, GROUP_START, MIXED_START, IsSpec;
    StartGroup(s);
    if m.kind == Mixed {
      StartMixed();
      RunMixed(m);
      RunCons(s, OpenParen, [PoundName("PCDATA")] + PrintNames(m.kids));
      RunCons(GROUP_START, PoundName("PCDATA"), PrintNames(m.kids));
      assert Body(m) == [OpenParen] + ([PoundName("PCDATA")] + PrintNames(m.kids));
    } else {
      RunChildren(m);
      RunCons(s, OpenParen, PrintKids(m.kids, SepTok(m.kind == Choice)));
    }
  }

  /* ----- every accepted stream is a declaration of the grammar ----- */

  ghost predicate Accepting(s: State, ts: seq<Tok>)
    requires Valid(s)
  {
    var o := Run(s, ts);
    o.Next? && o.state.handler == InternalSubset
  }

  lemma NextAtCp(s: State, ts: seq<Tok>)
    requires AtCp(s) && Accepting(s, ts) && Space !in ts
    requires s.handler == Element2 ==> ts != [] && !ts[0].PoundName?
    ensures ts != [] && (ts[0].Name? || ts[0] == OpenParen)
    ensures ts[0] == OpenParen ==>
              var o := Step(s, OpenParen);
              o.Next? && AtCp(o.state) && o.state.handler == Element6 && Accepting(o.state, ts[1..])
  {
    RunHead(s, ts);
    hide Run;
    if ts[0] == OpenParen {
      StepOpen(s);
    }
  }

  lemma NextAfterCp(s: State, ts: seq<Tok>)
    requires Valid(s) && s.handler == Element7 && Accepting(s, ts) && Space !in ts
    ensures ts != [] && (ts[0].CloseParen? || ts[0] in {Comma, Or})
    ensures var choice := ts[0] == Or;
            ts[0] in {Comma, Or} ==>
              && Last(s.conn) in {Unset, SepConn(choice)}
              && var o := Step(s, ts[0]);
                 o.Next? && AtCp(o.state) && o.state.handler == Element6
                 && Last(o.state.conn) == SepConn(choice) && Accepting(o.state, ts[1..])
  {
    hide Run;
    SomethingLeft(s, ts);
    RunHead(s, ts);
    AfterCpStep(s, ts[0]);
    hide Step;
    if ts[0] in {Comma, Or} {
      StepSep(s, ts[0] == Or);
    }
  }

  lemma SomethingLeft(s: State, ts: seq<Tok>)
    requires Valid(s) && s.handler != InternalSubset && Accepting(s, ts)
    ensures ts != []
  {
  }

  lemma AfterCpStep(s: State, t: Tok)
    requires Valid(s) && s.handler == Element7 && t != Space && Step(s, t).Next?
    ensures t.CloseParen? || t in {Comma, Or}
    ensures t in {Comma, Or} ==> Last(s.conn) in {Unset, SepConn(t == Or)}
  {
  }

  lemma NextAfterName(s: State, ts: seq<Tok>)
    requires Valid(s) && s.handler in {Element3, Element5} && Accepting(s, ts) && Space !in ts
    ensures ts != []
    ensures ts[0] == CloseParen(Rep) || (ts[0] == CloseParen(None) && s.handler == Element3) || ts[0] == Or
    ensures ts[0] == Or ==>
              var o := Step(s, Or);
              o.Next? && o.state.handler == Element4 && Accepting(o.state, ts[1..])
  {
    RunHead(s, ts);
    hide Run;
  }

  lemma NextAtName(s: State, ts: seq<Tok>)
    requires Valid(s) && s.handler == Element4 && Accepting(s, ts) && Space !in ts
    ensures ts != [] && ts[0].Name? && ts[0].quant == None
    ensures var o := Step(s, ts[0]);
            o.Next? && o.state.handler == Element5 && Accepting(o.state, ts[1..])
  {
    RunHead(s, ts);
    hide Run;
  }

  /** A particle, read off the front of an accepted stream. */
  lemma {:induction false} ParseCp(s: State, ts: seq<Tok>) returns (m: Model, k: nat)
    requires AtCp(s) && Accepting(s, ts) && Space !in ts
    requires s.handler == Element2 ==> ts != [] && !ts[0].PoundName?
    ensures IsCp(m) && 0 < k <= |ts| && ts[..k] == Print(m)
    decreases |ts|, 0
  {
    hide Step, Accepting;
    NextAtCp(s, ts);
    if ts[0].Name? {
      m, k := Leaf(ts[0].name, ts[0].quant), 1;
    } else {
      var kids, choice, n := ParseKids(Step(s, ts[0]).state, ts[1..]);
      var kind := if choice && kids.tail.Cons? then Choice else Seq;
      m, k := Node(kind, kids, ts[n + 1].quant), n + 2;
      assert ts[..k] == [OpenParen] + ts[1..][..n] + [ts[n + 1]];
    }
  }

  lemma AfterCp(s: State, ts: seq<Tok>, m: Model, n: nat) returns (s1: State)
    requires AtCp(s) && Accepting(s, ts)
    requires IsCp(m) && n <= |ts| && ts[..n] == Print(m)
    ensures Valid(s1) && s1.handler == Element7 && s1.conn == s.conn && Accepting(s1, ts[n..])
  {
    hide Grown, Run, Step, Print, IsCp;
    RunCp(s, m);
    s1 := Run(s, Print(m)).state;
    RunConcat(s, ts[..n], ts[n..]);
    assert ts == ts[..n] + ts[n..];
  }

  /** The particles of a group, up to its closing parenthesis. */
  lemma {:induction false} ParseKids(s: State, ts: seq<Tok>) returns (kids: Models, choice: bool, k: nat)
    requires AtCp(s) && Accepting(s, ts) && Space !in ts
    requires s.handler == Element2 ==> ts != [] && !ts[0].PoundName?
    ensures AreCps(kids) && kids.Cons? && k < |ts| && ts[k].CloseParen?
    ensures ts[..k] == PrintKids(kids, SepTok(choice))
    ensures Last(s.conn) != Unset ==> Last(s.conn) == SepConn(choice)
    decreases |ts|, 1
  {
    hide Step, Accepting, Run;
    var m, n := ParseCp(s, ts);
    var s1 := AfterCp(s, ts, m, n);
    NextAfterCp(s1, ts[n..]);
    if ts[n].CloseParen? {
      kids, choice, k := Cons(m, Nil), Last(s.conn) == Pipe, n;
    } else {
      choice := ts[n] == Or;
      var rest, c, r := ParseKids(Step(s1, ts[n]).state, ts[n..][1..]);
      kids, k := Cons(m, rest), n + 1 + r;
      assert ts[..k] == ts[..n] + [ts[n]] + ts[n..][1..][..r];
    }
  }

  /** The names of a mixed model, up to its closing parenthesis. */
  lemma {:induction false} ParseNames(s: State, ts: seq<Tok>) returns (kids: Models, k: nat)
    requires Valid(s) && s.handler in {Element3, Element5} && Accepting(s, ts) && Space !in ts
    ensures AreNames(kids) && k < |ts| && ts[..k] == PrintNames(kids)
    ensures ts[k] == CloseParen(Rep) || (ts[k] == CloseParen(None) && kids == Nil && s.handler == Element3)
    decreases |ts|
  {
    hide Step, Accepting;
    NextAfterName(s, ts);
    if ts[0].CloseParen? {
      kids, k := Nil, 0;
    } else {
      var s1 := Step(s, Or).state;
      NextAtName(s1, ts[1..]);
      var rest, r := ParseNames(Step(s1, ts[1]).state, ts[1..][1..]);
      kids, k := Cons(Leaf(ts[1].name, None), rest), r + 2;
      assert ts[..k] == [Or] + [ts[1]] + ts[1..][1..][..r];
    }
  }

  /** A declaration may begin in any state that an earlier one has left behind. */
  ghost predicate AtStart(s: State) {
    Valid(s) && s.handler == Element0
  }

  lemma StartName(s0: State, name: string)
    requires AtStart(s0)
    ensures var o := Step(s0, Name(name, None));
            o.Next? && o.state.handler == Element1
  {
  }

  /** Behind a content model there is only the end of the declaration, and then nothing. */
  lemma EndStep(s: State, t: Tok)
    requires Valid(s) && t != Space && s.handler in {Closing, InternalSubset}
    ensures Step(s, t).Next? <==> s.handler == Closing && t == DeclClose
    ensures Step(s, t).Next? ==> Step(s, t).state.handler == InternalSubset
  {
  }

  lemma NothingLeft(s: State)
    requires Valid(s)
    ensures Run(s, []) == Next(s)
  {
  }

  lemma RunEnd(s: State, ts: seq<Tok>)
    requires Valid(s) && s.handler == Closing && Space !in ts
    ensures Accepting(s, ts) <==> ts == [DeclClose]
  {
    hide Step, Run, Valid;
    NothingLeft(s);
    if ts != [] {
      RunHead(s, ts);
      EndStep(s, ts[0]);
      if ts[0] == DeclClose {
        var s' := Step(s, DeclClose).state;
        NothingLeft(s');
        if ts[1..] != [] {
          RunHead(s', ts[1..]);
          EndStep(s', ts[1..][0]);
        } else {
          assert ts == [DeclClose];
        }
      }
    }
  }

  /** Every declaration of the grammar is accepted. */
  lemma GrammarIsAccepted(s0: State, name: string, spec: Spec)
    requires AtStart(s0) && IsSpec(spec)
    ensures Accepting(s0, PrintDecl(name, spec))
  {
    StartName(s0, name);
    var s := Step(s0, Name(name, None)).state;
    var body := PrintSpec(spec) + [DeclClose];
    assert PrintDecl(name, spec) == [Name(name, None)] + body;
    RunCons(s0, Name(name, None), body);
    match spec
    case ModelSpec(m) =>
      hide Step, TokenRole, PrintKids, PrintNames, Run, Complete;
      RunBody(s, m);
      var s2 := Run(s, Body(m)).state;
      assert body == Body(m) + ([CloseParen(m.quant)] + [DeclClose]);
      RunConcat(s, Body(m), [CloseParen(m.quant)] + [DeclClose]);
      RunCons(s2, CloseParen(m.quant), [DeclClose]);
      RunEnd(Step(s2, CloseParen(m.quant)).state, [DeclClose]);
    case EmptySpec => KeywordEnds(s, "EMPTY");
    case AnySpec => KeywordEnds(s, "ANY");
  }

  lemma KeywordEnds(s: State, word: string)
    requires Valid(s) && s.handler == Element1 && word in {"EMPTY", "ANY"}
    ensures Accepting(s, [Name(word, None)] + [DeclClose])
  {
    var t := Name(word, None);
    RunCons(s, t, [DeclClose]);
    RunEnd(Step(s, t).state, [DeclClose]);
  }

  /** Every accepted stream without white space is a declaration of the grammar. */
  lemma AcceptedIsGrammar(s0: State, ts: seq<Tok>) returns (name: string, spec: Spec)
    requires AtStart(s0) && Accepting(s0, ts) && Space !in ts
    ensures IsSpec(spec) && ts == PrintDecl(name, spec)
  {
    RunHead(s0, ts);
    name := ts[0].name;
    StartName(s0, name);
    assert ts[0] == Name(name, None);
    hide Step;
    spec := ParseSpec(Step(s0, ts[0]).state, ts[1..]);
  }

  /** What follows the particles or names of the outermost group. */
  lemma ParseTail(s: State, ts: seq<Tok>, k: nat, m: Model)
    requires Valid(s) && Accepting(s, ts) && Space !in ts && k < |ts|
    requires var o := Run(s, ts[..k]); o.Next? && Closable(o.state, m.quant)
    requires ts[k] == CloseParen(m.quant)
    ensures ts == ts[..k] + [CloseParen(m.quant), DeclClose]
  {
    hide Step, Valid;
    var s2 := Run(s, ts[..k]).state;
    RunConcat(s, ts[..k], ts[k..]);
    assert ts == ts[..k] + ts[k..];
    RunHead(s2, ts[k..]);
    RunEnd(Step(s2, ts[k]).state, ts[k..][1..]);
  }

  lemma ParseMixed(ts: seq<Tok>) returns (m: Model)
    requires Valid(GROUP_START) && Accepting(GROUP_START, ts) && Space !in ts && ts != [] && ts[0].PoundName?
    ensures IsSpec(ModelSpec(m))
    ensures [OpenParen] + ts == PrintSpec(ModelSpec(m)) + [DeclClose]
  {
    hide Step, Closable, Complete, Run;
    RunHead(GROUP_START, ts);
    StartMixed();
    assert ts[0] == PoundName("PCDATA") by { OnlyPcdata(ts[0]); }
    var kids, k := ParseNames(MIXED_START, ts[1..]);
    m := Node(Mixed, kids, ts[1..][k].quant);
    RunMixed(m);
    ParseTail(MIXED_START, ts[1..], k, m);
  }

  lemma ParseChildren(ts: seq<Tok>) returns (m: Model)
    requires Valid(GROUP_START) && Accepting(GROUP_START, ts) && Space !in ts && ts != [] && !ts[0].PoundName?
    ensures IsSpec(ModelSpec(m))
    ensures [OpenParen] + ts == PrintSpec(ModelSpec(m)) + [DeclClose]
  {
    hide Step, Closable, Complete, Run;
    RunHead(GROUP_START, ts);
    var kids, choice, k := ParseKids(GROUP_START, ts);
    m := Node(if choice && kids.tail.Cons? then Choice else Seq, kids, ts[k].quant);
    assert ts[..k] == PrintKids(kids, SepTok(m.kind == Choice));
    RunChildren(m);
    ParseTail(GROUP_START, ts, k, m);
  }

  /** The content model after its first parenthesis. */
  lemma ParseGroup(ts: seq<Tok>) returns (m: Model)
    requires Valid(GROUP_START) && Accepting(GROUP_START, ts) && Space !in ts
    ensures IsSpec(ModelSpec(m))
    ensures [OpenParen] + ts == PrintSpec(ModelSpec(m)) + [DeclClose]
  {
    hide Step, Closable, Complete, Run, Accepting;
    SomethingLeft(GROUP_START, ts);
    if ts[0].PoundName? {
      m := ParseMixed(ts);
    } else {
      m := ParseChildren(ts);
    }
  }

  lemma OnlyPcdata(t: Tok)
    requires Valid(GROUP_START) && t.PoundName? && Step(GROUP_START, t).Next?
    ensures t == PoundName("PCDATA")
  {
  }

  lemma ParseSpec(s1: State, ts: seq<Tok>) returns (spec: Spec)
    requires Valid(s1) && s1.handler == Element1 && Accepting(s1, ts) && Space !in ts
    ensures IsSpec(spec) && ts == PrintSpec(spec) + [DeclClose]
  {
    hide Run, PrintSpec;
    SomethingLeft(s1, ts);
    RunHead(s1, ts);
    FirstToken(s1, ts[0]);
    if ts[0] == OpenParen {
      StartGroup(s1);
      hide Step, IsSpec, GROUP_START;
      var m := ParseGroup(ts[1..]);
      spec := ModelSpec(m);
      assert ts == [OpenParen] + ts[1..];
    } else {
      hide Step;
      RunEnd(Step(s1, ts[0]).state, ts[1..]);
      spec := if ts[0] == Name("EMPTY", None) then EmptySpec else AnySpec;
      assert ts == [ts[0]] + [DeclClose];
      WordSpecs();
    }
  }

  lemma WordSpecs()
    ensures PrintSpec(EmptySpec) == [Name("EMPTY", None)] && PrintSpec(AnySpec) == [Name("ANY", None)]
    ensures IsSpec(EmptySpec) && IsSpec(AnySpec)
  {
  }

  /** How a content model can begin. */
  lemma FirstToken(s: State, t: Tok)
    requires Valid(s) && s.handler == Element1 && t != Space && Step(s, t).Next?
    ensures t == OpenParen || t == Name("EMPTY", None) || t == Name("ANY", None)
    ensures t != OpenParen ==> Step(s, t).state.handler == Closing
  {
  }

  /* ----- white space ----- */

  function Strip(ts: seq<Tok>): (r: seq<Tok>)
    ensures Space !in r
  {
    if ts == [] then [] else (if ts[0] == Space then [] else [ts[0]]) + Strip(ts[1..])
  }

  lemma {:induction false} StripSnoc(ts: seq<Tok>, t: Tok)
    ensures Strip(ts + [t]) == Strip(ts) + if t == Space then [] else [t]
    decreases |ts|
  {
    if ts != [] {
      StripSnoc(ts[1..], t);
      assert (ts + [t])[1..] == ts[1..] + [t];
    }
  }

  lemma {:induction false} SpaceIsIgnored(s: State, ts: seq<Tok>)
    requires Valid(s)
    ensures Run(s, ts) == Run(s, Strip(ts))
    decreases |ts|
  {
    hide Step, Run;
    if ts == [] {
    } else {
      RunHead(s, ts);
      SpaceStays(s);
      if ts[0] == Space {
        SpaceIsIgnored(s, ts[1..]);
        assert Strip(ts) == Strip(ts[1..]);
      } else {
        RunCons(s, ts[0], Strip(ts[1..]));
        if Step(s, ts[0]).Next? {
          SpaceIsIgnored(Step(s, ts[0]).state, ts[1..]);
        }
      }
    }
  }

  lemma SpaceStays(s: State)
    requires Valid(s)
    ensures Step(s, Space) == Next(s)
  {
  }

  /** The automaton and the connector check together decide the grammar. */
  lemma AcceptedIffGrammar(s0: State, ts: seq<Tok>)
    requires AtStart(s0)
    ensures Accepting(s0, ts) <==>
            exists name, spec :: IsSpec(spec) && Strip(ts) == PrintDecl(name, spec)
  {
    hide Run, Step;
    SpaceIsIgnored(s0, ts);
    if Accepting(s0, ts) {
      var name, spec := AcceptedIsGrammar(s0, Strip(ts));
    }
    if name, spec :| IsSpec(spec) && Strip(ts) == PrintDecl(name, spec) {
      GrammarIsAccepted(s0, name, spec);
    }
  }

  function Opens(ts: seq<Tok>): nat {
    if ts == [] then 0 else (if ts[0] == OpenParen then 1 else 0) + Opens(ts[1..])
  }

  function Closes(ts: seq<Tok>): nat {
    if ts == [] then 0 else (if ts[0].CloseParen? then 1 else 0) + Closes(ts[1..])
  }

  ghost predicate Reading(s: State) {
    s.handler in {Element0, Element1} || InGroup(s.handler)
  }

  function Depth(s: State): int {
    if InGroup(s.handler) then s.level else 0
  }

  lemma DepthStep(s: State, t: Tok)
    requires Valid(s) && Reading(s) && Step(s, t).Next?
    ensures var s1 := Step(s, t).state;
            if s1.handler in {Closing, InternalSubset} then true
            else Reading(s1) && Depth(s1) == Depth(s) + Opens([t]) - Closes([t])
  {
    assert Opens([]) == 0 && Closes([]) == 0;
  }

  /** Inside a model the counter is the nesting depth, however many groups there are. */
  lemma {:induction false} LevelIsDepth(s: State, ts: seq<Tok>)
    requires Valid(s) && Reading(s)
    requires Run(s, ts).Next? && InGroup(Run(s, ts).state.handler)
    ensures Run(s, ts).state.level == Depth(s) + Opens(ts) - Closes(ts) >= 1
    decreases |ts|
  {
    if ts != [] {
      RunHead(s, ts);
      DepthStep(s, ts[0]);
      hide Step, Run;
      var s1 := Step(s, ts[0]).state;
      if s1.handler in {Closing, InternalSubset} {
        NeverBackInside(s1, ts[1..]);
      } else {
        LevelIsDepth(s1, ts[1..]);
        assert Opens(ts) == Opens([ts[0]]) + Opens(ts[1..]) by { assert Opens([]) == 0; }
        assert Closes(ts) == Closes([ts[0]]) + Closes(ts[1..]) by { assert Closes([]) == 0; }
      }
    }
  }

  lemma {:induction false} NeverBackInside(s: State, ts: seq<Tok>)
    requires Valid(s) && s.handler in {Closing, InternalSubset} && Run(s, ts).Next?
    ensures Run(s, ts).state.handler in {Closing, InternalSubset}
    decreases |ts|
  {
    if ts != [] {
      RunHead(s, ts);
      NeverBackInside(Step(s, ts[0]).state, ts[1..]);
    }
  }

  /** The tree whose last parenthesis is `ts[k]`, for any stream that has come so far. */
  lemma TreeAt(s0: State, ts: seq<Tok>, k: nat) returns (name: string, m: Model)
    requires AtStart(s0) && k < |ts| && ts[k].CloseParen? && Run(s0, ts[..k]).Next?
    requires var o := Step(Run(s0, ts[..k]).state, ts[k]); o.Next? && o.state.handler == Closing
    ensures m.Node? && IsSpec(ModelSpec(m)) && m.quant == ts[k].quant
    ensures Complete(Run(s0, ts[..k]).state, m)
    ensures Strip(ts[..k + 1]) == [Name(name, None)] + PrintSpec(ModelSpec(m))
  {
    hide Complete, Step, Run;
    var s2 := Run(s0, ts[..k]).state;
    var u := Strip(ts[..k]);
    SpaceIsIgnored(s0, ts[..k]);
    var end := [ts[k]] + [DeclClose];
    RunConcat(s0, u, end);
    RunCons(s2, ts[k], [DeclClose]);
    RunEnd(Step(s2, ts[k]).state, [DeclClose]);
    var n, spec := AcceptedIsGrammar(s0, u + end);
    name := n;
    StripSnoc(ts[..k], ts[k]);
    assert ts[..k + 1] == ts[..k] + [ts[k]];
    m := TreeOfPrint(name, spec, u, ts[k]);
    StartName(s0, name);
    RunCons(s0, Name(name, None), Body(m));
    RunBody(Step(s0, Name(name, None)).state, m);
  }

  lemma TreeOfPrint(name: string, spec: Spec, u: seq<Tok>, t: Tok) returns (m: Model)
    requires IsSpec(spec) && t.CloseParen? && u + ([t] + [DeclClose]) == PrintDecl(name, spec)
    ensures m.Node? && spec == ModelSpec(m) && t == CloseParen(m.quant)
    ensures u == [Name(name, None)] + Body(m)
  {
    var all := PrintDecl(name, spec);
    assert all[|u|] == t && |all| == |u| + 2;
    match spec
    case ModelSpec(model) =>
      m := model;
      assert all == [Name(name, None)] + Body(m) + [CloseParen(m.quant)] + [DeclClose];
      assert u == all[..|u|];
    case _ =>
      assert false;
  }
}
