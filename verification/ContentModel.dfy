/**
 Element declarations: the token automaton with its nesting counter, the connector check
 of the prolog processor and the scaffold it builds, as functions on values, and the
 grammar of content models they implement (XML 1.0, sections 3.2, 3.2.1 and 3.2.2).
 */
module ContentModel {

  datatype Quant = None | Opt | Rep | Plus

  /** The tokens of a declaration.  Plain and prefixed names are one token: the handlers
      treat them alike, and a prefixed name is never a keyword. */
  datatype Tok =
    | Space
    | Name(name: string, quant: Quant)
    | PoundName(name: string)
    | OpenParen
    | CloseParen(quant: Quant)
    | Comma
    | Or
    | DeclClose
    | Other

  datatype Handler =
    | Element0 | Element1 | Element2 | Element3 | Element4 | Element5 | Element6 | Element7
    | Closing | InternalSubset | Error

  datatype Role =
    | NoRole | ElementName | ContentEmpty | ContentAny | ContentPcdata
    | ContentElement(quant: Quant) | GroupOpen | GroupClose(quant: Quant)
    | GroupSequence | GroupChoice | RoleError

  datatype RoleResult = RoleResult(handler: Handler, level: int, role: Role)

  /** The handlers `element0` .. `element7`, `declClose` and `common`. */
  function TokenRole(handler: Handler, level: int, tok: Tok): RoleResult {
    var error := RoleResult(Error, level, RoleError);
    if handler == Error then RoleResult(Error, level, NoRole)
    else if tok == Space then RoleResult(handler, level, NoRole)
    else match handler
      case Element0 =>
        if tok.Name? && tok.quant == None then RoleResult(Element1, level, ElementName) else error
      case Element1 =>
        if tok == Name("EMPTY", None) then RoleResult(Closing, level, ContentEmpty)
        else if tok == Name("ANY", None) then RoleResult(Closing, level, ContentAny)
        else if tok == OpenParen then RoleResult(Element2, 1, GroupOpen)
        else error
      case Element2 =>
        if tok == PoundName("PCDATA") then RoleResult(Element3, level, ContentPcdata)
        else if tok == OpenParen then RoleResult(Element6, 2, GroupOpen)
        else if tok.Name? then RoleResult(Element7, level, ContentElement(tok.quant))
        else error
      case Element3 =>
        if tok == CloseParen(None) || tok == CloseParen(Rep) then RoleResult(Closing, level, GroupClose(tok.quant))
        else if tok == Or then RoleResult(Element4, level, NoRole)
        else error
      case Element4 =>
        if tok.Name? && tok.quant == None then RoleResult(Element5, level, ContentElement(None)) else error
      case Element5 =>
        if tok == CloseParen(Rep) then RoleResult(Closing, level, GroupClose(Rep))
        else if tok == Or then RoleResult(Element4, level, NoRole)
        else error
      case Element6 =>
        if tok == OpenParen then RoleResult(Element6, level + 1, GroupOpen)
        else if tok.Name? then RoleResult(Element7, level, ContentElement(tok.quant))
        else error
      case Element7 =>
        if tok.CloseParen? then
          RoleResult(if level - 1 == 0 then Closing else Element7, level - 1, GroupClose(tok.quant))
        else if tok == Comma then RoleResult(Element6, level, GroupSequence)
        else if tok == Or then RoleResult(Element6, level, GroupChoice)
        else error
      case Closing =>
        if tok == DeclClose then RoleResult(InternalSubset, level, NoRole) else error
      case InternalSubset => error
      case Error => error
  }

  datatype Kind = NameKind | Seq | Choice | Mixed

  /** A scaffold cell; index 0 stands for "none", as the root is nobody's child. */
  datatype Part = Part(kind: Kind, quant: Quant, name: string,
                       firstchild: nat, lastchild: nat, childcnt: nat, nextsib: nat)

  datatype Connector = Unset | Pipe | Comm

  /** The state of a declaration: `conn` is `groupConnector[1..level + 1]`, `parts` the
      scaffold cells in use, `stack` the open groups (`scaffIndex[..scaffLevel]`). */
  datatype State = State(handler: Handler, level: int, conn: seq<Connector>,
                         inDecl: bool, parts: seq<Part>, stack: seq<nat>, strLen: nat)

  function Last<T>(s: seq<T>): T
    requires |s| > 0
  {
    s[|s| - 1]
  }

  predicate InGroup(h: Handler) {
    h in {Element2, Element3, Element4, Element5, Element6, Element7}
  }

  ghost predicate Sound(parts: seq<Part>, stack: seq<nat>) {
    && (forall i: nat :: i < |stack| ==> stack[i] < |parts|)
    && (forall i: nat :: i < |parts| && parts[i].lastchild != 0 ==> i < parts[i].lastchild < |parts|)
  }

  ghost predicate Levelled(s: State) {
    && s.level == |s.conn|
    && (s.handler == Element1 ==> s.inDecl && s.parts == [] && s.stack == [])
    && (s.handler in {Element0, Element1, Closing, InternalSubset} ==> s.strLen == 0)
    && (InGroup(s.handler) ==> s.inDecl && s.level == |s.stack| && s.level >= 1)
    && (s.handler in {Element2, Element3, Element4, Element5} ==> s.level == 1)
  }

  ghost predicate Valid(s: State) {
    Levelled(s) && Sound(s.parts, s.stack)
  }

  const NEW_PART := Part(Seq, None, "", 0, 0, 0, 0)

  /** The links a new cell `|parts|` adds to its parent `p` and its previous sibling. */
  function Linked(parts: seq<Part>, p: nat): (r: seq<Part>)
    requires p < |parts| && (parts[p].lastchild != 0 ==> p < parts[p].lastchild < |parts|)
    ensures |r| == |parts|
    ensures forall i: nat :: i < |r| ==> r[i].lastchild == if i == p then |parts| else parts[i].lastchild
  {
    var next := |parts|;
    var last := parts[p].lastchild;
    var parts := if last != 0 then parts[last := parts[last].(nextsib := next)] else parts;
    var parent := parts[p];
    parts[p := parent.(firstchild := if parent.childcnt == 0 then next else parent.firstchild,
                       lastchild := next,
                       childcnt := parent.childcnt + 1)]
  }

  /** `nextScaffoldPart`, with the fields its callers set at once. */
  function AddPart(parts: seq<Part>, stack: seq<nat>, part: Part): (r: seq<Part>)
    requires Sound(parts, stack) && part.lastchild == 0
    ensures |r| == |parts| + 1 && Sound(r, stack) && r[|parts|] == part
  {
    (if stack == [] then parts else Linked(parts, Last(stack))) + [part]
  }

  datatype Outcome = Next(state: State) | Fail

  function Opened(s: State, level: int): (s': State)
    requires Valid(s) && 1 <= level <= s.level + 1
    ensures Sound(s'.parts, s'.stack) && |s'.conn| == s'.level == level && |s'.stack| == |s.stack| + 1
    ensures s'.handler == s.handler && s'.inDecl == s.inDecl
  {
    s.(level := level, conn := s.conn[..level - 1] + [Unset],
       parts := AddPart(s.parts, s.stack, NEW_PART), stack := s.stack + [|s.parts|])
  }

  function Closed(s: State, level: int, q: Quant): (s': State)
    requires Valid(s) && s.stack != [] && 0 <= level <= s.level
    ensures Sound(s'.parts, s'.stack) && |s'.conn| == s'.level == level && |s'.stack| == |s.stack| - 1
    ensures s'.handler == s.handler && (s'.stack != [] ==> s'.inDecl == s.inDecl)
  {
    var g := Last(s.stack);
    var stack := s.stack[..|s.stack| - 1];
    s.(level := level, conn := s.conn[..level], stack := stack,
       parts := s.parts[g := s.parts[g].(quant := q)],
       inDecl := s.inDecl && stack != [], strLen := if stack == [] then 0 else s.strLen)
  }

  /** The effect of `|`: the group becomes a choice unless it has a connector already. */
  function Chosen(s: State): (s': State)
    requires Valid(s) && s.stack != [] && s.conn != []
    ensures Valid(s')
  {
    var g := Last(s.stack);
    var parts := if Last(s.conn) == Unset && s.parts[g].kind != Mixed
                 then s.parts[g := s.parts[g].(kind := Choice)] else s.parts;
    s.(conn := s.conn[|s.conn| - 1 := Pipe], parts := parts)
  }

  function Reacted(s: State, level: int, role: Role, tok: Tok): (o: Outcome)
    requires Valid(s)
    requires role == GroupOpen ==> 1 <= level <= s.level + 1
    requires role == ContentPcdata || role.GroupClose? || role in {GroupSequence, GroupChoice} ==>
               s.stack != [] && s.conn != []
    requires role.GroupClose? ==> 0 <= level <= s.level
    requires role.ContentElement? ==> tok.Name?
    ensures o.Next? ==> Sound(o.state.parts, o.state.stack) && o.state.level == |o.state.conn|
  {
    match role
    case RoleError => Fail
    case NoRole => Next(s)
    case ElementName => Next(s.(inDecl := true, parts := [], stack := []))
    case ContentEmpty => Next(s.(inDecl := false))
    case ContentAny => Next(s.(inDecl := false))
    case ContentPcdata =>
      var g := Last(s.stack);
      Next(s.(parts := s.parts[g := s.parts[g].(kind := Mixed)]))
    case ContentElement(q) =>
      var part := NEW_PART.(kind := NameKind, quant := q, name := tok.name);
      Next(s.(parts := AddPart(s.parts, s.stack, part), strLen := s.strLen + |tok.name| + 1))
    case GroupOpen => Next(Opened(s, level))
    case GroupSequence =>
      if Last(s.conn) == Pipe then Fail else Next(s.(conn := s.conn[|s.conn| - 1 := Comm]))
    case GroupChoice => if Last(s.conn) == Comm then Fail else Next(Chosen(s))
    case GroupClose(q) => Next(Closed(s, level, q))
  }

  /** One token: its role, then the prolog processor's reaction to the role. */
  function Step(s: State, tok: Tok): (o: Outcome)
    requires Valid(s)
    ensures o.Next? ==> Valid(o.state)
  {
    var r := TokenRole(s.handler, s.level, tok);
    StepStaysLevelled(s, tok);
    var o := Reacted(s, r.level, r.role, tok);
    if o.Fail? then Fail else Next(o.state.(handler := r.handler))
  }

  lemma StepStaysLevelled(s: State, tok: Tok)
    requires Valid(s)
    ensures var r := TokenRole(s.handler, s.level, tok);
            && (r.role == GroupOpen ==> 1 <= r.level <= s.level + 1)
            && (r.role == ContentPcdata || r.role.GroupClose? || r.role in {GroupSequence, GroupChoice} ==>
                s.stack != [] && s.conn != [])
            && (r.role.GroupClose? ==> 0 <= r.level <= s.level)
            && (r.role.ContentElement? ==> tok.Name?)
            && var o := Reacted(s, r.level, r.role, tok);
               (o.Next? ==> Levelled(o.state.(handler := r.handler)))
  {
    hide Sound, Linked, AddPart, NEW_PART;
    match s.handler
    case Element0 =>
    case Element1 =>
    case Element2 =>
    case Element3 =>
    case Element4 =>
    case Element5 =>
    case Element6 =>
    case Element7 =>
    case Closing =>
    case InternalSubset =>
    case Error =>
  }

  function Run(s: State, ts: seq<Tok>): (o: Outcome)
    requires Valid(s)
    ensures o.Next? ==> Valid(o.state)
    decreases |ts|
  {
    if ts == [] then Next(s)
    else
      var o := Step(s, ts[0]);
      if o.Fail? then Fail else Run(o.state, ts[1..])
  }
}
