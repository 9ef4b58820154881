/**
 Element declarations in place: the parser's arrays, grown and reused from declaration to
 declaration, and the packed array of content cells handed to the application.
 */
module ContentBuild {
  import opened ContentModel
  import opened ContentGrammar

  /** A cell of the packed array: `name` is an offset into the character area (-1 for the
      null pointer), `children` the index of the first child's cell. */
  datatype Cell = Cell(type_: ContentType, quant: Quant, name: int, numchildren: nat, children: nat)

  datatype ContentType = TypeEmpty | TypeAny | TypeOf(kind: Kind)

  function Nth(kids: Models, j: nat): Model
    requires j < Len(kids)
  {
    if j == 0 then kids.head else Nth(kids.tail, j - 1)
  }

  /** Scaffold cells, packed cells below the child row, and characters of the first `j` children. */
  function SizeBefore(kids: Models, j: nat): nat
    requires j <= Len(kids)
  {
    if j == 0 then 0 else Size(kids.head) + SizeBefore(kids.tail, j - 1)
  }

  function CharsBefore(kids: Models, j: nat): nat
    requires j <= Len(kids)
  {
    if j == 0 then 0 else Chars(kids.head) + CharsBefore(kids.tail, j - 1)
  }

  lemma {:induction false} LenWithin(kids: Models)
    ensures Len(kids) <= SizeAll(kids)
    decreases kids
  {
    if kids.Cons? {
      LenWithin(kids.tail);
    }
  }

  lemma {:induction false} BeforeNext(kids: Models, j: nat)
    requires j < Len(kids)
    ensures SizeBefore(kids, j + 1) == SizeBefore(kids, j) + Size(Nth(kids, j)) <= SizeAll(kids)
    ensures CharsBefore(kids, j + 1) == CharsBefore(kids, j) + Chars(Nth(kids, j)) <= CharsAll(kids)
    ensures j <= SizeBefore(kids, j)
    ensures SizeBefore(kids, j + 1) + Len(kids) - (j + 1) <= SizeAll(kids)
    decreases kids
  {
    if j > 0 {
      BeforeNext(kids.tail, j - 1);
    } else {
      LenWithin(kids.tail);
    }
  }

  lemma {:induction false} BeforeAll(kids: Models)
    ensures SizeBefore(kids, Len(kids)) == SizeAll(kids)
    ensures CharsBefore(kids, Len(kids)) == CharsAll(kids)
    decreases kids
  {
    if kids.Cons? {
      BeforeAll(kids.tail);
    }
  }

  lemma {:induction false} ShowsNth(parts: seq<Part>, i: nat, kids: Models, j: nat)
    requires ShowsAll(parts, i, kids) && j < Len(kids)
    ensures Shows(parts, i + SizeBefore(kids, j), Nth(kids, j))
    ensures j + 1 < Len(kids) ==>
              parts[i + SizeBefore(kids, j)].nextsib == i + SizeBefore(kids, j + 1)
    decreases kids
  {
    if j > 0 {
      ShowsNth(parts, i + Size(kids.head), kids.tail, j - 1);
    }
  }

  /** The layout: the tree at cell `d`, its descendants in cells `lo` to `lo + Size(m) - 2`,
      its names in the characters from `slo` on. */
  ghost predicate Packed(cells: seq<Cell>, strs: seq<char>, d: nat, lo: nat, slo: nat, m: Model)
    decreases Size(m), 0
  {
    && d < |cells| && lo + Size(m) - 1 <= |cells| && slo + Chars(m) <= |strs|
    && match m
       case Leaf(name, q) =>
         cells[d] == Cell(TypeOf(NameKind), q, slo, 0, 0) && strs[slo..slo + |name| + 1] == name + ['\0']
       case Node(kind, kids, q) =>
         && cells[d] == Cell(TypeOf(kind), q, -1, Len(kids), lo)
         && forall j: nat :: j < Len(kids) ==> PackedKid(cells, strs, lo, slo, kids, j)
  }

  ghost predicate PackedKid(cells: seq<Cell>, strs: seq<char>, lo: nat, slo: nat, kids: Models, j: nat)
    requires j < Len(kids)
    decreases SizeAll(kids), 1
  {
    BeforeNext(kids, j);
    Packed(cells, strs, lo + j, lo + Len(kids) + SizeBefore(kids, j) - j, slo + CharsBefore(kids, j), Nth(kids, j))
  }

  /** Equal where the tree at `d` lies. */
  ghost predicate SameThere(c: seq<Cell>, c': seq<Cell>, s: seq<char>, s': seq<char>, d: nat, lo: nat, slo: nat,
                            m: Model) {
    && |c'| == |c| && |s'| == |s|
    && (d < |c| ==> c'[d] == c[d])
    && (forall i: nat :: lo <= i < lo + Size(m) - 1 && i < |c| ==> c'[i] == c[i])
    && (forall i: nat :: slo <= i < slo + Chars(m) && i < |s| ==> s'[i] == s[i])
  }

  lemma {:induction false} PackedFrame(c: seq<Cell>, c': seq<Cell>, s: seq<char>, s': seq<char>, d: nat, lo: nat,
                                       slo: nat, m: Model)
    requires Packed(c, s, d, lo, slo, m) && SameThere(c, c', s, s', d, lo, slo, m)
    ensures Packed(c', s', d, lo, slo, m)
    decreases Size(m)
  {
    match m
    case Leaf(name, q) =>
      assert s'[slo..slo + |name| + 1] == s[slo..slo + |name| + 1];
    case Node(kind, kids, q) =>
      forall j: nat | j < Len(kids) ensures PackedKid(c', s', lo, slo, kids, j) {
        assert PackedKid(c, s, lo, slo, kids, j);
        BeforeNext(kids, j);
        PackedFrame(c, c', s, s', lo + j, lo + Len(kids) + SizeBefore(kids, j) - j, slo + CharsBefore(kids, j),
                    Nth(kids, j));
      }
  }

  /** What an application sees that follows the pointers from cell `d`. */
  ghost predicate Seen(cells: seq<Cell>, strs: seq<char>, d: nat, m: Model)
    decreases Size(m)
  {
    && d < |cells|
    && cells[d].quant == m.quant
    && match m
       case Leaf(name, _) =>
         && cells[d].type_ == TypeOf(NameKind)
         && 0 <= cells[d].name <= cells[d].name + |name| < |strs|
         && strs[cells[d].name..cells[d].name + |name| + 1] == name + ['\0']
       case Node(kind, kids, _) =>
         && cells[d].type_ == TypeOf(kind)
         && cells[d].numchildren == Len(kids)
         && forall j: nat :: j < Len(kids) ==>
             (BeforeNext(kids, j); Seen(cells, strs, cells[d].children + j, Nth(kids, j)))
  }

  /** Type, quantifier, name, number and order of children are those of the tree. */
  lemma {:induction false} PackedIsSeen(cells: seq<Cell>, strs: seq<char>, d: nat, lo: nat, slo: nat, m: Model)
    requires Packed(cells, strs, d, lo, slo, m)
    ensures Seen(cells, strs, d, m)
    decreases Size(m)
  {
    match m
    case Leaf(_, _) =>
    case Node(kind, kids, q) =>
      forall j: nat | j < Len(kids) ensures (BeforeNext(kids, j); Seen(cells, strs, lo + j, Nth(kids, j))) {
        assert PackedKid(cells, strs, lo, slo, kids, j);
        BeforeNext(kids, j);
        PackedIsSeen(cells, strs, lo + j, lo + Len(kids) + SizeBefore(kids, j) - j, slo + CharsBefore(kids, j),
                     Nth(kids, j));
      }
  }

  /** The character loop that copies a name with its NUL. */
  method CopyName(name: string, strs: array<char>, strpos: nat) returns (strpos': nat)
    requires strpos + |name| + 1 <= strs.Length
    modifies strs
    ensures strpos' == strpos + |name| + 1
    ensures strs[strpos..strpos'] == name + ['\0']
    ensures forall k: nat :: k < strs.Length && !(strpos <= k < strpos') ==> strs[k] == old(strs[k])
  {
    var i := 0;
    while i < |name|
      invariant i <= |name|
      invariant strs[strpos..strpos + i] == name[..i]
      invariant forall k: nat :: k < strs.Length && !(strpos <= k < strpos + i) ==> strs[k] == old(strs[k])
    {
      strs[strpos + i] := name[i];
      i := i + 1;
    }
    strs[strpos + i] := '\0';
    strpos' := strpos + i + 1;
  }

  /** Writing elsewhere leaves the first `i` children in place. */
  lemma KidsStay(c: seq<Cell>, c': seq<Cell>, s: seq<char>, s': seq<char>, lo: nat, slo: nat, kids: Models, i: nat)
    requires |c'| == |c| && |s'| == |s| && i < Len(kids)
    requires forall j: nat :: j < i ==> PackedKid(c, s, lo, slo, kids, j)
    requires forall k: nat :: k < |c| && k != lo + i && k < lo + Len(kids) + SizeBefore(kids, i) - i ==> c'[k] == c[k]
    requires forall k: nat :: k < |s| && k < slo + CharsBefore(kids, i) ==> s'[k] == s[k]
    ensures forall j: nat :: j < i ==> PackedKid(c', s', lo, slo, kids, j)
  {
    forall j: nat | j < i ensures PackedKid(c', s', lo, slo, kids, j) {
      BeforeNext(kids, j);
      BeforeMonotone(kids, j + 1, i);
      assert PackedKid(c, s, lo, slo, kids, j);
      PackedFrame(c, c', s, s', lo + j, lo + Len(kids) + SizeBefore(kids, j) - j, slo + CharsBefore(kids, j),
                  Nth(kids, j));
    }
  }

  lemma {:induction false} BeforeMonotone(kids: Models, a: nat, b: nat)
    requires a <= b <= Len(kids)
    ensures SizeBefore(kids, a) - a <= SizeBefore(kids, b) - b
    ensures CharsBefore(kids, a) <= CharsBefore(kids, b)
    decreases b - a
  {
    if a < b {
      BeforeNext(kids, a);
      BeforeMonotone(kids, a + 1, b);
    }
  }

  /** `build_node`: the recursive copy through the two moving cursors. */
  method BuildNode(scaffold: seq<Part>, src: nat, dest: nat, cells: array<Cell>, strs: array<char>,
                   contpos: nat, strpos: nat, ghost m: Model)
    returns (contpos': nat, strpos': nat)
    requires Shows(scaffold, src, m)
    requires dest < contpos && contpos + Size(m) - 1 <= cells.Length && strpos + Chars(m) <= strs.Length
    modifies cells, strs
    ensures contpos' == contpos + Size(m) - 1 && strpos' == strpos + Chars(m)
    ensures Packed(cells[..], strs[..], dest, contpos, strpos, m)
    ensures Untouched(old(cells[..]), cells[..], dest, contpos, contpos')
    ensures Untouched(old(strs[..]), strs[..], -1, strpos, strpos')
    decreases Size(m), 1
  {
    var node := scaffold[src];
    if node.kind == NameKind {
      cells[dest] := Cell(TypeOf(NameKind), node.quant, strpos, 0, 0);
      contpos' := contpos;
      strpos' := CopyName(node.name, strs, strpos);
    } else {
      cells[dest] := Cell(TypeOf(node.kind), node.quant, -1, node.childcnt, contpos);
      LenWithin(m.kids);
      contpos', strpos' := BuildKids(scaffold, src, node, cells, strs, contpos, strpos, m.kids);
    }
  }

  ghost predicate Untouched<T>(s: seq<T>, s': seq<T>, d: int, lo: nat, hi: nat) {
    |s'| == |s| && forall i: nat :: i < |s| && i != d && !(lo <= i < hi) ==> s'[i] == s[i]
  }

  /** The loop over the children, whose row of cells starts at `lo`. */
  method BuildKids(scaffold: seq<Part>, src: nat, node: Part, cells: array<Cell>, strs: array<char>,
                   lo: nat, slo: nat, ghost kids: Models)
    returns (contpos: nat, strpos: nat)
    requires ShowsAll(scaffold, src + 1, kids) && node.childcnt == Len(kids)
    requires kids.Cons? ==> node.firstchild == src + 1
    requires lo + SizeAll(kids) <= cells.Length && slo + CharsAll(kids) <= strs.Length
    modifies cells, strs
    ensures contpos == lo + SizeAll(kids) && strpos == slo + CharsAll(kids)
    ensures forall j: nat :: j < Len(kids) ==> PackedKid(cells[..], strs[..], lo, slo, kids, j)
    ensures Untouched(old(cells[..]), cells[..], -1, lo, contpos)
    ensures Untouched(old(strs[..]), strs[..], -1, slo, strpos)
    decreases SizeAll(kids), 2
  {
    hide Shows, ShowsAll, Packed;
    var n := node.childcnt;
    LenWithin(kids);
    contpos, strpos := lo + n, slo;
    var i, cn := 0, node.firstchild;
    while i < n
      invariant i <= n
      invariant i < n ==> cn == src + 1 + SizeBefore(kids, i)
      invariant i <= SizeBefore(kids, i)
      invariant contpos == lo + n + SizeBefore(kids, i) - i
      invariant strpos == slo + CharsBefore(kids, i)
      invariant forall j: nat :: j < i ==> PackedKid(cells[..], strs[..], lo, slo, kids, j)
      invariant Untouched(old(cells[..]), cells[..], -1, lo, contpos)
      invariant Untouched(old(strs[..]), strs[..], -1, slo, strpos)
    {
      ShowsNth(scaffold, src + 1, kids, i);
      BeforeNext(kids, i);
      ghost var c, t := cells[..], strs[..];
      contpos, strpos := BuildNode(scaffold, cn, lo + i, cells, strs, contpos, strpos, Nth(kids, i));
      KidsStay(c, cells[..], t, strs[..], lo, slo, kids, i);
      cn := scaffold[cn].nextsib;
      i := i + 1;
    }
    BeforeAll(kids);
  }
}
