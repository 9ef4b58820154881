/**
 The name tables of the XML parser: open addressing with double hashing, grown when
 half full.  `lookup` refines a finite map, whatever the hash function is.
 */
module HashTable {
  import opened Probing

  type Key = string

  const INIT_POWER: nat := 6

  /** An entry: the caller's record, of which the table only knows the name. */
  class Named {
    const name: Key
    constructor (name: Key)
      ensures this.name == name
    {
      this.name := name;
    }
  }

  type Slots = seq<Named?>

  ghost predicate Placed(v: Slots, hash: Key -> nat, power: nat)
  {
    && power >= 3 && |v| == Pow2(power)
    && (forall i: nat {:trigger Reached(Taken(v), hash(v[i].name), power, i)} :: i < |v| && v[i] != null ==>
        Reached(Taken(v), hash(v[i].name), power, i))
    && (forall i: nat, j: nat :: i < j < |v| && v[i] != null && v[j] != null ==> v[i].name != v[j].name)
  }

  ghost function Taken(v: Slots): (s: set<nat>) {
    set i: nat | i < |v| && v[i] != null
  }

  /** The finite map a slot array stands for. */
  ghost predicate Represents(v: Slots, m: map<Key, Named>) {
    && (forall i: nat {:trigger v[i]} :: i < |v| && v[i] != null ==> v[i].name in m && m[v[i].name] == v[i])
    && (forall k: Key {:trigger m[k]} :: k in m ==> m[k].name == k && m[k] in v)
  }

  /** The first `n` probes of `h` meet entries, none of them called `name`. */
  ghost predicate PassesOthers(v: Slots, h: nat, power: nat, name: Key, n: nat)
    requires power >= 3 && |v| == Pow2(power)
  {
    forall m: nat :: m < n ==> var s := v[Chain(h, power, m)]; s != null && s.name != name
  }

  lemma AbsentFromSlot(v: Slots, h: nat, power: nat, name: Key, n: nat, i: nat)
    requires power >= 3 && |v| == Pow2(power)
    requires PassesOthers(v, h, power, name, n) && v[Chain(h, power, n)] == null
    requires Reached(Taken(v), h, power, i)
    ensures v[i] == null || v[i].name != name
  {
    var k: nat :| Chain(h, power, k) == i && TakenUpTo(Taken(v), h, power, k);
    assert k <= n;
  }

  /** An empty slot at the end of the walk of a name means the name is in no slot. */
  lemma AbsentFromAll(v: Slots, hash: Key -> nat, power: nat, name: Key, n: nat)
    requires Placed(v, hash, power)
    requires PassesOthers(v, hash(name), power, name, n) && v[Chain(hash(name), power, n)] == null
    ensures forall i: nat :: i < |v| && v[i] != null ==> v[i].name != name
  {
    forall i: nat | i < |v| && v[i] != null && Reached(Taken(v), hash(name), power, i) ensures v[i].name != name {
      AbsentFromSlot(v, hash(name), power, name, n, i);
    }
  }

  /** What the slot at the end of the walk says about the map. */
  lemma WalkDecides(v: Slots, hash: Key -> nat, power: nat, m: map<Key, Named>, name: Key, n: nat)
    requires Holds(v, hash, power, m)
    requires PassesOthers(v, hash(name), power, name, n)
    requires var e := v[Chain(hash(name), power, n)]; e != null ==> e.name == name
    ensures var e := v[Chain(hash(name), power, n)];
            if e == null then name !in m else name in m && m[name] == e
  {
    if v[Chain(hash(name), power, n)] == null {
      AbsentFromAll(v, hash, power, name, n);
    }
  }

  /** Filling the first free slot of its probe sequence keeps the placement and adds
      exactly one entry. */
  lemma FillSlot(v: Slots, hash: Key -> nat, power: nat, e: Named, n: nat)
    requires Placed(v, hash, power)
    requires forall i: nat :: i < |v| && v[i] != null ==> v[i].name != e.name
    requires v[Chain(hash(e.name), power, n)] == null && TakenUpTo(Taken(v), hash(e.name), power, n)
    ensures var w := v[Chain(hash(e.name), power, n) := e];
            Placed(w, hash, power) && |Taken(w)| == |Taken(v)| + 1
  {
    var i := Chain(hash(e.name), power, n);
    var w := v[i := e];
    assert Taken(w) == Taken(v) + {i};
    forall j: nat | j < |w| && w[j] != null ensures Reached(Taken(w), hash(w[j].name), power, j) {
      if j != i {
        ReachedStays(Taken(v), Taken(w), hash(v[j].name), power, j);
      } else {
        assert Reached(Taken(v), hash(e.name), power, i);
        ReachedStays(Taken(v), Taken(w), hash(e.name), power, i);
      }
    }
  }

  lemma RepresentsFilled(v: Slots, m: map<Key, Named>, i: nat, e: Named)
    requires Represents(v, m) && i < |v| && v[i] == null && e.name !in m
    ensures Represents(v[i := e], m[e.name := e])
  {
    var w := v[i := e];
    var m' := m[e.name := e];
    forall k: Key | k in m' ensures m'[k].name == k && m'[k] in w {
      if k == e.name {
        assert w[i] == e;
      } else {
        var j :| 0 <= j < |v| && v[j] == m[k];
        assert w[j] == m[k];
      }
    }
  }

  /** The slots are a hash table of the map `m`. */
  ghost predicate Holds(v: Slots, hash: Key -> nat, power: nat, m: map<Key, Named>)
    ensures Holds(v, hash, power, m) ==> power >= 3 && |v| == Pow2(power) && |Taken(v)| == |m|
  {
    Placed(v, hash, power) && Represents(v, m) && |Taken(v)| == |m|
  }

  lemma AllFree(v: Slots, hash: Key -> nat, power: nat)
    requires power >= 3 && |v| == Pow2(power)
    requires forall i: nat :: i < |v| ==> v[i] == null
    ensures Holds(v, hash, power, map[])
  {
    assert Taken(v) == {};
  }

  /** The entries still to be copied are distinct from those already copied. */
  lemma CopiedNext(v: Slots, hash: Key -> nat, power: nat, i: nat, m: map<Key, Named>, all: map<Key, Named>)
    requires Holds(v, hash, power, all) && i < |v| && Copied(v, i, m, all)
    ensures v[i] == null ==> Copied(v, i + 1, m, all)
    ensures v[i] != null ==> v[i].name !in m && Copied(v, i + 1, m[v[i].name := v[i]], all)
  {
  }

  lemma CopiedAll(v: Slots, hash: Key -> nat, power: nat, m: map<Key, Named>, all: map<Key, Named>)
    requires Holds(v, hash, power, all) && Copied(v, |v|, m, all)
    ensures m == all
  {
    forall k: Key | k in all ensures k in m {
      var j: nat :| j < |v| && v[j] == all[k];
    }
  }

  method Fill(v: array<Named?>, power: nat, hash: Key -> nat, e: Named, i: nat, ghost n: nat, ghost m: map<Key, Named>)
    requires Holds(v[..], hash, power, m) && e.name !in m
    requires i == Chain(hash(e.name), power, n) && v[i] == null && TakenUpTo(Taken(v[..]), hash(e.name), power, n)
    modifies v
    ensures Holds(v[..], hash, power, m[e.name := e])
  {
    ghost var before := v[..];
    assert forall j: nat :: j < |before| && before[j] != null ==> before[j].name != e.name;
    FillSlot(before, hash, power, e, n);
    RepresentsFilled(before, m, i, e);
    v[i] := e;
    assert v[..] == before[i := e];
  }

  /** The slot `lookup` probes its way to: it holds the entry of the name when the table has
      one, and is free otherwise. */
  method Probe(v: array<Named?>, power: nat, hash: Key -> nat, name: Key, ghost m: map<Key, Named>)
    returns (i: nat, ghost n: nat)
    requires Holds(v[..], hash, power, m) && |m| < v.Length
    ensures i < v.Length && i == Chain(hash(name), power, n)
    ensures if name in m then v[i] == m[name] else v[i] == null
    ensures TakenUpTo(Taken(v[..]), hash(name), power, n)
  {
    hide Holds, Taken, ProbeStep, LowBits, Chain, Reached;
    i, n := Walk(v, power, hash(name), name);
    WalkDecides(v[..], hash, power, m, name, n);
    assert v[i] == v[..][i];
  }

  method Walk(v: array<Named?>, power: nat, h: nat, name: Key) returns (i: nat, ghost n: nat)
    requires power >= 3 && v.Length == Pow2(power)
    requires |Taken(v[..])| < v.Length
    ensures i < v.Length && i == Chain(h, power, n)
    ensures v[i] != null ==> v[i].name == name
    ensures PassesOthers(v[..], h, power, name, n) && TakenUpTo(Taken(v[..]), h, power, n)
  {
    ghost var s := v[..];
    var size := v.Length;
    var step := 0;
    i := LowBits(h, power);
    n := 0;
    while v[i] != null
      invariant i < size && i == Chain(h, power, n)
      invariant step == 0 || step == ProbeStep(h, power)
      invariant n <= |Taken(s)|
      invariant PassesOthers(s, h, power, name, n) && TakenUpTo(Taken(s), h, power, n)
      decreases |Taken(s)| - n
    {
      if v[i].name == name {
        return;
      }
      if step == 0 {
        step := ProbeStep(h, power);
      }
      assert s[i] == v[i];
      i := if i < step then i + (size - step) else i - step;
      n := n + 1;
      WalkIsBounded(Taken(s), h, power, n);
    }
  }

  /** The walk to a free slot for a name known to be absent: the rehashing loop and the
      last loop of `lookup`. */
  method ProbeFree(v: array<Named?>, power: nat, h: nat) returns (i: nat, ghost n: nat)
    requires power >= 3 && v.Length == Pow2(power)
    requires |Taken(v[..])| < v.Length
    ensures i < v.Length && i == Chain(h, power, n)
    ensures v[i] == null && TakenUpTo(Taken(v[..]), h, power, n)
  {
    ghost var s := v[..];
    var size := v.Length;
    var step := 0;
    i := LowBits(h, power);
    n := 0;
    while v[i] != null
      invariant i < size && i == Chain(h, power, n)
      invariant step == 0 || step == ProbeStep(h, power)
      invariant n <= |Taken(s)|
      invariant TakenUpTo(Taken(s), h, power, n)
      decreases |Taken(s)| - n
    {
      if step == 0 {
        step := ProbeStep(h, power);
      }
      assert s[i] == v[i];
      i := if i < step then i + (size - step) else i - step;
      n := n + 1;
      WalkIsBounded(Taken(s), h, power, n);
    }
  }

  /** The entries of the first `i` slots are in `m`, and `m` has no others. */
  ghost predicate Copied(v: Slots, i: nat, m: map<Key, Named>, all: map<Key, Named>) {
    && i <= |v|
    && (forall k: Key {:trigger m[k]} :: k in m ==> k in all && m[k] == all[k])
    && (forall j: nat :: j < i && v[j] != null ==> v[j].name in m)
    && (forall j: nat :: i <= j < |v| && v[j] != null ==> v[j].name !in m)
  }

  /** Double the table: every entry is put into a slot array of twice the size. */
  method Rehash(v: array<Named?>, hash: Key -> nat, power: nat, ghost all: map<Key, Named>)
    returns (newV: array<Named?>)
    requires Holds(v[..], hash, power, all)
    ensures fresh(newV) && newV.Length == 2 * v.Length
    ensures Holds(newV[..], hash, power + 1, all)
  {
    hide ProbeStep, LowBits, Chain, Reached, Holds, Taken;
    ghost var s := v[..];
    var size := v.Length;
    newV := new Named?[2 * size](_ => null);
    ghost var m: map<Key, Named> := map[];
    AllFree(newV[..], hash, power + 1);
    var i := 0;
    while i < size
      invariant i <= size && fresh(newV) && newV.Length == 2 * size
      invariant v[..] == s
      invariant Holds(newV[..], hash, power + 1, m) && |m| <= i < Pow2(power) + 1
      invariant Copied(s, i, m, all)
    {
      var e := v[i];
      assert e == s[i];
      CopiedNext(s, hash, power, i, m, all);
      if e != null {
        var j, n := ProbeFree(newV, power + 1, hash(e.name));
        Fill(newV, power + 1, hash, e, j, n, m);
        m := m[e.name := e];
      }
      i := i + 1;
    }
    CopiedAll(s, hash, power, m, all);
  }

  lemma InitialSize()
    ensures Pow2(INIT_POWER) == 64
  {
    assert Pow2(3) == 8;
  }

  lemma HalfEmpty(used: nat, half: nat)
    requires half > 0 && used / half == 0
    ensures used < half
  {
  }

  class Table {
    const hash: Key -> nat
    var v: array<Named?>
    var power: nat
    var size: nat
    var used: nat
    ghost var M: map<Key, Named>

    ghost predicate Valid()
      reads this, v
    {
      && v.Length == size && used == |M|
      && (size == 0 ==> M == map[])
      && (size > 0 ==> Holds(v[..], hash, power, M) && 2 * used <= size)
    }

    constructor (hash: Key -> nat)
      ensures Valid() && fresh(v) && M == map[] && this.hash == hash
    {
      this.hash := hash;
      v := new Named?[0];
      power, size, used := 0, 0, 0;
      M := map[];
    }

    /** `create` stands for a non-zero `createSize`: insert the name when it is absent. */
    method Lookup(name: Key, create: bool) returns (r: Named?)
      requires Valid()
      modifies this, v
      ensures Valid() && (v == old(v) || fresh(v))
      ensures name in old(M) ==> r == old(M)[name] && M == old(M)
      ensures name !in old(M) && !create ==> r == null && M == old(M)
      ensures name !in old(M) && create ==>
                r != null && fresh(r) && r.name == name && M == old(M)[name := r]
    {
      hide ProbeStep, LowBits, Reached, Holds, Taken;
      var i: nat;
      ghost var n: nat;
      if size == 0 {
        if !create {
          return null;
        }
        power := INIT_POWER;
        size := 64;
        InitialSize();
        v := new Named?[size](_ => null);
        AllFree(v[..], hash, power);
        i := LowBits(hash(name), power);
        n := 0;
      } else {
        i, n := Probe(v, power, hash, name, M);
        if v[i] != null {
          return v[i];
        }
        if !create {
          return null;
        }
        // `used >> (power - 1)`: the table is half full
        if used / Pow2(power - 1) != 0 {
          v := Rehash(v, hash, power, M);
          power := power + 1;
          size := 2 * size;
          i, n := ProbeFree(v, power, hash(name));
        } else {
          HalfEmpty(used, Pow2(power - 1));
        }
      }
      r := Store(name, i, n);
    }

    /** Put a new entry into the free slot `i` found for its name. */
    method Store(name: Key, i: nat, ghost n: nat) returns (r: Named)
      requires v.Length == size && Holds(v[..], hash, power, M) && used == |M| && 2 * used < size
      requires name !in M && i < size && i == Chain(hash(name), power, n)
      requires v[i] == null && TakenUpTo(Taken(v[..]), hash(name), power, n)
      modifies this, v
      ensures Valid() && v == old(v)
      ensures fresh(r) && r.name == name && M == old(M)[name := r]
    {
      hide ProbeStep, LowBits, Reached, Holds, Taken;
      r := new Named(name);
      Fill(v, power, hash, r, i, n, M);
      used := used + 1;
      M := M[name := r];
      assert Pow2(power) == 2 * Pow2(power - 1);
    }
  }
}
