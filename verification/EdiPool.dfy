/**
 The string pools of an interchange: an arena in which the parser puts the values, and
 the test that tells its buffers from others.
 */
module EdiPool {
  import opened EdiText

  const BLOCK_SIZE: nat := 512

  /** A pointer into a block of memory. */
  datatype Ptr = Ptr(block: array<Byte>, at: nat)

  /** What the pools hold: each block up to its stack pointer. */
  type Used = map<array<Byte>, Value>

  /** Everything handed out stays as it is. */
  ghost predicate Extends(a: Used, b: Used) {
    forall k <- a :: k in b && a[k] <= b[k]
  }

  lemma ExtendsTrans(a: Used, b: Used, c: Used)
    requires Extends(a, b) && Extends(b, c)
    ensures Extends(a, c)
  {
  }

  /** A buffer of `size` bytes that has been handed out. */
  datatype Region = Region(ptr: Ptr, size: nat)

  ghost predicate InUse(u: Used, r: Region) {
    r.ptr.block in u && r.ptr.at + r.size <= |u[r.ptr.block]|
  }

  ghost predicate Apart(r: Region, s: Region) {
    r.ptr.block != s.ptr.block || r.ptr.at + r.size <= s.ptr.at || s.ptr.at + s.size <= r.ptr.at
  }

  ghost predicate AllApart(rs: seq<Region>) {
    forall i: nat, j: nat :: i < j < |rs| ==> Apart(rs[i], rs[j])
  }

  ghost predicate AllInUse(u: Used, rs: seq<Region>) {
    forall i: nat :: i < |rs| ==> InUse(u, rs[i])
  }

  /** A buffer fresh at the top of its block is apart from all others. */
  lemma NewRegion(u: Used, w: Used, rs: seq<Region>, r: Region)
    requires AllInUse(u, rs) && AllApart(rs) && Extends(u, w) && InUse(w, r)
    requires r.ptr.block in u ==> r.ptr.at >= |u[r.ptr.block]|
    ensures AllInUse(w, rs + [r]) && AllApart(rs + [r])
  {
    var all := rs + [r];
    forall i: nat | i < |all| ensures InUse(w, all[i]) {
      if i < |rs| {
        assert InUse(u, rs[i]);
      }
    }
    forall i: nat, j: nat | i < j < |all| ensures Apart(all[i], all[j]) {
      assert InUse(u, rs[i]);
    }
  }

  /** `memcpyescape` */
  method CopyUnescaped(dest: array<Byte>, at: nat, msg: Value, ts: nat, len: nat, p: Params) returns (n: nat)
    requires ts + len <= |msg| && at + len <= dest.Length
    modifies dest
    ensures n <= len && dest[at..at + n] == Unescape(msg[ts..ts + len], false, p)
    ensures forall k: nat :: k < dest.Length && !(at <= k < at + n) ==> dest[k] == old(dest[k])
  {
    hide Unescape;
    var e, k := false, 0;
    n := 0;
    ghost var src := msg[ts..ts + len];
    ghost var full := Unescape(src, false, p);
    assert src[0..] == src;
    while k < len
      invariant n <= k <= len
      invariant dest[at..at + n] + Unescape(src[k..], e, p) == full
      invariant forall k: nat :: k < dest.Length && !(at <= k < at + n) ==> dest[k] == old(dest[k])
    {
      UnescapeNext(src, k, e, p);
      ghost var done, b := dest[at..at + n], msg[ts + k];
      if e {
        dest[at + n] := msg[ts + k];
        n := n + 1;
        e := false;
      } else if IsEscape(msg[ts + k], p) {
        e := true;
      } else {
        dest[at + n] := msg[ts + k];
        n := n + 1;
      }
      k := k + 1;
      assert dest[at..at + n] == done || dest[at..at + n] == done + [b];
      assert done + ([b] + Unescape(src[k..], false, p)) == done + [b] + Unescape(src[k..], false, p);
    }
    UnescapeNothing(e, p);
    assert src[len..] == [];
  }

  lemma UnescapeNext(src: Value, k: nat, e: bool, p: Params)
    requires k < |src|
    ensures Unescape(src[k..], e, p) ==
            if !e && IsEscape(src[k], p) then Unescape(src[k + 1..], true, p)
            else [src[k]] + Unescape(src[k + 1..], false, p)
  {
    assert src[k..][1..] == src[k + 1..];
  }

  lemma UnescapeNothing(e: bool, p: Params)
    ensures Unescape([], e, p) == []
  {
  }

  /**
   The pools of an interchange. `used` is what they hold and `regions` are the buffers
   handed out, in order.
   */
  class Pool {
    var stringpool: seq<array<Byte>>
    var sp: seq<nat>
    ghost var used: Used
    ghost var regions: seq<Region>

    ghost predicate Valid()
      reads this, stringpool
    {
      && |sp| == |stringpool|
      && (forall k: nat :: k < |sp| ==> Block(stringpool[k], sp[k]))
      && (forall j: nat, k: nat :: j < k < |sp| ==> stringpool[j] != stringpool[k])
      && (forall b <- used :: b in stringpool)
      && AllApart(regions) && AllInUse(used, regions)
    }

    ghost predicate Block(b: array<Byte>, n: nat)
      reads this, b
    {
      n <= b.Length && b in used && used[b] == b[..n]
    }

    constructor ()
      ensures Valid() && stringpool == [] && regions == []
    {
      stringpool, sp, used, regions := [], [], map[], [];
    }

    /** No pools any more. */
    method Reset()
      modifies this
      ensures Valid() && stringpool == []
    {
      stringpool, sp, used, regions := [], [], map[], [];
    }

    /** A pool more, which is empty. */
    twostate lemma Grown(new block: array<Byte>)
      requires old(Valid()) && block !in old(stringpool) && block !in old(used)
      requires stringpool == old(stringpool) + [block] && sp == old(sp) + [0] && regions == old(regions)
      requires used == old(used)[block := []]
      requires forall b <- old(stringpool) :: unchanged(b)
      ensures Valid()
    {
      hide AllApart, AllInUse;
      GrownBy(old(used), block, [], used);
      StillInUse(old(used), used, regions);
      forall k: nat | k < |sp| ensures Block(stringpool[k], sp[k]) {
        if k < |old(sp)| {
          assert stringpool[k] == old(stringpool)[k] && old(stringpool)[k] in old(stringpool);
          assert old(Block(stringpool[k], sp[k]));
        }
      }
    }

    /** `edi__stringpool_get`: the last pool if it has room, or else a new one. */
    method Get(minsize: nat) returns (n: nat)
      requires Valid()
      modifies this
      ensures Valid() && n + 1 == |stringpool| && sp[n] + minsize <= stringpool[n].Length
      ensures regions == old(regions)
      ensures (stringpool == old(stringpool) && sp == old(sp) && used == old(used))
              || (stringpool == old(stringpool) + [stringpool[n]] && sp == old(sp) + [0]
                  && used == old(used)[stringpool[n] := []] && fresh(stringpool[n])
                  && stringpool[n].Length == (if minsize > 512 then minsize else 512))
      ensures stringpool == old(stringpool) <==>
              old(stringpool) != [] && old(sp[|sp| - 1] + minsize < stringpool[|sp| - 1].Length)
    {
      hide AllApart, AllInUse;
      if |stringpool| > 0 {
        var last := |stringpool| - 1;
        if sp[last] + minsize < stringpool[last].Length {
          return last;
        }
      }
      var block := new Byte[if minsize > BLOCK_SIZE then minsize else BLOCK_SIZE](i => 0);
      stringpool := stringpool + [block];
      sp := sp + [0];
      used := used[block := []];
      Grown(block);
      n := |stringpool| - 1;
    }

    /** The stack pointer of the last pool moves up. */
    method Bump(length: nat) returns (p: Ptr)
      requires Valid() && |sp| > 0 && sp[|sp| - 1] + length <= stringpool[|sp| - 1].Length
      modifies this`sp, this`used, this`regions
      ensures Valid() && Extends(old(used), used)
      ensures regions == old(regions) + [Region(p, length)]
      ensures p == Ptr(stringpool[|sp| - 1], old(sp[|sp| - 1]))
      ensures sp == old(sp)[|sp| - 1 := p.at + length]
      ensures p.block in old(used) && p.at == |old(used)[p.block]|
    {
      hide AllApart, AllInUse, Extends;
      var n := |sp| - 1;
      assert Block(stringpool[n], sp[n]);
      assert forall k: nat :: k < n ==> Block(stringpool[k], sp[k]);
      p := Ptr(stringpool[n], sp[n]);
      ghost var was := used;
      sp := sp[n := sp[n] + length];
      used := used[p.block := p.block[..sp[n]]];
      assert was[p.block] <= used[p.block];
      GrownBy(was, p.block, used[p.block], used);
      NewRegion(was, used, regions, Region(p, length));
      regions := regions + [Region(p, length)];
      assert forall k: nat :: k < n ==> Block(stringpool[k], sp[k]);
    }

    /** `edi__stringpool_alloc` */
    method Alloc(length: nat) returns (p: Ptr)
      requires Valid()
      modifies this
      ensures Valid() && Extends(old(used), used)
      ensures regions == old(regions) + [Region(p, length)]
      ensures |sp| > 0 && p.block == stringpool[|sp| - 1] && sp[|sp| - 1] == p.at + length
      ensures p.block in old(used) ==> p.at == |old(used)[p.block]|
      ensures if old(stringpool) != [] && old(sp[|sp| - 1] + length < stringpool[|sp| - 1].Length)
              then stringpool == old(stringpool) && p.at == old(sp[|sp| - 1])
              else stringpool == old(stringpool) + [p.block] && p.at == 0 && fresh(p.block)
    {
      hide AllApart, AllInUse, Extends;
      var n := Get(length);
      ghost var was := used;
      GrownBy(old(used), stringpool[n], [], was);
      p := Bump(length);
      ExtendsTrans(old(used), was, used);
    }

    /** Bytes of the last pool have been written. */
    twostate lemma Rewritten()
      requires old(Valid()) && |sp| > 0
      requires stringpool == old(stringpool) && sp == old(sp) && regions == old(regions)
      requires forall k: nat :: k < |sp| - 1 ==> unchanged(stringpool[k])
      requires used == old(used)[stringpool[|sp| - 1] := stringpool[|sp| - 1][..sp[|sp| - 1]]]
      ensures Valid()
    {
      hide AllApart, AllInUse;
      var last := |sp| - 1;
      assert old(Block(stringpool[last], sp[last]));
      SameSizes(old(used), used, regions);
      forall k: nat | k < last ensures Block(stringpool[k], sp[k]) {
        assert old(Block(stringpool[k], sp[k]));
      }
    }

    /** What is known of the last pool. */
    lemma LastPool()
      requires Valid() && |sp| > 0
      ensures |stringpool| == |sp|
      ensures forall k: nat :: k < |sp| - 1 ==> stringpool[k] != stringpool[|sp| - 1]
      ensures sp[|sp| - 1] <= stringpool[|sp| - 1].Length && stringpool[|sp| - 1] in used
      ensures used[stringpool[|sp| - 1]] == stringpool[|sp| - 1][..sp[|sp| - 1]]
    {
      assert Block(stringpool[|sp| - 1], sp[|sp| - 1]);
    }

    /** A value is put into a buffer of the last pool, with its terminator. */
    method Fill(ptr: Ptr, msg: Value, ts: nat, len: nat, p: Params) returns (n: nat)
      requires Valid() && ts + len <= |msg|
      requires |sp| > 0 && |stringpool| == |sp| && ptr.block == stringpool[|sp| - 1] && sp[|sp| - 1] == ptr.at + len + 1
      modifies this`used, ptr.block
      ensures Valid() && ptr.block in old(used) && sp[|sp| - 1] <= ptr.block.Length
      ensures used == old(used)[ptr.block := ptr.block[..sp[|sp| - 1]]]
      ensures used[ptr.block][..ptr.at] == old(used)[ptr.block][..ptr.at]
      ensures |used[ptr.block]| == |old(used)[ptr.block]|
      ensures Holds(used, ptr, Unescape(msg[ts..ts + len], false, p))
      ensures n == |Unescape(msg[ts..ts + len], false, p)| && n <= len
    {
      hide Valid, Block, Unescape, AllApart, AllInUse;
      var b := ptr.block;
      LastPool();
      n := CopyUnescaped(b, ptr.at, msg, ts, len, p);
      b[ptr.at + n] := 0;
      used := used[b := b[..sp[|sp| - 1]]];
      assert b[..ptr.at] == old(b[..ptr.at]);
      assert used[b][..ptr.at] == b[..ptr.at];
      assert old(b[..sp[|sp| - 1]][..ptr.at]) == old(b[..ptr.at]);
      Rewritten();
      assert b[ptr.at..ptr.at + n] == Unescape(msg[ts..ts + len], false, p);
      assert used[b][ptr.at..ptr.at + n] == b[ptr.at..ptr.at + n];
    }

    /** A new value: its buffer is where no other buffer is, and the others keep theirs. */
    method Store(msg: Value, ts: nat, len: nat, p: Params) returns (ptr: Ptr, n: nat)
      requires Valid() && ts + len <= |msg|
      modifies this, stringpool
      ensures Valid() && Extends(old(used), used)
      ensures regions == old(regions) + [Region(ptr, len + 1)]
      ensures Holds(used, ptr, Unescape(msg[ts..ts + len], false, p))
      ensures n == |Unescape(msg[ts..ts + len], false, p)| && n <= len
      ensures |sp| > 0 && |stringpool| == |sp| && ptr.block == stringpool[|sp| - 1] && sp[|sp| - 1] == ptr.at + len + 1
      ensures if old(stringpool) != [] && old(|sp| > 0 && sp[|sp| - 1] + len + 1 < stringpool[|stringpool| - 1].Length)
              then stringpool == old(stringpool) && ptr.at == old(sp[|sp| - 1])
              else stringpool == old(stringpool) + [ptr.block] && ptr.at == 0 && fresh(ptr.block)
    {
      hide Block, Unescape, Valid, AllApart, AllInUse, Extends, Holds;
      OnePerPool();
      ptr := Alloc(len + 1);
      ghost var was := used;
      OnePerPool();
      LastPool();
      n := Fill(ptr, msg, ts, len, p);
      RewrittenAbove(old(used), was, ptr, used[ptr.block], used);
    }

    lemma OnePerPool()
      requires Valid()
      ensures |sp| == |stringpool|
    {
    }

    /** `edi__stringpool_free`: whether the buffer is one of the pools'. */
    method Owns(ptr: Ptr) returns (owned: bool)
      requires Valid()
      ensures owned <==> ptr.block in used && ptr.at < |used[ptr.block]|
    {
      var c := 0;
      while c < |stringpool|
        invariant c <= |stringpool|
        invariant forall k: nat :: k < c ==> stringpool[k] == ptr.block ==> ptr.at >= sp[k]
      {
        assert Block(stringpool[c], sp[c]);
        if stringpool[c] == ptr.block && ptr.at < sp[c] {
          return true;
        }
        c := c + 1;
      }
      return false;
    }
  }

  /** The `n` bytes at a pointer. */
  ghost function Text(u: Used, p: Ptr, n: nat): Value {
    if p.block in u && p.at + n <= |u[p.block]| then u[p.block][p.at..p.at + n] else []
  }

  /** A value in the pool: its buffer has room for a terminator. */
  ghost predicate Holds(u: Used, p: Ptr, v: Value) {
    p.block in u && p.at + |v| < |u[p.block]| && Text(u, p, |v|) == v && u[p.block][p.at + |v|] == 0
  }

  lemma HoldsStays(u: Used, w: Used, p: Ptr, v: Value)
    requires Holds(u, p, v) && Extends(u, w)
    ensures Holds(w, p, v)
  {
    assert u[p.block] <= w[p.block];
    assert forall k: nat :: k < |u[p.block]| ==> u[p.block][k] == w[p.block][k];
  }

  /** Rewriting the newest buffer disturbs nothing older. */
  lemma RewrittenAbove(u: Used, was: Used, p: Ptr, v: Value, w: Used)
    requires Extends(u, was) && p.block in was && w == was[p.block := v]
    requires |v| == |was[p.block]| && p.at <= |v| && (p.block in u ==> p.at == |u[p.block]|)
    requires v[..p.at] == was[p.block][..p.at]
    ensures Extends(u, w)
  {
    if p.block in u {
      assert u[p.block] == was[p.block][..p.at];
    }
  }

  lemma SameSizes(u: Used, w: Used, rs: seq<Region>)
    requires AllInUse(u, rs) && forall b <- u :: b in w && |u[b]| == |w[b]|
    ensures AllInUse(w, rs)
  {
    forall i: nat | i < |rs| ensures InUse(w, rs[i]) {
      assert InUse(u, rs[i]);
    }
  }

  lemma GrownBy(u: Used, b: array<Byte>, v: Value, w: Used)
    requires w == u || w == u[b := v]
    requires b in u ==> u[b] <= v || w == u
    ensures Extends(u, w)
  {
  }

  lemma StillInUse(u: Used, w: Used, rs: seq<Region>)
    requires AllInUse(u, rs) && Extends(u, w)
    ensures AllInUse(w, rs)
  {
    forall i: nat | i < |rs| ensures InUse(w, rs[i]) {
      assert InUse(u, rs[i]);
    }
  }
}
