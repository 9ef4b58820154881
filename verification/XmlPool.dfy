/**
 The string arena: strings are built at the end of a block and, once finished, never move.
 */
module XmlPool {
  import opened XmlTok
  import opened XmlConvert

  const INIT_BLOCK_SIZE: nat := 1024

  class Block {
    const s: array<Byte>
    var next: Block?

    constructor (size: nat)
      ensures fresh(s) && s.Length == size && next == null
    {
      s := new Byte[size](_ => 0);
      next := null;
    }
  }

  /** A finished string: where it is and what it says. */
  datatype Finished = Finished(block: Block, at: nat, text: Text)

  function Head(list: seq<Block>): Block? {
    if list == [] then null else list[0]
  }

  function NextIn(list: seq<Block>, k: nat): Block?
    requires k < |list|
  {
    if k + 1 < |list| then list[k + 1] else null
  }

  ghost predicate Chained(list: seq<Block>)
    reads list
  {
    forall k: nat :: k < |list| ==> list[k].next == NextIn(list, k)
  }

  ghost predicate Apart(a: Block, b: Block) {
    a != b && a.s != b.s
  }

  ghost predicate Distinct(list: seq<Block>, free: seq<Block>) {
    && (forall i: nat, j: nat :: i < j < |list| ==> Apart(list[i], list[j]))
    && (forall i: nat, j: nat :: i < j < |free| ==> Apart(free[i], free[j]))
    && (forall i: nat, j: nat :: i < |list| && j < |free| ==> Apart(list[i], free[j]))
  }

  ghost predicate Sized(list: seq<Block>) {
    forall b <- list :: b.s.Length >= INIT_BLOCK_SIZE
  }

  /** The string is where it was finished, and below `start` if it is in the current block. */
  ghost predicate Kept(f: Finished, list: seq<Block>, start: nat)
    reads f.block.s
  {
    && f.text != [] && f.block in list && f.at + |f.text| <= f.block.s.Length
    && f.block.s[f.at..f.at + |f.text|] == f.text
    && (f.block == list[0] ==> f.at + |f.text| <= start)
  }

  ghost function Arrays(list: seq<Block>): set<array<Byte>> {
    set b <- list :: b.s
  }

  ghost predicate AllKept(fs: seq<Finished>, list: seq<Block>, start: nat)
    reads Arrays(list)
  {
    forall f <- fs :: f.block in list && Kept(f, list, start)
  }

  /* ----- what a pool is used for ----- */

  datatype Strings = Strings(done: seq<Text>, current: Text)

  datatype PoolOp =
    | Char(c: Byte) | AddText(text: Text) | StoreText(text: Text) | MakeRoom | Chop | Discard | Finish

  /** What a use of the pool does to its strings. */
  function After(s: Strings, op: PoolOp): Strings {
    match op
    case Char(c) => s.(current := s.current + [c])
    case AddText(text) => s.(current := s.current + text)
    case StoreText(text) => s.(current := s.current + text + [0])
    case MakeRoom => s
    case Chop => if s.current == [] then s else s.(current := s.current[..|s.current| - 1])
    case Discard => s.(current := [])
    case Finish => Strings(if s.current == [] then s.done else s.done + [s.current], [])
  }

  function AfterAll(s: Strings, ops: seq<PoolOp>): Strings
    decreases |ops|
  {
    if ops == [] then s else AfterAll(After(s, ops[0]), ops[1..])
  }

  /** No character is chopped off a string that has none. */
  predicate Doable(current: Text, ops: seq<PoolOp>)
    decreases |ops|
  {
    ops == []
    || ((ops[0].Chop? ==> current != []) && Doable(After(Strings([], current), ops[0]).current, ops[1..]))
  }

  lemma OnlyCurrent(s: Strings, op: PoolOp)
    ensures After(s, op).current == After(Strings([], s.current), op).current
  {
  }

  function Texts(fs: seq<Finished>): seq<Text> {
    seq(|fs|, k requires 0 <= k < |fs| => fs[k].text)
  }

  /** Finished strings stand where they were finished. */
  ghost predicate InPlace(fs: seq<Finished>)
    reads set f <- fs :: f.block.s
  {
    forall f <- fs :: f.at + |f.text| <= f.block.s.Length && f.block.s[f.at..f.at + |f.text|] == f.text
  }

  class Pool {
    var blocks: Block?
    var freeBlocks: Block?
    var start: nat
    var ptr: nat
    var end: nat
    ghost var list: seq<Block>
    ghost var free: seq<Block>
    ghost var finished: seq<Finished>
    ghost var repr: set<object>

    ghost predicate Valid()
      reads this, repr
    {
      Shape() && Owned() && Chained(list) && Chained(free) && AllKept(finished, list, start)
    }

    /** All blocks belong to the pool. */
    ghost predicate Owned()
      reads this
    {
      && this !in repr
      && AllOwned(list) && AllOwned(free)
    }

    ghost predicate AllOwned(bs: seq<Block>)
      reads this
    {
      forall b <- bs :: b in repr && b.s in repr
    }

    /** The pointers and the sizes. */
    ghost predicate Shape()
      reads this
    {
      && blocks == Head(list) && freeBlocks == Head(free) && Distinct(list, free) && Sized(list) && Sized(free)
      && start <= ptr <= end == (if list == [] then 0 else list[0].s.Length)
    }

    /** The string that is being built. */
    ghost function Current(): Text
      reads this, Arrays(list)
      requires Shape()
    {
      if list == [] then [] else list[0].s[start..ptr]
    }

    constructor ()
      ensures Valid() && Current() == [] && finished == [] && fresh(repr)
    {
      blocks, freeBlocks, start, ptr, end := null, null, 0, 0, 0;
      list, free, finished, repr := [], [], [], {};
    }

    method Finish()
      requires Valid()
      modifies this`start, this`finished
      ensures Valid() && Current() == []
      ensures finished == old(if Current() == [] then finished else finished + [Finished(list[0], start, Current())])
    {
      if start < ptr {
        finished := finished + [Finished(blocks, start, blocks.s[start..ptr])];
      }
      start := ptr;
    }

    method Discard()
      requires Valid()
      modifies this`ptr
      ensures Valid() && Current() == []
    {
      ptr := start;
    }

    method Chop()
      requires Valid() && Current() != []
      modifies this`ptr
      ensures Valid() && Current() == old(Current()[..|Current()| - 1])
    {
      ptr := ptr - 1;
    }

    /** The room for the string that is being built. */
    ghost function Room(): int
      reads this
    {
      end - start
    }

    /** Another block has become the current one, and the others are as they were. */
    twostate lemma AnotherBlock()
      requires old(Valid()) && list != [] && list[1..] == old(list) && finished == old(finished) && start == 0
      requires list[0] !in old(list) && list[0].next == Head(old(list))
      requires forall x <- old(list) :: unchanged(x) && unchanged(x.s)
      ensures Chained(list) && AllKept(finished, list, start)
    {
      assert list == [list[0]] + old(list);
      forall x <- old(list) ensures unchanged(x) {
      }
      forall k: nat | k < |list| ensures list[k].next == NextIn(list, k) {
        if k > 0 {
          assert old(list)[k - 1] in old(list);
          assert old(list[k - 1].next == NextIn(list, k - 1));
        }
      }
      forall f <- finished ensures f.block in list && Kept(f, list, start) {
        assert old(Kept(f, list, start));
        assert f.block in old(list);
      }
    }

    /** The first free block has been taken. */
    twostate lemma FreeTaken()
      requires old(Valid()) && old(free) != [] && free == old(free)[1..]
      requires forall x <- free :: unchanged(x)
      ensures Chained(free)
    {
      forall k: nat | k < |free| ensures free[k].next == NextIn(free, k) {
        assert free[k] in free;
        assert old(free[k + 1].next == NextIn(free, k + 1));
      }
    }

    /** The first block, from the free list. */
    method FirstFree()
      requires Valid() && list == [] && free != []
      modifies this, free
      ensures Valid() && Current() == [] && Room() > 0 && finished == old(finished)
      ensures list == [old(free)[0]] && free == old(free)[1..] && repr == old(repr)
    {
      hide Distinct, Chained, AllKept, Sized;
      MovedDistinct(list, free);
      FreeHead();
      ghost var b, rest := free[0], free[1..];
      blocks := freeBlocks;
      freeBlocks := freeBlocks.next;
      blocks.next := null;
      start, ptr, end := 0, 0, blocks.s.Length;
      assert [b] + list == [b];
      list, free := [b], rest;
      AnotherBlock();
      FreeTaken();
    }

    lemma FreeHead()
      requires Valid() && free != []
      ensures free[0].next == Head(free[1..])
    {
    }

    /** The first free block is no other. */
    lemma FreeIsApart()
      requires Valid() && free != []
      ensures forall x <- list :: x != free[0] && x.s != free[0].s
      ensures forall x <- free[1..] :: x != free[0]
      ensures free[0] in repr && free[0].s in repr
    {
      hide Distinct;
      assert free[0] in free;
      MovedDistinct(list, free);
    }

    /** The first free block has become the current one. */
    twostate lemma Moved()
      requires old(Valid()) && old(free) != [] && list == [old(free)[0]] + old(list) && free == old(free)[1..]
      requires repr == old(repr) && finished == old(finished)
      requires blocks == Head(list) && freeBlocks == Head(free) && start == 0 && ptr <= end == list[0].s.Length
      requires list[0].next == Head(old(list))
      requires forall x <- old(list) :: unchanged(x) && unchanged(x.s)
      requires forall x <- free :: unchanged(x)
      ensures Valid()
    {
      hide Chained, AllKept, Distinct;
      MovedDistinct(old(list), old(free));
      AnotherBlock();
      FreeTaken();
    }

    /** The string moves to a free block. */
    method MoveToFree()
      requires Valid() && list != [] && free != [] && Room() < free[0].s.Length
      modifies this, free, free[0].s
      ensures Valid() && Current() == old(Current()) && Room() > old(Room()) && finished == old(finished)
      ensures list == [old(free)[0]] + old(list) && free == old(free)[1..] && repr == old(repr)
    {
      hide Valid, Owned, Distinct, Chained, AllKept, Sized;
      Parts();
      FreeHead();
      FreeIsApart();
      ghost var b, rest, was := free[0], free[1..], list;
      var tem := freeBlocks.next;
      freeBlocks.next := blocks;
      CopyChars(blocks.s, start, freeBlocks.s, end - start);
      CopiedPart(was[0].s[..], b.s[..], start, end - start, ptr - start);
      blocks := freeBlocks;
      freeBlocks := tem;
      ptr := ptr - start;
      start := 0;
      end := blocks.s.Length;
      list, free := [b] + was, rest;
      Moved();
    }

    /** The current block has been replaced by a larger one. */
    twostate lemma Replaced()
      requires old(Valid()) && old(list) != [] && list != [] && old(start) == 0 && start == 0
               && finished == old(finished)
      requires list[1..] == old(list)[1..] && list[0] !in old(list) && list[0].next == old(list[0].next)
      requires forall x <- list[1..] :: unchanged(x) && unchanged(x.s)
      ensures Chained(list) && AllKept(finished, list, start)
    {
      forall k: nat | k < |list| ensures list[k].next == NextIn(list, k) {
        if k > 0 {
          assert list[1..][k - 1] == old(list)[1..][k - 1] && list[k] in list[1..];
          assert old(list[k].next == NextIn(list, k));
          if k + 1 < |list| {
            assert list[1..][k] == old(list)[1..][k];
          }
        } else {
          assert old(list[0].next == NextIn(list, 0));
          if |list| > 1 {
            assert list[1..][0] == old(list)[1..][0];
          }
        }
      }
      forall f <- finished ensures f.block in list && Kept(f, list, start) {
        assert old(Kept(f, list, start));
        assert f.block in old(list)[1..];
        assert f.block in list[1..];
      }
    }

    /** The current block, which holds nothing but the string, is made twice as large. */
    method Enlarge()
      requires Valid() && list != [] && start == 0
      modifies this
      ensures Valid() && Current() == old(Current()) && Room() > old(Room()) && finished == old(finished)
      ensures free == old(free) && fresh(repr - old(repr))
    {
      hide Distinct, Chained, AllKept, Sized;
      FirstSize();
      var blockSize := (end - start) * 2;
      var temp := CopyOf(blocks, blockSize, 0, end);
      CopiedPart(blocks.s[..], temp.s[..], 0, end, ptr);
      temp.next := blocks.next;
      DistinctReplaced(list, free, temp);
      blocks := temp;
      end := start + blockSize;
      list := [temp] + list[1..];
      repr := repr + {temp, temp.s};
      Replaced();
    }

    lemma FirstSize()
      requires Valid() && list != []
      ensures end == list[0].s.Length >= INIT_BLOCK_SIZE
    {
    }

    /** A new block that starts with a part of another. */
    method CopyOf(from: Block?, size: nat, at: nat, n: nat) returns (b: Block)
      requires n <= size && if from == null then n == 0 else at + n <= from.s.Length
      ensures fresh(b) && fresh(b.s) && b.s.Length == size
      ensures b.s[..n] == if from == null then [] else from.s[at..at + n]
    {
      b := new Block(size);
      if from != null && n > 0 {
        CopyChars(from.s, at, b.s, n);
      }
    }

    /** A block that holds the string becomes the current one. */
    method Push(b: Block)
      requires Valid() && b !in repr && b.s !in repr && b.s.Length >= INIT_BLOCK_SIZE && b.s.Length > Room()
      requires ptr - start <= b.s.Length && b.s[..ptr - start] == Current()
      modifies this, b
      ensures Valid() && Current() == old(Current()) && Room() > old(Room()) && finished == old(finished)
      ensures repr == old(repr) + {b, b.s}
    {
      hide Distinct, Chained, AllKept, Sized;
      b.next := blocks;
      DistinctMore(list, free, b);
      blocks := b;
      ptr := ptr - start;
      start := 0;
      end := b.s.Length;
      list := [b] + list;
      repr := repr + {b, b.s};
      AnotherBlock();
    }

    lemma Parts()
      requires Valid()
      ensures Shape() && Owned()
    {
    }

    /** A new block for the string. */
    method NewBlock()
      requires Valid()
      modifies this
      ensures Valid() && Current() == old(Current()) && Room() > old(Room()) && finished == old(finished)
      ensures fresh(repr - old(repr))
    {
      hide Valid, Owned, Distinct, Chained, AllKept, Sized;
      Parts();
      var blockSize := end - start;
      if blockSize < INIT_BLOCK_SIZE {
        blockSize := INIT_BLOCK_SIZE;
      } else {
        blockSize := blockSize * 2;
      }
      var tem := CopyOf(blocks, blockSize, start, ptr - start);
      Push(tem);
    }

    /** `poolGrow`: more room for the string that is being built, and no finished string moves. */
    method Grow()
      requires Valid()
      modifies this, repr
      ensures Valid() && Current() == old(Current()) && Room() > old(Room()) && finished == old(finished)
      ensures fresh(repr - old(repr))
    {
      hide Distinct, Chained, AllKept, Sized;
      if freeBlocks != null {
        assert free[0] in free;
        if blocks == null {
          FirstFree();
          return;
        }
        if end - start < freeBlocks.s.Length {
          MoveToFree();
          return;
        }
      }
      if blocks != null && start == 0 {
        Enlarge();
      } else {
        NewBlock();
      }
    }

    /** A character at the end of the string. */
    method Put(c: Byte)
      requires Valid() && ptr < end
      modifies this`ptr, repr
      ensures Valid() && Current() == old(Current()) + [c] && finished == old(finished)
    {
      hide Distinct, Chained, AllKept, Sized, Kept;
      FirstOwned();
      blocks.s[ptr] := c;
      ptr := ptr + 1;
      Written();
      assert list[0].s[start..ptr] == list[0].s[start..ptr - 1] + [c];
    }

    lemma FirstOwned()
      requires Valid() && list != []
      ensures list[0].s in repr
      ensures forall b <- list[1..] :: b.s != list[0].s
    {
      assert list[0] in list;
      forall b <- list[1..] ensures b.s != list[0].s {
        var k: nat :| k < |list| - 1 && list[1..][k] == b;
        assert Apart(list[0], list[k + 1]);
      }
    }

    /** The current block has been written behind `start`. */
    twostate lemma Written()
      requires old(Valid()) && list == old(list) && list != [] && free == old(free) && finished == old(finished)
               && start == old(start)
      requires list[0].s[..start] == old(list[0].s[..start])
      requires forall b <- list :: unchanged(b)
      requires forall b <- free :: unchanged(b)
      requires forall b <- list[1..] :: unchanged(b.s)
      ensures Chained(list) && Chained(free) && AllKept(finished, list, start)
    {
      forall k: nat | k < |list| ensures list[k].next == NextIn(list, k) {
        assert list[k] in list;
        assert old(list[k].next == NextIn(list, k));
      }
      forall k: nat | k < |free| ensures free[k].next == NextIn(free, k) {
        assert free[k] in free;
        assert old(free[k].next == NextIn(free, k));
      }
      forall f <- finished ensures f.block in list && Kept(f, list, start) {
        assert old(Kept(f, list, start));
        if f.block == list[0] {
          assert list[0].s[f.at..f.at + |f.text|] == list[0].s[..start][f.at..f.at + |f.text|];
          assert old(list[0].s[f.at..f.at + |f.text|]) == old(list[0].s[..start])[f.at..f.at + |f.text|];
        } else {
          assert f.block in list[1..];
        }
      }
    }

    /** `poolAppendChar` */
    method AppendChar(c: Byte)
      requires Valid()
      modifies this, repr
      ensures Valid() && Current() == old(Current()) + [c] && finished == old(finished) && fresh(repr - old(repr))
    {
      hide Distinct, Chained, AllKept, Sized;
      if ptr == end {
        Grow();
      }
      Put(c);
    }

    /** As much of the text as the conversion copies into the room there is. */
    method Convert(text: Text, from: nat) returns (k: nat)
      requires Valid() && list != [] && from <= |text|
      modifies this`ptr, repr
      ensures Valid() && k == from + Copied(text[from..], end - old(ptr))
      ensures Current() == old(Current()) + text[from..k] && finished == old(finished)
      ensures ptr == old(ptr) + (k - from)
    {
      hide Distinct, Chained, AllKept, Sized, Kept, Copied;
      FirstOwned();
      ghost var was := blocks.s[start..ptr];
      var n := Utf8ToUtf8(text, from, blocks.s, ptr, end);
      assert blocks.s[start..ptr] == was;
      k := from + n;
      ptr := ptr + n;
      Written();
      assert list[0].s[start..ptr] == list[0].s[start..ptr - n] + list[0].s[ptr - n..ptr];
    }

    /** More room behind the string. */
    method MakeRoom()
      requires Valid()
      modifies this, repr
      ensures Valid() && Current() == old(Current()) && finished == old(finished) && fresh(repr - old(repr))
      ensures list != [] && end - ptr > old(end - ptr)
    {
      hide Valid, Owned, Distinct, Chained, AllKept, Sized;
      Parts();
      LengthOfCurrent();
      Grow();
      Parts();
      LengthOfCurrent();
    }

    lemma LengthOfCurrent()
      requires Shape()
      ensures |Current()| == ptr - start && (end > 0 ==> list != [])
    {
      hide Distinct, Sized;
    }

    /** `poolAppend` from UTF-8: as much as the conversion copies, and then more room, until
        all is there. A character that the conversion tears is put together again. */
    method Append(text: Text)
      requires Valid()
      modifies this, repr
      ensures Valid() && Current() == old(Current()) + text && finished == old(finished) && fresh(repr - old(repr))
    {
      hide Valid, Owned, Distinct, Chained, AllKept, Sized, Copied, Current;
      Parts();
      if blocks == null {
        MakeRoom();
        Parts();
      }
      var k := 0;
      ghost var begun := Current();
      assert begun + text[..0] == begun;
      while true
        invariant Valid() && k <= |text| && finished == old(finished) && fresh(repr - old(repr)) && list != []
        invariant Shape() && Current() == begun + text[..k]
        decreases |text| - k, |text| - k - (end - ptr)
      {
        ghost var j := k;
        k := Convert(text, k);
        Parts();
        OneMorePart(begun, text, j, k);
        if k == |text| {
          break;
        }
        MakeRoom();
        Parts();
      }
      assert text[..k] == text;
    }

    /** `poolStoreString` */
    method StoreString(text: Text)
      requires Valid()
      modifies this, repr
      ensures Valid() && Current() == old(Current()) + text + [0] && finished == old(finished)
              && fresh(repr - old(repr))
    {
      Append(text);
      AppendChar(0);
    }

    /** `poolCopyString`: what is being built, the string and a terminator become a finished string. */
    method CopyString(text: Text) returns (block: Block, at: nat)
      requires Valid()
      modifies this, repr
      ensures Valid() && Current() == [] && fresh(repr - old(repr))
      ensures finished == old(finished) + [Finished(block, at, old(Current()) + text + [0])]
    {
      hide Valid, Distinct, Chained, AllKept, Sized;
      Parts();
      var k := 0;
      while k < |text|
        invariant Valid() && Shape() && k <= |text| && Current() == old(Current()) + text[..k]
                  && finished == old(finished)
        invariant fresh(repr - old(repr))
      {
        assert text[..k + 1] == text[..k] + [text[k]];
        AppendChar(text[k]);
        Parts();
        k := k + 1;
      }
      assert text[..k] == text;
      AppendChar(0);
      Parts();
      block, at := blocks, start;
      Finish();
    }

    /** What the pool says: the finished strings and the one that is being built. */
    ghost function Says(): Strings
      reads this, Arrays(list)
      requires Shape()
    {
      Strings(Texts(finished), Current())
    }

    lemma Holds()
      requires Valid()
      ensures Shape() && InPlace(finished)
    {
      forall f <- finished ensures f.block.s[f.at..f.at + |f.text|] == f.text {
        assert Kept(f, list, start);
      }
    }

    /** One use of the pool. */
    method Perform(op: PoolOp)
      requires Valid() && (op.Chop? ==> Current() != [])
      modifies this, repr
      ensures Valid() && fresh(repr - old(repr)) && old(finished) <= finished
      ensures Says() == After(old(Says()), op)
    {
      hide Distinct, Chained, AllKept, Sized, Owned;
      match op
      case Char(c) => AppendChar(c);
      case AddText(text) => Append(text);
      case StoreText(text) => StoreString(text);
      case MakeRoom => Grow();
      case Chop => Chop();
      case Discard => Discard();
      case Finish => Finish();
    }

    /** However the pool is used until it is cleared, every finished string stays where it is,
        with its characters; and all strings are those that were asked for. */
    method Use(ops: seq<PoolOp>)
      requires Valid() && Doable(Current(), ops)
      modifies this, repr
      ensures Valid() && old(finished) <= finished && InPlace(old(finished)) && fresh(repr - old(repr))
      ensures Says() == AfterAll(old(Says()), ops)
    {
      hide Valid, Shape, Current, After, Texts;
      Holds();
      var i := 0;
      assert ops[0..] == ops;
      while i < |ops|
        invariant i <= |ops| && Valid() && Shape() && old(finished) <= finished && fresh(repr - old(repr))
        invariant Doable(Says().current, ops[i..]) && AfterAll(Says(), ops[i..]) == AfterAll(old(Says()), ops)
      {
        assert ops[i..][0] == ops[i] && ops[i..][1..] == ops[i + 1..];
        OnlyCurrent(Says(), ops[i]);
        Perform(ops[i]);
        Holds();
        i := i + 1;
      }
      Holds();
    }

    /** One turn of the loop of `poolClear`. */
    method Recycle(p: Block, ghost rest: seq<Block>) returns (tem: Block?)
      requires rest != [] && p == rest[0] && Chained(rest) && Chained(free) && Distinct(free, rest) && Sized(rest)
               && Sized(free)
      requires AllOwned(rest) && AllOwned(free) && freeBlocks == Head(free)
      modifies this`freeBlocks, this`free, p
      ensures tem == Head(rest[1..]) && freeBlocks == Head(free) && free == [p] + old(free)
      ensures Chained(rest[1..]) && Chained(free) && Distinct(free, rest[1..]) && Sized(rest[1..]) && Sized(free)
      ensures AllOwned(rest[1..]) && AllOwned(free)
    {
      hide Distinct, Sized;
      MovedDistinct(free, rest);
      assert p.next == NextIn(rest, 0);
      tem := p.next;
      p.next := freeBlocks;
      freeBlocks := p;
      free := [p] + free;
      Recycled(rest);
    }

    twostate lemma Recycled(rest: seq<Block>)
      requires rest != [] && old(Chained(rest)) && old(Chained(free)) && free == [rest[0]] + old(free)
               && rest[0].next == Head(old(free))
      requires forall b <- rest[1..] :: unchanged(b)
      requires forall b <- old(free) :: unchanged(b)
      ensures Chained(rest[1..]) && Chained(free)
    {
      forall k: nat | k < |rest| - 1 ensures rest[1..][k].next == NextIn(rest[1..], k) {
        assert rest[1..][k] in rest[1..];
        assert old(rest[k + 1].next == NextIn(rest, k + 1));
      }
      forall k: nat | k < |free| ensures free[k].next == NextIn(free, k) {
        if k > 0 {
          assert old(free)[k - 1] in old(free);
          assert old(free[k - 1].next == NextIn(free, k - 1));
        }
      }
    }

    /** `poolClear`: all strings are given up, and all blocks can be used again. */
    method Clear()
      requires Valid()
      modifies this, repr
      ensures Valid() && list == [] && finished == [] && Current() == [] && repr == old(repr)
      ensures forall b :: b in free <==> b in old(list) || b in old(free)
    {
      hide Distinct, Chained, AllKept, Sized;
      if freeBlocks == null {
        DistinctSwapped(list, free);
        freeBlocks := blocks;
        free := list;
      } else {
        var p := blocks;
        ghost var rest := list;
        DistinctSwapped(list, free);
        while p != null
          invariant p == Head(rest) && freeBlocks == Head(free) && Chained(rest) && Chained(free)
          invariant Distinct(free, rest) && Sized(rest) && Sized(free)
          invariant AllOwned(rest) && AllOwned(free)
          invariant forall b :: b in rest || b in free <==> b in old(list) || b in old(free)
          invariant this !in repr && repr == old(repr)
          decreases |rest|
        {
          p := Recycle(p, rest);
          rest := rest[1..];
        }
        DistinctSwapped(free, rest);
      }
      blocks, start, ptr, end := null, 0, 0, 0;
      list, finished := [], [];
      NothingKept();
    }

    lemma NothingKept()
      ensures Chained([]) && Sized([]) && AllKept([], [], 0)
    {
    }
  }

  method CopyChars(from: array<Byte>, at: nat, to: array<Byte>, n: nat)
    requires at + n <= from.Length && n <= to.Length && from != to
    modifies to
    ensures to[..n] == from[at..at + n]
  {
    var k := 0;
    while k < n
      invariant k <= n && to[..k] == from[at..at + k]
    {
      to[k] := from[at + k];
      k := k + 1;
    }
  }

  lemma OneMorePart(begun: Text, text: Text, j: nat, k: nat)
    requires j <= k <= |text|
    ensures begun + text[..j] + text[j..k] == begun + text[..k]
  {
    assert text[..k] == text[..j] + text[j..k];
  }

  lemma CopiedPart(from: Text, to: Text, at: nat, n: nat, k: nat)
    requires at + n <= |from| && n <= |to| && k <= n && to[..n] == from[at..at + n]
    ensures to[0..k] == from[at..at + k]
  {
    assert to[0..k] == to[..n][..k];
    assert from[at..at + k] == from[at..at + n][..k];
  }

  lemma DistinctReplaced(list: seq<Block>, free: seq<Block>, b: Block)
    requires list != [] && Distinct(list, free) && Sized(list) && b.s.Length >= INIT_BLOCK_SIZE
    requires (forall x <- list :: Apart(x, b)) && forall x <- free :: Apart(x, b)
    ensures Distinct([b] + list[1..], free) && Sized([b] + list[1..])
  {
    var more := [b] + list[1..];
    forall i: nat, j: nat | i < j < |more| ensures Apart(more[i], more[j]) {
      assert Apart(list[i], list[j]);
      assert list[j] in list;
    }
    forall i: nat, j: nat | i < |more| && j < |free| ensures Apart(more[i], free[j]) {
      assert Apart(list[i], free[j]);
      assert free[j] in free;
    }
  }

  lemma DistinctMore(list: seq<Block>, free: seq<Block>, b: Block)
    requires Distinct(list, free) && Sized(list) && b.s.Length >= INIT_BLOCK_SIZE
    requires (forall x <- list :: Apart(x, b)) && forall x <- free :: Apart(x, b)
    ensures Distinct([b] + list, free) && Sized([b] + list)
  {
    var more := [b] + list;
    forall i: nat, j: nat | i < j < |more| ensures Apart(more[i], more[j]) {
      assert list[j - 1] in list;
      if i > 0 {
        assert Apart(list[i - 1], list[j - 1]);
      }
    }
    forall i: nat, j: nat | i < |more| && j < |free| ensures Apart(more[i], free[j]) {
      assert free[j] in free;
      if i > 0 {
        assert Apart(list[i - 1], free[j]);
      }
    }
  }

  lemma DistinctSwapped(list: seq<Block>, free: seq<Block>)
    requires Distinct(list, free)
    ensures Distinct(free, list) && Distinct([], list) && Distinct([], free)
  {
  }

  lemma MovedDistinct(list: seq<Block>, free: seq<Block>)
    requires free != [] && Distinct(list, free) && Sized(list) && Sized(free)
    ensures Distinct([free[0]] + list, free[1..]) && Sized([free[0]] + list) && Sized(free[1..])
    ensures free[0] !in list && free[0] !in free[1..] && forall x <- list :: x.s != free[0].s
    ensures free[0].s.Length >= INIT_BLOCK_SIZE
  {
    forall j: nat | j < |free[1..]| ensures Apart(free[0], free[1..][j]) {
      assert Apart(free[0], free[j + 1]);
    }
    forall i: nat, j: nat | i < j < |free[1..]| ensures Apart(free[1..][i], free[1..][j]) {
      assert Apart(free[i + 1], free[j + 1]);
    }
    forall i: nat, j: nat | i < |list| && j < |free[1..]| ensures Apart(list[i], free[1..][j]) {
      assert Apart(list[i], free[j + 1]);
    }
  }
}
