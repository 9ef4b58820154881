/**
 Duplicate detection for namespace-qualified attributes: a hash table that is never
 cleared, because a slot counts as filled only when it carries the version stamp of the
 start tag being read.
 */
module NsAtts {
  import opened Probing

  const INIT_ATTS_VERSION: nat := 0xFFFFFFFF

  /** A prefixed attribute: the namespace URI that its prefix is bound to, its local part and
      the prefix. */
  datatype Att = Att(uri: string, local: string, prefix: string)

  /** How a parser writes names: the separator behind the URI, or NUL for none, and whether
      the prefix is appended. */
  datatype Naming = Naming(separator: char, triplets: bool)

  /** A name as it is stored: the expanded name, without the terminating NUL, and what is
      behind it, which is the NUL, preceded by the separator and the prefix in triplets. */
  datatype Name = Name(expanded: string, suffix: string)

  datatype Slot = Slot(version: nat, hash: nat, uriName: string)

  function Separator(n: Naming): string {
    if n.separator == '\0' then "" else [n.separator]
  }

  function NameOf(n: Naming, a: Att): Name {
    Name(a.uri + Separator(n) + a.local, if n.triplets then [n.separator] + a.prefix + "\0" else "\0")
  }

  function NamesOf(n: Naming, atts: seq<Att>): (names: seq<Name>)
    ensures |names| == |atts|
    ensures forall k: nat :: k < |atts| ==> names[k] == NameOf(n, atts[k])
  {
    seq(|atts|, k requires 0 <= k < |atts| => NameOf(n, atts[k]))
  }

  /** Strings without NUL. */
  predicate IsAtt(a: Att) {
    '\0' !in a.uri && '\0' !in a.local && '\0' !in a.prefix
  }

  predicate WellFormed(a: Name) {
    '\0' !in a.expanded && |a.suffix| > 0 && a.suffix[|a.suffix| - 1] == '\0'
  }

  lemma NamesAreWellFormed(n: Naming, a: Att)
    requires IsAtt(a)
    ensures WellFormed(NameOf(n, a))
  {
  }

  /** What the table can tell about two attributes: equal hashes, and the later expanded
      name is a prefix of what was stored for the earlier one. */
  ghost predicate Clash(hash: string -> nat, earlier: Name, later: Name) {
    hash(earlier.expanded) == hash(later.expanded) && later.expanded <= earlier.expanded + earlier.suffix
  }

  ghost predicate AnyClash(hash: string -> nat, names: seq<Name>) {
    exists i: nat, j: nat :: i < j < |names| && Clash(hash, names[i], names[j])
  }

  /* ----- when the error is right ----- */

  predicate Same(a: Att, b: Att) {
    a.uri == b.uri && a.local == b.local
  }

  /** Namespaces in XML 1.0, section 6.3: no two attributes with the same namespace name
      and local part. */
  ghost predicate SomeDuplicate(atts: seq<Att>) {
    exists i: nat, j: nat :: i < j < |atts| && Same(atts[i], atts[j])
  }

  /** Two different attributes that the table cannot tell apart. */
  ghost predicate SomeLookalike(n: Naming, hash: string -> nat, atts: seq<Att>) {
    exists i: nat, j: nat :: i < j < |atts| && Lookalike(n, hash, atts[i], atts[j])
  }

  ghost predicate Lookalike(n: Naming, hash: string -> nat, earlier: Att, later: Att) {
    !Same(earlier, later) && Clash(hash, NameOf(n, earlier), NameOf(n, later))
  }

  /** The error is right for a tag, that is, reported iff there is a duplicate, exactly if
      there is one or no two different attributes look alike. */
  lemma ErrorIsRight(n: Naming, hash: string -> nat, atts: seq<Att>)
    ensures SomeDuplicate(atts) ==> AnyClash(hash, NamesOf(n, atts))
    ensures (AnyClash(hash, NamesOf(n, atts)) <==> SomeDuplicate(atts))
            <==> SomeDuplicate(atts) || !SomeLookalike(n, hash, atts)
  {
    hide NameOf, NamesOf, Clash, Same;
    var names := NamesOf(n, atts);
    if SomeDuplicate(atts) {
      var i: nat, j: nat :| i < j < |atts| && Same(atts[i], atts[j]);
      SameClash(n, hash, atts[i], atts[j]);
      assert Clash(hash, names[i], names[j]);
    } else if AnyClash(hash, names) {
      var i: nat, j: nat :| i < j < |names| && Clash(hash, names[i], names[j]);
      assert Lookalike(n, hash, atts[i], atts[j]);
    }
  }

  lemma SameClash(n: Naming, hash: string -> nat, earlier: Att, later: Att)
    requires Same(earlier, later)
    ensures Clash(hash, NameOf(n, earlier), NameOf(n, later))
  {
    var name := NameOf(n, earlier);
    assert (name.expanded + name.suffix)[..|name.expanded|] == name.expanded;
  }

  /** A separator that is in no local part, as it is when it cannot stand in names. */
  predicate Separates(n: Naming, a: Att) {
    n.separator != '\0' && n.separator !in a.local
  }

  /** Such a separator keeps the expanded names of different attributes different. */
  lemma SeparatorTells(n: Naming, a: Att, b: Att)
    requires Separates(n, a) && Separates(n, b)
    ensures NameOf(n, a).expanded == NameOf(n, b).expanded <==> Same(a, b)
  {
    if NameOf(n, a).expanded == NameOf(n, b).expanded {
      if |a.uri| < |b.uri| {
        SeparatorInLocal(n, a, b);
      } else if |b.uri| < |a.uri| {
        SeparatorInLocal(n, b, a);
      } else {
        var s := NameOf(n, a).expanded;
        assert s[..|a.uri|] == a.uri && s[..|b.uri|] == b.uri;
        assert s[|a.uri| + 1..] == a.local && s[|b.uri| + 1..] == b.local;
      }
    }
  }

  lemma SeparatorInLocal(n: Naming, a: Att, b: Att)
    requires n.separator != '\0' && NameOf(n, a).expanded == NameOf(n, b).expanded && |a.uri| < |b.uri|
    ensures n.separator in a.local
  {
    var s := NameOf(n, a).expanded;
    assert s[|b.uri|] == n.separator;
    assert a.local[|b.uri| - |a.uri| - 1] == s[|b.uri|];
  }

  /** With such a separator only a collision of hashes makes attributes look alike: different
      expanded names of equal hash, the later a proper prefix of what is stored for the
      earlier one. */
  lemma LookalikesCollide(n: Naming, hash: string -> nat, earlier: Att, later: Att)
    requires IsAtt(earlier) && IsAtt(later) && Separates(n, earlier) && Separates(n, later)
    ensures var a, b := NameOf(n, earlier), NameOf(n, later);
            Lookalike(n, hash, earlier, later) <==>
            a.expanded != b.expanded && hash(a.expanded) == hash(b.expanded) && b.expanded < a.expanded + a.suffix
  {
    SeparatorTells(n, earlier, later);
    NamesAreWellFormed(n, earlier);
    NamesAreWellFormed(n, later);
    hide NameOf, Same;
    var a, b := NameOf(n, earlier), NameOf(n, later);
    if b.expanded <= a.expanded + a.suffix {
      EndsInNul(a, b);
    }
  }

  lemma EndsInNul(earlier: Name, later: Name)
    requires WellFormed(earlier) && WellFormed(later) && later.expanded <= earlier.expanded + earlier.suffix
    ensures later.expanded < earlier.expanded + earlier.suffix
  {
    var stored := earlier.expanded + earlier.suffix;
    assert stored[|stored| - 1] == '\0';
  }

  /* ----- two wrong errors ----- */

  /** Without a separator, `bc` in the namespace `u` and `c` in the namespace `ub` count as the
      same, whatever the hash is. */
  lemma FalseWithoutSeparator(hash: string -> nat, p: string, q: string, triplets: bool)
    ensures var atts := [Att("u", "bc", p), Att("ub", "c", q)];
            AnyClash(hash, NamesOf(Naming('\0', triplets), atts)) && !SomeDuplicate(atts)
  {
    var n, earlier, later := Naming('\0', triplets), Att("u", "bc", p), Att("ub", "c", q);
    assert NameOf(n, earlier).expanded == "ubc" == NameOf(n, later).expanded;
    PrefixOfStored(NameOf(n, earlier));
    assert |earlier.uri| != |later.uri|;
    PairClashes(n, hash, earlier, later);
  }

  lemma PrefixOfStored(name: Name)
    ensures name.expanded <= name.expanded + name.suffix
  {
  }

  /** `CHAR_HASH` where `unsigned long` has 32 bits */
  function CharHash(h: bv32, c: char): bv32 {
    (h * 0xF4243) ^ Octet(c)
  }

  /** `(unsigned char)(c)` */
  function Octet(c: char): bv32 {
    (c as bv32) & 0xFF
  }

  function HashOnto(h: bv32, s: string): bv32
    decreases |s|
  {
    if s == "" then h else HashOnto(CharHash(h, s[0]), s[1..])
  }

  /** The hash of an expanded name under a salt; its NUL is hashed as well. */
  function NameHash(salt: bv32): string -> nat {
    (s: string) => HashOnto(salt, s + "\0") as nat
  }

  /** With salt 1 and the separator `|`, in the namespace `u`, the local part `a` that is read
      behind `aszuaYF` counts as the same. */
  lemma FalseDuplicate(p: string, q: string)
    ensures var atts := [Att("u", "aszuaYF", p), Att("u", "a", q)];
            AnyClash(NameHash(1), NamesOf(Naming('|', false), atts)) && !SomeDuplicate(atts)
  {
    hide NameHash;
    HashOfShort();
    HashOfLong();
    IsPrefix();
    var n, earlier, later := Naming('|', false), Att("u", "aszuaYF", p), Att("u", "a", q);
    assert NameOf(n, earlier) == Name("u|aszuaYF", "\0") && NameOf(n, later) == Name("u|a", "\0");
    assert |earlier.local| != |later.local|;
    PairClashes(n, NameHash(1), earlier, later);
  }

  lemma PairClashes(n: Naming, hash: string -> nat, earlier: Att, later: Att)
    ensures Clash(hash, NameOf(n, earlier), NameOf(n, later)) ==> AnyClash(hash, NamesOf(n, [earlier, later]))
    ensures !Same(earlier, later) ==> !SomeDuplicate([earlier, later])
  {
    hide NameOf, NamesOf;
    var atts := [earlier, later];
    var names := NamesOf(n, atts);
    assert names[0] == NameOf(n, earlier) && names[1] == NameOf(n, later);
    if Clash(hash, NameOf(n, earlier), NameOf(n, later)) {
      assert Clash(hash, names[0], names[1]);
    }
  }

  lemma IsPrefix()
    ensures "u|a" <= "u|aszuaYF" + "\0" && "u|a" != "u|aszuaYF"
  {
    assert ("u|aszuaYF" + "\0")[..3] == "u|a";
    assert |"u|a"| != |"u|aszuaYF"|;
  }

  lemma HashOfShort()
    ensures NameHash(1)("u|a") == 0x886e33b1
  {
    hide Octet;
    OctetsOfShort();
    HashTrace("u|a" + "\0", [1, 0xf4236, 0xd43a405e, 0x555914fb, 0x886e33b1]);
  }

  lemma HashOfLong()
    ensures NameHash(1)("u|aszuaYF") == 0x886e33b1
  {
    hide Octet;
    OctetsOfShort();
    OctetsOfLong();
    HashTrace("u|aszuaYF" + "\0",
              [1, 0xf4236, 0xd43a405e, 0x555914fb, 0x886e33c2, 0x268d8fbc, 0x21f1641, 0xdfae9562,
               0x4df25cff, 0x555914fb, 0x886e33b1]);
  }

  lemma OctetsOfShort()
    ensures Octet('u') == 0x75 && Octet('|') == 0x7C && Octet('a') == 0x61 && Octet('\0') == 0
  {
  }

  lemma OctetsOfLong()
    ensures Octet('s') == 0x73 && Octet('z') == 0x7A && Octet('Y') == 0x59 && Octet('F') == 0x46
  {
  }

  lemma {:induction false} HashTrace(s: string, trace: seq<bv32>)
    requires |trace| == |s| + 1
    requires forall i: nat :: i < |s| ==> CharHash(trace[i], s[i]) == trace[i + 1]
    ensures HashOnto(trace[0], s) == trace[|s|]
  {
    if s != "" {
      assert CharHash(trace[0], s[0]) == trace[1];
      HashTrace(s[1..], trace[1..]);
    }
  }

  ghost function Live(t: seq<Slot>, version: nat): (s: set<nat>) {
    set i: nat | i < |t| && t[i].version == version
  }

  ghost predicate Holds(t: seq<Slot>, i: nat, hash: string -> nat, a: Name) {
    i < |t| && t[i].hash == hash(a.expanded) && t[i].uriName == a.expanded + a.suffix
  }

  /** The live slots are exactly those of the attributes `done`, each where probing for its
      name finds it. */
  ghost predicate Stores(t: seq<Slot>, version: nat, power: nat, hash: string -> nat, done: seq<Name>)
  {
    && power >= 3 && |t| == Pow2(power)
    && |Live(t, version)| == |done|
    && (forall k: nat :: k < |done| ==> Findable(t, version, power, hash, done[k]))
    && (forall i: nat :: i in Live(t, version) ==> exists k: nat :: k < |done| && Holds(t, i, hash, done[k]))
  }

  ghost predicate Findable(t: seq<Slot>, version: nat, power: nat, hash: string -> nat, a: Name)
    requires power >= 3
  {
    exists i: nat :: Holds(t, i, hash, a) && t[i].version == version
                     && Reached(Live(t, version), hash(a.expanded), power, i)
  }

  /** The live slots met by the first `n` probes of `a` do not clash with it. */
  ghost predicate Passed(t: seq<Slot>, power: nat, h: nat, name: string, n: nat)
    requires power >= 3 && |t| == Pow2(power)
  {
    forall m: nat :: m < n ==> var s := t[Chain(h, power, m)]; !(s.hash == h && name <= s.uriName)
  }

  lemma FreeSlotMeansNoClash(t: seq<Slot>, version: nat, power: nat, hash: string -> nat, done: seq<Name>, a: Name,
                             n: nat)
    requires Stores(t, version, power, hash, done)
    requires Passed(t, power, hash(a.expanded), a.expanded, n)
    requires Chain(hash(a.expanded), power, n) !in Live(t, version)
    ensures forall k: nat :: k < |done| ==> !Clash(hash, done[k], a)
  {
    hide Chain, TakenUpTo, Reached, Live, Passed;
    forall k: nat | k < |done| && hash(done[k].expanded) == hash(a.expanded)
      ensures !(a.expanded <= done[k].expanded + done[k].suffix)
    {
      assert Findable(t, version, power, hash, done[k]);
      var i: nat :| Holds(t, i, hash, done[k]) && t[i].version == version
                    && Reached(Live(t, version), hash(done[k].expanded), power, i);
      IsLive(t, version, i);
      var c := ReachedBefore(Live(t, version), hash(a.expanded), power, i, n);
      PassedAt(t, power, hash(a.expanded), a.expanded, n, c);
    }
  }

  lemma IsLive(t: seq<Slot>, version: nat, i: nat)
    requires i < |t| && t[i].version == version
    ensures i in Live(t, version)
  {
  }

  /** A slot in use that probing reaches comes before the first free one. */
  lemma ReachedBefore(live: set<nat>, h: nat, power: nat, i: nat, n: nat) returns (c: nat)
    requires power >= 3 && Reached(live, h, power, i) && i in live && Chain(h, power, n) !in live
    ensures c < n && Chain(h, power, c) == i
  {
    hide Chain;
    c :| Chain(h, power, c) == i && TakenUpTo(live, h, power, c);
  }

  lemma PassedAt(t: seq<Slot>, power: nat, h: nat, name: string, n: nat, c: nat)
    requires power >= 3 && |t| == Pow2(power) && Passed(t, power, h, name, n) && c < n
    ensures Chain(h, power, c) < |t|
    ensures var s := t[Chain(h, power, c)]; !(s.hash == h && name <= s.uriName)
  {
  }

  lemma FindableStays(t: seq<Slot>, version: nat, power: nat, hash: string -> nat, a: Name, i: nat, s: Slot)
    requires power >= 3 && i < |t| && i !in Live(t, version) && s.version == version
    requires Findable(t, version, power, hash, a)
    ensures Findable(t[i := s], version, power, hash, a)
  {
    hide Chain, TakenUpTo;
    var u := t[i := s];
    var j: nat :| Holds(t, j, hash, a) && t[j].version == version
                  && Reached(Live(t, version), hash(a.expanded), power, j);
    assert Live(t, version) <= Live(u, version);
    ReachedStays(Live(t, version), Live(u, version), hash(a.expanded), power, j);
    assert Holds(u, j, hash, a);
  }

  lemma FindableNew(t: seq<Slot>, version: nat, power: nat, hash: string -> nat, a: Name, n: nat)
    requires power >= 3 && |t| == Pow2(power)
    requires TakenUpTo(Live(t, version), hash(a.expanded), power, n)
    requires Chain(hash(a.expanded), power, n) !in Live(t, version)
    ensures var i := Chain(hash(a.expanded), power, n);
            var u := t[i := Slot(version, hash(a.expanded), a.expanded + a.suffix)];
            Findable(u, version, power, hash, a) && Live(u, version) == Live(t, version) + {i}
  {
    hide LowBits, ProbeStep, Chain;
    var i := Chain(hash(a.expanded), power, n);
    var u := t[i := Slot(version, hash(a.expanded), a.expanded + a.suffix)];
    assert Reached(Live(t, version), hash(a.expanded), power, i);
    ReachedStays(Live(t, version), Live(u, version), hash(a.expanded), power, i);
    assert Holds(u, i, hash, a);
  }

  /** Filling the free slot at the end of the walk adds exactly this attribute. */
  lemma FillFree(t: seq<Slot>, version: nat, power: nat, hash: string -> nat, done: seq<Name>, a: Name, n: nat)
    requires Stores(t, version, power, hash, done)
    requires TakenUpTo(Live(t, version), hash(a.expanded), power, n)
    requires Chain(hash(a.expanded), power, n) !in Live(t, version)
    ensures var i := Chain(hash(a.expanded), power, n);
            Stores(t[i := Slot(version, hash(a.expanded), a.expanded + a.suffix)], version, power, hash, done + [a])
  {
    FindableNew(t, version, power, hash, a, n);
    hide LowBits, ProbeStep, Chain, TakenUpTo, Findable;
    var i := Chain(hash(a.expanded), power, n);
    var u := t[i := Slot(version, hash(a.expanded), a.expanded + a.suffix)];
    var done' := done + [a];
    forall k: nat | k < |done'| ensures Findable(u, version, power, hash, done'[k]) {
      if k < |done| {
        assert Findable(t, version, power, hash, done[k]);
        FindableStays(t, version, power, hash, done[k], i, u[i]);
      }
    }
    forall j: nat | j in Live(u, version) ensures exists k: nat :: k < |done'| && Holds(u, j, hash, done'[k]) {
      if j == i {
        assert Holds(u, i, hash, done'[|done|]);
      } else {
        var k: nat :| k < |done| && Holds(t, j, hash, done[k]);
        assert Holds(u, j, hash, done'[k]);
      }
    }
  }

  /** The character loop that compares a NUL-terminated name with a stored one: it ends
      at the NUL of the first, whatever follows in the second. */
  method SameName(s1: string, s2: string) returns (same: bool)
    requires '\0' !in s1 && |s2| > 0 && s2[|s2| - 1] == '\0'
    ensures same <==> s1 <= s2
  {
    var k := 0;
    while k < |s1| && s1[k] == s2[k]
      invariant k <= |s1| && k < |s2| && s1[..k] == s2[..k]
    {
      k := k + 1;
    }
    return k == |s1|;
  }

  lemma {:induction n, p} ShiftIsZero(n: nat, p: nat)
    ensures ShiftRight(n, p) == 0 <==> n < Pow2(p)
  {
  }

  class Table {
    const naming: Naming
    const hash: string -> nat
    var table: array<Slot>
    var version: nat
    var power: nat

    /** No slot carries a stamp that a later tag will use. */
    ghost predicate Valid()
      reads this, table
    {
      && version < INIT_ATTS_VERSION
      && (if power == 0 then table.Length == 0 else power >= 3 && table.Length == Pow2(power))
      && forall i: nat :: i < table.Length ==> version <= table[i].version
    }

    constructor (naming: Naming, hash: string -> nat)
      ensures Valid() && fresh(table) && this.naming == naming && this.hash == hash
    {
      this.naming, this.hash := naming, hash;
      table := new Slot[0];
      version, power := 0, 0;
    }

    /** Room and a fresh version for a tag with `n` prefixed attributes: no slot is live
        and more than twice as many slots as attributes are there. */
    method BeginTag(n: nat)
      requires Valid() && n > 0
      modifies this, table
      ensures Valid() && (table == old(table) || fresh(table))
      ensures Stores(table[..], version, power, hash, [])
      ensures 2 * n < table.Length
    {
      var stamp := version;
      ShiftIsZero(2 * n, power);
      if ShiftRight(2 * n, power) != 0 {
        power := GrownPower(n, power);
        table := new Slot[Pow2(power)];
        stamp := 0;  // force re-initialisation
      }
      if stamp == 0 {
        stamp := INIT_ATTS_VERSION;
        var j := table.Length;
        while j != 0
          invariant 0 <= j <= table.Length
          invariant forall i: nat :: j <= i < table.Length ==> table[i].version == stamp
          modifies table
        {
          j := j - 1;
          table[j] := table[j].(version := stamp);
        }
      }
      version := stamp - 1;
      assert Live(table[..], version) == {};
    }

    /** The walk along the probe sequence: to an equal name, or else to a slot without the
        current stamp. */
    method Walk(a: Name, uriHash: nat, ghost done: seq<Name>) returns (dup: bool, j: nat, ghost n: nat)
      requires Valid() && WellFormed(a) && uriHash == hash(a.expanded)
      requires forall k: nat :: k < |done| ==> WellFormed(done[k])
      requires Stores(table[..], version, power, hash, done) && 2 * |done| < table.Length
      ensures dup ==> exists k: nat :: k < |done| && Clash(hash, done[k], a)
      ensures !dup ==>
                && j < table.Length && table[j].version != version && j == Chain(uriHash, power, n)
                && TakenUpTo(Live(table[..], version), uriHash, power, n)
                && Passed(table[..], power, uriHash, a.expanded, n)
    {
      hide LowBits, ProbeStep, Reached, Findable;
      ghost var t := table[..];
      ghost var live := Live(t, version);
      var size := table.Length;
      var step := 0;
      j := LowBits(uriHash, power);
      n := 0;
      assert j == Chain(uriHash, power, 0);
      while table[j].version == version
        invariant j < size && j == Chain(uriHash, power, n)
        invariant step == 0 || step == ProbeStep(uriHash, power)
        invariant n <= |live| && TakenUpTo(live, uriHash, power, n)
        invariant Passed(t, power, uriHash, a.expanded, n)
        decreases |live| - n
      {
        assert t[j] == table[j] && j in live;
        ghost var k: nat :| k < |done| && Holds(t, j, hash, done[k]);
        if uriHash == table[j].hash {
          dup := SameName(a.expanded, table[j].uriName);
          if dup {
            assert Clash(hash, done[k], a);
            return;
          }
        }
        if step == 0 {
          step := ProbeStep(uriHash, power);
        }
        j := if j < step then j + (size - step) else j - step;
        n := n + 1;
        WalkIsBounded(live, uriHash, power, n);
      }
      dup := false;
    }

    /** Check the next attribute of the tag and store it when it is no duplicate. */
    method Add(a: Name, ghost done: seq<Name>) returns (dup: bool)
      requires Valid() && WellFormed(a)
      requires forall k: nat :: k < |done| ==> WellFormed(done[k])
      requires Stores(table[..], version, power, hash, done) && 2 * |done| < table.Length
      modifies table
      ensures Valid()
      ensures dup <==> exists k: nat :: k < |done| && Clash(hash, done[k], a)
      ensures !dup ==> Stores(table[..], version, power, hash, done + [a])
    {
      hide LowBits, ProbeStep, Reached, Findable, TakenUpTo, Passed, Chain, Clash;
      ghost var t := table[..];
      var uriHash := hash(a.expanded);
      var j: nat;
      ghost var n: nat;
      dup, j, n := Walk(a, uriHash, done);
      if !dup {
        FreeSlotMeansNoClash(t, version, power, hash, done, a, n);
        FillFree(t, version, power, hash, done, a, n);
        table[j] := Slot(version, uriHash, a.expanded + a.suffix);
        assert table[..] == t[j := Slot(version, uriHash, a.expanded + a.suffix)];
      }
    }

    /** All prefixed attributes of one start tag, after any history of earlier tags. */
    method CheckTag(atts: seq<Att>) returns (dup: bool)
      requires Valid()
      requires forall k: nat :: k < |atts| ==> IsAtt(atts[k])
      modifies this, table
      ensures Valid() && (table == old(table) || fresh(table))
      ensures dup <==> AnyClash(hash, NamesOf(naming, atts))
    {
      hide NameOf, NamesOf, Stores;
      if |atts| == 0 {
        return false;
      }
      ghost var names := NamesOf(naming, atts);
      AllWellFormed(naming, atts);
      BeginTag(|atts|);
      assert names[..0] == [];
      var i := 0;
      while i < |atts|
        invariant i <= |atts| && Valid() && 2 * |atts| < table.Length
        invariant table == old(table) || fresh(table)
        invariant Stores(table[..], version, power, hash, names[..i])
        invariant !AnyClash(hash, names[..i])
      {
        var d := Add(NameOf(naming, atts[i]), names[..i]);
        assert names[..i + 1] == names[..i] + [names[i]];
        if d {
          return true;
        }
        i := i + 1;
      }
      assert names[..i] == names;
      return false;
    }
  }

  lemma AllWellFormed(n: Naming, atts: seq<Att>)
    requires forall k: nat :: k < |atts| ==> IsAtt(atts[k])
    ensures forall k: nat :: k < |atts| ==> WellFormed(NamesOf(n, atts)[k])
  {
    forall k: nat | k < |atts| ensures WellFormed(NamesOf(n, atts)[k]) {
      NamesAreWellFormed(n, atts[k]);
    }
  }

  /** `while (nPrefixes >> nsAttsPower++);` and the minimum of 3 */
  method GrownPower(n: nat, power: nat) returns (p: nat)
    ensures p >= 3 && p > power && 2 * n < Pow2(p)
  {
    p := power;
    ShiftIsZero(n, p);
    while ShiftRight(n, p) != 0
      invariant p >= power
      invariant ShiftRight(n, p) == 0 <==> n < Pow2(p)
      decreases n - Pow2(p)
    {
      p := p + 1;
      ShiftIsZero(n, p);
    }
    p := p + 1;
    if p < 3 {
      p := 3;
      assert Pow2(3) == 8;
    }
  }
}
