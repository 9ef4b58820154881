/**
 The expansion of attribute values in place: it sets and clears the `open` flags of the
 entities while it recurses.
 */
module XmlExpander {
  import opened Wrappers
  import opened XmlTok
  import opened XmlChar
  import opened XmlRef
  import opened XmlExpand
  import opened XmlNormalize

  /** An entry of the table of general entities. */
  class Entry {
    const decl: Entity
    var open: bool

    constructor (decl: Entity)
      ensures this.decl == decl && !open
    {
      this.decl := decl;
      open := false;
    }
  }

  type Table = map<Text, Entry>

  /** The table declares what the environment says, each entity with an entry of its own. */
  ghost predicate Declares(table: Table, env: Env) {
    && table.Keys == env.entities.Keys
    && (forall n <- table :: table[n].decl == env.entities[n])
    && (forall m <- table, n <- table :: table[m] == table[n] ==> m == n)
  }

  /** The entities whose flag is set. */
  ghost function Open(table: Table): set<Text>
    reads table.Values
  {
    set n <- table | table[n].open
  }

  lemma {:induction false} OpenKnown(table: Table, n: Text)
    requires n in table
    ensures n in Open(table) <==> table[n].open
  {
  }

  lemma OpenIs(table: Table, s: set<Text>)
    requires s <= table.Keys && forall n <- table :: table[n].open <==> n in s
    ensures Open(table) == s
  {
  }

  lemma ActTurn(e: Encoding, b: Text, p: nat, env: Env)
    requires Tables(e, env) && p <= |b|
    ensures var t, a := ValueTok(e, b, p), Act(e, b, p, env);
            && (t.None? ==> a == Done)
            && (t.Invalid? || t.Partial? ==> a == Fail(InvalidToken))
            && (t.TrailingCr? ==> a == Blank(p + 1))
            && (t.PartialChar? || t.TrailingRsqb? ==> a == Fail(UnexpectedState))
            && (t.Tok? && t.tok == DataChars ==> a == Add(b[p..t.next], t.next))
            && (t.Tok? && (t.tok == DataNewline || t.tok == AttributeValueS) ==> a == Blank(t.next))
            && (t.Tok? && t.tok != DataChars && t.tok != DataNewline && t.tok != AttributeValueS && t.tok != CharRef
                && t.tok != EntityRef
                ==> a == Fail(UnexpectedState))
  {
    hide ValueTok, AsciiTable, RefValue, Utf8Encode, Predefined;
    ScannedValue(e, b, p);
  }

  lemma CharRefTurn(e: Encoding, b: Text, p: nat, env: Env)
    requires Tables(e, env) && p <= |b|
    requires ValueTok(e, b, p).Tok? && ValueTok(e, b, p).tok == CharRef
    ensures var q := ValueTok(e, b, p).next;
            CharRefAt(b, p, q)
            && var n := RefValue(b, p, q);
            Act(e, b, p, env) ==
            if n < 0 then Fail(BadCharRef) else if n == 0x20 then Blank(q) else Add(Utf8Encode(n), q)
  {
    hide ValueTok, AsciiTable, RefValue, Utf8Encode, Predefined;
    ScannedValue(e, b, p);
  }

  lemma EntityRefTurn(e: Encoding, b: Text, p: nat, env: Env, open: set<Text>, cdata: bool, pool: Text)
    requires Tables(e, env) && p <= |b|
    requires ValueTok(e, b, p).Tok? && ValueTok(e, b, p).tok == EntityRef
    ensures var q := ValueTok(e, b, p).next;
            p + 2 <= q <= |b|
            && var r := Referred(b[p + 1..q - 1], env, open, cdata, pool);
            Append(e, b, p, env, open, cdata, pool) ==
            if r.0 != NoError then r else Append(e, b, q, env, open, cdata, r.1)
  {
    hide AsciiTable, RefValue, Utf8Encode, Predefined, RefTok, Append;
    ScannedValue(e, b, p);
    AppendTurn(e, b, p, env, open, cdata, pool);
    assert pool + [] == pool;
  }

  /** `appendAttributeValue`: the flags are as before, whatever the outcome. */
  method AppendAttributeValue(e: Encoding, b: Text, start: nat, table: Table, ghost env: Env, internal: Encoding,
                              checkDecl: bool, cdata: bool, before: Text)
    returns (error: Error, pool: Text)
    requires Tables(e, env) && start <= |b| && Declares(table, env)
    requires env.internal == internal && env.checkDecl == checkDecl
    modifies table.Values
    ensures (error, pool) == Append(e, b, start, env, old(Open(table)), cdata, before)
    ensures forall n <- table :: table[n].open == old(table[n].open)
    decreases ClosedCount(env, Open(table)), |b| - start, 0
  {
    hide AsciiTable, Append, Act, ValueTok, AddSpace, Utf8Encode, RefValue, Predefined, ClosedCount, CharRefAt;
    var p := start;
    pool := before;
    ghost var open := Open(table);
    while true
      invariant start <= p <= |b|
      invariant forall n <- table :: table[n].open == old(table[n].open)
      invariant Append(e, b, p, env, open, cdata, pool) == Append(e, b, start, env, open, cdata, before)
      decreases |b| - p
    {
      AppendTurn(e, b, p, env, open, cdata, pool);
      ActTurn(e, b, p, env);
      var token := ValueToken(e, b, p);
      match token {
        case None => return NoError, pool;
        case Invalid(_) => return InvalidToken, pool;
        case Partial => return InvalidToken, pool;
        case TrailingCr =>
          p := p + 1;
          pool := AddSpace(pool, cdata);
        case PartialChar => return UnexpectedState, pool;
        case TrailingRsqb => return UnexpectedState, pool;
        case Tok(tok, q) =>
          if tok == DataChars {
            pool := pool + b[p..q];
          } else if tok == DataNewline || tok == AttributeValueS {
            pool := AddSpace(pool, cdata);
          } else if tok == CharRef {
            CharRefTurn(e, b, p, env);
            var n := NumberAt(b, p, q);
            if n < 0 {
              return BadCharRef, pool;
            }
            if n == 0x20 {
              pool := AddSpace(pool, cdata);
            } else {
              pool := pool + Utf8Encode(n);
            }
          } else if tok == EntityRef {
            EntityRefTurn(e, b, p, env, open, cdata, pool);
            OpenIs(table, open);
            error, pool := AppendReference(b[p + 1..q - 1], table, env, internal, checkDecl, cdata, pool);
            if error != NoError {
              return;
            }
          } else {
            return UnexpectedState, pool;
          }
          p := q;
      }
    }
  }

  /** An entity reference: what it adds to the pool, or its error. */
  method AppendReference(name: Text, table: Table, ghost env: Env, internal: Encoding, checkDecl: bool, cdata: bool,
                         before: Text)
    returns (error: Error, pool: Text)
    requires AsciiTable(internal) && Declares(table, env)
    requires env.internal == internal && env.checkDecl == checkDecl
    modifies table.Values
    ensures (error, pool) == Referred(name, env, old(Open(table)), cdata, before)
    ensures forall n <- table :: table[n].open == old(table[n].open)
    decreases ClosedCount(env, Open(table)), 0, 1
  {
    hide AsciiTable, Append, Predefined, ClosedCount;
    pool := before;
    if Predefined(name).Just? {
      return NoError, pool + [Predefined(name).value];
    }
    if name !in table {
      return if checkDecl then UndefinedEntity else NoError, pool;
    }
    var entity := table[name];
    if checkDecl && !entity.decl.isInternal {
      return EntityDeclaredInPe, pool;
    }
    OpenKnown(table, name);
    if entity.open {
      return RecursiveEntityRef, pool;
    }
    if entity.decl.notation {
      return BinaryEntityRef, pool;
    }
    if entity.decl.text.Nothing? {
      return AttributeExternalEntityRef, pool;
    }
    error, pool := ExpandEntity(name, table, env, internal, checkDecl, cdata, pool);
  }

  /** The effect of an entity reference. */
  ghost function Referred(name: Text, env: Env, open: set<Text>, cdata: bool, pool: Text): (Error, Text)
    requires AsciiTable(env.internal)
  {
    if Predefined(name).Just? then (NoError, pool + [Predefined(name).value])
    else if name !in env.entities then (if env.checkDecl then UndefinedEntity else NoError, pool)
    else
      var entity := env.entities[name];
      if env.checkDecl && !entity.isInternal then (EntityDeclaredInPe, pool)
      else if name in open then (RecursiveEntityRef, pool)
      else if entity.notation then (BinaryEntityRef, pool)
      else if entity.text.Nothing? then (AttributeExternalEntityRef, pool)
      else Append(env.internal, entity.text.value, 0, env, open + {name}, cdata, pool)
  }

  method NumberAt(b: Text, p: nat, q: nat) returns (n: int)
    requires CharRefAt(b, p, q)
    ensures n == RefValue(b, p, q)
  {
    var hex := b[p + 2] == LOWER_X;
    var r := CharRefNumber(b, p, if hex then p + 3 else p + 2, q - 1, hex);
    n := r as int;
  }

  /** The recursion, with the flag set meanwhile. */
  method ExpandEntity(name: Text, table: Table, ghost env: Env, internal: Encoding, checkDecl: bool, cdata: bool,
                      before: Text)
    returns (error: Error, pool: Text)
    requires AsciiTable(internal) && Declares(table, env)
    requires env.internal == internal && env.checkDecl == checkDecl
    requires name in table && !table[name].open && table[name].decl.text.Just?
    modifies table.Values
    ensures (error, pool) == Append(internal, table[name].decl.text.value, 0, env, old(Open(table)) + {name}, cdata,
                                    before)
    ensures forall n <- table :: table[n].open == old(table[n].open)
    decreases ClosedCount(env, Open(table)), 0, 0
  {
    hide AsciiTable, Append, ClosedCount;
    var entity := table[name];
    ghost var open := Open(table);
    FewerClosed(env, open, name);
    entity.open := true;
    OpenIs(table, open + {name});
    error, pool := AppendAttributeValue(internal, entity.decl.text.value, 0, table, env, internal, checkDecl, cdata,
                                        before);
    entity.open := false;
  }

  /** `storeAttributeValue`, without the terminator: from the prolog, or from content. */
  method StoreAttributeValue(e: Encoding, b: Text, table: Table, ghost env: Env, internal: Encoding, cdata: bool,
                             fromProlog: bool, documentEntity: bool, standalone: bool, openInternalEntities: bool,
                             hasParamEntityRefs: bool)
    returns (error: Error, value: Text)
    requires Tables(e, env) && Declares(table, env) && env.internal == internal
    requires env.checkDecl == CheckEntityDecl(fromProlog, documentEntity, standalone, openInternalEntities,
                                              hasParamEntityRefs)
    modifies table.Values
    ensures (error, value) == Store(e, b, env, old(Open(table)), cdata)
    ensures forall n <- table :: table[n].open == old(table[n].open)
  {
    hide AsciiTable, Append;
    var checkDecl := CheckEntityDecl(fromProlog, documentEntity, standalone, openInternalEntities, hasParamEntityRefs);
    error, value := AppendAttributeValue(e, b, 0, table, env, internal, checkDecl, cdata, []);
    if error != NoError {
      return;
    }
    if !cdata && value != [] && value[|value| - 1] == SPACE {
      value := value[..|value| - 1];
    }
  }
}
