/**
 Attribute values with their entity references: the expansion that is guarded by the `open`
 flags, and the plain expansion it stands for.
 */
module XmlExpand {
  import opened XmlTok
  import opened XmlScan
  import opened XmlChar
  import opened XmlRef
  import opened Wrappers

  /* ----- tokens ----- */

  function Min(a: nat, b: nat): nat {
    if a <= b then a else b
  }

  /** The data loop of `attributeValueTok`. */
  function DataEnd(e: Encoding, b: Text, p: nat): (r: Result)
    requires p <= |b|
    ensures !r.None? && (r.Tok? ==> r.tok == DataChars && p <= r.next <= |b|)
    decreases |b| - p
  {
    if p == |b| then Tok(DataChars, p)
    else
      var t := e.typeOf(b[p]);
      if t == Lt then Invalid(p)
      else if t == Amp || t == Lf || t == Cr || t == S then Tok(DataChars, p)
      else DataEnd(e, b, Min(p + Width(t), |b|))
  }

  /** `scanRef` */
  function RefTok(e: Encoding, b: Text, p: nat): (r: Result)
    requires p <= |b|
    ensures !r.None? && (r.Tok? ==> p < r.next <= |b| && (r.tok == CharRef || r.tok == EntityRef))
  {
    RefBounds(e, b, p, RefStart(InContent));
    Run(e, b, p, RefStart(InContent))
  }

  /** `attributeValueTok` */
  function ValueTok(e: Encoding, b: Text, p: nat): (r: Result)
    requires p <= |b|
    ensures r.Tok? ==> p < r.next <= |b|
    ensures r.None? <==> p == |b|
  {
    if p == |b| then None
    else
      var t := e.typeOf(b[p]);
      if t == Amp then RefTok(e, b, p + 1)
      else if t == Lt then Invalid(p)
      else if t == Lf then Tok(DataNewline, p + 1)
      else if t == Cr then
        if p + 1 == |b| then TrailingCr
        else Tok(DataNewline, if e.typeOf(b[p + 1]) == Lf then p + 2 else p + 1)
      else if t == S then Tok(AttributeValueS, p + 1)
      else DataEnd(e, b, Min(p + Width(t), |b|))
  }

  lemma {:induction false} RefBounds(e: Encoding, b: Text, p: nat, m: Mode)
    requires p <= |b| && IsRefMode(m) && m.place == InContent
    ensures var r := Run(e, b, p, m);
            !r.None? && (r.Tok? ==> p < r.next <= |b| && (r.tok == CharRef || r.tok == EntityRef))
    decreases |b| - p
  {
    hide Run, NameLook;
    RunRef(e, b, p, m);
    if p < |b| {
      RefEnds(e, b, p);
      var s := RefStep(e, b, p, m);
      if s.To? {
        RefBounds(e, b, s.next, s.mode);
      }
    }
  }

  method ValueToken(e: Encoding, b: Text, start: nat) returns (r: Result)
    requires start <= |b|
    ensures r == ValueTok(e, b, start)
  {
    hide Width, Run;
    if start == |b| {
      return None;
    }
    var p := start;
    while p != |b|
      invariant start <= p <= |b|
      invariant p > start ==> DataEnd(e, b, p) == ValueTok(e, b, start)
      decreases |b| - p
    {
      var t := e.typeOf(b[p]);
      if t == Lt {
        return Invalid(p);
      }
      if t == Amp || t == Lf || t == Cr || t == S {
        if p != start {
          return Tok(DataChars, p);
        }
        if t == Amp {
          r := ScanRef(e, b, p + 1);
          return;
        }
        if t == Cr {
          p := p + 1;
          if p == |b| {
            return TrailingCr;
          }
          if e.typeOf(b[p]) == Lf {
            p := p + 1;
          }
          return Tok(DataNewline, p);
        }
        return Tok(if t == Lf then DataNewline else AttributeValueS, p + 1);
      }
      p := Min(p + Width(t), |b|);
    }
    return Tok(DataChars, p);
  }

  /* ----- what a token does ----- */

  datatype Error =
    | NoError | InvalidToken | UnexpectedState | BadCharRef | UndefinedEntity | EntityDeclaredInPe
    | RecursiveEntityRef | BinaryEntityRef | AttributeExternalEntityRef

  /** An entity declaration; an external entity has no text. */
  datatype Entity = Entity(isInternal: bool, notation: bool, text: Maybe<Text>)

  /** The document type as far as it matters here, and the caller's situation. */
  datatype Env = Env(entities: map<Text, Entity>, internal: Encoding, checkDecl: bool)

  /** Whether a missing declaration is an error. */
  function CheckEntityDecl(fromProlog: bool, documentEntity: bool, standalone: bool,
                           openInternalEntities: bool, hasParamEntityRefs: bool): bool
  {
    if fromProlog then documentEntity && if standalone then !openInternalEntities else !hasParamEntityRefs
    else !hasParamEntityRefs || standalone
  }

  /** `predefinedEntityName` */
  function Predefined(name: Text): (c: Maybe<Byte>)
  {
    if name == [0x6C, 0x74] then Just(0x3C)
    else if name == [0x67, 0x74] then Just(0x3E)
    else if name == [0x61, 0x6D, 0x70] then Just(0x26)
    else if name == [0x71, 0x75, 0x6F, 0x74] then Just(0x22)
    else if name == [0x61, 0x70, 0x6F, 0x73] then Just(0x27)
    else Nothing
  }

  /** What a token of the value asks for. `Blank` is a space, which normalization may drop. */
  datatype Action =
    | Done
    | Fail(error: Error)
    | Add(text: Text, next: nat)
    | Blank(next: nat)
    | Expand(name: Text, next: nat)

  /** The character reference between `p` and `q`. */
  ghost predicate CharRefAt(b: Text, p: nat, q: nat) {
    p + 2 < q <= |b| && IsCharRef(b, p, if b[p + 2] == LOWER_X then p + 3 else p + 2, q - 1, b[p + 2] == LOWER_X)
  }

  function RefValue(b: Text, p: nat, q: nat): (n: int)
    requires CharRefAt(b, p, q)
    ensures n == -1 || (0 <= n < 0x110000 && IsChar(n))
  {
    RefNumber(b[if b[p + 2] == LOWER_X then p + 3 else p + 2..q - 1], b[p + 2] == LOWER_X)
  }

  lemma ScannedTok(e: Encoding, b: Text, p: nat)
    requires AsciiTable(e) && p < |b|
    ensures var r := RefTok(e, b, p + 1); r.Tok? && r.tok == CharRef ==> CharRefAt(b, p, r.next)
  {
    hide Run, AsciiTable;
    var r := RefTok(e, b, p + 1);
    if r.Tok? && r.tok == CharRef {
      ScannedCharRef(e, b, p);
    }
  }

  lemma ScannedValue(e: Encoding, b: Text, p: nat)
    requires AsciiTable(e) && p <= |b|
    ensures var r := ValueTok(e, b, p); r.Tok? && r.tok == CharRef ==> CharRefAt(b, p, r.next)
  {
    hide RefTok, AsciiTable;
    if p < |b| && e.typeOf(b[p]) == Amp {
      ScannedTok(e, b, p);
    }
  }

  function Act(e: Encoding, b: Text, p: nat, env: Env): (a: Action)
    requires AsciiTable(e) && p <= |b|
    ensures a.Add? || a.Blank? || a.Expand? ==> p < a.next <= |b|
    ensures a.Expand? ==> a.name in env.entities
    ensures a.Fail? ==> a.error != NoError && a.error != RecursiveEntityRef
  {
    match ValueTok(e, b, p)
    case None => Done
    case Invalid(_) | Partial => Fail(InvalidToken)
    case TrailingCr => Blank(p + 1)
    case Tok(tok, q) => (
      match tok
      case DataChars => Add(b[p..q], q)
      case DataNewline | AttributeValueS => Blank(q)
      case CharRef =>
        ScannedValue(e, b, p);
        var n := RefValue(b, p, q);
        if n < 0 then Fail(BadCharRef)
        else if n == 0x20 then Blank(q)
        else Add(Utf8Encode(n), q)
      case EntityRef =>
        var name := b[p + 1..q - 1];
        if Predefined(name).Just? then Add([Predefined(name).value], q)
        else if name in env.entities then
          if env.checkDecl && !env.entities[name].isInternal then Fail(EntityDeclaredInPe) else Expand(name, q)
        else if env.checkDecl then Fail(UndefinedEntity)
        else Add([], q)
      case _ => Fail(UnexpectedState))
    case _ => Fail(UnexpectedState)
  }

  /* ----- expansion ----- */

  /** A space, which is dropped at the start and behind another space unless the value is CDATA. */
  function AddSpace(pool: Text, cdata: bool): Text {
    if !cdata && (pool == [] || pool[|pool| - 1] == SPACE) then pool else pool + [SPACE]
  }

  ghost predicate Tables(e: Encoding, env: Env) {
    AsciiTable(e) && AsciiTable(env.internal)
  }

  function ClosedCount(env: Env, open: set<Text>): nat {
    |env.entities.Keys - open|
  }

  lemma FewerClosed(env: Env, open: set<Text>, n: Text)
    requires n in env.entities && n !in open
    ensures ClosedCount(env, open + {n}) == ClosedCount(env, open) - 1
  {
    assert env.entities.Keys - (open + {n}) == (env.entities.Keys - open) - {n};
  }

  /** `appendAttributeValue`: the error and the string in the pool. The entities in `open`
      are those whose `open` flag is set. */
  function Append(e: Encoding, b: Text, p: nat, env: Env, open: set<Text>, cdata: bool, pool: Text): (r: (Error, Text))
    requires Tables(e, env) && p <= |b|
    decreases ClosedCount(env, open), |b| - p
  {
    match Act(e, b, p, env)
    case Done => (NoError, pool)
    case Fail(error) => (error, pool)
    case Add(text, q) => Append(e, b, q, env, open, cdata, pool + text)
    case Blank(q) => Append(e, b, q, env, open, cdata, AddSpace(pool, cdata))
    case Expand(n, q) =>
      var entity := env.entities[n];
      if n in open then (RecursiveEntityRef, pool)
      else if entity.notation then (BinaryEntityRef, pool)
      else if entity.text.Nothing? then (AttributeExternalEntityRef, pool)
      else
        FewerClosed(env, open, n);
        var r := Append(env.internal, entity.text.value, 0, env, open + {n}, cdata, pool);
        if r.0 != NoError then r else Append(e, b, q, env, open, cdata, r.1)
  }

  /** One turn of the loop. */
  lemma AppendTurn(e: Encoding, b: Text, p: nat, env: Env, open: set<Text>, cdata: bool, pool: Text)
    requires Tables(e, env) && p <= |b|
    ensures var a := Act(e, b, p, env);
            Append(e, b, p, env, open, cdata, pool) ==
            if a.Done? then (NoError, pool)
            else if a.Fail? then (a.error, pool)
            else if a.Add? then Append(e, b, a.next, env, open, cdata, pool + a.text)
            else if a.Blank? then Append(e, b, a.next, env, open, cdata, AddSpace(pool, cdata))
            else
              var entity := env.entities[a.name];
              if a.name in open then (RecursiveEntityRef, pool)
              else if entity.notation then (BinaryEntityRef, pool)
              else if entity.text.Nothing? then (AttributeExternalEntityRef, pool)
              else
                var r := Append(env.internal, entity.text.value, 0, env, open + {a.name}, cdata, pool);
                if r.0 != NoError then r else Append(e, b, a.next, env, open, cdata, r.1)
  {
    hide Act, AsciiTable, AddSpace;
  }

  /** The plain expansion, without any flags: nothing if references are nested more than
      `depth` deep. */
  function Plain(depth: nat, e: Encoding, b: Text, p: nat, env: Env, cdata: bool, pool: Text): (r: Maybe<(Error, Text)>)
    requires Tables(e, env) && p <= |b|
    decreases depth, |b| - p
  {
    match Act(e, b, p, env)
    case Done => Just((NoError, pool))
    case Fail(error) => Just((error, pool))
    case Add(text, q) => Plain(depth, e, b, q, env, cdata, pool + text)
    case Blank(q) => Plain(depth, e, b, q, env, cdata, AddSpace(pool, cdata))
    case Expand(n, q) =>
      var entity := env.entities[n];
      if entity.notation then Just((BinaryEntityRef, pool))
      else if entity.text.Nothing? then Just((AttributeExternalEntityRef, pool))
      else if depth == 0 then Nothing
      else
        match Plain(depth - 1, env.internal, entity.text.value, 0, env, cdata, pool)
        case Nothing => Nothing
        case Just(r) => if r.0 != NoError then Just(r) else Plain(depth, e, b, q, env, cdata, r.1)
  }

  /** Where the guard does not strike, it changes nothing. */
  lemma {:induction false} GuardedIsPlain(depth: nat, e: Encoding, b: Text, p: nat, env: Env, open: set<Text>,
                                          cdata: bool, pool: Text)
    requires Tables(e, env) && p <= |b| && depth >= ClosedCount(env, open)
    requires Append(e, b, p, env, open, cdata, pool).0 != RecursiveEntityRef
    ensures Plain(depth, e, b, p, env, cdata, pool) == Just(Append(e, b, p, env, open, cdata, pool))
    decreases ClosedCount(env, open), |b| - p
  {
    hide Act, AsciiTable, AddSpace, ClosedCount;
    match Act(e, b, p, env)
    case Add(text, q) => GuardedIsPlain(depth, e, b, q, env, open, cdata, pool + text);
    case Blank(q) => GuardedIsPlain(depth, e, b, q, env, open, cdata, AddSpace(pool, cdata));
    case Expand(n, q) =>
      var entity := env.entities[n];
      if n !in open && !entity.notation && entity.text.Just? {
        FewerClosed(env, open, n);
        GuardedIsPlain(depth - 1, env.internal, entity.text.value, 0, env, open + {n}, cdata, pool);
        var r := Append(env.internal, entity.text.value, 0, env, open + {n}, cdata, pool);
        if r.0 == NoError {
          GuardedIsPlain(depth, e, b, q, env, open, cdata, r.1);
        }
      }
    case _ =>
  }

  /** Whether the plain expansion ends, and with what error, does not depend on the pool. */
  lemma {:induction false} PoolDoesNotMatter(depth: nat, e: Encoding, b: Text, p: nat, env: Env, cdata: bool,
                                             pool: Text, pool': Text)
    requires Tables(e, env) && p <= |b|
    ensures var r, r' := Plain(depth, e, b, p, env, cdata, pool), Plain(depth, e, b, p, env, cdata, pool');
            (r.Just? <==> r'.Just?) && (r.Just? ==> r.value.0 == r'.value.0)
    decreases depth, |b| - p
  {
    hide Act, AsciiTable, AddSpace;
    match Act(e, b, p, env)
    case Add(text, q) => PoolDoesNotMatter(depth, e, b, q, env, cdata, pool + text, pool' + text);
    case Blank(q) => PoolDoesNotMatter(depth, e, b, q, env, cdata, AddSpace(pool, cdata), AddSpace(pool', cdata));
    case Expand(n, q) =>
      var entity := env.entities[n];
      if !entity.notation && entity.text.Just? && depth > 0 {
        PoolDoesNotMatter(depth - 1, env.internal, entity.text.value, 0, env, cdata, pool, pool');
        var r := Plain(depth - 1, env.internal, entity.text.value, 0, env, cdata, pool);
        var r' := Plain(depth - 1, env.internal, entity.text.value, 0, env, cdata, pool');
        if r.Just? && r.value.0 == NoError {
          PoolDoesNotMatter(depth, e, b, q, env, cdata, r.value.1, r'.value.1);
        }
      }
    case _ =>
  }

  /** More depth does not change an expansion that ends. */
  lemma {:induction false} DeeperIsSame(depth: nat, e: Encoding, b: Text, p: nat, env: Env, cdata: bool, pool: Text)
    requires Tables(e, env) && p <= |b| && Plain(depth, e, b, p, env, cdata, pool).Just?
    ensures Plain(depth + 1, e, b, p, env, cdata, pool) == Plain(depth, e, b, p, env, cdata, pool)
    decreases depth, |b| - p
  {
    hide Act, AsciiTable, AddSpace;
    match Act(e, b, p, env)
    case Add(text, q) => DeeperIsSame(depth, e, b, q, env, cdata, pool + text);
    case Blank(q) => DeeperIsSame(depth, e, b, q, env, cdata, AddSpace(pool, cdata));
    case Expand(n, q) =>
      var entity := env.entities[n];
      if !entity.notation && entity.text.Just? {
        DeeperIsSame(depth - 1, env.internal, entity.text.value, 0, env, cdata, pool);
        var r := Plain(depth - 1, env.internal, entity.text.value, 0, env, cdata, pool);
        if r.value.0 == NoError {
          DeeperIsSame(depth, e, b, q, env, cdata, r.value.1);
        }
      }
    case _ =>
  }

  /** An entity that can be expanded, but whose expansion does not end within the depth. */
  ghost predicate Stuck(n: Text, depth: nat, env: Env, cdata: bool)
    requires AsciiTable(env.internal)
  {
    && n in env.entities && !env.entities[n].notation && env.entities[n].text.Just?
    && Plain(depth, env.internal, env.entities[n].text.value, 0, env, cdata, []).Nothing?
  }

  ghost predicate AllStuck(open: set<Text>, depth: nat, env: Env, cdata: bool)
    requires AsciiTable(env.internal)
  {
    forall n <- open :: Stuck(n, depth, env, cdata)
  }

  lemma StuckBelow(open: set<Text>, depth: nat, env: Env, cdata: bool)
    requires AsciiTable(env.internal) && depth > 0 && AllStuck(open, depth, env, cdata)
    ensures AllStuck(open, depth - 1, env, cdata)
  {
    hide Plain, AsciiTable;
    forall n <- open ensures Stuck(n, depth - 1, env, cdata) {
      assert Stuck(n, depth, env, cdata);
      if Plain(depth - 1, env.internal, env.entities[n].text.value, 0, env, cdata, []).Just? {
        DeeperIsSame(depth - 1, env.internal, env.entities[n].text.value, 0, env, cdata, []);
      }
    }
  }

  /** Where the guard strikes, the plain expansion runs into the open entities again. */
  lemma {:induction false} StrikeIsEndless(depth: nat, e: Encoding, b: Text, p: nat, env: Env, open: set<Text>,
                                           cdata: bool, pool: Text)
    requires Tables(e, env) && p <= |b|
    requires Append(e, b, p, env, open, cdata, pool).0 == RecursiveEntityRef
    requires depth > 0 ==> AllStuck(open, depth - 1, env, cdata)
    requires forall n <- open :: n in env.entities && !env.entities[n].notation && env.entities[n].text.Just?
    ensures Plain(depth, e, b, p, env, cdata, pool).Nothing?
    decreases ClosedCount(env, open), 0, |b| - p
  {
    hide Act, AsciiTable, AddSpace, ClosedCount;
    match Act(e, b, p, env)
    case Add(text, q) => StrikeIsEndless(depth, e, b, q, env, open, cdata, pool + text);
    case Blank(q) => StrikeIsEndless(depth, e, b, q, env, open, cdata, AddSpace(pool, cdata));
    case Expand(n, q) =>
      if depth > 0 {
        var text := env.entities[n].text.value;
        PoolDoesNotMatter(depth - 1, env.internal, text, 0, env, cdata, pool, []);
        if n in open {
          assert Stuck(n, depth - 1, env, cdata);
        } else {
          FewerClosed(env, open, n);
          var r := Append(env.internal, text, 0, env, open + {n}, cdata, pool);
          if r.0 == RecursiveEntityRef {
            EntityIsEndless(n, depth - 1, env, open, cdata, pool);
          } else {
            var inner := Plain(depth - 1, env.internal, text, 0, env, cdata, pool);
            if inner.Just? {
              PlainIsGuarded(depth - 1, env.internal, text, 0, env, open + {n}, cdata, pool);
              StrikeIsEndless(depth, e, b, q, env, open, cdata, r.1);
            }
          }
        }
      }
    case _ =>
  }

  /** An entity within which the guard strikes never ends. */
  lemma {:induction false} EntityIsEndless(n: Text, depth: nat, env: Env, open: set<Text>, cdata: bool, pool: Text)
    requires AsciiTable(env.internal) && n in env.entities && n !in open
    requires !env.entities[n].notation && env.entities[n].text.Just?
    requires Append(env.internal, env.entities[n].text.value, 0, env, open + {n}, cdata, pool).0 == RecursiveEntityRef
    requires AllStuck(open, depth, env, cdata)
    ensures Stuck(n, depth, env, cdata)
    decreases ClosedCount(env, open + {n}), 1, depth
  {
    hide Append, AsciiTable, ClosedCount;
    if depth > 0 {
      StuckBelow(open, depth, env, cdata);
      EntityIsEndless(n, depth - 1, env, open, cdata, pool);
    }
    StrikeIsEndless(depth, env.internal, env.entities[n].text.value, 0, env, open + {n}, cdata, pool);
    PoolDoesNotMatter(depth, env.internal, env.entities[n].text.value, 0, env, cdata, pool, []);
  }

  /** An expansion that ends without the guard's error is the guarded one, at every depth. */
  lemma PlainIsGuarded(depth: nat, e: Encoding, b: Text, p: nat, env: Env, open: set<Text>, cdata: bool, pool: Text)
    requires Tables(e, env) && p <= |b|
    requires Append(e, b, p, env, open, cdata, pool).0 != RecursiveEntityRef
    requires Plain(depth, e, b, p, env, cdata, pool).Just?
    ensures Plain(depth, e, b, p, env, cdata, pool) == Just(Append(e, b, p, env, open, cdata, pool))
  {
    hide Append, Plain, AsciiTable, ClosedCount;
    var enough := ClosedCount(env, open) + depth;
    GuardedIsPlain(enough, e, b, p, env, open, cdata, pool);
    MuchDeeperIsSame(depth, enough, e, b, p, env, cdata, pool);
  }

  lemma {:induction false} MuchDeeperIsSame(depth: nat, depth': nat, e: Encoding, b: Text, p: nat, env: Env,
                                            cdata: bool, pool: Text)
    requires Tables(e, env) && p <= |b| && depth <= depth' && Plain(depth, e, b, p, env, cdata, pool).Just?
    ensures Plain(depth', e, b, p, env, cdata, pool) == Plain(depth, e, b, p, env, cdata, pool)
    decreases depth'
  {
    hide Plain, AsciiTable;
    if depth < depth' {
      MuchDeeperIsSame(depth, depth' - 1, e, b, p, env, cdata, pool);
      DeeperIsSame(depth' - 1, e, b, p, env, cdata, pool);
    }
  }

  /**
   The guard is exact. With no entity open, `appendAttributeValue` reports recursion if and
   only if the plain expansion never ends (WFC No Recursion of XML 1.0, section 4.1);
   otherwise it is the plain expansion.
   */
  lemma RecursionIffEndless(e: Encoding, b: Text, p: nat, env: Env, cdata: bool, pool: Text)
    requires Tables(e, env) && p <= |b|
    ensures var r := Append(e, b, p, env, {}, cdata, pool);
            && (r.0 == RecursiveEntityRef <==> forall depth: nat :: Plain(depth, e, b, p, env, cdata, pool).Nothing?)
            && (r.0 != RecursiveEntityRef ==> Plain(|env.entities|, e, b, p, env, cdata, pool) == Just(r))
  {
    hide Append, Plain, AsciiTable;
    var r := Append(e, b, p, env, {}, cdata, pool);
    if r.0 == RecursiveEntityRef {
      forall depth: nat ensures Plain(depth, e, b, p, env, cdata, pool).Nothing? {
        StrikeIsEndless(depth, e, b, p, env, {}, cdata, pool);
      }
    } else {
      assert env.entities.Keys - {} == env.entities.Keys;
      GuardedIsPlain(|env.entities|, e, b, p, env, {}, cdata, pool);
    }
  }
}
