/**
 The context of an external entity: the namespaces in force and the open entities, printed
 into a string by one parser and set up from it by another.
 */
module XmlContext {
  import opened Wrappers
  import opened XmlNamespace

  const SEP: char := '\U{C}'

  datatype Item = Bind(name: string, uri: string) | Entity(name: string)

  /* ----- printing ----- */

  /** A parser's state, with its tables in the order of their slots. The default namespace
      has the empty name. */
  datatype Tables = Tables(
    default: Maybe<string>,
    prefixes: seq<(string, Maybe<string>)>,
    entities: seq<(string, bool)>)

  function BoundItems(ps: seq<(string, Maybe<string>)>): seq<Item> {
    if ps == [] then []
    else BoundItems(ps[..|ps| - 1]) + if ps[|ps| - 1].1.Just? then [Bind(ps[|ps| - 1].0, ps[|ps| - 1].1.value)] else []
  }

  function OpenItems(es: seq<(string, bool)>): seq<Item> {
    if es == [] then [] else OpenItems(es[..|es| - 1]) + if es[|es| - 1].1 then [Entity(es[|es| - 1].0)] else []
  }

  function ItemsOf(t: Tables): seq<Item> {
    (if t.default.Just? then [Bind("", t.default.value)] else []) + BoundItems(t.prefixes) + OpenItems(t.entities)
  }

  function ItemText(i: Item): string {
    match i case Bind(name, uri) => name + ['='] + uri case Entity(name) => name
  }

  function Print(items: seq<Item>): string {
    if items == [] then ""
    else if |items| == 1 then ItemText(items[0])
    else Print(items[..|items| - 1]) + [SEP] + ItemText(items[|items| - 1])
  }

  lemma PrintMore(items: seq<Item>, i: Item)
    ensures Print(items + [i]) == if items == [] then ItemText(i) else Print(items) + [SEP] + ItemText(i)
  {
    assert (items + [i])[..|items|] == items;
  }

  /** One item more in the pool. */
  method AddItem(before: string, i: Item, needSep: bool, ghost items: seq<Item>) returns (context: string)
    requires before == Print(items) && (needSep <==> items != [])
    ensures context == Print(items + [i])
  {
    PrintMore(items, i);
    context := before;
    if needSep {
      context := context + [SEP];
    }
    match i
    case Bind(name, uri) => context := context + name + ['='] + uri;
    case Entity(name) => context := context + name;
    if items == [] {
      assert context == ItemText(i);
    } else {
      assert context == Print(items) + [SEP] + ItemText(i);
    }
  }

  /** The loop over the prefixes. */
  method PrintPrefixes(before: string, ps: seq<(string, Maybe<string>)>, sep: bool, ghost items: seq<Item>)
    returns (context: string, needSep: bool)
    requires before == Print(items) && (sep <==> items != [])
    ensures context == Print(items + BoundItems(ps)) && (needSep <==> items + BoundItems(ps) != [])
  {
    hide Print;
    context, needSep := before, sep;
    ghost var done := items;
    var k := 0;
    while k < |ps|
      invariant k <= |ps| && done == items + BoundItems(ps[..k])
      invariant context == Print(done) && (needSep <==> done != [])
    {
      assert ps[..k + 1][..k] == ps[..k];
      if ps[k].1.Just? {
        context := AddItem(context, Bind(ps[k].0, ps[k].1.value), needSep, done);
        done := done + [Bind(ps[k].0, ps[k].1.value)];
        needSep := true;
      }
      k := k + 1;
    }
    assert ps[..k] == ps;
  }

  /** The loop over the general entities. */
  method PrintEntities(before: string, es: seq<(string, bool)>, sep: bool, ghost items: seq<Item>)
    returns (context: string)
    requires before == Print(items) && (sep <==> items != [])
    ensures context == Print(items + OpenItems(es))
  {
    hide Print;
    context := before;
    var needSep := sep;
    ghost var done := items;
    var k := 0;
    while k < |es|
      invariant k <= |es| && done == items + OpenItems(es[..k])
      invariant context == Print(done) && (needSep <==> done != [])
    {
      assert es[..k + 1][..k] == es[..k];
      if es[k].1 {
        context := AddItem(context, Entity(es[k].0), needSep, done);
        done := done + [Entity(es[k].0)];
        needSep := true;
      }
      k := k + 1;
    }
    assert es[..k] == es;
  }

  /** `getContext` */
  method GetContext(t: Tables) returns (context: string)
    ensures context == Print(ItemsOf(t))
  {
    hide Print;
    ghost var items: seq<Item> := [];
    context := "";
    PrintNothing();
    var needSep := false;
    if t.default.Just? {
      context := AddItem(context, Bind("", t.default.value), needSep, items);
      items := items + [Bind("", t.default.value)];
      needSep := true;
    }
    context, needSep := PrintPrefixes(context, t.prefixes, needSep, items);
    context := PrintEntities(context, t.entities, needSep, items + BoundItems(t.prefixes));
    assert items + BoundItems(t.prefixes) + OpenItems(t.entities) == ItemsOf(t);
  }

  lemma PrintNothing()
    ensures Print([]) == ""
  {
  }

  /* ----- reading ----- */

  /** The first of `=`, the separator and the end from `k` on. */
  function NameEnd(c: string, k: nat): (r: nat)
    requires k <= |c|
    ensures k <= r <= |c| && (r < |c| ==> c[r] == '=' || c[r] == SEP)
    ensures forall j: nat :: k <= j < r ==> c[j] != '=' && c[j] != SEP
    decreases |c| - k
  {
    if k == |c| || c[k] == '=' || c[k] == SEP then k else NameEnd(c, k + 1)
  }

  function UriEnd(c: string, k: nat): (r: nat)
    requires k <= |c|
    ensures k <= r <= |c| && (r < |c| ==> c[r] == SEP)
    ensures forall j: nat :: k <= j < r ==> c[j] != SEP
    decreases |c| - k
  {
    if k == |c| || c[k] == SEP then k else UriEnd(c, k + 1)
  }

  /** The items of a context from `k` on. */
  function Items(c: string, k: nat): seq<Item>
    requires k <= |c|
    decreases |c| - k
  {
    if k == |c| then []
    else
      var n := NameEnd(c, k);
      if n == |c| then [Entity(c[k..])]
      else if c[n] == SEP then [Entity(c[k..n])] + Items(c, n + 1)
      else
        var m := UriEnd(c, n + 1);
        [Bind(c[k..n], c[n + 1..m])] + if m == |c| then [] else Items(c, m + 1)
  }

  /** Names are not empty and contain neither `=` nor the separator; URIs may contain `=`. */
  predicate Printable(i: Item) {
    match i
    case Bind(name, uri) => '=' !in name && SEP !in name && SEP !in uri
    case Entity(name) => name != "" && '=' !in name && SEP !in name
  }

  lemma Cut(c: string, k: nat, a: string, b: string)
    requires k <= |c| && c[k..] == a + b
    ensures k + |a| <= |c| && c[k..k + |a|] == a && c[k + |a|..] == b
    ensures forall j: nat :: k <= j < k + |a| ==> c[j] in a
    ensures b != "" ==> k + |a| < |c| && c[k + |a|] == b[0]
  {
    assert |c[k..]| == |a| + |b|;
    assert c[k..k + |a|] == c[k..][..|a|];
    assert c[k + |a|..] == c[k..][|a|..];
    forall j: nat | k <= j < k + |a| ensures c[j] in a {
      assert c[j] == c[k..k + |a|][j - k];
    }
    if b != "" {
      assert c[k + |a|] == c[k + |a|..][0];
    }
  }

  lemma ReadsEntity(c: string, k: nat, name: string, rest: string)
    requires k <= |c| && Printable(Entity(name)) && c[k..] == name + rest && (rest == "" || rest[0] == SEP)
    ensures |rest| <= |c| - k
    ensures Items(c, k) == [Entity(name)] + if rest == "" then [] else Items(c, |c| - |rest| + 1)
  {
    hide NameEnd;
    Cut(c, k, name, rest);
    NameEndIs(c, k, k + |name|);
    assert c[k..k + |name|] == name;
    if rest == "" {
      assert c[k..] == name;
    }
  }

  lemma ItemsAt(c: string, k: nat, n: nat, m: nat)
    requires k <= n < m <= |c| && c[n] == '=' && NameEnd(c, k) == n && UriEnd(c, n + 1) == m
    ensures Items(c, k) == [Bind(c[k..n], c[n + 1..m])] + if m == |c| then [] else Items(c, m + 1)
  {
    hide NameEnd, UriEnd;
  }

  lemma ReadsBind(c: string, k: nat, name: string, uri: string, rest: string)
    requires k <= |c| && Printable(Bind(name, uri)) && c[k..] == name + (['='] + (uri + rest))
             && (rest == "" || rest[0] == SEP)
    ensures |rest| <= |c| - k
    ensures Items(c, k) == [Bind(name, uri)] + if rest == "" then [] else Items(c, |c| - |rest| + 1)
  {
    hide NameEnd, UriEnd, Items;
    var n := k + |name|;
    Cut(c, k, name, ['='] + (uri + rest));
    Cut(c, n, ['='], uri + rest);
    Cut(c, n + 1, uri, rest);
    NameEndIs(c, k, n);
    var m := n + 1 + |uri|;
    UriEndIs(c, n + 1, m);
    ItemsAt(c, k, n, m);
  }

  /** Reading one item at the start of what is left. */
  lemma ReadsItem(c: string, k: nat, i: Item, rest: string)
    requires k <= |c| && Printable(i) && c[k..] == ItemText(i) + rest && (rest == "" || rest[0] == SEP)
    ensures |rest| <= |c| - k
    ensures Items(c, k) == [i] + if rest == "" then [] else Items(c, |c| - |rest| + 1)
  {
    hide Items;
    match i
    case Entity(name) => ReadsEntity(c, k, name, rest);
    case Bind(name, uri) =>
      assert name + ['='] + uri + rest == name + (['='] + (uri + rest));
      ReadsBind(c, k, name, uri, rest);
  }

  lemma {:induction false} NameEndIs(c: string, k: nat, n: nat)
    requires k <= n <= |c| && (n < |c| ==> c[n] == '=' || c[n] == SEP)
    requires forall j: nat :: k <= j < n ==> c[j] != '=' && c[j] != SEP
    ensures NameEnd(c, k) == n
    decreases n - k
  {
    if k < n {
      NameEndIs(c, k + 1, n);
    }
  }

  lemma {:induction false} UriEndIs(c: string, k: nat, n: nat)
    requires k <= n <= |c| && (n < |c| ==> c[n] == SEP)
    requires forall j: nat :: k <= j < n ==> c[j] != SEP
    ensures UriEnd(c, k) == n
    decreases n - k
  {
    if k < n {
      UriEndIs(c, k + 1, n);
    }
  }

  /** The text of items, from the front. */
  function PrintFrom(items: seq<Item>): string {
    if items == [] then ""
    else ItemText(items[0]) + if |items| == 1 then "" else [SEP] + PrintFrom(items[1..])
  }

  lemma {:induction false} PrintFromMore(items: seq<Item>, i: Item)
    ensures PrintFrom(items + [i]) == if items == [] then ItemText(i) else PrintFrom(items) + [SEP] + ItemText(i)
    decreases |items|
  {
    if items != [] {
      assert (items + [i])[1..] == items[1..] + [i];
      PrintFromMore(items[1..], i);
      if |items| == 1 {
        assert items[1..] + [i] == [i];
      }
    }
  }

  lemma {:induction false} PrintIsPrintFrom(items: seq<Item>)
    ensures Print(items) == PrintFrom(items)
    decreases |items|
  {
    if items != [] {
      var front, last := items[..|items| - 1], items[|items| - 1];
      assert items == front + [last];
      PrintIsPrintFrom(front);
      PrintMore(front, last);
      PrintFromMore(front, last);
    }
  }

  lemma {:induction false} ItemsOfPrinted(c: string, k: nat, items: seq<Item>)
    requires k <= |c| && c[k..] == PrintFrom(items) && forall j: nat :: j < |items| ==> Printable(items[j])
    ensures Items(c, k) == items
    decreases |items|
  {
    hide Items, ItemText;
    if items == [] {
      NoItems(c);
    } else {
      var rest := if |items| == 1 then "" else [SEP] + PrintFrom(items[1..]);
      ReadsItem(c, k, items[0], rest);
      if |items| > 1 {
        Cut(c, k, ItemText(items[0]), rest);
        var at := k + |ItemText(items[0])|;
        Cut(c, at, [SEP], PrintFrom(items[1..]));
        assert |c[at..]| == |rest|;
        ItemsOfPrinted(c, at + 1, items[1..]);
        assert items == [items[0]] + items[1..];
      }
    }
  }

  lemma NoItems(c: string)
    ensures Items(c, |c|) == []
  {
  }

  /** Reading undoes printing, also where URIs contain `=`. */
  lemma ItemsOfPrint(items: seq<Item>)
    requires forall j: nat :: j < |items| ==> Printable(items[j])
    ensures Items(Print(items), 0) == items
  {
    PrintIsPrintFrom(items);
    ItemsOfPrinted(Print(items), 0, items);
  }

  /* ----- setting up ----- */

  /** The namespaces and open entities of a parser, as far as a context can set them. */
  datatype Setting = Setting(default: Maybe<string>, prefixes: map<string, string>, open: set<string>)

  const FRESH_SETTING := Setting(Nothing, map[], {})

  function NameOf(name: string): Maybe<string> {
    if name == "" then Nothing else Just(name)
  }

  /** The effect of `addBinding` on the namespace of a prefix, or nothing if it is refused. */
  function Bound(s: Setting, name: string, uri: string): Maybe<Setting> {
    if CheckDecl(NameOf(name), uri) != NoError then Nothing
    else if name == "" then Just(s.(default := if uri == "" then Nothing else Just(uri)))
    else Just(s.(prefixes := s.prefixes[name := uri]))
  }

  function Opened(s: Setting, name: string, known: set<string>): Setting {
    if name in known then s.(open := s.open + {name}) else s
  }

  /** The effect of items, up to the first that is refused. */
  function SetUp(items: seq<Item>, s: Setting, known: set<string>): (bool, Setting) {
    if items == [] then (true, s)
    else
      match items[0]
      case Entity(name) => SetUp(items[1..], Opened(s, name, known), known)
      case Bind(name, uri) =>
        var r := Bound(s, name, uri);
        if r.Nothing? then (false, s) else SetUp(items[1..], r.value, known)
  }

  lemma SetUpFirst(i: Item, rest: seq<Item>, s: Setting, known: set<string>)
    ensures SetUp([i] + rest, s, known) ==
            if i.Entity? then SetUp(rest, Opened(s, i.name, known), known)
            else
              var r := Bound(s, i.name, i.uri);
              if r.Nothing? then (false, s) else SetUp(rest, r.value, known)
  {
    assert ([i] + rest)[1..] == rest;
  }

  /** `setContext` */
  method SetContext(c: string, before: Setting, known: set<string>) returns (ok: bool, after: Setting)
    ensures (ok, after) == SetUp(Items(c, 0), before, known)
  {
    hide SetUp, Bound, Opened, Items;
    after := before;
    var context, s, pool := 0, 0, "";
    NoItems(c);
    NothingToSet(before, known);
    while context < |c|
      invariant context <= s <= |c| && pool == c[context..s]
      invariant forall j: nat :: context <= j < s ==> c[j] != '=' && c[j] != SEP
      invariant SetUp(Items(c, context), after, known) == SetUp(Items(c, 0), before, known)
      decreases |c| - context, |c| - s
    {
      if s == |c| || c[s] == SEP {
        ItemsAtEntity(c, context, s);
        SetUpFirst(Entity(pool), if s == |c| then [] else Items(c, s + 1), after, known);
        after := Opened(after, pool, known);
        if s < |c| {
          s := s + 1;
        }
        context := s;
        pool := "";
      } else if c[s] == '=' {
        var name := pool;
        ghost var start := context;
        context, pool := ReadUri(c, s + 1);
        NameEndIs(c, start, s);
        UriEndIs(c, s + 1, context);
        ItemsAt(c, start, s, context);
        SetUpFirst(Bind(name, pool), if context == |c| then [] else Items(c, context + 1), after, known);
        var r := Bound(after, name, pool);
        if r.Nothing? {
          return false, after;
        }
        after := r.value;
        if context < |c| {
          context := context + 1;
        }
        s := context;
        pool := "";
      } else {
        pool := pool + [c[s]];
        s := s + 1;
      }
    }
    NothingToSet(after, known);
    return true, after;
  }

  lemma NothingToSet(s: Setting, known: set<string>)
    ensures SetUp([], s, known) == (true, s)
  {
  }

  lemma ItemsAtEntity(c: string, k: nat, n: nat)
    requires k < |c| && k <= n <= |c| && (n < |c| ==> c[n] == SEP)
    requires forall j: nat :: k <= j < n ==> c[j] != '=' && c[j] != SEP
    ensures Items(c, k) == [Entity(c[k..n])] + if n == |c| then [] else Items(c, n + 1)
    ensures Items(c, |c|) == []
  {
    hide Items;
    NameEndIs(c, k, n);
    hide NameEnd;
    NoItems(c);
    EntityAt(c, k);
    if n == |c| {
      assert c[k..n] == c[k..];
    }
  }

  lemma EntityAt(c: string, k: nat)
    requires k < |c|
    ensures var n := NameEnd(c, k);
            && (n == |c| ==> Items(c, k) == [Entity(c[k..])])
            && (n < |c| && c[n] == SEP ==> Items(c, k) == [Entity(c[k..n])] + Items(c, n + 1))
  {
    hide NameEnd, UriEnd;
  }

  /** The loop over the characters of a URI. */
  method ReadUri(c: string, start: nat) returns (end: nat, uri: string)
    requires start <= |c|
    ensures start <= end <= |c| && uri == c[start..end] && (end < |c| ==> c[end] == SEP)
    ensures forall j: nat :: start <= j < end ==> c[j] != SEP
    ensures Items(c, |c|) == []
  {
    end, uri := start, "";
    while end < |c| && c[end] != SEP
      invariant start <= end <= |c| && uri == c[start..end]
      invariant forall j: nat :: start <= j < end ==> c[j] != SEP
    {
      uri := uri + [c[end]];
      end := end + 1;
    }
  }

  /* ----- one parser to the next ----- */

  /** What holds of the tables of a parser: each binding has passed `addBinding`, names are
      names, and prefixes are in the table once. */
  predicate WellFormed(t: Tables, known: set<string>) {
    && (t.default.Just? ==>
          && t.default.value != "" && SEP !in t.default.value
          && CheckDecl(Nothing, t.default.value) == NoError)
    && (forall k: nat :: k < |t.prefixes| ==>
          t.prefixes[k].0 != "" && Printable(Bind(t.prefixes[k].0, ""))
          && (t.prefixes[k].1.Just? ==> SEP !in t.prefixes[k].1.value
                                        && CheckDecl(Just(t.prefixes[k].0), t.prefixes[k].1.value) == NoError))
    && (forall j: nat, k: nat :: j < k < |t.prefixes| ==> t.prefixes[j].0 != t.prefixes[k].0)
    && (forall k: nat :: k < |t.entities| ==> Printable(Entity(t.entities[k].0)) && t.entities[k].0 in known)
  }

  /** The setting that the tables stand for, whatever the order of their slots. */
  ghost predicate Matches(s: Setting, t: Tables) {
    && s.default == t.default
    && (forall name: string, uri: string :: name in s.prefixes && s.prefixes[name] == uri <==>
        (name, Just(uri)) in t.prefixes)
    && (forall name: string :: name in s.open <==> (name, true) in t.entities)
  }

  lemma {:induction false} SetUpJoins(a: seq<Item>, b: seq<Item>, s: Setting, known: set<string>)
    ensures SetUp(a + b, s, known) == var r := SetUp(a, s, known); if r.0 then SetUp(b, r.1, known) else r
    decreases |a|
  {
    if a == [] {
      assert a + b == b;
    } else {
      assert (a + b)[1..] == a[1..] + b;
      match a[0]
      case Entity(name) => SetUpJoins(a[1..], b, Opened(s, name, known), known);
      case Bind(name, uri) =>
        var r := Bound(s, name, uri);
        if r.Just? {
          SetUpJoins(a[1..], b, r.value, known);
        }
    }
  }

  lemma {:induction false} SetUpPrefixes(t: Tables, k: nat, s: Setting, known: set<string>)
    requires WellFormed(t, known) && k <= |t.prefixes| && s.prefixes == map[]
    ensures var r := SetUp(BoundItems(t.prefixes[..k]), s, known);
            && r.0 && r.1.default == s.default && r.1.open == s.open
            && forall name: string, uri: string ::
                 name in r.1.prefixes && r.1.prefixes[name] == uri <==> (name, Just(uri)) in t.prefixes[..k]
  {
    var ps := t.prefixes[..k];
    if k > 0 {
      var front, last := ps[..k - 1], ps[k - 1];
      assert front == t.prefixes[..k - 1];
      assert ps == front + [last];
      SetUpPrefixes(t, k - 1, s, known);
      var r := SetUp(BoundItems(front), s, known).1;
      if last.1.Just? {
        var i := Bind(last.0, last.1.value);
        SetUpJoins(BoundItems(front), [i], s, known);
        SetUpFirst(i, [], r, known);
        assert [i] + [] == [i];
        forall name: string, uri: string | (name, Just(uri)) in front ensures name != last.0 {
          var j: nat :| j < |front| && front[j] == (name, Just(uri));
          assert t.prefixes[j].0 != t.prefixes[k - 1].0;
        }
      } else {
        assert BoundItems(ps) == BoundItems(front);
      }
    }
  }

  lemma {:induction false} SetUpEntities(t: Tables, k: nat, s: Setting, known: set<string>)
    requires WellFormed(t, known) && k <= |t.entities| && s.open == {}
    ensures var r := SetUp(OpenItems(t.entities[..k]), s, known);
            && r.0 && r.1.default == s.default && r.1.prefixes == s.prefixes
            && forall name: string :: name in r.1.open <==> (name, true) in t.entities[..k]
  {
    var es := t.entities[..k];
    if k > 0 {
      var front, last := es[..k - 1], es[k - 1];
      assert front == t.entities[..k - 1];
      assert es == front + [last];
      SetUpEntities(t, k - 1, s, known);
      var r := SetUp(OpenItems(front), s, known).1;
      if last.1 {
        var i := Entity(last.0);
        SetUpJoins(OpenItems(front), [i], s, known);
        SetUpFirst(i, [], r, known);
        assert [i] + [] == [i];
      } else {
        assert OpenItems(es) == OpenItems(front);
      }
    }
  }

  lemma {:induction false} ItemsArePrintable(t: Tables, known: set<string>, p: nat, e: nat)
    requires WellFormed(t, known) && p <= |t.prefixes| && e <= |t.entities|
    ensures forall i <- BoundItems(t.prefixes[..p]) :: Printable(i)
    ensures forall i <- OpenItems(t.entities[..e]) :: Printable(i)
    decreases p + e
  {
    if p > 0 {
      assert t.prefixes[..p][..p - 1] == t.prefixes[..p - 1];
      ItemsArePrintable(t, known, p - 1, e);
      assert Printable(Bind(t.prefixes[p - 1].0, ""));
    } else if e > 0 {
      assert t.entities[..e][..e - 1] == t.entities[..e - 1];
      ItemsArePrintable(t, known, p, e - 1);
    }
  }

  /**
   `setContext` undoes `getContext`: a fresh parser that knows the same entities gets the
   default namespace, the namespaces of all prefixes and the open entities of the parser
   that printed the context.
   */
  lemma SetUndoesGet(t: Tables, known: set<string>)
    requires WellFormed(t, known)
    ensures var r := SetUp(Items(Print(ItemsOf(t)), 0), FRESH_SETTING, known); r.0 && Matches(r.1, t)
  {
    hide SetUp, WellFormed, Print, Items, BoundItems, OpenItems;
    assert t.prefixes[..|t.prefixes|] == t.prefixes && t.entities[..|t.entities|] == t.entities;
    ItemsArePrintable(t, known, |t.prefixes|, |t.entities|);
    DefaultItem(t, known);
    var d := if t.default.Just? then [Bind("", t.default.value)] else [];
    var ps, es := BoundItems(t.prefixes), OpenItems(t.entities);
    assert forall j: nat :: j < |ItemsOf(t)| ==> ItemsOf(t)[j] in d || ItemsOf(t)[j] in ps || ItemsOf(t)[j] in es;
    ItemsOfPrint(ItemsOf(t));
    SetUpJoins(d, ps + es, FRESH_SETTING, known);
    assert d + (ps + es) == ItemsOf(t);
    var s := SetUp(d, FRESH_SETTING, known).1;
    SetUpJoins(ps, es, s, known);
    SetUpPrefixes(t, |t.prefixes|, s, known);
    SetUpEntities(t, |t.entities|, SetUp(ps, s, known).1, known);
  }

  lemma DefaultItem(t: Tables, known: set<string>)
    requires WellFormed(t, known)
    ensures var d := if t.default.Just? then [Bind("", t.default.value)] else [];
            (forall i <- d :: Printable(i))
              && SetUp(d, FRESH_SETTING, known) == (true, FRESH_SETTING.(default := t.default))
  {
    if t.default.Just? {
      var i := Bind("", t.default.value);
      SetUpFirst(i, [], FRESH_SETTING, known);
      assert [i] + [] == [i];
    }
  }

  /** The order in which the hash tables are walked does not matter. */
  lemma OrderDoesNotMatter(t: Tables, t': Tables, known: set<string>)
    requires WellFormed(t, known) && WellFormed(t', known) && t.default == t'.default
    requires forall p :: p in t.prefixes <==> p in t'.prefixes
    requires forall e :: e in t.entities <==> e in t'.entities
    ensures SetUp(Items(Print(ItemsOf(t)), 0), FRESH_SETTING, known) ==
              SetUp(Items(Print(ItemsOf(t')), 0), FRESH_SETTING, known)
  {
    hide SetUp, WellFormed, Print, Items, ItemsOf;
    SetUndoesGet(t, known);
    SetUndoesGet(t', known);
    var r := SetUp(Items(Print(ItemsOf(t)), 0), FRESH_SETTING, known).1;
    var r' := SetUp(Items(Print(ItemsOf(t')), 0), FRESH_SETTING, known).1;
    SamePrefixes(r, r', t, t');
    assert r.open == r'.open;
  }

  lemma SamePrefixes(r: Setting, r': Setting, t: Tables, t': Tables)
    requires Matches(r, t) && Matches(r', t') && forall p :: p in t.prefixes <==> p in t'.prefixes
    ensures r.prefixes == r'.prefixes
  {
    forall name <- r.prefixes ensures name in r'.prefixes && r'.prefixes[name] == r.prefixes[name] {
      assert (name, Just(r.prefixes[name])) in t'.prefixes;
    }
    forall name <- r'.prefixes ensures name in r.prefixes {
      assert (name, Just(r'.prefixes[name])) in t.prefixes;
    }
  }
}
