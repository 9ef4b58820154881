/**
 Namespace bindings: lists of bindings that hang on open tags and on prefixes at once, and
 are put back when a tag is closed (Namespaces in XML 1.0, sections 6.1 and 6.2).
 */
module XmlNamespace {
  import opened Wrappers

  class Prefix {
    /** Nothing for the default namespace. */
    const name: Maybe<string>
    var binding: Binding?

    constructor (name: Maybe<string>)
      ensures this.name == name && binding == null
    {
      this.name := name;
      binding := null;
    }
  }

  class Binding {
    var prefix: Prefix
    var uri: string
    var nextTagBinding: Binding?
    var prevPrefixBinding: Binding?

    constructor (prefix: Prefix, uri: string)
      ensures this.prefix == prefix && this.uri == uri
    {
      this.prefix := prefix;
      this.uri := uri;
      nextTagBinding, prevPrefixBinding := null, null;
    }
  }

  /* ----- which declarations are allowed ----- */

  datatype Error = NoError | UndeclaringPrefix | ReservedPrefixXmlns | ReservedPrefixXml | ReservedNamespaceUri

  const XML_NAMESPACE := "http://www.w3.org/XML/1998/namespace"
  const XMLNS_NAMESPACE := "http://www.w3.org/2000/xmlns/"

  /** The constraints on declarations of Namespaces in XML 1.0, section 3. */
  function CheckDecl(name: Maybe<string>, uri: string): Error {
    if uri == "" && name.Just? then UndeclaringPrefix
    else if name == Just("xmlns") then ReservedPrefixXmlns
    else if name == Just("xml") then if uri == XML_NAMESPACE then NoError else ReservedPrefixXml
    else if uri == XML_NAMESPACE || uri == XMLNS_NAMESPACE then ReservedNamespaceUri
    else NoError
  }

  /** The declarations that are allowed: `xml` stands for its own namespace and nothing else
      does, `xmlns` is not declared and its namespace not used, and only the default namespace
      can be undeclared. */
  lemma Allowed(name: Maybe<string>, uri: string)
    ensures CheckDecl(name, uri) == NoError <==>
            && (uri == "" ==> name.Nothing?)
            && name != Just("xmlns") && uri != "http://www.w3.org/2000/xmlns/"
            && (name == Just("xml") <==> uri == "http://www.w3.org/XML/1998/namespace")
  {
    assert |XML_NAMESPACE| != |XMLNS_NAMESPACE|;
    assert |"xml"| != |"xmlns"|;
  }

  /** The character of a string at `k`, or its terminator. */
  function At(s: string, k: nat): char {
    if k < |s| then s[k] else '\0'
  }

  lemma EqualByPrefix(s: string, t: string)
    requires '\0' !in s
    ensures (|s| == |t| && forall k: nat :: k < |s| ==> s[k] == At(t, k)) <==> s == t
  {
  }

  /** The loop over the characters of the URI. */
  method CompareUri(uri: string, mustBeXML: bool, xml: string, xmlns: string) returns (isXML: bool, isXMLNS: bool)
    requires '\0' !in uri
    ensures isXML <==> uri == xml
    ensures isXMLNS <==> (if mustBeXML then |uri| == |xmlns| else uri == xmlns)
  {
    isXML, isXMLNS := true, true;
    var len := 0;
    while len < |uri|
      invariant len <= |uri|
      invariant isXML <==> forall k: nat :: k < len ==> uri[k] == At(xml, k)
      invariant mustBeXML ==> isXMLNS
      invariant !mustBeXML ==> (isXMLNS <==> forall k: nat :: k < len ==> uri[k] == At(xmlns, k))
    {
      assert uri[len] in uri;
      if isXML && (len > |xml| || uri[len] != At(xml, len)) {
        isXML := false;
      }
      if !mustBeXML && isXMLNS && (len > |xmlns| || uri[len] != At(xmlns, len)) {
        isXMLNS := false;
      }
      len := len + 1;
    }
    EqualByPrefix(uri, xml);
    EqualByPrefix(uri, xmlns);
    isXML := isXML && len == |xml|;
    isXMLNS := isXMLNS && len == |xmlns|;
  }

  /** The tests at the start of `addBinding`. */
  method CheckBinding(name: Maybe<string>, uri: string) returns (error: Error)
    requires '\0' !in uri && (name.Just? ==> '\0' !in name.value)
    ensures error == CheckDecl(name, uri)
  {
    var mustBeXML, isXML, isXMLNS := false, true, true;
    if uri == "" && name.Just? {
      return UndeclaringPrefix;
    }
    if name.Just? && At(name.value, 0) == 'x' && At(name.value, 1) == 'm' && At(name.value, 2) == 'l' {
      var n := name.value;
      assert n[..3] == "xml";
      assert n == n[..3] + n[3..];
      if At(n, 3) == 'n' && At(n, 4) == 's' && At(n, 5) == '\0' {
        assert n == "xmlns";
        return ReservedPrefixXmlns;
      }
      if At(n, 3) == '\0' {
        assert n == "xml";
        mustBeXML := true;
      }
    }
    isXML, isXMLNS := CompareUri(uri, mustBeXML, XML_NAMESPACE, XMLNS_NAMESPACE);
    if mustBeXML != isXML {
      return if mustBeXML then ReservedPrefixXml else ReservedNamespaceUri;
    }
    if isXMLNS {
      return ReservedNamespaceUri;
    }
    return NoError;
  }

  /* ----- what is in scope ----- */

  datatype Decl = Decl(prefix: Prefix, uri: string)

  /** The default namespace is undeclared by an empty URI. */
  predicate Undeclares(d: Decl) {
    d.prefix.name.Nothing? && d.uri == ""
  }

  /** Only the default namespace is ever declared with an empty URI. */
  ghost predicate OnlyDefaultIsEmpty(log: seq<Decl>) {
    forall i: nat :: i < |log| && log[i].uri == "" ==> log[i].prefix.name.Nothing?
  }

  /** The last of the first `n` declarations for the prefix. */
  function LastFor(log: seq<Decl>, n: nat, p: Prefix): (k: int)
    requires n <= |log|
    ensures -1 <= k < n && (k >= 0 ==> log[k].prefix == p)
    ensures forall j: nat :: k < j < n ==> log[j].prefix != p
  {
    if n == 0 then -1 else if log[n - 1].prefix == p then n - 1 else LastFor(log, n - 1, p)
  }

  /** The namespace that the first `n` declarations give to the prefix. */
  function UriOf(log: seq<Decl>, n: nat, p: Prefix): Maybe<string>
    requires n <= |log|
  {
    var k := LastFor(log, n, p);
    if k < 0 || Undeclares(log[k]) then Nothing else Just(log[k].uri)
  }

  /** The binding that belongs to it. */
  function BindingOf(decls: seq<Binding>, log: seq<Decl>, n: nat, p: Prefix): Binding?
    requires n <= |log| && |decls| == |log|
  {
    var k := LastFor(log, n, p);
    if k < 0 || Undeclares(log[k]) then null else decls[k]
  }

  /**
   The same by the tags: `marks` says where the declarations of each open tag begin, and
   what is before them has been inherited. The innermost tag that declares the prefix
   counts (sections 6.1 and 6.2).
   */
  function InScope(log: seq<Decl>, marks: seq<nat>, n: nat, p: Prefix): Maybe<string>
    requires n <= |log| && forall k: nat :: k < |marks| ==> marks[k] <= n
    requires forall j: nat, k: nat :: j < k < |marks| ==> marks[j] <= marks[k]
    decreases |marks|
  {
    var lo := if marks == [] then 0 else marks[|marks| - 1];
    if LastFor(log[lo..n], n - lo, p) >= 0 then UriOf(log[lo..n], n - lo, p)
    else if marks == [] then Nothing
    else InScope(log, marks[..|marks| - 1], lo, p)
  }

  lemma {:induction false} LastForSlice(log: seq<Decl>, lo: nat, n: nat, p: Prefix)
    requires lo <= n <= |log|
    ensures var k := LastFor(log[lo..n], n - lo, p);
            if k >= 0 then LastFor(log, n, p) == lo + k else LastFor(log, n, p) == LastFor(log, lo, p)
  {
    var s := log[lo..n];
    var k := LastFor(s, n - lo, p);
    LastForIs(log, n, p);
    LastForIs(log, lo, p);
    LastForIs(s, n - lo, p);
    forall j: nat | j < n - lo ensures s[j] == log[lo + j] {
    }
    if k >= 0 {
      assert log[lo + k] == s[k];
      forall j: nat | lo + k < j < n ensures log[j].prefix != p {
        assert log[j] == s[j - lo];
      }
      OnlyLast(log, n, p, lo + k);
    } else {
      forall j: nat | lo <= j < n ensures log[j].prefix != p {
        assert log[j] == s[j - lo];
      }
      if LastFor(log, lo, p) >= 0 {
        OnlyLast(log, n, p, LastFor(log, lo, p));
      }
    }
  }

  lemma LastForIs(log: seq<Decl>, n: nat, p: Prefix)
    requires n <= |log|
    ensures LastFor(log, n, p) < 0 <==> forall j: nat :: j < n ==> log[j].prefix != p
  {
  }

  lemma OnlyLast(log: seq<Decl>, n: nat, p: Prefix, k: nat)
    requires k < n <= |log| && log[k].prefix == p && forall j: nat :: k < j < n ==> log[j].prefix != p
    ensures LastFor(log, n, p) == k
  {
  }

  /** Tag by tag or all at once, the namespace of a prefix is the same. */
  lemma {:induction false} InnermostIsLast(log: seq<Decl>, marks: seq<nat>, n: nat, p: Prefix)
    requires n <= |log| && forall k: nat :: k < |marks| ==> marks[k] <= n
    requires forall j: nat, k: nat :: j < k < |marks| ==> marks[j] <= marks[k]
    ensures InScope(log, marks, n, p) == UriOf(log, n, p)
    decreases |marks|
  {
    var lo := if marks == [] then 0 else marks[|marks| - 1];
    LastForSlice(log, lo, n, p);
    var j := LastFor(log[lo..n], n - lo, p);
    if j >= 0 {
      assert log[lo..n][j] == log[lo + j];
    } else if marks != [] {
      InnermostIsLast(log, marks[..|marks| - 1], lo, p);
    }
  }

  /* ----- the lists ----- */

  /** The binding behind `decls[i]` in its list: the one before it, unless a tag begins here. */
  function NextOf(decls: seq<Binding>, marks: seq<nat>, i: nat): Binding?
    requires i < |decls|
  {
    if i == 0 || i in marks then null else decls[i - 1]
  }

  /** The first binding of the list that ends with the first `n` declarations and began at `lo`. */
  function Head(decls: seq<Binding>, lo: nat, n: nat): Binding?
    requires lo <= n <= |decls|
  {
    if lo == n then null else decls[n - 1]
  }

  function StartOf(marks: seq<nat>, k: nat): nat
    requires k <= |marks|
  {
    if k == 0 then 0 else marks[k - 1]
  }

  function EndOf(marks: seq<nat>, k: nat, n: nat): nat
    requires k <= |marks|
  {
    if k == |marks| then n else marks[k]
  }

  predicate Sorted(marks: seq<nat>, n: nat) {
    && (forall k: nat :: k < |marks| ==> marks[k] <= n)
    && forall j: nat, k: nat :: j < k < |marks| ==> marks[j] <= marks[k]
  }

  predicate Distinct(a: seq<Binding>, b: seq<Binding>) {
    && (forall i: nat, j: nat :: i < j < |a| ==> a[i] != a[j])
    && (forall i: nat, j: nat :: i < j < |b| ==> b[i] != b[j])
    && forall i: nat, j: nat :: i < |a| && j < |b| ==> a[i] != b[j]
  }

  lemma MarkMore(decls: seq<Binding>, marks: seq<nat>)
    requires Sorted(marks, |decls|)
    ensures Sorted(marks + [|decls|], |decls|)
    ensures forall i: nat :: i < |decls| ==> NextOf(decls, marks + [|decls|], i) == NextOf(decls, marks, i)
  {
  }

  /**
   The bindings of a parser. `lists` are the heads of the lists of the inherited bindings and
   of each open tag; `decls` are all bindings in force in the order of their declaration, and
   `free` the others.
   */
  class Bindings {
    const defaultPrefix: Prefix
    var lists: seq<Binding?>
    var freeBindingList: Binding?
    ghost var prefixes: set<Prefix>
    ghost var decls: seq<Binding>
    ghost var log: seq<Decl>
    ghost var marks: seq<nat>
    ghost var free: seq<Binding>

    /** The bindings and their fields. */
    ghost predicate Linked()
      reads this, decls, free
    {
      && |decls| == |log| && Sorted(marks, |log|) && Distinct(decls, free)
      && (forall i: nat :: i < |decls| ==> decls[i].prefix == log[i].prefix && decls[i].uri == log[i].uri)
      && (forall i: nat :: i < |decls| ==> decls[i].prevPrefixBinding == BindingOf(decls, log, i, log[i].prefix))
      && (forall i: nat :: i < |decls| ==> decls[i].nextTagBinding == NextOf(decls, marks, i))
      && (forall i: nat :: i < |free| ==> free[i].nextTagBinding == NextOf(free, [], i))
    }

    /** The heads of the lists. */
    ghost predicate Listed()
      reads this
    {
      && |decls| == |log| && Sorted(marks, |log|) && |lists| == |marks| + 1
      && (forall k: nat :: k <= |marks| ==> lists[k] == Head(decls, StartOf(marks, k), EndOf(marks, k, |log|)))
      && freeBindingList == Head(free, 0, |free|)
    }

    /** The prefixes, each with the binding in force. */
    ghost predicate Bound()
      reads this, prefixes
    {
      && |decls| == |log|
      && defaultPrefix in prefixes && defaultPrefix.name.Nothing?
      && (forall p <- prefixes :: p.name.Nothing? ==> p == defaultPrefix)
      && (forall i: nat :: i < |log| ==> log[i].prefix in prefixes)
      && (forall p <- prefixes :: p.binding == BindingOf(decls, log, |log|, p))
      && OnlyDefaultIsEmpty(log)
    }

    ghost predicate Valid()
      reads this, decls, free, prefixes
    {
      Linked() && Listed() && Bound()
    }

    constructor (defaultPrefix: Prefix, ghost prefixes: set<Prefix>)
      requires defaultPrefix in prefixes && defaultPrefix.name.Nothing?
      requires forall p <- prefixes :: p.binding == null && (p.name.Nothing? ==> p == defaultPrefix)
      ensures Valid() && log == [] && marks == [] && this.defaultPrefix == defaultPrefix && this.prefixes == prefixes
    {
      this.defaultPrefix := defaultPrefix;
      lists, freeBindingList := [null], null;
      this.prefixes, decls, log, marks, free := prefixes, [], [], [], [];
    }

    /** A start tag: an empty list. */
    method OpenTag()
      requires Valid()
      modifies this
      ensures Valid() && log == old(log) && decls == old(decls) && marks == old(marks) + [|log|]
      ensures prefixes == old(prefixes) && free == old(free)
    {
      hide LastFor, BindingOf, NextOf, Distinct;
      MarkMore(decls, marks);
      lists := lists + [null];
      marks := marks + [|log|];
    }

    /** One declaration more. */
    twostate lemma Added(new b: Binding, new d: Decl)
      requires old(Linked())
      requires decls == old(decls) + [b] && log == old(log) + [d] && marks == old(marks)
      requires |free| <= |old(free)| && free == old(free)[..|free|]
      requires b !in old(decls) && b !in free
      requires forall x <- old(decls) :: unchanged(x)
      requires forall x <- free :: unchanged(x)
      requires b.prefix == d.prefix && b.uri == d.uri
      requires b.prevPrefixBinding == BindingOf(old(decls), old(log), |old(log)|, d.prefix)
      requires b.nextTagBinding == Head(old(decls), StartOf(marks, |marks|), |old(log)|)
      ensures Linked()
    {
      hide LastFor, BindingOf, NextOf, Distinct;
      DeclMore(old(decls), old(log), b, d, marks);
      FreeShorter(old(free), |free|);
      DistinctMore(old(decls), old(free), b, free);
      forall i: nat | i < |decls| - 1 ensures decls[i] == old(decls[i]) && unchanged(decls[i]) {
        assert old(decls[i]) in old(decls);
      }
      forall i: nat | i < |free| ensures free[i] == old(free[i]) && unchanged(free[i]) {
        assert free[i] in free;
      }
    }

    /** A binding from the free list, or a new one. */
    method TakeBinding(prefix: Prefix, uri: string) returns (b: Binding)
      requires freeBindingList == Head(free, 0, |free|) && Distinct(decls, free)
      requires free != [] ==> free[|free| - 1].nextTagBinding == Head(free[..|free| - 1], 0, |free| - 1)
      modifies this`freeBindingList, this`free, if freeBindingList == null then {} else {freeBindingList}
      ensures b.prefix == prefix && b.uri == uri && b !in decls && b !in free
      ensures freeBindingList == Head(free, 0, |free|)
      ensures if old(free) == [] then fresh(b) && free == []
              else b == old(freeBindingList) && b == old(free)[|old(free)| - 1] && free == old(free)[..|old(free)| - 1]
    {
      TakenIsApart(decls, free);
      if freeBindingList != null {
        b := freeBindingList;
        freeBindingList := b.nextTagBinding;
        b.prefix, b.uri := prefix, uri;
        free := free[..|free| - 1];
      } else {
        b := new Binding(prefix, uri);
      }
    }

    lemma LinkedParts()
      requires Linked()
      ensures Distinct(decls, free)
      ensures |decls| == |log| && Sorted(marks, |log|)
      ensures free != [] ==> free[|free| - 1].nextTagBinding == Head(free[..|free| - 1], 0, |free| - 1)
    {
      if free != [] {
        FreeShorter(free, |free| - 1);
      }
    }

    lemma ListedParts()
      requires Listed()
      ensures |decls| == |log| && Sorted(marks, |log|) && |lists| == |marks| + 1
      ensures lists[|marks|] == Head(decls, StartOf(marks, |marks|), |log|)
      ensures freeBindingList == Head(free, 0, |free|)
    {
    }

    lemma BoundParts(p: Prefix)
      requires Bound() && p in prefixes
      ensures |decls| == |log| && p.binding == BindingOf(decls, log, |log|, p)
      ensures p.name.Nothing? <==> p == defaultPrefix
    {
    }

    /** The lists with one declaration more. */
    twostate lemma AddedListed(new b: Binding, new d: Decl)
      requires old(Listed())
      requires decls == old(decls) + [b] && log == old(log) + [d] && marks == old(marks)
      requires lists == old(lists)[|marks| := b] && freeBindingList == Head(free, 0, |free|)
      ensures Listed()
    {
    }

    /** The prefixes with one declaration more. */
    twostate lemma AddedBound(prefix: Prefix, new b: Binding, new d: Decl)
      requires old(Bound()) && |old(decls)| == |old(log)| && Sorted(marks, |old(log)|)
      requires decls == old(decls) + [b] && log == old(log) + [d] && prefixes == old(prefixes) && prefix in prefixes
      requires d.prefix == prefix && prefix.binding == if Undeclares(d) then null else b
      requires forall p <- prefixes :: p != prefix ==> p.binding == old(p.binding)
      requires d.uri == "" ==> prefix.name.Nothing?
      ensures Bound()
    {
      hide LastFor, BindingOf, NextOf;
      DeclMore(old(decls), old(log), b, d, marks);
    }

    /** The part of `addBinding` that changes the lists. */
    method PushBinding(prefix: Prefix, uri: string)
      requires Linked() && Listed() && Bound() && prefix in prefixes && (uri == "" ==> prefix.name.Nothing?)
      modifies this, prefix, free
      ensures Linked() && Listed() && Bound() && prefixes == old(prefixes) && marks == old(marks)
      ensures log == old(log) + [Decl(prefix, uri)] && |decls| == |old(decls)| + 1
              && decls[..|old(decls)|] == old(decls)
      ensures free == if old(free) == [] then [] else old(free)[..|old(free)| - 1]
      ensures if old(free) == [] then fresh(decls[|old(decls)|]) else decls[|old(decls)|] == old(free)[|old(free)| - 1]
      ensures if uri == "" then prefix.binding == null
              else prefix.binding == decls[|old(decls)|] && decls[|old(decls)|].uri == uri
    {
      hide LastFor, BindingOf, NextOf, Linked, Distinct, Listed, Bound, StartOf, EndOf, Sorted;
      LinkedParts();
      ListedParts();
      BoundParts(prefix);
      var b := TakeBinding(prefix, uri);
      b.prevPrefixBinding := prefix.binding;
      if uri == "" && prefix == defaultPrefix {
        prefix.binding := null;
      } else {
        prefix.binding := b;
      }
      b.nextTagBinding := lists[|lists| - 1];
      lists := lists[|lists| - 1 := b];
      decls := decls + [b];
      log := log + [Decl(prefix, uri)];
      Added(b, Decl(prefix, uri));
      AddedListed(b, Decl(prefix, uri));
      AddedBound(prefix, b, Decl(prefix, uri));
    }

    /** `addBinding`, for the tag that was opened last or, before that, for the inherited bindings. */
    method AddBinding(prefix: Prefix, uri: string) returns (error: Error)
      requires Valid() && prefix in prefixes
      requires '\0' !in uri && (prefix.name.Just? ==> '\0' !in prefix.name.value)
      modifies this, prefix, free
      ensures Valid() && prefixes == old(prefixes) && marks == old(marks)
      ensures error == CheckDecl(prefix.name, uri)
      ensures error != NoError ==>
                && log == old(log) && decls == old(decls) && free == old(free)
                && prefix.binding == old(prefix.binding)
      ensures error == NoError ==>
                && log == old(log) + [Decl(prefix, uri)]
                && |decls| == |old(decls)| + 1 && decls[..|old(decls)|] == old(decls)
                && free == (if old(free) == [] then [] else old(free)[..|old(free)| - 1])
                && (if old(free) == [] then fresh(decls[|old(decls)|])
                    else decls[|old(decls)|] == old(free)[|old(free)| - 1])
      ensures error == NoError ==>
                && (prefix.binding == null <==> uri == "")
                && (uri != "" ==> prefix.binding == decls[|old(decls)|] && prefix.binding.uri == uri)
    {
      hide CheckDecl, Linked, Listed, Bound;
      error := CheckBinding(prefix.name, uri);
      if error == NoError {
        Allowed(prefix.name, uri);
        PushBinding(prefix, uri);
      }
    }

    /** The newest declaration is gone. */
    twostate lemma Removed()
      requires old(Linked()) && old(decls) != [] && Sorted(marks, |old(log)| - 1) && marks == old(marks)
      requires decls == old(decls)[..|old(decls)| - 1] && log == old(log)[..|old(decls)| - 1]
      requires free == old(free) + [old(decls)[|old(decls)| - 1]]
      requires forall x <- decls :: unchanged(x)
      requires forall x <- old(free) :: unchanged(x)
      requires free[|free| - 1].nextTagBinding == Head(old(free), 0, |old(free)|)
      ensures Linked()
    {
      hide LastFor, BindingOf, NextOf, Distinct;
      var n := |decls|;
      var b := old(decls)[n];
      DeclMore(decls, log, b, old(log)[n], marks);
      assert old(decls) == decls + [b] && old(log) == log + [old(log)[n]];
      FreeShorter(free, |free| - 1);
      assert free[..|free| - 1] == old(free);
      FreeGrown(old(free), b);
      DistinctMoved(decls, b, old(free));
      forall i: nat | i < |decls| ensures decls[i] == old(decls[i]) && unchanged(decls[i]) {
        assert decls[i] in decls;
      }
      forall i: nat | i < |old(free)| ensures free[i] == old(free)[i] && unchanged(free[i]) {
        assert old(free)[i] in old(free);
      }
    }

    twostate lemma RemovedListed()
      requires old(Listed()) && old(decls) != [] && Sorted(marks, |old(log)| - 1) && marks == old(marks)
      requires decls == old(decls)[..|old(decls)| - 1] && log == old(log)[..|old(decls)| - 1]
      requires |lists| == |marks| + 1 && lists[..|marks|] == old(lists)[..|marks|]
      requires lists[|marks|] == Head(decls, StartOf(marks, |marks|), |log|)
      requires freeBindingList == Head(free, 0, |free|)
      ensures Listed()
    {
      forall k: nat | k < |marks| ensures lists[k] == old(lists)[k] {
        assert lists[k] == lists[..|marks|][k];
      }
    }

    twostate lemma RemovedBound(prefix: Prefix)
      requires old(Bound()) && |old(decls)| == |old(log)| && |old(decls)| > 0 && Sorted(marks, |old(log)| - 1)
      requires decls == old(decls)[..|old(decls)| - 1] && log == old(log)[..|old(decls)| - 1]
               && prefixes == old(prefixes)
      requires prefix == old(log)[|old(log)| - 1].prefix
               && prefix.binding == BindingOf(old(decls), old(log), |log|, prefix)
      requires forall p <- prefixes :: p != prefix ==> p.binding == old(p.binding)
      ensures Bound()
    {
      hide LastFor, BindingOf, NextOf;
      var n := |decls|;
      DeclMore(decls, log, old(decls)[n], old(log)[n], marks);
      assert old(decls) == decls + [old(decls)[n]] && old(log) == log + [old(log)[n]];
    }

    lemma LastDecl()
      requires Linked() && Bound() && decls != []
      ensures var b, d := decls[|decls| - 1], log[|log| - 1];
              && b.prefix == d.prefix && d.prefix in prefixes
              && b.prevPrefixBinding == BindingOf(decls, log, |log| - 1, d.prefix)
              && b.nextTagBinding == NextOf(decls, marks, |decls| - 1)
    {
    }

    /** One turn of the loop at an end tag. */
    method PopBinding()
      requires Linked() && Listed() && Bound() && lists[|marks|] != null
      modifies this, decls, prefixes
      ensures Linked() && Listed() && Bound() && prefixes == old(prefixes) && marks == old(marks)
      ensures Sorted(marks, |old(log)|) && StartOf(marks, |marks|) < |old(log)| == |old(decls)|
      ensures log == old(log)[..|old(log)| - 1] && decls == old(decls)[..|old(decls)| - 1]
      ensures free == old(free) + [old(decls)[|old(decls)| - 1]]
    {
      hide LastFor, BindingOf, NextOf, Linked, Distinct, Listed, Bound;
      LinkedParts();
      ListedParts();
      LastDecl();
      PopMarks(decls, log, marks);
      var b := lists[|lists| - 1];
      lists := lists[|lists| - 1 := b.nextTagBinding];
      b.nextTagBinding := freeBindingList;
      freeBindingList := b;
      b.prefix.binding := b.prevPrefixBinding;
      free := free + [b];
      decls := decls[..|decls| - 1];
      log := log[..|log| - 1];
      BindingIsNotFree(old(decls), old(free));
      Removed();
      RemovedListed();
      RemovedBound(b.prefix);
    }

    /** The loop at an end tag. */
    method PopList()
      requires Linked() && Listed() && Bound() && |marks| > 0
      modifies this, decls, prefixes
      ensures Linked() && Listed() && Bound() && prefixes == old(prefixes) && marks == old(marks)
      ensures marks[|marks| - 1] <= |old(log)| == |old(decls)|
      ensures |log| == marks[|marks| - 1] && log == old(log)[..|log|] && decls == old(decls)[..|log|]
      ensures multiset(decls) + multiset(free) == multiset(old(decls)) + multiset(old(free))
    {
      hide LastFor, BindingOf, NextOf, Linked, Distinct, Listed, Bound, Sorted;
      LastMark();
      while lists[|lists| - 1] != null
        invariant Linked() && Listed() && Bound() && prefixes == old(prefixes) && marks == old(marks)
        invariant |lists| == |marks| + 1 && |decls| == |log| <= |old(log)| == |old(decls)|
        invariant lists[|marks|] == null <==> |decls| == marks[|marks| - 1]
        invariant log == old(log)[..|log|] && decls == old(decls)[..|decls|]
        invariant forall x <- decls :: x in old(decls)
        invariant multiset(decls) + multiset(free) == multiset(old(decls)) + multiset(old(free))
        decreases |decls|
      {
        ghost var was := decls;
        PopBinding();
        assert was == decls + [was[|was| - 1]];
        LastMark();
      }
    }

    /** An end tag: what the tag declared is undone, and its bindings become free. */
    method CloseTag()
      requires Valid() && |marks| > 0
      modifies this, decls, prefixes
      ensures Valid() && prefixes == old(prefixes) && marks == old(marks)[..|old(marks)| - 1]
      ensures old(marks)[|marks|] <= |old(log)| == |old(decls)|
      ensures log == old(log)[..old(marks)[|marks|]] && decls == old(decls)[..old(marks)[|marks|]]
      ensures multiset(decls) + multiset(free) == multiset(old(decls)) + multiset(old(free))
    {
      hide Linked, Listed, Bound;
      PopList();
      DropList();
    }

    lemma LastMark()
      requires Listed() && |marks| > 0
      ensures |lists| == |marks| + 1 && marks[|marks| - 1] <= |log| == |decls|
      ensures lists[|marks|] == null <==> |decls| == marks[|marks| - 1]
    {
    }

    /** The last list is empty and is dropped. */
    method DropList()
      requires Linked() && Listed() && Bound() && |marks| > 0 && marks[|marks| - 1] == |log|
      modifies this`lists, this`marks
      ensures Linked() && Listed() && Bound() && marks == old(marks)[..|old(marks)| - 1]
    {
      hide LastFor, BindingOf, NextOf, Distinct;
      lists := lists[..|lists| - 1];
      marks := marks[..|marks| - 1];
      assert old(marks) == marks + [|decls|];
      MarkMore(decls, marks);
    }

    ghost function Now(): State
      reads this
    {
      State(log, marks, decls)
    }

    /** A binding of this parser or a new one. */
    twostate predicate Owned(new b: Binding)
      reads this
    {
      b in old(decls) || b in old(free) || fresh(b)
    }

    /** One tag or declaration. */
    method Perform(op: Op) returns (error: Error)
      requires Valid() && (op.Close? ==> |marks| > 0) && (op.Declare? ==> Usable(op.decl, prefixes))
      modifies this, prefixes, decls, free
      ensures Valid() && prefixes == old(prefixes)
      ensures error == Refusal(op)
      ensures error == NoError ==> Steps(old(Now()), op, Now())
      ensures (forall k: nat :: k < |decls| ==> Owned(decls[k])) && forall k: nat :: k < |free| ==> Owned(free[k])
    {
      hide Linked, Listed, Bound, CheckDecl;
      error := NoError;
      match op
      case Open =>
        OpenTag();
      case Declare(d) =>
        error := AddBinding(d.prefix, d.uri);
        if error == NoError {
          AddedIsOwned();
        }
      case Close =>
        CloseTag();
        MovedIsOwned();
    }

    twostate lemma AddedIsOwned()
      requires |decls| == |old(decls)| + 1 && decls[..|old(decls)|] == old(decls)
      requires free == if old(free) == [] then [] else old(free)[..|old(free)| - 1]
      requires var b := decls[|old(decls)|]; if old(free) == [] then fresh(b) else b == old(free)[|old(free)| - 1]
      ensures (forall k: nat :: k < |decls| ==> Owned(decls[k])) && forall k: nat :: k < |free| ==> Owned(free[k])
    {
      assert decls == old(decls) + [decls[|old(decls)|]];
    }

    twostate lemma MovedIsOwned()
      requires multiset(decls) + multiset(free) == multiset(old(decls)) + multiset(old(free))
      ensures (forall k: nat :: k < |decls| ==> Owned(decls[k])) && forall k: nat :: k < |free| ==> Owned(free[k])
    {
      forall b | b in decls || b in free ensures Owned(b) {
        assert b in multiset(decls) + multiset(free);
        assert b in multiset(old(decls)) || b in multiset(old(free));
      }
    }

    /** The tags and declarations of a document, up to one that is refused. */
    method Process(ops: seq<Op>) returns (error: Error, ghost trace: seq<State>)
      requires Valid() && Closable(ops, |marks|)
      requires forall i: nat :: i < |ops| && ops[i].Declare? ==> Usable(ops[i].decl, prefixes)
      modifies this, prefixes, decls, free
      ensures Valid() && prefixes == old(prefixes)
      ensures error == NoError <==> forall i: nat :: i < |ops| ==> Refusal(ops[i]) == NoError
      ensures error == NoError ==> Runs(trace, ops) && trace[0] == old(Now()) && trace[|ops|] == Now()
    {
      hide Linked, Listed, Bound, Refusal, Steps;
      error, trace := NoError, [Now()];
      var i := 0;
      assert ops[0..] == ops;
      while i < |ops|
        invariant i <= |ops| && Valid() && prefixes == old(prefixes) && Closable(ops[i..], |marks|)
        invariant forall k: nat :: k < i ==> Refusal(ops[k]) == NoError
        invariant error == NoError && Runs(trace, ops[..i]) && trace[0] == old(Now()) && trace[i] == Now()
        invariant forall k: nat :: k < |decls| ==> Owned(decls[k])
        invariant forall k: nat :: k < |free| ==> Owned(free[k])
      {
        ghost var s := Now();
        assert ops[i..][0] == ops[i] && ops[i..][1..] == ops[i + 1..];
        error := Perform(ops[i]);
        if error != NoError {
          return;
        }
        MarksAfter(s, ops[i], Now());
        RunsMore(trace, ops, i, Now());
        trace := trace + [Now()];
        i := i + 1;
      }
      assert ops[..i] == ops;
    }

    /** An element whose declarations are all accepted: its end puts back every declaration
        and, for every prefix, the very binding and namespace it had before. */
    method ReadElement(content: seq<Op>) returns (error: Error)
      requires Valid() && WellMatched(content, 0)
      requires forall i: nat :: i < |content| && content[i].Declare? ==> Usable(content[i].decl, prefixes)
      modifies this, prefixes, decls, free
      ensures Valid() && prefixes == old(prefixes)
      ensures error == NoError <==> forall i: nat :: i < |content| ==> Refusal(content[i]) == NoError
      ensures error == NoError ==> Now() == old(Now())
      ensures error == NoError ==> forall p <- prefixes :: p.binding == old(p.binding)
      ensures error == NoError ==> forall p <- prefixes :: p.binding != null ==> p.binding.uri == old(p.binding.uri)
    {
      hide Linked, Listed, Bound, Refusal, Steps, Runs, WellMatched, Closable;
      var ops := [Open] + content + [Close];
      ghost var trace;
      ElementIsClosable(content, 0, |marks|);
      OpenIsClosable(content, |marks|);
      BindingsOf();
      error, trace := Process(ops);
      ElementAccepted(content);
      if error == NoError {
        BindingsOf();
        ElementRestores(trace, content);
      }
    }

    /** The binding of a prefix and its namespace follow from the declarations. */
    lemma BindingsOf()
      requires Valid()
      ensures |decls| == |log|
      ensures forall p <- prefixes :: p.binding == BindingOf(decls, log, |log|, p)
      ensures forall p <- prefixes :: p.binding != null ==> Just(p.binding.uri) == UriOf(log, |log|, p)
    {
    }

    /** At every moment a prefix has the binding of the innermost tag that declares it. */
    lemma InForce(p: Prefix)
      requires Valid() && p in prefixes
      ensures |decls| == |log| && Sorted(marks, |log|)
      ensures var uri := InScope(log, marks, |log|, p);
              && (p.binding == null <==> uri.Nothing?) && uri != Just("")
              && (p.binding != null ==> p.binding in decls && p.binding.prefix == p && uri == Just(p.binding.uri))
    {
      InnermostIsLast(log, marks, |log|, p);
    }

    /** What is in scope by the declarations themselves: nothing, when there is none for the
        prefix or the innermost one is empty, and otherwise the URI of the innermost one. */
    lemma InnermostDecl(p: Prefix, k: nat)
      requires Valid() && p in prefixes
      requires k <= |log| && (forall j: nat :: k < j < |log| ==> log[j].prefix != p)
      requires if k < |log| then log[k].prefix == p else forall j: nat :: j < |log| ==> log[j].prefix != p
      ensures |decls| == |log| && Sorted(marks, |log|)
      ensures InScope(log, marks, |log|, p) == if k == |log| || log[k].uri == "" then Nothing else Just(log[k].uri)
      ensures if k == |log| || log[k].uri == "" then p.binding == null
              else p.binding == decls[k] && decls[k].uri == log[k].uri
    {
      InnermostIsLast(log, marks, |log|, p);
      if k < |log| {
        OnlyLast(log, |log|, p, k);
      } else {
        LastForIs(log, |log|, p);
      }
    }
  }

  lemma FreeGrown(free: seq<Binding>, b: Binding)
    ensures forall i: nat :: i < |free| ==> NextOf(free + [b], [], i) == NextOf(free, [], i)
    ensures NextOf(free + [b], [], |free|) == Head(free, 0, |free|)
  {
  }

  lemma DistinctMoved(decls: seq<Binding>, b: Binding, free: seq<Binding>)
    requires Distinct(decls + [b], free)
    ensures Distinct(decls, free + [b])
  {
    var all := decls + [b];
    assert all[|decls|] == b;
    forall i: nat, j: nat | i < |decls| && j < |free + [b]| ensures decls[i] != (free + [b])[j] {
      assert all[i] == decls[i];
    }
    forall i: nat, j: nat | i < j < |decls| ensures decls[i] != decls[j] {
      assert all[i] == decls[i] && all[j] == decls[j];
    }
  }

  lemma PopMarks(decls: seq<Binding>, log: seq<Decl>, marks: seq<nat>)
    requires |decls| == |log| && Sorted(marks, |log|) && StartOf(marks, |marks|) < |log|
    ensures Sorted(marks, |log| - 1)
    ensures NextOf(decls, marks, |decls| - 1) == Head(decls[..|decls| - 1], StartOf(marks, |marks|), |decls| - 1)
  {
  }

  lemma BindingIsNotFree(decls: seq<Binding>, free: seq<Binding>)
    requires Distinct(decls, free) && decls != []
    ensures decls[|decls| - 1] !in decls[..|decls| - 1] && decls[|decls| - 1] !in free
  {
  }

  /** The last free binding is apart from all others. */
  lemma TakenIsApart(decls: seq<Binding>, free: seq<Binding>)
    requires Distinct(decls, free)
    ensures free != [] ==> free[|free| - 1] !in decls && free[|free| - 1] !in free[..|free| - 1]
  {
  }

  lemma FreeShorter(free: seq<Binding>, n: nat)
    requires n <= |free|
    ensures n < |free| ==> NextOf(free, [], n) == Head(free[..n], 0, n)
    ensures forall i: nat :: i < n ==> NextOf(free[..n], [], i) == NextOf(free, [], i)
  {
  }

  lemma DistinctMore(decls: seq<Binding>, free: seq<Binding>, b: Binding, free': seq<Binding>)
    requires Distinct(decls, free) && |free'| <= |free| && free' == free[..|free'|]
    requires b !in decls && b !in free'
    ensures Distinct(decls + [b], free')
  {
  }

  lemma {:induction false} LastForPrefix(log: seq<Decl>, d: Decl, n: nat, p: Prefix)
    requires n <= |log|
    ensures LastFor(log + [d], n, p) == LastFor(log, n, p)
    decreases n
  {
    if n > 0 && log[n - 1].prefix != p {
      LastForPrefix(log, d, n - 1, p);
    }
  }

  lemma DeclMore(decls: seq<Binding>, log: seq<Decl>, b: Binding, d: Decl, marks: seq<nat>)
    requires |decls| == |log| && Sorted(marks, |log|)
    ensures var n := |log|;
            && (forall i: nat, p: Prefix :: i <= n ==>
                BindingOf(decls + [b], log + [d], i, p) == BindingOf(decls, log, i, p))
            && (forall p: Prefix ::
                  BindingOf(decls + [b], log + [d], n + 1, p) ==
                  if d.prefix != p then BindingOf(decls, log, n, p) else if Undeclares(d) then null else b)
            && (forall i: nat :: i < n ==> NextOf(decls + [b], marks, i) == NextOf(decls, marks, i))
            && NextOf(decls + [b], marks, n) == Head(decls, StartOf(marks, |marks|), n)
  {
    hide LastFor;
    forall i: nat, p: Prefix | i <= |log|
      ensures BindingOf(decls + [b], log + [d], i, p) == BindingOf(decls, log, i, p)
    {
      LastForPrefix(log, d, i, p);
    }
    forall p: Prefix
      ensures BindingOf(decls + [b], log + [d], |log| + 1, p) ==
              if d.prefix != p then BindingOf(decls, log, |log|, p) else if Undeclares(d) then null else b
    {
      LastForPrefix(log, d, |log|, p);
      LastForLast(log + [d], p);
    }
  }

  lemma LastForLast(log: seq<Decl>, p: Prefix)
    requires log != []
    ensures var n := |log| - 1; LastFor(log, n + 1, p) == if log[n].prefix == p then n else LastFor(log, n, p)
  {
  }

  /* ----- runs ----- */

  /** What a document does to the namespaces. */
  datatype Op = Open | Declare(decl: Decl) | Close

  datatype State = State(log: seq<Decl>, marks: seq<nat>, decls: seq<Binding>)

  /** What `OpenTag`, an accepted `AddBinding` and `CloseTag` do; a declaration gets some
      binding. */
  ghost predicate Steps(s: State, op: Op, t: State) {
    match op
    case Open => t == s.(marks := s.marks + [|s.log|])
    case Declare(d) =>
      && t.log == s.log + [d] && t.marks == s.marks
      && |t.decls| == |s.decls| + 1 && t.decls[..|s.decls|] == s.decls
    case Close =>
      && s.marks != []
      && var n := |s.marks| - 1;
         && s.marks[n] <= |s.log| && s.marks[n] <= |s.decls|
         && t == State(s.log[..s.marks[n]], s.marks[..n], s.decls[..s.marks[n]])
  }

  ghost predicate Runs(trace: seq<State>, ops: seq<Op>) {
    |trace| == |ops| + 1 && forall i: nat :: i < |ops| ==> Steps(trace[i], ops[i], trace[i + 1])
  }

  /** Every tag that is opened is closed, and no other, when `depth` are open already. */
  predicate WellMatched(ops: seq<Op>, depth: nat) {
    if ops == [] then depth == 0
    else
      match ops[0]
      case Open => WellMatched(ops[1..], depth + 1)
      case Declare(_) => WellMatched(ops[1..], depth)
      case Close => depth > 0 && WellMatched(ops[1..], depth - 1)
  }

  lemma {:induction false} RunKeeps(trace: seq<State>, ops: seq<Op>, depth: nat, n: nat)
    requires Runs(trace, ops) && WellMatched(ops, depth)
    requires var s := trace[0];
             && depth <= |s.marks| && n <= |s.log| == |s.decls|
             && forall k: nat :: |s.marks| - depth <= k < |s.marks| ==> n <= s.marks[k]
    ensures var s, t := trace[0], trace[|ops|];
            && t.marks == s.marks[..|s.marks| - depth] && n <= |t.log| == |t.decls|
            && t.log[..n] == s.log[..n] && t.decls[..n] == s.decls[..n]
    decreases |ops|
  {
    if ops != [] {
      assert Steps(trace[0], ops[0], trace[1]);
      StepKeeps(trace[0], ops[0], trace[1], depth, n);
      var depth' := if ops[0].Open? then depth + 1 else if ops[0].Close? then depth - 1 else depth;
      assert trace[1..][0] == trace[1];
      RunKeeps(trace[1..], ops[1..], depth', n);
    }
  }

  lemma StepKeeps(s: State, op: Op, t: State, depth: nat, n: nat)
    requires Steps(s, op, t) && (op.Close? ==> depth > 0)
    requires depth <= |s.marks| && n <= |s.log| == |s.decls|
    requires forall k: nat :: |s.marks| - depth <= k < |s.marks| ==> n <= s.marks[k]
    ensures var depth' := if op.Open? then depth + 1 else if op.Close? then depth - 1 else depth;
            && |s.marks| - depth == |t.marks| - depth' && t.marks[..|s.marks| - depth] == s.marks[..|s.marks| - depth]
            && n <= |t.log| == |t.decls| && t.log[..n] == s.log[..n] && t.decls[..n] == s.decls[..n]
            && forall k: nat :: |t.marks| - depth' <= k < |t.marks| ==> n <= t.marks[k]
  {
    if op.Declare? {
      assert t.decls[..n] == t.decls[..|s.decls|][..n];
    }
  }

  /** An element, whatever it declares and contains, leaves all declarations and their
      bindings as they were. */
  lemma ElementRestores(trace: seq<State>, content: seq<Op>)
    requires Runs(trace, [Open] + content + [Close]) && WellMatched(content, 0)
    requires |trace[0].log| == |trace[0].decls|
    ensures trace[|content| + 2] == trace[0]
  {
    hide Steps, Runs;
    var c := |content|;
    ElementSteps(trace, content);
    StepInto(trace[0], trace[1]);
    var s := trace[0];
    RunKeeps(trace[1..c + 2], content, 0, |s.log|);
    StepOut(s, trace[c + 1], trace[c + 2]);
  }

  /** The steps of an element: into it, through its content, and out of it. */
  lemma ElementSteps(trace: seq<State>, content: seq<Op>)
    requires Runs(trace, [Open] + content + [Close])
    ensures |trace| == |content| + 3 && Steps(trace[0], Open, trace[1])
    ensures Steps(trace[|content| + 1], Close, trace[|content| + 2])
    ensures Runs(trace[1..|content| + 2], content)
  {
    hide Steps;
    var ops, c := [Open] + content + [Close], |content|;
    assert Steps(trace[0], ops[0], trace[1]) && Steps(trace[c + 1], ops[c + 1], trace[c + 2]);
    var inner := trace[1..c + 2];
    forall i: nat | i < c ensures Steps(inner[i], content[i], inner[i + 1]) {
      assert Steps(trace[i + 1], ops[i + 1], trace[i + 2]);
    }
  }

  lemma StepInto(s: State, t: State)
    requires Steps(s, Open, t)
    ensures t.log == s.log && t.decls == s.decls && t.marks == s.marks + [|s.log|]
  {
  }

  lemma StepOut(s: State, t: State, u: State)
    requires Steps(t, Close, u) && t.marks == s.marks + [|s.log|]
    requires |s.log| == |s.decls| && |s.log| <= |t.log| == |t.decls|
    requires t.log[..|s.log|] == s.log[..|s.log|] && t.decls[..|s.log|] == s.decls[..|s.log|]
    ensures u == s
  {
  }

  lemma RunsMore(trace: seq<State>, ops: seq<Op>, i: nat, t: State)
    requires i < |ops| && Runs(trace, ops[..i]) && Steps(trace[i], ops[i], t)
    ensures Runs(trace + [t], ops[..i + 1])
  {
    hide Steps;
  }

  lemma MarksAfter(s: State, op: Op, t: State)
    requires Steps(s, op, t)
    ensures op.Close? ==> |s.marks| > 0
    ensures |t.marks| == if op.Open? then |s.marks| + 1 else if op.Close? then |s.marks| - 1 else |s.marks|
  {
  }

  /** Why `addBinding` refuses a declaration; tags are not refused. */
  function Refusal(op: Op): Error {
    if op.Declare? then CheckDecl(op.decl.prefix.name, op.decl.uri) else NoError
  }

  /** A declaration for a known prefix, in strings without NUL. */
  predicate Usable(d: Decl, prefixes: set<Prefix>) {
    d.prefix in prefixes && '\0' !in d.uri && (d.prefix.name.Just? ==> '\0' !in d.prefix.name.value)
  }

  lemma ElementAccepted(content: seq<Op>)
    ensures var ops := [Open] + content + [Close];
            (forall i: nat :: i < |ops| ==> Refusal(ops[i]) == NoError) <==>
            forall i: nat :: i < |content| ==> Refusal(content[i]) == NoError
  {
    var ops := [Open] + content + [Close];
    assert forall i: nat :: i < |content| ==> content[i] == ops[i + 1];
  }

  /** Only open tags are closed, when `depth` are open already. */
  predicate Closable(ops: seq<Op>, depth: nat) {
    ops == [] || match ops[0]
                 case Open => Closable(ops[1..], depth + 1)
                 case Declare(_) => Closable(ops[1..], depth)
                 case Close => depth > 0 && Closable(ops[1..], depth - 1)
  }

  lemma {:induction false} ElementIsClosable(content: seq<Op>, depth: nat, outer: nat)
    requires WellMatched(content, depth)
    ensures Closable(content + [Close], depth + outer + 1)
    decreases |content|
  {
    if content == [] {
      assert Closable([Close][1..], outer);
    } else {
      assert (content + [Close])[1..] == content[1..] + [Close];
      var depth' := if content[0].Open? then depth + 1 else if content[0].Close? then depth - 1 else depth;
      ElementIsClosable(content[1..], depth', outer);
    }
  }

  lemma OpenIsClosable(content: seq<Op>, outer: nat)
    requires Closable(content + [Close], outer + 1)
    ensures Closable([Open] + content + [Close], outer)
  {
    assert ([Open] + content + [Close])[1..] == content + [Close];
  }
}
