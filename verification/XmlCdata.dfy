/**
 The tokenizer for CDATA sections (XML 1.0, section 2.7), in which markup means nothing and
 only the end of the section is looked for.
 */
module XmlCdata {
  import opened XmlTok
  import opened XmlChar
  import opened XmlRef

  /** The data loop: up to a bracket, a line end or something that is no character. */
  function CdataEnd(e: Encoding, b: Text, p: nat): (q: nat)
    requires p <= |b|
    ensures p <= q <= |b|
    decreases |b| - p
  {
    if p == |b| || Breaks(e, b, p) then p else CdataEnd(e, b, p + Width(e.typeOf(b[p])))
  }

  predicate Breaks(e: Encoding, b: Text, p: nat)
    requires p < |b|
    ensures !Breaks(e, b, p) ==> p + Width(e.typeOf(b[p])) <= |b|
  {
    var t := e.typeOf(b[p]);
    if IsLead(t) then |b| - p < Width(t) || e.isInvalid(b[p..p + Width(t)])
    else t == NonXml || t == Malform || t == Trail || t == Cr || t == Lf || t == Rsqb
  }

  /** `cdataSectionTok` */
  function CdataTok(e: Encoding, b: Text, p: nat): (r: Result)
    requires p <= |b|
    ensures Inside(b, p, r) && (r.Tok? ==> p < r.next)
    ensures r.Tok? ==> r.tok == DataChars || r.tok == DataNewline || r.tok == CdataSectClose
  {
    if p == |b| then None
    else
      var t := e.typeOf(b[p]);
      if t == Rsqb then
        if p + 1 == |b| then Partial
        else if b[p + 1] != RSQB then Tok(DataChars, CdataEnd(e, b, p + 1))
        else if p + 2 == |b| then Partial
        else if b[p + 2] != GT then Tok(DataChars, CdataEnd(e, b, p + 1))
        else Tok(CdataSectClose, p + 3)
      else if t == Cr then
        if p + 1 == |b| then Partial else Tok(DataNewline, if e.typeOf(b[p + 1]) == Lf then p + 2 else p + 1)
      else if t == Lf then Tok(DataNewline, p + 1)
      else match AnyLook(e, b, p)
           case Past(q) => Tok(DataChars, CdataEnd(e, b, q))
           case End(r) =>
             NoToken(e, b, p);
             r
  }

  lemma NoToken(e: Encoding, b: Text, p: nat)
    requires p < |b| && AnyLook(e, b, p).End?
    ensures var r := AnyLook(e, b, p).result; r == Invalid(p) || r == PartialChar
  {
  }

  /** The scanner with its loop. */
  method CdataSectionToken(e: Encoding, b: Text, start: nat) returns (r: Result)
    requires start <= |b|
    ensures r == CdataTok(e, b, start)
  {
    hide CdataEnd, AnyLook;
    if start == |b| {
      return None;
    }
    var p := start;
    var t := e.typeOf(b[p]);
    if t == Rsqb {
      p := p + 1;
      if p == |b| {
        return Partial;
      }
      if b[p] == RSQB {
        p := p + 1;
        if p == |b| {
          return Partial;
        }
        if b[p] == GT {
          return Tok(CdataSectClose, p + 1);
        }
        p := p - 1;
      }
    } else if t == Cr {
      p := p + 1;
      if p == |b| {
        return Partial;
      }
      if e.typeOf(b[p]) == Lf {
        p := p + 1;
      }
      return Tok(DataNewline, p);
    } else if t == Lf {
      return Tok(DataNewline, p + 1);
    } else {
      match AnyLook(e, b, p) {
        case Past(q) => p := q;
        case End(stop) => return stop;
      }
    }
    r := CdataData(e, b, p);
  }

  /** The data loop. */
  method CdataData(e: Encoding, b: Text, start: nat) returns (r: Result)
    requires start <= |b|
    ensures r == Tok(DataChars, CdataEnd(e, b, start))
  {
    hide CdataEnd;
    var p := start;
    while p != |b|
      invariant p <= |b| && CdataEnd(e, b, p) == CdataEnd(e, b, start)
      decreases |b| - p
    {
      EndTurn(e, b, p);
      var t := e.typeOf(b[p]);
      if IsLead(t) {
        if |b| - p < Width(t) || e.isInvalid(b[p..p + Width(t)]) {
          return Tok(DataChars, p);
        }
        p := p + Width(t);
      } else {
        if t == NonXml || t == Malform || t == Trail || t == Cr || t == Lf || t == Rsqb {
          return Tok(DataChars, p);
        }
        p := p + 1;
      }
    }
    EndTurn(e, b, p);
    return Tok(DataChars, p);
  }

  lemma EndTurn(e: Encoding, b: Text, p: nat)
    requires p <= |b|
    ensures CdataEnd(e, b, p) ==
            if p == |b| || Breaks(e, b, p) then p else CdataEnd(e, b, p + Width(e.typeOf(b[p])))
  {
    hide Breaks;
  }

  /* ----- stability ----- */

  lemma BreaksIsStable(e: Encoding, b: Text, x: Text, p: nat)
    requires p < |b|
    ensures !Breaks(e, b, p) ==> !Breaks(e, b + x, p)
  {
    var n := Width(e.typeOf(b[p]));
    if p + n <= |b| {
      assert (b + x)[p..p + n] == b[p..p + n];
    }
  }

  /** In a longer buffer the data goes on where it has ended, or ends there. */
  lemma {:induction false} EndContinues(e: Encoding, b: Text, x: Text, p: nat)
    requires p <= |b|
    ensures CdataEnd(e, b + x, p) == CdataEnd(e, b + x, CdataEnd(e, b, p))
    decreases |b| - p
  {
    hide Breaks;
    if p < |b| && !Breaks(e, b, p) {
      BreaksIsStable(e, b, x, p);
      EndContinues(e, b, x, p + Width(e.typeOf(b[p])));
    }
  }

  /** Data that goes on somewhere begins there as a token. */
  lemma DataFrom(e: Encoding, b: Text, p: nat)
    requires p <= |b| && p < CdataEnd(e, b, p)
    ensures CdataTok(e, b, p) == Tok(DataChars, CdataEnd(e, b, p))
  {
    assert AnyLook(e, b, p) == Past(p + Width(e.typeOf(b[p])));
  }

  /** A token other than data, and an error, stays what it is; data is continued or ends
      where it did. */
  lemma CdataIsStable(e: Encoding, b: Text, x: Text, p: nat)
    requires p <= |b|
    ensures var r, r' := CdataTok(e, b, p), CdataTok(e, b + x, p);
            && (Settled(r) ==> r' == r)
            && (r.Tok? && r.tok == DataChars ==>
                  r'.Tok? && r'.tok == DataChars && (r' == r || r' == CdataTok(e, b + x, r.next)))
  {
    if p < |b| {
      LookIsStable(e, b, x, p, true);
      var r := CdataTok(e, b, p);
      if r.Tok? && r.tok == DataChars {
        var from := if e.typeOf(b[p]) == Rsqb then p + 1 else AnyLook(e, b, p).next;
        assert r.next == CdataEnd(e, b, from);
        EndContinues(e, b, x, from);
        assert CdataTok(e, b + x, p) == Tok(DataChars, CdataEnd(e, b + x, from));
        if r.next < CdataEnd(e, b + x, r.next) {
          DataFrom(e, b + x, r.next);
        }
      }
    }
  }

  /* ----- where a section ends ----- */

  /** The bytes behind the first one of a character are none of ASCII. */
  ghost predicate HighTails(e: Encoding) {
    forall s: Text :: |s| >= 2 && |s| == Width(e.typeOf(s[0])) && !e.isInvalid(s) ==> HighTail(s)
  }

  predicate HighTail(s: Text) {
    forall k: nat :: 1 <= k < |s| ==> s[k] >= 0x80
  }

  lemma Utf8HasHighTails(ns: bool, internal: bool, isName: Text -> bool, isNmstrt: Text -> bool)
    ensures HighTails(Utf8(ns, internal, isName, isNmstrt))
  {
    var e := Utf8(ns, internal, isName, isNmstrt);
    forall s: Text | |s| >= 2 && |s| == Width(e.typeOf(s[0])) && !e.isInvalid(s) ensures HighTail(s) {
      forall k: nat | 1 <= k < |s| ensures s[k] >= 0x80 {
        LeadsAreHigh(s[0], ns, internal);
      }
    }
  }

  /** `]]>` */
  predicate Closes(b: Text, k: nat) {
    k + 3 <= |b| && b[k] == RSQB && b[k + 1] == RSQB && b[k + 2] == GT
  }

  /** The tokens of a section are followed to its end, or to where they stop. */
  function SectionEnd(e: Encoding, b: Text, p: nat): (r: Result)
    requires p <= |b|
    ensures Inside(b, p, r)
    decreases |b| - p
  {
    match CdataTok(e, b, p)
    case Tok(tok, q) => if tok == CdataSectClose then Tok(tok, q) else SectionEnd(e, b, q)
    case r => r
  }

  /** No byte between `p` and `q` is a bracket. */
  ghost predicate NoBracket(b: Text, p: nat, q: nat) {
    forall k: nat :: p <= k < q && k < |b| ==> b[k] != RSQB
  }

  lemma {:induction false} NoBracketIn(e: Encoding, b: Text, p: nat)
    requires AsciiTable(e) && HighTails(e) && p <= |b|
    ensures NoBracket(b, p, CdataEnd(e, b, p))
    decreases |b| - p
  {
    hide AsciiTable, HighTails, Breaks;
    if p < |b| && !Breaks(e, b, p) {
      NoBracketInChar(e, b, p);
      NoBracketIn(e, b, p + Width(e.typeOf(b[p])));
    }
  }

  lemma NoBracketInChar(e: Encoding, b: Text, p: nat)
    requires AsciiTable(e) && HighTails(e) && p < |b| && !Breaks(e, b, p)
    ensures NoBracket(b, p, p + Width(e.typeOf(b[p])))
  {
    BracketClass(e, b[p]);
    hide AsciiTable;
    var n := Width(e.typeOf(b[p]));
    var s := b[p..p + n];
    assert s[0] == b[p];
    if n >= 2 {
      assert HighTail(s);
      forall k: nat | p < k < p + n ensures b[k] != RSQB {
        assert b[k] == s[k - p];
      }
    }
  }

  lemma BracketClass(e: Encoding, c: Byte)
    requires AsciiTable(e)
    ensures c == RSQB <==> e.typeOf(c) == Rsqb
  {
    hide AsciiTable;
    TableEntry(e, c);
  }

  lemma DataToken(e: Encoding, b: Text, p: nat)
    requires p < |b| && CdataTok(e, b, p).Tok? && CdataTok(e, b, p).tok == DataChars
    ensures CdataTok(e, b, p).next == CdataEnd(e, b, if e.typeOf(b[p]) == Rsqb then p + 1 else p)
  {
  }

  lemma NoCloseInData(e: Encoding, b: Text, p: nat)
    requires AsciiTable(e) && HighTails(e) && p < |b|
    requires CdataTok(e, b, p).Tok? && CdataTok(e, b, p).tok == DataChars
    ensures forall k: nat :: p <= k < CdataTok(e, b, p).next ==> !Closes(b, k)
  {
    DataToken(e, b, p);
    NotClosedAt(e, b, p);
    hide AsciiTable, HighTails, CdataEnd, CdataTok;
    BracketClass(e, b[p]);
    NoBracketIn(e, b, if e.typeOf(b[p]) == Rsqb then p + 1 else p);
  }

  lemma NotClosedAt(e: Encoding, b: Text, p: nat)
    requires p < |b| && CdataTok(e, b, p).Tok? && CdataTok(e, b, p).tok == DataChars
    ensures e.typeOf(b[p]) == Rsqb ==> !Closes(b, p)
  {
    hide CdataEnd;
  }

  /** No token but the one that closes the section touches what closes it. */
  lemma NoCloseIn(e: Encoding, b: Text, p: nat)
    requires AsciiTable(e) && HighTails(e) && p < |b|
    ensures var r := CdataTok(e, b, p);
            if r.Tok? && r.tok == CdataSectClose then r.next == p + 3 && Closes(b, p)
            else if r.Tok? then forall k: nat :: p <= k < r.next ==> !Closes(b, k)
            else r == Invalid(p) || (!r.Invalid? && forall k: nat :: p <= k ==> !Closes(b, k))
  {
    hide AsciiTable, HighTails, CdataEnd;
    BracketClass(e, b[p]);
    if p + 1 < |b| {
      BracketClass(e, b[p + 1]);
    }
    var r := CdataTok(e, b, p);
    if r.Tok? && r.tok == DataChars {
      hide CdataTok;
      NoCloseInData(e, b, p);
    }
  }

  /** A section ends at the first `]]>`, whatever markup it seems to contain, and does not end
      where there is none. */
  lemma {:induction false} EndsAtFirst(e: Encoding, b: Text, p: nat)
    requires AsciiTable(e) && HighTails(e) && p <= |b|
    ensures var r := SectionEnd(e, b, p);
            && (r.Tok? ==> r.tok == CdataSectClose && p + 3 <= r.next && Closes(b, r.next - 3))
            && forall k: nat :: p <= k < (if r.Tok? then r.next - 3 else if r.Invalid? then r.next else |b|) ==>
                !Closes(b, k)
    decreases |b| - p
  {
    hide AsciiTable, HighTails, CdataTok;
    if p < |b| {
      NoCloseIn(e, b, p);
      var r := CdataTok(e, b, p);
      if r.Tok? && r.tok != CdataSectClose {
        EndsAtFirst(e, b, r.next);
      }
    }
  }

  /* ----- line ends ----- */

  /** The line ends of a text: carriage returns, and line feeds but behind a carriage return. */
  function LineEnds(t: Text): nat {
    if t == [] then 0
    else
      var front, c := t[..|t| - 1], t[|t| - 1];
      LineEnds(front) + if c == 0x0D || (c == 0x0A && (front == [] || front[|front| - 1] != 0x0D)) then 1 else 0
  }

  lemma {:induction false} LineEndsJoin(s: Text, t: Text)
    requires s != [] && t != [] && s[|s| - 1] == 0x0D ==> t[0] != 0x0A
    ensures LineEnds(s + t) == LineEnds(s) + LineEnds(t)
    decreases |t|
  {
    if t == [] {
      assert s + t == s;
    } else {
      var front := t[..|t| - 1];
      assert (s + t)[..|s + t| - 1] == s + front;
      LineEndsJoin(s, front);
    }
  }

  lemma {:induction false} NoLineEnds(t: Text)
    requires 0x0A !in t && 0x0D !in t
    ensures LineEnds(t) == 0
  {
    if t != [] {
      NoLineEnds(t[..|t| - 1]);
    }
  }

  /** How many line ends a section reports, and where its data ends. */
  function Reported(e: Encoding, b: Text, p: nat): (r: (nat, nat))
    requires p <= |b|
    ensures p <= r.1 <= |b|
    decreases |b| - p
  {
    match CdataTok(e, b, p)
    case Tok(tok, q) =>
      if tok == CdataSectClose then (0, p)
      else
        var rest := Reported(e, b, q);
        (rest.0 + if tok == DataNewline then 1 else 0, rest.1)
    case _ => (0, p)
  }

  lemma LineEndClass(e: Encoding, c: Byte)
    requires AsciiTable(e)
    ensures c == 0x0A <==> e.typeOf(c) == Lf
    ensures e.typeOf(c) == Cr ==> c == 0x0D
    ensures c == 0x0D ==> e.typeOf(c) == Cr || e.typeOf(c) == S
  {
    hide AsciiTable;
    TableEntry(e, c);
  }

  /** A line end as a token: CR LF is one. */
  lemma NewlineToken(e: Encoding, b: Text, p: nat)
    requires AsciiTable(e) && e.typeOf(0x0D) == Cr && p < |b|
    ensures var r := CdataTok(e, b, p);
            if b[p] == 0x0A then r == Tok(DataNewline, p + 1)
            else if b[p] != 0x0D then !(r.Tok? && r.tok == DataNewline)
            else if p + 1 == |b| then r == Partial
            else r == Tok(DataNewline, if b[p + 1] == 0x0A then p + 2 else p + 1)
  {
    hide AsciiTable, CdataEnd;
    LineEndClass(e, b[p]);
    if p + 1 < |b| {
      LineEndClass(e, b[p + 1]);
    }
  }

  lemma {:induction false} NoLineEndIn(e: Encoding, b: Text, p: nat)
    requires AsciiTable(e) && HighTails(e) && e.typeOf(0x0D) == Cr && p <= |b|
    ensures forall k: nat :: p <= k < CdataEnd(e, b, p) ==> b[k] != 0x0A && b[k] != 0x0D
    decreases |b| - p
  {
    hide AsciiTable, HighTails, Breaks;
    if p < |b| && !Breaks(e, b, p) {
      NoLineEndInChar(e, b, p);
      NoLineEndIn(e, b, p + Width(e.typeOf(b[p])));
    }
  }

  lemma NoLineEndInChar(e: Encoding, b: Text, p: nat)
    requires AsciiTable(e) && HighTails(e) && e.typeOf(0x0D) == Cr && p < |b| && !Breaks(e, b, p)
    ensures forall k: nat :: p <= k < p + Width(e.typeOf(b[p])) ==> b[k] != 0x0A && b[k] != 0x0D
  {
    LineEndClass(e, b[p]);
    hide AsciiTable;
    var n := Width(e.typeOf(b[p]));
    var s := b[p..p + n];
    assert s[0] == b[p];
    if n >= 2 {
      assert HighTail(s);
      forall k: nat | p < k < p + n ensures b[k] >= 0x80 {
        assert b[k] == s[k - p];
      }
    }
  }

  lemma LineEndsOfData(e: Encoding, b: Text, p: nat)
    requires AsciiTable(e) && HighTails(e) && e.typeOf(0x0D) == Cr && p < |b|
    requires CdataTok(e, b, p).Tok? && CdataTok(e, b, p).tok == DataChars
    ensures forall k: nat :: p <= k < CdataTok(e, b, p).next ==> b[k] != 0x0A && b[k] != 0x0D
  {
    DataToken(e, b, p);
    hide AsciiTable, HighTails, CdataEnd, CdataTok;
    BracketClass(e, b[p]);
    NoLineEndIn(e, b, if e.typeOf(b[p]) == Rsqb then p + 1 else p);
  }

  /** The line ends that a section reports are those of its text, CR LF being one of them
      (XML 1.0, section 2.11). */
  lemma {:induction false} ReportsLineEnds(e: Encoding, b: Text, p: nat)
    requires AsciiTable(e) && HighTails(e) && e.typeOf(0x0D) == Cr && p <= |b|
    ensures var r := Reported(e, b, p); r.0 == LineEnds(b[p..r.1])
    decreases |b| - p
  {
    hide AsciiTable, HighTails, CdataTok, LineEnds;
    var stop := Reported(e, b, p).1;
    if p < |b| && CdataTok(e, b, p).Tok? && CdataTok(e, b, p).tok != CdataSectClose {
      var q := CdataTok(e, b, p).next;
      ReportsLineEnds(e, b, q);
      NewlineToken(e, b, p);
      assert b[p..stop] == b[p..q] + b[q..stop];
      if CdataTok(e, b, p).tok == DataNewline {
        LineEndsOfNewline(b, p, q);
      } else {
        LineEndsOfData(e, b, p);
        NoLineEnds(b[p..q]);
      }
      LineEndsJoin(b[p..q], b[q..stop]);
    } else {
      NoLineEnds(b[p..p]);
    }
  }

  lemma LineEndsOfNewline(b: Text, p: nat, q: nat)
    requires p < q <= |b|
    requires (q == p + 1 && (b[p] == 0x0A || b[p] == 0x0D)) || (q == p + 2 && b[p] == 0x0D && b[p + 1] == 0x0A)
    ensures LineEnds(b[p..q]) == 1
  {
    if q == p + 1 {
      assert b[p..q] == [b[p]] && [b[p]][..0] == [];
    } else {
      assert b[p..q] == [0x0D, 0x0A] && [0x0D, 0x0A][..1] == [0x0D] && [0x0D][..0] == [];
    }
  }
}
