/**
 The conversion from UTF-8 to UTF-8, which copies what fits and means to leave no character
 half copied.
 */
module XmlConvert {
  import opened XmlTok
  import opened XmlChar

  predicate IsTrail(b: Byte) {
    0x80 <= b < 0xC0
  }

  /** The loop that goes back from the limit over the last bytes of characters. */
  function BackOff(b: Text, n: nat): (r: nat)
    requires n <= |b|
    ensures r <= n
  {
    if n > 0 && IsTrail(b[n - 1]) then BackOff(b, n - 1) else n
  }

  /** How many bytes of the text are copied. */
  function Copied(b: Text, room: nat): (n: nat)
    ensures n <= room && n <= |b|
    ensures |b| <= room ==> n == |b|
  {
    if |b| <= room then |b| else BackOff(b, room)
  }

  /** `utf8_toUtf8` */
  method Utf8ToUtf8(b: Text, from: nat, to: array<Byte>, at: nat, lim: nat) returns (n: nat)
    requires from <= |b| && at <= lim <= to.Length
    modifies to
    ensures n == Copied(b[from..], lim - at) && to[at..at + n] == b[from..from + n]
    ensures forall i: nat :: i < to.Length && !(at <= i < at + n) ==> to[i] == old(to[i])
  {
    var fromLim := |b|;
    if fromLim - from > lim - at {
      fromLim := from + (lim - at);
      while fromLim > from
        invariant from <= fromLim <= from + (lim - at)
        invariant BackOff(b[from..], fromLim - from) == BackOff(b[from..], lim - at)
      {
        if !IsTrail(b[fromLim - 1]) {
          break;
        }
        fromLim := fromLim - 1;
      }
    }
    n := 0;
    while from + n != fromLim
      invariant from + n <= fromLim && to[at..at + n] == b[from..from + n]
      invariant forall i: nat :: i < to.Length && !(at <= i < at + n) ==> to[i] == old(to[i])
      decreases fromLim - n
    {
      to[at + n] := b[from + n];
      n := n + 1;
    }
  }

  /* ----- where the copy ends ----- */

  /** The first `n` bytes are whole characters. */
  ghost predicate WholeChars(cs: seq<int>, n: nat) {
    exists k: nat :: k <= |cs| && |Bytes(cs[..k])| == n
  }

  /** The bytes of one character. */
  lemma EncodedBytes(c: int)
    requires IsScalar(c)
    ensures var s := Utf8Encode(c);
            && s != [] && (s[0] < 0x80 <==> |s| == 1) && !IsTrail(s[0])
            && forall j: nat :: 0 < j < |s| ==> IsTrail(s[j])
  {
  }

  /** The character that a byte belongs to. */
  lemma {:induction false} CharAt(cs: seq<int>, i: nat) returns (k: nat)
    requires AllScalar(cs) && i < |Bytes(cs)|
    ensures k < |cs| && |Bytes(cs[..k])| <= i < |Bytes(cs[..k + 1])|
    decreases |cs|
  {
    hide Bytes, Utf8Encode;
    NoChars(cs);
    var front := cs[..|cs| - 1];
    if i < |Bytes(front)| {
      k := CharAt(front, i);
      assert front[..k] == cs[..k] && front[..k + 1] == cs[..k + 1];
    } else {
      k := |cs| - 1;
      assert cs[..k + 1] == cs;
    }
  }

  /** A byte as part of its character. */
  lemma ByteOfChar(cs: seq<int>, k: nat, i: nat)
    requires AllScalar(cs) && k < |cs| && |Bytes(cs[..k])| <= i < |Bytes(cs[..k + 1])|
    ensures i < |Bytes(cs)|
    ensures var at, s := |Bytes(cs[..k])|, Utf8Encode(cs[k]);
            i - at < |s| && |Bytes(cs[..k + 1])| == at + |s| && Bytes(cs)[i] == s[i - at]
  {
    hide Bytes, Utf8Encode;
    NextChar(cs, k, Bytes(cs));
    var at, s := |Bytes(cs[..k])|, Utf8Encode(cs[k]);
    assert Bytes(cs)[at..at + |s|][i - at] == Bytes(cs)[i];
  }

  /** No character ends inside another. */
  lemma InsideChar(cs: seq<int>, k: nat, n: nat)
    requires k < |cs| && |Bytes(cs[..k])| < n < |Bytes(cs[..k + 1])|
    ensures !WholeChars(cs, n)
  {
    hide Bytes;
    forall j: nat | j <= |cs| ensures |Bytes(cs[..j])| != n {
      if j <= k {
        assert cs[..k][..j] == cs[..j];
        BytesOfPrefix(cs[..k], j);
      } else {
        assert cs[..j][..k + 1] == cs[..k + 1];
        BytesOfPrefix(cs[..j], k + 1);
      }
    }
  }

  /** What the byte before and the byte behind say about the end of a character. */
  lemma EndsOfChars(cs: seq<int>, n: nat)
    requires AllScalar(cs) && 0 < n <= |Bytes(cs)|
    ensures Bytes(cs)[n - 1] < 0x80 ==> WholeChars(cs, n)
    ensures Bytes(cs)[n - 1] >= 0xC0 ==> !WholeChars(cs, n)
  {
    hide Bytes, Utf8Encode, WholeChars;
    var k := CharAt(cs, n - 1);
    ByteOfChar(cs, k, n - 1);
    EncodedBytes(cs[k]);
    if Bytes(cs)[n - 1] < 0x80 {
      EndOfChar(cs, k + 1);
    } else if Bytes(cs)[n - 1] >= 0xC0 {
      InsideChar(cs, k, n);
    }
  }

  lemma EndOfChar(cs: seq<int>, k: nat)
    requires k <= |cs|
    ensures WholeChars(cs, |Bytes(cs[..k])|)
  {
  }

  lemma TrailInside(cs: seq<int>, n: nat)
    requires AllScalar(cs) && n < |Bytes(cs)| && IsTrail(Bytes(cs)[n])
    ensures n > 0 && !WholeChars(cs, n)
  {
    hide Bytes, Utf8Encode, WholeChars;
    var k := CharAt(cs, n);
    ByteOfChar(cs, k, n);
    EncodedBytes(cs[k]);
    InsideChar(cs, k, n);
  }

  lemma {:induction false} BackOffStops(b: Text, n: nat)
    requires n <= |b|
    ensures var r := BackOff(b, n); (r > 0 ==> !IsTrail(b[r - 1])) && (r < n ==> IsTrail(b[r]) && IsTrail(b[n - 1]))
  {
    if n > 0 && IsTrail(b[n - 1]) {
      BackOffStops(b, n - 1);
    }
  }

  /** The copy ends at the end of a character exactly if everything fits, or nothing, or the
      last byte that fits is a character of its own. */
  lemma CopiesWholeChars(cs: seq<int>, room: nat)
    requires AllScalar(cs)
    ensures var b := Bytes(cs);
            WholeChars(cs, Copied(b, room)) <==> |b| <= room || room == 0 || b[room - 1] < 0x80
  {
    hide Bytes, Utf8Encode, WholeChars, BackOff;
    var b := Bytes(cs);
    if |b| <= room {
      assert cs[..|cs|] == cs;
      EndOfChar(cs, |cs|);
    } else {
      BackOffStops(b, room);
      var r := BackOff(b, room);
      if r < room {
        TrailInside(cs, r);
      } else if room == 0 {
        NoChars(cs);
        EndOfChar(cs, 0);
      } else {
        EndsOfChars(cs, room);
      }
    }
  }

  /** So a character can be torn although all of it fits: of the euro sign and a letter,
      into three bytes, only the first byte is copied. */
  lemma EuroIsTorn()
    ensures Bytes([0x20AC, 0x78]) == [0xE2, 0x82, 0xAC, 0x78]
    ensures Copied(Bytes([0x20AC, 0x78]), 3) == 1 && !WholeChars([0x20AC, 0x78], 1)
  {
    var cs := [0x20AC, 0x78];
    assert cs[..1] == [0x20AC] && cs[..0] == [];
    assert Bytes([0x20AC]) == Bytes([0x20AC][..0]) + Utf8Encode(0x20AC);
    assert Bytes(cs) == Bytes(cs[..1]) + Utf8Encode(0x78);
    assert BackOff(Bytes(cs), 3) == BackOff(Bytes(cs), 2) == BackOff(Bytes(cs), 1) == 1;
    CopiesWholeChars(cs, 3);
  }
}
