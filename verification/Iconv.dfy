/**
 The converter with its state: two codecs that keep their modes, and a loop that puts them
 back when a character cannot be read or written.
 */
module Iconv {
  import opened IconvCodec
  import opened Wrappers

  /** `csconv_t`, for the Unicode codecs. */
  class Converter {
    const codec: Codec
    var mode: Mode

    constructor (codec: Codec)
      ensures this.codec == codec && mode == IconvCodec.FRESH_MODE
    {
      this.codec := codec;
      mode := IconvCodec.FRESH_MODE;
    }

    /** The byte order in force. */
    function Big(): bool
      reads this
    {
      if mode.swapped then !codec.big else codec.big
    }

    /** `utf16_mbtowc`: the mode is already changed when an error is found. */
    method Mbtowc16(buf: Bytes) returns (r: Read)
      modifies this
      ensures r == Read16(codec, old(mode), buf)
      ensures !r.NotRead? ==> mode == r.mode
    {
      var big := Big();
      if |buf| < 2 {
        return NotRead(Incomplete);
      }
      var first := Word(buf[0], buf[1], big);
      if codec.useBom && !mode.bomDone {
        mode := mode.(bomDone := true);
        if first == 0xFFFE {
          mode := mode.(swapped := true);
          return Mark(2, mode);
        } else if first == 0xFEFF {
          return Mark(2, mode);
        }
      }
      if 0xDC00 <= first <= 0xDFFF {
        return NotRead(Illegal);
      }
      if 0xD800 <= first <= 0xDBFF {
        if |buf| < 4 {
          return NotRead(Incomplete);
        }
        var second := Word(buf[2], buf[3], big);
        if !(0xDC00 <= second <= 0xDFFF) {
          return NotRead(Illegal);
        }
        return Char([first, second], 4, mode);
      }
      return Char([first], 2, mode);
    }

    /** `utf32_mbtowc` */
    method Mbtowc32(buf: Bytes) returns (r: Read)
      modifies this
      ensures r == Read32(codec, old(mode), buf)
      ensures !r.NotRead? ==> mode == r.mode
    {
      var big := Big();
      if |buf| < 4 {
        return NotRead(Incomplete);
      }
      var wc := Quad(buf, big);
      if codec.useBom && !mode.bomDone {
        mode := mode.(bomDone := true);
        if wc == 0xFFFE0000 {
          mode := mode.(swapped := true);
          return Mark(4, mode);
        } else if wc == 0x0000FEFF {
          return Mark(4, mode);
        }
      }
      if 0xD800 <= wc <= 0xDFFF || 0x10FFFF < wc {
        return NotRead(Illegal);
      }
      return Char(ToUtf16(wc), 4, mode);
    }

    method Mbtowc(buf: Bytes) returns (r: Read)
      modifies this
      ensures r == ReadOne(codec, old(mode), buf)
      ensures !r.NotRead? ==> mode == r.mode
    {
      if codec.wide {
        r := Mbtowc32(buf);
      } else {
        r := Mbtowc16(buf);
      }
    }

    /** A character without a mark: the number of bytes, or -1 if there is no room. */
    method WriteChar(w: seq<Unit>, out: array<Byte>, at: nat, room: nat) returns (n: int)
      requires IsChar(w) && at + room <= out.Length
      modifies out
      ensures n == (if |CharBytes(codec, w)| <= room then |CharBytes(codec, w)| else -1)
      ensures n >= 0 ==> out[at..at + n] == CharBytes(codec, w)
      ensures forall k: nat :: k < out.Length && !(at <= k < at + room) ==> out[k] == old(out[k])
    {
      var bytes := CharBytes(codec, w);
      var size := Size(codec);
      CharSize(codec, w);
      hide CharBytes;
      if room < size {
        return -1;
      }
      Store(bytes[..size], out, at);
      if |bytes| > size {
        if room < |bytes| {
          return -1;
        }
        Store(bytes[size..], out, at + size);
        assert out[at..at + size] == bytes[..size];
        assert out[at..at + |bytes|] == out[at..at + size] + out[at + size..at + |bytes|];
      }
      n := |bytes|;
    }

    /** A character behind a mark. */
    method WriteMarked(mark: Bytes, w: seq<Unit>, out: array<Byte>, at: nat, room: nat) returns (n: int)
      requires IsChar(w) && at + room <= out.Length && |mark| <= room
      modifies out
      ensures n == (if |mark + CharBytes(codec, w)| <= room then |mark + CharBytes(codec, w)| else -1)
      ensures n >= 0 ==> out[at..at + n] == mark + CharBytes(codec, w)
      ensures forall k: nat :: k < out.Length && !(at <= k < at + room) ==> out[k] == old(out[k])
    {
      hide CharBytes;
      Store(mark, out, at);
      ghost var stored := out[at..at + |mark|];
      var r := WriteChar(w, out, at + |mark|, room - |mark|);
      if r == -1 {
        return -1;
      }
      assert out[at..at + |mark|] == stored;
      n := r + |mark|;
      Joined(out[..], at, at + |mark|, at + n);
    }

    /** `utf16_wctomb` and `utf32_wctomb` */
    method Wctomb(w: seq<Unit>, out: array<Byte>, at: nat, room: nat) returns (n: int)
      requires IsChar(w) && at + room <= out.Length
      modifies this, out
      ensures n == (if |Written(codec, old(mode), w)| <= room then |Written(codec, old(mode), w)| else -1)
      ensures n >= 0 ==> out[at..at + n] == Written(codec, old(mode), w) && mode == AfterWriting(codec, old(mode))
      ensures forall k: nat :: k < out.Length && !(at <= k < at + room) ==> out[k] == old(out[k])
    {
      hide CharBytes, MarkBytes;
      if codec.useBom && !mode.bomDone {
        var mark := MarkBytes(codec);
        mode := mode.(bomDone := true);
        if room < |mark| {
          return -1;
        }
        n := WriteMarked(mark, w, out, at, room);
      } else {
        n := WriteChar(w, out, at, room);
        assert [] + CharBytes(codec, w) == CharBytes(codec, w);
      }
    }
  }

  lemma Joined(s: Bytes, a: nat, b: nat, c: nat)
    requires a <= b <= c <= |s|
    ensures s[a..c] == s[a..b] + s[b..c]
  {
  }

  lemma CharSize(c: Codec, w: seq<Unit>)
    requires IsChar(w)
    ensures Size(c) <= |CharBytes(c, w)|
  {
  }

  method Store(s: Bytes, out: array<Byte>, at: nat)
    requires at + |s| <= out.Length
    modifies out
    ensures out[at..at + |s|] == s
    ensures forall k: nat :: k < out.Length && !(at <= k < at + |s|) ==> out[k] == old(out[k])
  {
    var k := 0;
    while k < |s|
      invariant k <= |s| && out[at..at + k] == s[..k]
      invariant forall j: nat :: j < out.Length && !(at <= j < at + k) ==> out[j] == old(out[j])
    {
      out[at + k] := s[k];
      k := k + 1;
    }
  }

  /** `win_iconv`, for codecs without compatibility tables and without a function to flush
      them. A call without input makes the converter as good as new, whatever it has read. */
  method WinIconv(from: Converter, to: Converter, inbuf: Maybe<Bytes>, out: array<Byte>)
    returns (ghost r: Ended, error: bool, inpos: nat, outpos: nat)
    requires from != to
    modifies from, to, out
    ensures r == match inbuf
                 case Nothing => Ended(false, Incomplete, 0, [], State(FRESH_MODE, FRESH_MODE))
                 case Just(input) => Convert(from.codec, to.codec, old(State(from.mode, to.mode)), input, out.Length)
    ensures error == r.error && inpos == r.consumed && outpos == |r.out| && out[..outpos] == r.out
    ensures State(from.mode, to.mode) == r.state
    ensures inbuf.Nothing? ==> out[..] == old(out[..])
  {
    match inbuf
    case Nothing =>
      from.mode, to.mode := FRESH_MODE, FRESH_MODE;
      r, error, inpos, outpos := Ended(false, Incomplete, 0, [], State(FRESH_MODE, FRESH_MODE)), false, 0, 0;
    case Just(input) =>
      r, error, inpos, outpos := ConvertInput(from, to, input, out);
  }

  /** The loop over the characters of the input. */
  method ConvertInput(from: Converter, to: Converter, input: Bytes, out: array<Byte>)
    returns (ghost r: Ended, error: bool, inpos: nat, outpos: nat)
    requires from != to
    modifies from, to, out
    ensures r == Convert(from.codec, to.codec, old(State(from.mode, to.mode)), input, out.Length)
    ensures error == r.error && inpos == r.consumed && outpos == |r.out| && out[..outpos] == r.out
    ensures State(from.mode, to.mode) == r.state
  {
    hide Convert, ReadOne, Written, AfterWriting;
    inpos, outpos, error := 0, 0, false;
    ghost var s := State(from.mode, to.mode);
    ghost var done: Bytes := [];
    r := Convert(from.codec, to.codec, s, input, out.Length);
    StartsWith(from.codec, to.codec, s, input, out.Length);
    while inpos < |input|
      invariant inpos <= |input| && outpos == |done| <= out.Length && out[..outpos] == done
      invariant r == Later(Convert(from.codec, to.codec, State(from.mode, to.mode), input[inpos..],
                                   out.Length - outpos), inpos, done)
    {
      var frommode, tomode := from.mode, to.mode;
      ConvertTurn(from.codec, to.codec, State(frommode, tomode), input[inpos..], out.Length - outpos);
      var read := from.Mbtowc(input[inpos..]);
      if read.NotRead? {
        from.mode := frommode;
        error := true;
        assert done + [] == done;
        return;
      }
      if read.Mark? {
        Onwards(from.codec, to.codec, State(from.mode, to.mode), input, inpos, out.Length - outpos, read.size, done,
                []);
        inpos := inpos + read.size;
        continue;
      }
      var n := to.Wctomb(read.units, out, outpos, out.Length - outpos);
      if n == -1 {
        from.mode := frommode;
        to.mode := tomode;
        error := true;
        assert done + [] == done;
        assert out[..outpos] == done;
        return;
      }
      ghost var t := Written(to.codec, tomode, read.units);
      Onwards(from.codec, to.codec, State(from.mode, to.mode), input, inpos, out.Length - outpos - n, read.size,
              done, t);
      assert out[..outpos + n] == out[..outpos] + out[outpos..outpos + n];
      inpos := inpos + read.size;
      outpos := outpos + n;
      done := done + t;
    }
    ConvertTurn(from.codec, to.codec, State(from.mode, to.mode), input[inpos..], out.Length - outpos);
    assert done + [] == done;
  }

  lemma StartsWith(from: Codec, to: Codec, s: State, b: Bytes, room: nat)
    ensures Later(Convert(from, to, s, b[0..], room), 0, []) == Convert(from, to, s, b, room)
  {
    assert b[0..] == b;
    var r := Convert(from, to, s, b, room);
    assert [] + r.out == r.out;
  }

  lemma Onwards(from: Codec, to: Codec, s: State, b: Bytes, at: nat, room: nat, n: nat, done: Bytes, t: Bytes)
    requires at + n <= |b|
    ensures b[at..][n..] == b[at + n..]
    ensures Later(Later(Convert(from, to, s, b[at..][n..], room), n, t), at, done)
            == Later(Convert(from, to, s, b[at + n..], room), at + n, done + t)
    ensures done + [] == done
  {
    var r := Convert(from, to, s, b[at + n..], room);
    assert done + (t + r.out) == (done + t) + r.out;
  }
}
