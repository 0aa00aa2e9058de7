/** Byte buffers with a read cursor and the words and strings written to them
    (BufferedTransport.cpp, BufferedTransport.h, VirtualTransportHelper.h). */
module Transport {
  import opened Text

  type Byte = x: int | 0 <= x < 256
  type Word = x: int | 0 <= x < 0x1_0000_0000

  // ---------- 32-bit words ----------

  function BigEndian(v: Word): (b: seq<Byte>)
    ensures |b| == 4
  {
    [v / 0x100_0000, v / 0x1_0000 % 0x100, v / 0x100 % 0x100, v % 0x100]
  }

  /** The four bytes of a word; `little` is the library-wide byte order switch. */
  function Encode32(v: Word, little: bool): (b: seq<Byte>)
    ensures |b| == 4
  {
    var b := BigEndian(v);
    if little then [b[3], b[2], b[1], b[0]] else b
  }

  function Join(a: int, b: int, c: int, d: int): int {
    ((a * 0x100 + b) * 0x100 + c) * 0x100 + d
  }

  function Decode32(b: seq<Byte>, little: bool): Word
    requires |b| == 4
  {
    if little then Join(b[3], b[2], b[1], b[0]) else Join(b[0], b[1], b[2], b[3])
  }

  lemma WordRoundTrip(v: Word, little: bool)
    ensures Decode32(Encode32(v, little), little) == v
  {
    var q := v / 0x100;
    var r := q / 0x100;
    assert v == 0x100 * q + v % 0x100;
    assert q == 0x100 * r + q % 0x100;
    assert r == 0x100 * (r / 0x100) + r % 0x100;
    assert v / 0x1_0000 == r && v / 0x100_0000 == r / 0x100;
  }

  /** Every four bytes are the encoding of the word they decode to. */
  lemma BytesRoundTrip(b: seq<Byte>, little: bool)
    requires |b| == 4
    ensures Encode32(Decode32(b, little), little) == b
  {
    if little {
      JoinSplits(b[3], b[2], b[1], b[0]);
    } else {
      JoinSplits(b[0], b[1], b[2], b[3]);
    }
  }

  lemma JoinSplits(a: Byte, b: Byte, c: Byte, d: Byte)
    ensures BigEndian(Join(a, b, c, d)) == [a, b, c, d]
  {
    var r: int := a as int * 0x100 + b;
    var q: int := r * 0x100 + c;
    var v := q * 0x100 + d;
    assert Join(a, b, c, d) == v;
    LastByte(a, b);
    LastByte(r, c);
    LastByte(q, d);
    HighBytes(v);
  }

  lemma LastByte(q: int, d: Byte)
    requires q >= 0
    ensures (q * 0x100 + d) / 0x100 == q && (q * 0x100 + d) % 0x100 == d
  {
  }

  lemma HighBytes(v: int)
    requires v >= 0
    ensures v / 0x1_0000 == v / 0x100 / 0x100 && v / 0x100_0000 == v / 0x100 / 0x100 / 0x100
  {
  }

  // ---------- buffers ----------

  /** A buffer and how far it has been read. */
  datatype Cursor = Cursor(buffer: seq<Byte>, pos: nat)

  predicate Valid(c: Cursor) {
    c.pos <= |c.buffer|
  }

  function Rest(c: Cursor): seq<Byte>
    requires Valid(c)
  {
    c.buffer[c.pos..]
  }

  function Extend(c: Cursor, data: seq<Byte>): Cursor {
    c.(buffer := c.buffer + data)
  }

  /** `read`: at most `n` bytes; the bytes returned are consumed. */
  function TakeBytes(c: Cursor, n: nat): (r: (seq<Byte>, Cursor))
    requires Valid(c)
    ensures Valid(r.1) && r.1.buffer == c.buffer
    ensures r.0 + Rest(r.1) == Rest(c) && |r.0| == if n <= |Rest(c)| then n else |Rest(c)|
  {
    var k := if |c.buffer| - c.pos < n then |c.buffer| - c.pos else n;
    assert c.buffer[c.pos..c.pos + k] + c.buffer[c.pos + k..] == c.buffer[c.pos..];
    (c.buffer[c.pos..c.pos + k], c.(pos := c.pos + k))
  }

  /** `readInt32`: None stands for the exception, after which the bytes that were
      there are gone. */
  function TakeInt32(c: Cursor, little: bool): (r: (Option<Word>, Cursor))
    requires Valid(c)
    ensures Valid(r.1) && r.1.buffer == c.buffer
  {
    var (b, after) := TakeBytes(c, 4);
    if |b| == 4 then (Some(Decode32(b, little)), after) else (None, after)
  }

  /** `readString32`: a length and that many bytes. */
  function TakeString32(c: Cursor, little: bool): (r: (Option<seq<Byte>>, Cursor))
    requires Valid(c)
    ensures Valid(r.1) && r.1.buffer == c.buffer
  {
    match TakeInt32(c, little)
    case (None, after) => (None, after)
    case (Some(length), after) =>
      var (b, end) := TakeBytes(after, length);
      if |b| == length then (Some(b), end) else (None, end)
  }

  function String32(s: seq<Byte>, little: bool): seq<Byte>
    requires |s| < 0x1_0000_0000
  {
    Encode32(|s|, little) + s
  }

  lemma ReadWritten(c: Cursor, v: Word, tail: seq<Byte>, little: bool)
    requires Valid(c) && Rest(c) == Encode32(v, little) + tail
    ensures TakeInt32(c, little) == (Some(v), c.(pos := c.pos + 4))
    ensures c.pos + 4 <= |c.buffer| && Rest(c.(pos := c.pos + 4)) == tail
  {
    WordRoundTrip(v, little);
    hide Encode32, Decode32;
    var w := Encode32(v, little);
    assert (w + tail)[..4] == w && (w + tail)[4..] == tail;
    assert TakeBytes(c, 4).0 == w && Rest(c.(pos := c.pos + 4)) == Rest(c)[4..];
  }

  lemma ReadWrittenString(c: Cursor, s: seq<Byte>, tail: seq<Byte>, little: bool)
    requires Valid(c) && |s| < 0x1_0000_0000 && Rest(c) == String32(s, little) + tail
    ensures TakeString32(c, little) == (Some(s), c.(pos := c.pos + 4 + |s|))
    ensures c.pos + 4 + |s| <= |c.buffer| && Rest(c.(pos := c.pos + 4 + |s|)) == tail
  {
    hide Encode32, TakeInt32;
    assert Rest(c) == Encode32(|s|, little) + (s + tail);
    ReadWritten(c, |s|, s + tail, little);
    var after := c.(pos := c.pos + 4);
    assert TakeBytes(after, |s|).0 == s;
  }

  /** When the reads fail, and that they consume what was there before they do. */
  lemma ReadsFailIff(c: Cursor, little: bool)
    requires Valid(c)
    ensures TakeInt32(c, little).0.None? <==> |Rest(c)| < 4
    ensures |Rest(c)| < 4 ==> Rest(TakeInt32(c, little).1) == [] && TakeString32(c, little).0.None?
    ensures |Rest(c)| >= 4 ==>
              var length := Decode32(Rest(c)[..4], little);
              var (s, end) := TakeString32(c, little);
              if |Rest(c)| - 4 >= length then s == Some(Rest(c)[4..4 + length]) && Rest(end) == Rest(c)[4 + length..]
              else s == None && Rest(end) == []
  {
    var (b, after) := TakeBytes(c, 4);
    hide Decode32;
    assert Rest(c)[..|b|] == b && Rest(c)[|b|..] == Rest(after);
    if |b| == 4 {
      var length := Decode32(b, little);
      var (t, end) := TakeBytes(after, length);
      assert Rest(after)[..|t|] == t && Rest(after)[|t|..] == Rest(end);
      if |t| == length {
        assert Rest(c)[4..4 + length] == t && Rest(c)[4 + length..] == Rest(end);
      }
    }
  }

  /** `BufferedTransport`. */
  class BufferedTransport {
    var buffer: seq<Byte>
    var readPos: nat

    constructor ()
      ensures State() == Cursor([], 0)
    {
      buffer, readPos := [], 0;
    }

    function State(): Cursor
      reads this
    {
      Cursor(buffer, readPos)
    }

    method Write(data: seq<Byte>)
      modifies this
      ensures State() == Extend(old(State()), data)
    {
      buffer := buffer + data;
    }

    method Read(n: nat) returns (data: seq<Byte>)
      requires Valid(State())
      modifies this
      ensures (data, State()) == TakeBytes(old(State()), n)
    {
      var size := n;
      if |buffer| - readPos < size {
        size := |buffer| - readPos;
      }
      data := buffer[readPos..readPos + size];
      readPos := readPos + size;
    }

    method ReadInt32(little: bool) returns (r: Option<Word>)
      requires Valid(State())
      modifies this
      ensures (r, State()) == TakeInt32(old(State()), little)
    {
      var b := Read(4);
      r := if |b| == 4 then Some(Decode32(b, little)) else None;
    }

    method ReadString32(little: bool) returns (r: Option<seq<Byte>>)
      requires Valid(State())
      modifies this
      ensures (r, State()) == TakeString32(old(State()), little)
    {
      var length := ReadInt32(little);
      if length.None? {
        return None;
      }
      var b := Read(length.value);
      r := if |b| == length.value then Some(b) else None;
    }

    method WriteInt32(v: Word, little: bool)
      modifies this
      ensures State() == Extend(old(State()), Encode32(v, little))
    {
      Write(Encode32(v, little));
    }

    method WriteString32(s: seq<Byte>, little: bool)
      requires |s| < 0x1_0000_0000
      modifies this
      ensures State() == Extend(old(State()), String32(s, little))
    {
      WriteInt32(|s|, little);
      Write(s);
    }

    /** `fastforward`: false stands for the exception when the buffer is too short. */
    method FastForward(n: nat) returns (ok: bool)
      modifies this
      ensures ok <==> old(readPos) + n <= |buffer|
      ensures State() == if ok then old(State()).(pos := old(readPos) + n) else old(State())
    {
      ok := readPos + n <= |buffer|;
      if ok {
        readPos := readPos + n;
      }
    }

    method Clear()
      modifies this
      ensures State() == Cursor([], 0)
    {
      buffer, readPos := [], 0;
    }
  }
}
