/** The byte queue of dep/kbuffer.c: a doubly linked list of chunks. */
module KBuffer {
  import opened Transport

  /** What one chunk holds and how much of it has been taken. */
  datatype Piece = Piece(data: seq<Byte>, pt: nat)

  predicate ValidPieces(ps: seq<Piece>) {
    forall i | 0 <= i < |ps| :: ps[i].pt <= |ps[i].data|
  }

  /** The bytes still in the queue. */
  function Flatten(ps: seq<Piece>): seq<Byte>
    requires ValidPieces(ps)
  {
    if ps == [] then [] else ps[0].data[ps[0].pt..] + Flatten(ps[1..])
  }

  function Left(p: Piece): int {
    |p.data| - p.pt
  }

  /** `kbuffer_drain`: whole chunks go while they fit, the next one is shortened. */
  function Drained(ps: seq<Piece>, n: nat): (r: seq<Piece>)
    requires ValidPieces(ps)
  {
    if ps == [] then []
    else if Left(ps[0]) <= n then
      if n == Left(ps[0]) then ps[1..] else Drained(ps[1..], n - Left(ps[0]))
    else [ps[0].(pt := ps[0].pt + n)] + ps[1..]
  }

  /** Draining drops that many bytes from the front, or all there are. */
  lemma {:induction false} DrainDrops(ps: seq<Piece>, n: nat)
    requires ValidPieces(ps)
    ensures ValidPieces(Drained(ps, n))
    ensures Flatten(Drained(ps, n)) == if n <= |Flatten(ps)| then Flatten(ps)[n..] else []
  {
    if ps != [] {
      var first, rest := ps[0].data[ps[0].pt..], ps[1..];
      if Left(ps[0]) < n {
        DrainDrops(rest, n - Left(ps[0]));
      } else if n < Left(ps[0]) {
        var r := [ps[0].(pt := ps[0].pt + n)] + rest;
        assert r[1..] == rest;
        assert ps[0].data[ps[0].pt + n..] == first[n..];
      }
    }
  }

  lemma {:induction false} FlattenAppend(ps: seq<Piece>, p: Piece)
    requires ValidPieces(ps) && p.pt <= |p.data|
    ensures ValidPieces(ps + [p]) && Flatten(ps + [p]) == Flatten(ps) + p.data[p.pt..]
  {
    if ps != [] {
      FlattenAppend(ps[1..], p);
      assert (ps + [p])[1..] == ps[1..] + [p];
    } else {
      assert ([] + [p])[1..] == [];
    }
  }

  /** No chunk is used up or was empty to begin with. */
  predicate NoneEmpty(ps: seq<Piece>) {
    forall i | 0 <= i < |ps| :: ps[i].pt < |ps[i].data|
  }

  lemma {:induction false} DrainKeepsNonEmpty(ps: seq<Piece>, n: nat)
    requires ValidPieces(ps) && NoneEmpty(ps)
    ensures NoneEmpty(Drained(ps, n))
  {
    if ps != [] && Left(ps[0]) < n {
      DrainKeepsNonEmpty(ps[1..], n - Left(ps[0]));
    }
  }

  /** The bytes left in the first chunk. */
  function HeadBytes(ps: seq<Piece>): seq<Byte>
    requires ValidPieces(ps)
  {
    if ps == [] then [] else ps[0].data[ps[0].pt..]
  }

  /** Nothing is offered although bytes wait exactly when the first chunk is used up or
      was empty to begin with, and a later one is not. */
  lemma EmptyChunkHidesIff(ps: seq<Piece>)
    requires ValidPieces(ps)
    ensures HeadBytes(ps) <= Flatten(ps)
    ensures HeadBytes(ps) == [] && Flatten(ps) != []
            <==> ps != [] && Left(ps[0]) == 0 && exists i | 0 < i < |ps| :: Left(ps[i]) > 0
  {
    EmptyIff(ps);
    if ps != [] && Left(ps[0]) == 0 && Flatten(ps) != [] {
      var i :| 0 <= i < |ps| && Left(ps[i]) > 0;
      assert 0 < i;
    }
  }

  lemma {:induction false} EmptyIff(ps: seq<Piece>)
    requires ValidPieces(ps)
    ensures Flatten(ps) == [] <==> forall i | 0 <= i < |ps| :: Left(ps[i]) == 0
  {
    if ps != [] {
      EmptyIff(ps[1..]);
      assert forall i | 0 < i < |ps| :: ps[i] == ps[1..][i - 1];
      if forall i | 0 <= i < |ps[1..]| :: Left(ps[1..][i]) == 0 {
        forall i | 0 < i < |ps| ensures Left(ps[i]) == 0 {
          assert Left(ps[1..][i - 1]) == 0;
        }
      }
    }
  }

  class Chunk {
    const data: seq<Byte>
    var size: nat
    var pt: nat
    var prev: Chunk?
    var next: Chunk?

    constructor (data: seq<Byte>, prev: Chunk?)
      ensures this.data == data && size == |data| && pt == 0 && this.prev == prev && next == null
    {
      this.data, size, pt, this.prev, next := data, |data|, 0, prev, null;
    }
  }

  class Queue {
    var size: nat
    var head: Chunk?
    var tail: Chunk?
    ghost var chunks: seq<Chunk>

    /** Head, tail and the links of the chunks describe one list. */
    ghost predicate Listed()
      reads this`head, this`tail, this`chunks, chunks
    {
      && (forall i, j | 0 <= i < j < |chunks| :: chunks[i] != chunks[j])
      && head == (if chunks == [] then null else chunks[0])
      && tail == (if chunks == [] then null else chunks[|chunks| - 1])
      && forall i | 0 <= i < |chunks| :: Linked(i)
    }

    ghost predicate Valid()
      reads this, chunks
    {
      Listed() && ValidPieces(Pieces()) && size == |Flatten(Pieces())|
    }

    ghost predicate Linked(i: nat)
      requires i < |chunks|
      reads this`chunks, chunks
    {
      var c := chunks[i];
      && c.size == |c.data| && c.pt <= c.size
      && c.prev == (if i == 0 then null else chunks[i - 1])
      && c.next == (if i + 1 == |chunks| then null else chunks[i + 1])
    }

    ghost function Pieces(): (ps: seq<Piece>)
      reads this`chunks, chunks
      ensures |ps| == |chunks| && forall i | 0 <= i < |ps| :: ps[i] == Piece(chunks[i].data, chunks[i].pt)
    {
      var cs := chunks;
      seq(|cs|, i requires 0 <= i < |cs| reads cs => Piece(cs[i].data, cs[i].pt))
    }

    ghost function Contents(): seq<Byte>
      requires Valid()
      reads this, chunks
    {
      Flatten(Pieces())
    }

    /** No chunk is empty. */
    ghost predicate Tight()
      reads this`chunks, chunks
    {
      NoneEmpty(Pieces())
    }

    constructor ()
      ensures Valid() && Tight() && Contents() == [] && chunks == []
    {
      size, head, tail, chunks := 0, null, null, [];
    }

    /** The part of `kbuffer_add` that hangs a new chunk at the end of the list. */
    method Link(chunk: Chunk)
      requires Listed() && chunk !in chunks && chunk.prev == tail && chunk.next == null
      requires chunk.size == |chunk.data| && chunk.pt <= chunk.size
      modifies this`head, this`tail, this`chunks, chunks
      ensures Listed() && chunks == old(chunks) + [chunk]
      ensures forall c | c in chunks :: c.pt == old(c.pt)
    {
      ghost var n := |chunks|;
      if tail != null {
        assert Linked(n - 1);
        tail.next := chunk;
      }
      tail := chunk;
      if head == null {
        head := chunk;
      }
      chunks := chunks + [chunk];
      forall i: nat | i < |chunks| ensures Linked(i) {
        if i < n {
          assert old(Linked(i));
        }
      }
    }

    /** `kbuffer_add`. */
    method Add(data: seq<Byte>) returns (n: nat)
      requires Valid()
      modifies this, chunks
      ensures Valid() && n == |data| && |chunks| > 0
      ensures chunks[..|chunks| - 1] == old(chunks) && fresh(chunks[|chunks| - 1])
      ensures Contents() == old(Contents()) + data
      ensures old(Tight()) && data != [] ==> Tight()
    {
      hide Flatten, ValidPieces, Linked, Listed;
      ghost var ps := Pieces();
      FlattenAppend(ps, Piece(data, 0));
      var chunk := new Chunk(data, tail);
      Link(chunk);
      size := size + |data|;
      assert Pieces() == ps + [Piece(data, 0)];
      return |data|;
    }

    /** `_kbuffer_chuck_free`, which is only called on the head, so that `prev` is null. */
    method ChunkFree(chunk: Chunk) returns (next: Chunk?)
      requires Valid() && chunk == head
      modifies this, chunks
      ensures Valid() && next == head && chunks == old(chunks)[1..]
      ensures Pieces() == old(Pieces())[1..]
    {
      hide Flatten, ValidPieces;
      ghost var ps := Pieces();
      assert Linked(0);
      FlattenHead(ps);
      var prev := chunk.prev;
      next := chunk.next;
      if next != null {
        assert Linked(1);
        next.prev := prev;
      }
      if tail == chunk {
        tail := prev;
      }
      head := next;
      size := size - (chunk.size - chunk.pt);
      chunks := chunks[1..];
      assert Pieces() == ps[1..];
      forall k: nat | k < |chunks| ensures Linked(k) {
        assert old(Linked(k + 1)) && chunks[k] == old(chunks)[k + 1];
      }
    }

    /** `_kbuffer_chuck_remove` on the head. */
    method ChunkRemove(chunk: Chunk, n: nat)
      requires Valid() && head == chunk && chunk.pt + n <= chunk.size
      modifies this, chunks
      ensures Valid() && chunks == old(chunks)
      ensures Pieces() == [old(Pieces())[0].(pt := old(Pieces())[0].pt + n)] + old(Pieces())[1..]
    {
      ghost var ps := Pieces();
      assert Linked(0);
      FlattenShortened(ps, n);
      size := size - n;
      chunk.pt := chunk.pt + n;
      assert Pieces() == [ps[0].(pt := ps[0].pt + n)] + ps[1..];
      forall i: nat | i < |chunks| ensures Linked(i) {
        assert old(Linked(i));
      }
    }

    /** One turn of `kbuffer_drain`: false when it is done. */
    method DrainHead(left: nat) returns (again: bool, rest: nat)
      requires Valid() && head != null && ValidPieces(Pieces())
      modifies this, chunks
      ensures Valid() && ValidPieces(Pieces())
      ensures chunks == old(chunks)[1..] || (!again && chunks == old(chunks))
      ensures if again then Drained(Pieces(), rest) == Drained(old(Pieces()), left)
              else Pieces() == Drained(old(Pieces()), left)
    {
      ghost var ps := Pieces();
      DrainSteps(ps, left);
      hide Flatten, Drained, ValidPieces;
      assert Linked(0) && Left(ps[0]) == head.size - head.pt;
      var cs := head.size - head.pt;
      if cs <= left {
        var _ := ChunkFree(head);
        again, rest := cs != left, left - cs;
      } else {
        ChunkRemove(head, left);
        again, rest := false, 0;
      }
    }

    /** `kbuffer_drain`. */
    method Drain(n: nat)
      requires Valid()
      modifies this, chunks
      ensures Valid() && Contents() == if n <= |old(Contents())| then old(Contents())[n..] else []
      ensures old(Tight()) ==> Tight()
      ensures |chunks| <= |old(chunks)| && chunks == old(chunks)[|old(chunks)| - |chunks|..]
    {
      ghost var ps := Pieces();
      DrainDrops(ps, n);
      if NoneEmpty(ps) {
        DrainKeepsNonEmpty(ps, n);
      }
      hide Flatten, Drained, ValidPieces, NoneEmpty;
      DrainAll(n);
    }

    /** The loop of `kbuffer_drain`. */
    method DrainAll(n: nat)
      requires Valid()
      modifies this, chunks
      ensures Valid() && ValidPieces(old(Pieces())) && Pieces() == Drained(old(Pieces()), n)
      ensures |chunks| <= |old(chunks)| && chunks == old(chunks)[|old(chunks)| - |chunks|..]
    {
      hide *;
      ValidMeans();
      var again, left := true, n;
      while again && head != null
        invariant Valid() && ValidPieces(Pieces())
        invariant if again then Drained(Pieces(), left) == Drained(old(Pieces()), n)
                  else Pieces() == Drained(old(Pieces()), n)
        invariant |chunks| <= |old(chunks)| && chunks == old(chunks)[|old(chunks)| - |chunks|..]
        decreases again, |chunks|
      {
        ValidMeans();
        again, left := DrainHead(left);
      }
      if again {
        ValidMeans();
        DrainSteps(Pieces(), left);
      }
    }

    lemma ValidMeans()
      requires Valid()
      ensures ValidPieces(Pieces()) && (head == null <==> chunks == [])
    {
    }

    /** `kbuffer_get_contiguous_data`: the bytes left in the head chunk. */
    method GetContiguous() returns (data: seq<Byte>)
      requires Valid()
      ensures ValidPieces(Pieces()) && data == HeadBytes(Pieces()) && data <= Contents()
      ensures data == [] <==> Contents() == [] || (chunks != [] && chunks[0].pt == |chunks[0].data|)
      ensures Tight() && Contents() != [] ==> data != []
    {
      if head == null {
        return [];
      }
      assert Linked(0);
      data := head.data[head.pt..];
    }

    method GetSize() returns (n: nat)
      requires Valid()
      ensures n == |Contents()|
    {
      n := size;
    }

    /** `kbuffer_get_chunk_count`. */
    method ChunkCount() returns (c: nat)
      requires Valid()
      ensures c == |chunks|
    {
      c := 0;
      var next := head;
      while next != null
        invariant c <= |chunks| && next == if c < |chunks| then chunks[c] else null
        decreases |chunks| - c
      {
        assert Linked(c);
        next := next.next;
        c := c + 1;
      }
    }
  }

  lemma DrainSteps(ps: seq<Piece>, n: nat)
    requires ValidPieces(ps)
    ensures ps == [] ==> Drained(ps, n) == []
    ensures ps != [] ==>
              && ValidPieces(ps[1..])
              && (n == Left(ps[0]) ==> Drained(ps, n) == ps[1..])
              && (n > Left(ps[0]) ==> Drained(ps, n) == Drained(ps[1..], n - Left(ps[0])))
              && (n < Left(ps[0]) ==> Drained(ps, n) == [ps[0].(pt := ps[0].pt + n)] + ps[1..])
  {
  }

  lemma FlattenShortened(ps: seq<Piece>, n: nat)
    requires ValidPieces(ps) && ps != [] && ps[0].pt + n <= |ps[0].data|
    ensures var after := [ps[0].(pt := ps[0].pt + n)] + ps[1..];
            ValidPieces(after) && |Flatten(after)| + n == |Flatten(ps)|
  {
    var after := [ps[0].(pt := ps[0].pt + n)] + ps[1..];
    assert after[1..] == ps[1..];
  }

  lemma FlattenHead(ps: seq<Piece>)
    requires ValidPieces(ps) && ps != []
    ensures ValidPieces(ps[1..]) && |Flatten(ps[1..])| == |Flatten(ps)| - Left(ps[0])
  {
  }
}
