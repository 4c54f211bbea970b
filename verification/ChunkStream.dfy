/** Snapshot chunking (`snapshots/chunk.go`): a byte stream cut into chunks and read back. Pipes and
    channels are the byte strings that pass through them. */
module ChunkStream {
  import opened Bytes

  function Concat(cs: seq<Bytes>): Bytes {
    if cs == [] then [] else cs[0] + Concat(cs[1..])
  }

  lemma {:induction false} ConcatSplits(a: seq<Bytes>, b: seq<Bytes>)
    ensures Concat(a + b) == Concat(a) + Concat(b)
  {
    if a == [] {
      assert a + b == b;
    } else {
      assert (a + b)[1..] == a[1..] + b;
      ConcatSplits(a[1..], b);
    }
  }

  /** The chunks of a byte string: full ones, then what is left. Size 0 means a single chunk. */
  function Split(data: Bytes, size: nat): seq<Bytes>
    decreases |data|
  {
    if data == [] then []
    else if size == 0 || |data| <= size then [data]
    else [data[..size]] + Split(data[size..], size)
  }

  /** Every chunk but the last is full and no chunk is empty. */
  ghost predicate WellCut(cs: seq<Bytes>, size: nat) {
    && (forall i :: 0 <= i < |cs| ==> cs[i] != [])
    && (size == 0 ==> |cs| <= 1)
    && (size > 0 ==> forall i :: 0 <= i < |cs| ==> |cs[i]| <= size)
    && (size > 0 ==> forall i :: 0 <= i < |cs| - 1 ==> |cs[i]| == size)
  }

  lemma {:induction false} SplitIsWellCut(data: Bytes, size: nat)
    ensures WellCut(Split(data, size), size) && Concat(Split(data, size)) == data
    decreases |data|
  {
    if data != [] {
      if size == 0 || |data| <= size {
        assert Concat([data]) == data + Concat([]);
      } else {
        SplitIsWellCut(data[size..], size);
        assert data == data[..size] + data[size..];
      }
    }
  }

  /** There is only one way to cut a byte string well. */
  lemma {:induction false} WellCutIsSplit(cs: seq<Bytes>, size: nat)
    requires WellCut(cs, size)
    ensures cs == Split(Concat(cs), size)
  {
    if cs != [] {
      WellCutIsSplit(cs[1..], size);
      var data := Concat(cs);
      if |cs| == 1 {
        assert data == cs[0] + Concat([]) == cs[0];
      } else {
        assert cs[1..] != [] && cs[1..][0] != [];
        assert data[..size] == cs[0] && data[size..] == Concat(cs[1..]);
      }
    }
  }

  /** `ChunkWriter`; the last chunk is the open pipe, every chunk is what has gone through it. */
  class ChunkWriter {
    const chunkSize: nat
    var chunks: seq<Bytes>
    var open: bool
    var written: nat
    var closed: bool

    ghost predicate Valid() reads this {
      && WellCut(chunks, chunkSize)
      && (open <==> chunks != [])
      && (open ==> written == |chunks[|chunks| - 1]|)
    }

    constructor (chunkSize: nat)
      ensures Valid() && chunks == [] && !closed && this.chunkSize == chunkSize
    {
      this.chunkSize, chunks, open, written, closed := chunkSize, [], false, 0, false;
    }

    method Close()
      requires Valid()
      modifies this`closed
      ensures Valid() && closed
    {
      closed := true;
    }

    /** The chunks are those of everything written so far; a closed writer refuses. */
    method Write(data: Bytes) returns (n: nat, failed: bool)
      requires Valid()
      modifies this`chunks, this`open, this`written
      ensures Valid() && failed == closed
      ensures if failed then n == 0 && chunks == old(chunks)
              else n == |data| && chunks == Split(Concat(old(chunks)) + data, chunkSize)
    {
      if closed { return 0, true; }
      var rest := data;
      n := 0;
      while |rest| > 0
        invariant Valid() && !closed && n + |rest| == |data|
        invariant Concat(chunks) + rest == Concat(old(chunks)) + data
        decreases |rest|
      {
        var writeSize := WriteSome(rest);
        n := n + writeSize;
        assert rest == rest[..writeSize] + rest[writeSize..];
        rest := rest[writeSize..];
      }
      WellCutIsSplit(chunks, chunkSize);
      assert Concat(chunks) + rest == Concat(chunks);
      failed := false;
    }

    /** One round of the loop: as much as fits into the open pipe, after opening a new one if need be. */
    method WriteSome(rest: Bytes) returns (writeSize: nat)
      requires Valid() && rest != []
      modifies this`chunks, this`open, this`written
      ensures Valid() && 0 < writeSize <= |rest| && Concat(chunks) == Concat(old(chunks)) + rest[..writeSize]
    {
      ghost var cs := chunks;
      if !open || (written >= chunkSize && chunkSize > 0) { NextChunk(); }
      writeSize := if chunkSize == 0 then |rest| else chunkSize - written;
      if writeSize > |rest| { writeSize := |rest|; }
      PipeWritten(cs, chunks, chunkSize, rest[..writeSize]);
      chunks := chunks[..|chunks| - 1] + [chunks[|chunks| - 1] + rest[..writeSize]];
      written := written + writeSize;
    }

    /** The source's `chunk`: the next pipe, still empty, goes into the channel. */
    method NextChunk()
      modifies this`chunks, this`open, this`written
      ensures chunks == old(chunks) + [[]] && open && written == 0
    {
      chunks, open, written := chunks + [[]], true, 0;
    }
  }

  /** A write to the open pipe, which is the last chunk or a new one when that was full. */
  lemma PipeWritten(cs: seq<Bytes>, piped: seq<Bytes>, size: nat, piece: Bytes)
    requires WellCut(cs, size) && piece != []
    requires (piped == cs && cs != []) || (piped == cs + [[]] && (cs == [] || (size > 0 && |cs[|cs| - 1]| == size)))
    requires size > 0 ==> |piped[|piped| - 1]| + |piece| <= size
    ensures WellCut(piped[..|piped| - 1] + [piped[|piped| - 1] + piece], size)
    ensures Concat(piped[..|piped| - 1] + [piped[|piped| - 1] + piece]) == Concat(cs) + piece
  {
    if piped == cs {
      Extended(cs, size, piece);
    } else {
      assert piped[..|piped| - 1] == cs && [] + piece == piece;
      Added(cs, size, piece);
    }
  }

  lemma Extended(cs: seq<Bytes>, size: nat, piece: Bytes)
    requires WellCut(cs, size) && cs != [] && (size > 0 ==> |cs[|cs| - 1]| + |piece| <= size)
    ensures WellCut(cs[..|cs| - 1] + [cs[|cs| - 1] + piece], size)
    ensures Concat(cs[..|cs| - 1] + [cs[|cs| - 1] + piece]) == Concat(cs) + piece
  {
    var init, last := cs[..|cs| - 1], cs[|cs| - 1];
    assert cs == init + [last];
    ConcatSplits(init, [last]);
    ConcatSplits(init, [last + piece]);
    assert Concat([last]) == last && Concat([last + piece]) == last + piece;
  }

  lemma Added(cs: seq<Bytes>, size: nat, piece: Bytes)
    requires WellCut(cs, size) && piece != [] && (size > 0 ==> |piece| <= size)
    requires cs == [] || (size > 0 && |cs[|cs| - 1]| == size)
    ensures WellCut(cs + [piece], size) && Concat(cs + [piece]) == Concat(cs) + piece
  {
    ConcatSplits(cs, [piece]);
    assert Concat([piece]) == piece;
  }

  /** The chunks after a sequence of writes, each as `ChunkWriter.Write` specifies. */
  function AfterWrites(pieces: seq<Bytes>, size: nat): seq<Bytes> {
    if pieces == [] then []
    else Split(Concat(AfterWrites(pieces[..|pieces| - 1], size)) + pieces[|pieces| - 1], size)
  }

  /** The chunks depend only on the bytes, not on how the writes are split. */
  lemma {:induction false} ChunksIgnoreWrites(pieces: seq<Bytes>, size: nat)
    ensures AfterWrites(pieces, size) == Split(Concat(pieces), size)
  {
    if pieces != [] {
      var before, last := pieces[..|pieces| - 1], pieces[|pieces| - 1];
      ChunksIgnoreWrites(before, size);
      SplitIsWellCut(Concat(before), size);
      assert pieces == before + [last];
      ConcatSplits(before, [last]);
      assert Concat([last]) == last;
    }
  }

  // ---------- reading back ----------

  /** A chunk's reader: the bytes it still holds, and whether it reports the end of file together with its
      last bytes (an `io.Reader` may) or only afterwards, with zero bytes. */
  datatype Source = Source(data: Bytes, eager: bool)

  function Datas(ss: seq<Source>): seq<Bytes> {
    seq(|ss|, i requires 0 <= i < |ss| => ss[i].data)
  }

  predicate Lossy(s: Source) {
    s.eager && s.data != []
  }

  function Total(ss: seq<Source>): Bytes {
    Concat(Datas(ss))
  }

  ghost predicate AnyLossy(ss: seq<Source>) {
    exists i :: 0 <= i < |ss| && Lossy(ss[i])
  }

  /** Reading `out` from `before` leaves `after`: nothing is lost unless a source is lossy, and then its last
      bytes are either still ahead or lost. */
  ghost predicate Kept(before: seq<Source>, out: Bytes, after: seq<Source>) {
    && |out| + |Total(after)| <= |Total(before)|
    && (AnyLossy(before) ==> AnyLossy(after) || |out| + |Total(after)| < |Total(before)|)
    && (!AnyLossy(before) ==> !AnyLossy(after) && out + Total(after) == Total(before))
  }

  lemma TotalSplits(s: Source, rest: seq<Source>)
    ensures Total([s] + rest) == s.data + Total(rest)
    ensures AnyLossy([s] + rest) <==> Lossy(s) || AnyLossy(rest)
  {
    var ss := [s] + rest;
    assert Datas(ss)[1..] == Datas(rest);
    if i :| 0 <= i < |rest| && Lossy(rest[i]) { assert ss[i + 1] == rest[i]; }
    if Lossy(s) { assert ss[0] == s; }
  }

  lemma KeptTake(s: Source, rest: seq<Source>, n: nat)
    requires n <= |s.data| && !(n == |s.data| && s.eager)
    ensures Kept([s] + rest, s.data[..n], [s.(data := s.data[n..])] + rest)
  {
    TotalSplits(s, rest);
    TotalSplits(s.(data := s.data[n..]), rest);
    assert s.data == s.data[..n] + s.data[n..];
  }

  lemma KeptDrop(s: Source, rest: seq<Source>, out: Bytes, after: seq<Source>)
    requires (s.data == [] || s.eager) && Kept(rest, out, after)
    ensures Kept([s] + rest, out, after)
  {
    TotalSplits(s, rest);
    assert s.data == [] ==> Total([s] + rest) == Total(rest);
  }

  lemma KeptThen(a: seq<Source>, out: Bytes, b: seq<Source>, more: Bytes, c: seq<Source>)
    requires Kept(a, out, b) && Kept(b, more, c)
    ensures Kept(a, out + more, c)
  {
    assert out + more + Total(c) == out + (more + Total(c));
  }

  /** `ChunkReader`: the sources still in the channel and the one being read. */
  class ChunkReader {
    var ch: seq<Source>
    var reader: Option<Source>

    ghost function Pending(): seq<Source> reads this {
      if reader.Some? then [reader.value] + ch else ch
    }

    constructor (ch: seq<Source>)
      ensures Pending() == ch
    {
      this.ch, reader := ch, None;
    }

    /** Reads into a buffer of the given size. A chunk that reports the end of file is dropped, with any bytes
        it reported in the same call; otherwise no byte is lost. */
    method Read(size: nat) returns (out: Bytes, eof: bool)
      requires size > 0
      modifies this
      ensures Kept(old(Pending()), out, Pending())
      ensures if eof then out == [] && Pending() == [] else out != []
      decreases |Pending()|
    {
      if reader.None? {
        if |ch| == 0 { return [], true; }
        assert ch == [ch[0]] + ch[1..];
        reader, ch := Some(ch[0]), ch[1..];
      }
      var s := reader.value;
      ghost var rest := ch;
      assert old(Pending()) == [s] + rest;
      var n := ReadSome(s, size);
      if n == |s.data| && (n == 0 || s.eager) {
        reader := None;
        out, eof := Read(size);
        KeptDrop(s, rest, out, Pending());
      } else {
        reader := Some(s.(data := s.data[n..]));
        KeptTake(s, rest, n);
        out, eof := s.data[..n], false;
      }
    }
  }

  /** How much a source delivers into a buffer: something, if there is anything. */
  method ReadSome(s: Source, size: nat) returns (n: nat)
    requires size > 0
    ensures n <= |s.data| && n <= size && (s.data != [] ==> n > 0)
  {
    if s.data == [] { return 0; }
    n :| 0 < n <= |s.data| && n <= size;
  }

  /** Reading to the end with any sequence of non-empty buffers returns all the bytes of all the chunks, if and
      only if no chunk reports the end of file together with its last bytes. */
  method ReadAll(r: ChunkReader, sizes: nat -> nat) returns (out: Bytes)
    requires forall i :: sizes(i) > 0
    modifies r
    ensures out == Total(old(r.Pending())) <==> !AnyLossy(old(r.Pending()))
  {
    out := [];
    var eof, i := false, 0;
    ghost var ss := r.Pending();
    assert Kept(ss, [], ss) by { assert [] + Total(ss) == Total(ss); }
    while !eof
      invariant Kept(ss, out, r.Pending()) && (eof ==> r.Pending() == [])
      decreases if eof then 0 else 1, |Total(ss)| - |out|
    {
      ghost var before := r.Pending();
      var more;
      more, eof := r.Read(sizes(i));
      KeptThen(ss, out, before, more, r.Pending());
      out, i := out + more, i + 1;
    }
    assert Total([]) == [] && !AnyLossy([]) && out + [] == out;
  }

  method WriteAll(w: ChunkWriter, pieces: seq<Bytes>)
    requires w.Valid() && !w.closed && w.chunks == []
    modifies w
    ensures w.Valid() && w.chunks == Split(Concat(pieces), w.chunkSize)
  {
    for n := 0 to |pieces|
      invariant w.Valid() && !w.closed && w.chunks == AfterWrites(pieces[..n], w.chunkSize)
    {
      assert pieces[..n + 1][..n] == pieces[..n];
      var size, failed := w.Write(pieces[n]);
    }
    assert pieces[..|pieces|] == pieces;
    ChunksIgnoreWrites(pieces, w.chunkSize);
  }

  /** What is written in any pieces, cut into chunks and read back with any buffers comes out as it went in, if and
      only if no chunk's reader reports the end of file together with its last bytes. */
  method WriteThenRead(pieces: seq<Bytes>, chunkSize: nat, eager: nat -> bool, sizes: nat -> nat) returns (out: Bytes)
    requires forall i :: sizes(i) > 0
    ensures out == Concat(pieces) <==> forall k :: 0 <= k < |Split(Concat(pieces), chunkSize)| ==> !eager(k)
  {
    var w := new ChunkWriter(chunkSize);
    WriteAll(w, pieces);
    var chunks := w.chunks;
    var ss := seq(|chunks|, k requires 0 <= k < |chunks| => Source(chunks[k], eager(k)));
    SplitIsWellCut(Concat(pieces), chunkSize);
    assert Datas(ss) == chunks;
    assert forall k :: 0 <= k < |ss| ==> (Lossy(ss[k]) <==> eager(k));
    var r := new ChunkReader(ss);
    out := ReadAll(r, sizes);
  }
}
