/** The chunk scanner of `read_wav_file`: after the 12-byte RIFF header, walk
    the chunk list (4-byte id, little-endian 32-bit size, payload, one pad byte
    after an odd-sized payload) and collect every chunk as an (id, size, data)
    record, stopping quietly when the bytes run out. The file is an in-memory
    byte sequence; a position past its end reads nothing, as a file does. */
module Chunks {
  import opened Bytes

  /** A chunk identifier: always exactly four bytes in a scanned record. */
  type FourCC = s: seq<Byte> | |s| == 4 witness [0, 0, 0, 0]

  /** One record of the chunk list. `size` is the declared size, which does
      not count the pad byte; `data` is what could be read of the payload. */
  datatype Chunk = Chunk(id: FourCC, size: U32, data: seq<Byte>)

  /** The scan starts just past "RIFF", the RIFF size and "WAVE". */
  const RiffHeaderSize: nat := 12

  /** How many bytes a read at `pos` can still return. */
  function Remaining(file: seq<Byte>, pos: nat): (n: nat)
    ensures n <= |file|
    ensures pos <= |file| ==> n == |file| - pos
  {
    if pos >= |file| then 0 else |file| - pos
  }

  /** `file.read(n)` at position `pos`: at most `n` bytes, fewer near the
      end, none past it. The position then moves by the number read. */
  function ReadAt(file: seq<Byte>, pos: nat, n: nat): (r: seq<Byte>)
    ensures |r| == Min(n, Remaining(file, pos))
    ensures Remaining(file, pos + |r|) == Remaining(file, pos) - |r|
    ensures forall i :: 0 <= i < |r| ==> r[i] == file[pos + i]
  {
    if pos >= |file| then [] else file[pos..Min(pos + n, |file|)]
  }

  /** One turn of the chunk loop at position `pos`: either the loop stops
      there, or it appends `chunk` and continues at `next`. */
  datatype Step = Stop | Record(chunk: Chunk, next: nat)

  /** The chunk laid out at `pos`. Fewer than eight bytes (an id and a size
      field) end the list. Otherwise the id is the next four bytes, the size
      the next four read as little-endian, the data at most `size` bytes
      after them, and the next chunk starts after the data and, when the size
      is odd, one pad byte that belongs to no record. */
  function ChunkAt(file: seq<Byte>, pos: nat): (s: Step)
    ensures s.Record? ==> Remaining(file, s.next) + 8 <= Remaining(file, pos)
  {
    if Remaining(file, pos) < 8 then Stop
    else
      var size := LE32(file[pos + 4..pos + 8]);
      var end := Min(pos + 8 + size, |file|);
      Record(Chunk(file[pos..pos + 4], size, file[pos + 8..end]),
             Min(pos + 8 + size + size % 2, |file|))
  }

  /** The records of the chunk list from `pos` on, in file order. */
  function Scan(file: seq<Byte>, pos: nat): (cs: seq<Chunk>)
    ensures 8 * |cs| <= Remaining(file, pos)
    decreases Remaining(file, pos)
  {
    match ChunkAt(file, pos)
    case Stop => []
    case Record(c, next) => [c] + Scan(file, next)
  }

  /** The loop of `read_wav_file`, collecting one record per turn until a
      turn finds no chunk. */
  method ReadWavChunks(file: seq<Byte>) returns (chunks: seq<Chunk>)
    ensures chunks == Scan(file, RiffHeaderSize)
  {
    chunks := [];
    var pos: nat := RiffHeaderSize;
    ghost var all := Scan(file, pos);
    while true
      invariant chunks + Scan(file, pos) == all
      decreases Remaining(file, pos)
    {
      var done, chunk, next := ReadChunk(file, pos);
      if done {
        break;
      }
      assert chunks + Scan(file, pos) == (chunks + [chunk]) + Scan(file, next);
      chunks := chunks + [chunk];
      pos := next;
    }
  }

  /** One turn of the loop: read an id, stop if nothing came back; read a
      size field, stop if it is short (`struct.error`); read the payload,
      and skip a pad byte after an odd size. */
  method ReadChunk(file: seq<Byte>, pos: nat) returns (done: bool, chunk: Chunk, next: nat)
    ensures done <==> Scan(file, pos) == []
    ensures !done ==> Scan(file, pos) == [chunk] + Scan(file, next)
    ensures !done ==> Remaining(file, next) < Remaining(file, pos)
  {
    chunk, next := Chunk([0, 0, 0, 0], 0, []), pos;
    var id := ReadAt(file, pos, 4);
    if id == [] {
      ScanEnd(file, pos);
      return true, chunk, next;
    }
    var sizeField := ReadAt(file, pos + |id|, 4);
    if |sizeField| < 4 {
      ScanEnd(file, pos);
      return true, chunk, next;
    }
    var size := LE32(sizeField);
    var data := ReadAt(file, pos + |id| + 4, size);
    next := pos + |id| + 4 + |data|;
    if size % 2 == 1 {
      var pad := ReadAt(file, next, 1);
      next := next + |pad|;
    }
    StreamedChunk(file, pos, id, sizeField, data, next);
    chunk := Chunk(id, size, data);
    done := false;
  }

  /** What the reads of one turn of the loop return is the chunk laid out
      at `pos`, and the turn ends where the next chunk starts. */
  lemma StreamedChunk(file: seq<Byte>, pos: nat, id: seq<Byte>, sizeField: seq<Byte>, data: seq<Byte>, next: nat)
    requires id == ReadAt(file, pos, 4) && id != []
    requires sizeField == ReadAt(file, pos + |id|, 4) && |sizeField| == 4
    requires data == ReadAt(file, pos + |id| + 4, LE32(sizeField))
    requires next == pos + |id| + 4 + |data|
      + (if LE32(sizeField) % 2 == 1 then |ReadAt(file, pos + |id| + 4 + |data|, 1)| else 0)
    ensures |id| == 4
    ensures Remaining(file, next) < Remaining(file, pos)
    ensures Scan(file, pos) == [Chunk(id, LE32(sizeField), data)] + Scan(file, next)
  {
    assert id == file[pos..pos + 4];
    assert sizeField == file[pos + 4..pos + 8];
    assert ChunkAt(file, pos) == Record(Chunk(id, LE32(sizeField), data), next);
  }

  /** The scan ends exactly where fewer than eight bytes (an id and a size
      field) are left. */
  lemma ScanEnd(file: seq<Byte>, pos: nat)
    ensures Scan(file, pos) == [] <==> Remaining(file, pos) < 8
  {
  }

  /** A scanned record is complete when the whole declared payload was read. */
  predicate Complete(c: Chunk) { |c.data| == c.size }

  /** Truncation is tolerated only at the end: every record holds at most
      its declared size, and every record but the last holds all of it. */
  lemma {:induction false} ScanRecordSizes(file: seq<Byte>, pos: nat)
    ensures forall i :: 0 <= i < |Scan(file, pos)| ==> |Scan(file, pos)[i].data| <= Scan(file, pos)[i].size
    ensures forall i :: 0 <= i < |Scan(file, pos)| - 1 ==> Complete(Scan(file, pos)[i])
    decreases Remaining(file, pos)
  {
    if ChunkAt(file, pos).Record? {
      var Record(c, next) := ChunkAt(file, pos);
      ScanRecordSizes(file, next);
      assert Scan(file, pos) == [c] + Scan(file, next);
      if !Complete(c) {
        assert Remaining(file, next) == 0;
        assert Scan(file, next) == [];
      }
    }
  }

  /** Scanning from `pos` looks only at the bytes from `pos` on. */
  lemma {:induction false} ScanLocal(a: seq<Byte>, b: seq<Byte>, pos: nat)
    requires |a| == |b|
    requires forall i :: pos <= i < |a| ==> a[i] == b[i]
    ensures Scan(a, pos) == Scan(b, pos)
    decreases Remaining(a, pos)
  {
    if Remaining(a, pos) >= 8 {
      var size := LE32(a[pos + 4..pos + 8]);
      var end := Min(pos + 8 + size, |a|);
      assert a[pos..pos + 4] == b[pos..pos + 4];
      assert a[pos + 4..pos + 8] == b[pos + 4..pos + 8];
      assert a[pos + 8..end] == b[pos + 8..end];
      assert ChunkAt(a, pos) == ChunkAt(b, pos);
      ScanLocal(a, b, ChunkAt(a, pos).next);
    }
  }
}
