/** The second half of `write_wav_file`: reopen the file that the wave
    library wrote (an opaque header and audio block), append every scanned
    chunk that is not "RIFF", "fmt " or "data" with its original size, and
    then overwrite the RIFF size at bytes 4..7 with the final length minus 8. */
module Writer {
  import opened Bytes
  import opened Chunks

  const RiffId: seq<Byte> := [0x52, 0x49, 0x46, 0x46]  // "RIFF"
  const FmtId: seq<Byte> := [0x66, 0x6D, 0x74, 0x20]   // "fmt "
  const DataId: seq<Byte> := [0x64, 0x61, 0x74, 0x61]  // "data"

  /** Chunks that the wave library has already written, and are not copied. */
  predicate Rewritten(id: FourCC)
  {
    id == RiffId || id == FmtId || id == DataId
  }

  /** The byte constants are the ASCII tags of the test
      `chunk[0] not in [b'RIFF', b'fmt ', b'data']`, whose negation is
      `Rewritten`. */
  lemma RewrittenTags(id: FourCC)
    ensures Rewritten(id) <==> id == Ascii("RIFF") || id == Ascii("fmt ") || id == Ascii("data")
  {
    assert Ascii("RIFF") == RiffId && Ascii("fmt ") == FmtId && Ascii("data") == DataId;
  }

  /** The chunks that are appended to the new file, in their original order. */
  function Preserved(cs: seq<Chunk>): (r: seq<Chunk>)
    ensures |r| <= |cs|
  {
    if cs == [] then []
    else (if Rewritten(cs[0].id) then [] else [cs[0]]) + Preserved(cs[1..])
  }

  /** Exactly the chunks whose id is not "RIFF", "fmt " or "data" are kept. */
  lemma {:induction false} PreservedMembers(cs: seq<Chunk>)
    ensures forall c :: c in Preserved(cs) <==> c in cs && !Rewritten(c.id)
  {
    if cs != [] {
      PreservedMembers(cs[1..]);
      assert cs == [cs[0]] + cs[1..];
    }
  }

  /** Filtering keeps relative order: it distributes over concatenation, so
      two preserved chunks come out in the order they came in, and nothing
      is inserted between them. */
  lemma {:induction false} PreservedAppend(a: seq<Chunk>, b: seq<Chunk>)
    ensures Preserved(a + b) == Preserved(a) + Preserved(b)
  {
    if a == [] {
      assert a + b == b;
    } else {
      var head := if Rewritten(a[0].id) then [] else [a[0]];
      assert (a + b)[0] == a[0];
      assert (a + b)[1..] == a[1..] + b;
      PreservedAppend(a[1..], b);
      calc {
        Preserved(a + b);
        head + Preserved(a[1..] + b);
        head + (Preserved(a[1..]) + Preserved(b));
        (head + Preserved(a[1..])) + Preserved(b);
        Preserved(a) + Preserved(b);
      }
    }
  }

  /** One appended chunk: id, the original size packed as '<I', the data,
      and a zero pad byte exactly when the size is odd. */
  function EncodeChunk(c: Chunk): (r: seq<Byte>)
    ensures |r| == 8 + |c.data| + c.size % 2
  {
    c.id + LE32Bytes(c.size) + c.data + (if c.size % 2 == 1 then [0] else [])
  }

  /** The appended bytes read back field by field: the id, the size that
      decodes to the original size, the data, and a zero pad byte after an
      odd size. */
  lemma EncodeChunkFields(c: Chunk)
    ensures EncodeChunk(c)[..4] == c.id
    ensures LE32(EncodeChunk(c)[4..8]) == c.size
    ensures EncodeChunk(c)[8..8 + |c.data|] == c.data
    ensures c.size % 2 == 1 ==> EncodeChunk(c)[8 + |c.data|] == 0
  {
    var r := EncodeChunk(c);
    assert r[4..8] == LE32Bytes(c.size);
  }

  /** The chunks `cs`, encoded one after another: every chunk adds at
      least its 8-byte header. */
  function Emit(cs: seq<Chunk>): (b: seq<Byte>)
    ensures |b| >= 8 * |cs|
  {
    if cs == [] then [] else EncodeChunk(cs[0]) + Emit(cs[1..])
  }

  lemma EmitOne(c: Chunk)
    ensures Emit([c]) == EncodeChunk(c)
  {
    assert [c][1..] == [];
  }

  lemma {:induction false} EmitAppend(a: seq<Chunk>, b: seq<Chunk>)
    ensures Emit(a + b) == Emit(a) + Emit(b)
  {
    if a == [] {
      assert a + b == b;
    } else {
      assert (a + b)[1..] == a[1..] + b;
      EmitAppend(a[1..], b);
    }
  }

  /** A complete chunk appended after any prefix is read back as itself,
      and the scan resumes right after its encoding. */
  lemma ChunkAtEncoded(prefix: seq<Byte>, c: Chunk, rest: seq<Byte>)
    requires Complete(c)
    ensures ChunkAt(prefix + EncodeChunk(c) + rest, |prefix|)
      == Record(c, |prefix| + |EncodeChunk(c)|)
  {
    var enc := EncodeChunk(c);
    EncodeChunkFields(c);
    var file := prefix + enc + rest;
    var p := |prefix|;
    assert file[p..p + |enc|] == enc;
    assert file[p..p + 4] == enc[..4];
    assert file[p + 4..p + 8] == enc[4..8];
    assert file[p + 8..p + 8 + c.size] == enc[8..8 + |c.data|];
  }

  /** Round trip: scanning what was appended after any prefix gives back
      exactly the chunks that were appended, provided every one of them
      carries its whole declared payload. */
  lemma {:induction false} ScanEmitted(prefix: seq<Byte>, cs: seq<Chunk>)
    requires forall i :: 0 <= i < |cs| ==> Complete(cs[i])
    ensures Scan(prefix + Emit(cs), |prefix|) == cs
    decreases |cs|
  {
    var file := prefix + Emit(cs);
    if cs == [] {
      assert file == prefix;
      ScanEnd(file, |prefix|);
    } else {
      var c, rest := cs[0], cs[1..];
      var prefix' := prefix + EncodeChunk(c);
      assert file == prefix' + Emit(rest);
      ChunkAtEncoded(prefix, c, Emit(rest));
      assert ChunkAt(file, |prefix|) == Record(c, |prefix'|);
      assert Scan(file, |prefix|) == [c] + Scan(file, |prefix'|);
      assert forall i :: 0 <= i < |rest| ==> Complete(rest[i]) by {
        forall i | 0 <= i < |rest| ensures Complete(rest[i]) {
          assert rest[i] == cs[i + 1];
        }
      }
      ScanEmitted(prefix', rest);
      assert cs == [c] + rest;
    }
  }

  /** `file.seek(p); file.write(b)` on file contents `s`: the bytes from
      `p` on are replaced by `b`, the file grows if `b` reaches past its end,
      and a gap before `p` reads as zeros. */
  function Overwrite(s: seq<Byte>, p: nat, b: seq<Byte>): (r: seq<Byte>)
    ensures |r| == Max(|s|, p + |b|)
    ensures p == |s| ==> r == s + b
  {
    var padded := if p <= |s| then s else s + seq(p - |s|, _ => 0);
    padded[..p] + b + (if p + |b| < |padded| then padded[p + |b|..] else [])
  }

  /** Byte by byte: inside the written range the new bytes, before and after
      it the old ones, and zeros in a gap past the old end. */
  lemma OverwriteAt(s: seq<Byte>, p: nat, b: seq<Byte>, i: nat)
    requires i < |Overwrite(s, p, b)|
    ensures Overwrite(s, p, b)[i] ==
      (if p <= i < p + |b| then b[i - p] else if i < |s| then s[i] else 0)
  {
  }

  /** The RIFF size patch: bytes 4..7 become the little-endian length of the
      file minus 8; the length and every other byte stay as they were. */
  function PatchRiffSize(file: seq<Byte>): (r: seq<Byte>)
    requires 8 <= |file| < TwoTo32 + 8
    ensures |r| == |file|
    ensures LE32(r[4..8]) == |file| - 8
    ensures forall i :: 0 <= i < |r| && !(4 <= i < 8) ==> r[i] == file[i]
  {
    var field := LE32Bytes(|file| - 8);
    var r := Overwrite(file, 4, field);
    forall i | 0 <= i < |r|
      ensures r[i] == if 4 <= i < 8 then field[i - 4] else file[i]
    {
      OverwriteAt(file, 4, field, i);
    }
    assert r[4..8] == field;
    r
  }

  /** The output file opened with mode 'r+b': its contents and position. */
  class FileBuffer {
    var contents: seq<Byte>
    var pos: nat

    constructor (initial: seq<Byte>)
      ensures contents == initial && pos == 0
    {
      contents := initial;
      pos := 0;
    }

    /** `seek(offset, 0)` */
    method Seek(offset: nat)
      modifies this`pos
      ensures pos == offset
    {
      pos := offset;
    }

    /** `seek(0, 2)` */
    method SeekEnd()
      modifies this`pos
      ensures pos == |contents|
    {
      pos := |contents|;
    }

    /** `tell()` */
    method Tell() returns (p: nat)
      ensures p == pos
    {
      p := pos;
    }

    /** `write(b)` at the current position, which then moves past `b`. */
    method Write(b: seq<Byte>)
      modifies this
      ensures contents == Overwrite(old(contents), old(pos), b)
      ensures pos == old(pos) + |b|
    {
      contents := Overwrite(contents, pos, b);
      pos := pos + |b|;
    }
  }

  /** The four writes that copy one chunk to the end of the file. */
  method WriteChunk(f: FileBuffer, c: Chunk)
    requires f.pos == |f.contents|
    modifies f
    ensures f.contents == old(f.contents) + EncodeChunk(c)
    ensures f.pos == |f.contents|
  {
    f.Write(c.id);
    f.Write(LE32Bytes(c.size));
    f.Write(c.data);
    if c.size % 2 == 1 {
      f.Write([0]);
    }
  }

  /** One turn of the copy loop: a chunk whose id is not rewritten by the
      wave library is copied to the end of the file; the others are not. */
  method CopyChunk(f: FileBuffer, c: Chunk)
    requires f.pos == |f.contents|
    modifies f
    ensures f.contents == old(f.contents) + Emit(Preserved([c]))
    ensures f.pos == |f.contents|
  {
    assert [c][1..] == [];
    if !Rewritten(c.id) {
      EmitOne(c);
      WriteChunk(f, c);
    }
  }

  /** What one more turn of the copy loop adds to a file that held `start`
      before the loop. */
  lemma EmitPreservedStep(start: seq<Byte>, cs: seq<Chunk>, i: nat)
    requires i < |cs|
    ensures start + Emit(Preserved(cs[..i + 1])) ==
      (start + Emit(Preserved(cs[..i]))) + Emit(Preserved([cs[i]]))
  {
    var c := cs[i];
    assert cs[..i + 1] == cs[..i] + [c];
    PreservedAppend(cs[..i], [c]);
    EmitAppend(Preserved(cs[..i]), Preserved([c]));
  }

  /** `write_wav_file` from the point where the wave library has written
      `waveOutput`: the preserved chunks are appended in order, and the RIFF
      size is patched when `struct.pack('<I', file_size - 8)` accepts the
      value; otherwise it raises and the file keeps the appended chunks with
      the old size (`ok` is false). */
  method WriteWavFile(waveOutput: seq<Byte>, chunks: seq<Chunk>) returns (file: seq<Byte>, ok: bool)
    ensures ok <==> 8 <= |waveOutput + Emit(Preserved(chunks))| < TwoTo32 + 8
    ensures ok ==> file == PatchRiffSize(waveOutput + Emit(Preserved(chunks)))
    ensures !ok ==> file == waveOutput + Emit(Preserved(chunks))
  {
    var f := new FileBuffer(waveOutput);
    f.SeekEnd();
    WritePreserved(f, chunks);
    var fileSize := f.Tell();
    f.Seek(4);
    if fileSize - 8 < 0 || fileSize - 8 >= TwoTo32 {
      return f.contents, false;
    }
    f.Write(LE32Bytes(fileSize - 8));
    return f.contents, true;
  }

  /** The copy loop of `write_wav_file`, writing at the end of the file. */
  method WritePreserved(f: FileBuffer, chunks: seq<Chunk>)
    requires f.pos == |f.contents|
    modifies f
    ensures f.contents == old(f.contents) + Emit(Preserved(chunks))
    ensures f.pos == |f.contents|
  {
    ghost var start := f.contents;
    for i := 0 to |chunks|
      invariant f.contents == start + Emit(Preserved(chunks[..i]))
      invariant f.pos == |f.contents|
    {
      EmitPreservedStep(start, chunks, i);
      CopyChunk(f, chunks[i]);
    }
    assert chunks[..|chunks|] == chunks;
  }

  /** End to end on the writer's side: after the patch, scanning the new
      file from the end of the wave library's output recovers exactly the
      preserved chunks, when each of them is complete. */
  lemma PreservedRoundTrip(waveOutput: seq<Byte>, chunks: seq<Chunk>)
    requires 8 <= |waveOutput|
    requires |waveOutput + Emit(Preserved(chunks))| < TwoTo32 + 8
    requires forall i :: 0 <= i < |Preserved(chunks)| ==> Complete(Preserved(chunks)[i])
    ensures Scan(PatchRiffSize(waveOutput + Emit(Preserved(chunks))), |waveOutput|) == Preserved(chunks)
  {
    var appended := waveOutput + Emit(Preserved(chunks));
    ScanLocal(PatchRiffSize(appended), appended, |waveOutput|);
    ScanEmitted(waveOutput, Preserved(chunks));
  }
}
