# stereo-oppressor in Dafny

`stereo-oppressor.py` converts stereo RIFF/WAVE files to mono and keeps
the input's extra chunks, such as `smpl`, `cue `, `LIST` and vendor chunks.
This project models the core of that script and proves properties of the
model:

- **Chunk scanner** (`read_wav_file`, module `Chunks`). The scanner skips
  the 12-byte RIFF header. It then reads chunk records of the form: a
  4-byte id, a little-endian 32-bit size, the payload, and a pad byte
  after an odd size. It stops quietly when an id read comes back empty or
  a size field is short.
  - The file is a byte sequence.
  - A read at a position returns at most the bytes that remain, as
    Python's `file.read` does.
  - The imperative loop (`ReadWavChunks`, `ReadChunk`) is proved equal to
    a declarative description of the chunk list (`ChunkAt`, `Scan`).
- **Chunk writer** (`write_wav_file`, module `Writer`). The file opened
  with `'r+b'` is a `FileBuffer` object with `seek`, `tell` and `write`.
  The writer:
  - appends every scanned chunk whose id is not "RIFF", "fmt " or "data",
    in input order, with its original size field and a zero pad byte after
    an odd size;
  - then overwrites bytes 4..7 with the file length minus 8.
- **Downmix** (`convert_to_mono`, module `Downmix`). Samples are decoded as
  signed `int8`/`int16` in the host's byte order, taken to be
  little-endian, and paired into (left, right) frames.
  Each frame becomes the float32 mean cast back to the integer type. For
  these widths that is the integer mean truncated toward zero.
- **Driver** (`process_wav_file`, module `Process`). Non-stereo input is
  skipped. The mono parameters say one channel, `len(mono) // sampwidth`
  frames, and no compression. The output is the wave library's part
  followed by the preserved chunks, with the RIFF size patched.

Module `Bytes` holds bytes, the unsigned 32-bit range and the `'<I'`
encoding.

The wave library's own reading and writing (header, `fmt `, `data`) is
modelled as given inputs:

- `params` and `frames` are what `wave.open(...).getparams()` and
  `readframes` return.
- The function parameter `waveWrite` is what `setparams`/`writeframes`
  write for a parameter set and a frame buffer.

Behaviour of the code that the model keeps as it is:

- The mean of a frame is truncated toward zero, not rounded to the
  nearest integer, and it is not clamped.
- 8-bit samples are read as signed `int8`, although 8-bit WAVE PCM is
  conventionally unsigned with a bias of 128.
- A truncated chunk list ends the scan with no diagnostic.
- A short last chunk is kept with the data that could be read and its
  declared size.

## Model

| member | source | states |
|---|---|---|
| Bytes.LE32Bytes | stereo-oppressor.py:66 | `struct.pack('<I', n)` gives four bytes that `struct.unpack('<I', ...)` decodes back to `n` |
| Bytes.LE32Injective | stereo-oppressor.py:46 | every 4-byte field is the packing of the value it decodes to, so the size encoding is one-to-one |
| Chunks.ReadAt | stereo-oppressor.py:43-50 | `file.read(n)` returns `min(n, remaining)` bytes, namely the file's bytes from the position on, and the position moves by exactly that many |
| Chunks.ChunkAt | stereo-oppressor.py:43-50 | each record moves the scan forward by at least its 8 header bytes (the scan always terminates) |
| Chunks.Scan | stereo-oppressor.py:38-52 | the chunk list from a position, in file order; it holds at most one record per 8 remaining bytes |
| Chunks.ReadWavChunks | stereo-oppressor.py:38-54 | the loop's result is exactly the declarative chunk list `Scan(file, 12)`, starting after the 12-byte header |
| Chunks.ReadChunk | stereo-oppressor.py:43-52 | one loop turn stops iff the chunk list from here is empty (empty id read or `struct.error` on a short size field); otherwise it yields the next record, and the scan resumes where the turn ends, strictly further on |
| Chunks.StreamedChunk | stereo-oppressor.py:43-50 | the sequence of streamed reads (id, size, payload, pad byte after an odd size) yields the record laid out at that position, and the next chunk starts after the pad byte |
| Chunks.ScanEnd | stereo-oppressor.py:43-46 | the list ends exactly where fewer than 8 bytes remain |
| Chunks.ScanRecordSizes | stereo-oppressor.py:46-48 | every record holds at most its declared size; only the last record can be short |
| Chunks.ScanLocal | stereo-oppressor.py:40-50 | the scan from a position depends only on the bytes from that position on |
| Writer.RewrittenTags | stereo-oppressor.py:64 | the chunks not copied are exactly those whose id is the ASCII tag `RIFF`, `fmt ` or `data` |
| Writer.Preserved | stereo-oppressor.py:63-64 | the filter keeps at most the chunks it is given |
| Writer.PreservedMembers | stereo-oppressor.py:64 | a chunk is kept iff it was scanned and its id is not "RIFF", "fmt " or "data" |
| Writer.PreservedAppend | stereo-oppressor.py:63-64 | the filter works chunk by chunk and keeps input order |
| Writer.EncodeChunk | stereo-oppressor.py:65-69 | one chunk is written as 8 + data length + (size mod 2) bytes |
| Writer.EncodeChunkFields | stereo-oppressor.py:65-69 | the written chunk is the id, the original size as `'<I'`, the data, and a zero pad byte after an odd size |
| Writer.Emit | stereo-oppressor.py:63-69 | the bytes the copy loop appends hold at least an 8-byte header per chunk; ScanEmitted proves they read back as exactly those chunks |
| Writer.ChunkAtEncoded | stereo-oppressor.py:43-50 | a complete written chunk, after any prefix, is read back by the scanner as the same record, and the scan resumes right after it |
| Writer.ScanEmitted | stereo-oppressor.py:63-69 | scanning appended complete chunks gives back exactly those chunks, in order |
| Writer.Overwrite | stereo-oppressor.py:65-74 | `seek(p); write(b)` gives a file of length `max(len, p + len(b))`, and at the end it is an append |
| Writer.OverwriteAt | stereo-oppressor.py:73-74 | after `seek(p); write(b)`, byte `i` is `b[i - p]` inside the written range, the old byte elsewhere, and zero in a gap past the old end |
| Writer.PatchRiffSize | stereo-oppressor.py:72-74 | the patch keeps the length, sets bytes 4..7 to LE32(length - 8), and changes no other byte |
| Writer.FileBuffer.constructor | stereo-oppressor.py:61 | opening with `'r+b'` gives the wave library's output with the position at 0 |
| Writer.FileBuffer.Seek | stereo-oppressor.py:73 | `seek(offset, 0)` sets the position and leaves the contents |
| Writer.FileBuffer.SeekEnd | stereo-oppressor.py:62 | `seek(0, 2)` moves to the end of the file |
| Writer.FileBuffer.Tell | stereo-oppressor.py:72 | `tell()` returns the position |
| Writer.FileBuffer.Write | stereo-oppressor.py:65-69 | `write(b)` overwrites or extends the contents at the position and advances it by `len(b)` |
| Writer.WriteChunk | stereo-oppressor.py:65-69 | the four writes append exactly the chunk's encoding and leave the position at the end |
| Writer.CopyChunk | stereo-oppressor.py:64-69 | one loop turn appends the chunk if its id is kept and nothing otherwise |
| Writer.WritePreserved | stereo-oppressor.py:62-69 | the copy loop appends the encodings of the kept chunks, in order |
| Writer.WriteWavFile | stereo-oppressor.py:61-74 | the output is the wave library's part plus the kept chunks. The size is patched iff `file_size - 8` fits in `'<I'`; otherwise `ok` is false and the file keeps the unpatched bytes |
| Writer.PreservedRoundTrip | stereo-oppressor.py:38-74 | after the patch, scanning from the end of the wave library's part recovers exactly the kept chunks, when each was read whole |
| Downmix.Unsigned | stereo-oppressor.py:78 | the unsigned little-endian reading of a 1- or 2-byte sample lies below `2 ** (8 * w)` |
| Downmix.DecodeSample | stereo-oppressor.py:78 | a 1- or 2-byte sample lies in the range of `int8`/`int16` and equals its unsigned little-endian reading or that reading minus `2 ** (8 * w)`: little-endian two's complement |
| Downmix.DecodeSampleCongruent | stereo-oppressor.py:78 | the decoded sample agrees with the unsigned little-endian reading modulo `2 ** (8 * w)`, and is the only value in range that does |
| Downmix.DecodeSampleExamples | stereo-oppressor.py:77-78 | `[0xFF]` reads as -1, `[0x80]` as -128, `[0x7F]` as 127, `[0x00, 0x80]` as -32768, `[0xFF, 0x7F]` as 32767 and `[0xFF, 0xFF]` as -1: signed, not the bias-128 reading of 8-bit audio |
| Downmix.EncodeSample | stereo-oppressor.py:81 | `tobytes` writes `w` bytes that decode back to the sample |
| Downmix.EncodeDecodeSample | stereo-oppressor.py:78 | every byte pattern is the encoding of its decoded sample |
| Downmix.DecodeSamples | stereo-oppressor.py:78 | `frombuffer` yields `len(b) / w` samples, each in range |
| Downmix.EncodeSamples | stereo-oppressor.py:81 | `tobytes` yields `w` bytes per sample |
| Downmix.DecodeSamplesAt | stereo-oppressor.py:78 | sample `i` of `frombuffer` is decoded from bytes `i*w` up to `i*w + w`, so samples keep buffer order |
| Downmix.EncodeSamplesAt | stereo-oppressor.py:81 | bytes `i*w` up to `i*w + w` of `tobytes` are the encoding of sample `i` |
| Downmix.DecodeEncodeSamples | stereo-oppressor.py:78-81 | decoding encoded samples gives them back |
| Downmix.EncodeDecodeSamples | stereo-oppressor.py:78-81 | encoding decoded samples gives back the buffer |
| Downmix.TruncMean | stereo-oppressor.py:80-81 | the mean of a frame is `(l + r) / 2` truncated toward zero, lies between `l` and `r`, and equals `l` when `l == r` |
| Downmix.Downmix | stereo-oppressor.py:79-80 | `2N` samples give `N` mono samples |
| Downmix.DownmixAt | stereo-oppressor.py:79-80 | mono sample `i` is the truncated mean of samples `2i` and `2i + 1`, so frame order is kept |
| Downmix.DownmixInRange | stereo-oppressor.py:80-81 | the mix of in-range samples is in range, so the cast back to the integer type loses nothing |
| Downmix.SamplesPairUp | stereo-oppressor.py:78-79 | the sample count is even iff the buffer is a whole number of frames |
| Downmix.ConvertToMono | stereo-oppressor.py:76-81 | widths other than 1 and 2 fail (no such dtype). A buffer that is not whole samples or not whole frames fails. Otherwise the output is half as long and decodes to the mix of the decoded input |
| Downmix.Duplicate | stereo-oppressor.py:79 | a mono signal put on both channels: sample `i` of the stereo signal is mono sample `i / 2` |
| Downmix.DownmixDuplicate | stereo-oppressor.py:79-80 | frames whose channels agree mix to the shared channel |
| Downmix.ConvertDuplicated | stereo-oppressor.py:76-81 | a stereo buffer with identical channels converts back, byte for byte, to the mono buffer it was made from |
| Process.MonoParams | stereo-oppressor.py:92-95 | the mono parameters have one channel, `len(mono) // sampwidth` frames, "NONE"/"not compressed", and the same width and rate |
| Process.ProcessWavFile | stereo-oppressor.py:83-97 | skipped iff not two channels. A mix failure happens iff `convert_to_mono` raises, with its error. Otherwise the file is the wave library's part plus the kept chunks, patched iff the size fits |
| Process.WrittenFile | stereo-oppressor.py:83-97 | a finished file states its own length in the RIFF size and, read back after the wave library's part, lists exactly the input's kept chunks in input order |
| Process.MonoFrameCount | stereo-oppressor.py:90-95 | for frames holding the announced `nframes` stereo frames, the mix succeeds and the mono file announces the same `nframes` |

## Left out

- File and directory I/O, the command line, `process_folder`, the
  `__main__` block and the console messages are not modelled. The model
  takes the input file as a byte sequence and returns the output bytes.
- The wave library (`wave.open`, `getparams`, `readframes`, `setparams`,
  `writeframes`) is not modelled. Its results are parameters of
  `ProcessWavFile`. Its checks and exceptions are not modelled.
- Downmix.ConvertToMono: sample widths 4 and 8 are excluded by its
  precondition. numpy accepts `int32`/`int64` there, but the float32 mean
  is then inexact, and float32 rounding is not modelled.
- Downmix.ConvertToMono: other widths, such as 3 (`int24`), are an error.
  numpy has no such type.
- Downmix.ConvertToMono: an empty frame buffer is modelled as giving an
  empty mono buffer.
- Downmix.DecodeSamples: the model assumes a little-endian host.
  `np.frombuffer` and `tobytes` use the host's byte order, as do the frames
  that the wave library returns, so on a big-endian host the samples would
  be read with their bytes swapped.
- Process.ProcessWavFile: stereo input with sample width 4 or 8 is
  excluded by its precondition. The code accepts it (`int32`/`int64`), but
  the float32 mean is then inexact, and float32 rounding is not modelled.
- Process.ProcessWavFile: exceptions raised inside the wave library, and
  write failures, are not outcomes of the model.
- Writer.WriteWavFile: an output shorter than 8 bytes, or one whose
  length minus 8 does not fit in 32 bits, ends with `ok` false. This stands
  for the `struct.error` raised after the chunks were written.
- Writer.PreservedRoundTrip and Process.WrittenFile: the round trip is
  stated only for kept chunks that were read whole. A short last chunk is
  written with its declared size, and scanning the output then does not
  give it back.
