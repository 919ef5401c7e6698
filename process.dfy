/** `process_wav_file`: read the stereo input, skip it unless it has two
    channels, mix the frames down, describe the result as uncompressed mono
    with the matching frame count, and write it with the original extra
    chunks. The wave library's own reading and writing of the header, the
    `fmt ` chunk and the `data` chunk lie outside the model: its parameters
    and frames are given, and what it writes for a parameter set and a frame
    buffer is the function `waveWrite`. */
module Process {
  import opened Bytes
  import opened Chunks
  import opened Downmix
  import opened Writer

  /** The fields of the wave library's `_wave_params` tuple. */
  datatype Params = Params(
    nchannels: int,
    sampwidth: nat,
    framerate: int,
    nframes: int,
    comptype: string,
    compname: string)

  /** `params._replace(...)` after the mix: one channel, as many frames as
      whole samples in the mono buffer, no compression; the sample width and
      the frame rate are kept. */
  function MonoParams(params: Params, mono: seq<Byte>): (m: Params)
    requires params.sampwidth >= 1
    ensures m.nchannels == 1
    ensures m.nframes * params.sampwidth <= |mono| < (m.nframes + 1) * params.sampwidth
    ensures m.sampwidth == params.sampwidth && m.framerate == params.framerate
    ensures m.comptype == "NONE" && m.compname == "not compressed"
  {
    params.(nchannels := 1, nframes := |mono| / params.sampwidth,
            comptype := "NONE", compname := "not compressed")
  }

  /** How a call ends. `MixFailed`: `convert_to_mono` raised and nothing was
      written. `SizeFailed`: packing the RIFF size raised after the chunks
      were appended, leaving `file` with the wave library's size field.
      `Written`: the finished file. */
  datatype Outcome =
    | Skipped
    | MixFailed(error: MixError)
    | SizeFailed(file: seq<Byte>)
    | Written(file: seq<Byte>)

  /** The output just before the RIFF size is patched: what the wave library
      writes for the mono parameters and frames, then the preserved chunks of
      the input. */
  function Unpatched(input: seq<Byte>, params: Params, mono: seq<Byte>,
                     waveWrite: (Params, seq<Byte>) -> seq<Byte>): seq<Byte>
    requires params.sampwidth >= 1
  {
    waveWrite(MonoParams(params, mono), mono) + Emit(Preserved(Scan(input, RiffHeaderSize)))
  }

  method ProcessWavFile(input: seq<Byte>, params: Params, frames: seq<Byte>,
                        waveWrite: (Params, seq<Byte>) -> seq<Byte>)
    returns (outcome: Outcome)
    requires params.nchannels == 2 ==>
      params.sampwidth >= 1 && params.sampwidth != 4 && params.sampwidth != 8
    ensures outcome.Skipped? <==> params.nchannels != 2
    ensures outcome.MixFailed? <==>
      params.nchannels == 2 && ConvertToMono(frames, params.sampwidth).Err?
    ensures outcome.MixFailed? ==> outcome.error == ConvertToMono(frames, params.sampwidth).error
    ensures outcome.SizeFailed? || outcome.Written? ==>
      params.nchannels == 2 && ConvertToMono(frames, params.sampwidth).Ok?
    ensures outcome.SizeFailed? ==>
      var appended := Unpatched(input, params, ConvertToMono(frames, params.sampwidth).value, waveWrite);
      !(8 <= |appended| < TwoTo32 + 8) && outcome.file == appended
    ensures outcome.Written? ==>
      var appended := Unpatched(input, params, ConvertToMono(frames, params.sampwidth).value, waveWrite);
      8 <= |appended| < TwoTo32 + 8 && outcome.file == PatchRiffSize(appended)
  {
    var chunks := ReadWavChunks(input);
    if params.nchannels != 2 {
      return Skipped;
    }
    var mixed := ConvertToMono(frames, params.sampwidth);
    if mixed.Err? {
      return MixFailed(mixed.error);
    }
    var mono := mixed.value;
    var monoParams := MonoParams(params, mono);
    var file, ok := WriteWavFile(waveWrite(monoParams, mono), chunks);
    if !ok {
      return SizeFailed(file);
    }
    return Written(file);
  }

  /** A finished file states its own length in the RIFF size field, has the
      same length as the unpatched output, and, read back from the end of the
      wave library's part, lists exactly the input's chunks other than
      "RIFF", "fmt " and "data", in their input order, provided the wave
      library's part holds at least a RIFF header and every such chunk of the
      input was read whole. */
  lemma WrittenFile(input: seq<Byte>, params: Params, frames: seq<Byte>,
                    waveWrite: (Params, seq<Byte>) -> seq<Byte>)
    requires params.nchannels == 2
    requires params.sampwidth >= 1 && params.sampwidth != 4 && params.sampwidth != 8
    requires ConvertToMono(frames, params.sampwidth).Ok?
    requires 8 <= |waveWrite(MonoParams(params, ConvertToMono(frames, params.sampwidth).value),
                             ConvertToMono(frames, params.sampwidth).value)|
    requires |Unpatched(input, params, ConvertToMono(frames, params.sampwidth).value, waveWrite)| < TwoTo32 + 8
    requires forall c :: c in Scan(input, RiffHeaderSize) && !Rewritten(c.id) ==> Complete(c)
    ensures
      var mono := ConvertToMono(frames, params.sampwidth).value;
      var prefix := waveWrite(MonoParams(params, mono), mono);
      var file := PatchRiffSize(Unpatched(input, params, mono, waveWrite));
      |file| == |prefix| + |Emit(Preserved(Scan(input, RiffHeaderSize)))| &&
      LE32(file[4..8]) == |file| - 8 &&
      Scan(file, |prefix|) == Preserved(Scan(input, RiffHeaderSize))
  {
    var mono := ConvertToMono(frames, params.sampwidth).value;
    var chunks := Scan(input, RiffHeaderSize);
    PreservedMembers(chunks);
    forall i | 0 <= i < |Preserved(chunks)|
      ensures Complete(Preserved(chunks)[i])
    {
      assert Preserved(chunks)[i] in Preserved(chunks);
    }
    PreservedRoundTrip(waveWrite(MonoParams(params, mono), mono), chunks);
  }

  /** For an input whose frame buffer holds the `nframes` stereo frames its
      header announces, the mono file announces the same number of frames,
      each half as wide. */
  lemma MonoFrameCount(params: Params, frames: seq<Byte>)
    requires params.nchannels == 2
    requires params.sampwidth == 1 || params.sampwidth == 2
    requires params.nframes >= 0
    requires |frames| == params.nframes * 2 * params.sampwidth
    ensures ConvertToMono(frames, params.sampwidth).Ok?
    ensures MonoParams(params, ConvertToMono(frames, params.sampwidth).value).nframes == params.nframes
  {
    var w := params.sampwidth;
    assert |frames| == (params.nframes * w) * 2;
    var mono := ConvertToMono(frames, w).value;
    assert |mono| == params.nframes * w;
  }
}
