/** `SpeechToText.transcribe` (modules/speech_to_text.py): decode, normalise
    to mono 16 kHz 16-bit PCM in a scratch WAV, check its format, then feed
    the Vosk recognizer 4000-frame chunks and assemble the transcript. */
module SpeechToText {
  import opened Effects
  import opened Text
  import opened Audio

  const TargetRate := 16000
  const ChunkFrames := 4000
  /** Bytes per sample of `subtype='PCM_16'`. */
  const SampleWidth := 2
  const Uncompressed := "NONE"

  /** What `wave.open` reports: `getnchannels`, `getsampwidth`,
      `getcomptype`, `getframerate`. */
  datatype WavHeader = WavHeader(channels: nat, sampleWidth: nat, compType: string, rate: int)

  /** A WAV file: header and one PCM value per (mono) frame. */
  datatype Wav = Wav(header: WavHeader, frames: seq<int>)

  /** The header `sf.write(name, int16_mono, 16000, subtype='PCM_16')` writes. */
  const ScratchHeader := WavHeader(1, SampleWidth, Uncompressed, TargetRate)

  /** The Vosk `KaldiRecognizer`, which keeps state across calls: after the
      chunks `fed` so far (last one newest) at a frame rate, `accept` is
      `None` when `AcceptWaveform` is false and otherwise the `"text"` of
      `Result()` (`""` when the key is missing); `final` is the `"text"` of
      `FinalResult()`. */
  datatype Recognizer = Recognizer(
    accept: (int, seq<seq<int>>) -> Option<string>,
    final: (int, seq<seq<int>>) -> string)

  /** The libraries and file system `transcribe` relies on. */
  datatype SttEnv = SttEnv(
    onDisk: string -> bool,                                // os.path.exists
    read: string -> Outcome<Clip>,                         // sf.read(path, dtype='float32')
    resample: (seq<real>, int, int) -> Outcome<seq<real>>, // resampy.resample
    scratch: string,                                       // the NamedTemporaryFile's name
    write: Wav -> bool,                                    // sf.write returned (true) or raised
    open: Wav -> Outcome<Wav>,                             // wave.open on the written file
    recognizer: Recognizer)

  /** The outcome of the `try`/`except`/`finally` conversion block: the open
      wave handle (`None` after the `except` branch) and the file actions. */
  datatype Conversion = Conversion(handle: Option<Wav>, ops: seq<FsOp>)

  datatype Transcription = Transcription(text: string, ops: seq<FsOp>)

  /** Downmix, resample to 16 kHz when needed, quantise: the WAV to write. */
  function Normalize(clip: Clip, resample: (seq<real>, int, int) -> Outcome<seq<real>>): (r: Outcome<Wav>)
    ensures r.Returned? ==> r.value.header == ScratchHeader
    ensures r.Returned? <==> clip.rate == TargetRate || resample(Downmix(clip), clip.rate, TargetRate).Returned?
    // a clip already at 16 kHz is not resampled: one PCM value per frame of the clip
    ensures clip.rate == TargetRate ==> r == Returned(Wav(ScratchHeader, Pcm16(Downmix(clip))))
    ensures clip.rate != TargetRate && r.Returned? ==>
            r.value.frames == Pcm16(resample(Downmix(clip), clip.rate, TargetRate).value)
  {
    var mono := Downmix(clip);
    var rate := clip.rate;
    if rate != TargetRate then
      match resample(mono, rate, TargetRate)
      case Raised => Raised
      case Returned(resampled) => Returned(Wav(WavHeader(1, SampleWidth, Uncompressed, TargetRate), Pcm16(resampled)))
    else
      Returned(Wav(WavHeader(1, SampleWidth, Uncompressed, rate), Pcm16(mono)))
  }

  /** The WAV the conversion block writes for `path`, if it gets that far. */
  function ScratchWav(path: string, env: SttEnv): Option<Wav> {
    match env.read(path)
    case Raised => None
    case Returned(clip) =>
      match Normalize(clip, env.resample)
      case Raised => None
      case Returned(wav) => Some(wav)
  }

  /** The conversion block exactly as written: `temp_wav_file` is assigned
      only after `sf.write` returns, so when the write raises, the `finally`
      clause does not know the file it must remove. */
  function ConvertAsWritten(path: string, env: SttEnv): (c: Conversion)
    ensures ScratchWav(path, env).None? ==> c == Conversion(None, [])
    ensures c.handle.Some? <==> ScratchWav(path, env).Some? && env.write(ScratchWav(path, env).value)
                                && env.open(ScratchWav(path, env).value).Returned?
    ensures c.handle.Some? ==> c.handle.value == env.open(ScratchWav(path, env).value).value
    // the one path that loses track of the scratch file
    ensures !LeavesNoScratch(c.ops) <==> ScratchWav(path, env).Some? && !env.write(ScratchWav(path, env).value)
  {
    match ScratchWav(path, env)
    case None => Conversion(None, [])
    case Some(wav) =>
      if !env.write(wav) then
        var ops := [Create(env.scratch)];
        assert ops[0].Create?;
        Conversion(None, ops)
      else match env.open(wav)
        case Raised =>
          var ops := [Create(env.scratch), Remove(env.scratch)];
          assert ops[1] == Remove(env.scratch);
          Conversion(None, ops)
        case Returned(h) =>
          var ops := [Create(env.scratch), Open(env.scratch), Remove(env.scratch)];
          assert ops[2] == Remove(env.scratch);
          Conversion(Some(h), ops)
  }

  /** A failing `sf.write` leaves the scratch WAV behind. */
  lemma ConvertAsWrittenLeaks(path: string, env: SttEnv)
    requires ScratchWav(path, env).Some? && !env.write(ScratchWav(path, env).value)
    ensures !LeavesNoScratch(ConvertAsWritten(path, env).ops)
  {
    var ops := ConvertAsWritten(path, env).ops;
    assert ops == [Create(env.scratch)];
    assert ops[0].Create?;
  }

  /** The conversion block with the scratch name recorded as soon as the
      file exists, so that `finally` removes it on every path. */
  function Convert(path: string, env: SttEnv): (c: Conversion)
    ensures LeavesNoScratch(c.ops)
    ensures ScratchWav(path, env).None? ==> c == Conversion(None, [])
    ensures c.handle.Some? <==> ScratchWav(path, env).Some? && env.write(ScratchWav(path, env).value)
                                && env.open(ScratchWav(path, env).value).Returned?
    ensures c.handle.Some? ==> c.handle.value == env.open(ScratchWav(path, env).value).value
    ensures c.handle.Some? ==> c.ops == [Create(env.scratch), Open(env.scratch), Remove(env.scratch)]
    // once the WAV exists, the trace opens with its creation, and the file is
    // removed even when the write or the open raises
    ensures ScratchWav(path, env).Some? ==> |c.ops| > 0 && c.ops[0] == Create(env.scratch)
    ensures ScratchWav(path, env).Some? && c.handle.None? ==> c.ops == [Create(env.scratch), Remove(env.scratch)]
  {
    match ScratchWav(path, env)
    case None => Conversion(None, [])
    case Some(wav) =>
      var created := [Create(env.scratch), Remove(env.scratch)];
      assert created[1] == Remove(env.scratch);
      if !env.write(wav) then Conversion(None, created)
      else match env.open(wav)
        case Raised => Conversion(None, created)
        case Returned(h) =>
          var ops := [Create(env.scratch), Open(env.scratch), Remove(env.scratch)];
          assert ops[2] == Remove(env.scratch);
          Conversion(Some(h), ops)
  }

  /** Both versions agree whenever the write succeeds. */
  lemma ConvertAgreesWhenWriteSucceeds(path: string, env: SttEnv)
    requires ScratchWav(path, env).None? || env.write(ScratchWav(path, env).value)
    ensures Convert(path, env) == ConvertAsWritten(path, env)
  {
  }

  /** The recognizer only takes mono 16-bit uncompressed audio. */
  predicate FormatOk(h: WavHeader) {
    h.channels == 1 && h.sampleWidth == SampleWidth && h.compType == Uncompressed
  }

  /** A file system that reads back what was written never trips the
      format guard, and the recognizer then runs at 16 kHz. */
  lemma WrittenWavPassesGuard(path: string, env: SttEnv)
    requires ScratchWav(path, env).Some?
    requires var wav := ScratchWav(path, env).value; env.write(wav) && env.open(wav) == Returned(wav)
    ensures Convert(path, env).handle.Some?
    ensures FormatOk(Convert(path, env).handle.value.header)
    ensures Convert(path, env).handle.value.header.rate == TargetRate
  {
  }

  function Min(a: int, b: int): int { if a < b then a else b }

  /** `wf.readframes(4000)` until an empty read: consecutive chunks of at
      most 4000 frames. */
  function Chunks(frames: seq<int>): seq<seq<int>>
    decreases |frames|
  {
    if |frames| == 0 then []
    else
      var n := Min(ChunkFrames, |frames|);
      [frames[..n]] + Chunks(frames[n..])
  }

  function Flatten(chunks: seq<seq<int>>): seq<int> {
    if |chunks| == 0 then [] else chunks[0] + Flatten(chunks[1..])
  }

  /** The chunks cover the frames in order, none empty, every one but the
      last exactly 4000 frames long. */
  lemma {:induction false} ChunksPartition(frames: seq<int>)
    ensures Flatten(Chunks(frames)) == frames
    ensures forall i :: 0 <= i < |Chunks(frames)| ==> 0 < |Chunks(frames)[i]| <= ChunkFrames
    ensures forall i :: 0 <= i < |Chunks(frames)| - 1 ==> |Chunks(frames)[i]| == ChunkFrames
    decreases |frames|
  {
    if |frames| > 0 {
      var n := Min(ChunkFrames, |frames|);
      var rest := Chunks(frames[n..]);
      ChunksPartition(frames[n..]);
      var cs := [frames[..n]] + rest;
      assert Chunks(frames) == cs;
      assert cs[1..] == rest;
      assert Flatten(cs) == frames[..n] + Flatten(rest);
      assert frames == frames[..n] + frames[n..];
      forall i | 0 <= i < |cs| - 1 ensures |cs[i]| == ChunkFrames {
        if i > 0 { assert cs[i] == rest[i - 1]; } else { assert |frames[n..]| > 0; }
      }
      forall i | 0 <= i < |cs| ensures 0 < |cs[i]| <= ChunkFrames {
        if i > 0 { assert cs[i] == rest[i - 1]; }
      }
    }
  }

  /** `partial.get("text", "") + " "` for an accepted chunk, nothing otherwise. */
  function Piece(accepted: Option<string>): string {
    match accepted
    case None => ""
    case Some(t) => t + " "
  }

  /** The accepted partial results over the chunks fed so far, each
      followed by a space, in feeding order. */
  function Accepted(rec: Recognizer, rate: int, fed: seq<seq<int>>): string {
    if |fed| == 0 then ""
    else Accepted(rec, rate, fed[..|fed| - 1]) + Piece(rec.accept(rate, fed))
  }

  /** The transcript of an opened WAV: the accepted partials, then the final
      result, stripped. */
  function Recognized(wav: Wav, rec: Recognizer): string {
    var chunks := Chunks(wav.frames);
    Strip(Accepted(rec, wav.header.rate, chunks) + rec.final(wav.header.rate, chunks))
  }

  /** The recognition loop as written: read up to 4000 frames, stop on an
      empty read, append each accepted result and a space, then the final
      result, and strip. */
  method RecognizeLoop(wav: Wav, rec: Recognizer) returns (text: string)
    ensures text == Recognized(wav, rec)
  {
    var rate := wav.header.rate;
    var frames := wav.frames;
    var result := "";
    var pos := 0;
    var fed: seq<seq<int>> := [];
    while true
      invariant 0 <= pos <= |frames|
      invariant fed + Chunks(frames[pos..]) == Chunks(frames)
      invariant result == Accepted(rec, rate, fed)
      decreases |frames| - pos
    {
      var next := Min(pos + ChunkFrames, |frames|);
      var data := frames[pos..next];
      if |data| == 0 {
        break;
      }
      LoopStep(rec, rate, frames, pos, fed, result);
      pos := next;
      fed := fed + [data];
      var accepted := rec.accept(rate, fed);
      if accepted.Some? {
        result := result + (accepted.value + " ");
      }
    }
    LoopDone(frames, pos, fed);
    result := result + rec.final(rate, fed);
    text := Strip(result);
  }

  /** One turn of the loop keeps both invariants: the chunk read is the next
      chunk, and its piece extends the accepted text. */
  lemma LoopStep(rec: Recognizer, rate: int, frames: seq<int>, pos: nat, fed: seq<seq<int>>, result: string)
    requires pos < |frames|
    requires fed + Chunks(frames[pos..]) == Chunks(frames)
    requires result == Accepted(rec, rate, fed)
    ensures var next := Min(pos + ChunkFrames, |frames|);
            var fed' := fed + [frames[pos..next]];
            && fed' + Chunks(frames[next..]) == Chunks(frames)
            && result + Piece(rec.accept(rate, fed')) == Accepted(rec, rate, fed')
  {
    var next := Min(pos + ChunkFrames, |frames|);
    FeedStep(frames, pos, fed);
    AcceptedSnoc(rec, rate, fed, frames[pos..next]);
  }

  /** An empty read means every chunk has been fed. */
  lemma LoopDone(frames: seq<int>, pos: nat, fed: seq<seq<int>>)
    requires pos <= |frames| && frames[pos..Min(pos + ChunkFrames, |frames|)] == []
    requires fed + Chunks(frames[pos..]) == Chunks(frames)
    ensures fed == Chunks(frames)
  {
    assert frames[pos..] == [];
  }

  lemma AcceptedSnoc(rec: Recognizer, rate: int, fed: seq<seq<int>>, data: seq<int>)
    ensures Accepted(rec, rate, fed + [data]) == Accepted(rec, rate, fed) + Piece(rec.accept(rate, fed + [data]))
  {
    assert (fed + [data])[..|fed|] == fed;
  }

  lemma FeedStep(frames: seq<int>, pos: nat, fed: seq<seq<int>>)
    requires pos < |frames|
    requires fed + Chunks(frames[pos..]) == Chunks(frames)
    ensures var next := Min(pos + ChunkFrames, |frames|);
            fed + [frames[pos..next]] + Chunks(frames[next..]) == Chunks(frames)
  {
    var next := Min(pos + ChunkFrames, |frames|);
    var head := [frames[pos..next]];
    var tail := Chunks(frames[next..]);
    ChunksStep(frames, pos);
    assert Chunks(frames[pos..]) == head + tail;
    assert fed + head + tail == fed + (head + tail);
  }

  lemma ChunksStep(frames: seq<int>, pos: nat)
    requires pos < |frames|
    ensures var next := Min(pos + ChunkFrames, |frames|);
            Chunks(frames[pos..]) == [frames[pos..next]] + Chunks(frames[next..])
  {
    var next := Min(pos + ChunkFrames, |frames|);
    var rest := frames[pos..];
    var n := Min(ChunkFrames, |rest|);
    assert rest[..n] == frames[pos..next];
    assert rest[n..] == frames[next..];
  }

  /** `transcribe(audio_path)`, with the corrected conversion block. */
  function Transcribe(audio: Option<string>, env: SttEnv): (r: Transcription)
    // falsy or missing path: "" and no scratch file
    ensures audio.None? || audio.value == "" || !env.onDisk(audio.value) ==> r == Transcription("", [])
    // a failure anywhere in read/convert/write/open: ""
    ensures audio.Some? && audio.value != "" && env.onDisk(audio.value) && Convert(audio.value, env).handle.None?
            ==> r.text == ""
    // an opened WAV of the wrong format: "" and the handle closed
    ensures audio.Some? && audio.value != "" && env.onDisk(audio.value) && Convert(audio.value, env).handle.Some?
            && !FormatOk(Convert(audio.value, env).handle.value.header)
            ==> r.text == ""
    ensures audio.Some? && audio.value != "" && env.onDisk(audio.value) && Convert(audio.value, env).handle.Some?
            && FormatOk(Convert(audio.value, env).handle.value.header)
            ==> r.text == Recognized(Convert(audio.value, env).handle.value, env.recognizer)
    // the trace is the conversion's, with the handle closed after it when one was opened
    ensures audio.Some? && audio.value != "" && env.onDisk(audio.value) && Convert(audio.value, env).handle.None?
            ==> r.ops == Convert(audio.value, env).ops
    ensures audio.Some? && audio.value != "" && env.onDisk(audio.value) && Convert(audio.value, env).handle.Some?
            ==> r.ops == Convert(audio.value, env).ops + [Close(env.scratch)]
    // every scratch file removed, every handle closed
    ensures LeavesNoScratch(r.ops) && ClosesHandles(r.ops)
  {
    if audio.None? || audio.value == "" || !env.onDisk(audio.value) then Transcription("", [])
    else
      var c := Convert(audio.value, env);
      match c.handle
      case None => Transcription("", c.ops)
      case Some(wav) =>
        var ops := c.ops + [Close(env.scratch)];
        assert ops == [Create(env.scratch), Open(env.scratch), Remove(env.scratch), Close(env.scratch)];
        assert ops[2] == Remove(env.scratch) && ops[3] == Close(env.scratch);
        if !FormatOk(wav.header) then Transcription("", ops)
        else Transcription(Recognized(wav, env.recognizer), ops)
  }
}
