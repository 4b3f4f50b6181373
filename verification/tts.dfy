/** `TextToSpeech.synthesize` (modules/text_to_speech.py): gTTS speech for
    Korean text, decoded from a scratch MP3 and downmixed to mono, with
    silence standing in for empty text and for any failure. */
module TextToSpeech {
  import opened Effects
  import opened Audio

  const Language := "ko"
  const FallbackRate := 44100
  /** `int(44100 * 0.5)` and `int(44100 * 1.0)` samples. */
  const EmptyTextSeconds := 0.5
  const FailureSeconds := 1.0

  /** gTTS and soundfile as `synthesize` uses them. */
  datatype TtsEnv = TtsEnv(
    prepare: (string, string) -> bool,  // gTTS(text=..., lang=...) returned (true) or raised
    save: string -> bool,               // tts.save(name) returned (true) or raised
    decode: string -> Outcome<Clip>,    // sf.read of the MP3 saved for this text
    scratch: string)                    // the NamedTemporaryFile's name

  datatype Synthesis = Synthesis(audio: Waveform, ops: seq<FsOp>)

  function Silence(seconds: real): (w: Waveform)
    requires seconds >= 0.0
    ensures w.rate == FallbackRate
    ensures |w.samples| == SampleCount(FallbackRate, seconds)
    ensures forall i :: 0 <= i < |w.samples| ==> w.samples[i] == 0.0
  {
    Waveform(Zeros(SampleCount(FallbackRate, seconds)), FallbackRate)
  }

  /** The fallback lengths come out at exactly half a second and one second
      of 44.1 kHz samples. */
  lemma SilenceLengths()
    ensures |Silence(EmptyTextSeconds).samples| == 22050
    ensures |Silence(FailureSeconds).samples| == 44100
  {
    assert (FallbackRate as real) * EmptyTextSeconds == 22050.0;
    assert (FallbackRate as real) * FailureSeconds == 44100.0;
  }

  /** Whether the gTTS / save / decode chain fails for `text`. */
  predicate ChainFails(text: string, env: TtsEnv) {
    !env.prepare(text, Language) || !env.save(text) || env.decode(text).Raised?
  }

  /** The speech for `text` when nothing fails: the decoded clip downmixed
      to mono, at the decoder's own rate. */
  function Decoded(text: string, env: TtsEnv): Waveform
    requires !ChainFails(text, env)
  {
    var clip := env.decode(text).value;
    Waveform(Downmix(clip), clip.rate)
  }

  /** `synthesize` exactly as written: `temp_audio_file` is assigned only
      after `tts.save` returns, so a raising save (gTTS fetches the speech
      over the network inside `save`) leaves the scratch MP3 behind. */
  function SynthesizeAsWritten(text: string, env: TtsEnv): (r: Synthesis)
    ensures text == "" ==> r == Synthesis(Silence(EmptyTextSeconds), [])
    ensures text != "" && ChainFails(text, env) ==> r.audio == Silence(FailureSeconds)
    ensures text != "" && !ChainFails(text, env) ==> r.audio == Decoded(text, env)
    // the one path that loses track of the scratch file
    ensures !LeavesNoScratch(r.ops) <==> text != "" && env.prepare(text, Language) && !env.save(text)
  {
    if text == "" then Synthesis(Silence(EmptyTextSeconds), [])
    else if !env.prepare(text, Language) then Synthesis(Silence(FailureSeconds), [])
    else if !env.save(text) then
      var ops := [Create(env.scratch)];
      assert ops[0].Create?;
      Synthesis(Silence(FailureSeconds), ops)
    else
      var ops := [Create(env.scratch), Remove(env.scratch)];
      assert ops[1] == Remove(env.scratch);
      match env.decode(text)
      case Raised => Synthesis(Silence(FailureSeconds), ops)
      case Returned(clip) => Synthesis(Waveform(Downmix(clip), clip.rate), ops)
  }

  /** A failing `tts.save` leaves the scratch MP3 behind. */
  lemma SynthesizeAsWrittenLeaks(text: string, env: TtsEnv)
    requires text != "" && env.prepare(text, Language) && !env.save(text)
    ensures !LeavesNoScratch(SynthesizeAsWritten(text, env).ops)
  {
    var ops := SynthesizeAsWritten(text, env).ops;
    assert ops == [Create(env.scratch)];
    assert ops[0].Create?;
  }

  /** `synthesize` with the scratch name recorded as soon as the file
      exists, so that `finally` removes it on every path. */
  function Synthesize(text: string, env: TtsEnv): (r: Synthesis)
    // empty text: half a second of silence at 44.1 kHz, no scratch file
    ensures text == "" ==> r == Synthesis(Silence(EmptyTextSeconds), [])
    // any failure: one second of silence at 44.1 kHz
    ensures text != "" && ChainFails(text, env) ==> r.audio == Silence(FailureSeconds)
    // success: the decoded samples, one per frame, at the decoder's rate
    ensures text != "" && !ChainFails(text, env) ==> r.audio == Decoded(text, env)
    ensures text != "" && !ChainFails(text, env) ==> |r.audio.samples| == env.decode(text).value.FrameCount()
    // the scratch MP3 is created once gTTS accepts the text, and removed on
    // every path after that, the failing save included
    ensures text != "" && !env.prepare(text, Language) ==> r.ops == []
    ensures text != "" && env.prepare(text, Language) ==> r.ops == [Create(env.scratch), Remove(env.scratch)]
    ensures LeavesNoScratch(r.ops) && ClosesHandles(r.ops)
  {
    if text == "" then Synthesis(Silence(EmptyTextSeconds), [])
    else if !env.prepare(text, Language) then Synthesis(Silence(FailureSeconds), [])
    else
      var ops := [Create(env.scratch), Remove(env.scratch)];
      assert ops[1] == Remove(env.scratch);
      if !env.save(text) then Synthesis(Silence(FailureSeconds), ops)
      else match env.decode(text)
        case Raised => Synthesis(Silence(FailureSeconds), ops)
        case Returned(clip) => Synthesis(Waveform(Downmix(clip), clip.rate), ops)
  }

  /** Both versions produce the same audio; they differ only in the file
      left behind when the save fails, which the corrected one removes. */
  lemma SynthesizeAudioUnchanged(text: string, env: TtsEnv)
    ensures Synthesize(text, env).audio == SynthesizeAsWritten(text, env).audio
    ensures text == "" || !env.prepare(text, Language) || env.save(text) ==>
            Synthesize(text, env) == SynthesizeAsWritten(text, env)
    ensures text != "" && env.prepare(text, Language) && !env.save(text) ==>
            Synthesize(text, env).ops == SynthesizeAsWritten(text, env).ops + [Remove(env.scratch)]
  {
  }
}
