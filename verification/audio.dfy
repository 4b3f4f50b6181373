/** Decoded audio as `soundfile.read` returns it, and the normalisation both
    audio services apply to it (modules/speech_to_text.py,
    modules/text_to_speech.py). Sample values are exact reals: float32
    rounding is not modelled. */
module Audio {

  /** `soundfile.read` gives a 1-D array for a mono file and a 2-D
      (frames x channels) array otherwise. */
  datatype Clip =
    | Mono(samples: seq<real>, rate: int)
    | Multi(frames: seq<seq<real>>, rate: int)
  {
    /** `audio_data.ndim > 1` */
    predicate MultiChannel() { Multi? }

    function FrameCount(): nat {
      match this
      case Mono(s, _) => |s|
      case Multi(f, _) => |f|
    }
  }

  /** A waveform handed back to the caller: `(samples, sample_rate)`. */
  datatype Waveform = Waveform(samples: seq<real>, rate: int)

  function Sum(xs: seq<real>): real {
    if |xs| == 0 then 0.0 else Sum(xs[..|xs| - 1]) + xs[|xs| - 1]
  }

  /** The mean of one frame's channel samples (`numpy.mean`; an empty frame,
      which a decoder never yields, is given 0). */
  function Mean(xs: seq<real>): real {
    if |xs| == 0 then 0.0 else Sum(xs) / (|xs| as real)
  }

  /** A frame whose channels all carry `v` averages to `v`. */
  lemma {:induction false} SumConstant(xs: seq<real>, v: real)
    requires forall i :: 0 <= i < |xs| ==> xs[i] == v
    ensures Sum(xs) == (|xs| as real) * v
  {
    if |xs| > 0 {
      SumConstant(xs[..|xs| - 1], v);
    }
  }

  lemma MeanConstant(xs: seq<real>, v: real)
    requires |xs| > 0 && forall i :: 0 <= i < |xs| ==> xs[i] == v
    ensures Mean(xs) == v
  {
    SumConstant(xs, v);
  }

  /** `audio_data.mean(axis=1)` when the clip has more than one dimension:
      one sample per frame, and a mono clip passes through unchanged. */
  function Downmix(clip: Clip): (mono: seq<real>)
    ensures |mono| == clip.FrameCount()
    ensures clip.Mono? ==> mono == clip.samples
    ensures clip.Multi? ==> forall i :: 0 <= i < |mono| ==> mono[i] == Mean(clip.frames[i])
  {
    match clip
    case Mono(s, _) => s
    case Multi(f, _) => seq(|f|, i requires 0 <= i < |f| => Mean(f[i]))
  }

  /** A clip whose channels all carry the same signal downmixes to that
      signal. */
  lemma DownmixOfAgreeingChannels(frames: seq<seq<real>>, rate: int, signal: seq<real>)
    requires |frames| == |signal|
    requires forall i :: 0 <= i < |frames| ==> |frames[i]| > 0
    requires forall i, c :: 0 <= i < |frames| && 0 <= c < |frames[i]| ==> frames[i][c] == signal[i]
    ensures Downmix(Multi(frames, rate)) == signal
  {
    forall i | 0 <= i < |frames| ensures Mean(frames[i]) == signal[i] {
      MeanConstant(frames[i], signal[i]);
    }
  }

  /** `int(rate * duration)` for a positive duration. */
  function SampleCount(rate: nat, duration: real): (n: nat)
    requires duration >= 0.0
    ensures (n as real) <= (rate as real) * duration < (n as real) + 1.0
  {
    ((rate as real) * duration).Floor
  }

  /** `np.zeros(n, dtype=np.float32)` */
  function Zeros(n: nat): (z: seq<real>)
    ensures |z| == n && forall i :: 0 <= i < n ==> z[i] == 0.0
  {
    seq(n, _ => 0.0)
  }

  /** Python's `int(x)` on a float: truncation toward zero. */
  function TruncateTowardZero(x: real): (n: int)
    ensures x >= 0.0 ==> (n as real) <= x < (n as real) + 1.0
    ensures x < 0.0 ==> (n as real) - 1.0 < x <= (n as real)
  {
    if x >= 0.0 then x.Floor else -((-x).Floor)
  }

  /** `(audio_data * 32767).astype(np.int16)` on samples in [-1, 1]. */
  function Pcm16(samples: seq<real>): (pcm: seq<int>)
    ensures |pcm| == |samples|
    ensures forall i :: 0 <= i < |samples| && -1.0 <= samples[i] <= 1.0 ==> -32767 <= pcm[i] <= 32767
  {
    seq(|samples|, i requires 0 <= i < |samples| => TruncateTowardZero(samples[i] * 32767.0))
  }
}
