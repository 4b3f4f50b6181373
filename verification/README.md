# face2chat core in Dafny

face2chat is an emotion-aware voice chatbot. One conversational turn
(`Face2ChatPipeline.run`) takes a camera image and a recorded audio file and
does four things:

1. It classifies the face's dominant emotion (`EmotionDetector.detect`, built on DeepFace).
2. It lists the objects in view (`VisionAnalyzer.analyze_scene`, built on YOLOv8).
3. It transcribes the speech (`SpeechToText.transcribe`, built on Vosk). This normalises the audio to a mono 16 kHz 16-bit scratch WAV first.
4. It builds a reply and speaks it (`TextToSpeech.synthesize`, built on gTTS).

The reply is built one of two ways:

- When the transcript is too short, the turn gives a fallback reply, which may ask about the detected objects.
- Otherwise, `ChatbotEngine.generate_response` echoes the scene and the transcript behind an emotion-dependent prefix.

This project models that turn and each service's policy as pure functions.

**External libraries.** Each one is a function-valued parameter: the classifier, the detector, the audio decoder, the resampler, the WAV writer and reader, the Vosk recognizer, gTTS, and the MP3 decoder. They return a value or raise (`Outcome`).

**Files.** Scratch-file creation and removal, and wave-handle opening and closing, are recorded as a trace (`FsOp`). "No scratch file is left behind" is stated over that trace.

**Strings.** Python string operations are modelled as the source uses them: `strip` with Python's whitespace set, `in`, `split(sep)[1]`, `', '.join`, and `replace('.', '')`.

**Audio.** Samples are exact reals. Downmixing averages the channels of each frame, and quantisation truncates toward zero as `astype(np.int16)` does.

Modules, one per file:

| file | module | models |
|---|---|---|
| effects.dfy | `Effects` | `Option`, raising calls, the scratch-file trace and its cleanliness predicates |
| text.dfy | `Text` | `strip`, `find`/`in`, `split`, `join`, `replace`, `list(set(...))` |
| images.dfy | `Images` | image inputs (`None`, path, array, other) and `cv2.imread` |
| audio.dfy | `Audio` | decoded clips, `mean(axis=1)`, `np.zeros(int(rate * sec))`, int16 quantisation |
| emotion.dfy | `EmotionDetector` | `detect` |
| vision.dfy | `VisionAnalyzer` | `analyze_scene` |
| chatbot.dfy | `ChatbotEngine` | `generate_response`, `respond` |
| stt.dfy | `SpeechToText` | `transcribe` and its chunked recognition loop |
| tts.dfy | `TextToSpeech` | `synthesize` |
| pipeline.dfy | `Pipeline` | `run` |

## Model

| member | source | states |
|---|---|---|
| `Pipeline.Run` | modules/pipeline.py:21-63 | Every turn runs detect, analyze_scene and transcribe first, in that order, on the raw inputs. It speaks the reply as its last call. The chatbot is called exactly when the transcript is not too short. The emotion and the transcript are returned as the services gave them. The audio is the synthesis of the reply. A short transcript gets the fallback reply built from the scene. Each stage runs exactly once: four calls on the fallback path, five when the chatbot is called. The chatbot's input is the scene plus the transcript, and its emotion is the detected one. Otherwise the reply is the emotion's prefix followed by the quoted scene-plus-transcript echo. The turn's file activity is transcription's followed by speech's. With the corrected scratch-file handling of `SpeechToText.Convert` and `TextToSpeech.Synthesize`, no scratch file or open handle is left when the turn ends. The code as written can leak one (see "## Findings"). |
| `Pipeline.SilentTurn` | modules/pipeline.py:21-48 | With no image and no recording, the emotion is the unknown label and the transcript is empty. The chatbot is skipped, the plain fallback is spoken, and only the speech service touches files. |
| `Pipeline.ResponseQuotesTranscript` | modules/pipeline.py:55-63 | Whenever the chatbot answers, the reply opens with the emotion's prefix and contains the transcript verbatim. |
| `Pipeline.AskAboutDetectedObjects` | modules/pipeline.py:36-48 | Suppose the frame is usable, the detector returns named boxes, every name is non-empty, does not start with whitespace and holds no ':' or '.', and the transcript is too short. (A name opening with whitespace would lose it to `.strip()`, so the extracted list would differ from the joined one.) Then the reply asks about a list that names every detected class exactly once, and each class name appears in the reply. |
| `Pipeline.DegradedReplyOfDescription` | modules/pipeline.py:42-43 | For a non-empty list of names, each non-empty, not starting with whitespace and free of ':' and '.', extracting the object list from the description sentence gives back exactly the joined list. |
| `Pipeline.DegradedReplyAsWritten` | modules/pipeline.py:40-45 | As written, the fallback raises exactly when the scene holds the detection phrase but not the phrase followed by its colon. A scene without the phrase gets the plain fallback. |
| `Pipeline.DegradedGuardTooWeak` | modules/pipeline.py:40-42 | The bare phrase passes the guard as written and then raises at `[1]`. The corrected fallback answers it with the plain fallback. |
| `Pipeline.DegradedReply` | modules/pipeline.py:40-45 | With the guard corrected, a scene without the marker gets the plain fallback. A scene with it gets a question about an object list that holds no full stop. |
| `Pipeline.DegradedReplyQuotesSegment` | modules/pipeline.py:42-43 | The object list is the text between the first marker and the next one, with surrounding whitespace stripped and full stops removed. |
| `Pipeline.DegradedReplyAgreesOnScenes` | modules/pipeline.py:40-42 | On every answer analyze_scene can give, the as-written fallback returns (never raises) and equals the corrected one. |
| `Pipeline.SceneObjects` | modules/pipeline.py:42 | `split(marker)[1]` exists exactly when the scene contains the marker, and the extracted list holds no full stop. |
| `Pipeline.ChatbotInput` | modules/pipeline.py:55 | With a non-empty scene, the chatbot's input is the scene, the "user said" lead, the quoted text and the closing quote. That input is never blank, so it cannot draw the apology. |
| `Pipeline.RespondedReply` | modules/pipeline.py:55-58 | The chatbot's reply to a non-empty scene plus text is always the echo, never the apology, in closed form. |
| `EmotionDetector.Detect` | modules/emotion_detector.py:25-58 | Detection gives: the unknown label when there is no usable frame; the failure label when the classifier raises; the first face's dominant emotion when faces are found; the unknown label when none are found. |
| `EmotionDetector.DetectorImage` | modules/emotion_detector.py:27-37 | `None` and other types give no frame, and an array is used as is. A missing or undecodable path gives no frame, because `imread` does not check existence. A path that decodes gives its decoded frame. |
| `EmotionDetector.DetectIgnoresClassifierWithoutFrame` | modules/emotion_detector.py:27-42 | Without a usable frame, any two classifiers give the same answer: the unknown label. |
| `EmotionDetector.DetectFirstFaceOnly` | modules/emotion_detector.py:49-50 | Classifiers that agree on the first face give the same answer, whatever faces follow. |
| `EmotionDetector.DetectAnswers` | modules/emotion_detector.py:25-58 | The answer is one of the two sentinel labels or a label the classifier returned for this frame. |
| `VisionAnalyzer.AnalyzeScene` | modules/vision_analyzer.py:26-77 | With no model loaded there is one fixed answer. Each input kind has its own failure sentence: missing file, no input, bad format, empty image. A path to an existing file counts as empty exactly when it does not decode or decodes to a size-0 frame. A usable frame, given as an array or decoded from a path, gets the detection answer. Every answer that is not a failure sentence and not "nothing found" is a description of a non-empty, duplicate-free list. |
| `VisionAnalyzer.Detected` | modules/vision_analyzer.py:52-77 | A raising predict and an unknown class index both give the processing-error sentence. No boxes gives "nothing found". Otherwise the result describes a list that enumerates the detected names. |
| `VisionAnalyzer.ClassNames` | modules/vision_analyzer.py:60-66 | Names are found exactly when every class index is in the model's table. They come back one name per flattened class index. |
| `VisionAnalyzer.AllClasses` | modules/vision_analyzer.py:61-64 | The flattened classes are exactly the class indices of all boxes of all results. |
| `VisionAnalyzer.SceneListsDetections` | modules/vision_analyzer.py:68-72 | A usable frame with at least one named box is described by a list that enumerates the detected names. |
| `VisionAnalyzer.SceneNeverEmpty` | modules/vision_analyzer.py:26-77 | analyze_scene never answers with the empty string. |
| `VisionAnalyzer.PhraseOnlyInDescriptions` | modules/vision_analyzer.py:71 | Only a description contains the detection phrase. |
| `VisionAnalyzer.NothingDetectedIsNotFailure` | modules/vision_analyzer.py:74 | "Nothing found" is neither a failure sentence nor a sentence containing the detection phrase. |
| `VisionAnalyzer.SentinelsLackPhrase` | modules/vision_analyzer.py:28-50 | No failure sentence contains the detection phrase, with or without its colon. |
| `ChatbotEngine.Prefix` | modules/chatbot_engine.py:16-27 | The prefix is non-empty exactly for the six empathetic emotions. Labels outside the table get none. |
| `ChatbotEngine.GenerateResponse` | modules/chatbot_engine.py:7-65 | Blank text gets the apology. Any other text gets the emotion's prefix and the echo template around the unstripped text. |
| `ChatbotEngine.EchoedText` | modules/chatbot_engine.py:63 | Reading the quote back out of a reply gives a text that the template maps back to that reply. |
| `ChatbotEngine.EchoRoundTrip` | modules/chatbot_engine.py:63 | Reading the quote out of the reply to non-blank text recovers that text exactly. |
| `ChatbotEngine.ApologyIgnoresEmotion` | modules/chatbot_engine.py:9-10 | Blank text gets the same apology whatever the emotion. |
| `ChatbotEngine.SentinelsHaveNoPrefix` | modules/chatbot_engine.py:27 | The detector's unknown and failure labels get no prefix. |
| `ChatbotEngine.Respond` | modules/chatbot_engine.py:70-75 | A truthy emotion is named in a parenthetical ahead of the echo. A missing or empty one gives the bare echo. |
| `ChatbotEngine.RespondEndsWithEcho` | modules/chatbot_engine.py:70-75 | Every respond reply ends with the echo of its text. |
| `ChatbotEngine.RespondMatchesNeutralReply` | modules/chatbot_engine.py:70-75 | Without an emotion, respond says what generate_response says for a neutral face. |
| `ChatbotEngine.RespondDiffersForEmpathetic` | modules/chatbot_engine.py:70-75 | With an empathetic emotion, respond's reply differs from generate_response's: a parenthetical instead of the prefix. |
| `SpeechToText.Transcribe` | modules/speech_to_text.py:20-95 | A missing, empty or absent path gives "" with no file touched. A failed conversion gives "", and so does an opened WAV with the wrong format. Otherwise the result is the recognized text. Its file activity is the conversion's, followed by closing the handle when one was opened. With the corrected conversion `SpeechToText.Convert`, every scratch file is removed and every handle closed. The code as written leaks the scratch WAV when `sf.write` raises (see "## Findings"). |
| `SpeechToText.Normalize` | modules/speech_to_text.py:31-52 | Normalisation succeeds unless resampling a non-16 kHz clip raises. The result is always mono 16-bit uncompressed at 16 kHz. A 16 kHz clip is quantised without resampling. |
| `SpeechToText.ConvertAsWritten` | modules/speech_to_text.py:28-70 | As written, nothing is created when decoding or normalising fails. |
| `SpeechToText.ConvertAsWrittenLeaks` | modules/speech_to_text.py:56-59 | As written, a raising `sf.write` leaves the scratch WAV on disk. |
| `SpeechToText.Convert` | modules/speech_to_text.py:28-70 | With the scratch name recorded at creation, the WAV is removed on every path. Once the WAV has been produced, the trace records its creation first. When the write or the open raises, the file is created and then removed. A handle exists exactly when the write and the open both succeed. |
| `SpeechToText.ConvertAgreesWhenWriteSucceeds` | modules/speech_to_text.py:56-59 | The corrected and as-written conversions agree whenever the write does not raise. |
| `SpeechToText.WrittenWavPassesGuard` | modules/speech_to_text.py:56-81 | When the file system reads back what was written, the format guard passes and the recognizer runs at 16 kHz. |
| `SpeechToText.ChunksPartition` | modules/speech_to_text.py:83-86 | The 4000-frame reads cover the frames in order. No chunk is empty, and every chunk but the last holds exactly 4000 frames. |
| `SpeechToText.RecognizeLoop` | modules/speech_to_text.py:81-95 | The read-until-empty loop produces the accepted partials, each followed by a space, then the final result, stripped. |
| `TextToSpeech.Synthesize` | modules/text_to_speech.py:8-52 | Empty text gets half a second of 44.1 kHz silence and touches no file. Any failure gets one second of silence. Success gives one mono sample per decoded frame, at the decoder's rate. Once gTTS accepts the text, the scratch MP3 is created, and it is removed on every path after that, including a raising save. |
| `TextToSpeech.SynthesizeAsWritten` | modules/text_to_speech.py:13-18 | As written, empty text gets half a second of silence and no file. |
| `TextToSpeech.SynthesizeAsWrittenLeaks` | modules/text_to_speech.py:27-29 | As written, a raising `tts.save` leaves the scratch MP3 on disk. |
| `TextToSpeech.SynthesizeAudioUnchanged` | modules/text_to_speech.py:20-52 | The corrected and as-written versions always produce the same audio. They differ only when the save raises: the corrected version then also removes the scratch MP3. |
| `TextToSpeech.Silence` | modules/text_to_speech.py:14-16 | Silence is all zeros at 44.1 kHz, with `int(44100 * seconds)` samples. |
| `TextToSpeech.SilenceLengths` | modules/text_to_speech.py:44-46 | The two fallbacks are exactly 22050 and 44100 samples long. |
| `Audio.Downmix` | modules/speech_to_text.py:36-38 | There is one sample per frame. A mono clip passes through unchanged, and a multichannel frame becomes the mean of its channels. |
| `Audio.DownmixOfAgreeingChannels` | modules/text_to_speech.py:36-37 | Downmixing a clip whose channels agree frame by frame gives back the signal itself. |
| `Audio.Pcm16` | modules/speech_to_text.py:52 | One int per sample, within ±32767 for samples in [-1, 1]. |
| `Audio.TruncateTowardZero` | modules/speech_to_text.py:52 | `int()` of a float truncates toward zero, on both sides of zero. |
| `Audio.SampleCount` | modules/text_to_speech.py:16 | `int(rate * duration)` is the floor of a non-negative product. |
| `Text.Strip` | modules/pipeline.py:36 | `strip()` is empty exactly for all-whitespace text. Otherwise it starts and ends with a non-whitespace character. |
| `Text.StripSurrounded` | modules/pipeline.py:42 | Stripping whitespace from around a string with non-space ends gives that string. |
| `Text.StripIdempotent` | modules/pipeline.py:36 | Stripping twice is stripping once, so the length test on the already-stripped transcript measures the recognizer's stripped text. |
| `Text.IndexOf` | modules/pipeline.py:40 | The index found is the first occurrence. `None` means there is no occurrence at all. |
| `Text.Split` | modules/pipeline.py:42 | `split` yields a single part exactly when the separator does not occur, and no part contains the separator. |
| `Text.SplitJoin` | modules/pipeline.py:42 | Joining the parts of a split with the separator gives back the original string. |
| `Text.SplitSecondField` | modules/pipeline.py:42 | `split(sep)[1]` is the text between the first and second occurrences of the separator, or up to the end when there is no second. |
| `Text.JoinContainsParts` | modules/vision_analyzer.py:71 | Every part appears in the joined string. |
| `Text.RemoveAll` | modules/pipeline.py:42 | `replace(c, '')` leaves no `c` and keeps every other character. A string without `c` is returned unchanged. |
| `Text.RemoveAllConcat` | modules/pipeline.py:42 | Removing `c` from a concatenation is the same as removing it from each piece. |
| `Text.Dedupe` | modules/vision_analyzer.py:70 | The result has no duplicates and exactly the same members, and is non-empty whenever the input is. |
| `Effects.CleanTracesCompose` | modules/pipeline.py:32-61 | Two traces that each remove their scratch files still do so when run in sequence. |

## Left out

- Module constructors (`__init__`, model loading): the model takes a loaded YOLO as `Some(yolo)` and a failed load as `None`. The DeepFace, Vosk and gTTS objects are parameters.
- app.py (the Gradio front end), logging and `print`: no behaviour of the core depends on them.
- The commented-out OpenAI call in `generate_response` (modules/chatbot_engine.py:33-60): it is dead code.
- The internals of DeepFace, YOLO, resampy, soundfile, Vosk and gTTS: each is an uninterpreted function parameter returning a value or raising.
- Concurrency: the pipeline is sequential.
- Real file-system semantics: existence, decoding and writes are parameters, and scratch files appear only as the trace they leave.
- `os.remove` on a file that is still open (speech_to_text.py:69-70) succeeds on POSIX and is modelled as such. Windows behaviour is not modelled.
- `tempfile.NamedTemporaryFile` failing to create a file is not modelled. Creation always succeeds.
- Audio.Downmix: exact real arithmetic; float32 rounding and the `astype(np.float32)` conversion are not modelled.
- Audio.Mean: gives an empty frame the value 0, where numpy gives NaN. A decoder never yields empty frames.
- Audio.Pcm16: states the range only for samples in [-1, 1]. The wrap-around of `astype(np.int16)` on out-of-range samples is not modelled.
- VisionAnalyzer.AnalyzeScene: the order of `list(set(...))` depends on string hashing. The model fixes first-occurrence order, and the contract promises only some duplicate-free enumeration (`IsEnumeration`). Class indices are taken as integers, so the float-to-int cast of `int(c)` is not modelled.
- VisionAnalyzer.Detected: `conf=0.5` filtering is part of the detector parameter.
- EmotionDetector.Detect: a face entry without a `dominant_emotion` key is not modelled. In the source that KeyError would give the failure label.
- SpeechToText.Transcribe: treats the `KaldiRecognizer` constructor, `AcceptWaveform`, `Result`/`FinalResult` and `json.loads` as non-raising. In the source, a raise there would propagate out of `transcribe` with the wave handle still open.
- SpeechToText.Transcribe: its cleanup clause holds for the corrected `SpeechToText.Convert`; as written, a raising `sf.write` leaves the scratch WAV behind (see "## Findings").
- SpeechToText.RecognizeLoop: the recognizer's internal state is modelled as a function of the chunks fed so far.
- TextToSpeech.Synthesize: the sample rate of the decoded MP3 is the decoder's; the contract passes it through.
- Pipeline.Run: its cleanup clause holds for the corrected `SpeechToText.Convert` and `TextToSpeech.Synthesize`, not for the code as written, which leaks a scratch file when `sf.write` or `tts.save` raises (see "## Findings").

## Findings

| source | as written | input that shows it | evidently intended | confidence | as-written member | corrected member |
|---|---|---|---|---|---|---|
| modules/pipeline.py:40-42 | The guard tests for the phrase without its colon, but the split that follows needs the phrase with the colon. A scene holding only the phrase makes `[1]` raise IndexError, which escapes `run`. | scene `"주변에서 다음을 감지했습니다"` (no colon). analyze_scene never produces it today, so this is latent. | Test for the same marker the split uses. | not executed; latent, since the two agree on every scene analyze_scene produces | `Pipeline.DegradedReplyAsWritten` (`Pipeline.DegradedGuardTooWeak`) | `Pipeline.DegradedReply` (`Pipeline.DegradedReplyAgreesOnScenes`) |
| modules/speech_to_text.py:56-59 | `temp_wav_file` is assigned only after `sf.write` returns, so a raising write leaves the scratch WAV behind. | any readable audio for which `sf.write` raises, e.g. a full disk | Remove the scratch file on every path. | not executed | `SpeechToText.ConvertAsWritten` (`SpeechToText.ConvertAsWrittenLeaks`) | `SpeechToText.Convert` |
| modules/text_to_speech.py:27-29 | `temp_audio_file` is assigned only after `tts.save` returns, so a raising save (gTTS fetches audio over the network inside `save`) leaves the scratch MP3 behind. | non-empty text while the network is down | Remove the scratch file on every path. | not executed | `TextToSpeech.SynthesizeAsWritten` (`TextToSpeech.SynthesizeAsWrittenLeaks`) | `TextToSpeech.Synthesize` |
