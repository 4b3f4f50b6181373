/** `Face2ChatPipeline.run` (modules/pipeline.py): emotion, scene and
    transcript first; then either a fallback reply (transcript too short) or
    the chatbot's reply to the scene plus transcript; then speech for the
    reply. */
module Pipeline {
  import opened Effects
  import opened Text
  import opened Images
  import opened Audio
  import EmotionDetector
  import VisionAnalyzer
  import ChatbotEngine
  import SpeechToText
  import TextToSpeech

  /** `min_text_length` */
  const MinTextLength := 3
  /** The fallback reply when the scene names nothing. */
  const NotUnderstood := "잘 이해하지 못했어요. 다시 말씀해 주시겠어요?"
  /** The fallback reply naming the scene's objects is `AskLead + objects + AskTail`. */
  const AskLead := "잘 이해하지 못했어요. 혹시 주변의 "
  const AskTail := "과(와) 관련된 질문인가요?"
  /** The chatbot's input is `scene + HeardLead + transcript + HeardTail`. */
  const HeardLead := ". 사용자가 말했어요: '"
  const HeardTail := "'"

  /** The four external services the pipeline is built from, as the model
      sees them; the chatbot is pure and needs none. */
  datatype Services = Services(
    classify: EmotionDetector.Classifier,
    vision: Option<VisionAnalyzer.Yolo>,   // None: the YOLO model failed to load
    stt: SpeechToText.SttEnv,
    tts: TextToSpeech.TtsEnv)

  /** The service calls `run` makes, with their arguments. */
  datatype Call =
    | DetectCall(image: ImageInput)
    | SceneCall(image: ImageInput)
    | TranscribeCall(audio: Option<string>)
    | GenerateCall(text: string, emotion: string)
    | SynthesizeCall(text: string)

  /** `run`'s 4-tuple `(emotion, text, response, audio_out)`, together with
      the calls made and the scratch-file trace. */
  datatype Turn = Turn(
    emotion: string,
    transcript: string,
    reply: string,
    speech: Waveform,
    calls: seq<Call>,
    ops: seq<FsOp>)

  /** `not text or len(text.strip()) < min_text_length` */
  predicate TooShort(text: string) {
    text == "" || |Strip(text)| < MinTextLength
  }

  /** `scene.split(DetectedMarker)[1].strip().replace('.', '')`, with `None`
      where `[1]` raises IndexError (the marker does not occur). */
  function SceneObjects(scene: string): (objects: Option<string>)
    ensures objects.Some? <==> Contains(scene, VisionAnalyzer.DetectedMarker)
    ensures objects.Some? ==> '.' !in objects.value && |objects.value| <= |scene|
  {
    var parts := Split(scene, VisionAnalyzer.DetectedMarker);
    if |parts| < 2 then None
    else
      SplitPartShorter(scene, VisionAnalyzer.DetectedMarker);
      Some(RemoveAll(Strip(parts[1]), '.'))
  }

  /** The second field of a split is no longer than the string split. */
  lemma SplitPartShorter(s: string, sep: string)
    requires sep != [] && |Split(s, sep)| >= 2
    ensures |Split(s, sep)[1]| <= |s|
  {
    var i := IndexOf(s, sep).value;
    SplitSecondField(s, sep, i);
  }

  /** The fallback reply exactly as written: the guard tests for the phrase
      WITHOUT its colon, but the split is on the phrase WITH it, so a scene
      holding the phrase and no colon after it makes `[1]` raise, and the
      exception escapes `run`. */
  function DegradedReplyAsWritten(scene: string): (r: Outcome<string>)
    ensures r.Raised? <==> Contains(scene, VisionAnalyzer.DetectedPhrase)
                           && !Contains(scene, VisionAnalyzer.DetectedMarker)
    ensures !Contains(scene, VisionAnalyzer.DetectedPhrase) ==> r == Returned(NotUnderstood)
  {
    if scene != "" && Contains(scene, VisionAnalyzer.DetectedPhrase) then
      match SceneObjects(scene)
      case None => Raised
      case Some(objects) => Returned(AskLead + objects + AskTail)
    else
      Returned(NotUnderstood)
  }

  /** A scene that is the bare phrase passes the guard and makes the split
      raise; the corrected reply answers it with the plain fallback. */
  lemma DegradedGuardTooWeak()
    ensures DegradedReplyAsWritten(VisionAnalyzer.DetectedPhrase).Raised?
    ensures DegradedReply(VisionAnalyzer.DetectedPhrase) == NotUnderstood
  {
    var phrase := VisionAnalyzer.DetectedPhrase;
    assert phrase[0..|phrase|] == phrase;
    assert OccursAt(phrase, phrase, 0);
    assert !Contains(phrase, VisionAnalyzer.DetectedMarker);
  }

  /** The fallback reply with the guard testing for the very marker that
      the split needs. */
  function DegradedReply(scene: string): (reply: string)
    ensures !Contains(scene, VisionAnalyzer.DetectedMarker) ==> reply == NotUnderstood
    ensures Contains(scene, VisionAnalyzer.DetectedMarker) ==>
              exists objects :: reply == AskLead + objects + AskTail && '.' !in objects
  {
    if scene != "" && Contains(scene, VisionAnalyzer.DetectedMarker) then
      AskLead + SceneObjects(scene).value + AskTail
    else
      NotUnderstood
  }

  /** The object list the fallback names is the text between the first
      marker and the next one, stripped, with its full stops removed. */
  lemma DegradedReplyQuotesSegment(scene: string, i: nat)
    requires IndexOf(scene, VisionAnalyzer.DetectedMarker) == Some(i)
    ensures var rest := scene[i + |VisionAnalyzer.DetectedMarker|..];
            var segment := match IndexOf(rest, VisionAnalyzer.DetectedMarker)
                           case None => rest
                           case Some(j) => rest[..j];
            DegradedReply(scene) == AskLead + RemoveAll(Strip(segment), '.') + AskTail
  {
    SplitSecondField(scene, VisionAnalyzer.DetectedMarker, i);
  }

  /** A description opens with the marker. */
  lemma DescriptionStartsWithMarker(unique: seq<string>)
    ensures IndexOf(VisionAnalyzer.Describe(unique), VisionAnalyzer.DetectedMarker) == Some(0)
  {
    var scene := VisionAnalyzer.Describe(unique);
    var marker := VisionAnalyzer.DetectedMarker;
    assert scene[0..|marker|] == marker;
    assert OccursAt(scene, marker, 0);
  }

  /** On every answer the scene analyzer can give, the guard as written and
      the corrected guard agree: the as-written pipeline never raises there. */
  lemma DegradedReplyAgreesOnScenes(image: ImageInput, model: Option<VisionAnalyzer.Yolo>)
    ensures var scene := VisionAnalyzer.AnalyzeScene(image, model);
            DegradedReplyAsWritten(scene) == Returned(DegradedReply(scene))
  {
    var scene := VisionAnalyzer.AnalyzeScene(image, model);
    var phrase := VisionAnalyzer.DetectedPhrase;
    var marker := VisionAnalyzer.DetectedMarker;
    VisionAnalyzer.PhraseOnlyInDescriptions(image, model);
    if Contains(scene, phrase) {
      var unique :| scene == VisionAnalyzer.Describe(unique) && |unique| > 0 && NoDuplicates(unique);
      DescriptionStartsWithMarker(unique);
    } else if Contains(scene, marker) {
      ContainsPrefixOfPattern(scene, phrase, ":");
    }
  }

  /** `f"{scene_info}. 사용자가 말했어요: '{text}'" if scene_info else text` */
  function ChatbotInput(scene: string, text: string): (input: string)
    ensures scene != "" ==> input == scene + HeardLead + text + HeardTail && !AllSpace(input)
    ensures scene == "" ==> input == text
  {
    if scene != "" then
      var input := scene + HeardLead + text + HeardTail;
      assert input[|scene|] == '.' && !IsSpace('.');
      input
    else text
  }

  /** The chatbot's reply to the scene and transcript, in closed form: the
      input is never blank, so it is always the echo, never the apology. */
  lemma RespondedReply(scene: string, text: string, emotion: string)
    requires scene != ""
    ensures ChatbotEngine.GenerateResponse(ChatbotInput(scene, text), emotion)
            == ChatbotEngine.Prefix(emotion) + ChatbotEngine.EchoLead
               + scene + HeardLead + text + HeardTail + ChatbotEngine.EchoTail
  {
    var input := ChatbotInput(scene, text);
    assert input == scene + HeardLead + text + HeardTail;
    assert ChatbotEngine.GenerateResponse(input, emotion)
           == ChatbotEngine.Prefix(emotion) + ChatbotEngine.EchoLead + input + ChatbotEngine.EchoTail;
    RegroupInput(ChatbotEngine.Prefix(emotion) + ChatbotEngine.EchoLead, scene, HeardLead, text, HeardTail,
            ChatbotEngine.EchoTail);
  }

  /** Concatenation regrouped. */
  lemma RegroupInput(a: string, b: string, c: string, d: string, e: string, f: string)
    ensures a + (b + c + d + e) + f == a + b + c + d + e + f
  {
  }

  /** The last step of either branch: speak the reply and close the trace. */
  function Speak(emotion: string, text: string, reply: string, calls: seq<Call>,
                 heard: seq<FsOp>, tts: TextToSpeech.TtsEnv): (t: Turn)
    requires LeavesNoScratch(heard) && ClosesHandles(heard)
    ensures t.emotion == emotion && t.transcript == text && t.reply == reply && t.calls == calls
    ensures t.speech == TextToSpeech.Synthesize(reply, tts).audio
    ensures t.ops == heard + TextToSpeech.Synthesize(reply, tts).ops
    ensures LeavesNoScratch(t.ops) && ClosesHandles(t.ops)
  {
    var spoken := TextToSpeech.Synthesize(reply, tts);
    CleanTracesCompose(heard, spoken.ops);
    ClosingTracesCompose(heard, spoken.ops);
    Turn(emotion, text, reply, spoken.audio, calls, heard + spoken.ops)
  }

  /** Whether the chatbot was among the calls. */
  predicate ConsultsChatbot(calls: seq<Call>) {
    exists i :: 0 <= i < |calls| && calls[i].GenerateCall?
  }

  /** The calls of the fallback branch: the analyses, then speech. */
  function FallbackCalls(image: ImageInput, audio: Option<string>, reply: string): (calls: seq<Call>)
    ensures |calls| == 4 && calls[..3] == [DetectCall(image), SceneCall(image), TranscribeCall(audio)]
    ensures calls[3] == SynthesizeCall(reply)
    ensures !ConsultsChatbot(calls)
  {
    [DetectCall(image), SceneCall(image), TranscribeCall(audio), SynthesizeCall(reply)]
  }

  /** The calls of the chatbot branch: the analyses, the chatbot, then speech. */
  function ChatbotCalls(image: ImageInput, audio: Option<string>, input: string, emotion: string,
                        reply: string): (calls: seq<Call>)
    ensures |calls| == 5 && calls[..3] == [DetectCall(image), SceneCall(image), TranscribeCall(audio)]
    ensures calls[3] == GenerateCall(input, emotion) && calls[4] == SynthesizeCall(reply)
    ensures ConsultsChatbot(calls)
  {
    var calls := [DetectCall(image), SceneCall(image), TranscribeCall(audio),
                  GenerateCall(input, emotion), SynthesizeCall(reply)];
    assert calls[3].GenerateCall?;
    calls
  }

  /** `Face2ChatPipeline.run(image, audio)`, built on the corrected
      scratch-file handling of `SpeechToText.Convert` and
      `TextToSpeech.Synthesize` (the code as written leaks a scratch file
      when `sf.write` or `tts.save` raises). */
  function Run(image: ImageInput, audio: Option<string>, s: Services): (t: Turn)
    // each stage runs exactly once: four calls, or five with the chatbot
    ensures |t.calls| == if TooShort(t.transcript) then 4 else 5
    // the three analyses run first, in this order, on the raw inputs
    ensures t.calls[..3] == [DetectCall(image), SceneCall(image), TranscribeCall(audio)]
    // the reply is spoken, and that is the last call
    ensures t.calls[|t.calls| - 1] == SynthesizeCall(t.reply)
    // the chatbot is consulted exactly when the transcript is long enough
    ensures ConsultsChatbot(t.calls) <==> !TooShort(t.transcript)
    // the emotion and the transcript are handed back as the services gave them
    ensures t.emotion == EmotionDetector.Detect(image, s.classify)
    ensures t.transcript == SpeechToText.Transcribe(audio, s.stt).text
    // the speech is the synthesis of the reply
    ensures t.speech == TextToSpeech.Synthesize(t.reply, s.tts).audio
    // short transcript: the fallback reply built from the scene
    ensures TooShort(t.transcript) ==>
              t.reply == DegradedReply(VisionAnalyzer.AnalyzeScene(image, s.vision))
    // otherwise the chatbot gets the scene plus transcript, and the emotion as detected
    ensures !TooShort(t.transcript) ==>
              t.calls[3] == GenerateCall(ChatbotInput(VisionAnalyzer.AnalyzeScene(image, s.vision), t.transcript),
                                         t.emotion)
    // and its reply is the emotion's prefix, then the scene and transcript quoted back
    ensures !TooShort(t.transcript) ==>
              t.reply == ChatbotEngine.Prefix(t.emotion) + ChatbotEngine.EchoLead
                         + VisionAnalyzer.AnalyzeScene(image, s.vision) + HeardLead + t.transcript + HeardTail
                         + ChatbotEngine.EchoTail
    // the turn's file activity is transcription's, then speech's
    ensures t.ops == SpeechToText.Transcribe(audio, s.stt).ops + TextToSpeech.Synthesize(t.reply, s.tts).ops
    // no scratch file and no open handle survives the turn
    ensures LeavesNoScratch(t.ops) && ClosesHandles(t.ops)
  {
    var emotion := EmotionDetector.Detect(image, s.classify);
    var scene := VisionAnalyzer.AnalyzeScene(image, s.vision);
    var heard := SpeechToText.Transcribe(audio, s.stt);
    if TooShort(heard.text) then
      var reply := DegradedReply(scene);
      Speak(emotion, heard.text, reply, FallbackCalls(image, audio, reply), heard.ops, s.tts)
    else
      VisionAnalyzer.SceneNeverEmpty(image, s.vision);
      RespondedReply(scene, heard.text, emotion);
      var input := ChatbotInput(scene, heard.text);
      var reply := ChatbotEngine.GenerateResponse(input, emotion);
      Speak(emotion, heard.text, reply, ChatbotCalls(image, audio, input, emotion, reply), heard.ops, s.tts)
  }

  /** No image and no recording: the emotion is unknown, nothing is heard,
      the chatbot is skipped and the plain fallback is spoken. */
  lemma SilentTurn(s: Services)
    ensures var t := Run(NoImage, None, s);
            && t.emotion == EmotionDetector.Unknown
            && t.transcript == ""
            && t.reply == NotUnderstood
            && t.calls == [DetectCall(NoImage), SceneCall(NoImage), TranscribeCall(None), SynthesizeCall(NotUnderstood)]
            && t.ops == TextToSpeech.Synthesize(NotUnderstood, s.tts).ops
  {
    var scene := VisionAnalyzer.AnalyzeScene(NoImage, s.vision);
    assert VisionAnalyzer.IsFailureSentinel(scene);
    MarkerAbsent(scene);
  }

  /** No failure sentence holds the marker, so the fallback is the plain one. */
  lemma MarkerAbsent(scene: string)
    requires VisionAnalyzer.IsFailureSentinel(scene)
    ensures DegradedReply(scene) == NotUnderstood
  {
    VisionAnalyzer.SentinelsLackPhrase(scene);
  }

  /** A string quoted in the middle of a reply is contained in it, and the
      reply keeps its opening. */
  lemma QuotedWithin(p: string, lead: string, scene: string, heard: string, text: string,
                     tail: string, close: string)
    ensures var reply := p + lead + scene + heard + text + tail + close;
            |reply| >= |p| && reply[..|p|] == p && Contains(reply, text)
  {
    var reply := p + lead + scene + heard + text + tail + close;
    var before := p + lead + scene + heard;
    assert reply == before + text + (tail + close);
    assert reply[..|p|] == p;
    assert reply[|before|..|before| + |text|] == text;
    assert OccursAt(reply, text, |before|);
  }

  /** Whenever the chatbot answers, the reply opens with the emotion's
      prefix and contains the transcript word for word. */
  lemma ResponseQuotesTranscript(image: ImageInput, audio: Option<string>, s: Services)
    requires !TooShort(SpeechToText.Transcribe(audio, s.stt).text)
    ensures var t := Run(image, audio, s);
            var p := ChatbotEngine.Prefix(t.emotion);
            |t.reply| >= |p| && t.reply[..|p|] == p && Contains(t.reply, t.transcript)
  {
    var t := Run(image, audio, s);
    QuotedWithin(ChatbotEngine.Prefix(t.emotion), ChatbotEngine.EchoLead,
                 VisionAnalyzer.AnalyzeScene(image, s.vision), HeardLead, t.transcript, HeardTail,
                 ChatbotEngine.EchoTail);
  }

  /** A class name as YOLO's table holds it: non-empty, not opening with
      whitespace, and free of the colon and the full stop that the fallback's
      extraction treats specially. */
  predicate PlainName(n: string) {
    n != "" && !IsSpace(n[0]) && ':' !in n && '.' !in n
  }

  /** In a description whose list holds no colon, the text after the marker
      is the blank, the list and the full stop. */
  lemma DescriptionSegment(unique: seq<string>)
    requires ':' !in Join(VisionAnalyzer.ListSeparator, unique)
    ensures |Split(VisionAnalyzer.Describe(unique), VisionAnalyzer.DetectedMarker)| >= 2
    ensures Split(VisionAnalyzer.Describe(unique), VisionAnalyzer.DetectedMarker)[1]
            == " " + Join(VisionAnalyzer.ListSeparator, unique) + "."
  {
    var marker := VisionAnalyzer.DetectedMarker;
    var scene := VisionAnalyzer.Describe(unique);
    var rest := " " + Join(VisionAnalyzer.ListSeparator, unique) + ".";
    DescriptionStartsWithMarker(unique);
    assert scene[|marker|..] == rest;
    assert marker[|marker| - 1] == ':';
    LacksChar(rest, marker, ':');
    SplitSecondField(scene, marker, 0);
  }

  /** Stripping and dropping full stops turn `" " + list + "."` back into
      the list. */
  lemma ObjectsOfSegment(listed: string)
    requires listed != [] && !IsSpace(listed[0]) && '.' !in listed
    ensures RemoveAll(Strip(" " + listed + "."), '.') == listed
  {
    assert " " + listed + "." == " " + (listed + ".") + "";
    assert (listed + ".")[0] == listed[0];
    StripSurrounded(" ", listed + ".", "");
    RemoveAllConcat(listed, ".", '.');
  }

  /** The extraction applied to a description whose list is free of colons
      and full stops, and opens with a visible character, yields the list. */
  lemma SceneObjectsOfList(unique: seq<string>, listed: string)
    requires listed == Join(VisionAnalyzer.ListSeparator, unique)
    requires listed != [] && !IsSpace(listed[0]) && ':' !in listed && '.' !in listed
    ensures SceneObjects(VisionAnalyzer.Describe(unique)) == Some(listed)
  {
    DescriptionSegment(unique);
    ObjectsOfSegment(listed);
  }

  /** Joining plain names gives a list free of colons and full stops that
      opens with a visible character. */
  lemma PlainList(unique: seq<string>)
    requires |unique| > 0
    requires forall k :: 0 <= k < |unique| ==> PlainName(unique[k])
    ensures var listed := Join(VisionAnalyzer.ListSeparator, unique);
            listed != [] && !IsSpace(listed[0]) && ':' !in listed && '.' !in listed
  {
    var sep := VisionAnalyzer.ListSeparator;
    JoinAvoids(sep, unique, ':');
    JoinAvoids(sep, unique, '.');
    assert PlainName(unique[0]);
    JoinStartsWithFirstPart(sep, unique);
  }

  /** The extraction applied to a description yields its list of names. */
  lemma SceneObjectsOfDescription(unique: seq<string>)
    requires |unique| > 0
    requires forall k :: 0 <= k < |unique| ==> PlainName(unique[k])
    ensures SceneObjects(VisionAnalyzer.Describe(unique)) == Some(Join(VisionAnalyzer.ListSeparator, unique))
  {
    PlainList(unique);
    SceneObjectsOfList(unique, Join(VisionAnalyzer.ListSeparator, unique));
  }

  /** The fallback's extraction recovers a description's list of names. */
  lemma DegradedReplyOfDescription(unique: seq<string>)
    requires |unique| > 0
    requires forall k :: 0 <= k < |unique| ==> PlainName(unique[k])
    ensures DegradedReply(VisionAnalyzer.Describe(unique))
            == AskLead + Join(VisionAnalyzer.ListSeparator, unique) + AskTail
  {
    SceneObjectsOfDescription(unique);
    DegradedReplyOfObjects(VisionAnalyzer.Describe(unique));
  }

  /** Wherever the object list can be extracted, the fallback asks about it. */
  lemma DegradedReplyOfObjects(scene: string)
    requires SceneObjects(scene).Some?
    ensures DegradedReply(scene) == AskLead + SceneObjects(scene).value + AskTail
  {
    assert Contains(scene, VisionAnalyzer.DetectedMarker);
  }

  /** Scene with detections and a transcript too short to use: the spoken
      fallback lists every detected class name, each once, and asks about
      them. */
  lemma AskAboutDetectedObjects(image: ImageInput, audio: Option<string>, s: Services,
                                yolo: VisionAnalyzer.Yolo, frame: Frame,
                                results: seq<VisionAnalyzer.Result>, names: seq<string>)
    requires s.vision == Some(yolo)
    requires image == ImageArray(frame) || (image.ImagePath? && image.file == Some(Decodes(frame)))
    requires frame.Size() > 0
    requires yolo.predict(frame) == Returned(results)
    requires VisionAnalyzer.ClassNames(results, yolo.names) == Some(names) && |names| > 0
    requires forall n :: n in names ==> PlainName(n)
    requires TooShort(SpeechToText.Transcribe(audio, s.stt).text)
    ensures exists unique :: VisionAnalyzer.IsEnumeration(unique, names)
              && Run(image, audio, s).reply == AskLead + Join(VisionAnalyzer.ListSeparator, unique) + AskTail
    ensures forall n :: n in names ==> Contains(Run(image, audio, s).reply, n)
  {
    var t := Run(image, audio, s);
    VisionAnalyzer.SceneListsDetections(image, yolo, frame, results, names);
    var unique :| VisionAnalyzer.AnalyzeScene(image, Some(yolo)) == VisionAnalyzer.Describe(unique)
                  && VisionAnalyzer.IsEnumeration(unique, names);
    var listed := Join(VisionAnalyzer.ListSeparator, unique);
    assert forall k :: 0 <= k < |unique| ==> unique[k] in names;
    DegradedReplyOfDescription(unique);
    assert t.reply == AskLead + listed + AskTail;
    AskNamesEach(unique, names);
  }

  /** A question about an enumeration of the names mentions every name. */
  lemma AskNamesEach(unique: seq<string>, names: seq<string>)
    requires VisionAnalyzer.IsEnumeration(unique, names)
    ensures forall n :: n in names ==>
              Contains(AskLead + Join(VisionAnalyzer.ListSeparator, unique) + AskTail, n)
  {
    var listed := Join(VisionAnalyzer.ListSeparator, unique);
    forall n | n in names
      ensures Contains(AskLead + listed + AskTail, n)
    {
      var k :| 0 <= k < |unique| && unique[k] == n;
      JoinContainsParts(VisionAnalyzer.ListSeparator, unique, k);
      ContainsInfix(AskLead, listed, AskTail, n);
    }
  }
}
