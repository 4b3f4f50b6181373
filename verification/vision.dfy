/** `VisionAnalyzer.analyze_scene` (modules/vision_analyzer.py): an object
    detector behind a policy that answers every call with one sentence, a
    description of the detected classes or a sentinel naming what went wrong. */
module VisionAnalyzer {
  import opened Effects
  import opened Images
  import opened Text

  const Unavailable := "시각 분석기 모델이 로드되지 않았습니다."
  const NoFile := "이미지 분석 실패: 파일 없음"
  const NoInput := "이미지 분석 실패: 입력 없음"
  const BadFormat := "이미지 분석 실패: 잘못된 입력 형식"
  const EmptyImage := "이미지 분석 실패: 빈 이미지"
  const ProcessingError := "이미지 분석 실패: 처리 오류"
  const NothingDetected := "주변에서 특별한 것을 감지하지 못했습니다."

  /** The phrase that opens a description, without and with its colon. */
  const DetectedPhrase := "주변에서 다음을 감지했습니다"
  const DetectedMarker := DetectedPhrase + ":"
  const ListSeparator := ", "

  /** One element of `model.predict(...)`'s result: the class index of
      every box kept at the 0.5 confidence threshold. */
  datatype Result = Result(classes: seq<int>)

  /** A loaded YOLO model: its class-name table and its `predict` call. */
  datatype Yolo = Yolo(names: map<int, string>, predict: Frame -> Outcome<seq<Result>>)

  /** Every failure sentence this service can answer with. */
  predicate IsFailureSentinel(s: string) {
    s in {Unavailable, NoFile, NoInput, BadFormat, EmptyImage, ProcessingError}
  }

  /** The class index of every box, result by result and box by box. */
  function AllClasses(results: seq<Result>): (cs: seq<int>)
    ensures forall i, k :: 0 <= i < |results| && 0 <= k < |results[i].classes| ==> results[i].classes[k] in cs
    ensures forall c :: c in cs ==> exists i :: 0 <= i < |results| && c in results[i].classes
  {
    if |results| == 0 then []
    else
      var front := results[..|results| - 1];
      assert forall i :: 0 <= i < |front| ==> front[i] == results[i];
      AllClasses(front) + results[|results| - 1].classes
  }

  /** The class names of all boxes in detection order, or `None` when an
      index is missing from `names` (the `KeyError` the loop would raise). */
  function ClassNames(results: seq<Result>, names: map<int, string>): (r: Option<seq<string>>)
    ensures r.Some? <==> forall c :: c in AllClasses(results) ==> c in names
    ensures r.Some? ==> |r.value| == |AllClasses(results)|
    ensures r.Some? ==> forall j :: 0 <= j < |r.value| ==>
              AllClasses(results)[j] in names && r.value[j] == names[AllClasses(results)[j]]
  {
    var cs := AllClasses(results);
    if forall c :: c in cs ==> c in names then
      Some(seq(|cs|, j requires 0 <= j < |cs| => names[cs[j]]))
    else
      None
  }

  /** The description sentence for a non-empty list of names. */
  function Describe(unique: seq<string>): string {
    DetectedMarker + " " + Join(ListSeparator, unique) + "."
  }

  function AnalyzeScene(image: ImageInput, model: Option<Yolo>): (scene: string)
    // no model loaded: one fixed answer, whatever the input
    ensures model.None? ==> scene == Unavailable
    // the input-kind sentinels
    ensures model.Some? && image.NoImage? ==> scene == NoInput
    ensures model.Some? && image.OtherValue? ==> scene == BadFormat
    ensures model.Some? && image.ImagePath? && image.file.None? ==> scene == NoFile
    ensures model.Some? && image.ImagePath? && image.file == Some(Unreadable) ==> scene == EmptyImage
    ensures model.Some? && image.ImageArray? && image.frame.Size() == 0 ==> scene == EmptyImage
    ensures model.Some? && image.ImagePath? && image.file.Some? && image.file.value.Decodes?
            ==> (scene == EmptyImage <==> image.file.value.frame.Size() == 0)
    // a usable frame, given directly or read from a path, goes to detection
    ensures model.Some? && image.ImageArray? && image.frame.Size() > 0 ==>
            scene == Detected(model.value, image.frame)
    ensures model.Some? && image.ImagePath? && image.file.Some? && image.file.value.Decodes?
            && image.file.value.frame.Size() > 0 ==>
            scene == Detected(model.value, image.file.value.frame)
    // the only answer that is neither a sentinel nor "nothing found" is a description
    ensures scene != NothingDetected && !IsFailureSentinel(scene) ==>
            exists unique :: scene == Describe(unique) && |unique| > 0 && NoDuplicates(unique)
  {
    match model
    case None => Unavailable
    case Some(yolo) =>
      match image
      case ImagePath(_, file) => if file.None? then NoFile else Examine(yolo, ReadImage(file))
      case ImageArray(frame) => Examine(yolo, Some(frame))
      case NoImage => NoInput
      case OtherValue => BadFormat
  }

  /** The empty-image check, then detection. */
  function Examine(yolo: Yolo, img: Option<Frame>): (scene: string)
    ensures !Usable(img) ==> scene == EmptyImage
    ensures Usable(img) ==> scene == Detected(yolo, img.value)
  {
    if !Usable(img) then EmptyImage else Detected(yolo, img.value)
  }

  /** The `try` block: prediction, name lookup, dedupe and the sentence. */
  function Detected(yolo: Yolo, frame: Frame): (scene: string)
    ensures yolo.predict(frame).Raised? ==> scene == ProcessingError
    ensures yolo.predict(frame).Returned? && ClassNames(yolo.predict(frame).value, yolo.names).None?
            ==> scene == ProcessingError
    ensures yolo.predict(frame).Returned? && ClassNames(yolo.predict(frame).value, yolo.names) == Some([])
            ==> scene == NothingDetected
    ensures yolo.predict(frame).Returned? && ClassNames(yolo.predict(frame).value, yolo.names).Some?
            && |ClassNames(yolo.predict(frame).value, yolo.names).value| > 0
            ==> var names := ClassNames(yolo.predict(frame).value, yolo.names).value;
                exists unique :: scene == Describe(unique) && IsEnumeration(unique, names)
  {
    match yolo.predict(frame)
    case Raised => ProcessingError
    case Returned(results) =>
      match ClassNames(results, yolo.names)
      case None => ProcessingError
      case Some(names) =>
        if |names| == 0 then NothingDetected
        else
          var unique := Dedupe(names);
          assert IsEnumeration(unique, names);
          Describe(unique)
  }

  /** `unique` lists every element of `names` exactly once (Python's
      `list(set(names))`, in whatever order). */
  ghost predicate IsEnumeration(unique: seq<string>, names: seq<string>) {
    NoDuplicates(unique) && (|unique| > 0 <==> |names| > 0) && forall n :: n in unique <==> n in names
  }

  /** "Nothing found" is told apart from every failure. */
  lemma NothingDetectedIsNotFailure()
    ensures !IsFailureSentinel(NothingDetected)
    ensures !Contains(NothingDetected, DetectedPhrase)
  {
    assert '음' in DetectedPhrase;
    assert '음' !in NothingDetected;
    LacksChar(NothingDetected, DetectedPhrase, '음');
  }

  /** With a usable frame and at least one named box, the answer lists the
      detected class names, each exactly once. */
  lemma SceneListsDetections(image: ImageInput, yolo: Yolo, frame: Frame, results: seq<Result>, names: seq<string>)
    requires image == ImageArray(frame) || (image.ImagePath? && image.file == Some(Decodes(frame)))
    requires frame.Size() > 0
    requires yolo.predict(frame) == Returned(results)
    requires ClassNames(results, yolo.names) == Some(names) && |names| > 0
    ensures exists unique :: AnalyzeScene(image, Some(yolo)) == Describe(unique) && IsEnumeration(unique, names)
  {
    assert AnalyzeScene(image, Some(yolo)) == Detected(yolo, frame);
  }

  /** The analyzer never answers with an empty string. */
  lemma SceneNeverEmpty(image: ImageInput, model: Option<Yolo>)
    ensures AnalyzeScene(image, model) != ""
  {
    var scene := AnalyzeScene(image, model);
    if scene != NothingDetected && !IsFailureSentinel(scene) {
      var unique :| scene == Describe(unique) && |unique| > 0 && NoDuplicates(unique);
      assert |Describe(unique)| > 0;
    }
  }

  /** No failure sentence mentions the detection phrase, with or without
      its colon. */
  lemma SentinelsLackPhrase(s: string)
    requires IsFailureSentinel(s)
    ensures !Contains(s, DetectedPhrase) && !Contains(s, DetectedMarker)
  {
    assert '주' in DetectedPhrase && '주' in DetectedMarker;
    if s == Unavailable {
      assert '주' !in Unavailable;
    } else if s == NoFile {
      assert '주' !in NoFile;
    } else if s == NoInput {
      assert '주' !in NoInput;
    } else if s == BadFormat {
      assert '주' !in BadFormat;
    } else if s == EmptyImage {
      assert '주' !in EmptyImage;
    } else {
      assert s == ProcessingError;
      assert '주' !in ProcessingError;
    }
    LacksChar(s, DetectedPhrase, '주');
    LacksChar(s, DetectedMarker, '주');
  }

  /** Only a description mentions the detection phrase, and a description
      opens with the phrase and its colon. */
  lemma PhraseOnlyInDescriptions(image: ImageInput, model: Option<Yolo>)
    ensures var scene := AnalyzeScene(image, model);
            Contains(scene, DetectedPhrase) ==>
              exists unique :: scene == Describe(unique) && |unique| > 0 && NoDuplicates(unique)
  {
    var scene := AnalyzeScene(image, model);
    NothingDetectedIsNotFailure();
    if IsFailureSentinel(scene) {
      SentinelsLackPhrase(scene);
    }
  }
}
