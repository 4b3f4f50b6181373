/** `EmotionDetector.detect` (modules/emotion_detector.py): a face-emotion
    classifier behind a policy that never raises and answers with the first
    face's dominant emotion or one of two sentinel labels. */
module EmotionDetector {
  import opened Effects
  import opened Images

  /** Label for no usable image and for no face found. */
  const Unknown := "알 수 없음"
  /** Label for a classifier that raised. */
  const Failed := "감정 인식 실패"

  /** One entry of `DeepFace.analyze`'s result list (one per face). */
  datatype FaceAnalysis = FaceAnalysis(dominantEmotion: string)

  /** `DeepFace.analyze(img, actions=['emotion'], enforce_detection=False)`. */
  type Classifier = Frame -> Outcome<seq<FaceAnalysis>>

  /** The image `detect` would hand to the classifier: `cv2.imread` for a
      path (which does not check existence first), the array itself, and
      nothing for `None` or a value of another type. */
  function DetectorImage(image: ImageInput): (img: Option<Frame>)
    ensures image.NoImage? || image.OtherValue? ==> img.None?
    ensures image.ImageArray? ==> img == Some(image.frame)
    ensures image.ImagePath? && (image.file.None? || image.file.value.Unreadable?) ==> img.None?
    ensures image.ImagePath? && image.file.Some? && image.file.value.Decodes? ==> img == Some(image.file.value.frame)
  {
    match image
    case NoImage => None
    case ImagePath(_, file) => ReadImage(file)
    case ImageArray(f) => Some(f)
    case OtherValue => None
  }

  function Detect(image: ImageInput, classify: Classifier): (emotion: string)
    // no usable frame: "unknown", the classifier is not consulted
    ensures !Usable(DetectorImage(image)) ==> emotion == Unknown
    // the classifier raised: "failed"
    ensures Usable(DetectorImage(image)) && classify(DetectorImage(image).value).Raised? ==> emotion == Failed
    // faces found: the first face's dominant emotion
    ensures Usable(DetectorImage(image)) && classify(DetectorImage(image).value).Returned?
            && |classify(DetectorImage(image).value).value| > 0
            ==> emotion == classify(DetectorImage(image).value).value[0].dominantEmotion
    // no face: "unknown"
    ensures Usable(DetectorImage(image)) && classify(DetectorImage(image).value) == Returned([])
            ==> emotion == Unknown
  {
    match image
    case NoImage => Unknown
    case OtherValue => Unknown
    case _ =>
      var img := DetectorImage(image);
      if img.None? || img.value.Size() == 0 then Unknown
      else match classify(img.value)
        case Raised => Failed
        case Returned(faces) => if |faces| > 0 then faces[0].dominantEmotion else Unknown
  }

  /** Without a usable frame the classifier plays no part in the answer. */
  lemma DetectIgnoresClassifierWithoutFrame(image: ImageInput, c1: Classifier, c2: Classifier)
    requires !Usable(DetectorImage(image))
    ensures Detect(image, c1) == Detect(image, c2) == Unknown
  {
  }

  /** Only the first face counts: faces after it never change the label. */
  lemma DetectFirstFaceOnly(image: ImageInput, c1: Classifier, c2: Classifier)
    requires Usable(DetectorImage(image))
    requires var f := DetectorImage(image).value;
             c1(f).Returned? && c2(f).Returned? && |c1(f).value| > 0 && |c2(f).value| > 0
             && c1(f).value[0] == c2(f).value[0]
    ensures Detect(image, c1) == Detect(image, c2)
  {
  }

  /** The answer is always one of the two sentinels or a label the
      classifier returned for this very frame. */
  lemma DetectAnswers(image: ImageInput, classify: Classifier)
    ensures var emotion := Detect(image, classify);
            || emotion == Unknown
            || emotion == Failed
            || (Usable(DetectorImage(image))
                && classify(DetectorImage(image).value).Returned?
                && exists i :: 0 <= i < |classify(DetectorImage(image).value).value|
                               && emotion == classify(DetectorImage(image).value).value[i].dominantEmotion)
  {
    var emotion := Detect(image, classify);
    if emotion != Unknown && emotion != Failed {
      var faces := classify(DetectorImage(image).value).value;
      assert emotion == faces[0].dominantEmotion;
    }
  }
}
