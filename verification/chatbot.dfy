/** `ChatbotEngine` (modules/chatbot_engine.py): a templated reply that echoes
    the text it is given behind an emotion-dependent prefix. */
module ChatbotEngine {
  import opened Effects
  import opened Text

  /** The reply to empty or whitespace-only text. */
  const Apology := "음성을 잘 못 들었어요. 다시 말씀해 주세요."
  /** The echo template is `EchoLead + text + EchoTail`. */
  const EchoLead := "당신은 이렇게 말했어요: '"
  const EchoTail := "'"

  /** `response_prefix`: six emotions with an empathetic phrase, two with none. */
  const Prefixes: map<string, string> := map[
    "happy" := "기분이 좋아 보여요! ",
    "sad" := "기운 내세요. ",
    "angry" := "마음을 진정시켜볼까요? ",
    "surprise" := "놀라셨군요! ",
    "fear" := "걱정하지 마세요. ",
    "disgust" := "불쾌하셨군요... ",
    "neutral" := "",
    "unknown" := ""
  ]

  /** The six labels that get a non-empty prefix. */
  const Empathetic: set<string> := {"happy", "sad", "angry", "surprise", "fear", "disgust"}

  /** `response_prefix.get(emotion, "")` */
  function Prefix(emotion: string): (p: string)
    ensures p != "" <==> emotion in Empathetic
    ensures emotion !in Prefixes ==> p == ""
  {
    if emotion in Prefixes then Prefixes[emotion] else ""
  }

  /** `generate_response(text, emotion)` */
  function GenerateResponse(text: string, emotion: string): (reply: string)
    ensures AllSpace(text) ==> reply == Apology
    ensures !AllSpace(text) ==> reply == Prefix(emotion) + EchoLead + text + EchoTail
  {
    if Strip(text) == "" then Apology
    else Prefix(emotion) + EchoLead + text + EchoTail
  }

  /** Inverse of the echo template: the text a non-apology reply quotes. */
  function EchoedText(reply: string, emotion: string): (text: Option<string>)
    ensures text.Some? ==> reply == Prefix(emotion) + EchoLead + text.value + EchoTail
  {
    var lead := Prefix(emotion) + EchoLead;
    if |reply| >= |lead| + |EchoTail| && reply[..|lead|] == lead && reply[|reply| - |EchoTail|..] == EchoTail then
      var text := reply[|lead|..|reply| - |EchoTail|];
      assert reply == lead + text + EchoTail;
      Some(text)
    else None
  }

  /** The reply quotes the text verbatim, unstripped: reading the quote back
      out of the reply recovers the text exactly. */
  lemma EchoRoundTrip(text: string, emotion: string)
    requires !AllSpace(text)
    ensures EchoedText(GenerateResponse(text, emotion), emotion) == Some(text)
  {
    Unwrap(Prefix(emotion) + EchoLead, text, EchoTail);
  }

  /** The three slices `EchoedText` takes of `lead + text + tail`. */
  lemma Unwrap(lead: string, text: string, tail: string)
    ensures var reply := lead + text + tail;
            && reply[..|lead|] == lead
            && reply[|reply| - |tail|..] == tail
            && reply[|lead|..|reply| - |tail|] == text
  {
  }

  /** Blank text gets the same apology whatever the emotion. */
  lemma ApologyIgnoresEmotion(text: string, e1: string, e2: string)
    requires AllSpace(text)
    ensures GenerateResponse(text, e1) == GenerateResponse(text, e2) == Apology
  {
  }

  /** The detector's own sentinels, like every label outside the table, add
      no prefix. */
  lemma SentinelsHaveNoPrefix()
    ensures Prefix("알 수 없음") == "" && Prefix("감정 인식 실패") == ""
  {
    assert "알 수 없음" !in Prefixes;
    assert "감정 인식 실패" !in Prefixes;
  }

  /** `respond(text, emotion=None)`: the emotion, when truthy (present and
      non-empty), is named in a parenthetical ahead of the echo. */
  function Respond(text: string, emotion: Option<string>): (reply: string)
    ensures emotion.Some? && emotion.value != "" ==>
            reply == "(" + emotion.value + " 상태에서) " + EchoLead + text + EchoTail
    ensures emotion.None? || emotion.value == "" ==> reply == EchoLead + text + EchoTail
  {
    if emotion.Some? && emotion.value != "" then "(" + emotion.value + " 상태에서) " + EchoLead + text + EchoTail
    else EchoLead + text + EchoTail
  }

  /** Every reply of `respond` ends with the echo of its text. */
  lemma RespondEndsWithEcho(text: string, emotion: Option<string>)
    ensures var reply := Respond(text, emotion);
            |reply| >= |EchoLead + text + EchoTail|
            && reply[|reply| - |EchoLead + text + EchoTail|..] == EchoLead + text + EchoTail
  {
    var echo := EchoLead + text + EchoTail;
    if emotion.Some? && emotion.value != "" {
      var opening := "(" + emotion.value + " 상태에서) ";
      Regroup(opening, EchoLead, text, EchoTail);
      EndsWith(opening, echo);
    } else {
      EndsWith("", echo);
    }
  }

  /** A string ends with what was appended to it. */
  lemma EndsWith(a: string, b: string)
    ensures |a + b| >= |b| && (a + b)[|a + b| - |b|..] == b
  {
  }

  /** Without an emotion, `respond` says what `generate_response` says for a
      neutral face. */
  lemma RespondMatchesNeutralReply(text: string)
    requires !AllSpace(text)
    ensures Respond(text, None) == GenerateResponse(text, "neutral")
  {
    NeutralHasNoPrefix();
    assert "" + EchoLead == EchoLead;
  }

  lemma NeutralHasNoPrefix()
    ensures Prefix("neutral") == ""
  {
    assert Prefixes["neutral"] == "";
  }

  /** With an empathetic emotion, `respond` and `generate_response` open
      differently: a parenthetical against the prefix. */
  lemma RespondDiffersForEmpathetic(text: string, emotion: string)
    requires !AllSpace(text) && emotion in Empathetic
    ensures Respond(text, Some(emotion)) != GenerateResponse(text, emotion)
  {
    PrefixOpening(emotion);
    RespondForm(text, emotion);
    GenerateForm(text, emotion);
    DifferentOpenings(Prefix(emotion), EchoLead + text + EchoTail,
                      "(", emotion + " 상태에서) " + EchoLead + text + EchoTail);
  }

  /** The reply `respond` gives for a detected emotion, grouped after its
      opening parenthesis. */
  lemma RespondForm(text: string, emotion: string)
    requires emotion != ""
    ensures Respond(text, Some(emotion)) == "(" + (emotion + " 상태에서) " + EchoLead + text + EchoTail)
  {
    Regroup("(", emotion + " 상태에서) " + EchoLead, text, EchoTail);
  }

  /** The reply `generate_response` gives, grouped after its prefix. */
  lemma GenerateForm(text: string, emotion: string)
    requires !AllSpace(text)
    ensures GenerateResponse(text, emotion) == Prefix(emotion) + (EchoLead + text + EchoTail)
  {
    Regroup(Prefix(emotion), EchoLead, text, EchoTail);
  }

  lemma Regroup(a: string, b: string, c: string, d: string)
    ensures a + b + c + d == a + (b + c + d)
  {
  }

  /** Strings that open with different characters differ. */
  lemma DifferentOpenings(a: string, x: string, b: string, y: string)
    requires a != [] && b != [] && a[0] != b[0]
    ensures a + x != b + y
  {
    assert (a + x)[0] == a[0];
    assert (b + y)[0] == b[0];
  }

  /** No empathetic prefix opens with a parenthesis. */
  lemma PrefixOpening(emotion: string)
    requires emotion in Empathetic
    ensures emotion != "" && Prefix(emotion) != "" && Prefix(emotion)[0] != '('
  {
    var p := Prefix(emotion);
    assert p == Prefixes[emotion];
    assert p in {"기분이 좋아 보여요! ", "기운 내세요. ", "마음을 진정시켜볼까요? ",
                 "놀라셨군요! ", "걱정하지 마세요. ", "불쾌하셨군요... "};
  }
}
