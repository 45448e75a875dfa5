/**
  `process_with_gemini` and `main`: what becomes of the model's reply, when the
  model is asked at all, and what the three form fields show.
 */
module App {
  import opened Wrappers
  import opened PyText
  import opened ResponseCleaner
  import PdfText

  /** A value `json.loads` can produce, as far as this program looks at it:
      a string, an object (a Python dict), or anything else (a number, a
      boolean, null or an array), whose content nothing here inspects. */
  datatype Json = Str(s: string) | Obj(members: map<string, Json>) | Other

  /** The record returned when the reply is empty or anything fails. */
  const EmptyRecord: Json := Obj(map["Name" := Str(""), "Phone" := Str(""), "Address" := Str("")])

  /** How `process_with_gemini` ends: with what `json.loads` parsed, or with the
      empty record, and then whether an error was reported to the user (every
      failure is; an empty reply is not). */
  datatype Inference = Parsed(data: Json) | Fallback(errorReported: bool)

  /** The value `process_with_gemini` returns. */
  function Returned(inference: Inference): (data: Json)
    ensures inference.Parsed? ==> data == inference.data
    ensures inference.Fallback? ==>
      data.Obj? && data.members.Keys == {"Name", "Phone", "Address"}
      && forall key :: key in data.members ==> data.members[key] == Str("")
  {
    match inference
    case Parsed(data) => data
    case Fallback(_) => EmptyRecord
  }

  /** `process_with_gemini` given the model's reply text (None when the call
      or reading the reply's text raised) and `json.loads` (None when it
      raises). */
  function ProcessWithModel(reply: Option<string>, parse: string -> Option<Json>): (inference: Inference)
    ensures inference.Parsed? ==> reply.Some? && reply.value != ""
    ensures reply == Some("") ==> inference == Fallback(false)
    ensures reply.None? ==> inference == Fallback(true)
  {
    match reply
    case None => Fallback(true)
    case Some(text) =>
      if text == "" then Fallback(false)
      else
        match parse(Clean(text))
        case None => Fallback(true)
        case Some(data) => Parsed(data)
  }

  /** The parsed value comes back exactly when there is a non-empty reply
      whose cleaned text parses, and it is that parse; every other outcome
      is the empty record, reported as an error unless the reply was empty. */
  lemma ProcessOutcomes(reply: Option<string>, parse: string -> Option<Json>)
    ensures var r := ProcessWithModel(reply, parse);
      && (r.Parsed? <==> reply.Some? && reply.value != "" && parse(Clean(reply.value)).Some?)
      && (r.Parsed? ==> parse(Clean(reply.value)) == Some(r.data))
      && (r.Fallback? ==> Returned(r) == EmptyRecord && (r.errorReported <==> reply != Some("")))
  {
    match reply
    case None =>
    case Some(t) =>
      if t != "" {
        match parse(Clean(t))
        case None =>
        case Some(_) =>
      }
  }

  /** A reply of nothing but whitespace is non-empty, so it is cleaned and
      parsed; it cleans to "", which `json.loads` rejects, so the result is
      the empty record with an error reported. */
  lemma BlankReplyFallsBack(reply: string, parse: string -> Option<Json>)
    requires parse("") == None
    requires reply != "" && Strip(reply) == ""
    ensures ProcessWithModel(Some(reply), parse) == Fallback(true)
  {
    CleanIsStripUnlessFenced(reply);
  }

  /** Two non-empty replies that clean to the same text have the same
      outcome: nothing but the cleaned text reaches `json.loads`. */
  lemma OutcomeDependsOnCleanedText(reply: string, other: string, parse: string -> Option<Json>)
    requires reply != "" && other != "" && Clean(reply) == Clean(other)
    ensures ProcessWithModel(Some(reply), parse) == ProcessWithModel(Some(other), parse)
  {
  }

  /** A non-empty object text whose stripped form does not start with a fence
      is parsed the same whether the model sends it bare or on its own lines
      inside a "```json" fence: both clean to the stripped text. */
  lemma FencedAndBareRepliesAgree(obj: string, parse: string -> Option<Json>)
    requires obj != "" && !StartsWith(Strip(obj), Fence)
    ensures ProcessWithModel(Some(JsonFence + ("\n" + obj + "\n") + Fence), parse)
         == ProcessWithModel(Some(obj), parse)
  {
    var fenced := JsonFence + ("\n" + obj + "\n") + Fence;
    assert |fenced| > 0;
    assert Clean(fenced) == Clean(obj) by {
      CleanFencedLines(obj);
      CleanIsStripUnlessFenced(obj);
    }
    OutcomeDependsOnCleanedText(fenced, obj, parse);
  }

  /** `data.get(key, "")`: None when `data` is not a dict, where Python
      raises AttributeError. */
  function Get(data: Json, key: string): (v: Option<Json>)
    ensures v.Some? <==> data.Obj?
    ensures data.Obj? && key in data.members ==> v == Some(data.members[key])
    ensures data.Obj? && key !in data.members ==> v == Some(Str(""))
  {
    if data.Obj? then Some(if key in data.members then data.members[key] else Str(""))
    else None
  }

  /** The initial values of the Name, Phone Number and Address widgets. */
  datatype Fields = Fields(name: Json, phone: Json, address: Json)

  function FormFields(data: Json): (fields: Option<Fields>)
    ensures fields.Some? <==> data.Obj?
  {
    match (Get(data, "Name"), Get(data, "Phone"), Get(data, "Address"))
    case (Some(name), Some(phone), Some(address)) => Some(Fields(name, phone, address))
    case _ => None
  }

  /** What one run of `main` shows once a file is uploaded: nothing more when
      extraction gave no text, or the outcome of asking the model and the
      form; `fields` is None when `main` raises before drawing the widgets. */
  datatype Screen = NoForm | Form(inference: Inference, fields: Option<Fields>)

  /** `main` after extraction, given the extracted text and the model as a
      function of that text (the prompt that embeds it is not modelled). */
  function Render(text: Option<string>, generate: string -> Option<string>,
                  parse: string -> Option<Json>): (screen: Screen)
    ensures screen.Form? <==> text.Some? && text.value != ""
    ensures screen.Form? ==> (screen.fields.Some? <==> Returned(screen.inference).Obj?)
  {
    if text.Some? && text.value != "" then
      var inference := ProcessWithModel(generate(text.value), parse);
      Form(inference, FormFields(Returned(inference)))
    else
      NoForm
  }

  /** The model is asked only for a non-empty extracted text: the form appears
      exactly then, it shows the outcome of that one request, and otherwise
      the model's behaviour makes no difference. */
  lemma ModelAskedOnlyForText(text: Option<string>, generate: string -> Option<string>,
                              other: string -> Option<string>, parse: string -> Option<Json>)
    ensures Render(text, generate, parse).Form? <==> text.Some? && text.value != ""
    ensures Render(text, generate, parse).Form? ==>
      Render(text, generate, parse).inference == ProcessWithModel(generate(text.value), parse)
    ensures Render(text, generate, parse).NoForm? ==>
      Render(text, other, parse) == Render(text, generate, parse)
  {
  }

  /** Each field shows the parsed value for its key, or "" when the key is
      absent; if the parse is not a dict there are no fields at all. */
  lemma FieldsShowValueOrEmpty(data: Json)
    ensures FormFields(data).Some? <==> data.Obj?
    ensures data.Obj? ==>
      var m := data.members;
      FormFields(data).value == Fields(if "Name" in m then m["Name"] else Str(""),
                                       if "Phone" in m then m["Phone"] else Str(""),
                                       if "Address" in m then m["Address"] else Str(""))
  {
  }

  /** A reply that parses to a dict fills the form with that dict's values,
      "" standing in for a missing key. */
  lemma ParsedDictFillsForm(text: string, generate: string -> Option<string>,
                            parse: string -> Option<Json>, m: map<string, Json>)
    requires text != "" && generate(text).Some? && generate(text).value != ""
    requires parse(Clean(generate(text).value)) == Some(Obj(m))
    ensures Render(Some(text), generate, parse)
         == Form(Parsed(Obj(m)), Some(Fields(if "Name" in m then m["Name"] else Str(""),
                                            if "Phone" in m then m["Phone"] else Str(""),
                                            if "Address" in m then m["Address"] else Str(""))))
  {
    FieldsShowValueOrEmpty(Obj(m));
  }

  /** When the model call or the parse fails, or the reply is empty, the form
      still appears, with three empty fields. */
  lemma FailureShowsEmptyForm(text: string, generate: string -> Option<string>,
                              parse: string -> Option<Json>)
    requires text != ""
    ensures var screen := Render(Some(text), generate, parse);
      screen.Form? && (screen.inference.Fallback? ==> screen.fields == Some(Fields(Str(""), Str(""), Str(""))))
  {
  }

  /** A document whose pages all read as empty never reaches the model. */
  lemma BlankDocumentSkipsModel(pages: seq<Option<string>>, generate: string -> Option<string>,
                                parse: string -> Option<Json>)
    requires forall i :: 0 <= i < |pages| ==> pages[i] == Some("")
    ensures Render(PdfText.Extracted(PdfText.Pages(pages)), generate, parse) == NoForm
  {
    PdfText.ExtractedEmpty(PdfText.Pages(pages));
  }

  /** `main` for one upload: nothing without a file; otherwise extract the
      text (reporting a failure) and render. */
  method HandleUpload(upload: Option<PdfText.Pdf>, generate: string -> Option<string>,
                      parse: string -> Option<Json>)
    returns (screen: Screen, extractionError: bool)
    ensures upload.None? ==> screen == NoForm && !extractionError
    ensures upload.Some? ==>
      && screen == Render(PdfText.Extracted(upload.value), generate, parse)
      && (extractionError <==> PdfText.Extracted(upload.value).None?)
  {
    if upload.None? {
      return NoForm, false;
    }
    var text;
    text, extractionError := PdfText.ExtractText(upload.value);
    screen := Render(text, generate, parse);
  }
}
