# PDF information extractor: a Dafny model of its text handling

The program takes an uploaded PDF, extracts the text of its pages, asks a
hosted language model to return the person's Name, Phone and Address as JSON,
cleans code fences off the reply, parses it, and shows the three values in an
editable form. This project models the parts of `app.py` that can be stated
and proved:

- `pytext.dfy` (module `PyText`): the Python `str` operations the cleaner
  relies on. `IsSpace` is Python's `str.isspace` (the ASCII controls `\t` to
  `\r`, `\x1c` to `\x1f`, space, `\x85`, `\xa0`, U+1680, U+2000 to U+200A,
  U+2028, U+2029, U+202F, U+205F and U+3000). `Strip` is `str.strip()`,
  `StartsWith` is `str.startswith`, and `Slice` is `s[a:b]` with Python's
  handling of negative and out-of-range bounds.
- `cleaner.dfy` (module `ResponseCleaner`): the reply cleaner. It strips the
  reply. If the result starts with "```json" it keeps `[7:-3]`; otherwise, if
  it starts with "```", it keeps `[3:-3]`. Then it strips again. The last
  three characters are dropped whether or not they are backticks, exactly as
  the code does.
- `extractor.dfy` (module `PdfText`): `extract_text_from_pdf`. It is a method
  with the source's accumulator loop, proved against `Join`, the in-order
  concatenation of the page texts. A file the reader cannot open, or any page
  whose extraction raises, gives no text (`None`), and the error is reported.
- `app.py`'s `process_with_gemini` and `main` live in `app.dfy` (module
  `App`). The outcome is either the parsed value or the empty record
  `{"Name": "", "Phone": "", "Address": ""}`, together with whether an error
  was reported. The model is asked only for non-empty extracted text. Each
  field shows `data.get(key, "")`.
- `wrappers.dfy`: the `Option` type.

The model call, `json.loads` and the PDF reader are outside the model and
appear as inputs. The model's reply is a function `generate` of the extracted
text, returning `None` when the call raises. `json.loads` is a function
`parse`, returning `None` when it raises. An uploaded file is a `Pdf` value
listing each page's extraction result.

Three behaviours of the code that the model keeps as they are:

- If the reply parses to something other than a JSON object (a list, a
  string, a number), `main` calls `data.get` on it outside any `try`
  (app.py:79), so Python raises AttributeError and no fields are drawn.
  `FormFields` returns `None` in that case. The form's three keys are
  guaranteed only when the parse is a dict or when the empty record is used.
- Fence removal cuts at fixed offsets (app.py:48-51). It does not match an
  opening or a closing marker line. Whatever the last three characters are,
  they are dropped (see `CleanUnclosedJsonFence`).
- An empty reply (app.py:45, 56-57) gives the empty record without calling
  `st.error`. Only an exception (app.py:59-61) reports an error. The model
  keeps the two apart as `Fallback(false)` and `Fallback(true)`.

## Model

| member | source | states |
|---|---|---|
| PyText.IsSpace | app.py:47 | Python's `str.isspace`; none of the characters a fence or a JSON text begins or ends with (backtick, braces, brackets, double quote) is whitespace |
| PyText.LStrip | app.py:47 | the leading-whitespace strip gives a suffix of its input that is empty or does not start with whitespace |
| PyText.RStrip | app.py:47 | the trailing-whitespace strip gives a prefix of its input that is empty or does not end with whitespace |
| PyText.LStripRemovesSpace | app.py:47 | everything the leading strip removes is whitespace |
| PyText.RStripRemovesSpace | app.py:47 | everything the trailing strip removes is whitespace |
| PyText.Strip | app.py:47 | `strip()` never returns text that begins or ends with whitespace, and is never longer than its input |
| PyText.StripIsInfix | app.py:47 | `strip()` returns a contiguous piece of its input |
| PyText.StripAround | app.py:47 | stripping whitespace-only text from both sides of a trimmed body gives back exactly that body |
| PyText.StripSplit | app.py:47 | every string is its strip with whitespace-only text on either side |
| PyText.StripPadded | app.py:47-53 | adding whitespace on either side of a string does not change its strip |
| PyText.StripFixpoint | app.py:53 | a string is its own strip exactly when neither of its ends is whitespace |
| PyText.StripIdempotent | app.py:53 | stripping twice is the same as stripping once |
| PyText.StartsWith | app.py:48-50 | `str.startswith`: true exactly when the prefix fits and agrees with the string character by character |
| PyText.SliceBound | app.py:49 | a slice bound within range is kept, a negative one in range counts from the end, one below minus the length becomes 0 and one beyond the length becomes the length |
| PyText.Slice | app.py:49 | a slice is never longer than the string |
| PyText.SliceIsInfix | app.py:49-51 | a slice is a contiguous piece of the string |
| PyText.SliceDropLast | app.py:49-51 | `s[a:-b]` holds the characters from a up to, but excluding, the last b, and is empty when a+b exceeds the length |
| ResponseCleaner.Unfence | app.py:48-51 | cutting the fence never lengthens the text |
| ResponseCleaner.JsonFenceIsFence | app.py:48-50 | a text starting with "```json" also starts with "```", so the first test must come first |
| ResponseCleaner.UnfenceJson | app.py:48-49 | a text starting with "```json" loses its first 7 and last 3 characters, and becomes empty at length 10 or less |
| ResponseCleaner.UnfenceBare | app.py:50-51 | a text starting with "```" but not "```json" loses its first 3 and last 3 characters, and becomes empty at length 6 or less |
| ResponseCleaner.UnfencePlain | app.py:48-52 | a text starting with no fence is left unchanged |
| ResponseCleaner.Clean | app.py:47-53 | the cleaned text never begins or ends with whitespace and is never longer than the reply |
| ResponseCleaner.CleanIsInfix | app.py:47-53 | the cleaned text is a contiguous piece of the reply |
| ResponseCleaner.CleanJsonFenced | app.py:47-49 | when the stripped reply t starts with "```json", the result is strip(t[7:-3]), and it is empty when len(t) is 10 or less |
| ResponseCleaner.CleanBareFenced | app.py:47-53 | when the stripped reply t starts with "```" but not "```json", the result is strip(t[3:-3]), and it is empty when len(t) is 6 or less |
| ResponseCleaner.CleanIsStripUnlessFenced | app.py:47-53 | cleaning equals a single strip exactly when the stripped reply does not start with "```" |
| ResponseCleaner.CleanJsonWrapped | app.py:48-49 | "```json" + body + "```" cleans to strip(body) |
| ResponseCleaner.CleanBareWrapped | app.py:50-51 | "```" + body + "```" cleans to strip(body) unless body starts with "json" |
| ResponseCleaner.CleanUnclosedJsonFence | app.py:48-49 | a "```json" reply without a closing fence loses the last three characters of its content |
| ResponseCleaner.CleanFencedLines | app.py:47-53 | any text on its own lines inside a "```json" fence cleans to its own strip |
| ResponseCleaner.CleanTypicalReply | app.py:47-53 | a trimmed object sent as a "```json" line, the object, and a "```" line cleans to exactly the object |
| PdfText.Join | app.py:17-19 | the concatenation of the page texts begins with the first page's text |
| PdfText.Extracted | app.py:14-23 | the text of an unreadable file, or of a file with any page whose extraction raises, is None: there is never partial text (the value otherwise is the join of all page texts) |
| PdfText.JoinAppend | app.py:19 | appending one page's text to the accumulator is joining the pages up to and including it |
| PdfText.JoinConcat | app.py:17-19 | joining two runs of pages is concatenating their joins |
| PdfText.JoinAt | app.py:17-19 | each page's text appears in the result right after the text of the pages before it, with nothing in between |
| PdfText.JoinEmpty | app.py:17-19 | the joined text is empty exactly when every page's text is empty |
| PdfText.ExtractText | app.py:14-23 | the loop returns the in-order, separator-free concatenation of the page texts, or None with an error reported when the file or any page cannot be read |
| PdfText.ExtractedEmpty | app.py:17-20 | a readable file extracts to "" exactly when every page reads as "" (in particular, a file with no pages does) |
| PdfText.ExtractedTwoPages | app.py:17-20 | pages "Alice " and "Street 5" extract to "Alice Street 5" |
| App.Returned | app.py:55-61 | a parse is returned unchanged; the fallback value is a dict with exactly the keys Name, Phone and Address, each "" |
| App.ProcessWithModel | app.py:43-61 | a parse is returned only for a non-empty reply; an empty reply falls back silently and a failed call falls back with an error (full outcome in ProcessOutcomes, fence-independence in FencedAndBareRepliesAgree) |
| App.ProcessOutcomes | app.py:43-61 | the parse is returned exactly when the reply is non-empty and its cleaned text parses; otherwise the all-empty record is returned, with an error reported unless the reply was empty |
| App.BlankReplyFallsBack | app.py:45-61 | a whitespace-only reply cleans to "", fails to parse, and yields the empty record with an error |
| App.OutcomeDependsOnCleanedText | app.py:45-55 | two non-empty replies that clean to the same text give the same outcome |
| App.FencedAndBareRepliesAgree | app.py:47-55 | a non-empty text whose strip does not start with "```" gives the same outcome sent bare or on its own lines inside a "```json" fence |
| App.Render | app.py:72-81 | the model is asked and its outcome shown exactly when the extracted text is non-empty; the three fields are then drawn exactly when the returned value is a dict (a non-dict parse raises at app.py:79 before any widget) |
| App.ModelAskedOnlyForText | app.py:68-75 | the model is asked exactly when the extracted text is non-empty, and the screen then shows the outcome of that one request; for an empty or missing text the model's behaviour makes no difference |
| App.Get | app.py:79-81 | `data.get(key, "")` succeeds exactly on a dict, giving the key's value when present and "" when absent |
| App.FormFields | app.py:79-81 | the three fields exist exactly when the parsed value is a dict (each field's value is in FieldsShowValueOrEmpty) |
| App.FieldsShowValueOrEmpty | app.py:79-81 | each field shows the parsed value for its key or "" when the key is absent; a non-dict parse gives no fields |
| App.ParsedDictFillsForm | app.py:54-81 | a reply that parses to a dict shows that dict's Name, Phone and Address values, "" for each missing key |
| App.FailureShowsEmptyForm | app.py:56-81 | when the model call or the parse fails, the form still appears with three empty fields |
| App.BlankDocumentSkipsModel | app.py:17-75 | a document whose pages all read as empty never reaches the model |
| App.HandleUpload | app.py:68-81 | with no upload nothing is shown; otherwise the screen is the rendering of the extracted text, and an extraction error is reported exactly when there is no text |

## Left out

- Streamlit: the title, uploader, spinner, subheader, text widgets, the
  "Save Information" button and its `st.success`/`st.json` output
  (app.py:64-66, 74, 78-89). These are UI effects. `st.error` is modelled
  only as a reported-error flag.
- The Gemini client setup and API key loading (app.py:8-12). These are
  process configuration.
- `model.generate_content` (app.py:43): a network call, modelled as the
  parameter `generate`.
- The prompt template (app.py:27-41). `generate` receives the extracted text
  itself; the template only embeds it verbatim.
- PyPDF2's parsing and `page.extract_text()` (app.py:16, 19): a foreign
  library, modelled as the `Pdf` value.
- The internals of `json.loads` (app.py:54): a library parser, modelled as
  the parameter `parse`. Numbers, booleans, null and arrays are one case,
  `Other`, because the program never looks inside them.
- What a text widget displays for a field value that is not a string: that
  happens inside Streamlit.
- Python strings may contain lone surrogate code points; Dafny's `char` is a
  Unicode scalar value, so such strings are not modelled.
