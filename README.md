# KeyValuePairGenerator, modelled in Dafny

KeyValuePairGenerator is four Streamlit applications. Each one reads text out of an uploaded document, asks Gemini for key-value pairs, and shows the result. The files are `streamlitapp.py`, `streamlitappv2.py`, `streamlitappv3.py` and `streamlitappv4.py`. This project models their core:

- **Text assembly.** `read_pdf` joins the page texts with newlines. In the second and fourth applications, `read_image` joins the OCR spans with spaces, or returns the sentinel `"No text detected"` when there are none. In the third application, `read_image` joins a first OCR pass, throws that text away, and returns the span list of a second pass.
- **Prompt and result classification**, shared by all four applications. `extract_key_value_pairs` builds the prompt and treats the model's reply in one of three ways:
  - a missing or empty reply gives a no-response error dict;
  - otherwise the reply is cleaned with `.strip("`json\n").strip("```")` and handed to `json.loads`;
  - a parse failure gives an error dict that carries the cleaned reply.

  The version differences are only in the error strings.
- **The edit buffer of the fourth application** (`manual_edit_kv_pairs`). It has:
  - the non-dict guard;
  - the initialisation of `st.session_state["updated_json"]`;
  - the callbacks `update_key` (`pop`, then assign) and `update_value`;
  - the loop that rebuilds the buffer from the key and value text inputs.

  Python dict insertion order is modelled. A key that is assigned again keeps its place, a new key is appended, `pop` removes a key, and when the loop writes the same key twice the last write wins.

Modules:

- `Wrappers`: `Option`.
- `PyText`: models `str.join`, `str.split` on one character, and `str.strip(chars)` with a set of characters.
- `PyDict`: an insertion-ordered string dict. It supports assignment, `pop`, and the dict that a sequence of assignments builds.
- `Acquisition`: `read_pdf` and `read_image`.
- `Extraction`: the prompt, the cleaner and `extract_key_value_pairs`.
- `Editing`: `manual_edit_kv_pairs`. The session buffer is the class `EditSession`, whose methods update its `buffer` field.

External services and libraries become parameters of the model:

- The Gemini call is a parameter `generate: string -> Option<string>`. `None` stands for a missing response object.
- `json.loads` is a parameter `parse: string -> Option<Json>`. `None` stands for `JSONDecodeError`. `Json` tells apart a JSON object of string values, a JSON object with other values (kept as the text its value inputs display), and any other JSON value.
- The text of the page and OCR libraries is given as sequences of strings.
- Streamlit widget state is a map from widget id to the text the session holds for that widget. `text_input(value=default, key=id)` returns the widget's stored text if there is any, and the default otherwise.

Where the source's own comments and its code disagree, the model follows the code. The comment on the cleaner, `# Remove backticks and "json"` (streamlitapp.py:27, and the same line in the second and third applications), says it removes the code fence and the `json` tag. The code, however, strips any leading and trailing run of the characters backtick, `j`, `s`, `o`, `n` and newline. So it also cuts letters of the text itself: `"not json at all"` becomes `"t json at all"` (`Extraction.CleanCutsLettersOfTheSet`). The second `.strip("```")` never changes anything (`Extraction.Clean`).

## Model

| member | source | states |
|---|---|---|
| PyText.Join | streamlitappv4.py:20 | `sep.join(parts)`; its layout and uniqueness are stated by `PyText.JoinLayout` and `PyText.JoinUnique` |
| PyText.JoinLayout | streamlitappv4.py:20 | the joined string is each part at its offset, followed by the separator, except after the last part |
| PyText.JoinUnique | streamlitappv4.py:20 | that layout determines the joined string uniquely |
| PyText.SplitJoin | streamlitappv2.py:26 | splitting the join on its separator gives the parts back, when no part contains the separator |
| PyText.JoinCount | streamlitappv4.py:20 | the join holds the parts' own separator characters plus one per gap |
| PyText.Strip | streamlitappv4.py:64 | `strip(chars)` gives the slice after the leading run, with no set character left at either end |
| PyText.StripUnique | streamlitappv4.py:64 | any slice that is trimmed of set characters only, and as far as possible, is the strip |
| PyText.StripIdempotent | streamlitappv4.py:64 | stripping twice with the same set is stripping once |
| PyText.StripThenSubset | streamlitappv4.py:64 | after a strip, stripping with a subset of the characters changes nothing |
| PyDict.Assign | streamlitappv4.py:119 | `d[k] = v`: the table is updated at k; a present key keeps its position; a new key is appended |
| PyDict.RemoveKey | streamlitappv4.py:100 | the key order left after `pop`: membership is exactly the others, distinctness is kept, and one key fewer |
| PyDict.Pop | streamlitappv4.py:100 | `d.pop(k)` returns k's value and leaves the dict without k, the other keys in their order |
| PyDict.FromPairs | streamlitappv4.py:106-119 | `new_updated_data = {}` followed by `new_updated_data[k] = v` for each pair in order; always a well-formed dict |
| PyDict.FromPairsKeys | streamlitappv4.py:106-121 | the dict built by the assignments holds exactly the keys written |
| PyDict.FromPairsLastWrite | streamlitappv4.py:119 | a key holds the value of its last write |
| PyDict.FromPairsOrder | streamlitappv4.py:106-121 | keys are ordered by their first write |
| PyDict.FromPairsIdentity | streamlitappv4.py:106-121 | writing a dict's own items back in order rebuilds it exactly |
| Acquisition.ReadPdf | streamlitappv4.py:17-21 | the text is the pages joined by newlines; no pages give "" |
| Acquisition.ReadPdfDetermined | streamlitapp.py:13-17 | any text with the newline-join layout of the pages is `read_pdf`'s text |
| Acquisition.ReadPdfRecoversPages | streamlitappv2.py:15-19 | splitting the text on newlines gives the pages back, when no page contains a newline |
| Acquisition.ReadPdfSeparators | streamlitappv3.py:17-21 | n pages add exactly n-1 newlines |
| Acquisition.ReadPdfBlankPage | streamlitappv4.py:20 | a page without text between two others leaves two adjacent newlines where it starts |
| Acquisition.ReadImage | streamlitappv4.py:48-54 | no spans give "No text detected"; otherwise the spans are joined by single spaces |
| Acquisition.ReadImageRecoversSpans | streamlitappv2.py:21-26 | splitting on spaces gives the spans back, when no span contains a space |
| Acquisition.JoinedTextV3 | streamlitappv3.py:51-52 | the first-pass text of the third application: "" for no spans, otherwise the spans joined by spaces |
| Acquisition.ReadImageV3 | streamlitappv3.py:45-61 | the third application returns the second pass's span list and not a string |
| Acquisition.ReadImageV3IgnoresFirstPass | streamlitappv3.py:51-61 | the first pass has no effect on the result, and its "no spans" text is "" rather than the sentinel |
| Extraction.Prompt | streamlitappv4.py:59 | the prompt is the fixed instruction followed by the text, verbatim |
| Extraction.PromptRoundTrip | streamlitapp.py:22 | the text can be recovered from the prompt, and different texts give different prompts |
| Extraction.Clean | streamlitappv4.py:64 | the cleaner is the first strip alone, and its result neither starts nor ends with a set character |
| Extraction.CleanIsTrimmedSlice | streamlitapp.py:27 | the cleaned reply is a contiguous slice of the reply; only set characters are cut around it |
| Extraction.CleanUnique | streamlitappv2.py:36 | the cleaned reply is the only maximal slice trimmed of set characters only |
| Extraction.CleanIdempotent | streamlitappv3.py:72 | cleaning a cleaned reply changes nothing |
| Extraction.CleanFenced | streamlitappv4.py:64 | a reply in a json code fence loses exactly the fence and the tag |
| Extraction.CleanBareObject | streamlitapp.py:27 | any reply that starts with `{` and ends with `}` is left as it is |
| Extraction.CleanCutsLettersOfTheSet | streamlitapp.py:27 | set characters at the start of the text itself are cut too |
| Extraction.NoResponseMessage | streamlitappv4.py:70 | the per-version no-response string; its exact values are stated by `Extraction.GeminiErrorDicts` and `Extraction.V4ErrorDicts` (streamlitapp.py:33 for the first three) |
| Extraction.InvalidJsonMessage | streamlitappv4.py:68 | the per-version invalid-JSON string, stated the same way (streamlitapp.py:31 for the first three) |
| Extraction.HasText | streamlitappv4.py:63 | `response and response.text`: a response exists and its text is not empty |
| Extraction.IsDict | streamlitappv4.py:87 | `isinstance(extracted_data, dict)`: an object with string values or with other values |
| Extraction.ErrorDict | streamlitappv4.py:70 | `{"Error": msg}` is a well-formed one-entry dict |
| Extraction.InvalidJsonDict | streamlitappv4.py:68 | `{"Error": msg, "Raw Response": raw}`, in that order |
| Extraction.ExtractKeyValuePairs | streamlitappv4.py:56-70 | a missing or empty reply gives the no-response dict; a parse failure gives the invalid-JSON dict with the cleaned reply; otherwise the parse result |
| Extraction.GeminiErrorDicts | streamlitapp.py:26-33 | the first three applications give "No response from Gemini" and "Invalid JSON format returned from Gemini" |
| Extraction.V4ErrorDicts | streamlitappv4.py:63-70 | the fourth application gives "No response" and "Invalid JSON format returned" |
| Extraction.NoResponseIgnoresParser | streamlitappv2.py:35-42 | without a reply nothing is parsed, so the parser makes no difference to the result |
| Extraction.RawResponseIsCleanedReply | streamlitappv3.py:71-76 | the "Raw Response" is the cleaned reply, and cleaning it again leaves it unchanged |
| Extraction.ErrorResultsWellFormed | streamlitappv4.py:67-70 | the error results are JSON objects whose dicts are well-formed |
| Extraction.FencedReplyIsParsed | streamlitappv4.py:61-66 | a fenced reply reaches the parser as its bare body, and the parser's result is returned |
| Editing.KeyWidgetId | streamlitappv4.py:112 | the key input's widget id `f"key_{key}"` |
| Editing.ValueWidgetId | streamlitappv4.py:116 | the value input's widget id `f"value_{key}"` |
| Editing.TextInput | streamlitappv4.py:111-117 | `st.text_input(value=default, key=id)` returns the session's text for the widget if it holds one, else the default |
| Editing.EditedKeys | streamlitappv4.py:111-113 | the key each entry's key input returns: the stored widget text, else the key |
| Editing.EditedValues | streamlitappv4.py:115-117 | the value each entry's value input returns: the stored widget text, else the value |
| Editing.Rebuilt | streamlitappv4.py:106-121 | the dict the loop builds from the inputs' keys and values; its keys, last write, order and identity are stated by the `Editing.Rebuilt*` lemmas |
| Editing.RebuiltKeys | streamlitappv4.py:106-121 | the rebuilt buffer holds exactly the edited keys, ordered by first write, and is no larger than before |
| Editing.RebuiltLastWrite | streamlitappv4.py:119 | when several entries are edited to the same key, the last one's value is kept |
| Editing.RebuiltDefaults | streamlitappv4.py:106-121 | when every input returns its default, the rebuild gives back the buffer, order included |
| Editing.RebuiltFirstRender | streamlitappv4.py:106-121 | with no widget text stored, the rebuild is the identity |
| Editing.CollectEdits | streamlitappv4.py:106-121 | the loop's result is the rebuild of the snapshot of the buffer's items |
| Editing.RenameFires | streamlitappv4.py:99 | `new_key and old_key != new_key` |
| Editing.RenameKey | streamlitappv4.py:97-100 | a rename that does not fire (empty or unchanged key) leaves the dict unchanged; any result is well-formed |
| Editing.RenameKeyMoves | streamlitappv4.py:100 | a fired rename moves the value to the new key (overwriting), keeps every other entry, and orders a new key last |
| Editing.CallSiteRenamesToWidgetId | streamlitappv4.py:112 | as wired, a fired callback always renames k to "key_"+k |
| Editing.CallSiteCounterexample | streamlitappv4.py:112 | `{"Name": "John"}` becomes `{"key_Name": "John"}` as wired, but `{"FullName": "John"}` as intended |
| Editing.EditSession.constructor | streamlitappv4.py:92-93 | a fresh session holds the empty buffer |
| Editing.EditSession.UpdateKey | streamlitappv4.py:97-100 | the buffer becomes the rename of the old buffer |
| Editing.EditSession.UpdateValue | streamlitappv4.py:102-104 | the entry takes the value input's text; every other entry and the order of present keys are unchanged |
| Editing.EditSession.OnKeyChange | streamlitappv4.py:111-113 | as wired: the key moves to "key_"+key with its value |
| Editing.EditSession.OnKeyChangeIntended | streamlitappv4.py:111-113 | as intended: the key moves to the text the key input holds |
| Editing.EditSession.ManualEdit | streamlitappv4.py:83-126 | a value that is not a dict gives None and leaves the buffer alone; any dict, whatever its values, seeds an empty buffer with its displayed form, which is then rebuilt from the inputs and returned |

## Left out

- The Streamlit page layout, uploaders, previews, downloads and `json.dumps` rendering (the page script and the `display_*` functions) are left out, because they are presentation only. So is the assignment of the extraction result to the session before editing (streamlitappv4.py:161).
- The Gemini model, `genai.configure`, `load_dotenv` and environment variables are left out. The reply is a parameter.
- The internals of `json.loads` are left out, since it is a parameter. A JSON object with non-string values is `OtherObject`, and it carries only the text each value's input displays, which is given. Python's `str` of numbers, lists and nested objects is not modelled. Every value that is not an object is `NotObject`.
- Editing.EditSession.ManualEdit: it seeds an empty buffer with the displayed text of each value, where the source copies the original values (line 93). For string, number, list and nested-object values, the two end with the same buffer and result, because the rebuild at lines 106-121 replaces every value with the text of its input. A JSON `null` is the exception. Streamlit's text input starts empty for a `None` default and returns `None` until the user types, so the source's rebuilt buffer keeps `None` under that key, and the download exports `null`. The model's buffer holds only strings, so it cannot represent that `None`.
- PyMuPDF and EasyOCR are left out, including the choice of OCR language. Their output is a given sequence of strings.
- `preprocess_image` (streamlitappv4.py:23-46) uses OpenCV contour and rotation arithmetic on floating-point images, and is not modelled. The commented-out orientation check of the third application is not modelled either.
- An exception from `response.text` (a blocked reply) is not modelled. A reply is either a string or missing.
- Feeding the third application's span list into the prompt f-string would use Python's list representation. That is not modelled: `ReadImageV3` stops at the list.
- When callbacks run, and the rerun that follows them, are left out. A callback is a separate method call on the session. Which widget fires is up to the caller.
- A session without the `"updated_json"` entry is modelled as a session whose buffer is the empty dict, which the source treats the same way (line 92).
- Editing.EditSession.UpdateKey: `pop` of a missing key raises `KeyError` in Python. The model requires the key to be present when the rename fires, instead of modelling the exception.
- test.py is not part of this model.

## Findings

| source | as written | input that shows it | evidently intended | confidence | as-written member | corrected member |
|---|---|---|---|---|---|---|
| streamlitappv4.py:112 | `args=(key, f"key_{key}")` passes the key widget's id as the new key name | buffer `{"Name": "John"}`, the user types `FullName` into the key input; the buffer becomes `{"key_Name": "John"}` | the new key is the text typed into the key input, `st.session_state[f"key_{key}"]`, giving `{"FullName": "John"}` | not executed | Editing.EditSession.OnKeyChange (with Editing.CallSiteCounterexample) | Editing.EditSession.OnKeyChangeIntended |
