/**
 * `extract_key_value_pairs`, one definition for the four applications: build the
 * prompt, take the model's reply, clean it with
 * `response.text.strip("`json\n").strip("```")` and hand it to `json.loads`.
 * The Gemini call is the parameter `generate` (`None` stands for a missing
 * response object) and `json.loads` is the parameter `parse` (`None` stands for
 * `json.JSONDecodeError`).
 */
module Extraction {
  import opened Wrappers
  import opened PyText
  import opened PyDict

  /** The four application files, which differ only in their error strings here. */
  datatype App = StreamlitApp | StreamlitAppV2 | StreamlitAppV3 | StreamlitAppV4

  /**
   * What `json.loads` can return, as far as the applications look at it: a JSON
   * object whose values are all strings; a JSON object with some other value
   * (a number, a list, a nested object), of which the model keeps `shown`, the
   * text each value's input box displays, key by key; or any other JSON value.
   */
  datatype Json = Object(dict: Dict) | OtherObject(shown: Dict) | NotObject

  /** `isinstance(value, dict)`. */
  predicate IsDict(j: Json)
  {
    j.Object? || j.OtherObject?
  }

  /** A dict as its value inputs display it: unchanged for string values, the given text otherwise. */
  function Displayed(j: Json): (d: Dict)
    requires IsDict(j)
    ensures j.Object? ==> d == j.dict
    ensures j.OtherObject? ==> d == j.shown
  {
    if j.Object? then j.dict else j.shown
  }

  const PromptPrefix: string := "Extract key-value pairs from the following text and return a **valid JSON object**:\n\n"

  /** The f-string prompt: the fixed instruction followed by the text, verbatim. */
  function Prompt(text: string): (p: string)
    ensures |p| == |PromptPrefix| + |text|
    ensures p[..|PromptPrefix|] == PromptPrefix
    ensures p[|PromptPrefix|..] == text
  {
    PromptPrefix + text
  }

  /** The text a prompt carries, if it is a prompt at all. */
  function PromptText(p: string): Option<string>
  {
    if |PromptPrefix| <= |p| && p[..|PromptPrefix|] == PromptPrefix then Some(p[|PromptPrefix|..]) else None
  }

  /** The text is recoverable from the prompt, so different texts give different prompts. */
  lemma PromptRoundTrip(text: string)
    ensures PromptText(Prompt(text)) == Some(text)
    ensures forall other :: Prompt(other) == Prompt(text) ==> other == text
  {
    forall other | Prompt(other) == Prompt(text)
      ensures other == text
    {
      assert other == Prompt(other)[|PromptPrefix|..];
    }
  }

  /** The character set of the first strip: backtick, `j`, `s`, `o`, `n` and newline. */
  const FenceChars: set<char> := {'`', 'j', 's', 'o', 'n', '\n'}

  /** The character set of the second strip, `"```"`, is the backtick alone. */
  const BacktickChars: set<char> := {'`'}

  /**
   * The cleaner. Its second strip never changes anything: the result is the
   * first strip alone, and it neither starts nor ends with a character of the set.
   */
  function Clean(reply: string): (cleaned: string)
    ensures cleaned == Strip(reply, FenceChars)
    ensures cleaned == [] || (cleaned[0] !in FenceChars && cleaned[|cleaned| - 1] !in FenceChars)
  {
    var first := Strip(reply, FenceChars);
    StripThenSubset(reply, FenceChars, BacktickChars);
    Strip(first, BacktickChars)
  }

  /**
   * The cleaned reply is a contiguous slice of the reply: what is cut before it and
   * after it consists of characters of `FenceChars` only.
   */
  lemma CleanIsTrimmedSlice(reply: string)
    ensures TrimmedSliceOf(reply, FenceChars, Clean(reply))
  {
    StripIsTrimmedSlice(reply, FenceChars);
  }

  /** Any slice of the reply trimmed of fence characters only, and as far as possible, is the cleaned reply. */
  lemma CleanUnique(reply: string, i: int, j: int)
    requires 0 <= i <= j <= |reply|
    requires Trimmed(reply, FenceChars, i, j)
    ensures Clean(reply) == reply[i..j]
  {
    StripUnique(reply, FenceChars, i, j);
  }

  /** Cleaning a cleaned reply changes nothing. */
  lemma CleanIdempotent(reply: string)
    ensures Clean(Clean(reply)) == Clean(reply)
  {
    StripIdempotent(reply, FenceChars);
  }

  /** A reply fenced on both ends, with a `json` tag, loses exactly the fence and the tag. */
  lemma CleanFenced(body: string)
    requires body != [] && body[0] !in FenceChars && body[|body| - 1] !in FenceChars
    ensures Clean("```json\n" + body + "\n```") == body
  {
    var open, close := "```json\n", "\n```";
    var s := open + body + close;
    assert forall k :: 0 <= k < |open| ==> s[k] == open[k];
    assert forall k :: |open| + |body| <= k < |s| ==> s[k] == close[k - |open| - |body|];
    assert forall k :: 0 <= k < |open| ==> open[k] in FenceChars;
    assert forall k :: 0 <= k < |close| ==> close[k] in FenceChars;
    assert s[|open|..|open| + |body|] == body;
    CleanUnique(s, |open|, |open| + |body|);
  }

  /** A reply without fences that starts and ends with braces is left as it is. */
  lemma CleanBareObject(reply: string)
    requires |reply| >= 2 && reply[0] == '{' && reply[|reply| - 1] == '}'
    ensures Clean(reply) == reply
  {
    CleanUnique(reply, 0, |reply|);
    assert reply[0..|reply|] == reply;
  }

  /** The set semantics reaches into the text: leading `n` and `o` of a plain reply go too. */
  lemma CleanCutsLettersOfTheSet()
    ensures Clean("not json at all") == "t json at all"
  {
    var s := "not json at all";
    assert s[2..15] == "t json at all";
    CleanUnique(s, 2, 15);
  }

  /** The "Error" string for a missing or empty reply. */
  function NoResponseMessage(app: App): string
  {
    if app == StreamlitAppV4 then "No response" else "No response from Gemini"
  }

  /** The "Error" string for a reply `json.loads` rejects. */
  function InvalidJsonMessage(app: App): string
  {
    if app == StreamlitAppV4 then "Invalid JSON format returned" else "Invalid JSON format returned from Gemini"
  }

  /** `{"Error": msg}` */
  function ErrorDict(msg: string): (d: Dict)
    ensures WellFormed(d) && d.order == ["Error"] && d.table == map["Error" := msg]
  {
    Dict(["Error"], map["Error" := msg])
  }

  /** `{"Error": msg, "Raw Response": raw}` */
  function InvalidJsonDict(msg: string, raw: string): (d: Dict)
    ensures WellFormed(d) && d.order == ["Error", "Raw Response"]
    ensures d.table == map["Error" := msg, "Raw Response" := raw]
  {
    Dict(["Error", "Raw Response"], map["Error" := msg, "Raw Response" := raw])
  }

  /** `response and response.text`: a response object whose text is not empty. */
  predicate HasText(response: Option<string>)
  {
    response.Some? && response.value != ""
  }

  /**
   * `extract_key_value_pairs(text)` of application `app`: no reply or an empty one
   * gives the no-response error dict without parsing; otherwise the cleaned reply
   * is parsed, and a parse failure gives the invalid-JSON dict carrying the
   * cleaned reply, while a success returns whatever `json.loads` produced.
   */
  function ExtractKeyValuePairs(app: App, text: string, generate: string -> Option<string>, parse: string -> Option<Json>): (r: Json)
    ensures !HasText(generate(Prompt(text))) ==> r == Object(ErrorDict(NoResponseMessage(app)))
    ensures HasText(generate(Prompt(text))) && parse(Clean(generate(Prompt(text)).value)).None? ==>
              r == Object(InvalidJsonDict(InvalidJsonMessage(app), Clean(generate(Prompt(text)).value)))
    ensures HasText(generate(Prompt(text))) && parse(Clean(generate(Prompt(text)).value)).Some? ==>
              r == parse(Clean(generate(Prompt(text)).value)).value
  {
    var response := generate(Prompt(text));
    if HasText(response) then
      var cleaned := Clean(response.value);
      match parse(cleaned)
      case Some(value) => value
      case None => Object(InvalidJsonDict(InvalidJsonMessage(app), cleaned))
    else
      Object(ErrorDict(NoResponseMessage(app)))
  }

  /** The first three applications: the exact error dicts that name Gemini. */
  lemma GeminiErrorDicts(app: App, text: string, generate: string -> Option<string>, parse: string -> Option<Json>)
    requires app != StreamlitAppV4
    ensures var r := ExtractKeyValuePairs(app, text, generate, parse);
            var response := generate(Prompt(text));
            && (!HasText(response) ==> r == Object(Dict(["Error"], map["Error" := "No response from Gemini"])))
            && (HasText(response) && parse(Clean(response.value)).None? ==>
                  r == Object(Dict(["Error", "Raw Response"],
                                   map["Error" := "Invalid JSON format returned from Gemini",
                                       "Raw Response" := Clean(response.value)])))
  {
  }

  /** The fourth application: the exact error dicts without the model's name. */
  lemma V4ErrorDicts(text: string, generate: string -> Option<string>, parse: string -> Option<Json>)
    ensures var r := ExtractKeyValuePairs(StreamlitAppV4, text, generate, parse);
            var response := generate(Prompt(text));
            && (!HasText(response) ==> r == Object(Dict(["Error"], map["Error" := "No response"])))
            && (HasText(response) && parse(Clean(response.value)).None? ==>
                  r == Object(Dict(["Error", "Raw Response"],
                                   map["Error" := "Invalid JSON format returned",
                                       "Raw Response" := Clean(response.value)])))
  {
  }

  /** Nothing is parsed without a reply: the result does not depend on the parser. */
  lemma NoResponseIgnoresParser(app: App, text: string, generate: string -> Option<string>,
                                parse1: string -> Option<Json>, parse2: string -> Option<Json>)
    requires !HasText(generate(Prompt(text)))
    ensures ExtractKeyValuePairs(app, text, generate, parse1) == ExtractKeyValuePairs(app, text, generate, parse2)
  {
  }

  /**
   * The "Raw Response" of a parse failure is the cleaned reply itself, which the
   * cleaner leaves unchanged: a slice of the reply with no fence character left
   * at either end.
   */
  lemma RawResponseIsCleanedReply(app: App, text: string, generate: string -> Option<string>, parse: string -> Option<Json>)
    requires HasText(generate(Prompt(text)))
    requires parse(Clean(generate(Prompt(text)).value)).None?
    ensures var r := ExtractKeyValuePairs(app, text, generate, parse);
            var reply := generate(Prompt(text)).value;
            && r.Object? && "Raw Response" in r.dict.table
            && r.dict.table["Raw Response"] == Clean(reply)
            && Clean(r.dict.table["Raw Response"]) == r.dict.table["Raw Response"]
  {
    CleanIdempotent(generate(Prompt(text)).value);
  }

  /** The error dicts the extractor builds itself are well-formed dicts. */
  lemma ErrorResultsWellFormed(app: App, text: string, generate: string -> Option<string>, parse: string -> Option<Json>)
    requires !HasText(generate(Prompt(text))) || parse(Clean(generate(Prompt(text)).value)).None?
    ensures ExtractKeyValuePairs(app, text, generate, parse).Object?
    ensures WellFormed(ExtractKeyValuePairs(app, text, generate, parse).dict)
  {
    var response := generate(Prompt(text));
    if HasText(response) {
      var d := InvalidJsonDict(InvalidJsonMessage(app), Clean(response.value));
      assert ExtractKeyValuePairs(app, text, generate, parse) == Object(d);
    } else {
      var d := ErrorDict(NoResponseMessage(app));
      assert ExtractKeyValuePairs(app, text, generate, parse) == Object(d);
    }
  }

  /**
   * A model reply wrapped in a `json` code fence reaches the parser as the bare
   * body, and what the parser returns is the result (a page reading
   * `Name: John Doe` and `Age: 30` answered with such a fenced object, say).
   */
  lemma FencedReplyIsParsed(app: App, text: string, generate: string -> Option<string>,
                            parse: string -> Option<Json>, body: string, expected: Json)
    requires body != [] && body[0] !in FenceChars && body[|body| - 1] !in FenceChars
    requires generate(Prompt(text)) == Some("```json\n" + body + "\n```")
    requires parse(body) == Some(expected)
    ensures ExtractKeyValuePairs(app, text, generate, parse) == expected
  {
    CleanFenced(body);
  }
}
