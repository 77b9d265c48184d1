/** The error boundary of `generate_prayer`: from the completion's outcome to
    the one string shown to the user. */
module Pipeline {
  import opened Results
  import opened Json
  import opened Extract
  import opened Validate
  import opened Present
  import Percent

  const ErrorPrefix := "An error occurred: "

  /** The text shown for an accepted reply: its three fields, each passed
      through `show` (Python's `str` on a decoded value). */
  function Display(data: map<string, Value>, show: Value -> string): (r: string)
    requires RequiredFields <= data.Keys
    ensures LinkTarget(r) == Some(SearchLink(show(data["saint_name"])))
  {
    FormatResponse(show(data["saint_name"]), show(data["introduction"]), show(data["prayer"]))
  }

  /** `completion` is the outcome of the chat-completion call: the reply's
      text, or the message of the exception it raised. The result is either
      the formatted reply or `An error occurred: ` and the message of the
      first failure; nothing partial is ever shown. */
  function GeneratePrayer(completion: Result<string>, decode: Decoder, show: Value -> string): (r: string)
    ensures completion.Err? ==> r == ErrorPrefix + completion.message
    ensures completion.Ok? && ParseResponse(completion.value, decode).Err? ==>
      r == ErrorPrefix + ParseResponse(completion.value, decode).message
    ensures completion.Ok? && ParseResponse(completion.value, decode).Ok? ==>
      var data := ParseResponse(completion.value, decode).value;
      && r == FormatResponse(show(data["saint_name"]), show(data["introduction"]), show(data["prayer"]))
      && LinkTarget(r) == Some(SearchLink(show(data["saint_name"])))
  {
    match completion
    case Err(e) => ErrorPrefix + e
    case Ok(text) =>
      match ParseResponse(text, decode)
      case Err(e) => ErrorPrefix + e
      case Ok(data) => Display(data, show)
  }

  /** A reply with no `{` or no `}` is reported as holding no JSON, whatever
      the decoder and the field rendering. */
  lemma NoBracesReported(text: string, decode: Decoder, show: Value -> string)
    requires '{' !in text || '}' !in text
    ensures GeneratePrayer(Ok(text), decode, show) ==
            ErrorPrefix + NoJsonFound
  {
    ParseRejectsMissingBraces(text, decode);
  }

  // The concrete replies below are parameters fixed by `requires x == ...`
  // rather than literals in the `ensures`, which the solver handles far
  // more cheaply.

  /** A reply of plain prose, such as `I'm not sure who to suggest.`, ends in
      the no-JSON message. */
  lemma NotSureReported(text: string, decode: Decoder, show: Value -> string)
    requires text == "I'm not sure who to suggest."
    ensures GeneratePrayer(Ok(text), decode, show) ==
            ErrorPrefix + NoJsonFound
  {
    NoBracesReported(text, decode, show);
  }

  /** An undecodable extraction is reported with the decoder's details. */
  lemma InvalidJsonReported(text: string, decode: Decoder, show: Value -> string)
    requires CleanJsonString(text).Ok? && decode(CleanJsonString(text).value).Err?
    ensures GeneratePrayer(Ok(text), decode, show) ==
            ErrorPrefix + InvalidJsonPrefix + decode(CleanJsonString(text).value).message
  {
    ParseErrorCases(text, decode);
  }

  /** An object embedded in brace-free prose is displayed from its own
      fields. */
  lemma EmbeddedObjectDisplayed(pre: string, body: string, suf: string, decode: Decoder,
                                show: Value -> string, fields: map<string, Value>)
    requires IsBraceSplit(pre + body + suf, pre, body, suf)
    requires decode(body) == Ok(JObject(fields))
    requires RequiredFields <= fields.Keys
    ensures GeneratePrayer(Ok(pre + body + suf), decode, show) ==
            FormatResponse(show(fields["saint_name"]), show(fields["introduction"]), show(fields["prayer"]))
  {
    ParseRecoversEmbeddedObject(pre, body, suf, decode, fields);
  }

  /** A reply with the JSON object for Saint Jude between two sentences of
      prose is shown as that object's introduction and prayer, with a link
      searching for `Saint%20Jude`. */
  lemma JudeScenario(pre: string, members: string, suf: string, decode: Decoder, show: Value -> string)
    requires pre == "Here you go: " && suf == " Hope this helps!"
    requires members == JudeMembers
    requires decode("{" + members + "}") == Ok(JObject(JudeFields()))
    requires forall s :: show(JString(s)) == s
    ensures var r := GeneratePrayer(Ok(pre + ("{" + members + "}") + suf), decode, show);
      && LinkTarget(r) == Some("https://www.google.com/search?q=Saint%20Jude")
      && r == FormatResponse(show(JString("Jude")), show(JString("Patron of hopeless cases.")),
                             show(JString("St. Jude, hear my plea. Amen.")))
      && HasPrefix(r, "Patron of hopeless cases.")
  {
    var body := "{" + members + "}";
    JudeSplit(pre, body, suf, members);
    var fields := JudeFields();
    EmbeddedObjectDisplayed(pre, body, suf, decode, show, fields);
    var name := show(fields["saint_name"]);
    JudeLink(name);
    FormatLayout(name, show(fields["introduction"]), show(fields["prayer"]));
  }

  /** The members of a JSON object for Saint Jude. */
  const JudeMembers :=
    "\"saint_name\": \"Jude\", \"introduction\": \"Patron of hopeless cases.\", \"prayer\": \"St. Jude, hear my plea. Amen.\""

  /** The object `json.loads` makes of them. */
  function JudeFields(): (m: map<string, Value>)
    ensures RequiredFields <= m.Keys
  {
    map[
      "saint_name" := JString("Jude"),
      "introduction" := JString("Patron of hopeless cases."),
      "prayer" := JString("St. Jude, hear my plea. Amen.")]
  }

  /** The Saint Jude reply splits around its braced object. */
  lemma JudeSplit(pre: string, body: string, suf: string, members: string)
    requires pre == "Here you go: " && suf == " Hope this helps!"
    requires body == "{" + members + "}"
    ensures IsBraceSplit(pre + body + suf, pre, body, suf)
  {
  }

  /** The search link for `Jude`. */
  lemma JudeLink(name: string)
    requires name == "Jude"
    ensures SearchLink(name) == "https://www.google.com/search?q=Saint%20Jude"
  {
    SearchLinkShape(name);
    Percent.QuoteSafeString(name);
    JoinJudeLink(SearchPrefix, "Saint%20", Percent.Quote(name), SearchLink(name));
  }

  /** The URL of the Saint Jude search, joined from its three parts. */
  lemma JoinJudeLink(prefix: string, saint: string, query: string, link: string)
    requires prefix == "https://www.google.com/search?q=" && saint == "Saint%20"
    requires query == "Jude" && link == prefix + saint + query
    ensures link == "https://www.google.com/search?q=Saint%20Jude"
  {
  }
}
