/** `parse_response`: extract, decode and validate the model's JSON reply. */
module Validate {
  import opened Results
  import opened Json
  import opened Extract

  const NotAnObject := "Response is not a JSON object"
  const MissingFields := "Missing required fields in JSON response"
  const InvalidJsonPrefix := "Invalid JSON format: "

  /** The keys every accepted reply must carry. */
  const RequiredFields: set<string> := {"saint_name", "introduction", "prayer"}

  /** Extraction errors pass through unchanged, a decode failure is rewrapped
      with the `Invalid JSON format: ` prefix, and the decoded value must be
      an object holding every required key; it is returned as decoded. Field
      values are not type-checked. */
  function ParseResponse(text: string, decode: Decoder): (r: Result<map<string, Value>>)
    ensures r.Ok? ==> RequiredFields <= r.value.Keys
    ensures r.Ok? ==>
      CleanJsonString(text).Ok? && decode(CleanJsonString(text).value) == Ok(JObject(r.value))
    ensures r.Err? ==>
      || r.message == NoJsonFound
      || r.message == NotAnObject
      || r.message == MissingFields
      || HasPrefix(r.message, InvalidJsonPrefix)
  {
    match CleanJsonString(text)
    case Err(e) => Err(e)
    case Ok(jsonStr) =>
      match decode(jsonStr)
      case Err(details) => Err(InvalidJsonPrefix + details)
      case Ok(data) =>
        if !data.JObject? then Err(NotAnObject)
        else if !(RequiredFields <= data.fields.Keys) then Err(MissingFields)
        else Ok(data.fields)
  }

  /** A reply with no `{` or no `}` fails before the decoder is consulted. */
  lemma ParseRejectsMissingBraces(text: string, decode: Decoder)
    requires '{' !in text || '}' !in text
    ensures ParseResponse(text, decode) == Err(NoJsonFound)
  {
  }

  /** An object embedded between prose with no `{` before it and prose with
      no `}` after it is recovered exactly when it carries the required keys,
      whatever the types of its values; otherwise the reply is rejected as
      missing fields. */
  lemma ParseRecoversEmbeddedObject(pre: string, body: string, suf: string, decode: Decoder,
                                    fields: map<string, Value>)
    requires IsBraceSplit(pre + body + suf, pre, body, suf)
    requires decode(body) == Ok(JObject(fields))
    ensures ParseResponse(pre + body + suf, decode) ==
      if RequiredFields <= fields.Keys then Ok(fields) else Err(MissingFields)
  {
    CleanRecoversBraceSplit(pre, body, suf);
  }

  /** When every `}` precedes every `{`, the decoder is handed the empty
      string; `json.loads("")` fails, so the reply fails as invalid JSON. */
  lemma ParseInvertedBracesDecodesEmpty(text: string, decode: Decoder)
    requires '{' in text && '}' in text && ClosersBeforeOpeners(text)
    requires decode([]).Err?
    ensures ParseResponse(text, decode) == Err(InvalidJsonPrefix + decode([]).message)
  {
    CleanEmptyIffBracesInverted(text);
  }

  /** Decode failure, a non-object value and a missing key each give their
      own error. */
  lemma ParseErrorCases(text: string, decode: Decoder)
    requires CleanJsonString(text).Ok?
    ensures var d := decode(CleanJsonString(text).value);
      && (d.Err? ==> ParseResponse(text, decode) == Err(InvalidJsonPrefix + d.message))
      && (d.Ok? && !d.value.JObject? ==> ParseResponse(text, decode) == Err(NotAnObject))
      && (d.Ok? && d.value.JObject? && (exists f :: f in RequiredFields && f !in d.value.fields) ==>
            ParseResponse(text, decode) == Err(MissingFields))
  {
  }
}
