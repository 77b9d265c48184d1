/** `clean_json_string`: isolate the JSON object embedded in a model reply by
    taking everything from the first `{` to the last `}`. */
module Extract {
  import opened Results
  import opened Strings

  const NoJsonFound := "No valid JSON found in response"

  /** `text` is `pre + body + suf`, where `body` is delimited by braces,
      `pre` holds no `{` and `suf` holds no `}`. */
  predicate IsBraceSplit(text: string, pre: string, body: string, suf: string)
  {
    && text == pre + body + suf
    && '{' !in pre
    && '}' !in suf
    && 2 <= |body|
    && body[0] == '{'
    && body[|body| - 1] == '}'
  }

  /** Every `}` of `text` stands before every `{` of it. */
  predicate ClosersBeforeOpeners(text: string)
  {
    forall i, j :: 0 <= i < |text| && 0 <= j < |text| && text[i] == '}' && text[j] == '{' ==> i < j
  }

  /** The span from the first `{` to the last `}`, inclusive; the empty
      string when the last `}` comes first; an error when either is missing. */
  function CleanJsonString(text: string): (r: Result<string>)
    ensures r.Err? <==> '{' !in text || '}' !in text
    ensures r.Err? ==> r.message == NoJsonFound
    ensures r.Ok? ==> |r.value| <= |text|
    ensures r.Ok? && r.value != [] ==>
      exists k :: 0 <= k <= |text| - |r.value| && IsBraceSplit(text, text[..k], r.value, text[k + |r.value|..])
  {
    var start := FindFirst(text, '{');
    var end := FindLast(text, '}');
    if start == -1 || end == -1 then
      Err(NoJsonFound)
    else
      var body := Slice(text, start, end + 1);
      OutermostBraces(text, start, end, body);
      Ok(body)
  }

  /** The span from a `{` with none before it to a `}` with none after it is
      a brace split of the text; when the `}` comes first, the span is empty. */
  lemma OutermostBraces(text: string, start: int, end: int, body: string)
    requires 0 <= start < |text| && 0 <= end < |text|
    requires text[start] == '{' && '{' !in text[..start]
    requires text[end] == '}' && '}' !in text[end + 1..]
    requires body == Slice(text, start, end + 1)
    ensures |body| <= |text|
    ensures body != [] ==>
      exists k :: 0 <= k <= |text| - |body| && IsBraceSplit(text, text[..k], body, text[k + |body|..])
  {
    if start <= end {
      assert text == text[..start] + text[start..end + 1] + text[end + 1..];
      assert IsBraceSplit(text, text[..start], body, text[start + |body|..]);
    }
  }

  /** Conversely, every brace split of a text is the one extraction finds. */
  lemma CleanRecoversBraceSplit(pre: string, body: string, suf: string)
    requires IsBraceSplit(pre + body + suf, pre, body, suf)
    ensures CleanJsonString(pre + body + suf) == Ok(body)
  {
    var text := pre + body + suf;
    var first, last := |pre|, |pre| + |body| - 1;
    assert text[..first] == pre;
    assert text[last + 1..] == suf;
    FindFirstAt(text, '{', first);
    FindLastAt(text, '}', last);
    assert text[first..last + 1] == body;
  }

  /** Extraction yields the empty string, without an error, exactly when both
      braces occur but every `}` precedes every `{` (as in `"} {"`). */
  lemma CleanEmptyIffBracesInverted(text: string)
    ensures CleanJsonString(text) == Ok([]) <==>
      '{' in text && '}' in text && ClosersBeforeOpeners(text)
  {
    if '{' in text && '}' in text {
      var first, last := FindFirst(text, '{'), FindLast(text, '}');
      if ClosersBeforeOpeners(text) {
        assert last < first;
      } else {
        var i, j :| 0 <= i < |text| && 0 <= j < |text| && text[i] == '}' && text[j] == '{' && j <= i;
      }
    }
  }

  /** Extracting again from a non-empty extraction changes nothing. */
  lemma CleanIdempotent(text: string, body: string)
    requires CleanJsonString(text) == Ok(body) && body != []
    ensures CleanJsonString(body) == Ok(body)
  {
    CleanResultBraced(text, body);
    IdempotentOnBraced(body);
  }

  /** A text that starts with `{` and ends with `}` is its own extraction. */
  lemma IdempotentOnBraced(body: string)
    requires 2 <= |body| && body[0] == '{' && body[|body| - 1] == '}'
    ensures CleanJsonString(body) == Ok(body)
  {
    assert [] + body + [] == body;
    CleanRecoversBraceSplit([], body, []);
  }

  /** A non-empty extraction starts with `{` and ends with `}`. */
  lemma CleanResultBraced(text: string, body: string)
    requires CleanJsonString(text) == Ok(body) && body != []
    ensures 2 <= |body| && body[0] == '{' && body[|body| - 1] == '}'
  {
    var k :| 0 <= k <= |text| - |body| && IsBraceSplit(text, text[..k], body, text[k + |body|..]);
  }
}
