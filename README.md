# Saint prayer generator: response pipeline

A Dafny model of the part of the saint-prayer web app that runs after the
language model's reply comes back and before anything is shown. The reply is
free text that should carry a JSON object with the keys `saint_name`,
`introduction` and `prayer`. The pipeline has four steps:

- **Extraction** (`clean_json_string`). It takes the span from the first `{`
  to the last `}`. It fails when either brace is missing.
- **Validation** (`parse_response`). It decodes that span with `json.loads`
  and insists on an object holding the three keys.
- **Link construction** (`create_google_search_link`). It percent-encodes
  `Saint <name>` with `urllib.parse.quote` and appends it to a Google search URL.
- **Presentation** (`format_response`). It builds Markdown: the
  introduction, the prayer in emphasis, and a "Learn more" link.

`generate_prayer` wraps these steps. Any failure becomes the single string
`An error occurred: <message>`.

Every step is a pure function of its inputs, so the model is made of
functions and lemmas:

| module (file) | models |
|---|---|
| `Results` (results.dfy) | `Option`, and `Result`, where `Err(message)` stands for a raised exception |
| `Strings` (strings.dfy) | `str.find`, `str.rfind` and Python slicing |
| `Json` (json.dfy) | the values `json.loads` returns, and `Decoder`, the decoder taken as a parameter |
| `Extract` (extract.dfy) | `clean_json_string` |
| `Validate` (validate.dfy) | `parse_response` |
| `Utf8` (utf8.dfy) | UTF-8 encoding of a `str`, and a decoder that serves as its inverse |
| `Percent` (percent.dfy) | `urllib.parse.quote` with its default `safe="/"`, and a percent-decoder that serves as its inverse |
| `Present` (present.dfy) | `create_google_search_link`, `format_response`, and a reader that gets the link back out of the Markdown |
| `Pipeline` (pipeline.dfy) | lines 99-107 of `generate_prayer`, from the completion's outcome to the displayed string |

Three things the code calls into are taken as parameters:

- **The JSON decoder** (`decode: string -> Result<Value>`). `Err(details)`
  stands for a `JSONDecodeError` whose `str()` is `details`.
- **The completion call's outcome** (`completion: Result<string>`). It holds
  the reply text, or the message of the exception the call raised.
- **Python's `str()` of a decoded field value** (`show: Value -> string`).
  The lemmas about concrete replies assume that `show(JString(s)) == s`.

Percent-encoding follows section 2.1 of RFC 3986, with upper-case hex digits.
The characters left alone are the unreserved ones of section 2.3 of RFC 3986
(ALPHA, DIGIT, `-`, `.`, `_`, `~`) plus `/`. Text is encoded to UTF-8 first,
so a character outside ASCII becomes two to four `%XX` escapes.

The presenter gives the same text for the same fields. Dafny functions are
deterministic, so this needs no lemma.

## Model

| member | source | states |
|---|---|---|
| `Strings.FindFirst` | app.py:25 | The result is -1 exactly when the character is absent. Otherwise it is an index holding the character, with no occurrence before it. |
| `Strings.Slice` | app.py:29 | Python's `s[i:j]` for bounds inside `s`: `j - i` characters, the `k`-th being `s[i + k]`, and none when `j <= i`. |
| `Strings.FindLast` | app.py:26 | The result is -1 exactly when the character is absent. Otherwise it is an index holding the character, with no occurrence after it. |
| `Extract.CleanJsonString` | app.py:22-29 | It fails exactly when the text lacks `{` or lacks `}`, with the message `No valid JSON found in response`. A non-empty result splits the text as prefix + result + suffix: the prefix has no `{`, the suffix has no `}`, and the result starts with `{` and ends with `}`. |
| `Extract.CleanRecoversBraceSplit` | app.py:25-29 | Conversely, every such split of a text is what extraction returns. So the extracted span is exactly the first-`{`-to-last-`}` slice. |
| `Extract.CleanEmptyIffBracesInverted` | app.py:25-29 | Extraction returns the empty string, with no error, exactly when both braces occur and every `}` stands before every `{` (as in `"} {"`). |
| `Extract.CleanIdempotent` | app.py:25-29 | Extracting again from a non-empty extraction returns it unchanged. |
| `Validate.ParseResponse` | app.py:32-49 | On success, all three required keys are present, and the result is the object the decoder produced from the extracted text, unchanged. On failure, the message is the extraction error, `Response is not a JSON object`, `Missing required fields in JSON response`, or begins with `Invalid JSON format: `. |
| `Validate.ParseRejectsMissingBraces` | app.py:34-36 | A reply with no `{` or no `}` fails with the extraction message, whatever the decoder does. The extraction error is not rewrapped. |
| `Validate.ParseRecoversEmbeddedObject` | app.py:32-47 | Take an object with no `{` before it and no `}` after it in the reply. If it carries the three keys, it is returned unchanged, whatever the types of its values. Otherwise the reply fails with `Missing required fields in JSON response`. |
| `Validate.ParseInvertedBracesDecodesEmpty` | app.py:36-49 | When every `}` precedes every `{`, the decoder receives `""`. Given that decoding `""` fails, the reply fails with `Invalid JSON format: ` and the decoder's details. |
| `Validate.ParseErrorCases` | app.py:38-49 | After a successful extraction there are three failures. A decode failure gives `Invalid JSON format: ` + details. A non-object gives `Response is not a JSON object`. An object missing a required key gives `Missing required fields in JSON response`. |
| `Utf8.EncodeChar` | app.py:54 | A character encodes as one to four bytes. It takes a single byte, equal to its code, exactly when it is ASCII. Otherwise every byte is at least 0x80. |
| `Utf8.Encode` | app.py:54 | `s.encode("utf-8")`, the first step of `quote`: one to four bytes per character. `Utf8.DecodeEncode` shows the bytes are UTF-8. |
| `Utf8.DecodeEncode` | app.py:54 | UTF-8 decoding inverts the encoding that `quote` applies, so no character is lost. |
| `Utf8.EncodeAscii` | app.py:54 | An ASCII string encodes byte for byte as its character codes. |
| `Percent.SafeIsListed` | app.py:54 | `IsSafe`, the set of characters `quote` keeps, is exactly the listed characters: the letters `A`-`Z` and `a`-`z`, the digits `0`-`9`, `_`, `.`, `-`, `~`, and the default extra safe `/`. |
| `Percent.HexDigit` | app.py:54 | An escape digit is `0`-`9` or upper-case `A`-`F`, and its hex value is the digit's value. |
| `Percent.QuoteByte` | app.py:54 | A safe byte is kept as its character. Any other byte becomes `%` and two upper-case hex digits whose value is that byte. |
| `Percent.QuoteBytes` | app.py:54 | The output is one to three characters per byte, and each is a safe character or `%`. |
| `Percent.QuoteBytesUpperHex` | app.py:54 | Every `%` in quoted output opens an escape of two upper-case hex digits, as section 2.1 of RFC 3986 asks. |
| `Percent.Quote` | app.py:54 | Every character of `quote`'s output is unreserved, `/` or `%`. |
| `Percent.PercentDecodeQuoteBytes` | app.py:54 | Percent-decoding the quoted bytes gives back exactly those bytes. |
| `Percent.QuoteRoundTrip` | app.py:54 | Percent-decoding and then UTF-8-decoding the quoted text gives back the original string. |
| `Percent.QuoteBytesUnchangedIffSafe` | app.py:54 | Quoting leaves a byte string unchanged exactly when every byte is an unreserved character or `/`. |
| `Percent.QuoteSafeString` | app.py:54 | A string made only of unreserved characters and `/` is its own quotation. |
| `Percent.QuoteSpace` | app.py:54 | A space is written `%20`. |
| `Percent.QuoteSpaced` | app.py:54 | For safe words joined by a space, only the space is escaped, as `%20`. |
| `Percent.QuoteNonAscii` | app.py:54 | A character outside ASCII is quoted as its UTF-8 bytes. None of those bytes is safe, so each becomes a three-character `%XX` escape. |
| `Present.SearchLink` | app.py:52-55 | The link starts with `https://www.google.com/search?q=`. It holds no `(`, `)`, `]` or space, so it cannot end a Markdown link target early. |
| `Present.SearchLinkDecodes` | app.py:54-55 | The link's query percent-decodes to the UTF-8 bytes of `Saint <name>`, and those bytes decode to that text. |
| `Present.SaintOfSearchLink` | app.py:54-55 | The saint's name can be read back from the link's query for every name. |
| `Present.SearchLinkShape` | app.py:54-55 | The link is the URL prefix, then `Saint%20`, then the quoted name. |
| `Present.AnthonyOfPaduaLink` | app.py:54-55 | The name `Anthony of Padua` gives `https://www.google.com/search?q=Saint%20Anthony%20of%20Padua`. |
| `Present.ThereseLink` | app.py:54-55 | The name `Thérèse` gives the query `Saint%20Th%C3%A9r%C3%A8se`, which is percent-encoded UTF-8. |
| `Present.FormatResponse` | app.py:58-65 | The target of the Markdown link that ends the output is exactly the search link for the name. |
| `Present.FormatLayout` | app.py:65 | The whole output, part by part: the introduction verbatim, `\n\n*`, the prayer verbatim, `*\n\n`, and then `[Learn more about Saint <name>](<search link>)`. |
| `Present.FormatRecoversSaint` | app.py:58-65 | For all inputs, the saint's name can be read back from the displayed text's trailing link, whatever the introduction and prayer contain. |
| `Pipeline.Display` | app.py:60-65 | For a validated object, the displayed link targets the search for the rendered `saint_name`. |
| `Pipeline.GeneratePrayer` | app.py:99-107 | A failed completion call shows `An error occurred: ` + its message. A failed parse shows `An error occurred: ` + the parse message. An accepted reply shows the formatted text of its `saint_name`, `introduction` and `prayer` fields, and its link searches for the `saint_name`. |
| `Pipeline.NoBracesReported` | app.py:100-107 | A reply without `{` or `}` shows `An error occurred: No valid JSON found in response`, whatever the decoder. |
| `Pipeline.NotSureReported` | app.py:100-107 | The reply `I'm not sure who to suggest.` shows the no-JSON error. |
| `Pipeline.InvalidJsonReported` | app.py:100-107 | An undecodable extraction shows `An error occurred: Invalid JSON format: ` + the decoder's details. |
| `Pipeline.EmbeddedObjectDisplayed` | app.py:99-105 | An object carrying the required keys, embedded in brace-free prose, is displayed from exactly its own three fields. |
| `Pipeline.JudeScenario` | app.py:99-105 | The reply `Here you go: {...Jude...} Hope this helps!` shows its introduction verbatim first. Its link is `https://www.google.com/search?q=Saint%20Jude`. |

## Left out

- The Streamlit page (app.py:110-156) is left out. It is presentation I/O with no logic: title, text area, button, spinner, sidebar, image and footer.
- Credential selection and client construction (app.py:9-19) are left out. They are environment and secrets I/O.
- The chat-completion request (app.py:89-97) is left out. It is a network call, so its outcome is the `completion` parameter of `Pipeline.GeneratePrayer`.
- The model does not cover a reply whose `message.content` is `None`. The code would then fail in `find` with an `AttributeError`, which also ends in the `An error occurred: ` string.
- The system-prompt literal (app.py:71-86) is left out. It is constant data.
- The JSON grammar and `json.loads` internals (app.py:38) are left out. The decoder is the `decode` parameter. `Validate.ParseInvertedBracesDecodesEmpty` states as a hypothesis that decoding `""` fails.
- Exceptions from `json.loads` other than `JSONDecodeError`, such as `RecursionError` on deeply nested input, are not modelled.
- `Json.Value`: floats are not IEEE doubles. `JFloat` holds an exact `real`, so a float is not rounded to double precision, and `-0.0` is the same value as `0.0`. Integers (`JInt`) stay apart from floats, and `NaN` and the infinities have their own values. Their `str()` texts come from the `show` parameter. Objects are maps, so they lose their key order, which `str()` of a dict shows. Two objects with the same members in a different order therefore get one rendering from `show`, where Python gives two different texts at app.py:54 and app.py:65.
- Python's `str()` of non-string field values (app.py:65) is left out. It is the `show` parameter. `FormatResponse` takes the three texts as strings.
- Strings that hold lone surrogates are not modelled. JSON escapes such as `\ud800` can produce such a string, and `quote` would then raise `UnicodeEncodeError`. A Dafny `char` is a Unicode scalar value, so such a string cannot be written.
- `Present.LinkTarget`: it reads the target of the trailing link as the text between the last `(` and the final `)`. It stands in for a Markdown renderer's link parsing. A name containing `]` or `[` could change how a real renderer reads the link label.
