# scrapetools "copy as cURL" parser, modelled in Dafny

scrapetools turns the command a browser's developer tools produce under
"copy as cURL" — `curl '<url>' -H '<k>: <v>' … [--data-raw '<body>']` — into a
request descriptor: `base_url`, `params` (the query string as a dictionary),
`headers`, and `data` when the command carries a raw body. This project models
that parser (`extract_header`, `extract_headers`, `parse_url`, `parse_data`,
`uncurl`) over strings as `seq<char>` and proves what each step computes.

Modules, one per concern:

- `Results` (results.dfy): `Option`, and `Result` with the one exception the
  parser raises by itself, `IndexError`.
- `Strings` (strings.dfy): Python's `str.split`, `str.join`, `str.replace`,
  `s[:-1]` and substring `in`. `Split` scans left to right for
  non-overlapping separators. The central facts are that `Join` undoes
  `Split`, that no piece holds the separator, and that `SplitKeyValue`
  (`parts[0]`, `sep.join(parts[1:])`) cuts at the first separator.
- `Dicts` (dicts.dfy): Python dictionaries as insertion-ordered association
  lists. `Update` (`d[k] = v`) overwrites an existing key in place and
  appends a new one. `Merge` (`d.update(e)`) stores `e`'s entries in order.
  Both are proved against independent reference definitions: `Dedup` keeps
  each key at its first occurrence, and `LastValue` takes the last pair.
- `Scanner` (scanner.dfy): the two fixed regular expressions `-H '[^']+'`
  and `--data-raw '[^']*'` as a `re.findall`-style scanner. It takes the
  leftmost match and resumes after it. `MatchEndExact` ties the scanner at
  one position to the declarative `IsMatch`. `ScanEmpty` and `ScanNext`
  together fix the whole result: the successive leftmost matches, each
  starting where the previous one ended.
- `Suffixes` (suffixes.dfy): `EndsWith`, and where a pattern whose only
  quote is its last character can stand (`CharEndedAbsent`). The command
  lemmas use it to show that no flag occurs before or after the one in
  place.
- `ScrapeTools` (scrapetools.dfy): the parser itself, with its properties
  and worked examples.

Percent-decoding (`requests.utils.unquote`) is a function parameter
`unquote: string -> string`; the examples use `Verbatim`, the decoding of a
URL without `%` escapes. `json.loads` is not modelled: `parse_data` is
modelled as returning the text it would hand to `json.loads`
(`RawBody(text)`), or the `''` sentinel (`NoBody`).

Behaviour of the code that the model keeps as written:

- `extract_header` uses `split('-H ')[1]`, the text between the first and
  second `-H `. A header whose value itself contains `-H ` is cut there
  (`HeaderOfFragment`, via `BeforeInnerFlag`).
- `parse_data` strips the flag with `.replace("--data-raw '", '')` over the
  whole match. For a body ending in `--data-raw `, that text and the closing
  quote form a second flag. The replacement removes it as well, and `[:-1]`
  then drops the character before it (`ReplaceDataFlag`,
  `ParseDataFirstMatch`). No valid JSON text ends that way.
- `'--data-raw' in curl_str` decides whether `data` is present, not the
  pattern. A `--data-raw` with a double-quoted body gives `data` = `''`
  (`UncurlDataWithoutBody`).
- `uncurl` fails when the command has no space. With several spaces it
  takes the text between the first and second space, even if that is not
  the URL.

## Model

| member | source | states |
|---|---|---|
| Strings.Split | scrapetools.py:56 | `str.split`: at least one piece, the first a prefix of the text; its partners `SplitPieces` and `SplitThenJoin` state that no piece holds the separator and that joining undoes the split |
| Strings.Join | scrapetools.py:22 | `sep.join`: the first part begins the result; its partner `JoinLength` gives the length |
| Strings.JoinLength | scrapetools.py:68 | the joined text is as long as the parts plus one separator between each two neighbours |
| Strings.Replace | scrapetools.py:90 | `str.replace`: the text is unchanged when the target does not occur, and when a target is replaced by itself |
| Strings.DropLast | scrapetools.py:90 | `s[:-1]`: the empty text stays empty; otherwise putting back the last character gives the text |
| Strings.SplitPieces | scrapetools.py:56-59 | a split has one piece exactly when the separator does not occur, and no piece contains the separator |
| Strings.SplitThenJoin | scrapetools.py:66-68 | joining the pieces of a split with the same separator gives back the original text |
| Strings.SplitKeyValue | scrapetools.py:20-22 | the first part is the text before the first separator and holds no separator; the rejoined rest is all text after it; part, separator, rest reconstruct the input; with no separator the rest is empty |
| Strings.RemoveQuotes | scrapetools.py:20 | `replace("'", '')` equals the input with every quote filtered out and leaves no quote |
| Strings.ReplaceCharByNothing | scrapetools.py:105 | replacing a one-character string by nothing deletes exactly that character and keeps the others in order |
| Strings.SplitCharFirst | scrapetools.py:56-60 | the first piece of a split on a character holds no such character and is either the whole text (exactly the only piece when the character is absent) or the text before the first occurrence |
| Strings.SplitFirstTwo | scrapetools.py:56-62 | the first two pieces of a split on a character are the texts before the first and between the first and second occurrence |
| Dicts.Update | scrapetools.py:69 | `d[k] = v`: afterwards the pair is stored |
| Dicts.UpdateKeys | scrapetools.py:69 | storing under an existing key keeps the key order; a new key is appended |
| Dicts.UpdateGet | scrapetools.py:69 | after storing, the key maps to the new value and every other key is unchanged |
| Dicts.Merge | scrapetools.py:41 | `d.update(e)`: the last entry of `e` is stored |
| Dicts.MergeKeySource | scrapetools.py:39-41 | every key stored into an empty dictionary is the key of some pair |
| Dicts.MergeKeys | scrapetools.py:39-41 | storing pairs in order yields the keys in first-occurrence order, each once |
| Dicts.MergeValues | scrapetools.py:39-41 | storing pairs in order: each key holds the value of its last pair |
| Dicts.MergeEmpty | scrapetools.py:39-42 | the result of storing pairs is empty exactly when there were no pairs |
| Dicts.MergeOne | scrapetools.py:41 | updating with a one-entry dictionary is a single store |
| Scanner.MatchEnd | scrapetools.py:37 | a match the scanner reports at a position is a match of the pattern there |
| Scanner.Scan | scrapetools.py:37-38 | every fragment found is opener, a run of non-quote characters of the minimum length, and a closing quote |
| Scanner.FindAll | scrapetools.py:37-38 | `re.findall`: every element is a matched fragment; the result is empty exactly when the pattern matches nowhere |
| Scanner.MatchEndExact | scrapetools.py:37 | the scanner succeeds at a position, with a given end, exactly when the pattern matches there |
| Scanner.ScanEmpty | scrapetools.py:38 | the scan finds nothing exactly when the pattern matches at no position |
| Scanner.ScanFirst | scrapetools.py:87-90 | the first fragment found is the match at the leftmost matching position |
| Scanner.ScanNext | scrapetools.py:37-38 | the scan is the leftmost match followed by the scan from the end of that match |
| ScrapeTools.ExtractHeader | scrapetools.py:20-23 | succeeds exactly when the text holds `-H `, else IndexError; one entry; no quote in key or value; no `: ` in the key |
| ScrapeTools.HeaderOfFragment | scrapetools.py:20-22 | on `-H '<body>'` the entry is the body, cut before any inner `-H `, split at its first `: ` |
| ScrapeTools.KeyValueRoundTrip | scrapetools.py:21-22 | cutting `key: value` at its first `: ` gives back key and value when the key holds no `: ` |
| ScrapeTools.HeaderRoundTrip | scrapetools.py:20-23 | a fragment `-H '<key>: <value>'` yields exactly {key: value}, also when the value contains `: ` |
| ScrapeTools.HeaderWithoutSeparator | scrapetools.py:21-23 | a header argument without `: ` yields its whole text as key with the empty value |
| ScrapeTools.HeaderEntries | scrapetools.py:40-41 | each matched fragment contributes the one entry `extract_header` returns for it |
| ScrapeTools.MergeHeaders | scrapetools.py:39-42 | the update loop stores the last fragment's header |
| ScrapeTools.MergeHeadersEntries | scrapetools.py:39-42 | the update loop equals storing all fragments' entries in order into an empty dictionary |
| ScrapeTools.ExtractHeaders | scrapetools.py:37-42 | keys are the fragments' keys in first-occurrence order, each once; each holds the last fragment's value; empty exactly when no fragment matches |
| ScrapeTools.ParamEntry | scrapetools.py:66-68 | the key has no `=`; with `=` the key, `=`, the value rebuild the piece; without `=` the value is empty |
| ScrapeTools.QueryEntries | scrapetools.py:65-68 | no stored key contains `=` or `&` |
| ScrapeTools.ParseQuery | scrapetools.py:63-69 | the query loop never gives empty parameters and always stores the last piece's entry |
| ScrapeTools.QueryProperties | scrapetools.py:63-69 | parameter keys in first-occurrence order, each holding its last piece's value, none containing `=` or `&` |
| ScrapeTools.ParseUrl | scrapetools.py:55-60 | the base URL has no `?` and is the decoded URL or its prefix before the first `?`; without `?` the base is the whole decoded URL and params are empty |
| ScrapeTools.ParseUrlQuery | scrapetools.py:56-71 | for `base?query` followed by nothing or a second `?`, the base is `base` and the parameters come from `query` alone |
| ScrapeTools.TrailingQuestionMark | scrapetools.py:59-69 | a URL ending in its only `?` gives the single parameter {"": ""} |
| ScrapeTools.OnePieceQuery | scrapetools.py:65-69 | a query without `&` holds exactly the entry of its one piece |
| ScrapeTools.TwoPieceQuery | scrapetools.py:65-69 | a query of two pieces stores their entries in order |
| ScrapeTools.TwoParams | scrapetools.py:65-69 | `k1=v1&k2=v2` with distinct `=`-free keys gives exactly {k1: v1, k2: v2} in that order, values keeping any `=` |
| ScrapeTools.UrlTwoParams | scrapetools.py:55-71 | `base?k1=v1&k2=v2` with plain keys and values gives the base and the two parameters in order |
| ScrapeTools.UrlExample | scrapetools.py:55-71 | `https://x.com/a?b=1&c=2=3` gives base `https://x.com/a` and {"b": "1", "c": "2=3"} |
| ScrapeTools.CookieExample | scrapetools.py:20-23 | `-H 'cookie: a: b'` gives {"cookie": "a: b"} |
| ScrapeTools.ParseData | scrapetools.py:86-89 | the '' sentinel exactly when no `--data-raw '…'` match exists anywhere |
| ScrapeTools.ReplaceDataFlag | scrapetools.py:90 | removing the flag text from `--data-raw '<body>'` leaves the body and its closing quote, or, for a body ending in `--data-raw `, the body without that ending |
| ScrapeTools.ParseDataFirstMatch | scrapetools.py:86-91 | the body is the text between the quotes of the leftmost match, later matches ignored, with the `--data-raw ` ending and the character before it removed when present; it has no quote and may be empty |
| ScrapeTools.Uncurl | scrapetools.py:105-112 | IndexError exactly when there is no space; headers are `extract_headers` of the whole text; `data` is present exactly when `--data-raw` occurs and then is `parse_data` of the text |
| ScrapeTools.UncurlUrl | scrapetools.py:105-107 | base URL and params are `parse_url` of the second space-separated token with its quotes removed |
| ScrapeTools.WithoutFlags | scrapetools.py:108-110 | a command containing no `-` yields no headers and no 'data' key |
| ScrapeTools.UncurlDataWithoutBody | scrapetools.py:109-110 | `--data-raw` without a quoted body still adds `data`, holding the '' sentinel |
| ScrapeTools.GetCommand | scrapetools.py:105-112 | `<cmd> '<url>'` gives the parsed URL, no headers, and no `data` key, when neither part holds a space, `cmd` holds no `-`, and `url` holds no quote and no `--data-raw` |
| ScrapeTools.PostCommand | scrapetools.py:105-112 | `<cmd> '<url>' -H '<key>: <value>' --data-raw '<body>'` gives the parsed URL, exactly {key: value}, and the body as `parse_data` reads it (`BodyText`: the body, less a `--data-raw ` ending and the character before it), when `cmd` and `url` hold no space or quote, `cmd` holds no `-`, the header text holds no quote and no inner `-H ` and does not end in `--data-raw `, the key holds no `: `, and the body holds no quote |
| ScrapeTools.PostExample | scrapetools.py:105-112 | `curl 'https://x.com/a?b=1' -H 'Accept: */*' --data-raw '{"x":1}'` gives base, {"b": "1"}, {"Accept": "*/*"} and the body `{"x":1}` |
| ScrapeTools.GetExample | scrapetools.py:105-112 | `curl 'https://x.com/a?b=1'` gives base `https://x.com/a`, params {"b": "1"}, no headers, no data |

## Left out

- `request` (scrapetools.py:114-134): a network call through the `requests` library. It is I/O and only chooses between GET and POST.
- `requests.utils.unquote` (scrapetools.py:55): a foreign percent-decoder. It is the parameter `unquote`, and the splitting is proved on its output.
- `json.loads` (scrapetools.py:90): a foreign JSON parser. `ParseData` returns the text it would parse. Its failure on invalid JSON, the empty body included, is not modelled.
- General regular expressions: only the two fixed patterns are modelled, as the `Scanner` module.
- Split: requires a non-empty separator, where Python raises `ValueError` for an empty one. Every separator in the source is a non-empty literal.
- Replace: requires a non-empty target, where Python's `str.replace` with an empty target inserts the replacement between all characters. The source only replaces the non-empty literals `'` and `--data-raw '`.
