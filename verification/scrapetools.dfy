/** The "copy as cURL" parser of scrapetools.py: a command string is turned
    into a request descriptor holding the base URL, the query parameters,
    the headers and, when the command carries one, the raw body. */
module ScrapeTools {
  import opened Results
  import opened Strings
  import opened Suffixes
  import opened Dicts
  import opened Scanner

  /** What `parse_data` returns: the '' sentinel when no raw body matched, or
      the body text it hands to `json.loads`. */
  datatype Data = NoBody | RawBody(text: string)

  /** What `parse_url` returns. */
  datatype UrlParts = UrlParts(baseUrl: string, params: Dict<string, string>)

  /** What `uncurl` returns; `data` is None when the dictionary has no
      'data' key. */
  datatype Request = Request(
    baseUrl: string,
    params: Dict<string, string>,
    headers: Dict<string, string>,
    data: Option<Data>)

  // ---------------------------------------------------------------- headers

  /** `extract_header`: the text after the first `-H ` (up to any second
      `-H `), quotes removed, cut at the first `: ` into a one-entry
      dictionary. Without any `-H ` the indexing raises. */
  function ExtractHeader(headerStr: string): (r: Result<Dict<string, string>>)
    ensures r.Ok? <==> Contains(headerStr, "-H ")
    ensures r.Ok? ==> |r.value| == 1
    ensures r.Ok? ==> '\'' !in r.value[0].0 && '\'' !in r.value[0].1
    ensures r.Ok? ==> !Contains(r.value[0].0, ": ")
  {
    var flagParts := Split(headerStr, "-H ");
    SplitPieces(headerStr, "-H ");
    if |flagParts| < 2 then Err(IndexError)
    else
      var text := RemoveQuotes(flagParts[1]);
      var kv := SplitKeyValue(text, ": ");
      assert forall x :: x in kv.0 || x in kv.1 ==> x in text;
      Ok([kv])
  }

  /** The text of a header argument that `extract_header` keeps: everything
      up to a `-H ` inside it, if there is one. */
  function BeforeInnerFlag(body: string): string
  {
    match IndexOf(body, "-H ")
    case None => body
    case Some(i) => body[..i]
  }

  /** Python's `header_str.split('-H ')[1]` on a fragment `-H '<body>'`:
      the quoted body, cut before any `-H ` inside it. */
  lemma FlagArgument(body: string)
    requires '\'' !in body
    ensures |Split("-H '" + body + "'", "-H ")| >= 2
    ensures Split("-H '" + body + "'", "-H ")[1] ==
      match IndexOf(body, "-H ")
      case None => "'" + body + "'"
      case Some(i) => "'" + body[..i]
  {
    FlagArgumentTail(body);
    QuotedFirstPiece(body);
  }

  /** The first piece of a quoted text split on `-H `. */
  lemma QuotedFirstPiece(body: string)
    ensures Split("'" + body + "'", "-H ")[0] ==
      match IndexOf(body, "-H ")
      case None => "'" + body + "'"
      case Some(i) => "'" + body[..i]
  {
    var tail := "'" + body + "'";
    QuotedIndex(body);
    SplitFirstPiece(tail, "-H ");
    match IndexOf(body, "-H ")
    case None =>
    case Some(i) =>
      QuotedPrefix(body, i);
  }

  /** Quoting a text and cutting after `i + 1` characters keeps its first `i`. */
  lemma QuotedPrefix(body: string, i: nat)
    requires i <= |body|
    ensures ("'" + body + "'")[..i + 1] == "'" + body[..i]
  {
  }

  /** Quoting a text shifts its first `-H ` by one and adds none. */
  lemma QuotedIndex(body: string)
    ensures IndexOf("'" + body + "'", "-H ") ==
      match IndexOf(body, "-H ")
      case None => None
      case Some(i) => Some(i + 1)
  {
    IndexOfShift('\'', body + "'", "-H ");
    assert "'" + body + "'" == ['\''] + (body + "'");
    match IndexOf(body, "-H ")
    case None =>
      IndexOfAppendMiss(body, '\'', "-H ");
    case Some(i) =>
      IndexOfExtend(body, "'", "-H ", i);
  }

  /** A fragment starts with `-H `, so its split begins with an empty piece. */
  lemma FlagArgumentTail(body: string)
    ensures Split("-H '" + body + "'", "-H ") == [""] + Split("'" + body + "'", "-H ")
  {
    var m := "-H '" + body + "'";
    assert m[0..3] == "-H ";
    IndexOfFirst(m, "-H ", 0);
    assert m[3..] == "'" + body + "'";
    SplitUnfold(m, "-H ", 0);
  }

  /** On a fragment `-H '<body>'` as the scanner finds it, `extract_header`
      yields the body cut at its first `: `; a `-H ` inside the body cuts the
      header short there. */
  lemma HeaderOfFragment(body: string)
    requires '\'' !in body
    ensures ExtractHeader("-H '" + body + "'") == Ok([SplitKeyValue(BeforeInnerFlag(body), ": ")])
  {
    FlagArgument(body);
    var kept := BeforeInnerFlag(body);
    assert '\'' !in kept by {
      assert forall x :: x in kept ==> x in body;
    }
    WithoutAround(kept, '\'');
  }

  /** In `key: value` with no `: ` inside the key, the first `: ` follows
      the key. */
  lemma SeparatorAfterKey(key: string, value: string)
    requires !Contains(key, ": ")
    ensures IndexOf(key + ": " + value, ": ") == Some(|key|)
  {
    var body := key + ": " + value;
    assert body[|key|..|key| + 2] == ": ";
    forall k | 0 <= k < |key|
      ensures !Occurs(body, ": ", k)
    {
      if k + 2 <= |key| {
        assert body[k..k + 2] == key[k..k + 2];
        assert !Occurs(key, ": ", k);
      } else {
        assert body[k..k + 2][1] == ':';
      }
    }
    IndexOfFirst(body, ": ", |key|);
  }

  /** Cutting `key: value` at its first `: ` gives back key and value. */
  lemma KeyValueRoundTrip(key: string, value: string)
    requires !Contains(key, ": ")
    ensures SplitKeyValue(key + ": " + value, ": ") == (key, value)
  {
    var body := key + ": " + value;
    SeparatorAfterKey(key, value);
    assert body[..|key|] == key;
    assert body[|key| + 2..] == value;
  }

  /** A well-formed header argument: key, `: `, value, no quotes, and no
      `-H ` inside. The value may itself contain `: `. */
  lemma HeaderRoundTrip(key: string, value: string)
    requires '\'' !in key + ": " + value
    requires !Contains(key + ": " + value, "-H ")
    requires !Contains(key, ": ")
    ensures ExtractHeader("-H '" + key + ": " + value + "'") == Ok([(key, value)])
  {
    var body := key + ": " + value;
    assert "-H '" + key + ": " + value + "'" == "-H '" + body + "'";
    HeaderOfFragment(body);
    assert BeforeInnerFlag(body) == body;
    KeyValueRoundTrip(key, value);
  }

  /** A header argument without `: ` becomes a key with the empty value. */
  lemma HeaderWithoutSeparator(body: string)
    requires '\'' !in body
    requires !Contains(body, "-H ") && !Contains(body, ": ")
    ensures ExtractHeader("-H '" + body + "'") == Ok([(body, "")])
  {
    HeaderOfFragment(body);
  }

  /** Every fragment the header scanner finds holds `-H `. */
  lemma FragmentHasFlag(m: string)
    requires IsFragment(HeaderFlag, m)
    ensures Contains(m, "-H ")
  {
    assert m[0..3] == m[0..4][0..3];
    assert Occurs(m, "-H ", 0);
  }

  /** The one entry a matched fragment contributes. */
  function HeaderEntry(fragment: string): (entry: (string, string))
    requires IsFragment(HeaderFlag, fragment)
    ensures ExtractHeader(fragment) == Ok([entry])
  {
    FragmentHasFlag(fragment);
    var d := ExtractHeader(fragment).value;
    assert d == [d[0]];
    d[0]
  }

  /** The entries of all matched fragments, in order. */
  function HeaderEntries(fragments: seq<string>): (ps: Dict<string, string>)
    requires forall k :: 0 <= k < |fragments| ==> IsFragment(HeaderFlag, fragments[k])
    ensures |ps| == |fragments|
    ensures forall k :: 0 <= k < |ps| ==> ExtractHeader(fragments[k]) == Ok([ps[k]])
  {
    seq(|fragments|, k requires 0 <= k < |fragments| => HeaderEntry(fragments[k]))
  }

  /** The loop of `extract_headers`: `headers_dict.update(extract_header(h))`
      for every fragment, in order, so the last fragment's header is stored. */
  function MergeHeaders(fragments: seq<string>): (headers: Dict<string, string>)
    requires forall k :: 0 <= k < |fragments| ==> IsFragment(HeaderFlag, fragments[k])
    ensures |fragments| > 0 ==> HeaderEntry(fragments[|fragments| - 1]) in headers
  {
    if |fragments| == 0 then []
    else
      var last := fragments[|fragments| - 1];
      FragmentHasFlag(last);
      Merge(MergeHeaders(fragments[..|fragments| - 1]), ExtractHeader(last).value)
  }

  /** The entries of the first `n` fragments are the first `n` entries. */
  lemma HeaderEntriesPrefix(fragments: seq<string>, n: nat)
    requires forall k :: 0 <= k < |fragments| ==> IsFragment(HeaderFlag, fragments[k])
    requires n <= |fragments|
    ensures HeaderEntries(fragments[..n]) == HeaderEntries(fragments)[..n]
  {
  }

  /** The update loop stores the fragments' entries in order into an empty
      dictionary. */
  lemma {:induction false} MergeHeadersEntries(fragments: seq<string>)
    requires forall k :: 0 <= k < |fragments| ==> IsFragment(HeaderFlag, fragments[k])
    ensures MergeHeaders(fragments) == Merge([], HeaderEntries(fragments))
  {
    if |fragments| > 0 {
      var n := |fragments|;
      var init := fragments[..n - 1];
      MergeHeadersEntries(init);
      HeaderEntriesPrefix(fragments, n - 1);
      var e := HeaderEntries(fragments)[n - 1];
      MergeOne(MergeHeaders(init), e.0, e.1);
    }
  }

  /** `extract_headers`: every `-H '…'` fragment, left to right, merged into
      one dictionary. Keys keep their first position; on a repeated key the
      last fragment's value wins; no fragment gives the empty dictionary. */
  function ExtractHeaders(curl: string): (headers: Dict<string, string>)
    ensures Keys(headers) == Dedup(Keys(HeaderEntries(FindAll(curl, HeaderFlag))))
    ensures forall k :: Get(headers, k) == LastValue(HeaderEntries(FindAll(curl, HeaderFlag)), k)
    ensures headers == [] <==> NoMatchFrom(curl, HeaderFlag, 0)
    ensures Distinct(Keys(headers))
  {
    var fragments := FindAll(curl, HeaderFlag);
    var entries := HeaderEntries(fragments);
    MergeHeadersEntries(fragments);
    MergeKeys(entries);
    MergeDistinct(entries);
    DedupMembers(Keys(entries));
    ScanEmpty(curl, HeaderFlag, 0);
    assert forall k :: Get(Merge([], entries), k) == LastValue(entries, k) by {
      forall k {
        MergeValues(entries, k);
      }
    }
    MergeEmpty(entries);
    MergeHeaders(fragments)
  }

  // -------------------------------------------------------------------- URL

  /** One `&`-separated query piece: the key before the first `=`, the value
      everything after it (later `=` kept); without `=` the value is empty. */
  function ParamEntry(piece: string): (kv: (string, string))
    ensures '=' !in kv.0
    ensures '=' in piece ==> kv.0 + "=" + kv.1 == piece
    ensures '=' !in piece ==> kv == (piece, "")
  {
    IndexOfChar(piece, '=');
    OccursChar(SplitKeyValue(piece, "=").0, '=');
    SplitKeyValue(piece, "=")
  }

  /** A key is a prefix of its piece, so a piece free of `&` has a key free of
      `&`. */
  lemma PieceKey(piece: string)
    requires '&' !in piece
    ensures '&' !in ParamEntry(piece).0
  {
    var key := ParamEntry(piece).0;
    if '=' in piece {
      assert piece[..|key|] == key;
    }
    assert forall x :: x in key ==> x in piece;
  }

  /** The entry of every query piece, in order. */
  function ParamEntries(pieces: seq<string>): (ps: Dict<string, string>)
    ensures |ps| == |pieces|
    ensures forall k :: 0 <= k < |ps| ==> ps[k] == ParamEntry(pieces[k])
  {
    if |pieces| == 0 then []
    else [ParamEntry(pieces[0])] + ParamEntries(pieces[1..])
  }

  /** The pairs the query loop of `parse_url` stores, in order. */
  function QueryEntries(query: string): (ps: Dict<string, string>)
    ensures |ps| == |Split(query, "&")|
    ensures forall k :: 0 <= k < |ps| ==> '=' !in ps[k].0 && '&' !in ps[k].0
  {
    var pieces := Split(query, "&");
    SplitPiecesChar(query, '&');
    assert forall k :: 0 <= k < |pieces| ==> '&' !in ParamEntry(pieces[k]).0 by {
      forall k | 0 <= k < |pieces| {
        PieceKey(pieces[k]);
      }
    }
    ParamEntries(pieces)
  }

  /** The query loop of `parse_url`: `params_dict[key] = value` for every
      piece, in order. A query always has a piece, so the parameters are
      never empty, and the last piece's entry is always stored. */
  function ParseQuery(query: string): (params: Dict<string, string>)
    ensures params != []
    ensures ParamEntry(Split(query, "&")[|Split(query, "&")| - 1]) in params
  {
    var pieces := Split(query, "&");
    var entries := QueryEntries(query);
    assert entries == ParamEntries(pieces);
    assert entries[|entries| - 1] == ParamEntry(pieces[|pieces| - 1]);
    Merge([], entries)
  }

  /** `parse_url`: the decoded URL cut at its first `?`; the parameters come
      only from the text between the first and the second `?`. The decoding
      is the parameter `unquote`. */
  function ParseUrl(unquote: string -> string, url: string): (r: UrlParts)
    ensures '?' !in r.baseUrl
    ensures r.baseUrl == unquote(url) || r.baseUrl + "?" <= unquote(url)
    ensures '?' !in unquote(url) ==> r == UrlParts(unquote(url), [])
  {
    var decoded := unquote(url);
    var urlParts := Split(decoded, "?");
    SplitCharFirst(decoded, '?');
    if |urlParts| == 1 then UrlParts(urlParts[0], [])
    else UrlParts(urlParts[0], ParseQuery(urlParts[1]))
  }

  /** A decoded URL `base?query` followed by nothing or by a second `?`:
      the base is the text before the first `?`, and only `query` feeds the
      parameters. */
  lemma ParseUrlQuery(unquote: string -> string, url: string, base: string, query: string, rest: string)
    requires unquote(url) == base + "?" + query + rest
    requires '?' !in base && '?' !in query
    requires rest == [] || rest[0] == '?'
    ensures ParseUrl(unquote, url) == UrlParts(base, ParseQuery(query))
  {
    SplitFirstTwo(base, '?', query, rest);
  }

  /** A trailing `?` gives one parameter with empty key and empty value. */
  lemma TrailingQuestionMark(unquote: string -> string, url: string, base: string)
    requires unquote(url) == base + "?"
    requires '?' !in base
    ensures ParseUrl(unquote, url) == UrlParts(base, [("", "")])
  {
    ParseUrlQuery(unquote, url, base, [], []);
    assert base + "?" + [] + [] == base + "?";
    IndexOfChar([], '&');
    SplitNone([], "&");
    IndexOfChar([], '=');
    assert QueryEntries([]) == [("", "")];
  }

  /** The parameters: keys in first-occurrence order, each holding the value
      of its last piece, and no key holding `=` or `&`. */
  lemma QueryProperties(query: string)
    ensures Keys(ParseQuery(query)) == Dedup(Keys(QueryEntries(query)))
    ensures forall k :: Get(ParseQuery(query), k) == LastValue(QueryEntries(query), k)
    ensures forall k :: k in Keys(ParseQuery(query)) ==> '=' !in k && '&' !in k
  {
    var entries := QueryEntries(query);
    MergeKeys(entries);
    forall k {
      MergeValues(entries, k);
    }
    QueryKeysClean(query);
  }

  /** Every stored key is the key of some piece, so none holds `=` or `&`. */
  lemma QueryKeysClean(query: string)
    ensures forall k :: k in Keys(ParseQuery(query)) ==> '=' !in k && '&' !in k
  {
    var entries := QueryEntries(query);
    var params := ParseQuery(query);
    assert params == Merge([], entries);
    forall k | k in Keys(params)
      ensures '=' !in k && '&' !in k
    {
      MergeKeySource(entries, k);
    }
  }

  // ------------------------------------------------------------------- body

  /** `parse_data`: the first `--data-raw '…'` fragment with the flag text
      replaced away and the last character dropped; '' when none matches. */
  function ParseData(curl: string): (r: Data)
    ensures r == NoBody <==> NoMatchFrom(curl, DataRawFlag, 0)
  {
    ScanEmpty(curl, DataRawFlag, 0);
    var matches := FindAll(curl, DataRawFlag);
    if |matches| == 0 then NoBody
    else RawBody(DropLast(Replace(matches[0], "--data-raw '", "")))
  }

  /** Removing the flag text from a fragment `--data-raw '<body>'` leaves the
      body and its closing quote; when the body itself ends in `--data-raw `,
      that text and the closing quote form a second flag, which the
      replacement removes as well. */
  lemma ReplaceDataFlag(body: string)
    requires '\'' !in body
    ensures Replace("--data-raw '" + body + "'", "--data-raw '", "") ==
      if EndsWith(body, "--data-raw ") then body[..|body| - 11] else body + "'"
  {
    var flag := "--data-raw '";
    var tail := body + "'";
    DataFlagAtStart(body);
    if EndsWith(body, "--data-raw ") {
      var n := |body| - 11;
      TrailingFlag(body);
      SplitUnfold(tail, flag, n);
      assert tail[..n] == body[..n];
      assert tail[n + 12..] == [];
      SplitNone([], flag);
      JoinCons([], [body[..n], []], []);
      JoinCons(body[..n], [[]], []);
    } else {
      NoFlagInBody(body);
      SplitNone(tail, flag);
      JoinCons([], [tail], []);
    }
  }

  /** In a quote-free body ending in `--data-raw `, followed by its closing
      quote, the first flag is that trailing text. */
  lemma TrailingFlag(body: string)
    requires '\'' !in body
    requires EndsWith(body, "--data-raw ")
    ensures IndexOf(body + "'", "--data-raw '") == Some(|body| - 11)
  {
    var flag := "--data-raw '";
    assert flag[..11] == "--data-raw ";
    QuoteEndedFlagAtEnd(body, flag);
  }

  /** A fragment starts with the flag, so its split begins with an empty
      piece. */
  lemma DataFlagAtStart(body: string)
    ensures Split("--data-raw '" + body + "'", "--data-raw '") == [[]] + Split(body + "'", "--data-raw '")
  {
    var flag := "--data-raw '";
    var m := flag + body + "'";
    assert m[0..|flag|] == flag;
    IndexOfFirst(m, flag, 0);
    assert m[|flag|..] == body + "'";
    SplitUnfold(m, flag, 0);
  }

  /** A quote-free body followed by its closing quote holds the flag only if
      the body ends in `--data-raw `. */
  lemma NoFlagInBody(body: string)
    requires '\'' !in body
    requires !EndsWith(body, "--data-raw ")
    ensures IndexOf(body + "'", "--data-raw '").None?
  {
    var flag := "--data-raw '";
    assert flag[..11] == "--data-raw ";
    NoQuoteEndedFlag(body, flag);
  }

  /** A pattern ending in a quote occurs in `body'`, with `body` quote-free,
      only as a suffix, and so only if `body` ends in the rest of it. */
  lemma NoQuoteEndedFlag(body: string, flag: string)
    requires |flag| > 0 && flag[|flag| - 1] == '\''
    requires '\'' !in body
    requires !EndsWith(body, flag[..|flag| - 1])
    ensures !Contains(body + "'", flag)
  {
    var tail := body + "'";
    var n := |flag|;
    forall k | 0 <= k && k + n <= |tail|
      ensures !Occurs(tail, flag, k)
    {
      if k + n < |tail| {
        assert tail[k + n - 1] == body[k + n - 1];
        assert tail[k..k + n][n - 1] == tail[k + n - 1];
      } else {
        assert tail[k..k + n - 1] == body[|body| - (n - 1)..];
        assert tail[k..k + n][..n - 1] == tail[k..k + n - 1];
      }
    }
  }

  /** A pattern ending in a quote that `body'` ends in, with `body`
      quote-free, first occurs there. */
  lemma QuoteEndedFlagAtEnd(body: string, flag: string)
    requires |flag| > 0 && flag[|flag| - 1] == '\''
    requires '\'' !in body
    requires EndsWith(body, flag[..|flag| - 1])
    ensures IndexOf(body + "'", flag) == Some(|body| - (|flag| - 1))
  {
    var tail := body + "'";
    var n := |flag|;
    var pos := |body| - (n - 1);
    assert tail[pos..pos + n] == body[pos..] + "'";
    assert flag == flag[..n - 1] + [flag[n - 1]];
    forall k | 0 <= k < pos
      ensures !Occurs(tail, flag, k)
    {
      assert tail[k + n - 1] == body[k + n - 1];
      assert tail[k..k + n][n - 1] == tail[k + n - 1];
    }
    IndexOfFirst(tail, flag, pos);
  }

  /** What `parse_data` keeps of a match whose quotes enclose `body`. */
  function BodyText(body: string): string {
    if EndsWith(body, "--data-raw ") then DropLast(body[..|body| - 11]) else body
  }

  /** The body is the text between the quotes of the leftmost
      `--data-raw '…'` match (later matches are ignored). When that text ends
      in `--data-raw `, the replacement also eats that suffix, and the last
      character dropped is then the one before it. */
  lemma ParseDataFirstMatch(curl: string, i: nat, e: nat, body: string)
    requires IsMatch(curl, DataRawFlag, i, e)
    requires forall k, e' :: 0 <= k < i ==> !IsMatch(curl, DataRawFlag, k, e')
    requires body == curl[i + 12..e - 1]
    ensures ParseData(curl) == RawBody(BodyText(body))
    ensures '\'' !in ParseData(curl).text
  {
    ScanFirst(curl, DataRawFlag, 0, i, e);
    MatchText(curl, DataRawFlag, i, e);
    ReplaceDataFlag(body);
    assert DropLast(body + "'") == body;
  }

  /** A match is its opener, its body and the closing quote. */
  lemma MatchText(s: string, p: Pattern, i: nat, e: nat)
    requires IsMatch(s, p, i, e)
    ensures s[i..e] == p.opener + s[i + |p.opener|..e - 1] + "'"
  {
    var n := |p.opener|;
    assert s[i..i + n] == p.opener;
    assert s[i..e] == s[i..i + n] + s[i + n..e - 1] + [s[e - 1]];
  }

  // ---------------------------------------------------------------- uncurl

  /** `uncurl`: the URL is the second space-separated token with its quotes
      removed (no such token raises); headers come from the whole command;
      the 'data' key exists exactly when the text `--data-raw` occurs, even
      if no quoted body matches. */
  function Uncurl(unquote: string -> string, curl: string): (r: Result<Request>)
    ensures r.Err? <==> ' ' !in curl
    ensures r.Ok? ==> r.value.headers == ExtractHeaders(curl)
    ensures r.Ok? ==> (r.value.data.Some? <==> Contains(curl, "--data-raw"))
    ensures r.Ok? && r.value.data.Some? ==> r.value.data.value == ParseData(curl)
  {
    var tokens := Split(curl, " ");
    SplitPieces(curl, " ");
    OccursChar(curl, ' ');
    if |tokens| < 2 then Err(IndexError)
    else
      var url := RemoveQuotes(tokens[1]);
      var parts := ParseUrl(unquote, url);
      var data := if Contains(curl, "--data-raw") then Some(ParseData(curl)) else None;
      Ok(Request(parts.baseUrl, parts.params, ExtractHeaders(curl), data))
  }

  /** The URL parsed is the second space-separated token, quotes removed. */
  lemma UncurlUrl(unquote: string -> string, curl: string, command: string, token: string, rest: string)
    requires curl == command + " " + token + rest
    requires ' ' !in command && ' ' !in token
    requires rest == [] || rest[0] == ' '
    ensures Uncurl(unquote, curl).Ok?
    ensures Uncurl(unquote, curl).value.baseUrl == ParseUrl(unquote, RemoveQuotes(token)).baseUrl
    ensures Uncurl(unquote, curl).value.params == ParseUrl(unquote, RemoveQuotes(token)).params
  {
    SplitFirstTwo(command, ' ', token, rest);
    OccursChar(curl, ' ');
  }

  /** `--data-raw` without a single-quoted body still adds 'data', holding
      the '' sentinel. */
  lemma UncurlDataWithoutBody(unquote: string -> string, curl: string)
    requires ' ' in curl
    requires Contains(curl, "--data-raw")
    requires NoMatchFrom(curl, DataRawFlag, 0)
    ensures Uncurl(unquote, curl).Ok?
    ensures Uncurl(unquote, curl).value.data == Some(NoBody)
  {
  }

  // --------------------------------------------------------------- examples
  /** The percent-decoding of a URL without `%` escapes: the text itself. */
  function Verbatim(url: string): string
  {
    url
  }

  // The examples take their strings as parameters pinned by `requires`, so
  // that the verifier reasons from the lemmas above instead of evaluating
  // the recursive definitions on literals.

  /** A header value containing `: ` survives intact. */
  lemma CookieExample(key: string, value: string)
    requires key == "cookie" && value == "a: b"
    ensures ExtractHeader("-H '" + key + ": " + value + "'") == Ok([(key, value)])
  {
    AbsentChar(key + ": " + value, "-H ", 0);
    AbsentChar(key, ": ", 0);
    HeaderRoundTrip(key, value);
  }

  /** A query of one piece holds one parameter. */
  lemma OnePieceQuery(query: string)
    requires '&' !in query
    ensures ParseQuery(query) == [ParamEntry(query)]
  {
    IndexOfChar(query, '&');
    SplitNone(query, "&");
    assert QueryEntries(query) == [ParamEntry(query)];
    MergeOne([], ParamEntry(query).0, ParamEntry(query).1);
  }

  /** A query of two pieces stores their entries in order. */
  lemma TwoPieceQuery(first: string, second: string)
    requires '&' !in first && '&' !in second
    ensures ParseQuery(first + "&" + second) == Merge([], [ParamEntry(first), ParamEntry(second)])
  {
    TwoPieces(first, second);
    EntriesOfTwo(first + "&" + second, first, second);
  }

  /** A query of two pieces stores the entries of those two pieces. */
  lemma EntriesOfTwo(query: string, first: string, second: string)
    requires Split(query, "&") == [first, second]
    ensures QueryEntries(query) == [ParamEntry(first), ParamEntry(second)]
  {
    var es := QueryEntries(query);
    assert |es| == 2;
    assert es[0] == ParamEntry(first);
    assert es[1] == ParamEntry(second);
  }

  /** Two `&`-free pieces joined by `&` split back into exactly those two. */
  lemma TwoPieces(first: string, second: string)
    requires '&' !in first && '&' !in second
    ensures Split(first + "&" + second, "&") == [first, second]
  {
    var query := first + "&" + second;
    assert query == first + ['&'] + second + [];
    SplitFirstTwo(first, '&', second, []);
  }

  /** A query `k1=v1&k2=v2` with two distinct keys free of `=` gives exactly
      those two parameters, in order; values keep any `=` they contain. */
  lemma TwoParams(k1: string, v1: string, k2: string, v2: string)
    requires '=' !in k1 && '=' !in k2 && k1 != k2
    requires '&' !in k1 && '&' !in v1 && '&' !in k2 && '&' !in v2
    ensures ParseQuery(k1 + "=" + v1 + "&" + (k2 + "=" + v2)) == [(k1, v1), (k2, v2)]
  {
    var first, second := k1 + "=" + v1, k2 + "=" + v2;
    TwoPieceQuery(first, second);
    PinnedEntry(first, k1, v1);
    PinnedEntry(second, k2, v2);
    MergeTwo(k1, v1, k2, v2);
  }

  /** A URL `base?k1=v1&k2=v2` with plain keys and values gives the base and
      the two parameters in order. */
  lemma UrlTwoParams(unquote: string -> string, url: string, base: string, k1: string, v1: string, k2: string, v2: string)
    requires unquote(url) == base + "?" + (k1 + "=" + v1 + "&" + (k2 + "=" + v2))
    requires '?' !in base && '?' !in k1 && '?' !in v1 && '?' !in k2 && '?' !in v2
    requires '=' !in k1 && '=' !in k2 && k1 != k2
    requires '&' !in k1 && '&' !in v1 && '&' !in k2 && '&' !in v2
    ensures ParseUrl(unquote, url) == UrlParts(base, [(k1, v1), (k2, v2)])
  {
    var query := k1 + "=" + v1 + "&" + (k2 + "=" + v2);
    assert '?' !in query;
    assert unquote(url) == base + "?" + query + [];
    ParseUrlQuery(unquote, url, base, query, []);
    TwoParams(k1, v1, k2, v2);
  }

  /** `https://x.com/a?b=1&c=2=3`, decoding the identity. */
  lemma UrlExample(url: string, base: string, k1: string, v1: string, k2: string, v2: string)
    requires base == "https://x.com/a" && k1 == "b" && v1 == "1" && k2 == "c" && v2 == "2=3"
    requires url == base + "?" + (k1 + "=" + v1 + "&" + (k2 + "=" + v2))
    ensures ParseUrl(Verbatim, url) == UrlParts(base, [(k1, v1), (k2, v2)])
  {
    assert '?' !in base && '?' !in k1 && '?' !in v1 && '?' !in k2 && '?' !in v2;
    assert '=' !in k1 && '=' !in k2 && k1 != k2;
    assert '&' !in k1 && '&' !in v1 && '&' !in k2 && '&' !in v2;
    UrlTwoParams(Verbatim, url, base, k1, v1, k2, v2);
  }

  /** A piece `key=value` whose key has no `=` splits into key and value. */
  lemma PinnedEntry(piece: string, key: string, value: string)
    requires piece == key + "=" + value && '=' !in key
    ensures ParamEntry(piece) == (key, value)
  {
    IndexOfCharAt(piece, '=', |key|);
    assert piece[..|key|] == key;
    assert piece[|key| + 1..] == value;
  }

  /** Removing the quotes around a quote-free text gives the text back. */
  lemma Unquoted(text: string)
    requires '\'' !in text
    ensures RemoveQuotes("'" + text + "'") == text
  {
    assert "'" + text + "'" == ['\''] + text + ['\''];
    WithoutAround(text, '\'');
  }

  /** A command `<cmd> '<url>'` gives a GET descriptor: no headers, because
      a header flag would need a `-` in `cmd` or a space in `url`, and no
      'data' key while `url` does not contain `--data-raw`. */
  lemma GetCommand(unquote: string -> string, curl: string, cmd: string, url: string)
    requires curl == cmd + " " + ("'" + url + "'")
    requires ' ' !in cmd && '-' !in cmd
    requires ' ' !in url && '\'' !in url && !Contains(url, "--data-raw")
    ensures Uncurl(unquote, curl)
      == Ok(Request(ParseUrl(unquote, url).baseUrl, ParseUrl(unquote, url).params, [], None))
  {
    var token := "'" + url + "'";
    assert ' ' in curl;
    UncurlUrl(unquote, curl, cmd, token, []);
    Unquoted(url);
    NoHeaderFlag(curl, cmd, url);
    NoOpenerNoMatch(curl, HeaderFlag);
    NoDataFlag(curl, cmd, url);
  }

  /** In `<cmd> '<url>'` a header flag would start at a `-`, which only the
      URL holds, and the URL has no space for its third character. */
  lemma NoHeaderFlag(curl: string, cmd: string, url: string)
    requires curl == cmd + " " + ("'" + url + "'")
    requires '-' !in cmd && ' ' !in url
    ensures !Contains(curl, "-H '")
  {
    var n := |cmd|;
    forall k | 0 <= k && k + 4 <= |curl|
      ensures !Occurs(curl, "-H '", k)
    {
      assert curl[k..k + 4][0] == curl[k] && curl[k..k + 4][2] == curl[k + 2];
      if k < n {
        assert curl[k] == cmd[k];
      } else if k >= n + 2 {
        assert curl[k + 2] == url[k - n];
      }
    }
  }

  /** `--data-raw` has neither spaces nor quotes, so in `<cmd> '<url>'` it can
      only stand inside `cmd` or inside `url`. */
  lemma NoDataFlag(curl: string, cmd: string, url: string)
    requires curl == cmd + " " + ("'" + url + "'")
    requires '-' !in cmd && !Contains(url, "--data-raw")
    ensures !Contains(curl, "--data-raw")
  {
    var flag := "--data-raw";
    AbsentChar(cmd, flag, 0);
    AroundChar(url, '\'', [], flag);
    assert url + ['\''] + [] == url + "'";
    AroundChar([], '\'', url + "'", flag);
    assert [] + ['\''] + (url + "'") == "'" + url + "'";
    AroundChar(cmd, ' ', "'" + url + "'", flag);
  }

  /** A command without any `-` has neither headers nor a body. */
  lemma WithoutFlags(unquote: string -> string, curl: string)
    requires ' ' in curl && '-' !in curl
    ensures Uncurl(unquote, curl).Ok?
    ensures Uncurl(unquote, curl).value.headers == []
    ensures Uncurl(unquote, curl).value.data == None
  {
    AbsentChar(curl, "-H '", 0);
    AbsentChar(curl, "--data-raw", 0);
    NoOpenerNoMatch(curl, HeaderFlag);
  }

  /** A URL `base?piece` with one query piece, decoding the identity. */
  lemma OneParamUrl(base: string, piece: string)
    requires '?' !in base && '?' !in piece && '&' !in piece
    ensures ParseUrl(Verbatim, base + "?" + piece) == UrlParts(base, [ParamEntry(piece)])
  {
    ParseUrlQuery(Verbatim, base + "?" + piece, base, piece, []);
    assert base + "?" + piece + [] == base + "?" + piece;
    OnePieceQuery(piece);
  }

  /** `https://x.com/a?b=1`, decoding the identity. */
  lemma GetExampleUrl(base: string, key: string, value: string)
    requires base == "https://x.com/a" && key == "b" && value == "1"
    ensures ParseUrl(Verbatim, base + "?" + (key + "=" + value)) == UrlParts(base, [(key, value)])
  {
    var query := key + "=" + value;
    OneParamUrl(base, query);
    PinnedEntry(query, key, value);
  }

  /** `curl 'https://x.com/a?b=1'`. */
  lemma GetExample(curl: string, cmd: string, base: string, key: string, value: string)
    requires curl == cmd + " " + ("'" + (base + "?" + (key + "=" + value)) + "'")
    requires cmd == "curl" && base == "https://x.com/a" && key == "b" && value == "1"
    ensures Uncurl(Verbatim, curl) == Ok(Request(base, [(key, value)], [], None))
  {
    var url := base + "?" + (key + "=" + value);
    assert ' ' !in url && '\'' !in url && '-' !in url;
    AbsentChar(url, "--data-raw", 0);
    GetCommand(Verbatim, curl, cmd, url);
    GetExampleUrl(base, key, value);
  }

  /** A header fragment is the only header match when no header flag occurs
      before it, not even one running into the fragment's own flag, and none
      occurs after it short of the last character. */
  lemma OnlyHeaderFragment(curl: string, pre: string, hv: string, post: string)
    requires curl == pre + ("-H '" + hv + "'") + post
    requires !Contains(pre + "-H ", "-H '")
    requires post != [] ==> !Contains(post[..|post| - 1], "-H '")
    requires |hv| > 0 && '\'' !in hv
    ensures FindAll(curl, HeaderFlag) == ["-H '" + hv + "'"]
  {
    var frag := "-H '" + hv + "'";
    var i, e := |pre|, |pre| + |frag|;
    HeaderMatchAt(curl, pre, hv, post);
    assert curl[..i + 3] == pre + "-H ";
    NoMatchBefore(curl, HeaderFlag, i);
    ScanNext(curl, HeaderFlag, 0, i, e);
    if post != [] {
      assert curl[e..|curl| - 1] == post[..|post| - 1];
      NoMatchAfter(curl, HeaderFlag, e);
      ScanEmpty(curl, HeaderFlag, e);
    }
  }

  /** The header fragment inside a command matches where it stands. */
  lemma HeaderMatchAt(curl: string, pre: string, hv: string, post: string)
    requires curl == pre + ("-H '" + hv + "'") + post
    requires |hv| > 0 && '\'' !in hv
    ensures IsMatch(curl, HeaderFlag, |pre|, |pre| + |hv| + 5)
    ensures curl[|pre|..|pre| + |hv| + 5] == "-H '" + hv + "'"
  {
    var frag := "-H '" + hv + "'";
    var i, e := |pre|, |pre| + |frag|;
    assert curl[i..e] == frag;
    assert curl[i..i + 4] == frag[..4];
    assert curl[i + 4..e - 1] == hv;
  }

  /** A body fragment closing a command, with no body flag before it (not
      even one running into the fragment's own flag), is the leftmost body
      match. */
  lemma OnlyDataFragment(curl: string, pre: string, body: string)
    requires curl == pre + ("--data-raw '" + body + "'")
    requires !Contains(pre + "--data-raw ", "--data-raw '")
    requires '\'' !in body
    ensures Contains(curl, "--data-raw")
    ensures ParseData(curl) == RawBody(BodyText(body))
  {
    DataMatchAt(curl, pre, body);
    assert Contains(curl, "--data-raw");
    NoDataMatchBefore(curl, pre, body);
    ParseDataFirstMatch(curl, |pre|, |curl|, body);
  }

  /** Without a body flag in the text before the fragment, not even one running
      into the fragment's own flag, no body match starts there. */
  lemma NoDataMatchBefore(curl: string, pre: string, body: string)
    requires curl == pre + ("--data-raw '" + body + "'")
    requires !Contains(pre + "--data-raw ", "--data-raw '")
    ensures forall k, e' :: 0 <= k < |pre| ==> !IsMatch(curl, DataRawFlag, k, e')
  {
    assert curl[..|pre| + 11] == pre + "--data-raw ";
    NoMatchBefore(curl, DataRawFlag, |pre|);
  }

  /** The body fragment closing a command matches where it stands. */
  lemma DataMatchAt(curl: string, pre: string, body: string)
    requires curl == pre + ("--data-raw '" + body + "'")
    requires '\'' !in body
    ensures Occurs(curl, "--data-raw", |pre|)
    ensures IsMatch(curl, DataRawFlag, |pre|, |curl|)
    ensures curl[|pre| + 12..|curl| - 1] == body
  {
    var i := |pre|;
    assert curl[i..i + 10] == "--data-raw";
    assert curl[i..i + 12] == "--data-raw '";
    assert curl[i + 12..|curl| - 1] == body;
  }

  /** `<cmd> '<url>' ` continued by `-H ` holds no header flag: a flag ends at
      a quote, and the quotes stand after a space and after the URL. */
  lemma NoHeaderInUrlPart(cmd: string, url: string)
    requires '-' !in cmd && '\'' !in cmd && ' ' !in url && '\'' !in url
    ensures !Contains(cmd + " " + ("'" + url + "'") + " " + "-H ", "-H '")
  {
    var flag := "-H '";
    assert flag[..3] == "-H " && '\'' !in flag[..3];
    AbsentChar(" -H ", flag, 3);
    NotEndsWith(url, "-H ", 2);
    CharEndedAbsent(url, '\'', " -H ", flag);
    NotEndsWith(cmd + " ", "-H ", 0);
    CharEndedAbsent(cmd + " ", '\'', url + ['\''] + " -H ", flag);
    assert cmd + " " + ("'" + url + "'") + " " + "-H "
      == (cmd + " ") + ['\''] + (url + ['\''] + " -H ");
  }

  /** The rest of a command after its header fragment, short of the closing
      quote, holds no header flag: its only quote follows `--data-raw `. */
  lemma NoHeaderInData(post: string, body: string)
    requires post == " " + ("--data-raw '" + body + "'")
    requires '\'' !in body
    ensures post != [] && !Contains(post[..|post| - 1], "-H '")
  {
    var flag := "-H '";
    assert flag[..3] == "-H " && '\'' !in flag[..3];
    AbsentChar(body, flag, 3);
    NotEndsWith(" --data-raw ", "-H ", 1);
    CharEndedAbsent(" --data-raw ", '\'', body, flag);
    assert post[..|post| - 1] == " --data-raw " + ['\''] + body;
  }

  /** `-H '<hv>' ` continued by `--data-raw ` holds no body flag when `hv`
      does not end in `--data-raw `. */
  lemma NoDataInHeader(hv: string)
    requires '\'' !in hv && !EndsWith(hv, "--data-raw ")
    ensures !Contains(" -H " + ['\''] + (hv + ['\''] + " --data-raw "), "--data-raw '")
  {
    var flag := "--data-raw '";
    assert flag[..11] == "--data-raw " && '\'' !in flag[..11];
    AbsentChar(" --data-raw ", flag, 11);
    CharEndedAbsent(hv, '\'', " --data-raw ", flag);
    CharEndedAbsent(" -H ", '\'', hv + ['\''] + " --data-raw ", flag);
  }

  /** `<cmd> '<url>' -H '<hv>' ` continued by `--data-raw ` holds no body flag:
      a flag ends at a quote, and before each quote stands a space, the URL,
      ` -H ` or `hv`. */
  lemma NoDataBefore(cmd: string, url: string, hv: string)
    requires '-' !in cmd && '\'' !in cmd && ' ' !in url && '\'' !in url
    requires '\'' !in hv && !EndsWith(hv, "--data-raw ")
    ensures !Contains(cmd + " " + ("'" + url + "'") + " " + ("-H '" + hv + "'") + " "
      + "--data-raw ", "--data-raw '")
  {
    var flag := "--data-raw '";
    var rest := " -H " + ['\''] + (hv + ['\''] + " --data-raw ");
    assert flag[..11] == "--data-raw " && '\'' !in flag[..11];
    NoDataInHeader(hv);
    NotEndsWith(url, "--data-raw ", 10);
    CharEndedAbsent(url, '\'', rest, flag);
    NotEndsWith(cmd + " ", "--data-raw ", 0);
    CharEndedAbsent(cmd + " ", '\'', url + ['\''] + rest, flag);
    assert cmd + " " + ("'" + url + "'") + " " + ("-H '" + hv + "'") + " " + "--data-raw "
      == (cmd + " ") + ['\''] + (url + ['\''] + rest);
  }

  /** The URL of a command `<cmd> '<url>' …` is parsed from `<url>`. */
  lemma CommandUrl(unquote: string -> string, curl: string, cmd: string, url: string, rest: string)
    requires curl == cmd + " " + ("'" + url + "'") + rest
    requires ' ' !in cmd && ' ' !in url && '\'' !in url
    requires rest == [] || rest[0] == ' '
    ensures Uncurl(unquote, curl).Ok?
    ensures Uncurl(unquote, curl).value.baseUrl == ParseUrl(unquote, url).baseUrl
    ensures Uncurl(unquote, curl).value.params == ParseUrl(unquote, url).params
  {
    UncurlUrl(unquote, curl, cmd, "'" + url + "'", rest);
    Unquoted(url);
  }

  /** A command with one well-formed header fragment, and no other header
      flag before it or after it, has exactly that header. */
  lemma CommandHeader(curl: string, pre: string, key: string, value: string, post: string)
    requires curl == pre + ("-H '" + (key + ": " + value) + "'") + post
    requires !Contains(pre + "-H ", "-H '")
    requires post != [] ==> !Contains(post[..|post| - 1], "-H '")
    requires '\'' !in key + ": " + value && !Contains(key + ": " + value, "-H ")
    requires !Contains(key, ": ")
    ensures ExtractHeaders(curl) == [(key, value)]
  {
    var hv := key + ": " + value;
    HeaderArgument(hv, key, value);
    OnlyHeaderFragment(curl, pre, hv, post);
    SingleHeader(curl, "-H '" + hv + "'", key, value);
  }

  /** A header argument `<key>: <value>` yields exactly that entry. */
  lemma HeaderArgument(hv: string, key: string, value: string)
    requires hv == key + ": " + value
    requires '\'' !in hv && !Contains(hv, "-H ") && !Contains(key, ": ")
    ensures ExtractHeader("-H '" + hv + "'") == Ok([(key, value)])
  {
    assert "-H '" + key + ": " + value + "'" == "-H '" + hv + "'";
    HeaderRoundTrip(key, value);
  }

  /** A command whose only header fragment yields one entry has exactly that
      header. */
  lemma SingleHeader(curl: string, frag: string, key: string, value: string)
    requires FindAll(curl, HeaderFlag) == [frag]
    requires ExtractHeader(frag) == Ok([(key, value)])
    ensures ExtractHeaders(curl) == [(key, value)]
  {
    var fragments := FindAll(curl, HeaderFlag);
    assert ExtractHeaders(curl) == MergeHeaders(fragments);
    assert fragments[..0] == [];
    assert MergeHeaders(fragments) == Merge([], [(key, value)]);
    MergeOne([], key, value);
  }

  /** The three ways the command is cut apart: at the URL, the header and the
      body. */
  lemma Regroup(a: string, frag: string, data: string)
    ensures a + " " + frag + " " + data == (a + " ") + frag + (" " + data)
    ensures a + " " + frag + " " + data == a + (" " + frag + " " + data)
  {
  }

  /** A POST command `<cmd> '<url>' -H '<key>: <value>' --data-raw '<body>'`:
      the URL parsed, the one header, and the body as `parse_data` reads it.
      The conditions keep the flags where they stand: no space or quote in
      `cmd` or `url`, no `-` in `cmd`, no quote in the header or body text, no
      `-H ` inside the header text and no `--data-raw ` ending it, and no
      `: ` inside the key. */
  lemma PostCommand(unquote: string -> string, curl: string, cmd: string, url: string,
                    key: string, value: string, body: string)
    requires curl == cmd + " " + ("'" + url + "'") + " " + ("-H '" + (key + ": " + value) + "'")
      + " " + ("--data-raw '" + body + "'")
    requires ' ' !in cmd && '-' !in cmd && '\'' !in cmd
    requires ' ' !in url && '\'' !in url
    requires '\'' !in key + ": " + value && !Contains(key + ": " + value, "-H ")
    requires !EndsWith(key + ": " + value, "--data-raw ") && !Contains(key, ": ")
    requires '\'' !in body
    ensures Uncurl(unquote, curl) == Ok(Request(ParseUrl(unquote, url).baseUrl,
      ParseUrl(unquote, url).params, [(key, value)], Some(RawBody(BodyText(body)))))
  {
    var a := cmd + " " + ("'" + url + "'");
    var hv := key + ": " + value;
    var frag := "-H '" + hv + "'";
    var data := "--data-raw '" + body + "'";
    Regroup(a, frag, data);
    NoDataBefore(cmd, url, hv);
    OnlyDataFragment(curl, a + " " + frag + " ", body);
    NoHeaderInUrlPart(cmd, url);
    NoHeaderInData(" " + data, body);
    CommandHeader(curl, a + " ", key, value, " " + data);
    CommandUrl(unquote, curl, cmd, url, " " + frag + " " + data);
  }

  // `curl 'https://x.com/a?b=1' -H 'Accept: */*' --data-raw '{"x":1}'`.
  lemma PostExample(curl: string, cmd: string, base: string, k: string, v: string,
                    key: string, value: string, body: string)
    requires curl == cmd + " " + ("'" + (base + "?" + (k + "=" + v)) + "'") + " "
      + ("-H '" + (key + ": " + value) + "'") + " " + ("--data-raw '" + body + "'")
    requires cmd == "curl" && base == "https://x.com/a" && k == "b" && v == "1"
    requires key == "Accept" && value == "*/*" && body == "{\"x\":1}"
    ensures Uncurl(Verbatim, curl) == Ok(Request(base, [(k, v)], [(key, value)], Some(RawBody(body))))
  {
    var url := base + "?" + (k + "=" + v);
    PostExamplePieces(cmd, url, key, value, body);
    GetExampleUrl(base, k, v);
    PostCommand(Verbatim, curl, cmd, url, key, value, body);
  }

  /** The pieces of the POST example meet the conditions of `PostCommand`. */
  lemma PostExamplePieces(cmd: string, url: string, key: string, value: string, body: string)
    requires cmd == "curl" && url == "https://x.com/a" + "?" + ("b" + "=" + "1")
    requires key == "Accept" && value == "*/*" && body == "{\"x\":1}"
    ensures ' ' !in cmd && '-' !in cmd && '\'' !in cmd
    ensures ' ' !in url && '\'' !in url
    ensures '\'' !in key + ": " + value && !Contains(key + ": " + value, "-H ")
    ensures !EndsWith(key + ": " + value, "--data-raw ") && !Contains(key, ": ")
    ensures '\'' !in body && BodyText(body) == body
  {
    AbsentChar(key, ": ", 0);
    assert '-' !in key + ": " + value;
    AbsentChar(key + ": " + value, "-H ", 0);
    NotEndsWith(key + ": " + value, "--data-raw ", 0);
  }

  /** Without the opener anywhere, the scanner can match nowhere. */
  lemma NoOpenerNoMatch(s: string, p: Pattern)
    requires !Contains(s, p.opener)
    ensures NoMatchFrom(s, p, 0)
  {
  }
}
