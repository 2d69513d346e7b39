/** `SteamRequestSender`: builds the two Steam requests, masks the API key before
    a request URI is logged, accepts a response only with status 200 and a body,
    and reads a detail response into the game's categories, with the fallback to
    {MULTIPLAYER} when Steam reports no details. The HTTP exchange and the JSON
    parsing are inputs: a response is given with its status, its body already
    parsed (or marked malformed). */
module SteamRequestSender {
  import opened JavaLang
  import opened JavaStrings
  import opened GameCategories
  import SggcModels

  const SteamApiKeyMask: string := "*************"
  const SteamKeyQueryParamKey: string := "key"
  const SteamAppIdsQueryParamKey: string := "appids"
  const GetAppDetailsEndpoint: string := "/api/appdetails/"
  const GetAppListEndpoint: string := "/ISteamApps/GetAppList/v2/"
  const HttpStatusOk: int := 200

  // ---------------------------------------------------------------------------
  // Masking the API key

  /** Where `maskSteamApiKey` cuts: from 4 characters past the first "key" (the
      length of "key=") up to the first '&' found from that "key" on. */
  datatype Cut = NoKey | Cut(keyIndex: nat, end: int)

  function FindCut(uri: string): (c: Cut)
    ensures c.NoKey? <==> !Contains(uri, SteamKeyQueryParamKey)
    ensures c.Cut? ==> c.keyIndex < |uri| && IsAt(uri, SteamKeyQueryParamKey, c.keyIndex)
    ensures c.Cut? ==> forall j :: 0 <= j < c.keyIndex ==> !IsAt(uri, SteamKeyQueryParamKey, j)
    ensures c.Cut? ==> c.end >= -1
    ensures c.Cut? && c.end >= 0 ==> c.keyIndex + c.end < |uri| && uri[c.keyIndex + c.end] == '&'
    ensures c.Cut? ==> forall j :: c.keyIndex <= j < |uri| && (c.end == -1 || j < c.keyIndex + c.end) ==> uri[j] != '&'
  {
    var keyIndex := IndexOf(uri, SteamKeyQueryParamKey);
    if keyIndex == -1 then NoKey
    else
      NoAmpersandBeforeCut(uri, keyIndex);
      Cut(keyIndex, IndexOf(uri[keyIndex..], "&"))
  }

  /** The first '&' of the text from index `k` on, as an offset from `k`: a
      nonnegative offset points at a '&', and up to it (or to the end of the URI
      when there is none) the URI holds no '&'. */
  lemma NoAmpersandBeforeCut(uri: string, k: nat)
    requires k <= |uri|
    ensures var end := IndexOf(uri[k..], "&");
            && end >= -1
            && (end >= 0 ==> k + end < |uri| && uri[k + end] == '&')
            && forall j :: k <= j < |uri| && (end == -1 || j < k + end) ==> uri[j] != '&'
  {
    var tail := uri[k..];
    var end := IndexOf(tail, "&");
    if end >= 0 {
      assert tail[end..end + 1] == [uri[k + end]];
    }
    forall j | k <= j < |uri| && (end == -1 || j < k + end) ensures uri[j] != '&' {
      assert tail[j - k..j - k + 1] == [uri[j]];
      assert !IsAt(tail, "&", j - k);
    }
  }

  /** `substring(4, end)` succeeds only when 4 <= end; the value it yields. */
  function CutValue(uri: string, c: Cut): string
    requires c == FindCut(uri) && c.Cut? && c.end >= 4
  {
    uri[c.keyIndex..][4..c.end]
  }

  /** `replaceAll` reads the value as a regular expression; this model covers the
      values that hold no metacharacter, where it matches literally. */
  predicate MaskedValueIsLiteral(uri: string) {
    var c := FindCut(uri);
    c.Cut? && c.end >= 4 ==> IsLiteralPattern(CutValue(uri, c))
  }

  /** `maskSteamApiKey`, as written. */
  function MaskSteamApiKey(requestUri: string): (r: Try<string>)
    requires MaskedValueIsLiteral(requestUri)
    ensures !Contains(requestUri, SteamKeyQueryParamKey) ==> r == Ok(requestUri)
    ensures r.Threw? ==> r.exception == StringIndexOutOfBoundsException
    ensures r.Threw? <==> FindCut(requestUri).Cut? && FindCut(requestUri).end < 4
  {
    var c := FindCut(requestUri);
    if c.NoKey? then Ok(requestUri)
    else if c.end < |SteamKeyQueryParamKey + "="| then Threw(StringIndexOutOfBoundsException)
    else Ok(ReplaceAll(requestUri, CutValue(requestUri, c), SteamApiKeyMask))
  }

  /** `maskSteamApiKey` as evidently intended: when no '&' follows the key, its
      value runs to the end of the URI instead of `substring` throwing. */
  function MaskSteamApiKeyFixed(requestUri: string): (r: Try<string>)
    requires MaskedValueIsLiteral(requestUri) && LastValueIsLiteral(requestUri)
    ensures !Contains(requestUri, SteamKeyQueryParamKey) ==> r == Ok(requestUri)
    ensures FindCut(requestUri).Cut? && FindCut(requestUri).end == -1 ==> r.Ok?
  {
    var c := FindCut(requestUri);
    if c.NoKey? then Ok(requestUri)
    else if c.end == -1 then
      Ok(ReplaceAll(requestUri, requestUri[c.keyIndex..][Min(4, |requestUri| - c.keyIndex)..], SteamApiKeyMask))
    else MaskSteamApiKey(requestUri)
  }

  function Min(a: int, b: int): int {
    if a < b then a else b
  }

  /** The literal-pattern condition for the value the fixed masking cuts to the end. */
  predicate LastValueIsLiteral(uri: string) {
    var c := FindCut(uri);
    c.Cut? && c.end == -1 ==> IsLiteralPattern(uri[c.keyIndex..][Min(4, |uri| - c.keyIndex)..])
  }

  /** A nonempty key value is gone from the masked URI, since the mask's '*' is a
      metacharacter and so never part of a literal value. */
  lemma MaskedValueDisappears(uri: string, value: string)
    requires IsLiteralPattern(value) && |value| > 0
    ensures !Occurs(value, ReplaceAll(uri, value, SteamApiKeyMask))
  {
    assert '*' in RegexMetacharacters;
    ReplaceLiteralRemovesPattern(uri, value, SteamApiKeyMask);
  }

  /** `sanitizeRequestUri`: masks only when the URI contains "key". */
  function SanitizeRequestUri(requestUri: string): (r: Try<string>)
    requires MaskedValueIsLiteral(requestUri)
    ensures !Contains(requestUri, SteamKeyQueryParamKey) ==> r == Ok(requestUri)
    ensures Contains(requestUri, SteamKeyQueryParamKey) ==> r == MaskSteamApiKey(requestUri)
  {
    if Contains(requestUri, SteamKeyQueryParamKey) then MaskSteamApiKey(requestUri) else Ok(requestUri)
  }

  /** `sanitizeRequestUri` over the fixed masking. */
  function SanitizeRequestUriFixed(requestUri: string): (r: Try<string>)
    requires MaskedValueIsLiteral(requestUri) && LastValueIsLiteral(requestUri)
    ensures !Contains(requestUri, SteamKeyQueryParamKey) ==> r == Ok(requestUri)
    ensures Contains(requestUri, SteamKeyQueryParamKey) ==> r == MaskSteamApiKeyFixed(requestUri)
  {
    if Contains(requestUri, SteamKeyQueryParamKey) then MaskSteamApiKeyFixed(requestUri) else Ok(requestUri)
  }

  // ---------------------------------------------------------------------------
  // Request URIs

  /** `steamApiRequest(GET_APP_LIST_ENDPOINT).build()`: the address, the endpoint
      and the one query parameter `key`. The key is taken as URIBuilder emits it,
      already percent-encoded, so it never holds '&'. */
  function AppListUri(steamApiAddress: string, apiKey: string): string {
    steamApiAddress + GetAppListEndpoint + "?" + SteamKeyQueryParamKey + "=" + apiKey
  }

  /** When the prefix holds no "key" and the rest starts with it, the first "key"
      is at the boundary: a window across the boundary would put the rest's
      leading 'k' where "key" has an 'e' or a 'y'. */
  lemma FirstKeyAtBoundary(prefix: string, rest: string)
    requires !Contains(prefix, SteamKeyQueryParamKey)
    requires |rest| >= 3 && rest[..3] == SteamKeyQueryParamKey
    ensures IndexOf(prefix + rest, SteamKeyQueryParamKey) == |prefix|
  {
    var uri := prefix + rest;
    assert IsAt(uri, "key", |prefix|) by { assert uri[|prefix|..|prefix| + 3] == rest[..3]; }
    forall j | 0 <= j < |prefix| ensures !IsAt(uri, "key", j) {
      if j + 3 <= |prefix| {
        assert uri[j..j + 3] == prefix[j..j + 3];
        assert !IsAt(prefix, "key", j);
      } else if j == |prefix| - 1 {
        assert uri[j + 1] == 'k';
        assert uri[j..j + 3][1] == 'k';
      } else {
        assert uri[j + 2] == 'k';
        assert uri[j..j + 3][2] == 'k';
      }
    }
  }

  /** An address without "key" followed by a text with no 'k' that does not
      start with 'e' or 'y' holds no "key" either. */
  lemma NoKeyAfterAppending(address: string, e: string)
    requires !Contains(address, SteamKeyQueryParamKey)
    requires 'k' !in e && |e| > 0 && e[0] != 'e' && e[0] != 'y'
    ensures !Contains(address + e, SteamKeyQueryParamKey)
  {
    var s := address + e;
    forall j | 0 <= j ensures !IsAt(s, "key", j) {
      if j + 3 <= |s| {
        if j + 3 <= |address| {
          assert s[j..j + 3] == address[j..j + 3];
          assert !IsAt(address, "key", j);
        } else if j == |address| - 1 {
          assert s[j + 1] == e[0];
          assert s[j..j + 3][1] == s[j + 1];
        } else if j == |address| - 2 {
          assert s[j + 2] == e[0];
          assert s[j..j + 3][2] == s[j + 2];
        } else {
          assert s[j] == e[j - |address|];
          assert s[j..j + 3][0] == s[j];
        }
      }
    }
  }

  /** The first '&' of a text is at `n` when none comes before it. */
  lemma FirstAmpersand(s: string, n: nat)
    requires n <= |s| && forall j :: 0 <= j < n ==> s[j] != '&'
    requires n < |s| ==> s[n] == '&'
    ensures IndexOf(s, "&") == if n < |s| then n else -1
  {
    forall j | 0 <= j < n ensures !IsAt(s, "&", j) {
      assert s[j..j + 1] == [s[j]];
    }
    if n < |s| {
      assert IsAt(s, "&", n) by { assert s[n..n + 1] == [s[n]]; }
    }
  }

  /** The list URI's first "key" is the query parameter's name when the address
      does not contain "key", and no '&' follows it. */
  lemma AppListUriCut(steamApiAddress: string, apiKey: string)
    requires !Contains(steamApiAddress, SteamKeyQueryParamKey)
    requires '&' !in apiKey
    ensures var uri := AppListUri(steamApiAddress, apiKey);
            FindCut(uri) == Cut(|steamApiAddress + GetAppListEndpoint + "?"|, -1)
  {
    var uri := AppListUri(steamApiAddress, apiKey);
    var e := GetAppListEndpoint + "?";
    assert 'k' !in e;
    NoKeyAfterAppending(steamApiAddress, e);
    var p := steamApiAddress + e;
    assert uri == p + ("key=" + apiKey);
    FirstKeyAtBoundary(p, "key=" + apiKey);
    var tail := uri[|p|..];
    assert tail == "key=" + apiKey;
    forall j | 0 <= j < |tail| ensures tail[j] != '&' {
      if j >= 4 { assert tail[j] == apiKey[j - 4]; }
    }
    FirstAmpersand(tail, |tail|);
  }

  /** What the source does to every list URI: no '&' follows the key, which is the
      last parameter, so `maskSteamApiKey` throws (as written). */
  lemma AppListUriMaskingThrows(steamApiAddress: string, apiKey: string)
    requires !Contains(steamApiAddress, SteamKeyQueryParamKey)
    requires '&' !in apiKey
    ensures MaskedValueIsLiteral(AppListUri(steamApiAddress, apiKey))
    ensures SanitizeRequestUri(AppListUri(steamApiAddress, apiKey)) == Threw(StringIndexOutOfBoundsException)
  {
    AppListUriCut(steamApiAddress, apiKey);
  }

  /** With the fix, sanitizing a list URI succeeds and a nonempty key no longer
      appears in what is logged. */
  lemma AppListUriMaskingFixed(steamApiAddress: string, apiKey: string)
    requires !Contains(steamApiAddress, SteamKeyQueryParamKey)
    requires '&' !in apiKey && IsLiteralPattern(apiKey)
    ensures MaskedValueIsLiteral(AppListUri(steamApiAddress, apiKey))
    ensures LastValueIsLiteral(AppListUri(steamApiAddress, apiKey))
    ensures SanitizeRequestUriFixed(AppListUri(steamApiAddress, apiKey)).Ok?
    ensures apiKey != [] ==> !Occurs(apiKey, SanitizeRequestUriFixed(AppListUri(steamApiAddress, apiKey)).value)
  {
    var uri := AppListUri(steamApiAddress, apiKey);
    AppListUriCut(steamApiAddress, apiKey);
    var p := |steamApiAddress + GetAppListEndpoint + "?"|;
    assert uri[p..][4..] == apiKey;
    if apiKey != [] {
      MaskedValueDisappears(uri, apiKey);
    }
  }

  /** A key followed by another parameter is masked: the call succeeds and a
      nonempty value no longer appears anywhere in the result. */
  lemma KeyBeforeAmpersandIsMasked(prefix: string, value: string, rest: string)
    requires !Contains(prefix, SteamKeyQueryParamKey)
    requires '&' !in value && IsLiteralPattern(value) && |value| > 0
    ensures var uri := prefix + "key=" + value + "&" + rest;
            MaskedValueIsLiteral(uri) && MaskSteamApiKey(uri).Ok? &&
            !Occurs(value, MaskSteamApiKey(uri).value) && Occurs(SteamApiKeyMask, MaskSteamApiKey(uri).value)
  {
    var uri := prefix + "key=" + value + "&" + rest;
    MaskIsLiteralReplace(prefix, value, rest);
    MaskedValueDisappears(uri, value);
    assert IsAt(uri, value, |prefix| + 4) by {
      OneValueLayout(prefix, value, rest);
      PatternAfterPrefix(prefix + "key=", value, "&" + rest);
    }
    MaskOccursAfterReplace(uri, value);
  }

  /** When the key value occurs in the URI only where the key parameter holds it,
      masking rewrites exactly that value and leaves the rest of the URI,
      unrelated parameters included, as it was. */
  lemma KeyOnlyValueIsMaskedInPlace(prefix: string, value: string, rest: string)
    requires !Contains(prefix, SteamKeyQueryParamKey)
    requires '&' !in value && IsLiteralPattern(value) && |value| > 0
    requires forall i :: IsAt(prefix + "key=" + value + "&" + rest, value, i) ==> i == |prefix| + 4
    ensures var uri := prefix + "key=" + value + "&" + rest;
            MaskedValueIsLiteral(uri) && MaskSteamApiKey(uri) == Ok(prefix + "key=" + SteamApiKeyMask + "&" + rest)
  {
    MaskIsLiteralReplace(prefix, value, rest);
    OneValueLayout(prefix, value, rest);
    ReplaceOnlyOccurrence(prefix + "key=", value, "&" + rest, SteamApiKeyMask);
    OneValueLayout(prefix, SteamApiKeyMask, rest);
  }

  /** How a URI `<prefix>key=<v>&<rest>` splits around the key value. */
  lemma OneValueLayout(prefix: string, v: string, rest: string)
    ensures prefix + "key=" + v + "&" + rest == (prefix + "key=") + v + ("&" + rest)
  {
  }

  /** `replaceAll` rewrites every occurrence of the key value, wherever it is:
      a last parameter that happens to hold the same text as the key is masked
      too (`key=1&other=1` is logged with both values masked). */
  lemma RepeatedValueIsMaskedTwice(prefix: string, value: string, name: string)
    requires !Contains(prefix, SteamKeyQueryParamKey)
    requires '&' !in value && IsLiteralPattern(value) && |value| > 0
    requires var uri := prefix + "key=" + value + "&" + name + "=" + value;
             forall i :: IsAt(uri, value, i) ==> i == |prefix| + 4 || i == |uri| - |value|
    ensures var uri := prefix + "key=" + value + "&" + name + "=" + value;
            MaskedValueIsLiteral(uri)
            && MaskSteamApiKey(uri) == Ok(prefix + "key=" + SteamApiKeyMask + "&" + name + "=" + SteamApiKeyMask)
  {
    MaskIsLiteralReplace(prefix, value, name + "=" + value);
    TwoValueLayout(prefix, value, name);
    ReplaceTwoOccurrences(prefix + "key=", value, "&" + name + "=", SteamApiKeyMask);
    TwoValueLayout(prefix, SteamApiKeyMask, name);
  }

  /** With the key followed by another parameter, masking is the literal
      replacement of the key value throughout the URI. */
  lemma MaskIsLiteralReplace(prefix: string, value: string, rest: string)
    requires !Contains(prefix, SteamKeyQueryParamKey)
    requires '&' !in value && IsLiteralPattern(value) && |value| > 0
    ensures var uri := prefix + "key=" + value + "&" + rest;
            MaskedValueIsLiteral(uri) && MaskSteamApiKey(uri) == Ok(ReplaceLiteral(uri, value, SteamApiKeyMask))
  {
    KeyBeforeAmpersandCut(prefix, value, rest);
  }

  /** How a URI ending in `key=<v>&<name>=<v>` splits around its two values. */
  lemma TwoValueLayout(prefix: string, v: string, name: string)
    ensures prefix + "key=" + v + "&" + name + "=" + v == (prefix + "key=") + v + (("&" + name + "=") + v)
    ensures prefix + "key=" + v + "&" + name + "=" + v == prefix + "key=" + v + "&" + (name + "=" + v)
  {
  }

  /** Where the cut falls in a URI with a parameter after the key. */
  lemma KeyBeforeAmpersandCut(prefix: string, value: string, rest: string)
    requires !Contains(prefix, SteamKeyQueryParamKey)
    requires '&' !in value
    ensures var uri := prefix + "key=" + value + "&" + rest;
            FindCut(uri) == Cut(|prefix|, 4 + |value|) && CutValue(uri, FindCut(uri)) == value
  {
    var uri := prefix + "key=" + value + "&" + rest;
    var tail := "key=" + value + "&" + rest;
    KeyParameterText(value, rest);
    assert uri == prefix + tail;
    FirstKeyAtBoundary(prefix, tail);
    assert uri[|prefix|..] == tail;
  }

  /** The text from "key" on: it starts with "key", its first '&' ends the value,
      and the value sits right after "key=". */
  lemma KeyParameterText(value: string, rest: string)
    requires '&' !in value
    ensures var tail := "key=" + value + "&" + rest;
            && |tail| >= 3 && tail[..3] == SteamKeyQueryParamKey
            && IndexOf(tail, "&") == 4 + |value|
            && tail[4..4 + |value|] == value
  {
    var tail := "key=" + value + "&" + rest;
    forall j | 0 <= j < 4 + |value| ensures tail[j] != '&' {
      if j >= 4 { assert tail[j] == value[j - 4]; }
    }
    FirstAmpersand(tail, 4 + |value|);
    assert tail[4..4 + |value|] == value;
  }

  /** An empty key value (`key=&...`) makes `replaceAll("")` put the mask before
      every character and at the end of the URI. */
  lemma EmptyKeyValueSpreadsMask(prefix: string, rest: string)
    requires !Contains(prefix, SteamKeyQueryParamKey)
    ensures var uri := prefix + "key=" + "" + "&" + rest;
            MaskedValueIsLiteral(uri) && MaskSteamApiKey(uri) == Ok(ReplaceEmpty(uri, SteamApiKeyMask))
    ensures var v := ReplaceEmpty(prefix + "key=" + "" + "&" + rest, SteamApiKeyMask);
            |v| >= |SteamApiKeyMask| && v[..|SteamApiKeyMask|] == SteamApiKeyMask
    ensures var uri := prefix + "key=" + "" + "&" + rest;
            |ReplaceEmpty(uri, SteamApiKeyMask)| == |uri| + (|uri| + 1) * |SteamApiKeyMask|
  {
    var uri := prefix + "key=" + "" + "&" + rest;
    KeyBeforeAmpersandCut(prefix, "", rest);
    ReplaceEmptyLength(uri, SteamApiKeyMask);
    ReplaceEmptyEnds(uri, SteamApiKeyMask);
  }

  /** Replacing an occurring literal value leaves at least one mask behind. */
  lemma {:induction false} MaskOccursAfterReplace(s: string, value: string)
    requires |value| > 0 && Occurs(value, s)
    ensures Occurs(SteamApiKeyMask, ReplaceLiteral(s, value, SteamApiKeyMask))
    decreases |s|
  {
    var r := ReplaceLiteral(s, value, SteamApiKeyMask);
    if s[..|value|] == value {
      assert IsAt(r, SteamApiKeyMask, 0) by { assert r[..13] == SteamApiKeyMask; }
    } else {
      var i :| IsAt(s, value, i);
      assert i != 0;
      assert IsAt(s[1..], value, i - 1) by { assert s[1..][i - 1..i - 1 + |value|] == s[i..i + |value|]; }
      MaskOccursAfterReplace(s[1..], value);
      var tail := ReplaceLiteral(s[1..], value, SteamApiKeyMask);
      var j :| IsAt(tail, SteamApiKeyMask, j);
      assert r == [s[0]] + tail;
      assert IsAt(r, SteamApiKeyMask, j + 1) by { assert r[j + 1..j + 14] == tail[j..j + 13]; }
    }
  }

  // ---------------------------------------------------------------------------
  // Responses

  /** A response as the client sees it: status code and, if present, the body
      already parsed. */
  datatype HttpResponse<B> = HttpResponse(statusCode: int, body: Option<B>)

  /** A body read by the JSON library: well formed with a value, or malformed. */
  datatype Json<T> = Malformed | Parsed(value: T)

  /** The status and body checks both request methods make: a non-200 status is
      rejected first, then a missing body. */
  function AcceptResponse<B>(response: HttpResponse<B>, non200Message: string, noBodyMessage: string): (r: Try<B>)
    ensures r.Ok? <==> response.statusCode == HttpStatusOk && response.body.Some?
    ensures r.Ok? ==> r.value == response.body.value
    ensures response.statusCode != HttpStatusOk ==> r == Threw(ApiException(non200Message))
    ensures response.statusCode == HttpStatusOk && response.body.None? ==> r == Threw(ApiException(noBodyMessage))
  {
    if response.statusCode == HttpStatusOk then
      if response.body.Some? then Ok(response.body.value) else Threw(ApiException(noBodyMessage))
    else Threw(ApiException(non200Message))
  }

  const UriConstructionMessage: string := "Exception encountered when constructing request URI."
  const AppListNon200Message: string := "Get App List request responded with a non-200 status code."
  const AppListNoBodyMessage: string := "Get App List response contained no response body."
  const DetailsNon200Message: string := "Get App Details response contained non-200 status code."
  const DetailsNoBodyMessage: string := "Get App Details response contained no response body."
  const HttpFailureMessage: string := "Exception encountered when executing HTTP request."
  const DetailsParseMessage: string := "Error when parsing response string into JSON object"

  /** `requestAllSteamAppsFromSteamApi`: a failed secret lookup becomes an
      ApiException; the list URI is sanitized for the log (with the fixed masking,
      see `AppListUriMaskingThrows` for the code as written); an IOException from
      sending escapes; a malformed body makes Gson throw; a well-formed body may
      still parse to null. */
  function RequestAllSteamAppsFromSteamApi(
    steamApiAddress: string,
    apiKey: Try<string>,
    exchange: Try<HttpResponse<Json<Option<SggcModels.GetAppListResponse>>>>
  ): (r: Try<Option<SggcModels.GetAppListResponse>>)
    requires apiKey.Ok? ==> MaskedValueIsLiteral(AppListUri(steamApiAddress, apiKey.value))
    requires apiKey.Ok? ==> LastValueIsLiteral(AppListUri(steamApiAddress, apiKey.value))
    ensures apiKey.Threw? ==> r == Threw(ApiException(UriConstructionMessage))
    ensures r.Ok? ==> exchange.Ok? && exchange.value.statusCode == HttpStatusOk
                      && exchange.value.body == Some(Parsed(r.value))
    ensures apiKey.Ok? && SanitizeRequestUriFixed(AppListUri(steamApiAddress, apiKey.value)).Threw?
            ==> r == Threw(SanitizeRequestUriFixed(AppListUri(steamApiAddress, apiKey.value)).exception)
    ensures (apiKey.Ok? && SanitizeRequestUriFixed(AppListUri(steamApiAddress, apiKey.value)).Ok? && exchange.Threw?)
            ==> r == Threw(exchange.exception)
    ensures (apiKey.Ok? && SanitizeRequestUriFixed(AppListUri(steamApiAddress, apiKey.value)).Ok? && exchange.Ok?
             && exchange.value.statusCode != HttpStatusOk) ==> r == Threw(ApiException(AppListNon200Message))
    ensures (apiKey.Ok? && SanitizeRequestUriFixed(AppListUri(steamApiAddress, apiKey.value)).Ok? && exchange.Ok?
             && exchange.value.statusCode == HttpStatusOk && exchange.value.body.None?)
            ==> r == Threw(ApiException(AppListNoBodyMessage))
    ensures (apiKey.Ok? && SanitizeRequestUriFixed(AppListUri(steamApiAddress, apiKey.value)).Ok? && exchange.Ok?
             && exchange.value.statusCode == HttpStatusOk && exchange.value.body == Some(Malformed))
            ==> r == Threw(JsonSyntaxException)
    ensures (apiKey.Ok? && SanitizeRequestUriFixed(AppListUri(steamApiAddress, apiKey.value)).Ok? && exchange.Ok?
             && exchange.value.statusCode == HttpStatusOk && exchange.value.body.Some? && exchange.value.body.value.Parsed?)
            ==> r == Ok(exchange.value.body.value.value)
  {
    if apiKey.Threw? then Threw(ApiException(UriConstructionMessage))
    else
      var requestUri := AppListUri(steamApiAddress, apiKey.value);
      var logged := SanitizeRequestUriFixed(requestUri);
      if logged.Threw? then Threw(logged.exception)
      else if exchange.Threw? then Threw(exchange.exception)
      else
        var body := AcceptResponse(exchange.value, AppListNon200Message, AppListNoBodyMessage);
        if body.Threw? then Threw(body.exception)
        else if body.value.Malformed? then Threw(JsonSyntaxException)
        else Ok(body.value.value)
  }

  /** One entry of the detail response: `success` (null when the field is
      missing) and the `data` object, absent when Steam has no details. */
  datatype AppDetails = AppDetails(success: Option<bool>, data: Option<GameData>)

  /** The detail response's root object: its members in iteration order, keyed
      by app id. */
  datatype AppDetailsResponse = AppDetailsResponse(members: seq<(string, AppDetails)>)

  /** The category set that stands for "could not determine": {MULTIPLAYER}. */
  const MultiplayerFallback: GameData := GameData(Some({GameCategory(Some(Multiplayer))}))

  /** `parseGameDetailsList`: malformed JSON becomes an IOException; the entry
      under the first root key decides: `success` false gives the fallback, true
      gives its `data`. No root key, a missing `success` or a missing `data`
      throw (NoSuchElement, NullPointer, NullPointer). */
  function ParseGameDetailsList(body: Json<AppDetailsResponse>): (r: Try<GameData>)
    ensures body.Malformed? ==> r == Threw(IOException(DetailsParseMessage))
    ensures body.Parsed? && body.value.members != [] && body.value.members[0].1.success == Some(false)
            ==> r == Ok(MultiplayerFallback)
    ensures (body.Parsed? && body.value.members != [] && body.value.members[0].1.success == Some(true)
             && body.value.members[0].1.data.Some?) ==> r == Ok(body.value.members[0].1.data.value)
    ensures body.Parsed? && body.value.members == [] ==> r == Threw(NoSuchElementException(""))
    ensures body.Parsed? && body.value.members != [] && body.value.members[0].1.success.None?
            ==> r == Threw(NullPointerException)
    ensures (body.Parsed? && body.value.members != [] && body.value.members[0].1.success == Some(true)
             && body.value.members[0].1.data.None?) ==> r == Threw(NullPointerException)
    ensures r.Ok? ==> body.Parsed? && body.value.members != [] && body.value.members[0].1.success.Some?
    ensures r.Threw? ==> !r.exception.ApiException?
  {
    if body.Malformed? then Threw(IOException(DetailsParseMessage))
    else if body.value.members == [] then Threw(NoSuchElementException(""))
    else
      var entry := body.value.members[0].1;
      if entry.success.None? then Threw(NullPointerException)
      else if !entry.success.value then Ok(MultiplayerFallback)
      else if entry.data.None? then Threw(NullPointerException)
      else Ok(entry.data.value)
  }

  /** `requestAppDetails`: an IOException while exchanging becomes an
      ApiException, and any other exception escapes as it is; the response must
      be 200 with a body; the body is then parsed. The store URI carries no key,
      so nothing is masked. */
  function RequestAppDetails(appId: string, exchange: Try<HttpResponse<Json<AppDetailsResponse>>>): (r: Try<GameData>)
    ensures exchange.Threw? && exchange.exception.IOException? ==> r == Threw(ApiException(HttpFailureMessage))
    ensures exchange.Threw? && !exchange.exception.IOException? ==> r == Threw(exchange.exception)
    ensures exchange.Ok? && (exchange.value.statusCode != HttpStatusOk || exchange.value.body.None?)
            ==> r.Threw? && r.exception.ApiException?
    ensures exchange.Ok? && exchange.value.statusCode == HttpStatusOk && exchange.value.body.Some?
            ==> r == ParseGameDetailsList(exchange.value.body.value)
  {
    if exchange.Threw? then
      if exchange.exception.IOException? then Threw(ApiException(HttpFailureMessage)) else Threw(exchange.exception)
    else
      var body := AcceptResponse(exchange.value, DetailsNon200Message, DetailsNoBodyMessage);
      if body.Threw? then Threw(body.exception) else ParseGameDetailsList(body.value)
  }
}
