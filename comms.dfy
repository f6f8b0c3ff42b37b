/**
 * The pure helpers of the dashboard's fetch wrapper: default-header merging,
 * classification of a fetch response, and the two JSON-Patch bodies (RFC 6902)
 * used to edit a service account's secrets.
 */
module Comms {
  import opened Wrappers
  import Strings

  /** HTTP header names to values. */
  type Headers = map<string, string>

  /** A JSON document. */
  datatype Json =
    | JNull
    | JBool(b: bool)
    | JNumber(n: int)
    | JString(s: string)
    | JArray(items: seq<Json>)
    | JObject(fields: map<string, Json>)

  const ContentType := "Content-Type"
  const DefaultHeaders: Headers := map[ContentType := "application/json"]
  const PatchDefaultHeaders: Headers := map[ContentType := "application/json-patch+json"]

  /** Every entry of `sub` is in `m` with the same value (Jest's `toMatchObject` on flat objects). */
  predicate MatchesObject(m: Headers, sub: Headers)
  {
    forall k :: k in sub ==> k in m && m[k] == sub[k]
  }

  /**
   * The default headers merged with the caller's. Which side wins on a shared
   * key is not pinned down; the body lets the caller's value win.
   */
  function MergeHeaders(defaults: Headers, custom: Option<Headers>): (r: Headers)
    ensures r.Keys == defaults.Keys + custom.GetOr(map[]).Keys
    ensures custom.None? ==> r == defaults
    ensures custom.Some? && custom.value.Keys !! defaults.Keys ==>
      MatchesObject(r, custom.value) && MatchesObject(r, defaults)
  {
    defaults + custom.GetOr(map[])
  }

  /** `getHeaders(custom)`: JSON content type plus the caller's headers. */
  function GetHeaders(custom: Option<Headers>): (r: Headers)
    ensures ContentType in r
    ensures custom.None? ==> r == DefaultHeaders
    ensures custom.Some? && ContentType !in custom.value ==>
      MatchesObject(r, custom.value) && MatchesObject(r, DefaultHeaders)
  {
    MergeHeaders(DefaultHeaders, custom)
  }

  /** `getPatchHeaders(custom)`: JSON-Patch content type plus the caller's headers. */
  function GetPatchHeaders(custom: Option<Headers>): (r: Headers)
    ensures ContentType in r
    ensures custom.None? ==> r == PatchDefaultHeaders
    ensures custom.Some? && ContentType !in custom.value ==>
      MatchesObject(r, custom.value) && MatchesObject(r, PatchDefaultHeaders)
  {
    MergeHeaders(PatchDefaultHeaders, custom)
  }

  /**
   * What `checkStatus` sees of a fetch response. `json` is what `json()`
   * yields (`None` when the body is not valid JSON), `text` what `text()`
   * yields.
   */
  datatype Response = Response(ok: bool, status: int, headers: Headers, json: Option<Json>, text: string)

  /** What `checkStatus` returns on success. */
  datatype Body =
    | CreatedHeaders(headers: Headers)
    | JsonBody(value: Json)
    | TextBody(text: string)

  /** `HTTPError` carries the failed response, or `None` when there was none; a parse failure propagates. */
  datatype CommsError = HttpError(response: Option<Response>) | ParseError(failed: Response)

  const Created := 201

  /** The response declares a JSON body. */
  predicate IsJson(headers: Headers)
  {
    ContentType in headers && Strings.Contains(headers[ContentType], "application/json")
  }

  /**
   * `checkStatus(response)`: a created resource answers with its headers,
   * other successes with the body parsed per content type, and everything
   * else fails with `HTTPError`.
   */
  function CheckStatus(response: Option<Response>): (r: Result<Body, CommsError>)
    ensures r.Err? && r.error.HttpError? <==> response.None? || !response.value.ok
    ensures r.Err? && r.error.HttpError? ==> r.error.response == response
    ensures response.Some? && response.value.ok && response.value.status == Created ==>
      r == Ok(CreatedHeaders(response.value.headers))
    ensures response.Some? && response.value.ok && response.value.status != Created ==>
      var resp := response.value;
      (IsJson(resp.headers) && resp.json.Some? ==> r == Ok(JsonBody(resp.json.value))) &&
      (IsJson(resp.headers) && resp.json.None? ==> r == Err(ParseError(resp))) &&
      (!IsJson(resp.headers) ==> r == Ok(TextBody(resp.text)))
  {
    match response
    case None => Err(HttpError(None))
    case Some(resp) =>
      if resp.ok && resp.status == Created then Ok(CreatedHeaders(resp.headers))
      else if resp.ok then
        if IsJson(resp.headers) then
          match resp.json
          case Some(j) => Ok(JsonBody(j))
          case None => Err(ParseError(resp))
        else Ok(TextBody(resp.text))
      else Err(HttpError(response))
  }

  /** A 201 answer depends on the headers alone, never on the body or its content type. */
  lemma CreatedIgnoresBody(a: Response, b: Response)
    requires a.ok && b.ok && a.status == Created && b.status == Created && a.headers == b.headers
    ensures CheckStatus(Some(a)) == CheckStatus(Some(b))
  {
  }

  /** One RFC 6902 operation. */
  datatype PatchOperation = PatchOperation(op: string, path: string, value: Json)

  /** The secrets list of the service account, written without RFC 6901's leading "/". */
  const SecretsPath := "serviceaccount/secrets"

  /** `generateBodyForSecretPatching(secretName)`: append `{name: secretName}` to the secrets list. */
  function GenerateBodyForSecretPatching(secretName: string): (body: seq<PatchOperation>)
    ensures |body| == 1 && body[0].op == "add"
    ensures body[0].path == Strings.Join(["serviceaccount", "secrets", "-"], '/')
    ensures body[0].path[0] != '/'
    ensures body[0].value == JObject(map["name" := JString(secretName)])
  {
    [PatchOperation("add", SecretsPath + "/-", JObject(map["name" := JString(secretName)]))]
  }

  /** `generateBodyForSecretReplacing(remainingSecrets)`: overwrite the secrets list with the value as given. */
  function GenerateBodyForSecretReplacing(remainingSecrets: Json): (body: seq<PatchOperation>)
    ensures |body| == 1 && body[0].op == "replace"
    ensures body[0].path == Strings.Join(["serviceaccount", "secrets"], '/')
    ensures body[0].path[0] != '/'
    ensures body[0].value == remainingSecrets
  {
    [PatchOperation("replace", SecretsPath, remainingSecrets)]
  }

  /** The add operation appends to exactly the list the replace operation overwrites. */
  lemma PatchAppendsToReplacedList(secretName: string, remainingSecrets: Json)
    ensures GenerateBodyForSecretPatching(secretName)[0].path
         == GenerateBodyForSecretReplacing(remainingSecrets)[0].path + "/-"
  {
  }
}
