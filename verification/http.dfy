/** `safeFetch`, `safeJson` and `fetchJson` (src/utils/fetch.ts) as decisions over an abstract
    response, plus the guard every component repeats before it parses a body.
    `JSON.parse` is a parameter that may fail with a syntax error; the network is not modelled. */
module Http {
  import opened Base
  import opened Text

  /** What the model needs of a `Response`: the `ok` flag, the status line, the `content-type` and
      `content-length` headers (absent headers are `None`) and the body text. */
  datatype Response = Response(
    ok: bool,
    status: int,
    statusText: string,
    contentType: Option<string>,
    contentLength: Option<string>,
    body: string)

  /** The outcome of `JSON.parse`: a value, or the `SyntaxError` it throws. */
  datatype ParseResult<+T> = Parsed(value: T) | SyntaxError(message: string)

  const JsonMediaType := "application/json"

  /** Error text taken from a body is cut to this many characters. */
  const ErrorTextLimit := 200

  /** `contentType && contentType.includes('application/json')`. */
  predicate IsJson(contentType: Option<string>) {
    contentType.Some? && Contains(contentType.value, JsonMediaType)
  }

  /** `${contentType}` in a template: a missing header prints as `null`. */
  function ShowHeader(h: Option<string>): string {
    match h
    case None => "null"
    case Some(v) => v
  }

  /** The fallback message of a response that is not ok. */
  function StatusLine(r: Response): string {
    "HTTP " + IntToString(r.status) + ": " + r.statusText
  }

  /** `safeFetch`: an ok response passes through; any other becomes an error whose message is the
      body's JSON `error` field, else the first 200 characters of a non-JSON body, else the status
      line. `errorField(body)` stands for `(await response.json()).error` as a message: `None` when
      parsing throws or the field is missing; an empty message is falsy and falls back too. */
  function SafeFetch(r: Response, errorField: string -> Option<string>): (res: Result<Response, string>)
    ensures res.Success? <==> r.ok
    ensures r.ok ==> res.value == r
    ensures !r.ok && IsJson(r.contentType) ==>
      res.error == (match errorField(r.body) case Some(e) => if e != "" then e else StatusLine(r)
                                              case None => StatusLine(r))
    ensures !r.ok && !IsJson(r.contentType) && r.body != "" ==>
      |res.error| <= ErrorTextLimit && StartsWith(r.body, res.error)
      && |res.error| == if |r.body| < ErrorTextLimit then |r.body| else ErrorTextLimit
    ensures !r.ok && !IsJson(r.contentType) && r.body == "" ==> res.error == StatusLine(r)
  {
    if r.ok then Success(r)
    else if IsJson(r.contentType) then
      match errorField(r.body)
      case Some(e) => if e != "" then Failure(e) else Failure(StatusLine(r))
      case None => Failure(StatusLine(r))
    else if r.body != "" then Failure(Take(r.body, ErrorTextLimit))
    else Failure(StatusLine(r))
  }

  const NotJsonPrefix := "Expected JSON but got "
  const EmptyMessage := "Response is empty"
  const EmptyBodyMessage := "Response body is empty"
  const InvalidJsonPrefix := "Invalid JSON response: "

  /** The checks `safeJson` makes before it parses, in order. */
  predicate PassesJsonChecks(r: Response) {
    IsJson(r.contentType) && r.contentLength != Some("0") && !AllWhitespace(r.body)
  }

  /** `safeJson`: the parsed body of a response that declares JSON, does not declare a zero length
      and has a non-blank body; otherwise the error of the first check that fails. */
  function SafeJson<T>(r: Response, parse: string -> ParseResult<T>): (res: Result<T, string>)
    ensures res.Success? <==> PassesJsonChecks(r) && parse(r.body).Parsed?
    ensures res.Success? ==> res.value == parse(r.body).value
    ensures !IsJson(r.contentType) ==>
      res == Failure(NotJsonPrefix + ShowHeader(r.contentType) + ". Response: " + Take(r.body, ErrorTextLimit))
    ensures IsJson(r.contentType) && r.contentLength == Some("0") ==> res == Failure(EmptyMessage)
    ensures IsJson(r.contentType) && r.contentLength != Some("0") && AllWhitespace(r.body) ==>
      res == Failure(EmptyBodyMessage)
    ensures PassesJsonChecks(r) && parse(r.body).SyntaxError? ==>
      res == Failure(InvalidJsonPrefix + parse(r.body).message)
  {
    if !IsJson(r.contentType) then
      Failure(NotJsonPrefix + ShowHeader(r.contentType) + ". Response: " + Take(r.body, ErrorTextLimit))
    else if r.contentLength == Some("0") then Failure(EmptyMessage)
    else if (BlankIffAllWhitespace(r.body); Trim(r.body) == "") then Failure(EmptyBodyMessage)
    else match parse(r.body)
      case Parsed(v) => Success(v)
      case SyntaxError(m) => Failure(InvalidJsonPrefix + m)
  }

  /** `fetchJson`: `safeJson` applied to what `safeFetch` lets through. */
  function FetchJson<T>(r: Response, errorField: string -> Option<string>, parse: string -> ParseResult<T>)
    : (res: Result<T, string>)
    ensures res.Success? ==> r.ok && PassesJsonChecks(r) && parse(r.body) == Parsed(res.value)
    ensures !r.ok ==> res == Failure(SafeFetch(r, errorField).error)
    ensures r.ok ==> res == SafeJson(r, parse)
  {
    match SafeFetch(r, errorField)
    case Failure(e) => Failure(e)
    case Success(ok) => SafeJson(ok, parse)
  }

  /** Only ok responses reach `JSON.parse`: on any other, the outcome of `fetchJson` does not
      depend on the parser at all. */
  lemma NotOkNeverParsed<T>(r: Response, errorField: string -> Option<string>,
                            p1: string -> ParseResult<T>, p2: string -> ParseResult<T>)
    requires !r.ok
    ensures FetchJson(r, errorField, p1) == FetchJson(r, errorField, p2)
  {
  }

  /** Where a `safeFetch` error comes from: it is never empty, and it is the status line, the
      body's `error` field, or a prefix of at most 200 characters of the body. The prefix is the
      error exactly when the body is not JSON and not empty. */
  lemma SafeFetchErrorOrigin(r: Response, errorField: string -> Option<string>)
    requires !r.ok
    ensures var e := SafeFetch(r, errorField).error;
      && e != ""
      && (e == StatusLine(r) || errorField(r.body) == Some(e)
          || (StartsWith(r.body, e) && |e| <= ErrorTextLimit))
    ensures !IsJson(r.contentType) && r.body != "" ==>
      StartsWith(r.body, SafeFetch(r, errorField).error)
  {
    assert StatusLine(r)[0] == 'H';
  }

  /** The guard the components repeat inline before `JSON.parse`: an ok response, a JSON content
      type and a non-blank body. It yields the body text to parse. */
  function JsonBodyText(r: Response): (t: Option<string>)
    ensures t.Some? <==> r.ok && IsJson(r.contentType) && !AllWhitespace(r.body)
    ensures t.Some? ==> t.value == r.body
  {
    BlankIffAllWhitespace(r.body);
    if r.ok && IsJson(r.contentType) && Trim(r.body) != "" then Some(r.body) else None
  }

  /** The inline guard and `safeJson` agree on an ok response that does not declare a zero length:
      `safeJson` yields a value exactly when the guard passes and the body parses, and then it is
      the parse of the text the guard yields. */
  lemma SafeJsonAgreesWithGuard<T>(r: Response, parse: string -> ParseResult<T>)
    requires r.ok && r.contentLength != Some("0")
    ensures SafeJson(r, parse).Success? <==> JsonBodyText(r).Some? && parse(r.body).Parsed?
    ensures SafeJson(r, parse).Success? ==> parse(JsonBodyText(r).value) == Parsed(SafeJson(r, parse).value)
  {
  }
}
