/** The deposit-request detail page (src/components/DepositRequestDetail.tsx): which request id it
    shows, the guard and payload of the approve and reject actions, and the status colours. */
module DepositRequest {
  import opened Base
  import opened Text

  /** The path segment that precedes a request id. */
  const Marker := "/deposit-requests/"

  /** The regular expression `/\/deposit-requests\/(\d+)/` matches at index `i` of `path`: the marker
      starts there and at least one digit follows it. */
  predicate MatchAt(path: string, i: int) {
    0 <= i && i + |Marker| < |path| && path[i..i + |Marker|] == Marker && IsDigit(path[i + |Marker|])
  }

  /** The longest run of digits at the start of `s`. */
  function DigitRun(s: string): (r: string)
    ensures AllDigits(r) && StartsWith(s, r)
    ensures |r| == |s| || !IsDigit(s[|r|])
  {
    if s != [] && IsDigit(s[0]) then [s[0]] + DigitRun(s[1..]) else []
  }

  /** The leftmost index at or after `from` where the expression matches. */
  function FirstMatchFrom(path: string, from: nat): (r: Option<nat>)
    requires from <= |path|
    ensures r.Some? ==> from <= r.value && MatchAt(path, r.value)
    ensures r.Some? ==> forall j :: from <= j < r.value ==> !MatchAt(path, j)
    ensures r.None? ==> forall j :: from <= j ==> !MatchAt(path, j)
    decreases |path| - from
  {
    if from + |Marker| >= |path| then None
    else if MatchAt(path, from) then Some(from)
    else FirstMatchFrom(path, from + 1)
  }

  /** The leftmost index where the expression matches. */
  function FirstMatch(path: string): (r: Option<nat>)
    ensures r.None? <==> forall i :: !MatchAt(path, i)
    ensures r.Some? ==> MatchAt(path, r.value) && forall j :: 0 <= j < r.value ==> !MatchAt(path, j)
  {
    FirstMatchFrom(path, 0)
  }

  /** `path.match(/\/deposit-requests\/(\d+)/)?.[1]`: the whole run of digits after the leftmost
      occurrence of the marker that a digit follows, or `None` when there is none. */
  function IdFromPath(path: string): (r: Option<string>)
    ensures r.None? <==> forall i :: !MatchAt(path, i)
    ensures r.Some? ==>
      && FirstMatch(path).Some?
      && var start := FirstMatch(path).value + |Marker|;
      && 1 <= |r.value| && start + |r.value| <= |path|
      && r.value == path[start..start + |r.value|]
      && AllDigits(r.value)
      && (start + |r.value| == |path| || !IsDigit(path[start + |r.value|]))
  {
    match FirstMatch(path)
    case None => None
    case Some(i) =>
      var start := i + |Marker|;
      var run := DigitRun(path[start..]);
      assert path[start..][0] == path[start];
      assert path[start..][..|run|] == path[start..start + |run|];
      Some(run)
  }

  /** The digit run of `digits + rest` is `digits` when `rest` does not continue it. */
  lemma {:induction false} DigitRunStopsAtNonDigit(digits: string, rest: string)
    requires AllDigits(digits)
    requires rest == [] || !IsDigit(rest[0])
    ensures DigitRun(digits + rest) == digits
    decreases |digits|
  {
    if digits == [] {
      assert digits + rest == rest;
    } else {
      assert (digits + rest)[1..] == digits[1..] + rest;
      DigitRunStopsAtNonDigit(digits[1..], rest);
      assert [digits[0]] + digits[1..] == digits;
    }
  }

  /** Where the marker and the digits sit in `prefix + Marker + digits + rest`. */
  lemma MarkerThenDigits(prefix: string, digits: string, rest: string)
    requires 1 <= |digits| && AllDigits(digits)
    ensures var path, start := prefix + Marker + digits + rest, |prefix| + |Marker|;
      start < |path| && path[|prefix|..start] == Marker && path[start..] == digits + rest
      && MatchAt(path, |prefix|)
  {
    var path, start := prefix + Marker + digits + rest, |prefix| + |Marker|;
    assert path[|prefix|..start] == Marker;
    assert path[start..] == digits + rest;
    assert path[start] == digits[0];
  }

  /** A match with none before it is the leftmost one. */
  lemma FirstMatchIs(path: string, i: nat)
    requires MatchAt(path, i)
    requires forall j :: 0 <= j < i ==> !MatchAt(path, j)
    ensures FirstMatch(path) == Some(i)
  {
  }

  /** The id read after the leftmost match is the digit run that starts right after the marker. */
  lemma IdFromMatch(path: string, i: nat)
    requires FirstMatch(path) == Some(i)
    ensures i + |Marker| < |path|
    ensures IdFromPath(path) == Some(DigitRun(path[i + |Marker|..]))
  {
  }

  /** When the first match of a path is the marker placed after `prefix`, the id is exactly the
      run of digits that follows it. */
  lemma IdAfterMarker(prefix: string, digits: string, rest: string)
    requires 1 <= |digits| && AllDigits(digits)
    requires rest == [] || !IsDigit(rest[0])
    requires forall j :: 0 <= j < |prefix| ==> !MatchAt(prefix + Marker + digits + rest, j)
    ensures IdFromPath(prefix + Marker + digits + rest) == Some(digits)
  {
    var path := prefix + Marker + digits + rest;
    var start := |prefix| + |Marker|;
    MarkerThenDigits(prefix, digits, rest);
    FirstMatchIs(path, |prefix|);
    IdFromMatch(path, |prefix|);
    assert path[start..] == digits + rest;
    DigitRunStopsAtNonDigit(digits, rest);
  }

  /** `propId || getIdFromUrl()`: a non-empty id prop is used as given; otherwise the id comes from
      the location's path (`None` when there is no window), and an empty result counts as none. */
  function ResolveId(propId: Option<string>, path: Option<string>): (r: Option<string>)
    ensures propId.Some? && propId.value != "" ==> r == propId
    ensures (propId.None? || propId.value == "") && path.None? ==> r.None?
    ensures (propId.None? || propId.value == "") && path.Some? ==> r == IdFromPath(path.value)
    ensures r.Some? ==> r.value != ""
  {
    if propId.Some? && propId.value != "" then propId
    else if path.Some? then IdFromPath(path.value)
    else None
  }

  /** On a page whose path is the marker, a decimal id and a tail that does not continue it, an
      absent or empty id prop resolves to that id; a non-empty prop wins over any path. */
  lemma ResolveIdFromLocation(id: nat, rest: string, prop: string)
    requires rest == [] || !IsDigit(rest[0])
    ensures ResolveId(None, Some(Marker + NatToString(id) + rest)) == Some(NatToString(id))
    ensures ResolveId(Some(""), Some(Marker + NatToString(id) + rest)) == Some(NatToString(id))
    ensures prop != "" ==> ResolveId(Some(prop), Some(Marker + NatToString(id) + rest)) == Some(prop)
  {
    IdAtPathStart(NatToString(id), rest);
  }

  /** A path that starts with the marker yields the run of digits right after it. */
  lemma IdAtPathStart(digits: string, rest: string)
    requires 1 <= |digits| && AllDigits(digits)
    requires rest == [] || !IsDigit(rest[0])
    ensures IdFromPath(Marker + digits + rest) == Some(digits)
  {
    var empty: string := [];
    assert empty + Marker + digits + rest == Marker + digits + rest;
    IdAfterMarker(empty, digits, rest);
  }

  datatype Action = Approve | Reject

  function ActionName(a: Action): string {
    match a
    case Approve => "approve"
    case Reject => "reject"
  }

  /** The loaded request, as far as the actions use it. */
  datatype Request = Request(id: int, status: string)

  /** The detail page's state: the loaded request and the two text inputs. */
  datatype DetailState = DetailState(request: Option<Request>, rejectReason: string, txHash: string)

  /** The JSON body of an action; `None` fields are `undefined` and left out of the JSON. */
  datatype ActionBody = ActionBody(reason: Option<string>, txHash: Option<string>)

  /** What `handleAction` does: nothing without a loaded request, an alert for a reject without a
      reason, or a POST of `body` to `endpoint`. */
  datatype ActionOutcome = NoRequest | MissingReason | Post(endpoint: string, body: ActionBody)

  /** `/api/deposit-requests/<id>/<action>`. */
  function Endpoint(id: int, action: Action): string {
    "/api" + Marker + IntToString(id) + "/" + ActionName(action)
  }

  const MissingReasonAlert := "Please provide a reason for rejection."

  /** `handleAction`: a reject needs a reason that is not blank; the request goes to
      `/api/deposit-requests/<id>/<action>` and carries the reason (untrimmed) only when rejecting
      and the transaction hash only when approving. */
  function HandleAction(s: DetailState, action: Action): (r: ActionOutcome)
    ensures s.request.None? <==> r == NoRequest
    ensures s.request.Some? && action == Reject && AllWhitespace(s.rejectReason) <==> r == MissingReason
    ensures r.Post? ==> s.request.Some?
    ensures r.Post? ==> r.endpoint == Endpoint(s.request.value.id, action)
    ensures r.Post? ==> (r.body.reason.Some? <==> action == Reject) && (r.body.txHash.Some? <==> action == Approve)
    ensures r.Post? && action == Reject ==> r.body.reason == Some(s.rejectReason)
    ensures r.Post? && action == Approve ==> r.body.txHash == Some(s.txHash)
  {
    BlankIffAllWhitespace(s.rejectReason);
    if s.request.None? then NoRequest
    else if action == Reject && Trim(s.rejectReason) == "" then MissingReason
    else
      Post(Endpoint(s.request.value.id, action), ActionBody(if action == Reject then Some(s.rejectReason) else None,
                                if action == Approve then Some(s.txHash) else None))
  }

  /** The endpoint of an action on a request with a non-negative id names that id where the page's
      own path parser looks for it. */
  lemma EndpointCarriesId(id: int, action: Action)
    requires id >= 0
    ensures IdFromPath(Endpoint(id, action)) == Some(IntToString(id))
  {
    var digits := IntToString(id);
    var rest := "/" + ActionName(action);
    var head := "/api" + Marker + digits;
    assert Endpoint(id, action) == head + rest by {
      assert Endpoint(id, action) == head + "/" + ActionName(action);
    }
    assert rest[0] == '/';
    NoMatchInApiPrefix(Marker + digits + rest);
    assert head + rest == "/api" + (Marker + digits + rest);
    IdAfterMarker("/api", digits, rest);
  }

  /** The marker cannot start inside the `/api` prefix of an endpoint. */
  lemma NoMatchInApiPrefix(tail: string)
    ensures forall j :: 0 <= j < 4 ==> !MatchAt("/api" + tail, j)
  {
    var whole := "/api" + tail;
    forall j | 0 <= j < 4
      ensures !MatchAt(whole, j)
    {
      if j + |Marker| < |whole| {
        if j == 0 {
          assert whole[j..j + |Marker|][1] == 'a' != Marker[1];
        } else {
          assert whole[j..j + |Marker|][0] == whole[j] != Marker[0];
        }
      }
    }
  }

  /** The badge colour class of each status: yellow pending, blue approved, green completed, red
      rejected, gray for anything else. */
  function StatusColor(status: string): (c: string)
    ensures status == "PENDING" <==> c == "bg-yellow-500"
    ensures status == "APPROVED" <==> c == "bg-blue-500"
    ensures status == "COMPLETED" <==> c == "bg-green-500"
    ensures status == "REJECTED" <==> c == "bg-red-500"
    ensures status !in {"PENDING", "APPROVED", "COMPLETED", "REJECTED"} <==> c == "bg-gray-500"
  {
    if status == "PENDING" then "bg-yellow-500"
    else if status == "APPROVED" then "bg-blue-500"
    else if status == "COMPLETED" then "bg-green-500"
    else if status == "REJECTED" then "bg-red-500"
    else "bg-gray-500"
  }

  /** The statuses that have a colour of their own. */
  const KnownStatuses := {"PENDING", "APPROVED", "COMPLETED", "REJECTED"}

  /** The status a badge colour stands for, `None` for the fallback gray. */
  function StatusOfColor(c: string): Option<string> {
    if c == "bg-yellow-500" then Some("PENDING")
    else if c == "bg-blue-500" then Some("APPROVED")
    else if c == "bg-green-500" then Some("COMPLETED")
    else if c == "bg-red-500" then Some("REJECTED")
    else None
  }

  /** The colour of a known status names it back; every other status shares the fallback. */
  lemma StatusColorNamesStatus(status: string)
    ensures StatusOfColor(StatusColor(status)) == if status in KnownStatuses then Some(status) else None
  {
  }
}
