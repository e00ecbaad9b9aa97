# cms-trader admin console: chat, data table, fetch helpers and deposit detail in Dafny

This project models the decision logic of four parts of the cms-trader admin console:

- the support chat page (`ChatPage`). It covers the reconciliation of an arriving `new-message`
  with the optimistic copy the admin already shows, sending a message, the unread total and its
  navigation badge, selecting a conversation, validating and completing an image upload, and
  rewriting image URLs;
- the generic paged table (`DataTable`). It covers sorting, paging, the "Showing X to Y of Z"
  line, the query string of the request, and how each fetch outcome updates the table;
- the fetch helpers `safeFetch`, `safeJson` and `fetchJson`;
- the deposit-request detail page. It covers finding the request id in the location's path, the
  guard and payload of the approve and reject actions, and the status badge colours.

React state updates become pure functions from one state record to the next. Side effects that
leave the page (socket emits, conversation and message reloads, the image upload, alerts) become
an `Effect` list in the result, or a parameter that says how the outside world answered. JSON parsing is an abstract
function parameter. The query string is serialized as `URLSearchParams` does, per section 5.2 of
the WHATWG URL Standard (application/x-www-form-urlencoded serializer). The model proves that a
reader recovers the table's parameters from it.

Modules, one per file: `Base` (Option, Result), `Text` (JavaScript `trim`, `startsWith`,
`includes`, `substring`, decimal `toString`), `FormEncoding` (UTF-8 and
`URLSearchParams.toString`), `Http` (fetch.ts), `Chat`, `DataTable`, `DepositRequest`.

## Model

| member | source | states |
|---|---|---|
| Text.Trim | src/utils/fetch.ts:52 | The result is the input without its leading and trailing ECMAScript whitespace; it is empty or starts and ends with a non-whitespace character. |
| Text.BlankIffAllWhitespace | src/utils/fetch.ts:52 | `text.trim().length === 0` holds exactly when every character of the text is whitespace. |
| Text.TrimIdempotent | src/components/ChatPage.tsx:290 | Trimming an already trimmed text changes nothing. |
| Text.ContainsIffOccurs | src/utils/fetch.ts:13 | `includes` holds exactly when the needle occurs at some index of the text. |
| Text.Take | src/utils/fetch.ts:19 | `substring(0, n)` is a prefix of the text of length `min(n, length)`. |
| Text.NatToString | src/components/ChatPage.tsx:260 | `toString` of a number gives a non-empty run of digits without a leading zero, with one digit below 10 and at most two below 100. |
| Text.NatToStringRoundTrip | src/components/ChatPage.tsx:260 | Reading back the decimal digits of `n.toString()` gives `n`. |
| FormEncoding.Utf8RoundTrip | src/components/DataTable.tsx:43-59 | Decoding the UTF-8 encoding of any string gives the string back. |
| FormEncoding.EncodeRoundTrip | src/components/DataTable.tsx:43-59 | Percent-decoding the form-urlencoded form of a name or value gives it back. |
| FormEncoding.NoSeparators | src/components/DataTable.tsx:43-59 | An encoded name or value contains no `&` and no `=`. |
| FormEncoding.SplitSerialize | src/components/DataTable.tsx:59 | Splitting a serialized list of pairs at `&` gives exactly the encoded pairs. |
| FormEncoding.PairRoundTrip | src/components/DataTable.tsx:43-59 | Parsing one encoded `name=value` pair gives the pair back. |
| FormEncoding.SerializeRoundTrip | src/components/DataTable.tsx:43-59 | Parsing `params.toString()` gives the parameters back, names, values and order. |
| Http.SafeFetch | src/utils/fetch.ts:4-30 | Success exactly when the response is ok, and then the response itself. Otherwise the error is the JSON `error` field if truthy (an empty one falls back), else at most 200 leading characters of a non-empty text body, else `HTTP <status>: <statusText>`. |
| Http.SafeFetchErrorOrigin | src/utils/fetch.ts:8-26 | The thrown message is never empty, and it is the status line, the body's `error` field, or a prefix of at most 200 characters of the body; a non-empty text body always supplies it. |
| Http.SafeJson | src/utils/fetch.ts:35-62 | The parsed body exactly when the content type includes `application/json`, the length header is not `"0"`, the body is not blank and it parses; otherwise the message of the first failing check, in order. |
| Http.FetchJson | src/utils/fetch.ts:67-70 | A value only from an ok JSON response whose body parses to it; a response that is not ok fails with the `safeFetch` message. |
| Http.NotOkNeverParsed | src/utils/fetch.ts:67-70 | A response that is not ok is never handed to the parser: the outcome does not depend on it. |
| Http.JsonBodyText | src/components/ChatPage.tsx:157-172 | The text reaches `JSON.parse` exactly when the response is ok, declares JSON and has a non-blank body. |
| Http.SafeJsonAgreesWithGuard | src/utils/fetch.ts:35-62 | On an ok response without a zero length header, `safeJson` yields a value exactly when the components' inline guard passes and the body parses, and then the same value. |
| Chat.FindTempFrom | src/components/ChatPage.tsx:103-110 | The index found is the first at or after `from` of an optimistic message the incoming one confirms, and none is found only when there is none. |
| Chat.Reconcile | src/components/ChatPage.tsx:93-124 | A message whose id is listed leaves the list unchanged. Otherwise the first optimistic copy (same sender, same truthy content or image, id above 10^12, under 5 s apart) is replaced in place and nothing else moves. Without such a copy the message is appended. |
| Chat.HandleNewMessage | src/components/ChatPage.tsx:81-128 | Every arriving message reloads the conversation list; the message list changes only when the message's conversation is the selected one. |
| Chat.ReconcileIdempotent | src/components/ChatPage.tsx:94-99 | Delivering the same message twice leaves the same list as delivering it once. |
| Chat.ReconcileListsIncoming | src/components/ChatPage.tsx:93-124 | After reconciliation the incoming message's id is listed. |
| Chat.ReconcileKeepsIdsUnique | src/components/ChatPage.tsx:93-124 | Reconciliation keeps message ids unique. |
| Chat.RemoveId | src/components/ChatPage.tsx:318 | The kept messages are exactly those with another id; a list without the id is returned unchanged. |
| Chat.HandleSend | src/components/ChatPage.tsx:289-320 | Nothing happens for a blank input, no truthy selection or no socket. Otherwise the trimmed text is appended as an admin message with the timestamp id, the input is cleared and `send-message` is emitted. A failed emit removes the optimistic message, which restores the list when the timestamp id was new. |
| Chat.RemoveIdSnoc | src/components/ChatPage.tsx:318 | Filtering a list with one more message at the end filters the list and keeps that message last exactly when its id differs: the kept messages stay in their order. |
| Chat.RemoveIdAppended | src/components/ChatPage.tsx:303-318 | Removing the id of a message just appended to a list without that id restores the list. |
| Chat.SendKeepsIdsUnique | src/components/ChatPage.tsx:289-320 | Sending keeps ids unique when the timestamp id is new. |
| Chat.SubsequenceKeepsIdsUnique | src/components/ChatPage.tsx:318 | Filtering a list with unique ids keeps them unique. |
| Chat.SendThenEchoReplacesTemp | src/components/ChatPage.tsx:289-320 | The server's echo of a sent text (same sender, the trimmed text, no image, a new database id), arriving within 5 s, replaces an optimistic copy instead of adding a row: the list keeps its length and lists the echo. When no older message qualifies, the list is the old one with the echo in the optimistic message's place. |
| Chat.LateEchoIsAppended | src/components/ChatPage.tsx:109 | An echo 5 s or more after the send is appended next to the optimistic copy. |
| Chat.UnreadSumAppend | src/components/ChatPage.tsx:177-179 | The unread sum of a list with one more conversation adds that conversation's count, 0 when missing. |
| Chat.TotalUnread | src/components/ChatPage.tsx:177-180 | The loop computes the `reduce` sum of unread counts with missing counts as 0. |
| Chat.UnreadSumBounds | src/components/ChatPage.tsx:177-179 | With non-negative counts the sum is non-negative and at least every single count. |
| Chat.LoadConversations | src/components/ChatPage.tsx:152-184 | Only the list and the unread total change. Any failed guard, a parse error or a null body changes nothing. A body without `data` empties the list but keeps the total, because `reduce` then throws. Otherwise both are taken from the body. |
| Chat.LoadConversationsByLoop | src/components/ChatPage.tsx:152-184 | Running the load with the `reduce` written as a loop gives the same state as the transition. |
| Chat.LoadConversationsIdempotent | src/components/ChatPage.tsx:152-184 | Loading the same response twice leaves what loading it once leaves. |
| Chat.LoadMessages | src/components/ChatPage.tsx:221-248 | Only the message list changes; it becomes the body's `data`, or empty when that is missing. Failures change nothing. |
| Chat.LoadMessagesReplacesOrKeeps | src/components/ChatPage.tsx:221-248 | Loading twice equals loading once; a load either ignores the list shown before or leaves the whole state as it was. |
| Chat.HandleAdminNotification | src/components/ChatPage.tsx:132-137 | An admin notification raises the unread total by one and reloads the conversation list. |
| Chat.NotificationThenReload | src/components/ChatPage.tsx:132-184 | After a notification and its reload, a reload that yields a list sets the total to that list's sum, dropping the increment; any other reload keeps the incremented total. |
| Chat.BadgeLabel | src/components/ChatPage.tsx:256-266 | The badge is hidden exactly when the total is not positive. It shows `99+` above 99, else the total in one or two decimal digits without a leading zero. |
| Chat.SelectConversation | src/components/ChatPage.tsx:197-219 | A change to a non-zero id with a socket joins the room (now if connected, else on the next connect) and then loads that conversation's messages; otherwise no effect. The message list is kept. |
| Chat.SelectAgainIsQuiet | src/components/ChatPage.tsx:197-219 | Selecting the already selected conversation starts nothing, and every effect of a selection names the chosen conversation. |
| Chat.HandleImageSelected | src/components/ChatPage.tsx:322-336 | The upload starts exactly when a file, a truthy selection and a socket exist, the type starts with `image/` and the size is at most 5 MiB. No file, selection or socket does nothing at all; a wrong type alerts `Please select an image file`, an image over 5 MiB alerts `Image size must be less than 5MB`, and the state is kept. |
| Chat.CompleteImageUpload | src/components/ChatPage.tsx:347-380 | Uploading always ends. A truthy `imageUrl` appends an optimistic image message and emits it; a failed emit alerts and keeps the message. A failed upload alerts; a reply without a URL does nothing. |
| Chat.ImageUploadRoundTrip | src/components/ChatPage.tsx:322-380 | An accepted image raises the uploading flag and its completion clears it whatever the outcome; at most one message is added, and a reply with a non-empty URL adds exactly the optimistic image message for the selected conversation. |
| Chat.ImageSrc | src/components/ChatPage.tsx:485-491 | `http` URLs are kept, `/uploads/` paths get the main app's origin in front, anything else is kept. |
| Chat.ImageSrcIdempotent | src/components/ChatPage.tsx:485-491 | Rewriting twice equals rewriting once, and the original URL is always a suffix of the result. |
| DataTable.HandleSort | src/components/DataTable.tsx:138-147 | Sorting the sorted column flips its order; another column becomes the sorted one in ascending order. Either way the page returns to 1. |
| DataTable.SortTwiceRestoresOrder | src/components/DataTable.tsx:138-147 | Sorting one column twice gives back its order when it was already the sorted column, and descending order when it was not. |
| DataTable.SetSearch | src/components/DataTable.tsx:32-37 | A truthy search text resets the page to 1; an empty one keeps the page. |
| DataTable.SearchShapesRequest | src/components/DataTable.tsx:32-50 | After a non-empty search the request asks for page 1; it carries `search` exactly when the text is not blank, trimmed; setting the same text again changes nothing. |
| DataTable.GoFirst | src/components/DataTable.tsx:303-309 | First goes to page 1; the button is disabled on page 1. |
| DataTable.GoPrevious | src/components/DataTable.tsx:310-316 | Previous moves one page back, never below 1; disabled on page 1. |
| DataTable.GoNext | src/components/DataTable.tsx:320-326 | Next moves one page on, never beyond the page count; disabled only when the page equals the page count. |
| DataTable.GoLast | src/components/DataTable.tsx:327-333 | Last sets the page to the page count; its disabled state (page equal to the count) changes nothing either. |
| DataTable.NavigationKeepsPageInRange | src/components/DataTable.tsx:303-333 | While the page lies in 1..totalPages, every button keeps it there. |
| DataTable.PreviousUndoesNext | src/components/DataTable.tsx:310-326 | Before the last page, Previous after Next returns to the same page. |
| DataTable.NextAfterFailedLoadReachesPageZero | src/components/DataTable.tsx:320-330 | After a failed load (page count 0), Next and Last on page 1 are enabled and move to page 0. |
| DataTable.GoNextGuarded | src/components/DataTable.tsx:320-326 | Next that is disabled also when the page is at or past the page count: it never lowers the page. |
| DataTable.GoLastGuarded | src/components/DataTable.tsx:327-333 | Last that is disabled also when the page is at or past the page count. |
| DataTable.GuardedNavigationKeepsPagePositive | src/components/DataTable.tsx:303-333 | With the guarded buttons the page stays at least 1 whatever the page count. |
| DataTable.RangeStart | src/components/DataTable.tsx:300 | The first row shown is 0 without rows; with rows it is one past a multiple of 50, the first row of the current page, and at least 1 on a page from 1 on. |
| DataTable.RangeEnd | src/components/DataTable.tsx:300 | The last row shown is the page's end cut at the total. |
| DataTable.ShowingRangeCountsRows | src/components/DataTable.tsx:300 | When the loaded rows are the page's slice of the total, the range covers exactly that many rows. |
| DataTable.QueryParams | src/components/DataTable.tsx:43-55 | The query starts with `page` and `limit=50`, and has one more parameter for a non-blank search and two more for a sorted column. |
| DataTable.SearchParamPresence | src/components/DataTable.tsx:48-50 | `search` is sent exactly when the trimmed search is not blank, with the trimmed text. |
| DataTable.SortParamsPresence | src/components/DataTable.tsx:52-55 | `sortBy` and `sortOrder` are sent exactly when a column is sorted, with its key and order. |
| DataTable.InitialRequest | src/components/DataTable.tsx:22-29 | The initial table is on a page it can show, requests `page=1&limit=50` and nothing else, and shows no range. |
| DataTable.RequestUrl | src/components/DataTable.tsx:57-59 | The request URL starts with the endpoint and continues after the separator. |
| DataTable.RequestUrlCarriesParams | src/components/DataTable.tsx:43-59 | The separator is `&` exactly when the endpoint already has a `?`, and the rest parses back to exactly the table's parameters. |
| DataTable.Reset | src/components/DataTable.tsx:79-81 | A failed load empties the rows and sets the page count and total to 0, keeping the rest. |
| DataTable.ApplyFetch | src/components/DataTable.tsx:62-117 | Any failed guard, parse error or null body resets the table. A parsed object gives its rows (or none), its page count (1 when missing or 0) and its total (0 when missing). |
| DataTable.ApplyFetchResetsIffFailure | src/components/DataTable.tsx:62-117 | A load leaves the reset state exactly when the response passes the guard and parses to an object; a thrown fetch always resets. |
| DataTable.ApplyFetchForgetsPrevious | src/components/DataTable.tsx:79-114 | What a load shows does not depend on the rows, page count or total shown before, and applying the same response again changes nothing. |
| DepositRequest.FirstMatch | src/components/DepositRequestDetail.tsx:34 | The regular expression's match index is the leftmost index where the marker is followed by a digit; there is none exactly when no index matches. |
| DepositRequest.IdFromPath | src/components/DepositRequestDetail.tsx:33-35 | There is no id exactly when nothing matches. Otherwise the id is the maximal run of at least one digit that follows the leftmost match. |
| DepositRequest.IdAfterMarker | src/components/DepositRequestDetail.tsx:34-35 | When nothing matches before the marker, a path `prefix + /deposit-requests/ + digits + rest` with `rest` not starting by a digit yields exactly `digits`. |
| DepositRequest.ResolveId | src/components/DepositRequestDetail.tsx:29-40 | A non-empty id prop wins. Without a window there is no id; otherwise the id is read from the path. A resolved id is never empty. |
| DepositRequest.ResolveIdFromLocation | src/components/DepositRequestDetail.tsx:29-40 | On a path `/deposit-requests/<n>` followed by a non-digit or nothing, a missing or empty prop resolves to the decimal `n`; a non-empty prop wins. |
| DepositRequest.HandleAction | src/components/DepositRequestDetail.tsx:97-119 | Nothing happens without a loaded request. A reject with a blank reason only alerts. Otherwise a POST goes to the action's endpoint for the request id, carrying the untrimmed reason only for reject and the transaction hash only for approve. |
| DepositRequest.EndpointCarriesId | src/components/DepositRequestDetail.tsx:109 | The action endpoint of a request with a non-negative id yields that id when read by the page's own path parser. |
| DepositRequest.NoMatchInApiPrefix | src/components/DepositRequestDetail.tsx:109 | The marker cannot start inside the `/api` prefix of an endpoint. |
| DepositRequest.StatusColor | src/components/DepositRequestDetail.tsx:190-206 | Each of PENDING, APPROVED, COMPLETED and REJECTED gets its own colour (yellow, blue, green, red); every other status gets grey. |
| DepositRequest.StatusColorNamesStatus | src/components/DepositRequestDetail.tsx:190-206 | Reading a badge colour back gives the status for the four known ones and nothing for grey, so no two known statuses share a colour. |

## Left out

- Sockets: connecting, reconnection and the listener lifecycle are not modelled. The model keeps only the socket's existence and its `connected` flag, and records emits as effects.
- The socket `connect` handler reads the selection captured when the page mounted, which is always `null`, so it never re-joins. This stale closure is not modelled.
- The socket handlers are registered once when the page mounts, so the `loadConversations` they call uses the status filter of that moment; the 5-second interval is re-created whenever the filter changes and uses the current one. The status filter, and with it this difference, is not part of the model.
- Responses that arrive out of order (an older `loadMessages` finishing after a newer one) are not modelled; each load is applied as one step.
- Timers are not modelled: the search debounce, the 5 s conversation refresh and the scroll timeouts.
- Browser features are not modelled: `Notification`, `Audio`, the DOM badge element, `alert` beyond recording its text, and `window.location` beyond its path.
- `Date.now()` and `new Date(...).getTime()` are parameters: times are whole milliseconds. Unparseable dates (NaN) are not modelled.
- `JSON.parse`, `response.json()` and the JSON `error` field are abstract function parameters. The JSON grammar is not modelled.
- Text.Trim and Text.Take count Unicode scalar values where JavaScript counts UTF-16 code units. A text with characters outside the Basic Multilingual Plane can therefore be cut at a different place than `substring(0, 200)` cuts it.
- FormEncoding.Utf8RoundTrip: strings are sequences of Unicode scalar values, so lone surrogates, which `URLSearchParams` replaces with U+FFFD, do not arise.
- The error message `fetchData` builds for a response that is not ok is only logged, so the model drops it and keeps only the reset.
- The `loading` and `actionLoading` flags, the error banners and all rendering are left out.
- The deposit page's request load and its post-action reload are left out; only the action guard and payload are modelled.
- The deposit page's error-message handling after a failed action is left out.
- Selecting a conversation does not clear the old message list; the model follows the code on this point.
- DepositRequest.StatusColor: the colour table is a plain object, so a status that names an `Object.prototype` member (`constructor`, `toString`, `__proto__`, ...) looks up that member and yields its text instead of `bg-gray-500`. The model maps every status outside the four known ones to grey.
- Http.SafeFetch: the JSON `error` field is taken as a string; a number or object there, which `new Error` would convert to text, is not modelled.
- The other detail pages, tables and dashboards, the Prisma client and the Astro configuration are not part of this model.

## Findings

| source | as written | input that shows it | evidently intended | confidence | as-written member | corrected member |
|---|---|---|---|---|---|---|
| src/components/DataTable.tsx:320-326 | Next is disabled only when `page === totalPages` and moves to `Math.min(totalPages, page + 1)` | A failed load leaves `totalPages` 0 on page 1; Next is enabled and moves to page 0, which the next request sends as `page=0` | Next disabled when the page is at or past the page count, so the page never drops below 1 | not executed | DataTable.NextAfterFailedLoadReachesPageZero | DataTable.GuardedNavigationKeepsPagePositive |
| src/components/DataTable.tsx:327-333 | Last is disabled only when `page === totalPages` and sets the page to `totalPages` | The same state: page 1 of 0; Last is enabled and sets the page to 0 | Last disabled when the page is at or past the page count | not executed | DataTable.NextAfterFailedLoadReachesPageZero | DataTable.GuardedNavigationKeepsPagePositive |
