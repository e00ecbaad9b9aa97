/** The admin chat page (src/components/ChatPage.tsx) as pure transitions over its state.
    Each handler returns the next state and the effects it starts: socket emits, reloads and
    alerts. Timestamps are integer milliseconds and `Date.now()` is a parameter. */
module Chat {
  import opened Base
  import opened Text
  import Http

  datatype SenderType = User | Admin

  /** A chat message. `content` and `imageUrl` are `None` for JSON `null`; `createdAt` is the
      creation time in milliseconds. */
  datatype Message = Message(
    id: int,
    senderId: int,
    senderType: SenderType,
    content: Option<string>,
    imageUrl: Option<string>,
    createdAt: int,
    isRead: bool)

  /** A conversation as the list shows it; `unreadCount` is `None` when the server omits it. */
  datatype Conversation = Conversation(id: int, userId: int, status: string, unreadCount: Option<int>)

  /** Events the page emits on the socket. */
  datatype Outbound =
    | JoinConversation(conversationId: int, isAdmin: bool)
    | SendMessage(conversationId: int, senderId: int, senderType: SenderType,
                  content: Option<string>, imageUrl: Option<string>)

  /** Work a handler starts besides its state change. */
  datatype Effect =
    | ReloadConversations
    | Emit(event: Outbound)
    | JoinOnNextConnect(conversationId: int)
    | FetchMessages(conversationId: int)
    | UploadImage
    | Alert(text: string)

  datatype ChatState = ChatState(
    conversations: seq<Conversation>,
    selected: Option<int>,
    messages: seq<Message>,
    input: string,
    hasSocket: bool,
    connected: bool,
    unreadTotal: int,
    uploading: bool)

  datatype Step = Step(state: ChatState, effects: seq<Effect>)

  /** Provisional ids are `Date.now()` values, above every id the database hands out. */
  const TempIdThreshold := 1_000_000_000_000

  /** A server echo matches a provisional message created less than this many milliseconds apart. */
  const MatchWindowMs := 5000

  /** A string field is truthy in JavaScript when it is present and non-empty. */
  predicate Truthy(f: Option<string>) {
    f.Some? && f.value != ""
  }

  /** `if (selectedConversation)`: a conversation is selected and its id is not 0. */
  predicate HasSelection(s: ChatState) {
    s.selected.Some? && s.selected.value != 0
  }

  function Abs(x: int): nat {
    if x < 0 then -x else x
  }

  /** Some message of `ms` has id `id`. */
  predicate ContainsId(ms: seq<Message>, id: int) {
    exists k :: 0 <= k < |ms| && ms[k].id == id
  }

  /** No two messages of `ms` share an id. */
  predicate UniqueIds(ms: seq<Message>) {
    forall i, j :: 0 <= i < j < |ms| ==> ms[i].id != ms[j].id
  }

  /** `m` is a provisional message that the server message `incoming` confirms: a provisional id, the
      same sender, the same non-empty text or the same non-empty image, and creation times less than
      five seconds apart. */
  predicate IsEligibleTemp(m: Message, incoming: Message) {
    && m.id > TempIdThreshold
    && m.senderType == incoming.senderType
    && m.senderId == incoming.senderId
    && ((m.content == incoming.content && Truthy(incoming.content))
        || (m.imageUrl == incoming.imageUrl && Truthy(incoming.imageUrl)))
    && Abs(m.createdAt - incoming.createdAt) < MatchWindowMs
  }

  /** `findIndex` from position `from`: the first eligible provisional message at or after it. */
  function FindTempFrom(ms: seq<Message>, incoming: Message, from: nat): (r: Option<nat>)
    requires from <= |ms|
    ensures r.Some? ==> from <= r.value < |ms| && IsEligibleTemp(ms[r.value], incoming)
    ensures r.Some? ==> forall j :: from <= j < r.value ==> !IsEligibleTemp(ms[j], incoming)
    ensures r.None? ==> forall j :: from <= j < |ms| ==> !IsEligibleTemp(ms[j], incoming)
    decreases |ms| - from
  {
    if from == |ms| then None
    else if IsEligibleTemp(ms[from], incoming) then Some(from)
    else FindTempFrom(ms, incoming, from + 1)
  }

  /** `i` is the first index of an eligible provisional message. */
  predicate IsFirstTemp(ms: seq<Message>, incoming: Message, i: int) {
    && 0 <= i < |ms|
    && IsEligibleTemp(ms[i], incoming)
    && forall j :: 0 <= j < i ==> !IsEligibleTemp(ms[j], incoming)
  }

  /** The `setMessages` updater of the `new-message` handler: a message whose id is already listed
      is dropped; otherwise it takes the place of the first provisional message it confirms, or is
      appended when there is none. */
  function Reconcile(ms: seq<Message>, incoming: Message): (r: seq<Message>)
    ensures ContainsId(ms, incoming.id) ==> r == ms
    ensures !ContainsId(ms, incoming.id) ==>
      forall i :: IsFirstTemp(ms, incoming, i) ==>
        |r| == |ms| && r[i] == incoming && forall j :: 0 <= j < |ms| && j != i ==> r[j] == ms[j]
    ensures !ContainsId(ms, incoming.id) && (forall j :: 0 <= j < |ms| ==> !IsEligibleTemp(ms[j], incoming)) ==>
      r == ms + [incoming]
  {
    if ContainsId(ms, incoming.id) then ms
    else match FindTempFrom(ms, incoming, 0)
      case Some(i) => ms[i := incoming]
      case None => ms + [incoming]
  }

  /** The `new-message` handler. The conversation list is reloaded in every case; the message list
      changes only when the message carries the id of the selected conversation. */
  function HandleNewMessage(s: ChatState, incoming: Message, conversationId: Option<int>): (r: Step)
    ensures r.effects == [ReloadConversations]
    ensures conversationId.None? || conversationId != s.selected ==> r.state == s
    ensures conversationId.Some? && conversationId == s.selected ==>
      r.state == s.(messages := Reconcile(s.messages, incoming))
  {
    var next := if conversationId.Some? && conversationId == s.selected
      then s.(messages := Reconcile(s.messages, incoming)) else s;
    Step(next, [ReloadConversations])
  }

  /** Delivering the same message twice has the effect of delivering it once. */
  lemma ReconcileIdempotent(ms: seq<Message>, incoming: Message)
    ensures Reconcile(Reconcile(ms, incoming), incoming) == Reconcile(ms, incoming)
  {
    var r := Reconcile(ms, incoming);
    if !ContainsId(ms, incoming.id) {
      match FindTempFrom(ms, incoming, 0)
      case Some(i) => assert r[i] == incoming;
      case None => assert r[|ms|] == incoming;
    }
  }

  /** After reconciliation the incoming message's id is listed. */
  lemma ReconcileListsIncoming(ms: seq<Message>, incoming: Message)
    ensures ContainsId(Reconcile(ms, incoming), incoming.id)
  {
    var r := Reconcile(ms, incoming);
    if !ContainsId(ms, incoming.id) {
      match FindTempFrom(ms, incoming, 0)
      case Some(i) => assert r[i] == incoming;
      case None => assert r[|ms|] == incoming;
    }
  }

  /** Reconciliation never introduces a second message with the same id. */
  lemma ReconcileKeepsIdsUnique(ms: seq<Message>, incoming: Message)
    requires UniqueIds(ms)
    ensures UniqueIds(Reconcile(ms, incoming))
  {
    var r := Reconcile(ms, incoming);
    if !ContainsId(ms, incoming.id) {
      match FindTempFrom(ms, incoming, 0)
      case Some(i) =>
        forall a, b | 0 <= a < b < |r|
          ensures r[a].id != r[b].id
        {
          if a != i && b != i {
            assert r[a] == ms[a] && r[b] == ms[b];
          } else if a == i {
            assert r[b] == ms[b];
          } else {
            assert r[a] == ms[a];
          }
        }
      case None =>
        forall a, b | 0 <= a < b < |r|
          ensures r[a].id != r[b].id
        {
          if b == |ms| {
            assert r[a] == ms[a];
          } else {
            assert r[a] == ms[a] && r[b] == ms[b];
          }
        }
    }
  }

  /** The messages of `ms` whose id is not `id`, in order: `prev.filter((m) => m.id !== id)`. */
  function RemoveId(ms: seq<Message>, id: int): (r: seq<Message>)
    ensures |r| <= |ms|
    ensures forall m :: m in r <==> m in ms && m.id != id
    ensures !ContainsId(r, id)
    ensures !ContainsId(ms, id) ==> r == ms
  {
    if ms == [] then []
    else if ms[0].id == id then RemoveId(ms[1..], id)
    else [ms[0]] + RemoveId(ms[1..], id)
  }

  /** `handleSend`. With a non-blank input, a selected conversation and a socket, it appends a
      provisional admin message whose id and timestamp are `now`, clears the input and emits
      `send-message`; when the emit throws, every message with the provisional id is removed again.
      Otherwise nothing changes. */
  function HandleSend(s: ChatState, now: int, emitFails: bool): (r: Step)
    ensures AllWhitespace(s.input) || !HasSelection(s) || !s.hasSocket ==> r == Step(s, [])
    ensures !AllWhitespace(s.input) && HasSelection(s) && s.hasSocket ==>
      && r.state == s.(messages := r.state.messages, input := "")
      && (!emitFails ==>
            && |r.state.messages| == |s.messages| + 1
            && r.state.messages[..|s.messages|] == s.messages
            && r.state.messages[|s.messages|]
                 == Message(now, 0, Admin, Some(Trim(s.input)), None, now, false)
            && r.effects == [Emit(SendMessage(s.selected.value, 0, Admin, Some(Trim(s.input)), None))])
      && (emitFails ==>
            && r.state.messages == RemoveId(s.messages, now)
            && (!ContainsId(s.messages, now) ==> r.state.messages == s.messages)
            && r.effects == [])
  {
    BlankIffAllWhitespace(s.input);
    var trimmed := Trim(s.input);
    if trimmed == "" || !HasSelection(s) || !s.hasSocket then Step(s, [])
    else
      var temp := Message(now, 0, Admin, Some(trimmed), None, now, false);
      var appended := s.messages + [temp];
      if emitFails then
        RemoveIdAppended(s.messages, temp);
        Step(s.(messages := RemoveId(appended, now), input := ""), [])
      else
        assert appended[..|s.messages|] == s.messages;
        Step(s.(messages := appended, input := ""),
             [Emit(SendMessage(s.selected.value, 0, Admin, Some(trimmed), None))])
  }

  /** Filtering a list extended by one message filters the list and keeps the message after it
      exactly when its id differs: the kept messages stay in their order. */
  lemma {:induction false} RemoveIdSnoc(ms: seq<Message>, m: Message, id: int)
    ensures RemoveId(ms + [m], id) == RemoveId(ms, id) + (if m.id == id then [] else [m])
  {
    if ms == [] {
      assert [] + [m] == [m];
      assert [m][1..] == [];
    } else {
      assert (ms + [m])[1..] == ms[1..] + [m];
      RemoveIdSnoc(ms[1..], m, id);
    }
  }

  /** Removing an id from a list that ends with a message of that id removes the message too;
      when the list did not hold the id before, the list is restored. */
  lemma {:induction false} RemoveIdAppended(ms: seq<Message>, m: Message)
    ensures RemoveId(ms + [m], m.id) == RemoveId(ms, m.id)
    ensures !ContainsId(ms, m.id) ==> RemoveId(ms + [m], m.id) == ms
  {
    if ms == [] {
      assert [] + [m] == [m];
      assert [m][1..] == [];
    } else {
      assert (ms + [m])[1..] == ms[1..] + [m];
      RemoveIdAppended(ms[1..], m);
    }
  }

  /** A send whose `now` is not already a listed id keeps the ids unique. */
  lemma SendKeepsIdsUnique(s: ChatState, now: int, emitFails: bool)
    requires UniqueIds(s.messages) && !ContainsId(s.messages, now)
    ensures UniqueIds(HandleSend(s, now, emitFails).state.messages)
  {
    var r := HandleSend(s, now, emitFails).state.messages;
    if !AllWhitespace(s.input) && HasSelection(s) && s.hasSocket {
      if emitFails {
        SubsequenceKeepsIdsUnique(s.messages, now);
      } else {
        forall a, b | 0 <= a < b < |r|
          ensures r[a].id != r[b].id
        {
          assert r[a] == r[..|s.messages|][a] == s.messages[a];
          if b < |s.messages| {
            assert r[b] == r[..|s.messages|][b] == s.messages[b];
          }
        }
      }
    }
  }

  lemma {:induction false} SubsequenceKeepsIdsUnique(ms: seq<Message>, id: int)
    requires UniqueIds(ms)
    ensures UniqueIds(RemoveId(ms, id))
  {
    if ms != [] {
      SubsequenceKeepsIdsUnique(ms[1..], id);
      var rest := RemoveId(ms[1..], id);
      if ms[0].id != id {
        var r := [ms[0]] + rest;
        forall a, b | 0 <= a < b < |r|
          ensures r[a].id != r[b].id
        {
          if a == 0 {
            assert r[b] in rest;
            var k :| 0 <= k < |ms[1..]| && ms[1..][k] == r[b];
            assert ms[k + 1] == r[b];
          } else {
            assert r[a] == rest[a - 1] && r[b] == rest[b - 1];
          }
        }
      }
    }
  }

  /** The server's broadcast of a text the admin sent, stored under the database id `id`. */
  function TextEcho(text: string, id: int, createdAt: int, isRead: bool): Message {
    Message(id, 0, Admin, Some(text), None, createdAt, isRead)
  }

  /** Sending and then receiving the server's echo within five seconds leaves one entry for the
      message: the list has the length it had after the send, and the echo is listed. When no
      earlier provisional message matches the echo, it sits where the provisional one was. */
  lemma SendThenEchoReplacesTemp(s: ChatState, now: int, id: int, createdAt: int, isRead: bool)
    requires !AllWhitespace(s.input) && HasSelection(s) && s.hasSocket
    requires now > TempIdThreshold
    requires !ContainsId(s.messages, id) && id != now
    requires Abs(createdAt - now) < MatchWindowMs
    ensures var echo := TextEcho(Trim(s.input), id, createdAt, isRead);
      var sent := HandleSend(s, now, false).state;
      var after := HandleNewMessage(sent, echo, s.selected).state;
      && |after.messages| == |sent.messages| == |s.messages| + 1
      && ContainsId(after.messages, id)
      && ((forall j :: 0 <= j < |s.messages| ==> !IsEligibleTemp(s.messages[j], echo)) ==>
            after.messages == s.messages + [echo])
  {
    var echo := TextEcho(Trim(s.input), id, createdAt, isRead);
    var sent := HandleSend(s, now, false).state;
    var ms := sent.messages;
    BlankIffAllWhitespace(s.input);
    var temp := ms[|s.messages|];
    assert IsEligibleTemp(temp, echo);
    assert !ContainsId(ms, echo.id);
    var i := FindTempFrom(ms, echo, 0);
    assert i.Some?;
    assert IsFirstTemp(ms, echo, i.value);
    ReconcileListsIncoming(ms, echo);
    if forall j :: 0 <= j < |s.messages| ==> !IsEligibleTemp(s.messages[j], echo) {
      assert i.value == |s.messages|;
      var after := Reconcile(ms, echo);
      assert ms == s.messages + [temp] by {
        assert ms == ms[..|s.messages|] + [temp];
      }
      assert after == ms[i.value := echo];
      assert after == s.messages + [echo];
    }
  }

  /** An echo that arrives five seconds or more after the send, with no other provisional message
      matching it, is appended: the provisional message stays and the list grows by one. */
  lemma LateEchoIsAppended(s: ChatState, now: int, echo: Message)
    requires !AllWhitespace(s.input) && HasSelection(s) && s.hasSocket
    requires !ContainsId(s.messages, echo.id) && echo.id != now
    requires Abs(echo.createdAt - now) >= MatchWindowMs
    requires forall j :: 0 <= j < |s.messages| ==> !IsEligibleTemp(s.messages[j], echo)
    ensures var sent := HandleSend(s, now, false).state;
      var after := HandleNewMessage(sent, echo, s.selected).state;
      after.messages == sent.messages + [echo] && |after.messages| == |s.messages| + 2
  {
    var sent := HandleSend(s, now, false).state;
    var ms := sent.messages;
    assert !ContainsId(ms, echo.id);
    forall j | 0 <= j < |ms|
      ensures !IsEligibleTemp(ms[j], echo)
    {
      if j < |s.messages| {
        assert ms[..|s.messages|][j] == s.messages[j];
      }
    }
  }

  /** `unreadCount || 0`. */
  function UnreadOf(c: Conversation): int {
    match c.unreadCount
    case Some(n) => n
    case None => 0
  }

  /** The unread total of a list of conversations: the sum of their counts. */
  function UnreadSum(cs: seq<Conversation>): int {
    if cs == [] then 0 else UnreadOf(cs[0]) + UnreadSum(cs[1..])
  }

  lemma {:induction false} UnreadSumAppend(cs: seq<Conversation>, c: Conversation)
    ensures UnreadSum(cs + [c]) == UnreadSum(cs) + UnreadOf(c)
  {
    if cs == [] {
      assert [] + [c] == [c];
    } else {
      assert (cs + [c])[1..] == cs[1..] + [c];
      UnreadSumAppend(cs[1..], c);
    }
  }

  /** The `reduce` of `loadConversations`, accumulating from the left from 0. */
  method TotalUnread(cs: seq<Conversation>) returns (total: int)
    ensures total == UnreadSum(cs)
  {
    total := 0;
    var i := 0;
    while i < |cs|
      invariant 0 <= i <= |cs|
      invariant total == UnreadSum(cs[..i])
    {
      assert cs[..i + 1] == cs[..i] + [cs[i]];
      UnreadSumAppend(cs[..i], cs[i]);
      total := total + UnreadOf(cs[i]);
      i := i + 1;
    }
    assert cs[..|cs|] == cs;
  }

  /** With no negative count, the total is at least every single count. */
  lemma {:induction false} UnreadSumBounds(cs: seq<Conversation>)
    requires forall k :: 0 <= k < |cs| ==> UnreadOf(cs[k]) >= 0
    ensures UnreadSum(cs) >= 0
    ensures forall k :: 0 <= k < |cs| ==> UnreadSum(cs) >= UnreadOf(cs[k])
  {
    if cs != [] {
      UnreadSumBounds(cs[1..]);
      forall k | 1 <= k < |cs|
        ensures UnreadSum(cs) >= UnreadOf(cs[k])
      {
        assert cs[k] == cs[1..][k - 1];
      }
    }
  }

  /** The body of the conversation and message endpoints: `{ data: [...] }`. `NullDocument` is a
      body that parses to `null`; `Document(None)` is one whose `data` is missing or falsy. */
  datatype ListDocument<T> = NullDocument | Document(data: Option<seq<T>>)

  /** `loadConversations`: a failed fetch, a rejected response, a parse error or a `null` document
      leave the state as it was. A document without `data` empties the list but keeps the unread
      total, because the `reduce` over the missing array throws after the list was set. Otherwise
      the list is replaced and the total recomputed. Nothing else changes. */
  function LoadConversations(s: ChatState, resp: Option<Http.Response>,
                             parse: string -> Http.ParseResult<ListDocument<Conversation>>): (r: ChatState)
    ensures r == s.(conversations := r.conversations, unreadTotal := r.unreadTotal)
    ensures resp.None? || Http.JsonBodyText(resp.value).None? ==> r == s
    ensures resp.Some? && Http.JsonBodyText(resp.value).Some? ==>
      match parse(resp.value.body)
      case SyntaxError(_) => r == s
      case Parsed(NullDocument) => r == s
      case Parsed(Document(None)) => r.conversations == [] && r.unreadTotal == s.unreadTotal
      case Parsed(Document(Some(cs))) => r.conversations == cs && r.unreadTotal == UnreadSum(cs)
  {
    if resp.None? then s
    else match Http.JsonBodyText(resp.value)
      case None => s
      case Some(text) =>
        match parse(text)
        case SyntaxError(_) => s
        case Parsed(NullDocument) => s
        case Parsed(Document(None)) => s.(conversations := [])
        case Parsed(Document(Some(cs))) => s.(conversations := cs, unreadTotal := UnreadSum(cs))
  }

  /** The reload yields a list: the response is accepted, parses, and the document has `data`. */
  predicate ListLoaded<T>(resp: Option<Http.Response>, parse: string -> Http.ParseResult<ListDocument<T>>) {
    && resp.Some? && Http.JsonBodyText(resp.value).Some?
    && parse(resp.value.body).Parsed? && parse(resp.value.body).value.Document?
    && parse(resp.value.body).value.data.Some?
  }

  /** `loadConversations` as the component runs it, the total summed by `TotalUnread`'s loop; it
      agrees with the transition. */
  method LoadConversationsByLoop(s: ChatState, resp: Option<Http.Response>,
                                 parse: string -> Http.ParseResult<ListDocument<Conversation>>)
    returns (r: ChatState)
    ensures r == LoadConversations(s, resp, parse)
  {
    r := s;
    if resp.Some? {
      var text := Http.JsonBodyText(resp.value);
      if text.Some? {
        match parse(text.value)
        case Parsed(Document(Some(cs))) =>
          var total := TotalUnread(cs);
          r := s.(conversations := cs, unreadTotal := total);
        case Parsed(Document(None)) =>
          r := s.(conversations := []);
        case _ =>
      }
    }
  }

  /** Loading the same response twice has the effect of loading it once. */
  lemma LoadConversationsIdempotent(s: ChatState, resp: Option<Http.Response>,
                                    parse: string -> Http.ParseResult<ListDocument<Conversation>>)
    ensures LoadConversations(LoadConversations(s, resp, parse), resp, parse) == LoadConversations(s, resp, parse)
  {
  }

  /** `loadMessages`: on an accepted response the message list becomes the document's `data`, or
      empty when it has none; on any failure nothing changes. */
  function LoadMessages(s: ChatState, resp: Option<Http.Response>,
                        parse: string -> Http.ParseResult<ListDocument<Message>>): (r: ChatState)
    ensures r == s.(messages := r.messages)
    ensures resp.None? || Http.JsonBodyText(resp.value).None? ==> r == s
    ensures resp.Some? && Http.JsonBodyText(resp.value).Some? ==>
      match parse(resp.value.body)
      case SyntaxError(_) => r == s
      case Parsed(NullDocument) => r == s
      case Parsed(Document(None)) => r.messages == []
      case Parsed(Document(Some(ms))) => r.messages == ms
  {
    if resp.None? then s
    else match Http.JsonBodyText(resp.value)
      case None => s
      case Some(text) =>
        match parse(text)
        case SyntaxError(_) => s
        case Parsed(NullDocument) => s
        case Parsed(Document(data)) => s.(messages := if data.Some? then data.value else [])
  }

  /** Loading the same response twice has the effect of loading it once. A load that took the
      document's list does not depend on the list shown before; a load that did not keeps it. */
  lemma LoadMessagesReplacesOrKeeps(s: ChatState, other: seq<Message>, resp: Option<Http.Response>,
                                    parse: string -> Http.ParseResult<ListDocument<Message>>)
    ensures LoadMessages(LoadMessages(s, resp, parse), resp, parse) == LoadMessages(s, resp, parse)
    ensures var a := LoadMessages(s, resp, parse);
      var b := LoadMessages(s.(messages := other), resp, parse);
      a.messages == b.messages || (a == s && b == s.(messages := other))
  {
  }

  /** The `admin-notification` handler: one more unread message and a conversation reload. */
  function HandleAdminNotification(s: ChatState): (r: Step)
    ensures r.state == s.(unreadTotal := s.unreadTotal + 1)
    ensures r.effects == [ReloadConversations]
  {
    Step(s.(unreadTotal := s.unreadTotal + 1), [ReloadConversations])
  }

  /** A notification followed by the reload it asks for: a reload that yields a list recomputes the
      total from that list and the increment is gone; any other outcome keeps the incremented total.
      The conversation list ends as the reload alone would leave it. */
  lemma NotificationThenReload(s: ChatState, resp: Option<Http.Response>,
                               parse: string -> Http.ParseResult<ListDocument<Conversation>>)
    ensures var after := LoadConversations(HandleAdminNotification(s).state, resp, parse);
      && after.conversations == LoadConversations(s, resp, parse).conversations
      && (ListLoaded(resp, parse) ==> after.unreadTotal == UnreadSum(parse(resp.value.body).value.data.value))
      && (!ListLoaded(resp, parse) ==> after.unreadTotal == s.unreadTotal + 1)
  {
  }

  /** The text of the navigation badge, `None` when the badge is hidden: the decimal total up to
      99, `99+` beyond. */
  function BadgeLabel(total: int): (r: Option<string>)
    ensures r.None? <==> total <= 0
    ensures total > 99 ==> r == Some("99+")
    ensures 0 < total <= 99 ==>
      1 <= |r.value| <= 2 && AllDigits(r.value) && r.value[0] != '0' && DigitsValue(r.value) == total
  {
    if total <= 0 then None
    else if total > 99 then Some("99+")
    else
      NatToStringRoundTrip(total);
      Some(NatToString(total))
  }

  /** Selecting a conversation: when the selection changes to a non-zero id and the socket exists,
      the page joins the conversation's room (now when connected, else on the next connect) and
      loads its messages. The message list is not cleared. */
  function SelectConversation(s: ChatState, id: int): (r: Step)
    ensures r.state == s.(selected := Some(id))
    ensures s.selected == Some(id) || id == 0 || !s.hasSocket ==> r.effects == []
    ensures s.selected != Some(id) && id != 0 && s.hasSocket ==>
      && |r.effects| == 2
      && r.effects[0] == (if s.connected then Emit(JoinConversation(id, true)) else JoinOnNextConnect(id))
      && r.effects[1] == FetchMessages(id)
  {
    var next := s.(selected := Some(id));
    if s.selected == Some(id) || id == 0 || !s.hasSocket then Step(next, [])
    else
      var join := if s.connected then Emit(JoinConversation(id, true)) else JoinOnNextConnect(id);
      Step(next, [join, FetchMessages(id)])
  }

  /** Selecting the conversation already selected starts nothing, and every effect of a selection
      names the chosen conversation. */
  lemma SelectAgainIsQuiet(s: ChatState, id: int)
    ensures var first := SelectConversation(s, id);
      SelectConversation(first.state, id) == Step(first.state, [])
    ensures forall e | e in SelectConversation(s, id).effects ::
      e == Emit(JoinConversation(id, true)) || e == JoinOnNextConnect(id) || e == FetchMessages(id)
  {
  }

  /** The file picked for upload: its MIME type and its size in bytes. */
  datatype ImageFile = ImageFile(mimeType: string, size: int)

  /** Uploads larger than this many bytes (5 MiB) are refused. */
  const MaxImageBytes := 5 * 1024 * 1024

  const NotAnImageAlert := "Please select an image file"
  const TooLargeAlert := "Image size must be less than 5MB"
  const UploadFailedAlert := "Failed to upload image"

  /** The checks of `handleImageUpload` before anything is sent: no file, no selection or no socket
      does nothing; a type outside `image/` or a size over 5 MiB raises an alert; anything else
      starts the upload. */
  function HandleImageSelected(s: ChatState, file: Option<ImageFile>): (r: Step)
    ensures (UploadImage in r.effects) <==>
      file.Some? && HasSelection(s) && s.hasSocket
      && StartsWith(file.value.mimeType, "image/") && file.value.size <= MaxImageBytes
    ensures UploadImage in r.effects ==> r == Step(s.(uploading := true), [UploadImage])
    ensures UploadImage !in r.effects ==> r.state == s && |r.effects| <= 1
    ensures file.None? || !HasSelection(s) || !s.hasSocket ==> r == Step(s, [])
    ensures file.Some? && HasSelection(s) && s.hasSocket && !StartsWith(file.value.mimeType, "image/") ==>
      r.effects == [Alert(NotAnImageAlert)]
    ensures
      (file.Some? && HasSelection(s) && s.hasSocket && StartsWith(file.value.mimeType, "image/") &&
       file.value.size > MaxImageBytes) ==> r.effects == [Alert(TooLargeAlert)]
  {
    if file.None? || !HasSelection(s) || !s.hasSocket then Step(s, [])
    else if !StartsWith(file.value.mimeType, "image/") then Step(s, [Alert(NotAnImageAlert)])
    else if file.value.size > MaxImageBytes then Step(s, [Alert(TooLargeAlert)])
    else Step(s.(uploading := true), [UploadImage])
  }

  /** How the upload request ended: it threw, or it replied with `data.imageUrl` (`None` when absent). */
  datatype UploadOutcome = UploadFailed | UploadReplied(imageUrl: Option<string>)

  /** The rest of `handleImageUpload` for conversation `conv`: a reply with a non-empty image URL
      appends a provisional image message and emits `send-message`; a failed upload, or an emit
      that throws, raises an alert. The uploading flag is cleared in every case. */
  function CompleteImageUpload(s: ChatState, conv: int, outcome: UploadOutcome, now: int, emitFails: bool)
    : (r: Step)
    ensures r.state.uploading == false
    ensures r.state.(messages := s.messages, uploading := s.uploading) == s
    ensures outcome.UploadReplied? && Truthy(outcome.imageUrl) ==>
      && r.state.messages == s.messages + [Message(now, 0, Admin, None, outcome.imageUrl, now, false)]
      && r.effects == if emitFails then [Alert(UploadFailedAlert)]
                      else [Emit(SendMessage(conv, 0, Admin, None, outcome.imageUrl))]
    ensures !(outcome.UploadReplied? && Truthy(outcome.imageUrl)) ==>
      r.state.messages == s.messages
      && r.effects == if outcome.UploadFailed? then [Alert(UploadFailedAlert)] else []
  {
    var done := s.(uploading := false);
    match outcome
    case UploadFailed => Step(done, [Alert(UploadFailedAlert)])
    case UploadReplied(url) =>
      if !Truthy(url) then Step(done, [])
      else
        var temp := Message(now, 0, Admin, None, url, now, false);
        var next := done.(messages := s.messages + [temp]);
        if emitFails then Step(next, [Alert(UploadFailedAlert)])
        else Step(next, [Emit(SendMessage(conv, 0, Admin, None, url))])
  }

  /** An accepted image followed by the end of its upload: the flag is raised, then cleared whatever
      the outcome; at most one message is added, and a reply with a non-empty URL adds exactly the
      provisional image message for the selected conversation. Nothing else changes. */
  lemma ImageUploadRoundTrip(s: ChatState, file: ImageFile, outcome: UploadOutcome, now: int, emitFails: bool)
    requires HasSelection(s) && s.hasSocket
    requires StartsWith(file.mimeType, "image/") && file.size <= MaxImageBytes
    ensures var started := HandleImageSelected(s, Some(file));
      var done := CompleteImageUpload(started.state, s.selected.value, outcome, now, emitFails);
      && started == Step(s.(uploading := true), [UploadImage])
      && done.state == s.(messages := done.state.messages, uploading := false)
      && s.messages <= done.state.messages && |done.state.messages| <= |s.messages| + 1
      && (outcome.UploadReplied? && Truthy(outcome.imageUrl) ==>
            && done.state.messages == s.messages + [Message(now, 0, Admin, None, outcome.imageUrl, now, false)]
            && (!emitFails ==> done.effects == [Emit(SendMessage(s.selected.value, 0, Admin, None, outcome.imageUrl))]))
  {
  }

  const UploadsPrefix := "/uploads/"
  const AppOrigin := "http://localhost:4321"

  /** The `src` of a message image: absolute URLs unchanged, `/uploads/` paths served from the main
      application's origin, anything else unchanged. */
  function ImageSrc(url: string): (r: string)
    ensures StartsWith(url, "http") ==> r == url
    ensures !StartsWith(url, "http") && StartsWith(url, UploadsPrefix) ==> r == AppOrigin + url
    ensures !StartsWith(url, "http") && !StartsWith(url, UploadsPrefix) ==> r == url
  {
    if StartsWith(url, "http") then url
    else if StartsWith(url, UploadsPrefix) then AppOrigin + url
    else url
  }

  /** Rewriting is idempotent, and an uploaded image's path survives as the suffix of its URL. */
  lemma ImageSrcIdempotent(url: string)
    ensures ImageSrc(ImageSrc(url)) == ImageSrc(url)
    ensures |url| <= |ImageSrc(url)| && ImageSrc(url)[|ImageSrc(url)| - |url|..] == url
  {
    if !StartsWith(url, "http") && StartsWith(url, UploadsPrefix) {
      var r := AppOrigin + url;
      assert r[..4] == "http";
    }
  }
}
