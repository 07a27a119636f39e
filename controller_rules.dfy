/** `SocialMediaController` as functions: each handler's decision from the
    service results to a status and an optional body, the whole store, one
    request of each endpoint, and runs of requests. */
module ControllerRules {
  import opened Entities
  import opened Validation
  import opened Repositories
  import opened AccountRules
  import opened MessageRules

  datatype Status = Ok | BadRequest | Unauthorized | Conflict

  /** The HTTP status code of each outcome. */
  function Code(s: Status): int {
    match s
    case Ok => 200
    case BadRequest => 400
    case Unauthorized => 401
    case Conflict => 409
  }

  /** What a response carries: an account, a message, a row count, or a list
      of messages in no particular order. */
  datatype Body = AccountBody(account: Account) | MessageBody(message: Message) | CountBody(count: int) | ListBody(messages: set<Message>)

  datatype Response = Response(status: Status, body: Option<Body>)

  /** POST /register: 200 with the saved account; else 409 when an account
      with that username exists; else 400. */
  function RegisterResponse(registered: Option<Account>, existing: Option<Account>): Response {
    if registered.Some? then Response(Ok, Some(AccountBody(registered.value)))
    else if existing.Some? then Response(Conflict, None)
    else Response(BadRequest, None)
  }

  /** POST /login: 200 with the stored account when one was found and its
      password equals the supplied one; else 401. */
  function LoginResponse(found: Option<Account>, supplied: Account): Response {
    if found.Some? && found.value.password == supplied.password then Response(Ok, Some(AccountBody(found.value)))
    else Response(Unauthorized, None)
  }

  /** POST /messages: 200 with the saved message, else 400. */
  function CreateMessageResponse(created: Option<Message>): Response {
    if created.Some? then Response(Ok, Some(MessageBody(created.value))) else Response(BadRequest, None)
  }

  /** GET /messages and GET /accounts/{id}/messages: always 200 with the list. */
  function ListResponse(messages: set<Message>): Response {
    Response(Ok, Some(ListBody(messages)))
  }

  /** GET /messages/{id}: always 200, with the message when there is one. */
  function GetMessageResponse(found: Option<Message>): Response {
    if found.Some? then Response(Ok, Some(MessageBody(found.value))) else Response(Ok, None)
  }

  /** DELETE /messages/{id}: always 200, with count 1 when the message existed. */
  function DeleteMessageResponse(existed: bool): Response {
    if existed then Response(Ok, Some(CountBody(1))) else Response(Ok, None)
  }

  /** PATCH /messages/{id}: 200 with count 1 when the update happened, else 400. */
  function UpdateMessageResponse(updated: Option<Message>): Response {
    if updated.Some? then Response(Ok, Some(CountBody(1))) else Response(BadRequest, None)
  }

  /** Both tables. */
  datatype Store = Store(accounts: Table<Account>, messages: Table<Message>)

  predicate ValidStore(s: Store) {
    ValidAccountTable(s.accounts) && ValidMessageTable(s.messages)
  }

  /** One request to each of the eight endpoints, with its decoded body and
      path variables. */
  datatype Request =
    | RegisterRequest(account: Account)
    | LoginRequest(account: Account)
    | CreateMessageRequest(message: Message)
    | GetAllMessagesRequest
    | GetMessageByIdRequest(messageId: int)
    | DeleteMessageRequest(messageId: int)
    | UpdateMessageRequest(messageId: int, message: Message)
    | GetMessagesByUserRequest(accountId: int)

  datatype Reply = Reply(store: Store, response: Response)

  /** One request handled, in the order the handler makes its service calls:
      register then look the username up again; look the message up, then
      delete it only if it is there. The store keeps its invariant. */
  function Handle(s: Store, req: Request): (r: Reply)
    requires ValidStore(s)
    ensures ValidStore(r.store)
  {
    match req
    case RegisterRequest(a) =>
      var o := Register(s.accounts, a);
      Reply(s.(accounts := o.table), RegisterResponse(o.result, Login(o.table, a)))
    case LoginRequest(a) =>
      Reply(s, LoginResponse(Login(s.accounts, a), a))
    case CreateMessageRequest(m) =>
      var o := CreateMessage(s.messages, s.accounts.rows, m);
      Reply(s.(messages := o.table), CreateMessageResponse(o.result))
    case GetAllMessagesRequest =>
      Reply(s, ListResponse(GetAllMessages(s.messages)))
    case GetMessageByIdRequest(id) =>
      Reply(s, GetMessageResponse(GetMessageById(s.messages, id)))
    case DeleteMessageRequest(id) =>
      if GetMessageById(s.messages, id).Some? then
        Reply(s.(messages := DeleteMessage(s.messages, id)), DeleteMessageResponse(true))
      else
        Reply(s, DeleteMessageResponse(false))
    case UpdateMessageRequest(id, patch) =>
      var o := UpdateMessage(s.messages, id, patch);
      Reply(s.(messages := o.table), UpdateMessageResponse(o.result))
    case GetMessagesByUserRequest(u) =>
      Reply(s, ListResponse(GetMessagesByUser(s.messages, u)))
  }

  /** A sequence of requests handled one after another, with one response
      per request; the store keeps its invariant throughout. */
  function Run(s: Store, reqs: seq<Request>): (r: (Store, seq<Response>))
    requires ValidStore(s)
    ensures ValidStore(r.0) && |r.1| == |reqs|
    decreases |reqs|
  {
    if reqs == [] then (s, [])
    else
      var step := Handle(s, reqs[0]);
      var rest := Run(step.store, reqs[1..]);
      (rest.0, [step.response] + rest.1)
  }

  /** Register answers 200 with the saved account iff the account passes the
      shape checks and its username is free; 409 iff the username is taken,
      whatever the password; 400 in every other case. Only a 200 changes the
      account table, and none changes the message table. */
  lemma RegisterStatus(s: Store, a: Account)
    requires ValidStore(s)
    ensures var r := Handle(s, RegisterRequest(a));
      && (r.response.status == Ok <==> ValidRegistration(a) && !UsernameTaken(s.accounts.rows, a.username))
      && (r.response.status == Conflict <==> UsernameTaken(s.accounts.rows, a.username))
      && (r.response.status == BadRequest <==> !ValidRegistration(a) && !UsernameTaken(s.accounts.rows, a.username))
      && (r.response.status == Ok ==> r.response.body == Some(AccountBody(Account(s.accounts.nextId, a.username, a.password))))
      && (r.response.status != Ok ==> r.store == s && r.response.body == None)
      && r.store.messages == s.messages
  {
  }

  /** A taken username with a too-short password is answered 409, not 400. */
  lemma TakenUsernameWithShortPasswordConflicts(s: Store, a: Account)
    requires ValidStore(s)
    requires UsernameTaken(s.accounts.rows, a.username)
    requires a.password.Some? && Utf16Length(a.password.value) < MinPasswordLength
    ensures Handle(s, RegisterRequest(a)).response == Response(Conflict, None)
    ensures Code(Handle(s, RegisterRequest(a)).response.status) == 409
  {
  }

  /** A null or blank username is always answered 400: no stored account has
      such a username, so the conflict branch cannot be taken. */
  lemma BlankUsernameIsBadRequest(s: Store, a: Account)
    requires ValidStore(s)
    requires a.username.None? || IsBlank(a.username.value)
    ensures Handle(s, RegisterRequest(a)).response == Response(BadRequest, None)
  {
  }

  /** Registering the same well-formed account twice: 200 the first time,
      409 the second. */
  lemma SecondRegistrationConflicts(s: Store, a: Account)
    requires ValidStore(s)
    requires ValidRegistration(a) && !UsernameTaken(s.accounts.rows, a.username)
    ensures Handle(s, RegisterRequest(a)).response.status == Ok
    ensures Handle(Handle(s, RegisterRequest(a)).store, RegisterRequest(a)).response == Response(Conflict, None)
  {
    var s' := Handle(s, RegisterRequest(a)).store;
    RegisterStatus(s, a);
    RegisterTwice(s.accounts, a);
    RegisterStatus(s', a);
  }

  /** Login answers 200 with the stored account iff an account with the
      supplied username exists and its stored password equals the supplied
      one; otherwise 401. The store never changes. */
  lemma LoginStatus(s: Store, a: Account)
    requires ValidStore(s)
    ensures var r := Handle(s, LoginRequest(a));
      && r.store == s
      && (r.response.status == Ok <==>
            exists id :: id in s.accounts.rows && s.accounts.rows[id].username == a.username && s.accounts.rows[id].password == a.password)
      && (r.response.status == Ok ==>
            exists id :: id in s.accounts.rows && r.response.body == Some(AccountBody(s.accounts.rows[id])) && s.accounts.rows[id].username == a.username)
      && (r.response.status != Ok ==> r.response == Response(Unauthorized, None))
  {
  }

  /** Create answers 200 with the saved message iff the text passes the text
      rule and the poster is an account; otherwise 400 and nothing changes. */
  lemma CreateMessageStatus(s: Store, m: Message)
    requires ValidStore(s)
    ensures var r := Handle(s, CreateMessageRequest(m));
      && (r.response.status == Ok <==> ValidMessageText(m.messageText) && m.postedBy in s.accounts.rows)
      && (r.response.status == Ok ==> r.response.body == Some(MessageBody(m.(id := s.messages.nextId))))
      && (r.response.status != Ok ==> r.response == Response(BadRequest, None) && r.store == s)
      && r.store.accounts == s.accounts
  {
  }

  /** Get-by-id always answers 200, with the message iff it exists; it
      never answers 404 and never changes the store. */
  lemma GetMessageByIdStatus(s: Store, id: int)
    requires ValidStore(s)
    ensures var r := Handle(s, GetMessageByIdRequest(id));
      && r.store == s && r.response.status == Ok
      && (r.response.body.Some? <==> id in s.messages.rows)
      && (id in s.messages.rows ==> r.response.body == Some(MessageBody(s.messages.rows[id])))
  {
  }

  /** Delete always answers 200. When the message existed the body is 1 and
      only that row is gone; otherwise the body is empty and nothing changes. */
  lemma DeleteMessageStatus(s: Store, id: int)
    requires ValidStore(s)
    ensures var r := Handle(s, DeleteMessageRequest(id));
      && r.response.status == Ok
      && r.store.accounts == s.accounts
      && (id in s.messages.rows ==> r.response.body == Some(CountBody(1)) && r.store.messages.rows == s.messages.rows - {id})
      && (id !in s.messages.rows ==> r.response.body == None && r.store == s)
  {
  }

  /** Update answers 200 with body 1 iff the message exists and the new text
      passes the text rule, and then only that message's text changes;
      otherwise 400 and nothing changes. */
  lemma UpdateMessageStatus(s: Store, id: int, patch: Message)
    requires ValidStore(s)
    ensures var r := Handle(s, UpdateMessageRequest(id, patch));
      && (r.response.status == Ok <==> id in s.messages.rows && ValidMessageText(patch.messageText))
      && (r.response.status == Ok ==>
            && r.response.body == Some(CountBody(1))
            && r.store.messages.rows == s.messages.rows[id := s.messages.rows[id].(messageText := patch.messageText)])
      && (r.response.status != Ok ==> r.response == Response(BadRequest, None) && r.store == s)
      && r.store.accounts == s.accounts
  {
  }

  /** The two list endpoints always answer 200 with the listing, possibly
      empty, and change nothing. */
  lemma ListStatus(s: Store, u: int)
    requires ValidStore(s)
    ensures var r := Handle(s, GetAllMessagesRequest);
      r.store == s && r.response == Response(Ok, Some(ListBody(s.messages.rows.Values)))
    ensures var r := Handle(s, GetMessagesByUserRequest(u));
      && r.store == s && r.response.status == Ok && r.response.body.Some? && r.response.body.value.ListBody?
      && forall m :: m in r.response.body.value.messages <==> m.id in s.messages.rows && s.messages.rows[m.id] == m && m.postedBy == u
  {
  }

  /** Accounts are never changed or removed, and ids are never handed out
      twice, whatever sequence of requests arrives. */
  lemma {:induction false} AccountsPersist(s: Store, reqs: seq<Request>)
    requires ValidStore(s)
    ensures var s' := Run(s, reqs).0;
      && (forall id :: id in s.accounts.rows ==> id in s'.accounts.rows && s'.accounts.rows[id] == s.accounts.rows[id])
      && s.accounts.nextId <= s'.accounts.nextId
      && s.messages.nextId <= s'.messages.nextId
    decreases |reqs|
  {
    if reqs != [] {
      var step := Handle(s, reqs[0]);
      AccountsPersist(step.store, reqs[1..]);
      if reqs[0].RegisterRequest? {
        RegisterOutcome(s.accounts, reqs[0].account);
      }
    }
  }
}
