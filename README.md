# Social-media backend: a Dafny model of its services and controller

The system is a small Spring Boot backend: accounts register and log in,
and messages are created, listed, read, updated and deleted over HTTP. Its
logic lives in two service classes, `AccountService` and `MessageService`,
which validate input and read or write two tables through Spring Data
repositories. On top of them, `SocialMediaController` turns each service
result into an HTTP status and an optional body.

This model has two layers.

* **Rules, as functions of table values.** A `Table<T>` is a map from id to
  row plus the next fresh id (`repositories.dfy`). The repository queries
  are map operations: `findById`, `existsById`, `findAll`, `deleteById`, and
  the two equality lookups `findByUsername` and `findByPostedBy`.
  `AccountRules` and `MessageRules` give each service operation as a
  function returning the new table and the Java return value, with `None`
  standing for `null`. `ControllerRules` gives each handler's decision as a
  function, puts both tables into one `Store`, handles one `Request` of each
  of the eight endpoints (`Handle`), and handles any sequence of them
  (`Run`). The lemmas about the system's behaviour are stated at this level.
* **Objects, as in the source.** `AccountRepository` and `MessageRepository`
  are classes whose `rows` and `nextId` fields change in place. The services
  and the controller are classes holding references to them, and the
  message service shares the account repository with the account service.
  Each method runs the Java method's steps and is proved to leave the
  tables, and to return, exactly what the rule functions say. Handlers that
  only read are functions with `reads` clauses, so they cannot change a table.

Invariants kept by every operation, and so under any sequence of requests
(`ControllerRules.Run`):

* every row is stored under its own id, and every id is below the next fresh one;
* usernames are unique;
* every stored account has a non-null, non-blank username and a non-null
  password of at least 4 UTF-16 code units;
* every stored message text is non-null, non-blank and at most 255 UTF-16
  code units.

Text rules follow Java for strings made of whole code points. `isBlank`
uses `Character.isWhitespace` on code
points, as the table stands from Java 11 on. `length()` counts UTF-16 code
units, so a character outside the Basic Multilingual Plane counts twice.
`Utf16Length` proves this count equals the number of characters exactly
when every character is in the BMP. So for ordinary text the limits really
are 255 characters for a message and 4 for a password.

Behaviour worth knowing, all proved:

* `login` in the service does not compare passwords, although its doc
  comment says it authenticates. Only the controller compares the stored
  password with the supplied one.
* When registration fails, the register handler looks the username up
  again. So a taken username is answered 409 even when the password is too
  short, and a password shorter than 4 gets 400 only when the username is
  free.
* Reading or deleting a message id that does not exist answers 200 with an
  empty body, never 404.

## Model

| member | source | states |
|---|---|---|
| Validation.Utf16Length | src/main/java/com/example/service/MessageService.java:42 | `length()` counts UTF-16 code units: between the number of code points and twice that, and equal to the number of code points iff all are in the BMP |
| Validation.MessageTextBoundary | src/main/java/com/example/service/MessageService.java:42 | for non-blank BMP text the message-text rule accepts exactly lengths up to 255 (255 accepted, 256 rejected) |
| Validation.BlankTextsRejected | src/main/java/com/example/service/MessageService.java:42 | null, empty and all-whitespace texts fail the message-text rule |
| Validation.PasswordBoundary | src/main/java/com/example/service/AccountService.java:35 | with a non-blank username, the registration check accepts exactly BMP passwords of length at least 4 (3 rejected, 4 accepted) |
| Repositories.FindByUsername | src/main/java/com/example/repository/AccountRepository.java:19 | `findByUsername` returns a row iff some stored account has that username, and the row it returns is stored and carries that username |
| Repositories.RowsOfSize | src/main/java/com/example/repository/MessageRepository.java:21 | rows stored under distinct ids are distinct, so a set of ids yields as many rows as ids |
| Repositories.FindAllExact | src/main/java/com/example/service/MessageService.java:53-55 | `findAll` lists exactly the stored messages, one per row |
| Repositories.FindByPostedByExact | src/main/java/com/example/repository/MessageRepository.java:17-21 | `findByPostedBy(u)` lists exactly the stored messages with `postedBy == u`, one per matching row |
| Repositories.AccountRepository.Save | src/main/java/com/example/service/AccountService.java:41 | `save` of a new account stores it under the fresh id, which was unused, returns the stored row and advances the counter |
| Repositories.MessageRepository.Save | src/main/java/com/example/service/MessageService.java:46 | `save` of a new message stores it under the fresh id, which was unused, returns the stored row and advances the counter |
| Repositories.MessageRepository.Merge | src/main/java/com/example/service/MessageService.java:88 | `save` of a stored message overwrites its row and nothing else |
| Repositories.MessageRepository.DeleteById | src/main/java/com/example/service/MessageService.java:70-72 | `deleteById` removes that id's row and nothing else |
| AccountRules.Register | src/main/java/com/example/service/AccountService.java:34-42 | `register` keeps the account-table invariant: ids keyed, usernames unique, stored accounts well formed |
| AccountRules.RegisterOutcome | src/main/java/com/example/service/AccountService.java:34-42 | `register` succeeds iff the account passes the shape checks and its username is free; on failure the table is unchanged; on success exactly one row is added under a fresh id with the given username and password, and it is returned |
| AccountRules.RegisterRejectsMalformed | src/main/java/com/example/service/AccountService.java:35-37 | null or blank username, or null or too-short password: returns null, table unchanged |
| AccountRules.RegisterRejectsTaken | src/main/java/com/example/service/AccountService.java:38-40 | an existing username: returns null, table unchanged |
| AccountRules.RegisterTwice | src/main/java/com/example/service/AccountService.java:38-41 | a second registration of the same username is rejected with the table unchanged |
| AccountRules.LoginIgnoresPassword | src/main/java/com/example/service/AccountService.java:49-51 | `login` returns the stored account with that username or null, and the supplied password makes no difference |
| AccountRules.LoginDoesNotCheckPassword | src/main/java/com/example/service/AccountService.java:44-51 | `login` returns the stored account with the supplied username even when the password differs, despite its doc comment |
| MessageRules.CreateMessage | src/main/java/com/example/service/MessageService.java:41-47 | `createMessage` keeps the message-table invariant: rows keyed by id, every stored text valid |
| MessageRules.DeleteMessage | src/main/java/com/example/service/MessageService.java:70-72 | `deleteMessage` keeps the message-table invariant |
| MessageRules.UpdateMessage | src/main/java/com/example/service/MessageService.java:82-92 | `updateMessage` keeps the message-table invariant: rows keyed by id, every stored text valid |
| MessageRules.CreateMessageOutcome | src/main/java/com/example/service/MessageService.java:41-47 | `createMessage` succeeds iff the text passes the text rule and the poster is an account id; on failure the table is unchanged; on success exactly one row is added under a fresh id with the given poster, text and timestamp, and it is returned |
| MessageRules.CreateMessageLengthBoundary | src/main/java/com/example/service/MessageService.java:42 | with an existing poster and non-blank BMP text, creation succeeds iff the text has at most 255 characters |
| MessageRules.CreateAndUpdateAcceptSameTexts | src/main/java/com/example/service/MessageService.java:42-86 | with an existing poster and an existing row, create and update accept exactly the same texts |
| MessageRules.GetMessageByIdOutcome | src/main/java/com/example/service/MessageService.java:62-64 | `getMessageById` returns the row iff the id is present |
| MessageRules.DeleteMessageOutcome | src/main/java/com/example/service/MessageService.java:70-72 | after `deleteMessage(id)` no row with that id remains and every other row is unchanged; an absent id changes nothing |
| MessageRules.UpdateMessageOutcome | src/main/java/com/example/service/MessageService.java:82-92 | `updateMessage` succeeds iff the row exists and the new text passes the text rule; on failure the table is unchanged; on success only that row's `messageText` changes, while its id, `postedBy`, `postedAt` and all other rows stay |
| MessageRules.ListingsExact | src/main/java/com/example/service/MessageService.java:99-101 | `getMessagesByUser(u)` is exactly the stored messages posted by `u`, one per matching row; `getAllMessages` has one entry per row |
| ControllerRules.Handle | src/main/java/com/example/controller/SocialMediaController.java:43-148 | every handler keeps both tables' invariants |
| ControllerRules.Run | src/main/java/com/example/controller/SocialMediaController.java:43-148 | under any sequence of requests the invariants hold (unique usernames, well-formed accounts, valid stored message texts) and there is one response per request |
| ControllerRules.RegisterStatus | src/main/java/com/example/controller/SocialMediaController.java:43-52 | 200 with the saved account iff well formed and the username is free; 409 iff the username is taken; 400 iff malformed and free; only a 200 changes the store |
| ControllerRules.TakenUsernameWithShortPasswordConflicts | src/main/java/com/example/controller/SocialMediaController.java:47-48 | a taken username with a too-short password gets 409, not 400 |
| ControllerRules.BlankUsernameIsBadRequest | src/main/java/com/example/controller/SocialMediaController.java:49-50 | a null or blank username always gets 400 |
| ControllerRules.SecondRegistrationConflicts | src/main/java/com/example/controller/SocialMediaController.java:44-48 | registering the same account twice gets 200, then 409 |
| ControllerRules.LoginStatus | src/main/java/com/example/controller/SocialMediaController.java:61-68 | 200 with the stored account iff an account with that username exists and its password equals the supplied one, else 401; the store is unchanged |
| ControllerRules.CreateMessageStatus | src/main/java/com/example/controller/SocialMediaController.java:77-84 | 200 with the saved message iff the text is valid and the poster exists, else 400 with nothing changed |
| ControllerRules.GetMessageByIdStatus | src/main/java/com/example/controller/SocialMediaController.java:101-104 | always 200, with a body iff the id exists; never 404 |
| ControllerRules.DeleteMessageStatus | src/main/java/com/example/controller/SocialMediaController.java:113-121 | always 200; body 1 and only that row removed iff it existed, else empty body and nothing changed |
| ControllerRules.UpdateMessageStatus | src/main/java/com/example/controller/SocialMediaController.java:131-138 | 200 with body 1 iff the row exists and the text is valid, and then only that row's text changes; else 400 with nothing changed |
| ControllerRules.ListStatus | src/main/java/com/example/controller/SocialMediaController.java:91-93 | both list endpoints always answer 200 with the listing, possibly empty, and change nothing |
| ControllerRules.AccountsPersist | src/main/java/com/example/service/AccountService.java:34-51 | under any sequence of requests no account row is changed or removed, and the id counters never go back |
| Services.AccountService.constructor | src/main/java/com/example/service/AccountService.java:22-24 | the service holds the given repository |
| Services.AccountService.Register | src/main/java/com/example/service/AccountService.java:34-42 | the method leaves the table and returns exactly what `AccountRules.Register` gives, keeping the invariant |
| Services.AccountService.Login | src/main/java/com/example/service/AccountService.java:49-51 | the lookup equals `AccountRules.Login` on the current table; as a function it cannot change the table |
| Services.MessageService.constructor | src/main/java/com/example/service/MessageService.java:29-32 | the service holds the given repositories |
| Services.MessageService.CreateMessage | src/main/java/com/example/service/MessageService.java:41-47 | the method leaves the table and returns exactly what `MessageRules.CreateMessage` gives over the shared account table |
| Services.MessageService.GetAllMessages | src/main/java/com/example/service/MessageService.java:53-55 | equals `MessageRules.GetAllMessages` on the current table |
| Services.MessageService.GetMessageById | src/main/java/com/example/service/MessageService.java:62-64 | equals `MessageRules.GetMessageById` on the current table |
| Services.MessageService.DeleteMessage | src/main/java/com/example/service/MessageService.java:70-72 | the new table is `MessageRules.DeleteMessage` of the old one |
| Services.MessageService.UpdateMessage | src/main/java/com/example/service/MessageService.java:82-92 | fetch, set the text on the fetched copy, save it; ends exactly as `MessageRules.UpdateMessage` says |
| Services.MessageService.GetMessagesByUser | src/main/java/com/example/service/MessageService.java:99-101 | equals `MessageRules.GetMessagesByUser` on the current table |
| Controller.SocialMediaController.constructor | src/main/java/com/example/controller/SocialMediaController.java:31-34 | the controller holds the given services |
| Controller.SocialMediaController.Register | src/main/java/com/example/controller/SocialMediaController.java:43-52 | answers and leaves the store as `Handle` does for a register request |
| Controller.SocialMediaController.Login | src/main/java/com/example/controller/SocialMediaController.java:61-68 | answers as `Handle` does for a login request, store unchanged |
| Controller.SocialMediaController.CreateMessage | src/main/java/com/example/controller/SocialMediaController.java:77-84 | answers and leaves the store as `Handle` does for a create request |
| Controller.SocialMediaController.GetAllMessages | src/main/java/com/example/controller/SocialMediaController.java:91-93 | answers as `Handle` does for a list request, store unchanged |
| Controller.SocialMediaController.GetMessageById | src/main/java/com/example/controller/SocialMediaController.java:101-104 | answers as `Handle` does for a get-by-id request, store unchanged |
| Controller.SocialMediaController.DeleteMessage | src/main/java/com/example/controller/SocialMediaController.java:113-121 | checks existence, deletes only then; answers and leaves the store as `Handle` does |
| Controller.SocialMediaController.UpdateMessage | src/main/java/com/example/controller/SocialMediaController.java:131-138 | answers and leaves the store as `Handle` does for an update request |
| Controller.SocialMediaController.GetMessagesByUser | src/main/java/com/example/controller/SocialMediaController.java:146-148 | answers as `Handle` does for a per-account list request, store unchanged |

## Left out

- Spring wiring, routing annotations, `ResponseEntity` construction and JSON (de)serialisation: each handler takes its decoded body and path variables and returns a status with an optional body.
- JPA internals. `save` is split into `Save`, where a new entity gets the next fresh id, and `Merge`, which overwrites a stored entity. An id supplied by the client in a create or register body is ignored. In JPA such an id could make `save` merge into an existing row; that case is not modelled.
- Transactions, flushing and the persistence context. An entity is a value: the fetched message is copied, its text is set, and the copy is saved. Aliasing between the managed entity and other readers is not modelled.
- Repositories.FindByUsername: it requires usernames to be unique. Spring's single-result query throws when several rows match, and the account-table invariant rules that out.
- `findByUsername(null)` is modelled as an equality lookup. No stored username is null, so it finds nothing. What the framework actually does with a null parameter is not modelled.
- Database collation: username equality is exact. A case-insensitive collation would make the lookup coarser.
- `deleteById` on an absent id is a no-op here. Whether it throws depends on the Spring Data version, and the controller deletes only after an existence check.
- `postedBy` is an `int`. A null `postedBy`, which would make `existsById` throw, is not modelled.
- `postedAt` is carried through untouched, as the source does.
- Order of `findAll` and `findByPostedBy` results: the store decides it, so listings are sets.
- A null stored password, which would make the login handler throw: the invariant excludes it.
- Concurrency: two registrations of the same username racing past the uniqueness check. Requests run one at a time here.
- Whitespace is Java's `Character.isWhitespace` table as it stands from Java 11 on, the first release with `String.isBlank`; changes in later Unicode versions are not tracked.
- Unpaired surrogates: a Dafny `char` is a Unicode scalar value, so the model has no string holding a lone UTF-16 surrogate. A Java `String` can hold one (a JSON body with `"\uD800"`), where it counts as one non-blank code unit, so `createMessage` accepts it as text; the model does not capture such inputs.
- 32-bit ids: ids, the id counter and the path variables are Java `int`/`Integer` in the source, but unbounded integers here; overflow of the store's id sequence and out-of-range path variables are not modelled.
- The `Account` and `Message` entity classes are not part of this model. Their fields are taken from the getters and setters the services call.
