/** The controller class over the two services. The handlers that change a
    table are methods; the ones that only read are functions. Each is proved
    to answer, and to leave the store, exactly as `ControllerRules.Handle`
    says for the corresponding request. */
module Controller {
  import opened Entities
  import opened Services
  import opened ControllerRules

  class SocialMediaController {
    const accountService: AccountService
    const messageService: MessageService

    /** Both services see the same account table, and both tables keep
        their invariants. */
    ghost predicate Valid()
      reads accountService.accountRepository, messageService.messageRepository
    {
      && messageService.accountRepository == accountService.accountRepository
      && accountService.Valid() && messageService.Valid()
    }

    /** The store the two repositories hold. */
    ghost function Store(): ControllerRules.Store
      reads accountService.accountRepository, messageService.messageRepository
    {
      ControllerRules.Store(accountService.accountRepository.Contents(), messageService.messageRepository.Contents())
    }

    constructor (accountService: AccountService, messageService: MessageService)
      ensures this.accountService == accountService && this.messageService == messageService
    {
      this.accountService := accountService;
      this.messageService := messageService;
    }

    /** POST /register. */
    method Register(a: Account) returns (resp: Response)
      requires Valid()
      modifies accountService.accountRepository
      ensures Valid()
      ensures Reply(Store(), resp) == Handle(old(Store()), RegisterRequest(a))
    {
      var registered := accountService.Register(a);
      if registered.Some? {
        resp := Response(Ok, Some(AccountBody(registered.value)));
      } else if accountService.Login(a).Some? {
        resp := Response(Conflict, None);
      } else {
        resp := Response(BadRequest, None);
      }
    }

    /** POST /login. */
    function Login(a: Account): (resp: Response)
      reads accountService.accountRepository, messageService.messageRepository
      requires Valid()
      ensures Reply(Store(), resp) == Handle(Store(), LoginRequest(a))
    {
      var found := accountService.Login(a);
      if found.Some? && found.value.password == a.password then Response(Ok, Some(AccountBody(found.value)))
      else Response(Unauthorized, None)
    }

    /** POST /messages. */
    method CreateMessage(m: Message) returns (resp: Response)
      requires Valid()
      modifies messageService.messageRepository
      ensures Valid()
      ensures Reply(Store(), resp) == Handle(old(Store()), CreateMessageRequest(m))
    {
      var created := messageService.CreateMessage(m);
      if created.Some? {
        resp := Response(Ok, Some(MessageBody(created.value)));
      } else {
        resp := Response(BadRequest, None);
      }
    }

    /** GET /messages. */
    function GetAllMessages(): (resp: Response)
      reads accountService.accountRepository, messageService.messageRepository
      requires Valid()
      ensures Reply(Store(), resp) == Handle(Store(), GetAllMessagesRequest)
    {
      Response(Ok, Some(ListBody(messageService.GetAllMessages())))
    }

    /** GET /messages/{messageId}. */
    function GetMessageById(messageId: int): (resp: Response)
      reads accountService.accountRepository, messageService.messageRepository
      requires Valid()
      ensures Reply(Store(), resp) == Handle(Store(), GetMessageByIdRequest(messageId))
    {
      var found := messageService.GetMessageById(messageId);
      if found.Some? then Response(Ok, Some(MessageBody(found.value))) else Response(Ok, None)
    }

    /** DELETE /messages/{messageId}: look the message up, delete it only if
        it is there. */
    method DeleteMessage(messageId: int) returns (resp: Response)
      requires Valid()
      modifies messageService.messageRepository
      ensures Valid()
      ensures Reply(Store(), resp) == Handle(old(Store()), DeleteMessageRequest(messageId))
    {
      var found := messageService.GetMessageById(messageId);
      if found.Some? {
        messageService.DeleteMessage(messageId);
        resp := Response(Ok, Some(CountBody(1)));
      } else {
        resp := Response(Ok, None);
      }
    }

    /** PATCH /messages/{messageId}. */
    method UpdateMessage(messageId: int, m: Message) returns (resp: Response)
      requires Valid()
      modifies messageService.messageRepository
      ensures Valid()
      ensures Reply(Store(), resp) == Handle(old(Store()), UpdateMessageRequest(messageId, m))
    {
      var updated := messageService.UpdateMessage(messageId, m);
      if updated.Some? {
        resp := Response(Ok, Some(CountBody(1)));
      } else {
        resp := Response(BadRequest, None);
      }
    }

    /** GET /accounts/{accountId}/messages. */
    function GetMessagesByUser(accountId: int): (resp: Response)
      reads accountService.accountRepository, messageService.messageRepository
      requires Valid()
      ensures Reply(Store(), resp) == Handle(Store(), GetMessagesByUserRequest(accountId))
    {
      Response(Ok, Some(ListBody(messageService.GetMessagesByUser(accountId))))
    }
  }
}
