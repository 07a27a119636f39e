/** The two service classes over the repository objects. Each method does
    what the Java method does, step by step, and is proved to leave the
    tables and return exactly what the rule functions say. */
module Services {
  import opened Entities
  import opened Validation
  import opened Repositories
  import AccountRules
  import MessageRules

  class AccountService {
    const accountRepository: AccountRepository

    ghost predicate Valid()
      reads accountRepository
    {
      AccountRules.ValidAccountTable(accountRepository.Contents())
    }

    constructor (accountRepository: AccountRepository)
      ensures this.accountRepository == accountRepository
    {
      this.accountRepository := accountRepository;
    }

    /** `register`; the table keeps its invariant. */
    method Register(a: Account) returns (r: Option<Account>)
      requires Valid()
      modifies accountRepository
      ensures Valid()
      ensures Outcome(accountRepository.Contents(), r) == AccountRules.Register(old(accountRepository.Contents()), a)
    {
      if a.username.None? || IsBlank(a.username.value) || a.password.None? || Utf16Length(a.password.value) < MinPasswordLength {
        return None;
      }
      if FindByUsername(accountRepository.rows, a.username).Some? {
        return None;
      }
      var saved := accountRepository.Save(a);
      r := Some(saved);
    }

    /** `login`: a read of the table, which it leaves as it is. */
    function Login(a: Account): (r: Option<Account>)
      reads accountRepository
      requires Valid()
      ensures r == AccountRules.Login(accountRepository.Contents(), a)
    {
      FindByUsername(accountRepository.rows, a.username)
    }
  }

  class MessageService {
    const messageRepository: MessageRepository
    const accountRepository: AccountRepository

    ghost predicate Valid()
      reads messageRepository
    {
      MessageRules.ValidMessageTable(messageRepository.Contents())
    }

    constructor (messageRepository: MessageRepository, accountRepository: AccountRepository)
      ensures this.messageRepository == messageRepository && this.accountRepository == accountRepository
    {
      this.messageRepository := messageRepository;
      this.accountRepository := accountRepository;
    }

    /** `createMessage`, consulting the account table through `existsById`. */
    method CreateMessage(m: Message) returns (r: Option<Message>)
      requires Valid()
      modifies messageRepository
      ensures Valid()
      ensures Outcome(messageRepository.Contents(), r)
        == MessageRules.CreateMessage(old(messageRepository.Contents()), accountRepository.rows, m)
    {
      if m.messageText.None? || IsBlank(m.messageText.value) || Utf16Length(m.messageText.value) > MaxMessageLength
         || m.postedBy !in accountRepository.rows
      {
        return None;
      }
      var saved := messageRepository.Save(m);
      r := Some(saved);
    }

    /** `getAllMessages`. */
    function GetAllMessages(): (r: set<Message>)
      reads messageRepository
      requires Valid()
      ensures r == MessageRules.GetAllMessages(messageRepository.Contents())
    {
      FindAll(messageRepository.rows)
    }

    /** `getMessageById`. */
    function GetMessageById(id: int): (r: Option<Message>)
      reads messageRepository
      ensures r == MessageRules.GetMessageById(messageRepository.Contents(), id)
    {
      FindById(messageRepository.rows, id)
    }

    /** `deleteMessage`. */
    method DeleteMessage(id: int)
      requires Valid()
      modifies messageRepository
      ensures Valid()
      ensures messageRepository.Contents() == MessageRules.DeleteMessage(old(messageRepository.Contents()), id)
    {
      messageRepository.DeleteById(id);
    }

    /** `updateMessage`: fetch the row, set its text on the fetched copy, save
        the copy back. */
    method UpdateMessage(id: int, patch: Message) returns (r: Option<Message>)
      requires Valid()
      modifies messageRepository
      ensures Valid()
      ensures Outcome(messageRepository.Contents(), r)
        == MessageRules.UpdateMessage(old(messageRepository.Contents()), id, patch)
    {
      var found := FindById(messageRepository.rows, id);
      if found.Some? {
        var existing := found.value;
        if patch.messageText.Some? && !IsBlank(patch.messageText.value) && Utf16Length(patch.messageText.value) <= MaxMessageLength {
          existing := existing.(messageText := patch.messageText);
          var saved := messageRepository.Merge(existing);
          return Some(saved);
        }
      }
      return None;
    }

    /** `getMessagesByUser`. */
    function GetMessagesByUser(accountId: int): (r: set<Message>)
      reads messageRepository
      ensures r == MessageRules.GetMessagesByUser(messageRepository.Contents(), accountId)
    {
      FindByPostedBy(messageRepository.rows, accountId)
    }
  }
}
