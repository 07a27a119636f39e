/** `MessageService` as functions of the message table (and, for
    `createMessage`, the account table it consults). */
module MessageRules {
  import opened Entities
  import opened Validation
  import opened Repositories

  /** The invariant the message table keeps: rows stored under their own
      ids, and every stored text one that passed the text rule (not null,
      not blank, at most 255 UTF-16 code units). */
  predicate ValidMessageTable(t: Table<Message>) {
    && MessagesKeyed(t)
    && forall id :: id in t.rows ==> ValidMessageText(t.rows[id].messageText)
  }

  /** `createMessage`: reject a null, blank or over-long text and a poster
      that is not an account id; otherwise save the message under a fresh
      id and return the saved row. */
  function CreateMessage(t: Table<Message>, accounts: map<int, Account>, m: Message): (o: Outcome<Message>)
    requires ValidMessageTable(t)
    ensures ValidMessageTable(o.table)
  {
    if m.messageText.None? || IsBlank(m.messageText.value) || Utf16Length(m.messageText.value) > MaxMessageLength
       || m.postedBy !in accounts
    then
      Outcome(t, None)
    else
      var saved := m.(id := t.nextId);
      Outcome(Table(t.rows[t.nextId := saved], t.nextId + 1), Some(saved))
  }

  /** `getAllMessages`. */
  function GetAllMessages(t: Table<Message>): set<Message> {
    FindAll(t.rows)
  }

  /** `getMessageById`. */
  function GetMessageById(t: Table<Message>, id: int): Option<Message> {
    FindById(t.rows, id)
  }

  /** `deleteMessage`: remove the row with that id, if any. */
  function DeleteMessage(t: Table<Message>, id: int): (t': Table<Message>)
    requires ValidMessageTable(t)
    ensures ValidMessageTable(t')
  {
    Table(t.rows - {id}, t.nextId)
  }

  /** `updateMessage`: when a row with that id exists and the new text
      passes the text rule, overwrite that row's text and return the updated
      row; otherwise return nothing. */
  function UpdateMessage(t: Table<Message>, id: int, patch: Message): (o: Outcome<Message>)
    requires ValidMessageTable(t)
    ensures ValidMessageTable(o.table)
  {
    match FindById(t.rows, id)
    case Some(existing) =>
      if patch.messageText.Some? && !IsBlank(patch.messageText.value) && Utf16Length(patch.messageText.value) <= MaxMessageLength then
        var updated := existing.(messageText := patch.messageText);
        Outcome(Table(t.rows[id := updated], t.nextId), Some(updated))
      else
        Outcome(t, None)
    case None =>
      Outcome(t, None)
  }

  /** `getMessagesByUser`. */
  function GetMessagesByUser(t: Table<Message>, accountId: int): set<Message> {
    FindByPostedBy(t.rows, accountId)
  }

  /** `createMessage` succeeds exactly when the text passes the text rule
      and the poster is an account. On failure the table is untouched; on
      success exactly one row is added, under a fresh id, with the given
      poster, text and timestamp, and that row is returned. */
  lemma CreateMessageOutcome(t: Table<Message>, accounts: map<int, Account>, m: Message)
    requires ValidMessageTable(t)
    ensures CreateMessage(t, accounts, m).result.Some? <==> ValidMessageText(m.messageText) && m.postedBy in accounts
    ensures CreateMessage(t, accounts, m).result.None? ==> CreateMessage(t, accounts, m).table == t
    ensures CreateMessage(t, accounts, m).result.Some? ==>
      var saved := CreateMessage(t, accounts, m).result.value;
      && saved == Message(t.nextId, m.postedBy, m.messageText, m.postedAt)
      && t.nextId !in t.rows
      && CreateMessage(t, accounts, m).table.rows == t.rows[t.nextId := saved]
      && |CreateMessage(t, accounts, m).table.rows| == |t.rows| + 1
  {
  }

  /** A 255-character text that is not blank is accepted (with an existing
      poster); one character more is rejected. */
  lemma CreateMessageLengthBoundary(t: Table<Message>, accounts: map<int, Account>, m: Message)
    requires ValidMessageTable(t)
    requires m.messageText.Some? && !IsBlank(m.messageText.value) && m.postedBy in accounts
    requires forall i :: 0 <= i < |m.messageText.value| ==> InBmp(m.messageText.value[i])
    ensures CreateMessage(t, accounts, m).result.Some? <==> |m.messageText.value| <= 255
  {
  }

  /** Creating and updating accept exactly the same texts: with an existing
      poster and an existing row, one succeeds iff the other does. */
  lemma CreateAndUpdateAcceptSameTexts(t: Table<Message>, accounts: map<int, Account>, m: Message, id: int, patch: Message)
    requires ValidMessageTable(t)
    requires m.postedBy in accounts && id in t.rows && patch.messageText == m.messageText
    ensures CreateMessage(t, accounts, m).result.Some? <==> UpdateMessage(t, id, patch).result.Some?
    ensures UpdateMessage(t, id, patch).result.Some? <==> ValidMessageText(patch.messageText)
  {
  }

  /** `getMessageById` returns the stored row iff the id is present. */
  lemma GetMessageByIdOutcome(t: Table<Message>, id: int)
    ensures GetMessageById(t, id).Some? <==> id in t.rows
    ensures GetMessageById(t, id).Some? ==> GetMessageById(t, id).value == t.rows[id]
  {
  }

  /** After deleting an id no row with it remains and every other row is
      as it was; deleting an absent id changes nothing. */
  lemma DeleteMessageOutcome(t: Table<Message>, id: int)
    requires ValidMessageTable(t)
    ensures id !in DeleteMessage(t, id).rows
    ensures forall k :: k != id ==> (k in DeleteMessage(t, id).rows <==> k in t.rows)
    ensures forall k :: k != id && k in t.rows ==> DeleteMessage(t, id).rows[k] == t.rows[k]
    ensures id !in t.rows ==> DeleteMessage(t, id) == t
    ensures id in t.rows ==> |DeleteMessage(t, id).rows| == |t.rows| - 1
  {
  }

  /** `updateMessage` succeeds exactly when the row exists and the new text
      passes the text rule. On failure the table is untouched. On success
      only `messageText` of that row changes: its id, poster and timestamp
      stay, every other row stays, and the updated row is returned. */
  lemma UpdateMessageOutcome(t: Table<Message>, id: int, patch: Message)
    requires ValidMessageTable(t)
    ensures UpdateMessage(t, id, patch).result.Some? <==> id in t.rows && ValidMessageText(patch.messageText)
    ensures UpdateMessage(t, id, patch).result.None? ==> UpdateMessage(t, id, patch).table == t
    ensures UpdateMessage(t, id, patch).result.Some? ==>
      var updated := UpdateMessage(t, id, patch).result.value;
      var t' := UpdateMessage(t, id, patch).table;
      && updated == Message(id, t.rows[id].postedBy, patch.messageText, t.rows[id].postedAt)
      && t'.rows.Keys == t.rows.Keys && t'.nextId == t.nextId
      && t'.rows[id] == updated
      && forall k :: k in t.rows && k != id ==> t'.rows[k] == t.rows[k]
  {
  }

  /** `getMessagesByUser(u)` returns exactly the stored messages posted by
      `u`, as many as there are such rows; `getAllMessages` returns every
      stored message, as many as there are rows. */
  lemma ListingsExact(t: Table<Message>, u: int)
    requires ValidMessageTable(t)
    ensures forall m :: m in GetMessagesByUser(t, u) <==> m in GetAllMessages(t) && m.postedBy == u
    ensures |GetMessagesByUser(t, u)| == |PostedIds(t.rows, u)|
    ensures |GetAllMessages(t)| == |t.rows|
  {
    FindAllExact(t);
    FindByPostedByExact(t, u);
  }
}
