/** The two Spring Data repositories as plain map operations. A table is a
    map from id to row plus the next id the store will hand out; the
    derived queries `findByUsername` and `findByPostedBy` are equality
    lookups over its rows. */
module Repositories {
  import opened Entities

  datatype Table<T> = Table(rows: map<int, T>, nextId: int)

  /** A table after an operation, and the row the operation returned
      (`None` for Java's null). */
  datatype Outcome<T> = Outcome(table: Table<T>, result: Option<T>)

  /** Every account row is stored under its own id, and every id in use is
      below the next fresh one. */
  predicate AccountsKeyed(t: Table<Account>) {
    forall id :: id in t.rows ==> t.rows[id].id == id && id < t.nextId
  }

  /** Every message row is stored under its own id, and every id in use is
      below the next fresh one. */
  predicate MessagesKeyed(t: Table<Message>) {
    forall id :: id in t.rows ==> t.rows[id].id == id && id < t.nextId
  }

  /** No two account rows share a username. */
  predicate UniqueUsernames(rows: map<int, Account>) {
    forall i, j :: i in rows && j in rows && rows[i].username == rows[j].username ==> i == j
  }

  /** Some stored account has username `u`. */
  predicate UsernameTaken(rows: map<int, Account>, u: Option<string>) {
    exists id :: id in rows && rows[id].username == u
  }

  /** `findById`. */
  function FindById<T>(rows: map<int, T>, id: int): Option<T> {
    if id in rows then Some(rows[id]) else None
  }

  /** `findByUsername`: the single account with that username, or null.
      The single-result query is only defined while at most one row
      matches, which the account table keeps. */
  function FindByUsername(rows: map<int, Account>, u: Option<string>): (r: Option<Account>)
    requires UniqueUsernames(rows)
    ensures r.Some? <==> UsernameTaken(rows, u)
    ensures r.Some? ==> r.value.username == u && r.value in rows.Values
  {
    if exists id :: id in rows && rows[id].username == u then
      var id :| id in rows && rows[id].username == u;
      Some(rows[id])
    else
      None
  }

  /** `findAll`, order left to the store. */
  function FindAll(rows: map<int, Message>): set<Message> {
    rows.Values
  }

  /** The ids of the messages posted by `postedBy`. */
  function PostedIds(rows: map<int, Message>, postedBy: int): set<int> {
    set id | id in rows && rows[id].postedBy == postedBy
  }

  /** The rows stored under the given ids. */
  function RowsOf(rows: map<int, Message>, ids: set<int>): set<Message> {
    set id | id in ids && id in rows :: rows[id]
  }

  /** `findByPostedBy`, order left to the store. */
  function FindByPostedBy(rows: map<int, Message>, postedBy: int): set<Message> {
    RowsOf(rows, PostedIds(rows, postedBy))
  }

  /** Distinct ids give distinct rows, so the rows stored under a set of ids
      number exactly as many as the ids. */
  lemma {:induction false} RowsOfSize(rows: map<int, Message>, ids: set<int>)
    requires forall id :: id in ids ==> id in rows && rows[id].id == id
    ensures |RowsOf(rows, ids)| == |ids|
    decreases |ids|
  {
    if x :| x in ids {
      var rest := ids - {x};
      RowsOfSize(rows, rest);
      assert RowsOf(rows, ids) == RowsOf(rows, rest) + {rows[x]};
      assert rows[x] !in RowsOf(rows, rest);
    } else {
      assert forall y :: y !in ids;
      assert ids == {};
      assert RowsOf(rows, ids) == {};
    }
  }

  /** `findAll` lists every stored message once: membership is exactly
      "stored under its own id", and there are as many as rows. */
  lemma FindAllExact(t: Table<Message>)
    requires MessagesKeyed(t)
    ensures forall m :: m in FindAll(t.rows) <==> m.id in t.rows && t.rows[m.id] == m
    ensures |FindAll(t.rows)| == |t.rows|
  {
    RowsOfSize(t.rows, t.rows.Keys);
    assert FindAll(t.rows) == RowsOf(t.rows, t.rows.Keys);
  }

  /** `findByPostedBy(u)` lists exactly the stored messages with
      `postedBy == u`, one per matching row. */
  lemma FindByPostedByExact(t: Table<Message>, u: int)
    requires MessagesKeyed(t)
    ensures forall m :: m in FindByPostedBy(t.rows, u) <==> m.id in t.rows && t.rows[m.id] == m && m.postedBy == u
    ensures |FindByPostedBy(t.rows, u)| == |PostedIds(t.rows, u)|
  {
    RowsOfSize(t.rows, PostedIds(t.rows, u));
  }

  /** The account table as the store holds it. `Save` inserts a new entity
      under a fresh id; the merge of an entity that already carries an id is
      not used on this table. */
  class AccountRepository {
    var rows: map<int, Account>
    var nextId: int

    function Contents(): Table<Account>
      reads this
    {
      Table(rows, nextId)
    }

    ghost predicate Valid()
      reads this
    {
      AccountsKeyed(Contents())
    }

    constructor ()
      ensures Valid() && rows == map[]
    {
      rows := map[];
      nextId := 1;
    }

    /** `save` of a new account: the store assigns the next id. */
    method Save(a: Account) returns (saved: Account)
      requires Valid()
      modifies this
      ensures Valid()
      ensures old(nextId) !in old(rows)
      ensures saved == a.(id := old(nextId))
      ensures rows == old(rows)[old(nextId) := saved] && nextId == old(nextId) + 1
    {
      saved := a.(id := nextId);
      rows := rows[nextId := saved];
      nextId := nextId + 1;
    }
  }

  /** The message table as the store holds it. */
  class MessageRepository {
    var rows: map<int, Message>
    var nextId: int

    function Contents(): Table<Message>
      reads this
    {
      Table(rows, nextId)
    }

    ghost predicate Valid()
      reads this
    {
      MessagesKeyed(Contents())
    }

    constructor ()
      ensures Valid() && rows == map[]
    {
      rows := map[];
      nextId := 1;
    }

    /** `save` of a new message: the store assigns the next id. */
    method Save(m: Message) returns (saved: Message)
      requires Valid()
      modifies this
      ensures Valid()
      ensures old(nextId) !in old(rows)
      ensures saved == m.(id := old(nextId))
      ensures rows == old(rows)[old(nextId) := saved] && nextId == old(nextId) + 1
    {
      saved := m.(id := nextId);
      rows := rows[nextId := saved];
      nextId := nextId + 1;
    }

    /** `save` of a message that is already stored: its row is overwritten. */
    method Merge(m: Message) returns (saved: Message)
      requires Valid() && m.id in rows
      modifies this
      ensures Valid()
      ensures saved == m
      ensures rows == old(rows)[m.id := m] && nextId == old(nextId)
    {
      saved := m;
      rows := rows[m.id := m];
    }

    /** `deleteById`: the row with that id is gone, nothing else changes. */
    method DeleteById(id: int)
      requires Valid()
      modifies this
      ensures Valid()
      ensures rows == old(rows) - {id} && nextId == old(nextId)
    {
      rows := rows - {id};
    }
  }
}
