/** `AccountService` as functions of the account table: what `register` and
    `login` return and what the table is afterwards. */
module AccountRules {
  import opened Entities
  import opened Validation
  import opened Repositories

  /** The invariant the account table keeps: rows stored under their own ids,
      usernames unique, and every stored account one that passed the
      registration checks (so its username and password are not null). */
  predicate ValidAccountTable(t: Table<Account>) {
    && AccountsKeyed(t)
    && UniqueUsernames(t.rows)
    && forall id :: id in t.rows ==> ValidRegistration(t.rows[id])
  }

  /** `register`: reject a malformed account, then a taken username;
      otherwise save the account under a fresh id and return the saved row.
      The table keeps its invariant either way. */
  function Register(t: Table<Account>, a: Account): (o: Outcome<Account>)
    requires ValidAccountTable(t)
    ensures ValidAccountTable(o.table)
  {
    if !ValidRegistration(a) then
      Outcome(t, None)
    else if FindByUsername(t.rows, a.username).Some? then
      Outcome(t, None)
    else
      var saved := a.(id := t.nextId);
      var t' := Table(t.rows[t.nextId := saved], t.nextId + 1);
      assert UniqueUsernames(t'.rows) by {
        forall i, j | i in t'.rows && j in t'.rows && t'.rows[i].username == t'.rows[j].username
          ensures i == j
        {
          if i != t.nextId && j != t.nextId {
            assert t.rows[i].username == t.rows[j].username;
          }
        }
      }
      Outcome(t', Some(saved))
  }

  /** `login`: the stored account with the supplied username, whatever
      password was supplied. */
  function Login(t: Table<Account>, a: Account): (r: Option<Account>)
    requires UniqueUsernames(t.rows)
  {
    FindByUsername(t.rows, a.username)
  }

  /** `register` succeeds exactly when the account passes the shape checks
      and its username is free. On failure the table is untouched; on
      success exactly one row is added, under a fresh id, carrying the
      given username and password, and that row is returned. */
  lemma RegisterOutcome(t: Table<Account>, a: Account)
    requires ValidAccountTable(t)
    ensures Register(t, a).result.Some? <==> ValidRegistration(a) && !UsernameTaken(t.rows, a.username)
    ensures Register(t, a).result.None? ==> Register(t, a).table == t
    ensures Register(t, a).result.Some? ==>
      var saved := Register(t, a).result.value;
      && saved == Account(t.nextId, a.username, a.password)
      && t.nextId !in t.rows
      && Register(t, a).table.rows == t.rows[t.nextId := saved]
      && |Register(t, a).table.rows| == |t.rows| + 1
  {
  }

  /** A malformed account is rejected even when its username is free. */
  lemma RegisterRejectsMalformed(t: Table<Account>, a: Account)
    requires ValidAccountTable(t)
    requires a.username.None? || IsBlank(a.username.value) || a.password.None? || Utf16Length(a.password.value) < MinPasswordLength
    ensures Register(t, a) == Outcome(t, None)
  {
  }

  /** A taken username is rejected even when the account is well formed. */
  lemma RegisterRejectsTaken(t: Table<Account>, a: Account)
    requires ValidAccountTable(t)
    requires UsernameTaken(t.rows, a.username)
    ensures Register(t, a) == Outcome(t, None)
  {
  }

  /** Registering the same account twice: the first call succeeds, the
      second is rejected because the username is now taken. */
  lemma RegisterTwice(t: Table<Account>, a: Account)
    requires ValidAccountTable(t)
    requires ValidRegistration(a) && !UsernameTaken(t.rows, a.username)
    ensures Register(t, a).result.Some?
    ensures var t' := Register(t, a).table; Register(t', a) == Outcome(t', None)
  {
    var t' := Register(t, a).table;
    assert t'.rows[t.nextId].username == a.username;
  }

  /** `login` finds the stored account by username alone: it returns the
      stored row with that username if there is one and nothing otherwise,
      and the supplied password makes no difference. */
  lemma LoginIgnoresPassword(t: Table<Account>, a: Account, other: Option<string>)
    requires ValidAccountTable(t)
    ensures Login(t, a) == Login(t, a.(password := other))
    ensures Login(t, a).Some? <==> UsernameTaken(t.rows, a.username)
    ensures Login(t, a).Some? ==> Login(t, a).value.username == a.username && Login(t, a).value in t.rows.Values
  {
  }

  /** `login` returns the stored account with the supplied username even
      when the supplied password is not its password: the password check is
      left to the caller. */
  lemma LoginDoesNotCheckPassword(t: Table<Account>, a: Account, id: int)
    requires ValidAccountTable(t)
    requires id in t.rows && t.rows[id].username == a.username
    ensures Login(t, a) == Some(t.rows[id])
  {
  }
}
