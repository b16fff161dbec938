/** Accounts: `validate_user`, `register_user`, `try_login` and the ban
    handler of `post '/admin/banned'` (webapp/ruby/app.rb).

    The `users` table is a map from id to row. The password hash
    (`calculate_passhash`, SHA-256 over the password and an MD5 salt of the
    account name) is a function value handed to the table when it is
    created, so nothing in the model depends on what the hash computes. */
module Accounts {
  import opened Wrappers
  import opened Records

  // ---------------------------------------------------------------------
  // validate_user
  // ---------------------------------------------------------------------

  /** The character class `[0-9a-zA-Z_]`. */
  predicate IsAccountChar(c: char) {
    ('0' <= c <= '9') || ('a' <= c <= 'z') || ('A' <= c <= 'Z') || c == '_'
  }

  /** A matcher for `\A[0-9a-zA-Z_]{min,}\z`: the whole of `s` is drawn from
      the class and there are at least `min` characters. */
  function MatchesAccountPattern(s: string, min: nat): bool
    decreases |s|
  {
    if s == [] then min == 0
    else IsAccountChar(s[0]) && MatchesAccountPattern(s[1..], if min > 0 then min - 1 else 0)
  }

  ghost predicate AllAccountChars(s: string) {
    forall i :: 0 <= i < |s| ==> IsAccountChar(s[i])
  }

  lemma {:induction false} AccountPatternMeaning(s: string, min: nat)
    ensures MatchesAccountPattern(s, min) <==> |s| >= min && AllAccountChars(s)
  {
    if s != [] {
      AccountPatternMeaning(s[1..], if min > 0 then min - 1 else 0);
      assert AllAccountChars(s) <==> IsAccountChar(s[0]) && AllAccountChars(s[1..]) by {
        if IsAccountChar(s[0]) && AllAccountChars(s[1..]) {
          forall i | 0 <= i < |s| ensures IsAccountChar(s[i]) {
            if i > 0 { assert s[i] == s[1..][i - 1]; }
          }
        }
      }
    }
  }

  /** `validate_user`: the account name matches the pattern, then the
      password must be longer than seven characters. */
  function ValidateUser(accountName: string, password: string): (ok: bool)
    ensures ok <==> |accountName| >= 3 && AllAccountChars(accountName) && |password| >= 8
  {
    AccountPatternMeaning(accountName, 3);
    if !MatchesAccountPattern(accountName, 3) then false
    else if |password| <= 7 then false
    else true
  }

  // ---------------------------------------------------------------------
  // The users table, as a value
  // ---------------------------------------------------------------------

  /** Ids come from an auto-increment counter starting at 1, every row is
      stored under its own id, and account names are unique (registration
      refuses a name already present). */
  ghost predicate TableValid(rows: map<int, User>, nextId: int) {
    && 1 <= nextId
    && (forall id :: id in rows ==> 1 <= id < nextId && rows[id].id == id)
    && NamesUnique(rows)
  }

  ghost predicate NamesUnique(rows: map<int, User>) {
    forall a, b :: a in rows && b in rows && rows[a].accountName == rows[b].accountName ==> a == b
  }

  /** `SELECT 1 FROM users WHERE account_name = ?` finds a row, whether or
      not that user is banned. */
  predicate NameTaken(rows: map<int, User>, accountName: string) {
    exists id :: id in rows && rows[id].accountName == accountName
  }

  /** The row `INSERT INTO users (account_name, passhash)` creates: the
      columns it does not name take their defaults, `authority = 0` and
      `del_flg = 0`. */
  function NewUser(id: int, accountName: string, passhash: string): User {
    User(id, accountName, passhash, 0, false)
  }

  datatype Registration = Registration(ok: bool, rows: map<int, User>, nextId: int)

  /** `register_user` on a table value. */
  function Register(rows: map<int, User>, nextId: int, accountName: string, password: string,
                    passhash: (string, string) -> string): (r: Registration)
    ensures r.ok <==> ValidateUser(accountName, password) && !NameTaken(rows, accountName)
    ensures !r.ok ==> r.rows == rows && r.nextId == nextId
    ensures r.ok ==> r.nextId == nextId + 1 && r.rows.Keys == rows.Keys + {nextId}
    ensures r.ok ==> r.rows[nextId] == NewUser(nextId, accountName, passhash(password, accountName))
    ensures forall id :: id in rows && id != nextId ==> id in r.rows && r.rows[id] == rows[id]
  {
    if !ValidateUser(accountName, password) then Registration(false, rows, nextId)
    else if NameTaken(rows, accountName) then Registration(false, rows, nextId)
    else
      var user := NewUser(nextId, accountName, passhash(password, accountName));
      Registration(true, rows[nextId := user], nextId + 1)
  }

  ghost predicate ActiveWithName(u: User, accountName: string) {
    u.accountName == accountName && !u.deleted
  }

  /** `try_login`: the first row with this name and `del_flg = 0`, returned
      only when its stored hash is the hash of the given password. */
  ghost function Login(rows: map<int, User>, accountName: string, password: string,
                       passhash: (string, string) -> string): (r: Option<User>)
    ensures r.Some? ==> r.value in rows.Values && ActiveWithName(r.value, accountName)
    ensures r.Some? ==> r.value.passhash == passhash(password, accountName)
    ensures NamesUnique(rows) ==>
      (r.None? <==>
         forall id :: id in rows && ActiveWithName(rows[id], accountName) ==>
           rows[id].passhash != passhash(password, accountName))
  {
    if exists id :: id in rows && ActiveWithName(rows[id], accountName) then
      var id :| id in rows && ActiveWithName(rows[id], accountName);
      var u := rows[id];
      if passhash(password, u.accountName) == u.passhash then Some(u) else None
    else None
  }

  datatype BanOutcome =
    | Applied        // every listed id has been updated
    | Forbidden      // the caller's authority is 0: the handler answers 403
    | UnknownCaller  // no row for the session's user id: the handler fails on nil

  datatype BanResult = BanResult(outcome: BanOutcome, rows: map<int, User>)

  /** The `UPDATE users SET del_flg = 1 WHERE id = ?` loop, one statement per
      listed id; ids with no row match nothing. */
  function BanAll(rows: map<int, User>, uids: seq<int>): map<int, User> {
    map id | id in rows :: if id in uids then rows[id].(deleted := true) else rows[id]
  }

  /** `post '/admin/banned'` after the login redirect and the CSRF check:
      look the caller up, refuse a caller whose authority is 0, ban the
      listed ids. */
  function BanRequest(rows: map<int, User>, caller: int, uids: seq<int>): (r: BanResult)
    ensures r.outcome == UnknownCaller <==> caller !in rows
    ensures r.outcome == Forbidden <==> caller in rows && rows[caller].authority == 0
    ensures r.outcome != Applied ==> r.rows == rows
    ensures r.rows.Keys == rows.Keys
    ensures r.outcome == Applied ==>
      forall id :: id in rows ==> if id in uids then r.rows[id].deleted else r.rows[id] == rows[id]
    ensures forall id :: id in rows ==> r.rows[id].(deleted := rows[id].deleted) == rows[id]
  {
    if caller !in rows then BanResult(UnknownCaller, rows)
    else if rows[caller].authority == 0 then BanResult(Forbidden, rows)
    else BanResult(Applied, BanAll(rows, uids))
  }

  // ---------------------------------------------------------------------
  // Properties relating the operations
  // ---------------------------------------------------------------------

  lemma RegisterKeepsTableValid(rows: map<int, User>, nextId: int, accountName: string,
                                password: string, passhash: (string, string) -> string)
    requires TableValid(rows, nextId)
    ensures var r := Register(rows, nextId, accountName, password, passhash);
            TableValid(r.rows, r.nextId)
  {
    var r := Register(rows, nextId, accountName, password, passhash);
    if r.ok {
      forall a, b | a in r.rows && b in r.rows && r.rows[a].accountName == r.rows[b].accountName
        ensures a == b
      {
        if a != nextId && b != nextId {
          assert rows[a].accountName == rows[b].accountName;
        }
      }
    }
  }

  /** A successful registration can be followed by a login with the same
      password, which returns exactly the new row. */
  lemma RegisteredUserCanLogin(rows: map<int, User>, nextId: int, accountName: string,
                               password: string, passhash: (string, string) -> string)
    requires TableValid(rows, nextId)
    requires Register(rows, nextId, accountName, password, passhash).ok
    ensures var r := Register(rows, nextId, accountName, password, passhash);
            Login(r.rows, accountName, password, passhash)
              == Some(NewUser(nextId, accountName, passhash(password, accountName)))
  {
    var r := Register(rows, nextId, accountName, password, passhash);
    RegisterKeepsTableValid(rows, nextId, accountName, password, passhash);
    assert nextId in r.rows && ActiveWithName(r.rows[nextId], accountName);
    var l := Login(r.rows, accountName, password, passhash);
    assert l.Some?;
    var id :| id in r.rows && r.rows[id] == l.value;
    assert id == nextId;
  }

  /** Registering a name twice: the second attempt is refused, whatever
      its password. */
  lemma SecondRegistrationFails(rows: map<int, User>, nextId: int, accountName: string,
                                password: string, password': string,
                                passhash: (string, string) -> string)
    requires Register(rows, nextId, accountName, password, passhash).ok
    ensures var r := Register(rows, nextId, accountName, password, passhash);
            var r' := Register(r.rows, r.nextId, accountName, password', passhash);
            !r'.ok && r'.rows == r.rows
  {
    var r := Register(rows, nextId, accountName, password, passhash);
    assert r.rows[nextId].accountName == accountName;
    assert NameTaken(r.rows, accountName);
  }

  /** One more id banned: the loop step of the ban handler. */
  lemma BanAllSnoc(rows: map<int, User>, uids: seq<int>, id: int)
    ensures BanAll(rows, uids + [id])
         == if id in rows then BanAll(rows, uids)[id := rows[id].(deleted := true)]
            else BanAll(rows, uids)
  {
    var l := BanAll(rows, uids + [id]);
    var r := if id in rows then BanAll(rows, uids)[id := rows[id].(deleted := true)]
             else BanAll(rows, uids);
    assert l.Keys == r.Keys;
    forall k | k in l ensures l[k] == r[k] {
      assert k in uids + [id] <==> k in uids || k == id;
    }
  }

  lemma BanKeepsTableValid(rows: map<int, User>, nextId: int, caller: int, uids: seq<int>)
    requires TableValid(rows, nextId)
    ensures TableValid(BanRequest(rows, caller, uids).rows, nextId)
  {
    var r := BanRequest(rows, caller, uids).rows;
    forall a, b | a in r && b in r && r[a].accountName == r[b].accountName ensures a == b {
      assert rows[a].accountName == r[a].accountName;
      assert rows[b].accountName == r[b].accountName;
    }
  }

  /** Repeating the same ban request changes nothing more: the caller's
      authority survives the ban, so the second request is applied too,
      and setting `del_flg` again leaves the table as it was. */
  lemma BanIdempotent(rows: map<int, User>, caller: int, uids: seq<int>)
    ensures var once := BanRequest(rows, caller, uids);
            var twice := BanRequest(once.rows, caller, uids);
            twice.outcome == once.outcome && twice.rows == once.rows
  {
    var once := BanRequest(rows, caller, uids);
    var twice := BanRequest(once.rows, caller, uids);
    if caller in rows {
      assert once.rows[caller].authority == rows[caller].authority;
    }
    if once.outcome == Applied {
      forall id | id in once.rows ensures twice.rows[id] == once.rows[id] {
        if id in uids {
          assert once.rows[id] == rows[id].(deleted := true);
        }
      }
    }
  }

  /** After a ban, a listed user can no longer log in, whatever password is
      offered: `try_login` only looks at rows with `del_flg = 0`. */
  lemma BannedUserCannotLogin(rows: map<int, User>, nextId: int, caller: int, uids: seq<int>,
                              id: int, password: string, passhash: (string, string) -> string)
    requires TableValid(rows, nextId)
    requires BanRequest(rows, caller, uids).outcome == Applied
    requires id in rows && id in uids
    ensures Login(BanRequest(rows, caller, uids).rows, rows[id].accountName, password, passhash) == None
  {
    var banned := BanRequest(rows, caller, uids).rows;
    var name := rows[id].accountName;
    assert banned[id].deleted;
  }

  /** A ban leaves every other account's login exactly as it was. */
  lemma BanSparesOtherLogins(rows: map<int, User>, nextId: int, caller: int, uids: seq<int>,
                             accountName: string, password: string,
                             passhash: (string, string) -> string)
    requires TableValid(rows, nextId)
    requires forall id :: id in rows && id in uids ==> rows[id].accountName != accountName
    ensures Login(BanRequest(rows, caller, uids).rows, accountName, password, passhash)
         == Login(rows, accountName, password, passhash)
  {
    var banned := BanRequest(rows, caller, uids).rows;
    BanKeepsTableValid(rows, nextId, caller, uids);
    forall id | id in rows && rows[id].accountName == accountName ensures banned[id] == rows[id] {
      assert id !in uids;
    }
    var before := Login(rows, accountName, password, passhash);
    var after := Login(banned, accountName, password, passhash);
    if before.Some? {
      var k :| k in rows && rows[k] == before.value;
      assert banned[k] == rows[k];
      assert after.Some?;
      var k' :| k' in banned && banned[k'] == after.value;
      assert k' == k;
    }
  }

  // ---------------------------------------------------------------------
  // The users table, as the state the handlers update
  // ---------------------------------------------------------------------

  class UserTable {
    var rows: map<int, User>
    var nextId: int
    const passhash: (string, string) -> string

    ghost predicate Valid()
      reads this
    {
      TableValid(rows, nextId)
    }

    constructor (passhash: (string, string) -> string)
      ensures Valid()
      ensures rows == map[] && nextId == 1 && this.passhash == passhash
    {
      rows := map[];
      nextId := 1;
      this.passhash := passhash;
    }

    /** `register_user`. */
    method RegisterUser(accountName: string, password: string) returns (ok: bool)
      requires Valid()
      modifies this
      ensures Valid()
      ensures var r := Register(old(rows), old(nextId), accountName, password, passhash);
              ok == r.ok && rows == r.rows && nextId == r.nextId
    {
      if !ValidateUser(accountName, password) {
        return false;
      }
      if NameTaken(rows, accountName) {
        return false;
      }
      RegisterKeepsTableValid(rows, nextId, accountName, password, passhash);
      rows := rows[nextId := NewUser(nextId, accountName, passhash(password, accountName))];
      nextId := nextId + 1;
      ok := true;
    }

    /** `try_login`. */
    method TryLogin(accountName: string, password: string) returns (user: Option<User>)
      requires Valid()
      ensures user == Login(rows, accountName, password, passhash)
    {
      if exists id :: id in rows && rows[id].accountName == accountName && !rows[id].deleted {
        var id :| id in rows && rows[id].accountName == accountName && !rows[id].deleted;
        var u := rows[id];
        if passhash(password, u.accountName) == u.passhash {
          user := Some(u);
        } else {
          user := None;
        }
        ghost var l := Login(rows, accountName, password, passhash);
        if l.Some? {
          var k :| k in rows && rows[k] == l.value;
          assert k == id;
        }
      } else {
        user := None;
      }
    }

    /** `post '/admin/banned'`: the lookup of the caller, the authority
        check and the per-id update loop. */
    method Ban(caller: int, uids: seq<int>) returns (outcome: BanOutcome)
      requires Valid()
      modifies this
      ensures Valid()
      ensures var r := BanRequest(old(rows), caller, uids);
              outcome == r.outcome && rows == r.rows
      ensures nextId == old(nextId)
    {
      if caller !in rows {
        return UnknownCaller;
      }
      if rows[caller].authority == 0 {
        return Forbidden;
      }
      ghost var before := rows;
      for k := 0 to |uids|
        invariant rows == BanAll(before, uids[..k])
        invariant nextId == old(nextId)
      {
        var id := uids[k];
        BanAllSnoc(before, uids[..k], id);
        assert uids[..k + 1] == uids[..k] + [id];
        if id in rows {
          rows := rows[id := rows[id].(deleted := true)];
        }
      }
      assert uids[..|uids|] == uids;
      BanKeepsTableValid(before, nextId, caller, uids);
      outcome := Applied;
    }
  }
}
