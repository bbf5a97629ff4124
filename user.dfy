/**
 * The user database of user.c as values: up to MAX_USERS accounts of a
 * name, a password and an is_active flag, appended in order, and the
 * account logged in last. Strings are the bytes before their terminator,
 * so they hold no zero byte.
 */
module UserSpec {
  import opened Machine
  import opened Wrappers

  const MAX_USERS: int := 10
  const MAX_NAME_LEN: int := 32

  /** user_t. */
  datatype User = User(username: seq<u8>, password: seq<u8>, isActive: int)

  /** user_db, user_count and current_user (an index into user_db). */
  datatype Db = Db(users: seq<User>, count: nat, current: Option<nat>)

  const EMPTY_USER: User := User([], [], 0)

  /** A C string: no byte before the end is the terminator. */
  predicate CString(s: seq<u8>)
  {
    forall i :: 0 <= i < |s| ==> s[i] != 0
  }

  predicate Wf(db: Db)
  {
    |db.users| == MAX_USERS && db.count <= MAX_USERS &&
    (db.current.Some? ==> db.current.value < MAX_USERS) &&
    forall i :: 0 <= i < |db.users| ==> CString(db.users[i].username) && CString(db.users[i].password)
  }

  function Empty(): (r: Db)
    ensures Wf(r)
  {
    Db(seq(MAX_USERS, _ => EMPTY_USER), 0, None)
  }

  /** Byte i of a string, the terminator at its end. */
  function At(s: seq<u8>, i: nat): u8
  {
    if i < |s| then s[i] else 0
  }

  /** The k_strcmp result: the difference of the unsigned bytes where the strings first differ (a terminator counting as 0); 0 exactly when they are equal. */
  function Diff(a: seq<u8>, b: seq<u8>): (r: int)
    requires CString(a) && CString(b)
    ensures r == 0 <==> a == b
    decreases |a|
  {
    if a == [] || b == [] || a[0] != b[0] then
      assert a != b ==> At(a, 0) != At(b, 0) by {
        if a == [] && b != [] { assert b[0] != 0; }
        if b == [] && a != [] { assert a[0] != 0; }
      }
      At(a, 0) - At(b, 0)
    else
      assert a == [a[0]] + a[1..] && b == [b[0]] + b[1..];
      Diff(a[1..], b[1..])
  }

  /** Where the strings first differ, k_strcmp's result is the difference of those bytes. */
  lemma DiffAtFirst(a: seq<u8>, b: seq<u8>, i: nat)
    requires CString(a) && CString(b) && i <= |a| && i <= |b| && a[..i] == b[..i]
    requires At(a, i) != At(b, i)
    ensures Diff(a, b) == At(a, i) - At(b, i)
    decreases i
  {
    if i > 0 {
      assert a[0] == a[..i][0] == b[..i][0] == b[0];
      assert a[1..][..i - 1] == a[1..i] == b[1..i] == b[1..][..i - 1];
      DiffAtFirst(a[1..], b[1..], i - 1);
    }
  }

  /** user_register: 0 with nothing changed when the table is full; otherwise 1 and the account appended (a name already taken is not refused). */
  function Register(db: Db, username: seq<u8>, password: seq<u8>): (r: (Db, int))
    requires Wf(db) && CString(username) && CString(password)
    ensures Wf(r.0)
  {
    if db.count >= MAX_USERS then (db, 0)
    else (db.(users := db.users[db.count := User(username, password, 1)], count := db.count + 1), 1)
  }

  /** The first of the registered accounts, from index from, with both this name and this password. */
  function Match(db: Db, username: seq<u8>, password: seq<u8>, from: nat): (r: Option<nat>)
    requires Wf(db)
    decreases db.count - from
    ensures r.Some? ==> (from <= r.value < db.count &&
      db.users[r.value].username == username && db.users[r.value].password == password)
    ensures r.None? <==> forall i :: from <= i < db.count ==>
      db.users[i].username != username || db.users[i].password != password
    ensures r.Some? ==> forall i :: from <= i < r.value ==>
      db.users[i].username != username || db.users[i].password != password
  {
    if from >= db.count then None
    else if db.users[from].username == username && db.users[from].password == password then Some(from)
    else Match(db, username, password, from + 1)
  }

  /** user_login: 1 and the first matching account made current; 0 with nothing changed when none matches. */
  function Login(db: Db, username: seq<u8>, password: seq<u8>): (r: (Db, int))
    requires Wf(db)
    ensures Wf(r.0)
  {
    var m := Match(db, username, password, 0);
    if m.None? then (db, 0) else (db.(current := m), 1)
  }

  /** user_init: the administrator account. */
  function Init(db: Db): (r: Db)
    requires Wf(db)
    ensures Wf(r)
  {
    Register(db, [97, 100, 109, 105, 110], [49, 50, 51, 52]).0
  }

  // ---------------------------------------------------------------------
  // Properties

  /** user_register on a full table changes nothing; otherwise the account is at the old count, active, and the accounts before it stay. */
  lemma RegisterOutcome(db: Db, username: seq<u8>, password: seq<u8>)
    requires Wf(db) && CString(username) && CString(password)
    ensures var (db', res) := Register(db, username, password);
      (db.count >= MAX_USERS <==> res == 0) &&
      (res == 0 ==> db' == db) &&
      (res == 1 ==> db'.count == db.count + 1 && db'.users[db.count] == User(username, password, 1) &&
                    db'.current == db.current &&
                    forall i :: 0 <= i < db.count ==> db'.users[i] == db.users[i])
  {
  }

  /** After registering, logging in with that name and password succeeds; the account chosen is the first with both, which is the new one unless an earlier account already had both. */
  lemma RegisterThenLogin(db: Db, username: seq<u8>, password: seq<u8>)
    requires Wf(db) && db.count < MAX_USERS && CString(username) && CString(password)
    ensures var db1 := Register(db, username, password).0;
      var (db2, res) := Login(db1, username, password);
      res == 1 &&
      db2.current == (if Match(db, username, password, 0).Some? then Match(db, username, password, 0) else Some(db.count))
  {
    var db1 := Register(db, username, password).0;
    MatchExtends(db, db1, username, password, 0);
  }

  lemma {:induction false} MatchExtends(db: Db, db1: Db, username: seq<u8>, password: seq<u8>, from: nat)
    requires Wf(db) && db.count < MAX_USERS && CString(username) && CString(password) && db1 == Register(db, username, password).0 && from <= db.count
    ensures Match(db1, username, password, from) ==
      (if Match(db, username, password, from).Some? then Match(db, username, password, from) else Some(db.count))
    decreases db.count - from
  {
    if from < db.count {
      MatchExtends(db, db1, username, password, from + 1);
    }
  }

  /** A duplicate name is accepted: registering the same name twice gives two accounts with it. */
  lemma DuplicateNamesKept(db: Db, username: seq<u8>, p1: seq<u8>, p2: seq<u8>)
    requires Wf(db) && db.count + 2 <= MAX_USERS && CString(username) && CString(p1) && CString(p2)
    ensures var db2 := Register(Register(db, username, p1).0, username, p2).0;
      db2.count == db.count + 2 &&
      db2.users[db.count].username == username && db2.users[db.count + 1].username == username
  {
  }

  /** From the empty table, user_init leaves one active account named "admin" with password "1234", and only that pair logs in. */
  lemma InitAdmin(username: seq<u8>, password: seq<u8>)
    ensures var db := Init(Empty());
      db.count == 1 && db.users[0] == User([97, 100, 109, 105, 110], [49, 50, 51, 52], 1) &&
      (Login(db, username, password).1 == 1 <==> username == [97, 100, 109, 105, 110] && password == [49, 50, 51, 52])
  {
    var db := Init(Empty());
    assert Match(db, username, password, 1).None?;
  }
}

/**
 * The tables of user.c as the kernel keeps them: user_db is an array of
 * MAX_USERS entries, user_count and current_user fields.
 */
module UserDb {
  import opened Machine
  import opened Wrappers
  import opened UserSpec

  /** k_strcmp: the loop runs while the first string has bytes and the two agree. */
  method KStrcmp(a: seq<u8>, b: seq<u8>) returns (r: int)
    requires CString(a) && CString(b)
    ensures r == Diff(a, b)
  {
    var i := 0;
    while i < |a| && a[i] == At(b, i)
      invariant i <= |a| && i <= |b| && a[..i] == b[..i]
    {
      assert a[i] != 0;
      assert a[..i + 1] == a[..i] + [a[i]] && b[..i + 1] == b[..i] + [b[i]];
      i := i + 1;
    }
    r := At(a, i) - At(b, i);
    if r == 0 {
      assert i == |a| && i == |b|;
      assert a == a[..i] && b == b[..i];
    } else {
      DiffAtFirst(a, b, i);
    }
  }

  class Users {
    const users: array<User>
    var count: nat
    var current: Option<nat>

    function State(): Db
      reads this, users
    {
      Db(users[..], count, current)
    }

    ghost predicate Ready()
      reads this, users
    {
      users.Length == MAX_USERS && Wf(State())
    }

    constructor()
      ensures Ready() && State() == Empty()
    {
      users := new User[MAX_USERS](_ => EMPTY_USER);
      count, current := 0, None;
    }

    /** user_register; names and passwords of up to 31 bytes fit their fields. */
    method Register(username: seq<u8>, password: seq<u8>) returns (res: int)
      requires Ready() && CString(username) && CString(password)
      requires |username| < MAX_NAME_LEN && |password| < MAX_NAME_LEN
      modifies this, users
      ensures Ready() && (State(), res) == UserSpec.Register(old(State()), username, password)
    {
      if count >= MAX_USERS {
        return 0;
      }
      users[count] := User(username, password, 1);
      count := count + 1;
      return 1;
    }

    /** user_login. */
    method Login(username: seq<u8>, password: seq<u8>) returns (res: int)
      requires Ready() && CString(username) && CString(password)
      modifies this
      ensures Ready() && (State(), res) == UserSpec.Login(old(State()), username, password)
    {
      for i := 0 to count
        invariant State() == old(State())
        invariant Match(old(State()), username, password, 0) == Match(old(State()), username, password, i)
      {
        var u := KStrcmp(users[i].username, username);
        var p := KStrcmp(users[i].password, password);
        if u == 0 && p == 0 {
          current := Some(i);
          return 1;
        }
      }
      return 0;
    }

    /** user_init. */
    method Init()
      requires Ready()
      modifies this, users
      ensures Ready() && State() == UserSpec.Init(old(State()))
    {
      var ignored := Register([97, 100, 109, 105, 110], [49, 50, 51, 52]);
    }
  }
}
