/**
 * The user directory: PIN validation, login lookup, and the SQL statements
 * the administration screens issue on the users table, as functions from
 * the old table to the new one.
 */
module Accounts {
  import opened Wrappers
  import opened Text

  /** One row of the users table (its created_at column is not modelled). */
  datatype User = User(id: nat, username: string, pin: string, isAdmin: bool)

  /** The current_user record: a copy of the row's id, username and admin flag taken at login. */
  datatype Session = Session(id: nat, username: string, isAdmin: bool)

  predicate IsDigit(c: char) {
    '0' <= c <= '9'
  }

  /** `len(pin) == 4 and pin.isdigit()`, the check shared by login, add, edit and reset. */
  predicate PinIsValid(pin: string) {
    |pin| == 4 && forall i :: 0 <= i < |pin| ==> IsDigit(pin[i])
  }

  /** Why an entry form was refused before the database was consulted. */
  datatype InputError = MissingField | BadPinFormat

  datatype Credentials = Credentials(username: string, pin: string)

  /**
   * The form check of login, save_user and save_changes: both fields are
   * stripped, must be non-empty, and the PIN must be four digits.
   */
  function ReadCredentials(rawName: string, rawPin: string): (r: Result<Credentials, InputError>)
    ensures r.Success? <==> Strip(rawName) != [] && PinIsValid(Strip(rawPin))
    ensures r.Success? ==> r.value == Credentials(Strip(rawName), Strip(rawPin))
    ensures r == Failure(MissingField) <==> Strip(rawName) == [] || Strip(rawPin) == []
  {
    var name, pin := Strip(rawName), Strip(rawPin);
    if name == [] || pin == [] then Failure(MissingField)
    else if !PinIsValid(pin) then Failure(BadPinFormat)
    else Success(Credentials(name, pin))
  }

  /** `SELECT ... WHERE username = ? AND pin = ?` and fetchone(): the first matching row. */
  function FindUser(users: seq<User>, name: string, pin: string): (r: Option<User>)
    ensures r.Some? ==> r.value in users && r.value.username == name && r.value.pin == pin
    ensures r.None? <==> forall u :: u in users ==> !(u.username == name && u.pin == pin)
  {
    if users == [] then None
    else if users[0].username == name && users[0].pin == pin then Some(users[0])
    else FindUser(users[1..], name, pin)
  }

  datatype LoginError = InvalidInput(reason: InputError) | InvalidCredentials

  /** The decision login makes; on success the session copies the matching row. */
  function CheckLogin(users: seq<User>, rawName: string, rawPin: string): (r: Result<Session, LoginError>)
    ensures var c := ReadCredentials(rawName, rawPin);
            r.Success? <==> c.Success? && exists u :: u in users && u.username == c.value.username && u.pin == c.value.pin
    ensures var c := ReadCredentials(rawName, rawPin);
            r.Success? ==> c.Success? && exists u :: u in users && u.username == c.value.username && u.pin == c.value.pin
                                                    && r.value == Session(u.id, u.username, u.isAdmin)
    ensures var c := ReadCredentials(rawName, rawPin);
            r.Failure? && r.error.InvalidInput? ==> c.Failure? && r.error.reason == c.error
    ensures var c := ReadCredentials(rawName, rawPin);
            c.Failure? ==> r == Failure(InvalidInput(c.error))
  {
    match ReadCredentials(rawName, rawPin)
    case Failure(e) => Failure(InvalidInput(e))
    case Success(c) =>
      match FindUser(users, c.username, c.pin)
      case None => Failure(InvalidCredentials)
      case Some(u) => Success(Session(u.id, u.username, u.isAdmin))
  }

  // ------------------------------------------------------------ the table

  /** sqlite3.IntegrityError raised by the UNIQUE constraint on username. */
  datatype DbError = UniqueViolation

  predicate NameTaken(users: seq<User>, name: string) {
    exists u :: u in users && u.username == name
  }

  predicate UniqueNames(users: seq<User>) {
    forall i, j :: 0 <= i < j < |users| ==> users[i].username != users[j].username
  }

  /**
   * What holds of the users table at all times: unique usernames, ids
   * increasing in row order and below the AUTOINCREMENT counter, and every
   * stored username non-empty and every stored PIN four digits.
   */
  predicate TableOk(users: seq<User>, nextId: nat) {
    && UniqueNames(users)
    && (forall i, j :: 0 <= i < j < |users| ==> users[i].id < users[j].id)
    && (forall i :: 0 <= i < |users| ==> users[i].id < nextId)
    && (forall i :: 0 <= i < |users| ==> users[i].username != [] && PinIsValid(users[i].pin))
  }

  /** `INSERT INTO users ...`: fails on a duplicate username and leaves the table as it was. */
  function InsertUser(users: seq<User>, u: User): (r: Result<seq<User>, DbError>)
    ensures r.Failure? <==> NameTaken(users, u.username)
    ensures r.Success? ==> r.value == users + [u]
  {
    if NameTaken(users, u.username) then Failure(UniqueViolation) else Success(users + [u])
  }

  lemma InsertKeepsTable(users: seq<User>, u: User)
    requires TableOk(users, u.id) && u.username != [] && PinIsValid(u.pin)
    requires InsertUser(users, u).Success?
    ensures TableOk(InsertUser(users, u).value, u.id + 1)
  {
    var r := users + [u];
    forall i, j | 0 <= i < j < |r| ensures r[i].username != r[j].username {
      if j == |users| {
        assert users[i] in users;
      }
    }
  }

  /**
   * `UPDATE users SET username = ?, pin = ?, is_admin = ? WHERE username = ?`:
   * every row named target is rewritten; renaming onto a name another row
   * holds violates UNIQUE and changes nothing.
   */
  function UpdateByName(users: seq<User>, target: string, name: string, pin: string, isAdmin: bool)
    : (r: Result<seq<User>, DbError>)
    ensures r.Failure? <==> NameTaken(users, target) && name != target && NameTaken(users, name)
    ensures r.Success? ==>
              |r.value| == |users|
              && forall i :: 0 <= i < |users| ==>
                   r.value[i] == if users[i].username == target then User(users[i].id, name, pin, isAdmin)
                                 else users[i]
  {
    if NameTaken(users, target) && name != target && NameTaken(users, name) then Failure(UniqueViolation)
    else Success(seq(|users|, i requires 0 <= i < |users| =>
                   if users[i].username == target then User(users[i].id, name, pin, isAdmin) else users[i]))
  }

  lemma UpdateKeepsTable(users: seq<User>, nextId: nat, target: string, name: string, pin: string, isAdmin: bool)
    requires TableOk(users, nextId) && name != [] && PinIsValid(pin)
    requires UpdateByName(users, target, name, pin, isAdmin).Success?
    ensures TableOk(UpdateByName(users, target, name, pin, isAdmin).value, nextId)
  {
    var r := UpdateByName(users, target, name, pin, isAdmin).value;
    forall i, j | 0 <= i < j < |r| ensures r[i].username != r[j].username {
      if users[i].username == target && users[j].username != target {
        assert users[j] in users;
      } else if users[i].username != target && users[j].username == target {
        assert users[i] in users;
      }
    }
  }

  /** `DELETE FROM users WHERE username = ?`: the other rows stay, in their order. */
  function DeleteByName(users: seq<User>, target: string): (r: seq<User>)
    ensures forall u :: u in r <==> u in users && u.username != target
  {
    if users == [] then []
    else DeleteByName(users[..|users| - 1], target)
         + (if users[|users| - 1].username == target then [] else [users[|users| - 1]])
  }

  /** A row whose id is above and whose name differs from every earlier row may go last. */
  lemma AppendKeepsTable(q: seq<User>, u: User, nextId: nat)
    requires TableOk(q, nextId) && u.id < nextId && u.username != [] && PinIsValid(u.pin)
    requires forall i :: 0 <= i < |q| ==> q[i].id < u.id && q[i].username != u.username
    ensures TableOk(q + [u], nextId)
  {
  }

  lemma {:induction false} DeleteKeepsTable(users: seq<User>, nextId: nat, target: string)
    requires TableOk(users, nextId)
    ensures TableOk(DeleteByName(users, target), nextId)
  {
    if users != [] {
      var p, last := users[..|users| - 1], users[|users| - 1];
      assert TableOk(p, nextId);
      DeleteKeepsTable(p, nextId, target);
      var q := DeleteByName(p, target);
      if last.username != target {
        forall i | 0 <= i < |q| ensures q[i].id < last.id && q[i].username != last.username {
          assert q[i] in q;
          var k :| 0 <= k < |p| && p[k] == q[i];
          assert users[k] == q[i];
        }
        AppendKeepsTable(q, last, nextId);
      } else {
        assert DeleteByName(users, target) == q + [] == q;
      }
    }
  }

  /** `UPDATE users SET pin = ? WHERE username = ?`. */
  function SetPin(users: seq<User>, target: string, pin: string): (r: seq<User>)
    ensures |r| == |users|
    ensures forall i :: 0 <= i < |users| ==>
              r[i] == if users[i].username == target then users[i].(pin := pin) else users[i]
  {
    seq(|users|, i requires 0 <= i < |users| =>
      if users[i].username == target then users[i].(pin := pin) else users[i])
  }

  lemma SetPinKeepsTable(users: seq<User>, nextId: nat, target: string, pin: string)
    requires TableOk(users, nextId) && PinIsValid(pin)
    ensures TableOk(SetPin(users, target, pin), nextId)
  {
  }

  predicate HasAdmin(users: seq<User>) {
    exists u :: u in users && u.isAdmin
  }

  predicate HasNonAdmin(users: seq<User>) {
    exists u :: u in users && !u.isAdmin
  }

  /** The logged-in user's row is still in the table. */
  predicate HasId(users: seq<User>, id: nat) {
    exists u :: u in users && u.id == id
  }

  /** Adding rows at the end removes no id from the table. */
  lemma PrefixKeepsIds(users: seq<User>, longer: seq<User>, id: nat)
    requires HasId(users, id) && users <= longer
    ensures HasId(longer, id)
  {
    var u :| u in users && u.id == id;
    var k :| 0 <= k < |users| && users[k] == u;
    assert longer[k] in longer;
  }

  /** UPDATE statements rewrite rows in place and never change an id. */
  lemma UpdateKeepsIds(users: seq<User>, target: string, name: string, pin: string, isAdmin: bool, id: nat)
    requires HasId(users, id) && UpdateByName(users, target, name, pin, isAdmin).Success?
    ensures HasId(UpdateByName(users, target, name, pin, isAdmin).value, id)
  {
    var r := UpdateByName(users, target, name, pin, isAdmin).value;
    var u :| u in users && u.id == id;
    var k :| 0 <= k < |users| && users[k] == u;
    assert r[k] in r;
  }

  lemma SetPinKeepsIds(users: seq<User>, target: string, pin: string, id: nat)
    requires HasId(users, id)
    ensures HasId(SetPin(users, target, pin), id)
  {
    var r := SetPin(users, target, pin);
    var u :| u in users && u.id == id;
    var k :| 0 <= k < |users| && users[k] == u;
    assert r[k] in r;
  }

  // ------------------------------------------------------------- seeding

  /** The two rows init_database inserts into an empty table. */
  function AdminSeed(id: nat): User {
    User(id, "admin", "1234", true)
  }

  function EmployeeSeed(id: nat): User {
    User(id, "employee", "5678", false)
  }

  /** Seeding is refused exactly when a default's name is held by a user of the other kind. */
  predicate SeedConflict(users: seq<User>) {
    || (!HasAdmin(users) && NameTaken(users, "admin"))
    || (!HasNonAdmin(users) && NameTaken(users, "employee"))
  }

  /**
   * The seeding step of init_database: insert admin/1234 when there is no
   * administrator, then employee/5678 when there is no other user. Either
   * INSERT can violate UNIQUE; the exception is not caught, nothing is
   * committed, and the table stays as it was.
   */
  function SeedDefaults(users: seq<User>, nextId: nat): (r: Result<seq<User>, DbError>)
    ensures r.Failure? <==> SeedConflict(users)
    ensures r.Success? ==> HasAdmin(r.value) && HasNonAdmin(r.value)
    ensures r.Success? ==> users <= r.value
    ensures r.Success? ==> (r.value == users <==> HasAdmin(users) && HasNonAdmin(users))
  {
    var afterAdmin := if HasAdmin(users) then Success(users) else InsertUser(users, AdminSeed(nextId));
    match afterAdmin
    case Failure(e) => Failure(e)
    case Success(t) =>
      assert HasAdmin(t) by { if !HasAdmin(users) { assert t[|users|] in t; } }
      assert HasNonAdmin(t) == HasNonAdmin(users);
      assert NameTaken(t, "employee") == NameTaken(users, "employee");
      if HasNonAdmin(t) then Success(t)
      else
        var n := if HasAdmin(users) then nextId else nextId + 1;
        match InsertUser(t, EmployeeSeed(n))
        case Failure(e) => Failure(e)
        case Success(t') =>
          assert t'[|t|] in t';
          Success(t')
  }

  /** What seeding adds: the missing defaults and nothing else, the administrator first. */
  lemma SeedAddsMissingDefaults(users: seq<User>, nextId: nat)
    requires SeedDefaults(users, nextId).Success?
    ensures SeedDefaults(users, nextId).value
            == users
               + (if HasAdmin(users) then [] else [AdminSeed(nextId)])
               + (if HasNonAdmin(users) then [] else [EmployeeSeed(if HasAdmin(users) then nextId else nextId + 1)])
  {
    if !HasAdmin(users) {
      var t := users + [AdminSeed(nextId)];
      assert HasNonAdmin(t) == HasNonAdmin(users);
    }
  }

  /** The seeded table keeps the table invariant, with the counter moved past the new rows. */
  lemma SeedKeepsTable(users: seq<User>, nextId: nat)
    requires TableOk(users, nextId) && SeedDefaults(users, nextId).Success?
    ensures var r := SeedDefaults(users, nextId).value;
            TableOk(r, nextId + |r| - |users|)
  {
    SeedAddsMissingDefaults(users, nextId);
    if HasAdmin(users) {
      if !HasNonAdmin(users) {
        SeedRowKeepsTable(users, EmployeeSeed(nextId));
      }
    } else {
      SeedRowKeepsTable(users, AdminSeed(nextId));
      var t := users + [AdminSeed(nextId)];
      if !HasNonAdmin(users) {
        assert NameTaken(t, "employee") == NameTaken(users, "employee");
        SeedRowKeepsTable(t, EmployeeSeed(nextId + 1));
      }
    }
  }

  /** One default row with a free name and the next id keeps the table invariant. */
  lemma SeedRowKeepsTable(users: seq<User>, u: User)
    requires TableOk(users, u.id) && !NameTaken(users, u.username)
    requires u == AdminSeed(u.id) || u == EmployeeSeed(u.id)
    ensures TableOk(users + [u], u.id + 1)
  {
    assert u.username != [] && PinIsValid(u.pin);
    InsertKeepsTable(users, u);
  }

  // ------------------------------------------------ the self-deletion guard

  /** delete_user as written: the target is compared with the username cached at login. */
  predicate RefusesDeletionAsWritten(session: Session, target: string) {
    target == session.username
  }

  /** The guard the source means: refuse when the DELETE would remove the logged-in user's own row. */
  predicate RefusesDeletion(users: seq<User>, session: Session, target: string) {
    exists u :: u in users && u.username == target && u.id == session.id
  }

  /** With the corrected guard, a deletion that goes ahead never removes the caller's own account. */
  lemma DeletionKeepsOwnAccount(users: seq<User>, nextId: nat, session: Session, target: string)
    requires TableOk(users, nextId)
    requires exists u :: u in users && u.id == session.id
    ensures !RefusesDeletion(users, session, target)
            <==> exists u :: u in DeleteByName(users, target) && u.id == session.id
  {
    var own :| own in users && own.id == session.id;
    if RefusesDeletion(users, session, target) {
      var v :| v in users && v.username == target && v.id == session.id;
      forall u | u in DeleteByName(users, target) ensures u.id != session.id {
        var i :| 0 <= i < |users| && users[i] == u;
        var j :| 0 <= j < |users| && users[j] == v;
        assert i != j;
      }
    } else {
      assert own in DeleteByName(users, target);
    }
  }

  /** A form whose name has no whitespace at either end and whose PIN is four digits passes as typed. */
  lemma CleanCredentials(name: string, pin: string)
    requires name != [] && !IsSpace(name[0]) && !IsSpace(name[|name| - 1]) && PinIsValid(pin)
    ensures ReadCredentials(name, pin) == Success(Credentials(name, pin))
  {
    StripUnchanged(name);
    assert IsDigit(pin[0]) && IsDigit(pin[3]);
    StripUnchanged(pin);
  }

  /** Seeding an empty table gives the administrator id 1 and the employee id 2. */
  lemma SeedEmptyTable()
    ensures SeedDefaults([], 1) == Success([AdminSeed(1), EmployeeSeed(2)])
  {
    assert !HasAdmin([]) && !HasNonAdmin([]) && !SeedConflict([]);
    SeedAddsMissingDefaults([], 1);
    assert [] + [AdminSeed(1)] + [EmployeeSeed(2)] == [AdminSeed(1), EmployeeSeed(2)];
  }

  /** On a freshly seeded table admin/1234 logs in as an administrator. */
  lemma SeededAdminLogin()
    ensures SeedDefaults([], 1).Success?
    ensures CheckLogin(SeedDefaults([], 1).value, "admin", "1234") == Success(Session(1, "admin", true))
  {
    SeedEmptyTable();
    CleanCredentials("admin", "1234");
  }

  /** ... and admin/0000 is refused as bad credentials, not as a malformed PIN. */
  lemma SeededWrongPinLogin()
    ensures SeedDefaults([], 1).Success?
    ensures CheckLogin(SeedDefaults([], 1).value, "admin", "0000") == Failure(InvalidCredentials)
  {
    SeedEmptyTable();
    WrongPinRefused();
  }

  lemma WrongPinRefused()
    ensures CheckLogin([AdminSeed(1), EmployeeSeed(2)], "admin", "0000") == Failure(InvalidCredentials)
  {
    WrongPinCredentials();
    WrongPinNotFound();
  }

  lemma WrongPinCredentials()
    ensures ReadCredentials("admin", "0000") == Success(Credentials("admin", "0000"))
  {
    CleanCredentials("admin", "0000");
  }

  lemma WrongPinNotFound()
    ensures FindUser([AdminSeed(1), EmployeeSeed(2)], "admin", "0000") == None
  {
    var users := [AdminSeed(1), EmployeeSeed(2)];
    assert "0000" != "1234" by { assert "0000"[0] != "1234"[0]; }
    assert users[1..] == [EmployeeSeed(2)];
    assert users[1..][1..] == [];
  }

  /**
   * After an administrator renames their own account, the cached username is
   * stale: the written guard lets them delete their own row, which the
   * corrected guard refuses.
   */
  lemma StaleSessionAllowsSelfDeletion()
    ensures SeedDefaults([], 1).Success?
    ensures var before := SeedDefaults([], 1).value;
            var session := Session(1, "admin", true);
            var renamed := [User(1, "boss", "1234", true), EmployeeSeed(2)];
            && CheckLogin(before, "admin", "1234") == Success(session)
            && UpdateByName(before, "admin", "boss", "1234", true) == Success(renamed)
            && !RefusesDeletionAsWritten(session, "boss")
            && DeleteByName(renamed, "boss") == [EmployeeSeed(2)]
            && RefusesDeletion(renamed, session, "boss")
  {
    SeedEmptyTable();
    SeededAdminLogin();
    SeededAdminRename();
    RenamedAdminDeletion();
  }

  lemma SeededAdminRename()
    ensures UpdateByName([AdminSeed(1), EmployeeSeed(2)], "admin", "boss", "1234", true)
            == Success([User(1, "boss", "1234", true), EmployeeSeed(2)])
  {
    var before := [AdminSeed(1), EmployeeSeed(2)];
    var renamed := [User(1, "boss", "1234", true), EmployeeSeed(2)];
    assert !NameTaken(before, "boss") by {
      forall u | u in before ensures u.username != "boss" {
        assert u == before[0] || u == before[1];
      }
    }
    assert NameTaken(before, "admin") by { assert before[0] in before; }
    var r := UpdateByName(before, "admin", "boss", "1234", true).value;
    assert r[0] == renamed[0];
    assert r[1] == renamed[1];
    assert r == renamed;
  }

  lemma RenamedAdminDeletion()
    ensures var renamed := [User(1, "boss", "1234", true), EmployeeSeed(2)];
            && DeleteByName(renamed, "boss") == [EmployeeSeed(2)]
            && RefusesDeletion(renamed, Session(1, "admin", true), "boss")
  {
    var renamed := [User(1, "boss", "1234", true), EmployeeSeed(2)];
    assert renamed[..1] == [User(1, "boss", "1234", true)];
    assert [User(1, "boss", "1234", true)][..0] == [];
    assert renamed[0] in renamed;
  }
}
