/** `fingerprintController`: what the ESP32 lock and the enrolment page call —
    scan logging, fingerprint validation, registration, the latest finger id
    and the physical denial feed. */
module Fingerprints {
  import opened Wrappers
  import opened Js
  import opened Store
  import Newest
  import Text
  import Users

  datatype Who = Who(id: nat, name: string)

  datatype Body =
    | LatestId(id: Option<int>)
    | Validated(ok: bool, who: Option<Who>)
    | Refused(message: string)
    | Registered(existed: bool)
    | Logged
    | Denials(entries: seq<Entry>)

  /** The user with the greatest id (`ORDER BY id DESC LIMIT 1`). */
  function NewestUser(users: seq<User>): (u: Option<User>)
    ensures u.None? <==> |users| == 0
    ensures u.Some? ==> u.value in users && forall i :: 0 <= i < |users| ==> users[i].id <= u.value.id
  {
    if |users| == 0 then None
    else
      match NewestUser(users[1..])
      case None => Some(users[0])
      case Some(v) =>
        assert forall i :: 1 <= i < |users| ==> users[i] == users[1..][i - 1];
        if users[0].id >= v.id then Some(users[0]) else Some(v)
  }

  /** With ids handed out in table order, the newest user is the last row. */
  lemma {:induction false} NewestUserIsLast(users: seq<User>, next: nat)
    requires UserIdsOrdered(users, next) && |users| > 0
    ensures NewestUser(users) == Some(users[|users| - 1])
  {
    if |users| > 1 {
      assert UserIdsOrdered(users[1..], next);
      NewestUserIsLast(users[1..], next);
      assert users[1..][|users| - 2] == users[|users| - 1];
    }
  }

  /** `getLatestFinger`: the finger id of the most recently created user, or
      null on an empty table. */
  function GetLatestFinger(db: Db): (r: Reply<Body>)
    ensures r.db == db && r.status == 200 && r.body.LatestId?
    ensures r.body.id.None? <==> |db.users| == 0
    ensures r.body.id.Some? ==>
      exists u :: u in db.users && u.fingerId == r.body.id.value && (forall i :: 0 <= i < |db.users| ==> db.users[i].id <= u.id)
  {
    match NewestUser(db.users)
    case None => Reply(200, LatestId(None), db)
    case Some(u) => Reply(200, LatestId(Some(u.fingerId)), db)
  }

  /** After a successful `registerUser`, this endpoint reports the new finger id. */
  lemma LatestAfterRegister(db: Db, b: Users.RegisterBody)
    requires Wf(db)
    requires Users.RegisterUser(db, b).status == 201
    ensures GetLatestFinger(Users.RegisterUser(db, b).db).body.id == Some(ToNumber(b.fingerId).value)
  {
    var db' := Users.RegisterUser(db, b).db;
    Users.RegisterKeepsWf(db, b);
    NewestUserIsLast(db'.users, db'.nextUser);
  }

  /** `validateFingerprint`: a missing id is 400; an id matching no user's
      finger id, as MySQL compares the string with the INT column, is ok:false;
      a matching one is ok:true with the user's id and "first last". */
  function ValidateFingerprint(db: Db, id: Option<string>): (r: Reply<Body>)
    ensures r.db == db
    ensures r.status == 400 <==> id.None? || id.value == ""
    ensures r.status == 400 ==> r.body == Validated(false, None)
    ensures r.status != 400 ==>
      && r.status == 200 && r.body.Validated?
      && (r.body.ok <==> SqlText(id.value).Some? && HasFinger(db.users, SqlText(id.value).value))
    ensures r.status == 200 && r.body.ok ==>
      exists u :: u in db.users && Some(u.fingerId) == SqlText(id.value) && r.body.who == Some(Who(u.id, u.firstName + " " + u.lastName))
  {
    if id.None? || id.value == "" then Reply(400, Validated(false, None), db)
    else
      match SqlText(id.value)
      case None => Reply(200, Validated(false, None), db)
      case Some(k) =>
        match UserByFinger(db.users, k)
        case None => Reply(200, Validated(false, None), db)
        case Some(u) => Reply(200, Validated(true, Some(Who(u.id, u.firstName + " " + u.lastName))), db)
  }

  /** A finger id with a non-zero fraction, such as "1.5", validates nobody,
      whoever holds finger 1. */
  lemma ValidateRefusesFraction(db: Db, n: nat, f: string)
    requires AllDigits(f) && !AllZeros(f)
    ensures ValidateFingerprint(db, Some(Digits(n) + "." + f)) == Reply(200, Validated(false, None), db)
  {
    SqlReadsFraction(n, f);
  }

  /** A finger id written with a '+' or with leading blanks validates the
      holder of that finger, as a plain one does. */
  lemma ValidateReadsLikeMySql(db: Db, n: nat, pad: string)
    requires forall i :: 0 <= i < |pad| ==> SqlSpace(pad[i])
    ensures ValidateFingerprint(db, Some(pad + "+" + Digits(n))) == ValidateFingerprint(db, Some(Digits(n)))
  {
    var plain := Digits(n);
    var padded := pad + "+" + plain;
    assert padded == pad + ("+" + plain);
    SqlReadsDigits(n);
    SqlSkipsPadding(pad, "+" + plain);
    assert SqlText(padded) == SqlText(plain) == Some(n);
    assert padded != "" && plain != "";
    SameReading(db, padded, plain);
  }

  /** Two non-empty ids MySQL reads alike validate alike. */
  lemma SameReading(db: Db, a: string, b: string)
    requires a != "" && b != "" && SqlText(a) == SqlText(b)
    ensures ValidateFingerprint(db, Some(a)) == ValidateFingerprint(db, Some(b))
  {
  }

  /** `registerFingerprint` as written: a missing field is 400; otherwise the
      handler reaches `bcrypt.hash` with the bcrypt import commented out, the
      ReferenceError lands in the catch, and the reply is 500 with nothing stored. */
  function RegisterFingerprint(db: Db, b: Users.RegisterBody): (r: Reply<Body>)
    ensures r.db == db
    ensures r.status == 400 <==> !Users.Complete(b)
    ensures r.status != 400 ==> r.status == 500
  {
    if !Users.Complete(b) then Reply(400, Refused("All fields are required"), db)
    else Reply(500, Refused("Server error during registration"), db)
  }

  /** Whether `registerFingerprint`'s SELECT finds a row with this finger id. */
  predicate Existed(db: Db, b: Users.RegisterBody) {
    SqlInt(b.fingerId).Some? && HasFinger(db.users, SqlInt(b.fingerId).value)
  }

  /** The row the corrected registration inserts: the finger id as MySQL
      stores it, is_active 1, is_admin 0. */
  function NewFingerRow(db: Db, b: Users.RegisterBody): (u: User)
    requires Users.Complete(b)
    ensures u.id == db.nextUser && Some(u.fingerId) == SqlStored(b.fingerId)
    ensures u.isActive && !u.isAdmin && !u.isLoggedIn
    ensures u.password == Hash(b.password.value)
  {
    User(db.nextUser, SqlStored(b.fingerId).value, b.firstName.value, b.lastName.value, b.phone.value,
         Hash(b.password.value), true, false, false)
  }

  /** The registration the handler evidently means: update every row with this
      finger id, keeping its id and flags, or insert one with is_active 1 and
      is_admin 0; no other table changes.  Finger ids are compared as MySQL
      does in a non-strict `sql_mode`. */
  function RegisterFingerprintUpsert(db: Db, b: Users.RegisterBody): (r: Reply<Body>)
    ensures r.status == 400 <==> !Users.Complete(b)
    ensures r.status == 400 ==> r.db == db
    ensures r.status != 400 ==> r.status == 200 && r.body == Registered(Existed(db, b))
    ensures r.status == 200 ==> r.db == db.(users := r.db.users, nextUser := r.db.nextUser)
    ensures r.status == 200 && Existed(db, b) ==>
      && var k := SqlInt(b.fingerId).value;
      && r.db.nextUser == db.nextUser && |r.db.users| == |db.users|
      && forall i :: 0 <= i < |db.users| ==>
           r.db.users[i] == if db.users[i].fingerId == k then
             db.users[i].(firstName := b.firstName.value, lastName := b.lastName.value,
                          phone := b.phone.value, password := Hash(b.password.value))
           else db.users[i]
    ensures r.status == 200 && !Existed(db, b) ==>
      && r.db.nextUser == db.nextUser + 1
      && r.db.users == db.users + [NewFingerRow(db, b)]
  {
    if !Users.Complete(b) then Reply(400, Refused("All fields are required"), db)
    else if Existed(db, b) then
      var k := SqlInt(b.fingerId).value;
      var users := seq(|db.users|, i requires 0 <= i < |db.users| =>
        if db.users[i].fingerId == k then
          db.users[i].(firstName := b.firstName.value, lastName := b.lastName.value,
                       phone := b.phone.value, password := Hash(b.password.value))
        else db.users[i]);
      Reply(200, Registered(true), db.(users := users))
    else
      Reply(200, Registered(false), db.(users := db.users + [NewFingerRow(db, b)], nextUser := db.nextUser + 1))
  }

  /** The registration handler as written never stores anything, though the
      corrected one always leaves a row holding the submitted finger id, as
      MySQL stores it, with the submitted name, phone and password. */
  lemma RegistrationNeverStored(db: Db, b: Users.RegisterBody)
    requires Users.Complete(b)
    ensures RegisterFingerprint(db, b).status == 500 && RegisterFingerprint(db, b).db == db
    ensures RegisterFingerprintUpsert(db, b).status == 200
    ensures exists u ::
      && u in RegisterFingerprintUpsert(db, b).db.users
      && Some(u.fingerId) == SqlStored(b.fingerId)
      && u.firstName == b.firstName.value && u.lastName == b.lastName.value
      && u.phone == b.phone.value && u.password == Hash(b.password.value)
  {
    var users := RegisterFingerprintUpsert(db, b).db.users;
    if Existed(db, b) {
      var k := SqlInt(b.fingerId).value;
      StoredMatches(b.fingerId);
      var i :| 0 <= i < |db.users| && db.users[i].fingerId == k;
      assert users[i] in users;
    } else {
      assert users[|db.users|] == NewFingerRow(db, b);
    }
  }

  /** The action text of a scan. */
  const ScanAction := "Fingerprint Scan"

  /** `logFingerprintEvent`: always one new PHYSICAL entry with the given
      status.  Its finger id is the scanned id when that is `>= 0`, else null;
      its user is looked up only for such an id and is null when no user has it. */
  function LogFingerprintEvent(db: Db, fingerprintId: Value, status: Option<string>, now: int): (r: Reply<Body>)
    ensures r.status == 200 && r.body == Logged
    ensures |r.db.log| == |db.log| + 1 && r.db.log[..|db.log|] == db.log
    ensures r.db == AppendLog(db, r.db.log[|db.log|].userId, r.db.log[|db.log|].fingerId, ScanAction, "PHYSICAL", status, now)
    ensures var e := r.db.log[|db.log|];
      && (e.fingerId.Some? <==> AtLeastZero(fingerprintId) && !fingerprintId.Null?)
      && (e.fingerId.Some? ==> e.fingerId == ToNumber(fingerprintId))
      && (e.userId.Some? ==>
            && AtLeastZero(fingerprintId) && e.fingerId.Some?
            && exists u :: u in db.users && u.id == e.userId.value && u.fingerId == e.fingerId.value)
      && (e.fingerId.Some? && HasFinger(db.users, e.fingerId.value) ==> e.userId.Some?)
  {
    var atLeastZero := AtLeastZero(fingerprintId);
    var key := if atLeastZero then SqlInt(fingerprintId) else None;
    assert atLeastZero && !fingerprintId.Null? ==> key == ToNumber(fingerprintId) by {
      if atLeastZero && !fingerprintId.Null? {
        SqlAgreesWithNumber(fingerprintId);
      }
    }
    var userId := if key.None? then None
      else match UserByFinger(db.users, key.value)
           case None => None
           case Some(u) => Some(u.id);
    var db' := AppendLog(db, userId, key, ScanAction, "PHYSICAL", status, now);
    assert db'.log[..|db.log|] == db.log;
    Reply(200, Logged, db')
  }

  /** `method = 'PHYSICAL' AND status = 'denied'` under the columns'
      case-insensitive collation. */
  predicate IsPhysicalDenial(e: Entry) {
    Text.CiEqual(e.via, "PHYSICAL") && e.status.Some? && Text.CiEqual(e.status.value, "denied")
  }

  /** A scan a device logged with its own capitalisation, 'Physical' and
      'Denied', is in the feed; a remote denial is not. */
  lemma PhysicalDenialSpellings(e: Entry)
    ensures e.via == "PHYSICAL" && e.status == Some("denied") ==> IsPhysicalDenial(e)
    ensures e.via == "Physical" && e.status == Some("Denied") ==> IsPhysicalDenial(e)
    ensures e.via == "Remote" ==> !IsPhysicalDenial(e)
  {
  }

  /** This controller's `getLatestDenials`: the five newest PHYSICAL denials. */
  function GetLatestPhysicalDenials(db: Db): (r: Reply<Body>)
    ensures r.db == db && r.status == 200 && r.body.Denials?
    ensures forall e :: e in r.body.entries ==> e in db.log && IsPhysicalDenial(e)
    ensures Newest.NewestSelection(r.body.entries, Filter(db.log, IsPhysicalDenial), 5)
  {
    Reply(200, Denials(Newest.Latest(Filter(db.log, IsPhysicalDenial), 5)), db)
  }

  /** `recordDenial`: one denied PHYSICAL scan with no user, holding the
      finger id as MySQL stores it; nothing else changes. */
  function RecordDenial(db: Db, fingerId: Value, now: int): (db': Db)
    ensures db'.log == db.log + [Entry(db.nextLog, None, SqlStored(fingerId), ScanAction, "PHYSICAL", Some("denied"), now)]
    ensures db' == db.(log := db'.log, nextLog := db.nextLog + 1)
  {
    AppendLog(db, None, SqlStored(fingerId), ScanAction, "PHYSICAL", Some("denied"), now)
  }

  /** A denial recorded after everything already in the log is among the
      five the physical denial feed shows next. */
  lemma RecordedDenialIsShown(db: Db, fingerId: Value, now: int)
    requires forall e :: e in db.log ==> e.createdAt < now
    ensures var db' := RecordDenial(db, fingerId, now);
      db'.log[|db.log|] in GetLatestPhysicalDenials(db').body.entries
  {
    var db' := RecordDenial(db, fingerId, now);
    var x := db'.log[|db.log|];
    var s := Filter(db'.log, IsPhysicalDenial);
    var r := GetLatestPhysicalDenials(db').body.entries;
    assert x in db'.log && IsPhysicalDenial(x);
    assert x in s;
    assert |r| >= 1;
    var y := r[0];
    assert y in multiset(r);
    assert y in s;
    if y != x {
      assert y in db.log;
      assert y.createdAt < x.createdAt;
      assert x !in multiset(s) - multiset(r);
      assert x in multiset(r);
    }
  }
}
