/** The abstract database every handler reads and writes: the `users`,
    `access_logs`, `gps_data`, `alerts` and `safe_zone_settings` tables, the
    Socket.IO events emitted so far, and the servo controller's module-level
    `currentAngle`.  Auto-increment counters hand out row ids. */
module Store {
  import opened Wrappers
  import Js

  /** bcrypt, idealised: a hash remembers the secret it was made from, and
      `bcrypt.compare` succeeds exactly for that secret. */
  datatype Hash = Hash(secret: string)

  predicate Compare(password: string, h: Hash) {
    h.secret == password
  }

  datatype User = User(
    id: nat,
    fingerId: int,
    firstName: string,
    lastName: string,
    phone: string,
    password: Hash,
    isActive: bool,
    isAdmin: bool,
    isLoggedIn: bool)

  /** A user row without its `password` column, as the handlers that strip it return it. */
  datatype UserView = UserView(
    id: nat,
    fingerId: int,
    firstName: string,
    lastName: string,
    phone: string,
    isActive: bool,
    isAdmin: bool,
    isLoggedIn: bool)

  function ViewOf(u: User): (v: UserView)
    ensures v.id == u.id && v.fingerId == u.fingerId && v.phone == u.phone
    ensures v.firstName == u.firstName && v.lastName == u.lastName
    ensures v.isAdmin == u.isAdmin && v.isLoggedIn == u.isLoggedIn && v.isActive == u.isActive
  {
    UserView(u.id, u.fingerId, u.firstName, u.lastName, u.phone, u.isActive, u.isAdmin, u.isLoggedIn)
  }

  /** One row of `access_logs`; `via` is its `method` column ('PHYSICAL', 'Remote', 'REMOTE')
      and `createdAt` the insertion clock reading. */
  datatype Entry = Entry(
    id: nat,
    userId: Option<nat>,
    fingerId: Option<int>,
    action: string,
    via: string,
    status: Option<string>,
    createdAt: int)

  /** One row of `gps_data`; absent coordinates are stored as NULL. */
  datatype Fix = Fix(id: nat, latitude: Option<real>, longitude: Option<real>, isAlert: Js.Value, timestamp: int)

  /** One row of `alerts`. */
  datatype AlertRow = AlertRow(
    id: nat,
    deviceId: Option<string>,
    latitude: Option<real>,
    longitude: Option<real>,
    message: Option<string>)

  /** One row of `safe_zone_settings` (degrees). */
  datatype SafeZone = SafeZone(radius: Option<real>, drift: Option<real>)

  /** A Socket.IO broadcast. */
  datatype Event =
    | GpsUpdate(lat: real, lon: real, timestamp: int, isAlert: Js.Value)
    | AlertRaised(deviceId: Option<string>, latitude: Option<real>, longitude: Option<real>, when: Js.Value, message: Option<string>)

  datatype Db = Db(
    users: seq<User>,
    log: seq<Entry>,
    gps: seq<Fix>,
    alerts: seq<AlertRow>,
    zones: seq<SafeZone>,
    events: seq<Event>,
    servoAngle: int,
    nextUser: nat,
    nextLog: nat,
    nextFix: nat,
    nextAlert: nat)

  /** A handler's outcome: HTTP status, JSON body, and the database afterwards. */
  datatype Reply<T> = Reply(status: nat, body: T, db: Db)

  /** Empty tables, counters at 1 and the servo at angle 0. */
  function Init(): (db: Db)
    ensures Wf(db) && db.servoAngle == 0
    ensures db.users == [] && db.log == [] && db.gps == []
  {
    Db([], [], [], [], [], [], 0, 1, 1, 1, 1)
  }

  /** Ids strictly increase along the table and stay below the counter. */
  predicate UserIdsOrdered(users: seq<User>, next: nat) {
    (forall i, j :: 0 <= i < j < |users| ==> users[i].id < users[j].id)
    && forall i :: 0 <= i < |users| ==> users[i].id < next
  }

  predicate LogIdsOrdered(log: seq<Entry>, next: nat) {
    (forall i, j :: 0 <= i < j < |log| ==> log[i].id < log[j].id)
    && forall i :: 0 <= i < |log| ==> log[i].id < next
  }

  predicate FixIdsOrdered(gps: seq<Fix>, next: nat) {
    (forall i, j :: 0 <= i < j < |gps| ==> gps[i].id < gps[j].id)
    && forall i :: 0 <= i < |gps| ==> gps[i].id < next
  }

  /** The auto-increment discipline on every table with an id. */
  predicate Wf(db: Db) {
    UserIdsOrdered(db.users, db.nextUser)
    && LogIdsOrdered(db.log, db.nextLog)
    && FixIdsOrdered(db.gps, db.nextFix)
  }

  /** INSERT INTO access_logs: one new row with the next id, nothing else touched. */
  function AppendLog(db: Db, userId: Option<nat>, fingerId: Option<int>, action: string,
                     via: string, status: Option<string>, now: int): (db': Db)
    ensures db'.log == db.log + [Entry(db.nextLog, userId, fingerId, action, via, status, now)]
    ensures db'.nextLog == db.nextLog + 1
    ensures db'.users == db.users && db'.gps == db.gps && db'.alerts == db.alerts
    ensures db'.zones == db.zones && db'.events == db.events && db'.servoAngle == db.servoAngle
    ensures Wf(db) ==> Wf(db')
  {
    db.(log := db.log + [Entry(db.nextLog, userId, fingerId, action, via, status, now)],
        nextLog := db.nextLog + 1)
  }

  /** The first row of `users` with the given id (`WHERE id = ?`). */
  function UserById(users: seq<User>, id: int): Option<User> {
    First(users, (u: User) => u.id == id)
  }

  function UserByFinger(users: seq<User>, k: int): Option<User> {
    First(users, (u: User) => u.fingerId == k)
  }

  function UserByPhone(users: seq<User>, phone: string): Option<User> {
    First(users, (u: User) => u.phone == phone)
  }

  predicate HasFinger(users: seq<User>, k: int) {
    exists i :: 0 <= i < |users| && users[i].fingerId == k
  }

  predicate HasPhone(users: seq<User>, phone: string) {
    exists i :: 0 <= i < |users| && users[i].phone == phone
  }

  /** The registry's uniqueness invariant: no two users share a finger id or a phone. */
  predicate Unique(users: seq<User>) {
    (forall i, j :: 0 <= i < j < |users| ==> users[i].fingerId != users[j].fingerId)
    && (forall i, j :: 0 <= i < j < |users| ==> users[i].phone != users[j].phone)
  }
}
