/** `gpsController`: the append-only fix log with its latest-or-default read,
    the alert endpoint, and the stored safe-zone settings. */
module Gps {
  import opened Wrappers
  import opened Js
  import opened Store

  datatype Body =
    | Message(text: string)
    | Failed(error: string)
    | Location(latitude: Option<real>, longitude: Option<real>, timestamp: int, isAlert: Value)
    | Settings(zone: SafeZone)
    | Saved

  /** JavaScript truthiness of a coordinate: absent and 0 are falsy. */
  predicate Present(c: Option<real>) {
    c.Some? && c.value != 0.0
  }

  /** `is_alert = 0` in the destructuring: the default applies to an absent
      field only. */
  function AlertFlag(isAlert: Value): (v: Value)
    ensures isAlert.Undefined? ==> v == Int(0)
    ensures !isAlert.Undefined? ==> v == isAlert
  {
    if isAlert.Undefined? then Int(0) else isAlert
  }

  /** `insertGPS`: 400 and no change unless both coordinates are truthy;
      otherwise one fix and one `gps_update` carrying the same values, 201. */
  function InsertGps(db: Db, latitude: Option<real>, longitude: Option<real>, isAlert: Value, now: int): (r: Reply<Body>)
    ensures r.status == 400 <==> !Present(latitude) || !Present(longitude)
    ensures r.status == 400 ==> r.db == db
    ensures r.status != 400 ==>
      && r.status == 201
      && r.db.gps == db.gps + [Fix(db.nextFix, latitude, longitude, AlertFlag(isAlert), now)]
      && r.db.events == db.events + [GpsUpdate(latitude.value, longitude.value, now, AlertFlag(isAlert))]
      && r.db == db.(gps := r.db.gps, events := r.db.events, nextFix := db.nextFix + 1)
    ensures Wf(db) ==> Wf(r.db)
  {
    if !Present(latitude) || !Present(longitude) then
      Reply(400, Failed("Latitude and longitude are required"), db)
    else
      var flag := AlertFlag(isAlert);
      Reply(201, Message("GPS data inserted successfully"),
            db.(gps := db.gps + [Fix(db.nextFix, latitude, longitude, flag, now)],
                nextFix := db.nextFix + 1,
                events := db.events + [GpsUpdate(latitude.value, longitude.value, now, flag)]))
  }

  /** `ORDER BY id DESC LIMIT 1` on a non-empty table. */
  function Newest(gps: seq<Fix>): (f: Fix)
    requires |gps| > 0
    ensures f in gps
    ensures forall i :: 0 <= i < |gps| ==> gps[i].id <= f.id
  {
    if |gps| == 1 then gps[0]
    else
      var rest := Newest(gps[1..]);
      assert forall i :: 1 <= i < |gps| ==> gps[i] == gps[1..][i - 1];
      if gps[0].id > rest.id then gps[0] else rest
  }

  /** `getLatestGPS`: the fix with the greatest id with 200, or the zero
      default with 404 on an empty log; never writes. */
  function GetLatestGps(db: Db, now: int): (r: Reply<Body>)
    ensures r.db == db && r.body.Location?
    ensures r.status == 404 <==> db.gps == []
    ensures r.status == 404 ==> r.body == Location(Some(0.0), Some(0.0), now, Int(0))
    ensures r.status != 404 ==>
      && r.status == 200
      && exists i :: 0 <= i < |db.gps|
           && (forall j :: 0 <= j < |db.gps| ==> db.gps[j].id <= db.gps[i].id)
           && r.body == Location(db.gps[i].latitude, db.gps[i].longitude, db.gps[i].timestamp, db.gps[i].isAlert)
  {
    if db.gps == [] then Reply(404, Location(Some(0.0), Some(0.0), now, Int(0)), db)
    else
      var f := Newest(db.gps);
      Reply(200, Location(f.latitude, f.longitude, f.timestamp, f.isAlert), db)
  }

  /** Under increasing ids the newest fix is the last one appended. */
  lemma NewestIsLast(gps: seq<Fix>, next: nat)
    requires |gps| > 0 && FixIdsOrdered(gps, next)
    ensures Newest(gps) == gps[|gps| - 1]
  {
    var f := Newest(gps);
    var k :| 0 <= k < |gps| && gps[k] == f;
    assert gps[|gps| - 1].id <= gps[k].id;
    assert k == |gps| - 1;
  }

  /** A stored fix is what the next read reports. */
  lemma InsertThenLatest(db: Db, latitude: Option<real>, longitude: Option<real>, isAlert: Value, now: int, later: int)
    requires Wf(db)
    requires InsertGps(db, latitude, longitude, isAlert, now).status == 201
    ensures GetLatestGps(InsertGps(db, latitude, longitude, isAlert, now).db, later)
         == Reply(200, Location(latitude, longitude, now, AlertFlag(isAlert)), InsertGps(db, latitude, longitude, isAlert, now).db)
  {
    var db' := InsertGps(db, latitude, longitude, isAlert, now).db;
    NewestIsLast(db'.gps, db'.nextFix);
  }

  /** The body of `POST /gps/alert`, read without validation. */
  datatype AlertBody = AlertBody(
    latitude: Option<real>,
    longitude: Option<real>,
    timestamp: Value,
    deviceId: Option<string>,
    message: Option<string>)

  /** `handleAlert`: one fix flagged 1, one alert row with the same
      coordinates, one `alert` event echoing the body, 201. */
  function HandleAlert(db: Db, a: AlertBody, now: int): (r: Reply<Body>)
    ensures r.status == 201
    ensures r.db.gps == db.gps + [Fix(db.nextFix, a.latitude, a.longitude, Int(1), now)]
    ensures r.db.alerts == db.alerts + [AlertRow(db.nextAlert, a.deviceId, a.latitude, a.longitude, a.message)]
    ensures r.db.events == db.events + [AlertRaised(a.deviceId, a.latitude, a.longitude, a.timestamp, a.message)]
    ensures r.db == db.(gps := r.db.gps, alerts := r.db.alerts, events := r.db.events,
                        nextFix := db.nextFix + 1, nextAlert := db.nextAlert + 1)
    ensures Wf(db) ==> Wf(r.db)
  {
    Reply(201, Message("Alert processed"),
          db.(gps := db.gps + [Fix(db.nextFix, a.latitude, a.longitude, Int(1), now)],
              nextFix := db.nextFix + 1,
              alerts := db.alerts + [AlertRow(db.nextAlert, a.deviceId, a.latitude, a.longitude, a.message)],
              nextAlert := db.nextAlert + 1,
              events := db.events + [AlertRaised(a.deviceId, a.latitude, a.longitude, a.timestamp, a.message)]))
  }

  /** After an alert the latest fix is flagged, whatever the body said. */
  lemma AlertThenLatest(db: Db, a: AlertBody, now: int, later: int)
    requires Wf(db)
    ensures GetLatestGps(HandleAlert(db, a, now).db, later).body.isAlert == Int(1)
  {
    var db' := HandleAlert(db, a, now).db;
    NewestIsLast(db'.gps, db'.nextFix);
  }

  const DefaultZone := SafeZone(Some(0.05), Some(0.01))

  /** `getSafeZoneSettings`: the first stored row, or the defaults. */
  function GetSafeZoneSettings(db: Db): (r: Reply<Body>)
    ensures r.status == 200 && r.db == db
    ensures r.body == Settings(if db.zones == [] then DefaultZone else db.zones[0])
  {
    if db.zones == [] then Reply(200, Settings(DefaultZone), db)
    else Reply(200, Settings(db.zones[0]), db)
  }

  /** `updateSafeZoneSettings`: INSERT … ON DUPLICATE KEY UPDATE.  Which row,
      if any, the new one collides with depends on a table definition that is
      not part of this model, so it is a parameter: `clash` is the position of
      the colliding row (its two values are overwritten), or None for a plain
      append. */
  function UpdateSafeZoneSettings(db: Db, radius: Option<real>, drift: Option<real>, clash: Option<nat>): (r: Reply<Body>)
    ensures r.status == 200 && r.body == Saved
    ensures r.db == db.(zones := r.db.zones)
    ensures clash.Some? && clash.value < |db.zones| ==>
      && |r.db.zones| == |db.zones|
      && (forall i :: 0 <= i < |db.zones| && i != clash.value ==> r.db.zones[i] == db.zones[i])
      && r.db.zones[clash.value] == SafeZone(radius, drift)
    ensures !(clash.Some? && clash.value < |db.zones|) ==> r.db.zones == db.zones + [SafeZone(radius, drift)]
  {
    var row := SafeZone(radius, drift);
    var zones := if clash.Some? && clash.value < |db.zones| then db.zones[clash.value := row] else db.zones + [row];
    Reply(200, Saved, db.(zones := zones))
  }

  /** The settings read back are the posted ones exactly when the table was
      empty or the insert collided with its first row; otherwise the read is
      unaffected. */
  lemma SettingsReadBack(db: Db, radius: Option<real>, drift: Option<real>, clash: Option<nat>)
    ensures var db' := UpdateSafeZoneSettings(db, radius, drift, clash).db;
      && (db.zones == [] || clash == Some(0) ==> GetSafeZoneSettings(db').body == Settings(SafeZone(radius, drift)))
      && (db.zones != [] && clash != Some(0) ==> GetSafeZoneSettings(db').body == GetSafeZoneSettings(db).body)
  {
  }
}
