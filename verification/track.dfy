/** The Track page's client state: reactions to the two Socket.IO events,
    the polling of `GET /gps/location`, acknowledging an alert, and the
    degree/metre conversion of the safe-zone settings.  Toasts, the map and
    time formatting are rendering and are not modelled. */
module Track {
  import opened Wrappers
  import opened Js
  import opened Store
  import Gps

  /** One entry of the alert list. */
  datatype AlertItem = AlertItem(timestamp: Value, latitude: Option<real>, longitude: Option<real>)

  datatype View = View(
    position: (real, real),
    alertMode: Value,
    gpsStatus: string,
    isRealTime: bool,
    error: Option<string>,
    loading: bool,
    lastStamp: Option<int>,
    history: seq<AlertItem>,
    radiusMetres: real,
    driftMetres: real)

  const AlarmStatus := "ALERT: Device out of safe zone!"
  const LiveStatus := "Live GPS Tracking"
  const StaleStatus := "Using last known position"
  const StaleError := "Failed to get live location. Data may be outdated."

  /** Metres per degree, as the page converts. */
  const MetresPerDegree: real := 111320.0

  function Initial(): (v: View)
    ensures v.history == [] && !Truthy(v.alertMode) && !v.isRealTime
  {
    View((-2.148252, 30.542430), Bool(false), "Waiting for GPS signal...", false, None, true, None, [], 50.0, 10.0)
  }

  /** The page is showing an alarm. */
  predicate Alarmed(v: View) {
    Truthy(v.alertMode)
  }

  /** The `alert` handler: the list gains the new alert in front and keeps at
      most nine older ones. */
  function OnAlert(v: View, item: AlertItem): (r: View)
    ensures Alarmed(r) && r.gpsStatus == AlarmStatus
    ensures 1 <= |r.history| <= 10 && r.history[0] == item
    ensures r.history[1..] == v.history[..Min(9, |v.history|)]
    ensures r == v.(alertMode := r.alertMode, gpsStatus := AlarmStatus, history := r.history)
  {
    v.(alertMode := Bool(true), gpsStatus := AlarmStatus,
       history := [item] + v.history[..Min(9, |v.history|)])
  }

  /** The `gps_update` handler. */
  function OnGpsUpdate(v: View, latitude: real, longitude: real, timestamp: int, isAlert: Value): (r: View)
    ensures Alarmed(r) <==> Truthy(isAlert)
    ensures r.position == (latitude, longitude) && r.lastStamp == Some(timestamp)
    ensures Truthy(isAlert) ==> r.gpsStatus == v.gpsStatus
    ensures !Truthy(isAlert) ==> r.gpsStatus == LiveStatus
    ensures r.history == v.history && r.isRealTime == v.isRealTime
    ensures r == v.(alertMode := r.alertMode, gpsStatus := r.gpsStatus, position := r.position, lastStamp := r.lastStamp)
  {
    var v1 := if Truthy(isAlert) then v.(alertMode := Bool(true)) else v.(alertMode := Bool(false), gpsStatus := LiveStatus);
    v1.(position := (latitude, longitude), lastStamp := Some(timestamp))
  }

  /** A server broadcast reaching the page: an `alert` raises the alarm and
      heads the list without moving the marker; a `gps_update` moves the
      marker and leaves the list alone. */
  function OnEvent(v: View, e: Event): (r: View)
    ensures e.AlertRaised? ==> r == OnAlert(v, AlertItem(e.when, e.latitude, e.longitude))
    ensures e.GpsUpdate? ==> r == OnGpsUpdate(v, e.lat, e.lon, e.timestamp, e.isAlert)
    ensures e.AlertRaised? ==>
      && Alarmed(r) && r.position == v.position && r.lastStamp == v.lastStamp
      && r.history[0] == AlertItem(e.when, e.latitude, e.longitude)
    ensures e.GpsUpdate? ==>
      && r.position == (e.lat, e.lon) && r.lastStamp == Some(e.timestamp)
      && r.history == v.history && (Alarmed(r) <==> Truthy(e.isAlert))
  {
    match e
    case AlertRaised(_, lat, lon, when, _) => OnAlert(v, AlertItem(when, lat, lon))
    case GpsUpdate(lat, lon, ts, flag) => OnGpsUpdate(v, lat, lon, ts, flag)
  }

  /** `fetchLocation`.  `reply` is the body of a 2xx answer, or None when the
      request threw (axios throws on every non-2xx status, 404 included). */
  function Poll(v: View, reply: Option<Gps.Body>, now: int): (r: View)
    ensures !r.loading
    ensures reply.None? ==>
      r == v.(isRealTime := false, gpsStatus := StaleStatus, error := Some(StaleError), loading := false)
    ensures reply.Some? && reply.value.Location? && Gps.Present(reply.value.latitude) && Gps.Present(reply.value.longitude) ==>
      var body := reply.value;
      r == v.(position := (body.latitude.value, body.longitude.value),
              lastStamp := Some(if body.timestamp != 0 then body.timestamp else now),
              alertMode := body.isAlert,
              gpsStatus := if Truthy(body.isAlert) then AlarmStatus else LiveStatus,
              isRealTime := true, error := None, loading := false)
    ensures reply.Some? && !(reply.value.Location? && Gps.Present(reply.value.latitude) && Gps.Present(reply.value.longitude)) ==>
      r == v.(loading := false)
  {
    match reply
    case None => v.(isRealTime := false, gpsStatus := StaleStatus, error := Some(StaleError), loading := false)
    case Some(body) =>
      if body.Location? && Gps.Present(body.latitude) && Gps.Present(body.longitude) then
        v.(position := (body.latitude.value, body.longitude.value),
           lastStamp := Some(if body.timestamp != 0 then body.timestamp else now),
           alertMode := body.isAlert,
           gpsStatus := if Truthy(body.isAlert) then AlarmStatus else LiveStatus,
           isRealTime := true, error := None, loading := false)
      else v.(loading := false)
  }

  /** Polling the server as it answers from `db`: an empty fix table answers
      404, which the page treats as a failed request; otherwise the page
      takes in the fix with the greatest id. */
  function PollStore(v: View, db: Db, now: int): (r: View)
    ensures db.gps == [] ==>
      r == v.(isRealTime := false, gpsStatus := StaleStatus, error := Some(StaleError), loading := false)
    ensures db.gps != [] ==>
      exists i ::
        && 0 <= i < |db.gps|
        && (forall j :: 0 <= j < |db.gps| ==> db.gps[j].id <= db.gps[i].id)
        && r == Poll(v, Some(Gps.Location(db.gps[i].latitude, db.gps[i].longitude, db.gps[i].timestamp, db.gps[i].isAlert)), now)
  {
    var g := Gps.GetLatestGps(db, now);
    Poll(v, if g.status == 200 then Some(g.body) else None, now)
  }

  /** An empty fix log answers 404, so the page falls back to its last known
      position. */
  lemma PollEmptyStore(v: View, db: Db, now: int)
    requires db.gps == []
    ensures PollStore(v, db, now).position == v.position
    ensures !PollStore(v, db, now).isRealTime
  {
  }

  /** A fix stored through `insertGPS` is where the next poll puts the
      marker, with the alarm state it was posted with. */
  lemma PollAfterInsert(v: View, db: Db, latitude: Option<real>, longitude: Option<real>, isAlert: Value, now: int, later: int)
    requires Wf(db)
    requires Gps.InsertGps(db, latitude, longitude, isAlert, now).status == 201
    ensures var r := PollStore(v, Gps.InsertGps(db, latitude, longitude, isAlert, now).db, later);
      && r.position == (latitude.value, longitude.value)
      && r.isRealTime
      && (Alarmed(r) <==> Truthy(Gps.AlertFlag(isAlert)))
  {
    Gps.InsertThenLatest(db, latitude, longitude, isAlert, now, later);
  }

  /** `acknowledgeAlert`: a local change only. */
  function Acknowledge(v: View): (r: View)
    ensures !Alarmed(r) && r.gpsStatus == LiveStatus
    ensures r == v.(alertMode := r.alertMode, gpsStatus := LiveStatus)
  {
    v.(alertMode := Bool(false), gpsStatus := LiveStatus)
  }

  /** A fix stored through `insertGPS` reaches an open page as the last
      broadcast event, which moves the marker there, stamps it with the
      insertion time, and raises or clears the alarm as the stored flag says. */
  lemma GpsEventShowsFix(v: View, db: Db, latitude: Option<real>, longitude: Option<real>, isAlert: Value, now: int)
    requires Gps.InsertGps(db, latitude, longitude, isAlert, now).status == 201
    ensures var events := Gps.InsertGps(db, latitude, longitude, isAlert, now).db.events;
      var r := OnEvent(v, events[|events| - 1]);
      && r.position == (latitude.value, longitude.value)
      && r.lastStamp == Some(now)
      && (Alarmed(r) <==> Truthy(Gps.AlertFlag(isAlert)))
      && r.history == v.history
  {
  }

  /** Acknowledging silences the alarm only until the next flagged fix is
      broadcast. */
  lemma AlarmAfterAcknowledge(v: View, db: Db, latitude: Option<real>, longitude: Option<real>, isAlert: Value, now: int)
    requires Gps.InsertGps(db, latitude, longitude, isAlert, now).status == 201
    requires Truthy(isAlert)
    ensures !Alarmed(Acknowledge(v))
    ensures var events := Gps.InsertGps(db, latitude, longitude, isAlert, now).db.events;
      Alarmed(OnEvent(Acknowledge(v), events[|events| - 1]))
  {
    GpsEventShowsFix(Acknowledge(v), db, latitude, longitude, isAlert, now);
  }

  /** Absent columns multiply as 0 (`null * 111320` is 0). */
  function Metres(degrees: Option<real>): real {
    degrees.GetOr(0.0) * MetresPerDegree
  }

  /** `fetchSettings` applied to the settings body. */
  function LoadSettings(v: View, zone: SafeZone): (r: View)
    ensures r.radiusMetres / MetresPerDegree == zone.radius.GetOr(0.0)
    ensures r.driftMetres / MetresPerDegree == zone.drift.GetOr(0.0)
    ensures r == v.(radiusMetres := r.radiusMetres, driftMetres := r.driftMetres)
  {
    v.(radiusMetres := Metres(zone.radius), driftMetres := Metres(zone.drift))
  }

  /** The body `saveSettings` posts. */
  function SaveBody(v: View): (zone: SafeZone)
    ensures zone.radius.Some? && zone.radius.value * MetresPerDegree == v.radiusMetres
    ensures zone.drift.Some? && zone.drift.value * MetresPerDegree == v.driftMetres
  {
    SafeZone(Some(v.radiusMetres / MetresPerDegree), Some(v.driftMetres / MetresPerDegree))
  }

  /** Over the reals, saving what was loaded posts the stored degrees back. */
  lemma SaveAfterLoad(v: View, radius: real, drift: real)
    ensures SaveBody(LoadSettings(v, SafeZone(Some(radius), Some(drift)))) == SafeZone(Some(radius), Some(drift))
  {
  }

  /** Saving and loading again shows the same metres when the table was
      empty or the save overwrote its first row; otherwise the page shows
      the first row again, whatever was saved. */
  lemma SettingsThroughServer(v: View, db: Db, clash: Option<nat>)
    ensures var posted := SaveBody(v);
      var db' := Gps.UpdateSafeZoneSettings(db, posted.radius, posted.drift, clash).db;
      var shown := LoadSettings(v, Gps.GetSafeZoneSettings(db').body.zone);
      && (db.zones == [] || clash == Some(0) ==> shown.radiusMetres == v.radiusMetres && shown.driftMetres == v.driftMetres)
      && (db.zones != [] && clash != Some(0) ==> shown == LoadSettings(v, db.zones[0]))
  {
    var posted := SaveBody(v);
    Gps.SettingsReadBack(db, posted.radius, posted.drift, clash);
  }

  /** The alert list after a run of alerts, newest first, capped at ten. */
  function Reverse<T>(s: seq<T>): (r: seq<T>)
    ensures |r| == |s|
  {
    if s == [] then [] else [s[|s| - 1]] + Reverse(s[..|s| - 1])
  }

  function AfterAlerts(v: View, items: seq<AlertItem>): (r: View)
  {
    if items == [] then v else OnAlert(AfterAlerts(v, items[..|items| - 1]), items[|items| - 1])
  }

  /** After any run of alerts the list holds the ten most recent entries,
      newest first, followed by the older list when fewer arrived. */
  lemma {:induction false} AlertListKeepsNewest(v: View, items: seq<AlertItem>)
    requires |v.history| <= 10
    ensures AfterAlerts(v, items).history == (Reverse(items) + v.history)[..Min(10, |items| + |v.history|)]
  {
    if items != [] {
      var p := items[..|items| - 1];
      var x := items[|items| - 1];
      AlertListKeepsNewest(v, p);
      var h := AfterAlerts(v, p).history;
      var all := Reverse(p) + v.history;
      assert Reverse(items) + v.history == [x] + all;
      assert AfterAlerts(v, items).history == [x] + h[..Min(9, |h|)];
      ConsKeepsTen(x, all, h);
    }
  }

  /** Putting one item in front of the ten newest and keeping ten is keeping
      ten of the longer list. */
  lemma ConsKeepsTen<T>(x: T, all: seq<T>, h: seq<T>)
    requires h == all[..Min(10, |all|)]
    ensures ([x] + all)[..Min(10, 1 + |all|)] == [x] + h[..Min(9, |h|)]
  {
    assert h[..Min(9, |h|)] == all[..Min(9, |all|)];
  }
}
