/** The Notifications page: polling the denial feed, announcing each denial
    once, deleting one, and the text of an announcement.  `format` stands for
    the browser's date rendering; toasts and sound are outputs. */
module Notifications {
  import opened Wrappers
  import opened Js
  import opened Store
  import Denials
  import Auth
  import Fingerprints

  /** One toast raised by a fetch; `sound` says whether the alert sound
      played with it. */
  datatype Toast = Toast(id: nat, message: string, sound: bool)

  datatype Feed = Feed(denials: seq<Entry>, seen: set<nat>, soundEnabled: bool)

  /** `phone: ` followed by a digit at the start of `s`. */
  predicate MarkerAt(s: string)
    requires |s| >= 8
  {
    s[0] == 'p' && s[1] == 'h' && s[2] == 'o' && s[3] == 'n' && s[4] == 'e' && s[5] == ':' && s[6] == ' '
    && IsDigit(s[7])
  }

  /** A match of `/phone: \d/` starts at index `i` of `s`. */
  predicate MatchAt(s: string, i: int) {
    0 <= i && i + 8 <= |s| && MarkerAt(s[i..])
  }

  /** No match anywhere in `s`. */
  predicate NoMatch(s: string) {
    forall i :: 0 <= i < |s| ==> !MatchAt(s, i)
  }

  /** The leftmost match of `s` starts at `i`. */
  predicate FirstMatch(s: string, i: int) {
    MatchAt(s, i) && forall j :: 0 <= j < i ==> !MatchAt(s, j)
  }

  lemma ShiftMatch(s: string)
    requires |s| >= 1
    ensures forall i :: 0 <= i ==> (MatchAt(s[1..], i) <==> MatchAt(s, i + 1))
  {
    forall i | 0 <= i && i + 9 <= |s|
      ensures s[1..][i..] == s[i + 1..]
    {
    }
  }

  /** The leftmost match of `/phone: (\d+)/`: the digits after the first
      "phone: " that is followed by a digit, taken greedily. */
  function PhoneIn(s: string): (r: Option<string>)
    ensures r.Some? ==> |r.value| > 0 && AllDigits(r.value)
  {
    if |s| < 8 then None
    else if MarkerAt(s) then Some(LeadingDigits(s[7..]))
    else PhoneIn(s[1..])
  }

  /** `PhoneIn` is the regular expression's leftmost match: None exactly when
      no "phone: " followed by a digit occurs, and otherwise the digits after
      the first such occurrence. */
  lemma {:induction false} PhoneInLeftmost(s: string)
    ensures PhoneIn(s).None? <==> NoMatch(s)
    ensures PhoneIn(s).Some? ==> exists i :: FirstMatch(s, i) && PhoneIn(s).value == LeadingDigits(s[i + 7..])
    decreases |s|
  {
    var r := PhoneIn(s);
    assert s[0..] == s;
    if |s| < 8 {
      assert NoMatch(s);
    } else if MarkerAt(s) {
      assert FirstMatch(s, 0) && s[0 + 7..] == s[7..];
    } else {
      PhoneInLeftmost(s[1..]);
      ShiftMatch(s);
      assert r == PhoneIn(s[1..]);
      if r.Some? {
        var i :| FirstMatch(s[1..], i) && r.value == LeadingDigits(s[1..][i + 7..]);
        assert s[1..][i + 7..] == s[i + 8..];
        assert MatchAt(s, i + 1);
        forall j | 0 <= j < i + 1 ensures !MatchAt(s, j) {
          if j > 0 {
            assert !MatchAt(s[1..], j - 1);
          }
        }
        assert FirstMatch(s, i + 1);
      } else {
        forall i | 0 <= i < |s| ensures !MatchAt(s, i) {
          if i > 0 {
            assert !MatchAt(s[1..], i - 1);
          }
        }
      }
    }
  }

  /** `getNotificationMessage`. */
  function Message(e: Entry, format: int -> string): (m: string)
    ensures e.via == "PHYSICAL" ==> m == "Fingerprint Denied at " + format(e.createdAt)
    ensures e.via != "PHYSICAL" ==>
      exists phone :: m == "Failed login attempt (" + phone + ") at " + format(e.createdAt)
        && phone == (if PhoneIn(e.action).Some? then PhoneIn(e.action).value else "unknown")
  {
    if e.via == "PHYSICAL" then "Fingerprint Denied at " + format(e.createdAt)
    else
      var phone := match PhoneIn(e.action) case Some(p) => p case None => "unknown";
      "Failed login attempt (" + phone + ") at " + format(e.createdAt)
  }

  /** The toast for a failed login names the phone the login wrote, up to
      its first non-digit, with the time of the attempt. */
  lemma LoginFailureMessage(db: Db, phone: string, reason: string, now: int, format: int -> string)
    requires |phone| > 0 && IsDigit(phone[0])
    ensures var e := Auth.LogFailedLogin(db, Some(phone), reason, now).log[|db.log|];
      Message(e, format) == "Failed login attempt (" + LeadingDigits(phone) + ") at " + format(now)
  {
    FailedLoginPhoneShown(phone, reason);
  }

  /** The toast for a denied scan names only its time. */
  lemma ScanDenialMessage(db: Db, fingerId: Value, now: int, format: int -> string)
    ensures var e := Fingerprints.RecordDenial(db, fingerId, now).log[|db.log|];
      Message(e, format) == "Fingerprint Denied at " + format(now)
  {
  }

  lemma {:induction false} LeadingDigitsStop(d: string, t: string)
    requires AllDigits(d)
    requires t == [] || !IsDigit(t[0])
    ensures LeadingDigits(d + t) == d
  {
    if d != [] {
      assert (d + t)[1..] == d[1..] + t;
      LeadingDigitsStop(d[1..], t);
    }
  }

  /** A prefix without a 'p' holds no match. */
  lemma {:induction false} PhoneInSkips(pre: string, rest: string)
    requires forall i :: 0 <= i < |pre| ==> pre[i] != 'p'
    ensures PhoneIn(pre + rest) == PhoneIn(rest)
  {
    if pre == [] {
      assert pre + rest == rest;
    } else {
      var s := pre + rest;
      assert s[1..] == pre[1..] + rest;
      assert forall i :: 0 <= i < |pre| - 1 ==> pre[1..][i] == pre[i + 1];
      PhoneInSkips(pre[1..], rest);
      assert s[0] == pre[0] && pre[0] != 'p';
      if |s| >= 8 {
        assert !MarkerAt(s);
        assert PhoneIn(s) == PhoneIn(s[1..]);
      } else {
        assert |rest| < 8;
      }
    }
  }

  /** A 'p' not followed by 'h' starts no match. */
  lemma PhoneInSkipsP(rest: string)
    requires |rest| > 0 && rest[0] != 'h'
    ensures PhoneIn("p" + rest) == PhoneIn(rest)
  {
    var s := "p" + rest;
    assert s[1..] == rest;
    assert s[1] == rest[0];
  }

  /** The digits at the front of `s` do not reach into a tail that starts
      with a non-digit. */
  lemma {:induction false} LeadingDigitsPrefix(s: string, t: string)
    requires t == [] || !IsDigit(t[0])
    ensures LeadingDigits(s + t) == LeadingDigits(s)
  {
    if s == [] {
      assert s + t == t;
    } else if IsDigit(s[0]) {
      assert (s + t)[1..] == s[1..] + t;
      LeadingDigitsPrefix(s[1..], t);
    }
  }

  /** The failed-login action up to the phone: "... for " + "phone: " + ... */
  lemma FailedActionSplits(p: string, reason: string)
    ensures PhoneIn(Auth.FailedAction(Some(p), reason)) == PhoneIn("phone: " + (p + (" (" + reason + ")")))
  {
    var rest := "phone: " + (p + (" (" + reason + ")"));
    var plain := "t for ";
    var head := "Failed login attem";
    assert Auth.FailedAction(Some(p), reason) == head + ("p" + (plain + rest));
    PhoneInSkips(head, "p" + (plain + rest));
    PhoneInSkipsP(plain + rest);
    PhoneInSkips(plain, rest);
  }

  /** The phone a failed login wrote into the log is what the page shows, up
      to its first non-digit, whenever it starts with a digit. */
  lemma FailedLoginPhoneShown(phone: string, reason: string)
    requires |phone| > 0 && IsDigit(phone[0])
    ensures PhoneIn(Auth.FailedAction(Some(phone), reason)) == Some(LeadingDigits(phone))
  {
    FailedActionSplits(phone, reason);
    MarkerStart(phone, " (" + reason + ")");
  }

  /** A match at the very front. */
  lemma MarkerFront(s: string)
    requires |s| >= 8 && MarkerAt(s)
    ensures PhoneIn(s) == Some(LeadingDigits(s[7..]))
  {
  }

  /** A match right at the front takes the digits up to the tail. */
  lemma MarkerStart(d: string, t: string)
    requires |d| > 0 && IsDigit(d[0]) && (t == [] || !IsDigit(t[0]))
    ensures PhoneIn("phone: " + (d + t)) == Some(LeadingDigits(d))
  {
    var dt := d + t;
    var rest := "phone: " + dt;
    assert rest[7..] == dt && dt[0] == d[0];
    assert rest[7] == d[0];
    assert MarkerAt(rest);
    MarkerFront(rest);
    LeadingDigitsPrefix(d, t);
  }

  /** A phone that does not start with a digit, such as "+254712345678" or an
      absent one ("undefined"), is shown as 'unknown' for each reason the
      login handler logs, provided it holds no 'p'. */
  lemma UnknownPhoneShown(phone: Option<string>, reason: string)
    requires reason in {"Missing credentials", "Invalid phone", "Invalid password"}
    requires var p := Auth.PhoneText(phone); (p == [] || !IsDigit(p[0])) && forall i :: 0 <= i < |p| ==> p[i] != 'p'
    ensures PhoneIn(Auth.FailedAction(phone, reason)) == None
  {
    var p := Auth.PhoneText(phone);
    assert Auth.FailedAction(phone, reason) == Auth.FailedAction(Some(p), reason);
    FailedActionSplits(p, reason);
    NoDigitAfterMarker(p, reason);
    ReasonHoldsNoMatch(reason);
  }

  /** A "phone: " not followed by a digit is passed over, and so is a phone
      without 'p'. */
  lemma NoDigitAfterMarker(p: string, reason: string)
    requires (p == [] || !IsDigit(p[0])) && forall i :: 0 <= i < |p| ==> p[i] != 'p'
    ensures PhoneIn("phone: " + (p + (" (" + reason + ")"))) == PhoneIn(reason + ")")
  {
    var tail := " (" + reason + ")";
    var pt := p + tail;
    assert pt[0] == if p == [] then ' ' else p[0];
    MarkerWithoutDigit(pt);
    PhoneInSkips("hone: ", pt);
    PhoneInSkips(p, tail);
    assert tail == " (" + (reason + ")");
    PhoneInSkips(" (", reason + ")");
  }

  /** A "phone: " followed by a non-digit is no match. */
  lemma MarkerWithoutDigit(t: string)
    requires |t| > 0 && !IsDigit(t[0])
    ensures PhoneIn("phone: " + t) == PhoneIn("hone: " + t)
  {
    MarkerShape(t);
    NoDigitStep("phone: " + t);
  }

  lemma MarkerShape(t: string)
    requires |t| > 0
    ensures |"phone: " + t| >= 8 && ("phone: " + t)[7] == t[0]
    ensures ("phone: " + t)[1..] == "hone: " + t
  {
  }

  /** No match starts where the eighth character is not a digit. */
  lemma NoDigitStep(s: string)
    requires |s| >= 8 && !IsDigit(s[7])
    ensures PhoneIn(s) == PhoneIn(s[1..])
  {
  }

  /** None of the reasons the login handler logs holds a match. */
  lemma ReasonHoldsNoMatch(reason: string)
    requires reason in {"Missing credentials", "Invalid phone", "Invalid password"}
    ensures PhoneIn(reason + ")") == None
  {
    var close := reason + ")";
    if reason == "Missing credentials" {
      PhoneInSkips(close, "");
      assert close + "" == close;
    } else if reason == "Invalid phone" {
      assert close == "Invalid " + "phone)";
      PhoneInSkips("Invalid ", "phone)");
    } else {
      assert close == "Invalid " + ("p" + "assword)");
      PhoneInSkips("Invalid ", "p" + "assword)");
      PhoneInSkipsP("assword)");
      PhoneInSkips("assword)", "");
      assert "assword)" + "" == "assword)";
    }
  }

  /** The ids of a list of denials. */
  function Ids(data: seq<Entry>): (r: set<nat>)
    ensures forall i :: 0 <= i < |data| ==> data[i].id in r
  {
    if data == [] then {} else {data[0].id} + Ids(data[1..])
  }

  /** Result of walking one fetched list. */
  datatype Announcement = Announcement(seen: set<nat>, toasts: seq<Toast>)

  /** The `forEach` over fetched denials: an unseen id gets a toast and joins
      the seen set. */
  function Announce(seen: set<nat>, data: seq<Entry>, sound: bool, format: int -> string): (r: Announcement)
    ensures r.seen == seen + Ids(data)
    ensures forall k :: 0 <= k < |r.toasts| ==> r.toasts[k].id !in seen && r.toasts[k].sound == sound
    ensures forall i, j :: 0 <= i < j < |r.toasts| ==> r.toasts[i].id != r.toasts[j].id
    ensures Ids(data) <= seen ==> r.toasts == []
    decreases |data|
  {
    if data == [] then Announcement(seen, [])
    else
      var e := data[0];
      var tail := data[1..];
      if e.id in seen then Announce(seen, tail, sound, format)
      else
        var rest := Announce(seen + {e.id}, tail, sound, format);
        Announcement(rest.seen, [Toast(e.id, Message(e, format), sound)] + rest.toasts)
  }

  lemma AnnounceStep(seen: set<nat>, data: seq<Entry>, sound: bool, format: int -> string)
    requires data != []
    ensures data[0].id in seen ==> Announce(seen, data, sound, format).toasts == Announce(seen, data[1..], sound, format).toasts
    ensures data[0].id !in seen ==>
      Announce(seen, data, sound, format).toasts == [Toast(data[0].id, Message(data[0], format), sound)] + Announce(seen + {data[0].id}, data[1..], sound, format).toasts
  {
  }

  /** Some toast announces `id`. */
  ghost predicate Shown(toasts: seq<Toast>, id: nat) {
    exists k :: 0 <= k < |toasts| && toasts[k].id == id
  }

  /** `t` announces one of the denials, in that denial's words. */
  ghost predicate Speaks(data: seq<Entry>, t: Toast, format: int -> string) {
    exists i :: 0 <= i < |data| && data[i].id == t.id && t.message == Message(data[i], format)
  }

  lemma SpeaksTail(data: seq<Entry>, t: Toast, format: int -> string)
    requires data != [] && Speaks(data[1..], t, format)
    ensures Speaks(data, t, format)
  {
    var i :| 0 <= i < |data[1..]| && data[1..][i].id == t.id && t.message == Message(data[1..][i], format);
    assert data[i + 1] == data[1..][i];
  }

  /** Every fetched denial not seen before gets a toast. */
  lemma {:induction false} AnnounceCovers(seen: set<nat>, data: seq<Entry>, sound: bool, format: int -> string)
    ensures forall i :: 0 <= i < |data| && data[i].id !in seen ==> Shown(Announce(seen, data, sound, format).toasts, data[i].id)
    decreases |data|
  {
    if data != [] {
      var e := data[0];
      var tail := data[1..];
      var r := Announce(seen, data, sound, format);
      AnnounceStep(seen, data, sound, format);
      if e.id in seen {
        AnnounceCovers(seen, tail, sound, format);
        forall i | 0 <= i < |data| && data[i].id !in seen ensures Shown(r.toasts, data[i].id) {
          assert i != 0 && data[i] == tail[i - 1];
        }
      } else {
        AnnounceCovers(seen + {e.id}, tail, sound, format);
        var rest := Announce(seen + {e.id}, tail, sound, format);
        assert r.toasts == [r.toasts[0]] + rest.toasts;
        forall i | 0 <= i < |data| && data[i].id !in seen ensures Shown(r.toasts, data[i].id) {
          if data[i].id == e.id {
            assert r.toasts[0].id == data[i].id;
          } else {
            assert i != 0 && data[i] == tail[i - 1];
            var k :| 0 <= k < |rest.toasts| && rest.toasts[k].id == tail[i - 1].id;
            assert r.toasts[k + 1].id == data[i].id;
          }
        }
      }
    }
  }

  /** Every toast speaks of a fetched denial, in that denial's words. */
  lemma {:induction false} AnnounceMessages(seen: set<nat>, data: seq<Entry>, sound: bool, format: int -> string)
    ensures forall k :: 0 <= k < |Announce(seen, data, sound, format).toasts| ==>
      Speaks(data, Announce(seen, data, sound, format).toasts[k], format)
    decreases |data|
  {
    if data == [] {
      assert Announce(seen, data, sound, format).toasts == [];
    } else {
      var e := data[0];
      var tail := data[1..];
      var r := Announce(seen, data, sound, format);
      AnnounceStep(seen, data, sound, format);
      if e.id in seen {
        AnnounceMessages(seen, tail, sound, format);
        forall k | 0 <= k < |r.toasts| ensures Speaks(data, r.toasts[k], format) {
          SpeaksTail(data, r.toasts[k], format);
        }
      } else {
        AnnounceMessages(seen + {e.id}, tail, sound, format);
        var rest := Announce(seen + {e.id}, tail, sound, format);
        forall k | 0 <= k < |r.toasts| ensures Speaks(data, r.toasts[k], format) {
          if k == 0 {
            assert data[0].id == r.toasts[0].id && r.toasts[0].message == Message(data[0], format);
          } else {
            assert r.toasts[k] == rest.toasts[k - 1];
            SpeaksTail(data, r.toasts[k], format);
          }
        }
      }
    }
  }

  /** `fetchDenials`; `reply` is None when the request failed.  A successful
      fetch replaces the list and remembers every id in it; it raises toasts
      only for ids not remembered before, one per id, each with the page's
      sound setting. */
  function FetchDenials(f: Feed, reply: Option<seq<Entry>>, format: int -> string): (r: (Feed, seq<Toast>))
    ensures reply.None? ==> r == (f, [])
    ensures reply.Some? ==>
      && r.0.denials == reply.value
      && r.0.soundEnabled == f.soundEnabled
      && r.0.seen == f.seen + Ids(reply.value)
      && (forall k :: 0 <= k < |r.1| ==> r.1[k].id !in f.seen && (r.1[k].sound <==> f.soundEnabled))
      && (forall i, j :: 0 <= i < j < |r.1| ==> r.1[i].id != r.1[j].id)
  {
    match reply
    case None => (f, [])
    case Some(data) =>
      var a := Announce(f.seen, data, f.soundEnabled, format);
      (Feed(data, a.seen, f.soundEnabled), a.toasts)
  }

  /** The toasts of a successful fetch are exactly the fetched denials not
      remembered before: each such denial has a toast, and each toast speaks
      of a fetched denial in that denial's words. */
  lemma FetchAnnounces(f: Feed, data: seq<Entry>, format: int -> string)
    ensures var toasts := FetchDenials(f, Some(data), format).1;
      && (forall i :: 0 <= i < |data| && data[i].id !in f.seen ==> Shown(toasts, data[i].id))
      && (forall k :: 0 <= k < |toasts| ==> Speaks(data, toasts[k], format))
  {
    var a := Announce(f.seen, data, f.soundEnabled, format);
    assert FetchDenials(f, Some(data), format).1 == a.toasts;
    AnnounceCovers(f.seen, data, f.soundEnabled, format);
    AnnounceMessages(f.seen, data, f.soundEnabled, format);
  }

  /** A fetch against the server's feed. */
  function FetchFrom(f: Feed, db: Db, format: int -> string): (r: (Feed, seq<Toast>))
    ensures r.0.denials == Denials.GetLatestDenials(db).body
    ensures forall e :: e in r.0.denials ==> Denials.IsDenied(e) && e.id in r.0.seen
  {
    FetchDenials(f, Some(Denials.GetLatestDenials(db).body), format)
  }

  /** Each id is announced at most once while remembered: fetching the same
      list again raises nothing. */
  lemma NoRepeatToasts(f: Feed, data: seq<Entry>, format: int -> string)
    ensures var f1 := FetchDenials(f, Some(data), format).0;
      FetchDenials(f1, Some(data), format).1 == []
  {
  }

  /** `handleDeleteDenial`; `ok` is whether the DELETE succeeded. */
  function DeleteDenial(f: Feed, id: nat, ok: bool): (r: Feed)
    ensures !ok ==> r == f
    ensures ok ==>
      && r.seen == f.seen - {id}
      && r.soundEnabled == f.soundEnabled
      && (forall e :: e in r.denials <==> e in f.denials && e.id != id)
  {
    if ok then Feed(Filter(f.denials, (e: Entry) => e.id != id), f.seen - {id}, f.soundEnabled)
    else f
  }

  /** A denial deleted on the server and on the page does not come back on
      the next fetch. */
  lemma DeletedStaysGone(f: Feed, db: Db, id: nat, format: int -> string)
    requires Denials.DeleteDenialById(db, IntText(id)).status == 200
    ensures var f1 := DeleteDenial(f, id, true);
      var db1 := Denials.DeleteDenialById(db, IntText(id)).db;
      forall e :: e in FetchFrom(f1, db1, format).0.denials ==> e.id != id
  {
    Denials.DeletePathOfId(db, id);
  }
}
