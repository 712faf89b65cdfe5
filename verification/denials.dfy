/** `getLatestDenials` and `deleteDenialById` over the access log. */
module Denials {
  import opened Wrappers
  import opened Store
  import Js
  import Text
  import Newest

  /** `status = 'denied'` under the column's case-insensitive collation. */
  predicate IsDenied(e: Entry) {
    e.status.Some? && Text.CiEqual(e.status.value, "denied")
  }

  /** The feed: the at most 20 newest denied entries, newest first. */
  function GetLatestDenials(db: Db): (r: Reply<seq<Entry>>)
    ensures r.status == 200 && r.db == db
    ensures forall e :: e in r.body ==> e in db.log && IsDenied(e)
    ensures Newest.NewestSelection(r.body, Filter(db.log, IsDenied), 20)
  {
    Reply(200, Newest.Latest(Filter(db.log, IsDenied), 20), db)
  }

  /** The status the handlers write, and a device's capitalised spelling of
      it, both select an entry for the feed; another word does not. */
  lemma DeniedSpellings(e: Entry)
    ensures e.status == Some("denied") ==> IsDenied(e)
    ensures e.status == Some("Denied") ==> IsDenied(e)
    ensures e.status == Some("granted") ==> !IsDenied(e)
  {
  }

  datatype DeleteBody = Deleted | NotFound

  /** `DELETE FROM access_logs WHERE id = ?` with the path text bound as a
      string, whatever the entry's status: MySQL in a non-strict `sql_mode`
      reads the text as a number, and success comes exactly when that number
      is some entry's id; otherwise 404 and the log is unchanged. */
  function DeleteDenialById(db: Db, id: string): (r: Reply<DeleteBody>)
    ensures r.db == db.(log := r.db.log)
    ensures r.status == 200 <==>
      Js.SqlText(id).Some? && exists i :: 0 <= i < |db.log| && db.log[i].id == Js.SqlText(id).value
    ensures r.status == 200 ==>
      && r.body == Deleted && |r.db.log| < |db.log|
      && r.db.log == Filter(db.log, (e: Entry) => e.id != Js.SqlText(id).value)
    ensures r.status != 200 ==> r.status == 404 && r.body == NotFound && r.db == db
  {
    match Js.SqlText(id)
    case None => Reply(404, NotFound, db)
    case Some(k) =>
      var kept := Filter(db.log, (e: Entry) => e.id != k);
      if |kept| < |db.log| then
        assert exists i :: 0 <= i < |db.log| && db.log[i].id == k by {
          if forall i :: 0 <= i < |db.log| ==> db.log[i].id != k {
            FilterKeepsAll(db.log, (e: Entry) => e.id != k);
          }
        }
        Reply(200, Deleted, db.(log := kept))
      else
        KeptAll(db.log, k);
        Reply(404, NotFound, db)
  }

  /** When nothing matched the id, the filtered log is the log itself. */
  lemma KeptAll(log: seq<Entry>, id: int)
    requires |Filter(log, (e: Entry) => e.id != id)| >= |log|
    ensures Filter(log, (e: Entry) => e.id != id) == log
    ensures forall i :: 0 <= i < |log| ==> log[i].id != id
  {
    var keep := (e: Entry) => e.id != id;
    forall i | 0 <= i < |log| ensures log[i].id != id {
      if log[i].id == id {
        FilterDropsRejected(log, keep, i);
      }
    }
    FilterKeepsAll(log, keep);
  }

  /** Deletion keeps every other entry, in order, and the id discipline. */
  lemma DeleteKeepsOthers(db: Db, id: string)
    requires Wf(db)
    ensures var r := DeleteDenialById(db, id);
      && Wf(r.db)
      && (forall e :: e in db.log && Js.SqlText(id) != Some(e.id) ==> e in r.db.log)
      && (forall e :: e in r.db.log ==> Js.SqlText(id) != Some(e.id))
  {
    var r := DeleteDenialById(db, id);
    if r.status == 200 {
      FilterKeepsOrder(db.log, db.nextLog, Js.SqlText(id).value);
    } else if Js.SqlText(id).Some? {
      assert forall i :: 0 <= i < |db.log| ==> db.log[i].id != Js.SqlText(id).value;
    }
  }

  lemma FilterKeepsOrder(log: seq<Entry>, next: nat, id: int)
    requires LogIdsOrdered(log, next)
    ensures LogIdsOrdered(Filter(log, (e: Entry) => e.id != id), next)
  {
    FilterKeepsPairwise(log, (e: Entry) => e.id != id, (a: Entry, b: Entry) => a.id < b.id);
    var r := Filter(log, (e: Entry) => e.id != id);
    assert forall i :: 0 <= i < |r| ==> r[i] in log;
  }

  /** The page's `DELETE /denials/${id}` reaches the entry with that id. */
  lemma DeletePathOfId(db: Db, id: nat)
    ensures Js.SqlText(Js.IntText(id)) == Some(id)
    ensures DeleteDenialById(db, Js.IntText(id)).status == 200 <==> exists i :: 0 <= i < |db.log| && db.log[i].id == id
  {
    Js.SqlReadsIntText(id);
  }

  /** In a non-strict `sql_mode`, trailing text after the digits is ignored:
      "7abc" deletes entry 7. */
  lemma DeleteIgnoresTrailingText(db: Db)
    ensures DeleteDenialById(db, "7abc") == DeleteDenialById(db, "7")
  {
    Js.SqlReadsTrailing();
    Js.SqlReadsDigits(7);
    assert Js.Digits(7) == "7";
  }

  /** A path with a non-zero fraction, such as "1.5", deletes nothing. */
  lemma DeleteRefusesFraction(db: Db, n: nat, f: string)
    requires Js.AllDigits(f) && !Js.AllZeros(f)
    ensures DeleteDenialById(db, Js.Digits(n) + "." + f) == Reply(404, NotFound, db)
  {
    Js.SqlReadsFraction(n, f);
  }
}
