/**
 The file index of the temporary file board, as values: one record per uploaded
 file, the three time tests the application applies to a record (the sweeper's,
 the public listing's and the download handler's), and the read-only decisions
 built from them. The mutable board that owns this state is in module FileBoard.

 Time is an integer number of microseconds, the resolution of the
 application's `datetime.now()` readings. The application stores upload times as
 ISO-8601 strings and compares them as strings; the model assumes that string
 order equals time order (true for `datetime.isoformat()` output of one
 timezone-naive clock with four-digit years).
 */
module FileLifecycle {

  /** A record's primary key; the uploaded bytes are stored under the same key. */
  type Id = string

  /** Time is counted in microseconds. */
  const Second: int := 1000000
  const Minute: int := 60 * Second
  /** Records the sweeper deletes are older than this (app.py:63). */
  const SweepWindow: int := 15 * Minute
  /** Records the listing and the download handler refuse are older than this (app.py:117, app.py:173). */
  const ListWindow: int := 10 * Minute
  /** The free-space guard measures in binary gigabytes (app.py:141). */
  const GiB: int := 1024 * 1024 * 1024
  /** Used when MIN_FREE_SPACE_GB is not set in the environment (app.py:139). */
  const DefaultMinFreeGb: int := 2

  /** One row of the index table. `isPermanent` is the integer column: the code writes 0 or 1. */
  datatype Record = Record(filename: string, uploadTime: int, isPermanent: int)

  /** The notifications pushed to connected browsers. */
  datatype Event =
    | NewFile(id: Id, filename: string, uploadTime: int)
    | FileDeleted(id: Id)

  /** What the download handler answers; each refusal is a distinct flash message. */
  datatype DownloadOutcome =
    | NoRecord                 // "File not found or expired"
    | HasExpired               // "File has expired"
    | BlobMissing              // "File not found" (row present, bytes absent)
    | Send(filename: string)   // the stored bytes, offered under the stored name

  /** The record a successful upload inserts. */
  function NewRecord(filename: string, now: int): (r: Record)
  {
    Record(filename, now, 0)
  }

  /** A flag the code itself can produce. */
  predicate FlagValid(r: Record)
  {
    r.isPermanent == 0 || r.isPermanent == 1
  }

  /** The store/index invariant: every row has its bytes, and every flag is 0 or 1. */
  predicate Consistent(records: map<Id, Record>, blobs: set<Id>)
  {
    records.Keys <= blobs && forall id :: id in records ==> FlagValid(records[id])
  }

  // ---------------------------------------------------------------------------
  // The three time tests

  /** The sweeper's query: `is_permanent == 0` and `upload_time < now - 15 min`. */
  predicate SweepSelects(r: Record, now: int)
  {
    r.isPermanent == 0 && r.uploadTime < now - SweepWindow
  }

  /** The listing's query: `is_permanent == 1` or `upload_time > now - 10 min`. */
  predicate Listed(r: Record, now: int)
  {
    r.isPermanent == 1 || r.uploadTime > now - ListWindow
  }

  /** The download handler's refusal: `not is_permanent` and `upload_time < now - 10 min`. */
  predicate DownloadExpired(r: Record, now: int)
  {
    r.isPermanent == 0 && r.uploadTime < now - ListWindow
  }

  // ---------------------------------------------------------------------------
  // The sweep

  /** The ids one sweep at `now` selects. */
  function Swept(records: map<Id, Record>, now: int): (ids: set<Id>)
    ensures ids <= records.Keys
    ensures forall id :: id in records ==> (id in ids <==> SweepSelects(records[id], now))
  {
    set id | id in records && SweepSelects(records[id], now)
  }

  /** The index after a sweep at `now`. */
  function Survivors(records: map<Id, Record>, now: int): (m: map<Id, Record>)
    // exactly the selected ids are removed
    ensures m.Keys == records.Keys - Swept(records, now)
    // what remains was not selected, judged by its row before the sweep
    ensures forall id :: id in m ==> id in records && !SweepSelects(records[id], now)
    // every record the sweep does not select is kept, unchanged
    ensures forall id :: id in records && !SweepSelects(records[id], now) ==> id in m && m[id] == records[id]
    // nothing is added
    ensures m.Keys <= records.Keys
  {
    records - Swept(records, now)
  }

  /** The `file_deleted` notifications for ids deleted in the given order. */
  function DeletedEvents(ids: seq<Id>): (es: seq<Event>)
    ensures |es| == |ids|
    ensures forall i :: 0 <= i < |ids| ==> es[i] == FileDeleted(ids[i])
  {
    if ids == [] then [] else [FileDeleted(ids[0])] + DeletedEvents(ids[1..])
  }

  /** No id occurs twice. */
  predicate Distinct(ids: seq<Id>)
  {
    forall i, j :: 0 <= i < j < |ids| ==> ids[i] != ids[j]
  }

  /** In the notifications for distinct ids, each deleted id is announced exactly once and no other id is. */
  lemma {:induction false} DeletedEventsOnce(ids: seq<Id>, id: Id)
    requires Distinct(ids)
    ensures multiset(DeletedEvents(ids))[FileDeleted(id)] == if id in ids then 1 else 0
  {
    if ids != [] {
      assert Distinct(ids[1..]) by {
        forall i, j | 0 <= i < j < |ids[1..]| ensures ids[1..][i] != ids[1..][j] {
          assert ids[1..][i] == ids[i + 1] && ids[1..][j] == ids[j + 1];
        }
      }
      DeletedEventsOnce(ids[1..], id);
      assert DeletedEvents(ids) == [FileDeleted(ids[0])] + DeletedEvents(ids[1..]);
      assert ids == [ids[0]] + ids[1..];
      if ids[0] == id {
        assert id !in ids[1..] by {
          forall k | 0 <= k < |ids[1..]| ensures ids[1..][k] != id {
            assert ids[1..][k] == ids[k + 1];
          }
        }
      }
    }
  }

  /** Sweeping twice at the same instant removes nothing more. */
  lemma SweepIdempotent(records: map<Id, Record>, now: int)
    ensures Survivors(Survivors(records, now), now) == Survivors(records, now)
  {
  }

  /** A later sweep keeps no more than an earlier one. */
  lemma SweepMonotone(records: map<Id, Record>, earlier: int, later: int)
    requires earlier <= later
    ensures Survivors(records, later).Keys <= Survivors(records, earlier).Keys
  {
  }

  // ---------------------------------------------------------------------------
  // The public listing

  /** The records the index page shows at `now`. */
  function Listing(records: map<Id, Record>, now: int): (m: map<Id, Record>)
    ensures forall id :: id in m <==> id in records && Listed(records[id], now)
    ensures forall id :: id in m ==> m[id] == records[id]
  {
    map id | id in records && Listed(records[id], now) :: records[id]
  }

  /** A listed record that is not permanent leaves the listing 10 minutes after its upload. */
  lemma ListingBounded(records: map<Id, Record>, id: Id, now: int)
    requires id in Listing(records, now) && records[id].isPermanent != 1
    ensures now < records[id].uploadTime + ListWindow
  {
  }

  // ---------------------------------------------------------------------------
  // The download decision

  /** What `GET /download/<id>` answers at `now`; it reads the state and changes nothing. */
  function Download(records: map<Id, Record>, blobs: set<Id>, id: Id, now: int): (o: DownloadOutcome)
    ensures o == NoRecord <==> id !in records
    ensures o == HasExpired <==> id in records && DownloadExpired(records[id], now)
    ensures o == BlobMissing <==> id in records && !DownloadExpired(records[id], now) && id !in blobs
    ensures o.Send? <==> id in records && !DownloadExpired(records[id], now) && id in blobs
    ensures o.Send? ==> o.filename == records[id].filename
  {
    if id !in records then NoRecord
    else if DownloadExpired(records[id], now) then HasExpired
    else if id !in blobs then BlobMissing
    else Send(records[id].filename)
  }

  /** With the store/index invariant, a download never meets a row without bytes. */
  lemma ConsistentNeverMissing(records: map<Id, Record>, blobs: set<Id>, id: Id, now: int)
    requires Consistent(records, blobs)
    ensures Download(records, blobs, id, now) != BlobMissing
  {
  }

  /** Every listed record of a consistent index can be downloaded under its stored name. */
  lemma ListedIsDownloadable(records: map<Id, Record>, blobs: set<Id>, id: Id, now: int)
    requires Consistent(records, blobs)
    requires id in Listing(records, now)
    ensures Download(records, blobs, id, now) == Send(records[id].filename)
  {
  }

  /**
   The two tests disagree only at the cutoff instant: a non-permanent record
   uploaded exactly 10 minutes ago is refused by the listing (strict `>`) and
   served by the download handler (strict `<`).
   */
  lemma CutoffServedButNotListed(records: map<Id, Record>, blobs: set<Id>, id: Id, now: int)
    requires id in records && id in blobs
    requires records[id].isPermanent == 0 && records[id].uploadTime == now - ListWindow
    ensures id !in Listing(records, now)
    ensures Download(records, blobs, id, now) == Send(records[id].filename)
  {
  }

  /**
   A non-permanent record between 10 and 15 minutes old is hidden and refused
   on download, yet the sweep keeps it stored.
   */
  lemma HiddenButStored(records: map<Id, Record>, blobs: set<Id>, id: Id, now: int)
    requires id in records && id in blobs
    requires records[id].isPermanent == 0
    requires now - SweepWindow <= records[id].uploadTime < now - ListWindow
    ensures id !in Listing(records, now)
    ensures Download(records, blobs, id, now) == HasExpired
    ensures id in Survivors(records, now)
  {
  }

  // ---------------------------------------------------------------------------
  // Upload, promotion and deletion, as their effect on one record

  /**
   Round trip of an upload at time `t` followed by a download at `now`: the
   stored name comes back exactly when the download is at most 10 minutes
   later, and the record is listed exactly when it is strictly less.
   */
  lemma UploadRoundTrip(records: map<Id, Record>, blobs: set<Id>, id: Id, filename: string, t: int, now: int)
    ensures Download(records[id := NewRecord(filename, t)], blobs + {id}, id, now) ==
              if now <= t + ListWindow then Send(filename) else HasExpired
    ensures id in Listing(records[id := NewRecord(filename, t)], now) <==> now < t + ListWindow
  {
  }

  /** `make_permanent` on the index: only that record's flag changes, to 1. */
  function Promote(records: map<Id, Record>, id: Id): (m: map<Id, Record>)
    ensures m.Keys == records.Keys
    ensures id in records ==> m[id] == Record(records[id].filename, records[id].uploadTime, 1)
    ensures forall other :: other in records && other != id ==> m[other] == records[other]
  {
    if id in records then records[id := records[id].(isPermanent := 1)] else records
  }

  /** Promoting twice is promoting once. */
  lemma PromoteIdempotent(records: map<Id, Record>, id: Id)
    ensures Promote(Promote(records, id), id) == Promote(records, id)
  {
  }

  /** A promoted record survives every later sweep and stays listed and downloadable. */
  lemma PromotedIsKept(records: map<Id, Record>, blobs: set<Id>, id: Id, now: int)
    requires id in records && id in blobs
    ensures id in Survivors(Promote(records, id), now)
    ensures id in Listing(Promote(records, id), now)
    ensures Download(Promote(records, id), blobs, id, now) == Send(records[id].filename)
  {
  }

  /** After a sweep, the download of a swept record finds no row. */
  lemma SweptIsGone(records: map<Id, Record>, blobs: set<Id>, id: Id, now: int, later: int)
    requires id in records && SweepSelects(records[id], now)
    ensures Download(Survivors(records, now), blobs - Swept(records, now), id, later) == NoRecord
  {
  }

  /** The sweep and an admin delete keep the store/index invariant. */
  lemma RemovalKeepsConsistent(records: map<Id, Record>, blobs: set<Id>, gone: set<Id>)
    requires Consistent(records, blobs)
    ensures Consistent(records - gone, blobs - gone)
  {
  }
}
