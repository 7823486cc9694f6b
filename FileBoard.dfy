/**
 The board's mutable state and the handlers that change it: the index (a map
 from id to record), the store (the ids whose bytes exist), and the log of
 notifications pushed to browsers. Each method is one request or one sweep,
 run to completion; the clock, the free-space reading, the fresh id and the
 success of each filesystem or database write are passed in.
 */
module FileBoard {
  import opened FileLifecycle

  /** What the upload handler reports. */
  datatype UploadOutcome =
    | InvalidForm        // the form did not validate
    | NoFileSelected     // the form carried no file
    | StorageLow         // free space below the configured minimum
    | Uploaded(id: Id)   // bytes stored, row committed, `new_file` sent
    | UploadError        // saving the bytes or committing the row raised

  /** What the admin manage handler reports. */
  datatype ManageOutcome =
    | Deleted           // bytes removed, row deleted and committed, `file_deleted` sent
    | MarkedPermanent   // flag set to 1 and committed
    | NoAction          // unknown id or unknown action
    | ManageError       // the commit raised

  /** Whether the free-space guard lets an upload through. */
  predicate HasRoom(free: int, minFreeGb: int)
  {
    free >= minFreeGb * GiB
  }

  class Board {
    var records: map<Id, Record>
    var blobs: set<Id>
    var events: seq<Event>

    /**
     The store/index invariant. The sweep, an upload and a successful admin
     action keep it; a failed admin delete commit breaks it for that one row.
     */
    predicate Valid()
      reads this
    {
      Consistent(records, blobs)
    }

    constructor ()
      ensures Valid()
      ensures records == map[] && blobs == {} && events == []
    {
      records, blobs, events := map[], {}, [];
    }

    /**
     The periodic sweep: select the non-permanent rows older than 15 minutes,
     then for each, in the order the query returned them, remove its bytes if
     present, delete the row, and announce `file_deleted`. `removed` is that order.
     */
    method Sweep(now: int) returns (removed: seq<Id>)
      modifies this
      ensures records == Survivors(old(records), now)
      ensures blobs == old(blobs) - Swept(old(records), now)
      ensures events == old(events) + DeletedEvents(removed)
      ensures Distinct(removed)
      ensures forall id :: id in removed <==> id in Swept(old(records), now)
      ensures old(Valid()) ==> Valid()
    {
      var selected := Swept(records, now);
      ghost var records0, blobs0, events0 := records, blobs, events;
      var todo := selected;
      ghost var done: set<Id> := {};
      removed := [];
      while todo != {}
        invariant todo !! done && todo + done == selected
        invariant Distinct(removed)
        invariant forall id :: id in removed <==> id in done
        invariant records == records0 - done
        invariant blobs == blobs0 - done
        invariant events == events0 + DeletedEvents(removed)
        decreases todo
      {
        var id :| id in todo;
        if id in blobs {
          blobs := blobs - {id};
        }
        records := records - {id};
        events := events + [FileDeleted(id)];
        removed := removed + [id];
        todo := todo - {id};
        done := done + {id};
      }
      if Consistent(records0, blobs0) {
        RemovalKeepsConsistent(records0, blobs0, selected);
      }
    }

    /**
     The upload handler. `filename` is the already-sanitised name, `id` the
     fresh identifier, `free` the free bytes on the upload volume, `minFreeGb`
     the configured minimum, and `saveOk`/`commitOk` whether writing the bytes
     and committing the row succeed.
     */
    method Upload(formValid: bool, hasFile: bool, free: int, minFreeGb: int,
                  id: Id, filename: string, saveOk: bool, commitOk: bool, now: int)
      returns (outcome: UploadOutcome)
      requires id !in records && id !in blobs
      modifies this
      ensures !formValid ==> outcome == InvalidForm
      ensures formValid && !hasFile ==> outcome == NoFileSelected
      ensures formValid && hasFile && !HasRoom(free, minFreeGb) ==> outcome == StorageLow
      ensures outcome.Uploaded? <==> formValid && hasFile && HasRoom(free, minFreeGb) && saveOk && commitOk
      ensures outcome.Uploaded? ==> outcome.id == id
      ensures outcome == UploadError <==> formValid && hasFile && HasRoom(free, minFreeGb) && !(saveOk && commitOk)
      // the bytes are written whenever the save succeeds, even if the commit then fails
      ensures blobs == if formValid && hasFile && HasRoom(free, minFreeGb) && saveOk
                       then old(blobs) + {id} else old(blobs)
      ensures records == if outcome.Uploaded? then old(records)[id := NewRecord(filename, now)]
                         else old(records)
      ensures events == if outcome.Uploaded? then old(events) + [NewFile(id, filename, now)]
                        else old(events)
      ensures old(Valid()) ==> Valid()
    {
      if !formValid {
        return InvalidForm;
      }
      if !hasFile {
        return NoFileSelected;
      }
      if free < minFreeGb * GiB {
        return StorageLow;
      }
      if !saveOk {
        return UploadError;
      }
      blobs := blobs + {id};
      if !commitOk {
        return UploadError;
      }
      records := records[id := NewRecord(filename, now)];
      events := events + [NewFile(id, filename, now)];
      outcome := Uploaded(id);
    }

    /**
     The admin manage handler, already authorised: `delete` removes the bytes
     (if present), then deletes the row, commits and announces `file_deleted`;
     `make_permanent` sets the row's flag to 1 and commits. An unknown id or
     action changes nothing. `commitOk` says whether the commit succeeds; when
     it raises, the request ends in an error and the row is as before, but a
     delete has already removed the bytes.
     */
    method Manage(fileId: Id, action: string, commitOk: bool) returns (outcome: ManageOutcome)
      modifies this
      ensures outcome == (if fileId !in old(records) then NoAction
                          else if action != "delete" && action != "make_permanent" then NoAction
                          else if !commitOk then ManageError
                          else if action == "delete" then Deleted
                          else MarkedPermanent)
      ensures outcome == Deleted ==>
                records == old(records) - {fileId} && blobs == old(blobs) - {fileId} &&
                events == old(events) + [FileDeleted(fileId)]
      ensures outcome == MarkedPermanent ==>
                records == Promote(old(records), fileId) && blobs == old(blobs) && events == old(events)
      // a failed delete commit has already removed the bytes; a failed promotion changes nothing
      ensures outcome == ManageError ==>
                records == old(records) && events == old(events) &&
                blobs == (if action == "delete" then old(blobs) - {fileId} else old(blobs))
      ensures outcome == NoAction ==>
                records == old(records) && blobs == old(blobs) && events == old(events)
      ensures old(Valid()) && outcome != ManageError ==> Valid()
      // whatever happens, at most this one row loses its bytes
      ensures records.Keys - blobs <= (old(records).Keys - old(blobs)) + {fileId}
    {
      outcome := NoAction;
      if fileId in records {
        if action == "delete" {
          if fileId in blobs {
            blobs := blobs - {fileId};
          }
          if !commitOk {
            return ManageError;
          }
          records := records - {fileId};
          events := events + [FileDeleted(fileId)];
          outcome := Deleted;
        } else if action == "make_permanent" {
          if !commitOk {
            return ManageError;
          }
          records := records[fileId := records[fileId].(isPermanent := 1)];
          outcome := MarkedPermanent;
        }
      }
    }
  }

  /**
   Upload, then promote, then wait past both windows: the file is still listed,
   still served under its name, and a sweep keeps it.
   */
  method PromotedOutlivesWindows(id: Id, filename: string, t: int, later: int)
    requires later > t + SweepWindow
  {
    var b := new Board();
    var up := b.Upload(true, true, DefaultMinFreeGb * GiB, DefaultMinFreeGb, id, filename, true, true, t);
    assert up == Uploaded(id);
    var m := b.Manage(id, "make_permanent", true);
    assert m == MarkedPermanent;
    var removed := b.Sweep(later);
    assert b.records[id] == Record(filename, t, 1);
    assert id in Listing(b.records, later);
    assert Download(b.records, b.blobs, id, later) == Send(filename);
  }

  /**
   Upload, then wait past 15 minutes: the download is refused, the sweep
   removes row and bytes, and `file_deleted` is announced once for the id.
   */
  method ExpiredIsSwept(id: Id, filename: string, t: int, later: int)
    requires later > t + SweepWindow
  {
    var b := new Board();
    var up := b.Upload(true, true, DefaultMinFreeGb * GiB, DefaultMinFreeGb, id, filename, true, true, t);
    assert b.records == map[id := NewRecord(filename, t)] && b.blobs == {id};
    assert b.events == [NewFile(id, filename, t)];
    assert Download(b.records, b.blobs, id, later) == HasExpired;
    assert id in Swept(b.records, later);
    var removed := b.Sweep(later);
    assert id !in b.records && id !in b.blobs;
    assert id in removed;
    DeletedEventsOnce(removed, id);
    var announced := DeletedEvents(removed);
    assert b.events == [NewFile(id, filename, t)] + announced;
    assert multiset(b.events) == multiset{NewFile(id, filename, t)} + multiset(announced);
    assert multiset(b.events)[FileDeleted(id)] == 1;
  }

  /**
   Upload, then an admin delete within the window: the row and bytes are gone,
   the id is no longer listed, its download finds no row, and a later sweep
   selects nothing for it.
   */
  method DeletedMidWindow(id: Id, filename: string, t: int, later: int)
    requires t <= later
  {
    var b := new Board();
    var up := b.Upload(true, true, DefaultMinFreeGb * GiB, DefaultMinFreeGb, id, filename, true, true, t);
    assert up == Uploaded(id);
    var m := b.Manage(id, "delete", true);
    assert m == Deleted;
    assert id !in b.records && id !in b.blobs;
    assert b.events == [NewFile(id, filename, t), FileDeleted(id)];
    assert id !in Listing(b.records, later);
    assert Download(b.records, b.blobs, id, later) == NoRecord;
    assert Swept(b.records, later) == {};
  }

  /**
   Upload, then an admin delete whose commit fails: the bytes are gone but the
   row stays, so within the window a download finds the row without bytes.
   */
  method FailedDeleteLeavesRow(id: Id, filename: string, t: int, later: int)
    requires t <= later <= t + ListWindow
  {
    var b := new Board();
    var up := b.Upload(true, true, DefaultMinFreeGb * GiB, DefaultMinFreeGb, id, filename, true, true, t);
    assert up == Uploaded(id);
    var m := b.Manage(id, "delete", false);
    assert m == ManageError;
    assert id in b.records && id !in b.blobs;
    assert !b.Valid();
    assert Download(b.records, b.blobs, id, later) == BlobMissing;
  }

  /** An upload refused for lack of space writes neither bytes nor row. */
  method LowSpaceWritesNothing(id: Id, filename: string, free: int, t: int)
    requires free < DefaultMinFreeGb * GiB
  {
    var b := new Board();
    var up := b.Upload(true, true, free, DefaultMinFreeGb, id, filename, true, true, t);
    assert up == StorageLow;
    assert b.records == map[] && b.blobs == {};
  }
}
