# Temporary file board: file lifecycle model

This project models the file lifecycle of a small temporary file-sharing web
service (`app.py`). Users upload files, and the public board lists them for a
short time. Anyone can download a listed file. A background sweeper purges
files that have expired. An administrator can delete any file, or mark one
permanent so that it never expires.

The state is three things:

- the **index**: a map from id to a record (`filename`, `upload_time`,
  `is_permanent`);
- the **store**: the set of ids whose bytes exist in the upload folder;
- the **notification log**: the `new_file` and `file_deleted` events pushed to
  browsers.

`FileLifecycle.dfy` holds the values: the record, the three time tests, and the
read-only decisions built on them. Those decisions are the sweep's selection,
the public listing and the download answer. The file also holds the lemmas
that relate them. `FileBoard.dfy` holds the class `Board`, which owns the
state. Its methods are the sweep (a loop over the selected rows), the upload
handler and the admin manage handler. A few client methods at the end run the
handlers one after another, as a user would.

Time is an integer number of microseconds (the resolution of the clock readings
the code takes), passed in as `now`. The code applies two
windows, and the model keeps them as two constants:

- the sweeper deletes non-permanent rows older than 15 minutes (`SweepWindow`);
- the listing and the download handler refuse non-permanent rows older than
  10 minutes (`ListWindow`).

The boundaries also differ. The listing keeps a row whose upload time is
strictly after the cutoff. The download handler refuses a row whose upload
time is strictly before it. So a row uploaded exactly 10 minutes ago is served
but not listed (`CutoffServedButNotListed`). A row between 10 and 15 minutes
old is hidden and refused, but still stored (`HiddenButStored`).

`is_permanent` is an integer column, and the three readers test it
differently. The sweeper tests `== 0`, the listing tests `== 1`, and the
download handler tests truthiness. The model keeps all three tests.
`Consistent` is the store/index invariant. It requires every row's bytes to be
in the store and every flag to be 0 or 1, which is all the code ever writes.
Under it, the three tests agree.

Four behaviours a reader might expect of such a service are not what the
code does, and the model follows the code:

- There is no single expiry window. The sweeper uses 15 minutes; the listing
  and the download handler use 10.
- The sweep loop neither catches per-record failures nor re-checks a row's
  permanence before deleting it; it deletes every row its query returned.
  Within the model's sequential runs a re-check would see the same row.
- An empty sanitised filename is not rejected; the upload handler stores
  whatever name the sanitiser returns.
- Deletion removes the bytes before the row. That is the opposite of the
  order that keeps any orphan on the "bytes without a row" side: an admin
  delete whose commit fails leaves a row without bytes, which then downloads
  as "File not found" (`FailedDeleteLeavesRow`). Upload writes bytes first,
  so its failures only ever leave bytes without a row.

## Model

| member | source | states |
|---|---|---|
| FileLifecycle.Swept | app.py:63-64 | A sweep selects exactly the rows with flag 0 whose upload time is strictly before now − 15 min. |
| FileLifecycle.Survivors | app.py:61-71 | After a sweep, the remaining ids are exactly the old ids minus the selected ones; every remaining row was not selected, judged by its row before the sweep, and is kept unchanged. |
| FileLifecycle.DeletedEvents | app.py:71 | The sweep's notifications are one `file_deleted{id}` per deleted id, in deletion order. |
| FileLifecycle.DeletedEventsOnce | app.py:65-71 | When ids are distinct, each deleted id is announced exactly once and no other id is announced. |
| FileLifecycle.SweepIdempotent | app.py:61-71 | A second sweep at the same instant removes nothing more. |
| FileLifecycle.SweepMonotone | app.py:63-64 | A later sweep keeps a subset of what an earlier sweep keeps. |
| FileLifecycle.Listing | app.py:117-118 | The listing holds exactly the rows with flag 1 or with upload time strictly after now − 10 min, with their stored values. |
| FileLifecycle.ListingBounded | app.py:117-118 | A listed non-permanent row was uploaded less than 10 minutes before now. |
| FileLifecycle.Download | app.py:165-186 | The download answer, checked in order: no row gives NoRecord; flag 0 and upload time strictly before now − 10 min gives HasExpired; missing bytes give BlobMissing; otherwise Send with the stored filename. The answer is a function of the state and changes nothing. |
| FileLifecycle.ConsistentNeverMissing | app.py:178-183 | Under the store/index invariant, a download never finds a row without bytes. |
| FileLifecycle.ListedIsDownloadable | app.py:117-186 | Under the invariant, every listed row downloads under its stored name. |
| FileLifecycle.CutoffServedButNotListed | app.py:117-173 | A non-permanent row with its bytes, uploaded exactly 10 minutes ago, is not in the listing, yet its download sends the stored filename. |
| FileLifecycle.HiddenButStored | app.py:63-173 | A non-permanent row between 10 and 15 minutes old is unlisted, refused as expired, and kept by the sweep. |
| FileLifecycle.UploadRoundTrip | app.py:150-186 | A file uploaded at t downloads under its stored name exactly when now ≤ t + 10 min, and otherwise is refused as expired. It is listed exactly when now < t + 10 min. |
| FileLifecycle.Promote | app.py:232-234 | `make_permanent` sets that row's flag to 1. Its name and time are kept, every other row is unchanged, and no row is added or removed. |
| FileLifecycle.PromoteIdempotent | app.py:232-234 | Promoting twice is the same as promoting once. |
| FileLifecycle.PromotedIsKept | app.py:232-234 | A promoted row with bytes survives every later sweep, stays listed, and downloads under its name. |
| FileLifecycle.SweptIsGone | app.py:61-171 | After a sweep, downloading a swept id finds no row. |
| FileLifecycle.RemovalKeepsConsistent | app.py:65-69 | Removing the same ids from both store and index keeps the store/index invariant. |
| FileBoard.Board.constructor | app.py:77-82 | A fresh board has an empty index, an empty store and no notifications. |
| FileBoard.Board.Sweep | app.py:61-71 | The new index is the survivors of the old one. The selected ids' bytes are removed, and only theirs. One `file_deleted` per selected id, each exactly once, is appended in the order rows were deleted. The invariant is kept. |
| FileBoard.Board.Upload | app.py:124-163 | Invalid form, missing file and low space (free < min·2^30) create nothing. A failed save creates nothing. A failed commit leaves the bytes without a row. Success adds exactly `{id, filename, now, 0}` and its bytes, leaves other rows unchanged, and appends one `new_file`. The invariant is kept. |
| FileBoard.Board.Manage | app.py:215-237 | For an existing id, a committed `delete` removes its row and its bytes (if present) and appends one `file_deleted`; a committed `make_permanent` changes only that row's flag. If the commit fails, the row and log are unchanged, but a delete has already removed the bytes. An unknown id or action changes nothing. The invariant is kept unless the commit fails; in every case at most this one row can lose its bytes. |

## Left out

- HTTP routing, templates, flash messages, redirects and error handlers (app.py:93-113). The handlers' outcome datatypes stand in for the flash messages.
- Form classes and HTTP basic authentication (app.py:48-50, 84-91, 202-213). The admin actions are modelled as already authorised. Form validation and file presence are boolean inputs to `Upload`.
- Rate limiting (app.py:46, 125). It is middleware that rejects a request before the handler runs.
- The background scheduler (app.py:73-75) and the socket transport. `Sweep` is a method the caller invokes with `now`. Emissions are appends to `events`.
- Concurrency between the sweeper and request handlers. Every method runs to completion, one at a time.
- The database session and the filesystem calls. In `Upload`, `saveOk` and `commitOk` say whether writing the bytes and committing the row succeed; in `Manage`, `commitOk` says whether the commit succeeds. A failing `os.remove` in `Manage` is not modelled. A partially written file, a session left unusable after a failed commit, and a failure of the `new_file` emission after a successful commit are not modelled.
- Failures inside the sweep loop. A failing file removal or commit would raise and end that sweep run, because the code has no handler there. The model assumes each removal and commit succeeds. In the code, a commit failing after its `os.remove` leaves that row without bytes, as a failed admin delete does; the model's sweep never produces such a row.
- The free-space reading (`shutil.disk_usage`) and `MIN_FREE_SPACE_GB` are the parameters `free` and `minFreeGb`. `DefaultMinFreeGb` is the default of 2.
- Identifier generation (`uuid.uuid4`). The fresh id is a parameter, and `Upload` requires that it is in neither the index nor the store.
- Filename sanitisation (`secure_filename`), a library function outside this model. `Upload` receives the already-sanitised name.
- ISO-8601 timestamp strings. Times are integers of microseconds, on the assumption that the string order of the stored timestamps equals their time order. Converting the listing's timestamps for display (app.py:119-121) is not modelled.
- A missing `file_id` form field in `admin_manage` (`request.form.get` returning nothing). The id is always a string here.
- The admin panel's storage summary (app.py:188-200), the health check (app.py:239-247) and logging.
- tests/test_app.py and tests/conftest.py. They target another version of the application, with a user model, a multi-file upload field and a different success message, so they say nothing about `app.py`.
