# Bitbucket commit sync, modelled in Dafny

`bitbucket_commits_update.py` mirrors commit activity from the Bitbucket API
into an event endpoint. For every repository it keeps a checkpoint
(`bitbucket-<slug>-pushed_at`) in Redis. It pages backwards through the commit
history from the newest commit and posts one event for each commit whose
author's email is in the configured domain and that is newer than the
checkpoint. It stops at the first such commit that is not newer, and then
writes the highest timestamp it saw back as the new checkpoint. Events go
through a queue. The queue is sent as one batch once it holds more than 100
events, and it is force-flushed after each repository. It is cleared only when
the endpoint answers `"OK"`.

The model has these modules:

- `StringOrder`: Python's `<`/`>`/`>=` on `str`. Every timestamp comparison in
  the program uses it. It is proved to be a total order and to agree with the
  first-difference definition of lexicographic order. `Later` is the running
  maximum of `_process_repo`.
- `TzOffset`: `get_tzinfo_from_dt` over integer seconds, with
  `timedelta.seconds` written out as `|d| % 86400`. `ParseOffset` reads the
  `±HH:MM` text back.
- `Batcher`: `post` as a function on an outbox value. The outbox holds the
  queue, the endpoint's remaining scripted replies and the log of batches sent.
- `SyncEngine`: `_process_repo` as functions.
  - `ScanPage` models the `for` loop over one page.
  - `ScanPages` models the `while True` loop over a script of history
    responses.
  - Email extraction follows the code: `raw.split("<")[1].replace(">", "")`.
- `ScanProperties`: what the scan promises. This covers the checkpoint bound,
  the emission rule against a reference filter `EventsOf`, the stop rule
  against a reference `UpToBoundary`, the cursor chain, termination and
  idempotence.
- `Orchestrator`: `process` as functions on a `World` and its properties.
  The `World` holds the store, the responses still to come, the request log
  and the outbox.
- `Updater`: the class `BitbucketUpdate`.
  - Its fields are the store, the response script and request log, and the
    `post_queue` with the reply script and sent log.
  - Its methods `GetCommits`, `Post`, `PostFinished`, `ProcessRepo` (with the
    page loop `ScanChangesets`) and `Process` keep the source's loops and
    in-place updates.
  - Each method is proved to leave the object exactly as the corresponding
    function says.

The network and the store are scripted:

- History responses are a finite sequence, taken one per `get_commits`. Once
  the script is used up, the answer is a response without `changesets`.
- Each history request is logged with its `start` parameter. The parameter is
  absent when the cursor is `None` or empty, as `if last_commit:` decides.
- The endpoint's replies to `post` are a finite sequence. Once it is used up,
  the reply is the empty string, which is not `"OK"`.
- The store is a `map<string, string>`.

Two points where the code differs from a plain reading of its intent are
modelled as written:

- When the history runs out (a response without `changesets`, or an empty
  list), `_process_repo` breaks out of its loop and returns `None`, not the
  highest timestamp seen. `process` writes that `None` to Redis. The model
  stores the text `"None"`, which is how the Python 2 Redis client renders a
  value that is not a string. `"None"` sorts after every timestamp that begins
  with a digit. `Orchestrator.FallOffStallsRepository` proves that the next
  visit of that slug is skipped. `Orchestrator.StalledOverListing` proves
  that the text stays, and so every later visit is skipped, through any
  listing whose entries for that slug have a `last_updated` below `"None"`,
  whatever other repositories run in between, in the same run of `process`
  or any later one.
- The email is the text between the first `<` and the next `<`, not everything
  after the first `<` (`SyncEngine.AuthorEmailPiece`).

## Model

| member | source | states |
|---|---|---|
| `StringOrder.BelowIffFirstDifference` | bitbucket_commits_update.py:90-91 | Python's string `<` holds exactly when the strings first differ at a position where the left character is smaller, or the left string is a proper prefix of the right. |
| `StringOrder.AtMostTotalOrder` | bitbucket_commits_update.py:122-123 | `>=` on strings is reflexive, antisymmetric, transitive and total. |
| `StringOrder.NotBelowIsAtMost` | bitbucket_commits_update.py:99-102 | A timestamp that is not `>` the checkpoint is `<=` it, so the `else` branch of the emission test is exactly "not newer". |
| `StringOrder.LaterIsMax` | bitbucket_commits_update.py:90-91 | Updating the saved value when `timestamp > saved` yields the maximum of the two, and it is one of them. |
| `TzOffset.GetTzInfo` | bitbucket_commits_update.py:16-25 | The model of `get_tzinfo_from_dt` over times in seconds. Its contract is carried by `GetTzInfoShape`, `GetTzInfoReadsBack`, `GetTzInfoEqual`, `GetTzInfoSwap`, `GetTzInfoDropsDays` and `GetTzInfoDropsSeconds`. |
| `TzOffset.TwoDigits` | bitbucket_commits_update.py:25 | `%02d` of a number below 100 is two decimal digits whose value is that number. |
| `TzOffset.GetTzInfoShape` | bitbucket_commits_update.py:16-25 | The offset is 6 characters: a sign, two digits, `:`, two digits. The sign is `-` exactly when the second time is earlier than the first. |
| `TzOffset.GetTzInfoReadsBack` | bitbucket_commits_update.py:19-25 | Parsing the offset back gives the sign, hours in 0..23 and minutes in 0..59. Hours and minutes are those of the absolute difference modulo one day, with seconds below the minute dropped. |
| `TzOffset.GetTzInfoEqual` | bitbucket_commits_update.py:19-25 | Equal times give `+00:00`. |
| `TzOffset.GetTzInfoSwap` | bitbucket_commits_update.py:20-23 | Swapping two different times flips the sign and leaves the hours and minutes unchanged. |
| `TzOffset.GetTzInfoDropsDays` | bitbucket_commits_update.py:24 | Adding whole days to a non-negative difference does not change the offset (`timedelta.seconds` drops the days). |
| `TzOffset.GetTzInfoDropsSeconds` | bitbucket_commits_update.py:24 | Adding fewer than 60 seconds to a whole-minute difference does not change the offset. |
| `Batcher.Post` | bitbucket_commits_update.py:132-142 | The model of `post` on the outbox value. Its contract is carried by `PostSends`, `PostClearsOnlyOnOk`, `PostConserves` and `QueueBoundedWhenAcked`. |
| `Batcher.PostAll` | bitbucket_commits_update.py:132-142 | A run of `post` calls with data, one per event. Its contract is carried by `PostAllConserves`, `PostAllAppend`, `NoSendUpToThreshold` and `SendAtThreshold`. |
| `Batcher.PostSends` | bitbucket_commits_update.py:134-138 | `post` sends exactly one batch, the whole queue after the append, exactly when the queue then holds more than 100 events or the call has no data and the queue is not empty. Otherwise nothing is sent, no reply is used and the queue is the old one plus the event. |
| `Batcher.PostClearsOnlyOnOk` | bitbucket_commits_update.py:139-142 | After a send, the queue is empty exactly when the reply is `"OK"`. Any other reply leaves the sent batch queued and the call returns `False`. |
| `Batcher.PostConserves` | bitbucket_commits_update.py:133-142 | No event is lost or reordered: acknowledged events followed by queued events grow by exactly the posted event. |
| `Batcher.PostAllConserves` | bitbucket_commits_update.py:133-142 | The same holds over any sequence of `post` calls: acknowledged plus queued events grow by the events posted, in order. |
| `Batcher.PostAllAppend` | bitbucket_commits_update.py:133-142 | Posting two runs of events one after the other is the same as posting them joined. |
| `Batcher.NoSendUpToThreshold` | bitbucket_commits_update.py:136 | While the queue holds at most 100 events, posting sends nothing and only appends. |
| `Batcher.SendAtThreshold` | bitbucket_commits_update.py:136-138 | From an empty queue, posting 101 events sends exactly one batch: all 101, in order. |
| `Batcher.QueueBoundedWhenAcked` | bitbucket_commits_update.py:136-140 | A queue of at most 100 events stays at most 100 after a `post` when the endpoint's next reply is `"OK"`. |
| `SyncEngine.AuthorEmail` | bitbucket_commits_update.py:93-96 | There is an email exactly when the raw author contains `<`. |
| `SyncEngine.AuthorEmailHasNoCloser` | bitbucket_commits_update.py:96 | The extracted email contains no `>`. |
| `SyncEngine.AuthorEmailPiece` | bitbucket_commits_update.py:95-96 | The email is the text between the first `<` and the next `<` (or the end), with its `>` removed. Whatever follows a second `<` is ignored. |
| `SyncEngine.AuthorEmailOfNameAndEmail` | bitbucket_commits_update.py:92-96 | `"Name <email>"` yields exactly `email`. |
| `SyncEngine.Examine` | bitbucket_commits_update.py:92-102 | The verdict of the page loop on one commit: skip, emit its event, or return. Its contract is carried by `ExamineVerdict`. |
| `SyncEngine.ScanPage` | bitbucket_commits_update.py:87-102 | The `for commit in changesets` loop over one page. Its contract is carried by `ScanProperties.PageBound`, `PageEvents`, `PageStop` and `PageRescan`. |
| `SyncEngine.ScanPages` | bitbucket_commits_update.py:80-105 | The `while True` loop from a running maximum and a cursor. Its contract is carried by `ScanProperties.ScanPagesBound`, `ScanPagesEvents`, `ScanPagesStop`, `ScanPagesHalt`, `ScanPagesRequests`, `ScanPagesNoRequestPastBoundary` and `ScanPagesRescan`. |
| `SyncEngine.Scan` | bitbucket_commits_update.py:77-105 | `_process_repo(name, last_processed)` against the response script. Its contract is carried by `ScanProperties.CheckpointBound`, `EmissionRule`, `StopRule`, `Requests`, `RescanEmitsNothing` and `SingleCommitHistory`. |
| `SyncEngine.ExamineVerdict` | bitbucket_commits_update.py:92-102 | A commit is skipped exactly when it is out of the domain. It is emitted, with the event built from its fields, exactly when it is in the domain and newer than the checkpoint. It stops the scan exactly when it is in the domain and not newer. |
| `ScanProperties.PageBound` | bitbucket_commits_update.py:87-102 | A page scan's best value is at least the value it started from and at least every timestamp it looked at, and it is one of them. |
| `ScanProperties.ScanPagesBound` | bitbucket_commits_update.py:80-105 | The same bound over all pages fetched, whenever the loop returns a value. |
| `ScanProperties.CheckpointBound` | bitbucket_commits_update.py:78-105 | A value returned by `_process_repo` is at least the stored checkpoint and at least every `utctimestamp` looked at, including skipped commits. It is the checkpoint or one of those timestamps. |
| `ScanProperties.EventsOfFields` | bitbucket_commits_update.py:99-100 | Every event of the reference filter comes from a looked-at commit with a `<`, a domain email and a timestamp newer than the checkpoint. It carries system `bitbucket-commits`, that timestamp, the email, the repository name and `is_utc` true, and its `tzinfo` is `get_tzinfo_from_dt` of that commit's two times. |
| `ScanProperties.PageEvents` | bitbucket_commits_update.py:87-102 | The events of a page are the reference filter of the commits the page looked at. |
| `ScanProperties.ScanPagesEvents` | bitbucket_commits_update.py:80-105 | The events of all pages are the reference filter of all commits looked at. |
| `ScanProperties.EmissionRule` | bitbucket_commits_update.py:92-100 | The events posted are exactly, in page order, the looked-at commits whose author has a `<`, whose email ends with the domain and whose timestamp is newer than the original checkpoint (not the running maximum). |
| `ScanProperties.PageStop` | bitbucket_commits_update.py:87-102 | A page is looked at up to and including its first in-domain commit that is not newer than the checkpoint, and the page halts exactly when it has one. |
| `ScanProperties.ScanPagesStop` | bitbucket_commits_update.py:80-105 | The commits looked at are those of the pages fetched, cut just after the first in-domain commit that is not newer. |
| `ScanProperties.ScanPagesHalt` | bitbucket_commits_update.py:80-105 | If the fetched pages contain such a commit, the loop returns a value. A returned value means the last page fetched had commits and either contained such a commit or had exactly one commit. |
| `ScanProperties.StopRule` | bitbucket_commits_update.py:99-105 | The stop rule for `_process_repo`: no commit after the first in-domain one that is not newer is examined, out-of-domain commits never stop the scan, and a value is returned only at such a commit or at a single-commit page. |
| `ScanProperties.ScanPagesRequests` | bitbucket_commits_update.py:79-86 | Each request after the first carries the `node` of the first commit of the previous page, which had more than one commit. The loop falls off (returns `None`) exactly when the last response has no commits. |
| `ScanProperties.ScanPagesNoRequestPastBoundary` | bitbucket_commits_update.py:99-102 | No page is requested after a page that holds an in-domain commit not newer than the checkpoint: every page but the last one fetched is free of them. |
| `ScanProperties.Requests` | bitbucket_commits_update.py:71-105 | The first request has no cursor and at most one request more than the script length is made. Every later cursor is the first `node` of the page before, which had more than one commit and no in-domain commit that is not newer, so no page is requested after the scan has stopped. `None` is returned exactly when the last response has no `changesets` or an empty list. |
| `ScanProperties.PageRescan` | bitbucket_commits_update.py:87-102 | A page rescanned from a checkpoint at least an earlier scan's best value posts nothing, and it halts whenever the earlier scan halted. |
| `ScanProperties.ScanPagesRescan` | bitbucket_commits_update.py:80-105 | Over all pages, a rescan from a checkpoint at least the value an earlier scan returned posts nothing, and it also returns a value. |
| `ScanProperties.RescanEmitsNothing` | bitbucket_commits_update.py:99-102 | Idempotence: scanning the same history from the returned value, or any later checkpoint, posts no event and again returns a value. |
| `ScanProperties.SingleCommitHistory` | bitbucket_commits_update.py:103-105 | A history whose first page has one commit is scanned with a single request. It returns the later of the checkpoint and that commit's timestamp. |
| `Orchestrator.StoredCheckpoint` | bitbucket_commits_update.py:119-121 | The checkpoint read from Redis, with the epoch default when the key is absent or empty. Its contract is carried by `RunsWhenNewer` and `CheckpointMonotone`. |
| `Orchestrator.Render` | bitbucket_commits_update.py:126 | The text written for a scan result, `"None"` for a fall-off. Its contract is carried by `FallOffStallsRepository`, `StalledOverListing` and `CheckpointMonotone`. |
| `Orchestrator.ProcessRepo` | bitbucket_commits_update.py:114-127 | One iteration of the loop of `process`. Its contract is carried by `SkipChangesNothing`, `RunsWhenNewer`, `RepoRequests`, `CheckpointMonotone`, `FallOffStallsRepository`, `FlushAfterRepository`, `ProcessRepoConserves` and `SecondRunPostsNothing`. |
| `Orchestrator.ProcessAll` | bitbucket_commits_update.py:107-127 | `process` over the repository listing. Its contract is carried by `ProcessAllConserves`, `ProcessAllAppend`, `OtherKeysUntouched` and `StalledOverListing`. |
| `Orchestrator.CheckpointKeyInjective` | bitbucket_commits_update.py:118-119 | Different slugs have different checkpoint keys. |
| `Orchestrator.SkipChangesNothing` | bitbucket_commits_update.py:114-123 | A repository with no slug, or whose checkpoint is `>=` its `last_updated`, causes no request, no store write and no flush. |
| `Orchestrator.RunsWhenNewer` | bitbucket_commits_update.py:119-123 | A repository is processed exactly when it has a slug and its stored checkpoint (epoch default when absent or empty) is `<` its `last_updated`. |
| `Orchestrator.LoggedShape` | bitbucket_commits_update.py:71-72 | The request log has one entry per cursor, each carrying `start` only for a present, non-empty cursor. |
| `Orchestrator.RepoRequests` | bitbucket_commits_update.py:124 | Processing a repository appends one request per page fetched, at least one, all for its slug, the first without `start`. |
| `Orchestrator.CheckpointMonotone` | bitbucket_commits_update.py:119-126 | Unless the scan falls off the end of its loop, the checkpoint read back after a repository is at least the one read before. |
| `Orchestrator.FallOffStallsRepository` | bitbucket_commits_update.py:124-126 | A scan that falls off writes `"None"`, and the next visit of that slug, with any `last_updated` that sorts below `"None"`, is skipped. |
| `Orchestrator.StalledOverListing` | bitbucket_commits_update.py:113-126 | A checkpoint holding `"None"` still holds it after any listing whose entries for that slug sort below `"None"`, whatever other repositories run, so every visit of the slug in it is skipped. |
| `Orchestrator.FlushAfterRepository` | bitbucket_commits_update.py:127-130 | After a processed repository the queue is empty, or it holds exactly the batch just sent, which was not answered `"OK"`. |
| `Orchestrator.ProcessRepoConserves` | bitbucket_commits_update.py:124-127 | For one repository, acknowledged plus queued events grow by exactly its scan's events, or not at all when it is skipped. |
| `Orchestrator.ProcessAllConserves` | bitbucket_commits_update.py:113-127 | Over the listing, acknowledged plus queued events grow by exactly the events of every scan run, repository after repository. |
| `Orchestrator.ProcessAllAppend` | bitbucket_commits_update.py:113 | Repositories are processed one after another in listing order. |
| `Orchestrator.OtherKeysUntouched` | bitbucket_commits_update.py:118-126 | Store keys other than the checkpoint keys of the listed repositories keep their presence and value. |
| `Orchestrator.SecondRunPostsNothing` | bitbucket_commits_update.py:119-126 | Processing a repository again against the same history, after a scan that returned a value, posts nothing. |
| `Updater.BitbucketUpdate.constructor` | bitbucket_commits_update.py:48-56 | A new updater has the given store, scripts and domain, an empty post queue and no requests or batches. |
| `Updater.BitbucketUpdate.GetCommits` | bitbucket_commits_update.py:67-75 | Logs the request with `start` only for a present, non-empty cursor, and returns the next scripted response, which it consumes. |
| `Updater.BitbucketUpdate.Post` | bitbucket_commits_update.py:132-142 | The in-place queue update and its result are those of `Batcher.Post`, whose properties are proved above. |
| `Updater.BitbucketUpdate.PostFinished` | bitbucket_commits_update.py:129-130 | A `post` without data. |
| `Updater.BitbucketUpdate.ScanChangesets` | bitbucket_commits_update.py:87-102 | The page loop leaves the running maximum, the halt flag and the posted events as `ScanPage` gives them. |
| `Updater.BitbucketUpdate.ProcessRepo` | bitbucket_commits_update.py:77-105 | Returns `Scan`'s value and leaves the responses, request log and post queue as `Scan` says, so every `ScanProperties` lemma applies to it. |
| `Updater.BitbucketUpdate.Process` | bitbucket_commits_update.py:107-127 | Leaves the object in the state `Orchestrator.ProcessAll` gives, so every `Orchestrator` lemma applies to it. |

## Left out

- HTTP and JSON in `get_repositories` and `get_commits` (URL building with `limit=30`, Basic-auth header) and in `post`: replaced by the scripted responses, replies and the repository listing passed to `Process`. Transport errors and exceptions are not modelled.
- The Redis connection and `Config` lookups: the store is a map, and the email domain is a constructor parameter. The server URL and credentials are not modelled.
- What the Redis client does with `None`: the Redis client is not part of this model. The model stores the text `"None"`, as a Python 2 client renders a non-string value.
- `statsd` counters and `@timing` decorators: instrumentation only.
- `dateutil.parser.parse`: commits carry `utctimestamp` as text plus the two parsed times as integer seconds (time zones dropped). Sub-second parts are not modelled.
- `parse_timestamp_utc` (lines 28-44): nothing calls it.
- Python 2 comparisons with `None`: a missing `last_updated` is not modelled (it is always a string). A missing slug is modelled as the empty string.
- The unbounded `while True`: the loop is bounded by the finite response script. Once the script is used up, the answer is a response without `changesets`.
- The `for commit in changesets` loop is its own method, `ScanChangesets`. Its `return` out of `_process_repo` is reported by a `halted` flag, and `ProcessRepo` returns at once on it.
- `post`'s `if data:` truthiness: an event dict is never empty, so a call carries an event or nothing (`Option`).
- `main()`: wiring only.
