/**
  `process`: for every repository of the listing, in order, read its checkpoint
  from the store, skip it when it has no slug or nothing newer than the
  checkpoint, otherwise scan its history, write the value the scan returned back
  under the same key and force a flush of the post queue.

  The world the run acts on is the checkpoint store, the history responses yet
  to be given, the log of history requests made, and the outbox of the batcher.
 */
module Orchestrator {
  import opened Wrappers
  import opened StringOrder
  import opened Batcher
  import opened SyncEngine
  import ScanProperties

  /** A repository of the listing: its `slug` (empty when missing) and its
      `last_updated` timestamp. */
  datatype Repo = Repo(slug: string, lastUpdated: string)

  /** One history request: the repository and the `start` parameter, if any. */
  datatype Request = Request(repo: string, start: Option<string>)

  datatype World = World(store: map<string, string>, responses: seq<Response>,
                         requests: seq<Request>, outbox: Outbox)

  const Epoch := "1970-01-01T00:00:00"

  function CheckpointKey(slug: string): string
  {
    "bitbucket-" + slug + "-" + "pushed_at"
  }

  /** The checkpoint read for `key`: the stored text, or the epoch when the key
      is absent or holds the empty string. */
  function StoredCheckpoint(store: map<string, string>, key: string): string
  {
    if key in store && store[key] != "" then store[key] else Epoch
  }

  /** The text the store keeps for a scan result: the timestamp, or "None" when
      the scan fell off the end of its loop and returned no value. */
  function Render(result: Option<string>): string
  {
    if result.Some? then result.value else "None"
  }

  /** `&start=` is added only for a cursor that is present and not empty. */
  function StartParam(cursor: Option<string>): Option<string>
  {
    if cursor.Some? && cursor.value != "" then cursor else None
  }

  /** The history requests made for repository `name` with the given cursors. */
  function Logged(name: string, cursors: seq<Option<string>>): seq<Request>
    decreases |cursors|
  {
    if cursors == [] then []
    else Logged(name, cursors[..|cursors| - 1]) + [Request(name, StartParam(cursors[|cursors| - 1]))]
  }

  /** The responses left once `n` have been handed out. */
  function Drop(resps: seq<Response>, n: nat): seq<Response>
  {
    if n <= |resps| then resps[n..] else []
  }

  /** The repository has a slug and its `last_updated` is newer than its checkpoint. */
  predicate Runs(w: World, repo: Repo)
  {
    repo.slug != "" && !AtMost(repo.lastUpdated, StoredCheckpoint(w.store, CheckpointKey(repo.slug)))
  }

  /** The scan `process` runs for a repository. */
  function RepoScan(w: World, repo: Repo, domain: string): ScanRun
  {
    Scan(w.responses, repo.slug, StoredCheckpoint(w.store, CheckpointKey(repo.slug)), domain)
  }

  /** One iteration of the loop of `process`. */
  function ProcessRepo(w: World, repo: Repo, domain: string): World
  {
    if !Runs(w, repo) then w
    else
      var run := RepoScan(w, repo, domain);
      var posted := PostAll(w.outbox, run.events);
      World(w.store[CheckpointKey(repo.slug) := Render(run.result)],
            Drop(w.responses, |run.cursors|),
            w.requests + Logged(repo.slug, run.cursors),
            Post(posted, None).outbox)
  }

  /** `process` over the listing `repos`. */
  function ProcessAll(w: World, repos: seq<Repo>, domain: string): World
    decreases |repos|
  {
    if repos == [] then w
    else ProcessRepo(ProcessAll(w, repos[..|repos| - 1], domain), repos[|repos| - 1], domain)
  }

  /** Reference definition of what a run posts: the events of every scan run,
      repository after repository. */
  function PostedEvents(w: World, repos: seq<Repo>, domain: string): seq<Event>
    decreases |repos|
  {
    if repos == [] then []
    else
      var before := ProcessAll(w, repos[..|repos| - 1], domain);
      var last := repos[|repos| - 1];
      PostedEvents(w, repos[..|repos| - 1], domain)
      + (if Runs(before, last) then RepoScan(before, last, domain).events else [])
  }

  // ---------------------------------------------------------------------------
  // Properties

  /** Different slugs have different checkpoint keys. */
  lemma CheckpointKeyInjective(a: string, b: string)
    requires CheckpointKey(a) == CheckpointKey(b)
    ensures a == b
  {
    var ka, kb := CheckpointKey(a), CheckpointKey(b);
    assert |a| == |b|;
    forall i | 0 <= i < |a|
      ensures a[i] == b[i]
    {
      assert ka[10 + i] == a[i];
      assert kb[10 + i] == b[i];
    }
  }

  /** A repository without a slug, or whose checkpoint is at least its
      `last_updated`, changes nothing: no request, no write, no flush. */
  lemma SkipChangesNothing(w: World, repo: Repo, domain: string)
    requires repo.slug == ""
      || AtMost(repo.lastUpdated, StoredCheckpoint(w.store, CheckpointKey(repo.slug)))
    ensures ProcessRepo(w, repo, domain) == w
  {
  }

  /** Runs is the strict comparison of the checkpoint with `last_updated`. */
  lemma RunsWhenNewer(w: World, repo: Repo)
    ensures Runs(w, repo) <==>
      repo.slug != "" && Below(StoredCheckpoint(w.store, CheckpointKey(repo.slug)), repo.lastUpdated)
  {
    NotBelowIsAtMost(repo.lastUpdated, StoredCheckpoint(w.store, CheckpointKey(repo.slug)));
  }

  /** A repository that runs logs one request per page fetched, all for its
      slug, the first without a start parameter. */
  lemma RepoRequests(w: World, repo: Repo, domain: string)
    requires Runs(w, repo)
    ensures var w' := ProcessRepo(w, repo, domain);
      var n := |RepoScan(w, repo, domain).cursors|;
      && |w'.requests| == |w.requests| + n && n >= 1
      && w'.requests[..|w.requests|] == w.requests
      && w'.requests[|w.requests|] == Request(repo.slug, None)
      && (forall j :: |w.requests| <= j < |w'.requests| ==> w'.requests[j].repo == repo.slug)
  {
    var run := RepoScan(w, repo, domain);
    ScanProperties.Requests(w.responses, repo.slug,
                            StoredCheckpoint(w.store, CheckpointKey(repo.slug)), domain);
    LoggedShape(repo.slug, run.cursors);
  }

  lemma {:induction false} LoggedShape(name: string, cursors: seq<Option<string>>)
    ensures var l := Logged(name, cursors);
      && |l| == |cursors|
      && (forall j :: 0 <= j < |l| ==> l[j] == Request(name, StartParam(cursors[j])))
    decreases |cursors|
  {
    if cursors != [] {
      LoggedShape(name, cursors[..|cursors| - 1]);
    }
  }

  /** Checkpoint monotonicity: unless the scan falls off the end of its loop, the
      checkpoint read back after a repository is at least the one read before. */
  lemma CheckpointMonotone(w: World, repo: Repo, domain: string)
    requires Runs(w, repo) ==> RepoScan(w, repo, domain).result.Some?
    ensures var key := CheckpointKey(repo.slug);
      AtMost(StoredCheckpoint(w.store, key),
             StoredCheckpoint(ProcessRepo(w, repo, domain).store, key))
  {
    var key := CheckpointKey(repo.slug);
    var lp := StoredCheckpoint(w.store, key);
    if Runs(w, repo) {
      ScanProperties.CheckpointBound(w.responses, repo.slug, lp, domain);
    } else {
      AtMostTotalOrder(lp, lp, lp);
    }
  }

  /** A scan that falls off the end of its loop stores the text "None"; that
      text sorts after every ISO timestamp, so the repository is skipped from
      then on, whatever new commits it gets. */
  lemma FallOffStallsRepository(w: World, repo: Repo, domain: string, next: Repo)
    requires Runs(w, repo) && RepoScan(w, repo, domain).result.None?
    requires next.slug == repo.slug && Below(next.lastUpdated, "None")
    ensures var w' := ProcessRepo(w, repo, domain);
      && w'.store[CheckpointKey(repo.slug)] == "None"
      && ProcessRepo(w', next, domain) == w'
  {
  }

  /** Once a checkpoint holds "None", it keeps holding it through any listing
      whose entries for that slug have a `last_updated` sorting below "None":
      every visit of the slug is skipped, whatever other repositories run in
      between, in this run of `process` or any later one. */
  lemma {:induction false} StalledOverListing(w: World, repos: seq<Repo>, domain: string, slug: string)
    requires CheckpointKey(slug) in w.store && w.store[CheckpointKey(slug)] == "None"
    requires forall r :: r in repos && r.slug == slug ==> Below(r.lastUpdated, "None")
    ensures var w' := ProcessAll(w, repos, domain);
      CheckpointKey(slug) in w'.store && w'.store[CheckpointKey(slug)] == "None"
    decreases |repos|
  {
    if repos != [] {
      var init := repos[..|repos| - 1];
      var last := repos[|repos| - 1];
      assert forall r :: r in init ==> r in repos;
      StalledOverListing(w, init, domain, slug);
      var before := ProcessAll(w, init, domain);
      assert last in repos;
      if last.slug == slug {
        assert StoredCheckpoint(before.store, CheckpointKey(slug)) == "None";
        assert !Runs(before, last);
      } else if Runs(before, last) && CheckpointKey(last.slug) == CheckpointKey(slug) {
        CheckpointKeyInjective(last.slug, slug);
      }
    }
  }

  /** After a repository that runs, the queue is empty, or it holds exactly the
      batch just sent, which the endpoint did not acknowledge. */
  lemma FlushAfterRepository(w: World, repo: Repo, domain: string)
    requires Runs(w, repo)
    ensures var o := ProcessRepo(w, repo, domain).outbox;
      o.queue == []
      || (o.sent != [] && o.sent[|o.sent| - 1].reply != "OK" && o.sent[|o.sent| - 1].batch == o.queue)
  {
  }

  /** No event is lost or reordered by a repository: acknowledged then queued
      events grow by exactly the events its scan posted. */
  lemma ProcessRepoConserves(w: World, repo: Repo, domain: string)
    ensures var w' := ProcessRepo(w, repo, domain);
      Acked(w'.outbox.sent) + w'.outbox.queue
      == Acked(w.outbox.sent) + w.outbox.queue
         + (if Runs(w, repo) then RepoScan(w, repo, domain).events else [])
  {
    if Runs(w, repo) {
      var run := RepoScan(w, repo, domain);
      PostAllConserves(w.outbox, run.events);
      PostConserves(PostAll(w.outbox, run.events), None);
    }
  }

  /** Over the whole listing, the endpoint acknowledges or still holds queued
      exactly what it did before followed by every event the scans posted. */
  lemma {:induction false} ProcessAllConserves(w: World, repos: seq<Repo>, domain: string)
    ensures var w' := ProcessAll(w, repos, domain);
      Acked(w'.outbox.sent) + w'.outbox.queue
      == Acked(w.outbox.sent) + w.outbox.queue + PostedEvents(w, repos, domain)
    decreases |repos|
  {
    if repos != [] {
      var init := repos[..|repos| - 1];
      ProcessAllConserves(w, init, domain);
      ProcessRepoConserves(ProcessAll(w, init, domain), repos[|repos| - 1], domain);
    }
  }

  /** Repositories are handled one after the other in listing order. */
  lemma {:induction false} ProcessAllAppend(w: World, a: seq<Repo>, b: seq<Repo>, domain: string)
    ensures ProcessAll(w, a + b, domain) == ProcessAll(ProcessAll(w, a, domain), b, domain)
    decreases |b|
  {
    if b == [] {
      assert a + b == a;
    } else {
      var init := b[..|b| - 1];
      assert (a + b)[..|a + b| - 1] == a + init;
      ProcessAllAppend(w, a, init, domain);
    }
  }

  /** Only the checkpoint keys of the repositories in the listing can change. */
  lemma {:induction false} OtherKeysUntouched(w: World, repos: seq<Repo>, domain: string, key: string)
    requires forall r :: r in repos && r.slug != "" ==> key != CheckpointKey(r.slug)
    ensures var w' := ProcessAll(w, repos, domain);
      (key in w'.store <==> key in w.store) && (key in w.store ==> w'.store[key] == w.store[key])
    decreases |repos|
  {
    if repos != [] {
      var init := repos[..|repos| - 1];
      assert forall r :: r in init ==> r in repos;
      OtherKeysUntouched(w, init, domain, key);
      assert repos[|repos| - 1] in repos;
    }
  }

  /** Idempotence: run a repository again against the same history after a scan
      that returned a value, and the second scan posts nothing. */
  lemma SecondRunPostsNothing(w: World, repo: Repo, domain: string)
    requires Runs(w, repo) ==> RepoScan(w, repo, domain).result.Some?
    ensures var again := ProcessRepo(w, repo, domain).(responses := w.responses);
      !Runs(again, repo) || RepoScan(again, repo, domain).events == []
  {
    if Runs(w, repo) {
      var key := CheckpointKey(repo.slug);
      var lp := StoredCheckpoint(w.store, key);
      var b := RepoScan(w, repo, domain).result.value;
      ScanProperties.CheckpointBound(w.responses, repo.slug, lp, domain);
      assert b != "";
      var again := ProcessRepo(w, repo, domain).(responses := w.responses);
      assert StoredCheckpoint(again.store, key) == b;
      AtMostTotalOrder(b, b, b);
      ScanProperties.RescanEmitsNothing(w.responses, repo.slug, lp, b, domain);
    }
  }
}
