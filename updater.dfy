/**
  `BitbucketUpdate`, the object whose methods do the work: it holds the
  checkpoint store, the scripted history responses with the log of requests
  made for them, and the post queue with the endpoint's scripted replies and
  the log of batches sent. Each method is proved to act as the function of the
  same name in `SyncEngine`, `Batcher` or `Orchestrator`.
 */
module Updater {
  import opened Wrappers
  import opened StringOrder
  import opened TzOffset
  import opened Batcher
  import opened SyncEngine
  import opened Orchestrator
  import ScanProperties

  lemma DropOne(resps: seq<Response>, n: nat)
    ensures Drop(Drop(resps, n), 1) == Drop(resps, n + 1)
  {
    if n + 1 <= |resps| {
      assert resps[n..][1..] == resps[n + 1..];
    }
  }

  /** The world after one more history request, in terms of the requests made so far. */
  lemma Fetched(o: World, name: string, curs: seq<Option<string>>, evs: seq<Event>, cursor: Option<string>)
    ensures World(o.store, Drop(Drop(o.responses, |curs|), 1),
                  o.requests + Logged(name, curs) + [Request(name, StartParam(cursor))], PostAll(o.outbox, evs))
         == World(o.store, Drop(o.responses, |curs + [cursor]|),
                  o.requests + Logged(name, curs + [cursor]), PostAll(o.outbox, evs))
  {
    DropOne(o.responses, |curs|);
    LoggedSnoc(name, curs, cursor);
    ScanProperties.Associative(o.requests, Logged(name, curs), [Request(name, StartParam(cursor))]);
  }

  lemma LoggedSnoc(name: string, cursors: seq<Option<string>>, cursor: Option<string>)
    ensures Logged(name, cursors + [cursor]) == Logged(name, cursors) + [Request(name, StartParam(cursor))]
  {
    assert (cursors + [cursor])[..|cursors|] == cursors;
  }

  /** One step of the `while True` loop: what is left of the scan `total`,
      after the events `evs` and the cursors `curs`, once one more response is
      taken. */
  lemma PagesStep(resps: seq<Response>, name: string, lastProcessed: string, domain: string,
                  best: string, cursor: Option<string>, total: ScanRun, evs: seq<Event>,
                  curs: seq<Option<string>>)
    requires var w := ScanPages(resps, name, lastProcessed, domain, best, cursor);
      total.result == w.result && total.events == evs + w.events && total.cursors == curs + w.cursors
    ensures var resp := ResponseAt(resps, 0);
      if !HasCommits(resp) then
        total.result == None && total.events == evs && total.cursors == curs + [cursor]
      else
        var cs := resp.changesets;
        var p := ScanPage(cs, name, lastProcessed, domain, best);
        if p.halted || |cs| == 1 then
          total.result == Some(p.best) && total.events == evs + p.events
          && total.cursors == curs + [cursor]
        else
          var rest := ScanPages(resps[1..], name, lastProcessed, domain, p.best, Some(cs[0].node));
          total.result == rest.result && total.events == evs + p.events + rest.events
          && total.cursors == curs + [cursor] + rest.cursors
  {
    var resp := ResponseAt(resps, 0);
    if !HasCommits(resp) {
      assert evs + [] == evs;
    } else {
      var cs := resp.changesets;
      var p := ScanPage(cs, name, lastProcessed, domain, best);
      if !(p.halted || |cs| == 1) {
        var rest := ScanPages(resps[1..], name, lastProcessed, domain, p.best, Some(cs[0].node));
        ScanProperties.Associative(evs, p.events, rest.events);
        ScanProperties.Associative(curs, [cursor], rest.cursors);
      }
    }
  }

  /** One step of the `for commit in changesets` loop: `ScanPage` unfolded once. */
  lemma PageStep(cs: seq<Commit>, i: nat, name: string, lastProcessed: string, domain: string,
                 best: string)
    requires i < |cs|
    ensures var c := cs[i];
      var best' := Later(best, c.utctimestamp);
      var r := ScanPage(cs[i..], name, lastProcessed, domain, best);
      var r' := ScanPage(cs[i + 1..], name, lastProcessed, domain, best');
      match Examine(c, name, lastProcessed, domain)
      case Skip => r.best == r'.best && r.halted == r'.halted && r.events == r'.events
      case Emit(e) => r.best == r'.best && r.halted == r'.halted && r.events == [e] + r'.events
      case Halt => r.best == best' && r.halted && r.events == []
  {
    assert cs[i..][1..] == cs[i + 1..];
  }

  class BitbucketUpdate {
    /** The configured `email-domain`. */
    const emailDomain: string
    /** The checkpoint store. */
    var store: map<string, string>
    /** The history responses not yet given, and the requests made so far. */
    var responses: seq<Response>
    var requests: seq<Request>
    /** `post_queue`, the endpoint's replies not yet given and the batches sent. */
    var postQueue: seq<Event>
    var replies: seq<string>
    var sent: seq<Delivery>

    function PostState(): Outbox
      reads this
    {
      Outbox(postQueue, replies, sent)
    }

    function State(): World
      reads this
    {
      World(store, responses, requests, PostState())
    }

    constructor(emailDomain: string, store: map<string, string>, responses: seq<Response>,
                replies: seq<string>)
      ensures this.emailDomain == emailDomain
      ensures State() == World(store, responses, [], Outbox([], replies, []))
    {
      this.emailDomain := emailDomain;
      this.store := store;
      this.responses := responses;
      this.requests := [];
      this.postQueue := [];
      this.replies := replies;
      this.sent := [];
    }

    /** `get_commits`: log the request, with a `start` parameter only for a
        present, non-empty cursor, and take the next scripted response. */
    method GetCommits(name: string, lastCommit: Option<string>) returns (commits: Response)
      modifies this
      ensures commits == ResponseAt(old(responses), 0)
      ensures State() == World(old(store), Drop(old(responses), 1),
                               old(requests) + [Request(name, StartParam(lastCommit))], old(PostState()))
    {
      var start := None;
      if lastCommit.Some? && lastCommit.value != "" {
        start := lastCommit;
      }
      requests := requests + [Request(name, start)];
      if responses == [] {
        commits := NoChangesets;
      } else {
        commits := responses[0];
        responses := responses[1..];
      }
    }

    /** `post(data)`; `rejected` is true where it returns `False`. */
    method Post(data: Option<Event>) returns (rejected: bool)
      modifies this
      ensures PostState() == Batcher.Post(old(PostState()), data).outbox
      ensures rejected == Batcher.Post(old(PostState()), data).rejected
      ensures store == old(store) && responses == old(responses) && requests == old(requests)
    {
      rejected := false;
      if data.Some? {
        postQueue := postQueue + [data.value];
      }
      if |postQueue| > Threshold || (|postQueue| > 0 && data.None?) {
        var cont := NextReply(replies);
        replies := RestReplies(replies);
        sent := sent + [Delivery(postQueue, cont)];
        if cont == Success {
          postQueue := [];
        } else {
          rejected := true;
        }
      }
    }

    /** `post_finished`: a `post` without data; its result is dropped. */
    method PostFinished()
      modifies this
      ensures PostState() == Batcher.Post(old(PostState()), None).outbox
      ensures store == old(store) && responses == old(responses) && requests == old(requests)
    {
      var _ := Post(None);
    }

    /** The `for commit in changesets` loop of `_process_repo`, from running
        maximum `best`: `halted` is true where the loop returns from
        `_process_repo` at a boundary commit. */
    method ScanChangesets(name: string, lastProcessed: string, changesets: seq<Commit>, best: string)
      returns (lastProcessedSave: string, halted: bool)
      modifies this
      ensures var page := ScanPage(changesets, name, lastProcessed, emailDomain, best);
        && lastProcessedSave == page.best && halted == page.halted
        && State() == World(old(store), old(responses), old(requests), PostAll(old(PostState()), page.events))
    {
      ghost var page := ScanPage(changesets, name, lastProcessed, emailDomain, best);
      ghost var evs: seq<Event> := [];
      lastProcessedSave := best;
      assert changesets[0..] == changesets;
      for i := 0 to |changesets|
        invariant var r := ScanPage(changesets[i..], name, lastProcessed, emailDomain,
                                    lastProcessedSave);
          page.best == r.best && page.halted == r.halted && page.events == evs + r.events
        invariant PostState() == PostAll(old(PostState()), evs)
        invariant store == old(store) && responses == old(responses) && requests == old(requests)
      {
        var commit := changesets[i];
        PageStep(changesets, i, name, lastProcessed, emailDomain, lastProcessedSave);
        ghost var next := ScanPage(changesets[i + 1..], name, lastProcessed, emailDomain,
                                   Later(lastProcessedSave, commit.utctimestamp));
        ghost var verdict := Examine(commit, name, lastProcessed, emailDomain);
        var timestamp := commit.utctimestamp;
        var tzinfo := GetTzInfo(commit.utcClock, commit.localClock);
        if Below(lastProcessedSave, timestamp) {
          lastProcessedSave := timestamp;
        }
        var author := commit.rawAuthor;
        if '<' !in author {
          assert verdict == Skip;
          continue;
        }
        author := RemoveAll(BeforeFirst(AfterFirst(author, '<'), '<'), '>');
        assert author == AuthorEmail(commit.rawAuthor).value;
        if !EndsWith(author, emailDomain) {
          assert verdict == Skip;
          continue;
        }
        if Below(lastProcessed, timestamp) {
          var e := Event(System, timestamp, author, name, true, tzinfo);
          assert verdict == Emit(e);
          var _ := Post(Some(e));
          assert (evs + [e])[..|evs|] == evs;
          ScanProperties.Associative(evs, [e], next.events);
          evs := evs + [e];
        } else {
          assert verdict == Halt;
          assert evs + [] == evs;
          return lastProcessedSave, true;
        }
      }
      assert changesets[|changesets|..] == [];
      assert evs + [] == evs;
      halted := false;
    }

    /** `_process_repo(name, last_processed)`. */
    method ProcessRepo(name: string, lastProcessed: string) returns (result: Option<string>)
      modifies this
      ensures var run := Scan(old(responses), name, lastProcessed, emailDomain);
        && result == run.result
        && State() == World(old(store), Drop(old(responses), |run.cursors|),
                            old(requests) + Logged(name, run.cursors), PostAll(old(PostState()), run.events))
    {
      ghost var total := Scan(responses, name, lastProcessed, emailDomain);
      ghost var evs: seq<Event> := [];
      ghost var curs: seq<Option<string>> := [];
      var lastProcessedSave := lastProcessed;
      var lastCommit: Option<string> := None;
      while true
        invariant var rest := ScanPages(responses, name, lastProcessed, emailDomain,
                                        lastProcessedSave, lastCommit);
          && total.result == rest.result
          && total.events == evs + rest.events
          && total.cursors == curs + rest.cursors
        invariant State() == World(old(store), Drop(old(responses), |curs|),
                                   old(requests) + Logged(name, curs), PostAll(old(PostState()), evs))
        decreases |responses|
      {
        ghost var before := responses;
        PagesStep(before, name, lastProcessed, emailDomain, lastProcessedSave, lastCommit, total, evs, curs);
        var commits := GetCommits(name, lastCommit);
        Fetched(old(State()), name, curs, evs, lastCommit);
        curs := curs + [lastCommit];
        if !commits.Changesets? || |commits.changesets| == 0 {
          break;
        }
        var changesets := commits.changesets;
        ghost var page := ScanPage(changesets, name, lastProcessed, emailDomain, lastProcessedSave);
        lastCommit := Some(changesets[0].node);
        var halted;
        lastProcessedSave, halted := ScanChangesets(name, lastProcessed, changesets, lastProcessedSave);
        PostAllAppend(old(PostState()), evs, page.events);
        evs := evs + page.events;
        // A boundary commit, or a page of one commit: the cursor echoed back.
        if halted || |changesets| == 1 {
          return Some(lastProcessedSave);
        }
        assert before[1..] == responses;
      }
      result := None;
    }

    /** `process` over the repository listing `repos`. */
    method Process(repos: seq<Repo>)
      modifies this
      ensures State() == ProcessAll(old(State()), repos, emailDomain)
    {
      for i := 0 to |repos|
        invariant State() == ProcessAll(old(State()), repos[..i], emailDomain)
      {
        var repo := repos[i];
        assert repos[..i + 1][..i] == repos[..i];
        var name := repo.slug;
        if name == "" {
          continue;
        }
        var repoKey := "bitbucket-" + name + "-";
        var lastProcessed := if repoKey + "pushed_at" in store then store[repoKey + "pushed_at"] else "";
        if lastProcessed == "" {
          lastProcessed := Epoch;
        }
        if AtMost(repo.lastUpdated, lastProcessed) {
          continue;
        }
        var lastProcessedSave := ProcessRepo(name, lastProcessed);
        // The store keeps the text of whatever it is handed, "None" included.
        store := store[repoKey + "pushed_at" := Render(lastProcessedSave)];
        PostFinished();
      }
      assert repos[..|repos|] == repos;
    }
  }
}
