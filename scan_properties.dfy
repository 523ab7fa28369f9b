/**
  What `_process_repo` promises: the checkpoint it returns bounds everything it
  looked at, it emits exactly the in-domain commits newer than the stored
  checkpoint in page order, it stops at the first in-domain commit that is not
  newer, its requests walk back through history by cursor, and a second scan
  from the value it returned emits nothing.
 */
module ScanProperties {
  import opened Wrappers
  import opened StringOrder
  import opened TzOffset
  import opened Batcher
  import opened SyncEngine

  // ---------------------------------------------------------------------------
  // Checkpoint bound

  lemma {:induction false} PageBound(cs: seq<Commit>, name: string, lastProcessed: string,
                                     domain: string, best: string)
    ensures var p := ScanPage(cs, name, lastProcessed, domain, best);
      && AtMost(best, p.best)
      && (forall c :: c in p.scanned ==> AtMost(c.utctimestamp, p.best))
      && (p.best == best || exists c :: c in p.scanned && p.best == c.utctimestamp)
    decreases |cs|
  {
    if cs != [] {
      var best' := Later(best, cs[0].utctimestamp);
      PageBound(cs[1..], name, lastProcessed, domain, best');
      LaterIsMax(best, cs[0].utctimestamp);
      var r := ScanPage(cs[1..], name, lastProcessed, domain, best');
      AtMostTotalOrder(best, best', r.best);
      AtMostTotalOrder(cs[0].utctimestamp, best', r.best);
    }
  }

  lemma {:induction false} ScanPagesBound(resps: seq<Response>, name: string, lastProcessed: string,
                                          domain: string, best: string, cursor: Option<string>)
    ensures var r := ScanPages(resps, name, lastProcessed, domain, best, cursor);
      r.result.Some? ==>
        && AtMost(best, r.result.value)
        && (forall c :: c in r.scanned ==> AtMost(c.utctimestamp, r.result.value))
        && (r.result.value == best || exists c :: c in r.scanned && r.result.value == c.utctimestamp)
    decreases |resps|
  {
    var resp := ResponseAt(resps, 0);
    if HasCommits(resp) {
      var cs := resp.changesets;
      var p := ScanPage(cs, name, lastProcessed, domain, best);
      PageBound(cs, name, lastProcessed, domain, best);
      if !(p.halted || |cs| == 1) {
        var r := ScanPages(resps[1..], name, lastProcessed, domain, p.best, Some(cs[0].node));
        ScanPagesBound(resps[1..], name, lastProcessed, domain, p.best, Some(cs[0].node));
        if r.result.Some? {
          var b := r.result.value;
          AtMostTotalOrder(best, p.best, b);
          forall c | c in p.scanned
            ensures AtMost(c.utctimestamp, b)
          {
            AtMostTotalOrder(c.utctimestamp, p.best, b);
          }
          if b == p.best && p.best != best {
            var c :| c in p.scanned && p.best == c.utctimestamp;
            assert c in p.scanned + r.scanned;
          }
        }
      }
    }
  }

  /** Checkpoint bound: a returned value is at least the stored checkpoint and at
      least every `utctimestamp` looked at, skipped commits included, and it is
      one of those timestamps or the checkpoint itself. */
  lemma CheckpointBound(resps: seq<Response>, name: string, lastProcessed: string, domain: string)
    ensures var r := Scan(resps, name, lastProcessed, domain);
      r.result.Some? ==>
        && AtMost(lastProcessed, r.result.value)
        && (forall c :: c in r.scanned ==> AtMost(c.utctimestamp, r.result.value))
        && (r.result.value == lastProcessed
            || exists c :: c in r.scanned && r.result.value == c.utctimestamp)
  {
    ScanPagesBound(resps, name, lastProcessed, domain, lastProcessed, None);
  }

  // ---------------------------------------------------------------------------
  // Emission rule

  /** Reference definition of the events: one per commit, in order, whose author
      is in the domain and whose timestamp is newer than the checkpoint. */
  function EventsOf(cs: seq<Commit>, name: string, lastProcessed: string, domain: string): seq<Event>
    decreases |cs|
  {
    if cs == [] then []
    else
      (if InDomain(cs[0], domain) && Below(lastProcessed, cs[0].utctimestamp)
       then [CommitEvent(cs[0], AuthorEmail(cs[0].rawAuthor).value, name)] else [])
      + EventsOf(cs[1..], name, lastProcessed, domain)
  }

  lemma {:induction false} EventsOfAppend(a: seq<Commit>, b: seq<Commit>, name: string,
                                          lastProcessed: string, domain: string)
    ensures EventsOf(a + b, name, lastProcessed, domain)
            == EventsOf(a, name, lastProcessed, domain) + EventsOf(b, name, lastProcessed, domain)
    decreases |a|
  {
    if a == [] {
      assert a + b == b;
    } else {
      assert (a + b)[1..] == a[1..] + b;
      EventsOfAppend(a[1..], b, name, lastProcessed, domain);
    }
  }

  lemma {:induction false} PageEvents(cs: seq<Commit>, name: string, lastProcessed: string,
                                      domain: string, best: string)
    ensures var p := ScanPage(cs, name, lastProcessed, domain, best);
      p.events == EventsOf(p.scanned, name, lastProcessed, domain)
    decreases |cs|
  {
    if cs != [] {
      var best' := Later(best, cs[0].utctimestamp);
      var p := ScanPage(cs, name, lastProcessed, domain, best);
      var r := ScanPage(cs[1..], name, lastProcessed, domain, best');
      ExamineVerdict(cs[0], name, lastProcessed, domain);
      PageEvents(cs[1..], name, lastProcessed, domain, best');
      if !Examine(cs[0], name, lastProcessed, domain).Halt? {
        assert ([cs[0]] + r.scanned)[1..] == r.scanned;
      } else {
        NotBelowIsAtMost(cs[0].utctimestamp, lastProcessed);
      }
    }
  }

  lemma {:induction false} ScanPagesEvents(resps: seq<Response>, name: string, lastProcessed: string,
                                           domain: string, best: string, cursor: Option<string>)
    ensures var r := ScanPages(resps, name, lastProcessed, domain, best, cursor);
      r.events == EventsOf(r.scanned, name, lastProcessed, domain)
    decreases |resps|
  {
    var resp := ResponseAt(resps, 0);
    if HasCommits(resp) {
      var cs := resp.changesets;
      var p := ScanPage(cs, name, lastProcessed, domain, best);
      PageEvents(cs, name, lastProcessed, domain, best);
      if !(p.halted || |cs| == 1) {
        var r := ScanPages(resps[1..], name, lastProcessed, domain, p.best, Some(cs[0].node));
        ScanPagesEvents(resps[1..], name, lastProcessed, domain, p.best, Some(cs[0].node));
        EventsOfAppend(p.scanned, r.scanned, name, lastProcessed, domain);
      }
    }
  }

  /** Emission rule: the events posted are exactly, in the order looked at, the
      commits whose author has a `<`, whose email ends with the domain and whose
      timestamp is strictly newer than the stored checkpoint (not the running
      maximum), each carrying system "bitbucket-commits", the email as username,
      the repository as data and `is_utc` set. */
  lemma EmissionRule(resps: seq<Response>, name: string, lastProcessed: string, domain: string)
    ensures var r := Scan(resps, name, lastProcessed, domain);
      r.events == EventsOf(r.scanned, name, lastProcessed, domain)
  {
    ScanPagesEvents(resps, name, lastProcessed, domain, lastProcessed, None);
  }

  /** Each event in `EventsOf` comes from an in-domain commit newer than the
      checkpoint and carries that commit's fields and time-zone offset. */
  lemma {:induction false} EventsOfFields(cs: seq<Commit>, name: string, lastProcessed: string,
                                          domain: string, e: Event)
    requires e in EventsOf(cs, name, lastProcessed, domain)
    ensures exists c :: (c in cs && InDomain(c, domain) && Below(lastProcessed, c.utctimestamp)
      && e == Event("bitbucket-commits", c.utctimestamp, AuthorEmail(c.rawAuthor).value, name,
                    true, GetTzInfo(c.utcClock, c.localClock)))
    decreases |cs|
  {
    if e !in EventsOf(cs[1..], name, lastProcessed, domain) {
      assert InDomain(cs[0], domain) && Below(lastProcessed, cs[0].utctimestamp);
      assert cs[0] in cs;
    } else {
      EventsOfFields(cs[1..], name, lastProcessed, domain, e);
      var c :| c in cs[1..] && InDomain(c, domain) && Below(lastProcessed, c.utctimestamp)
        && e == Event("bitbucket-commits", c.utctimestamp, AuthorEmail(c.rawAuthor).value, name,
                      true, GetTzInfo(c.utcClock, c.localClock));
      assert c in cs;
    }
  }

  // ---------------------------------------------------------------------------
  // Stop rule

  lemma Associative<T>(a: seq<T>, b: seq<T>, c: seq<T>)
    ensures a + (b + c) == a + b + c
  {
  }

  /** Some commit of `cs` is in the domain and not newer than the checkpoint. */
  predicate HasBoundary(cs: seq<Commit>, lastProcessed: string, domain: string)
    decreases |cs|
  {
    cs != [] && (Boundary(cs[0], lastProcessed, domain) || HasBoundary(cs[1..], lastProcessed, domain))
  }

  /** Reference definition of the commits looked at: everything up to and
      including the first boundary commit, page breaks ignored. */
  function UpToBoundary(cs: seq<Commit>, lastProcessed: string, domain: string): seq<Commit>
    decreases |cs|
  {
    if cs == [] then []
    else if Boundary(cs[0], lastProcessed, domain) then [cs[0]]
    else [cs[0]] + UpToBoundary(cs[1..], lastProcessed, domain)
  }

  function CommitsOf(r: Response): seq<Commit>
  {
    if r.Changesets? then r.changesets else []
  }

  /** The commits of the first `k` responses of the script, in order. */
  function Consumed(resps: seq<Response>, k: nat): seq<Commit>
    decreases k
  {
    if k == 0 then []
    else CommitsOf(ResponseAt(resps, 0)) + Consumed(if resps == [] then [] else resps[1..], k - 1)
  }

  lemma {:induction false} HasBoundaryAppend(a: seq<Commit>, b: seq<Commit>, lastProcessed: string,
                                             domain: string)
    ensures HasBoundary(a + b, lastProcessed, domain)
            == (HasBoundary(a, lastProcessed, domain) || HasBoundary(b, lastProcessed, domain))
    decreases |a|
  {
    if a == [] {
      assert a + b == b;
    } else {
      var ab := a + b;
      assert ab[0] == a[0] && ab[1..] == a[1..] + b;
      HasBoundaryAppend(a[1..], b, lastProcessed, domain);
    }
  }

  lemma {:induction false} UpToBoundaryAppend(a: seq<Commit>, b: seq<Commit>, lastProcessed: string,
                                              domain: string)
    requires !HasBoundary(a, lastProcessed, domain)
    ensures UpToBoundary(a + b, lastProcessed, domain) == a + UpToBoundary(b, lastProcessed, domain)
    decreases |a|
  {
    if a == [] {
      assert a + b == b;
    } else {
      var ab := a + b;
      var tail := UpToBoundary(b, lastProcessed, domain);
      assert ab[0] == a[0] && ab[1..] == a[1..] + b;
      assert !Boundary(a[0], lastProcessed, domain);
      assert UpToBoundary(ab, lastProcessed, domain) == [a[0]] + UpToBoundary(a[1..] + b, lastProcessed, domain);
      UpToBoundaryAppend(a[1..], b, lastProcessed, domain);
      Associative([a[0]], a[1..], tail);
      assert [a[0]] + a[1..] == a;
    }
  }

  /** What `UpToBoundary` keeps: a prefix, free of boundary commits except
      possibly its last, which is one exactly when there is any. */
  lemma {:induction false} UpToBoundaryShape(cs: seq<Commit>, lastProcessed: string, domain: string)
    ensures var s := UpToBoundary(cs, lastProcessed, domain);
      && |s| <= |cs| && s == cs[..|s|]
      && (forall i :: 0 <= i < |s| - 1 ==> !Boundary(s[i], lastProcessed, domain))
      && (HasBoundary(cs, lastProcessed, domain) <==> s != [] && Boundary(s[|s| - 1], lastProcessed, domain))
      && (!HasBoundary(cs, lastProcessed, domain) ==> s == cs)
    decreases |cs|
  {
    if cs != [] && !Boundary(cs[0], lastProcessed, domain) {
      UpToBoundaryShape(cs[1..], lastProcessed, domain);
      var t := UpToBoundary(cs[1..], lastProcessed, domain);
      var s := [cs[0]] + t;
      assert cs == [cs[0]] + cs[1..];
      forall i | 0 <= i < |s| - 1
        ensures !Boundary(s[i], lastProcessed, domain)
      {
        if i > 0 {
          assert s[i] == t[i - 1];
        }
      }
      if t != [] {
        assert s[|s| - 1] == t[|t| - 1];
      }
    }
  }

  lemma {:induction false} PageStop(cs: seq<Commit>, name: string, lastProcessed: string,
                                    domain: string, best: string)
    ensures var p := ScanPage(cs, name, lastProcessed, domain, best);
      && p.scanned == UpToBoundary(cs, lastProcessed, domain)
      && p.halted == HasBoundary(cs, lastProcessed, domain)
    decreases |cs|
  {
    if cs != [] {
      var best' := Later(best, cs[0].utctimestamp);
      ExamineVerdict(cs[0], name, lastProcessed, domain);
      PageStop(cs[1..], name, lastProcessed, domain, best');
    }
  }

  lemma {:induction false} ScanPagesStop(resps: seq<Response>, name: string, lastProcessed: string,
                                         domain: string, best: string, cursor: Option<string>)
    ensures var r := ScanPages(resps, name, lastProcessed, domain, best, cursor);
      r.scanned == UpToBoundary(Consumed(resps, |r.cursors|), lastProcessed, domain)
    decreases |resps|
  {
    var whole := ScanPages(resps, name, lastProcessed, domain, best, cursor);
    var resp := ResponseAt(resps, 0);
    if !HasCommits(resp) {
      assert whole == ScanRun(None, [], [], [cursor]);
      assert Consumed(resps, 1) == CommitsOf(resp) == [];
    } else {
      var cs := resp.changesets;
      var p := ScanPage(cs, name, lastProcessed, domain, best);
      PageStop(cs, name, lastProcessed, domain, best);
      assert Consumed(resps, 1) == cs + Consumed(resps[1..], 0) == cs;
      if p.halted || |cs| == 1 {
        assert whole == ScanRun(Some(p.best), p.events, p.scanned, [cursor]);
      } else {
        var r := ScanPages(resps[1..], name, lastProcessed, domain, p.best, Some(cs[0].node));
        assert whole == ScanRun(r.result, p.events + r.events, p.scanned + r.scanned, [cursor] + r.cursors);
        ScanPagesStop(resps[1..], name, lastProcessed, domain, p.best, Some(cs[0].node));
        var k := |r.cursors|;
        var rest := Consumed(resps[1..], k);
        assert Consumed(resps, k + 1) == cs + rest;
        UpToBoundaryAppend(cs, rest, lastProcessed, domain);
        UpToBoundaryAppend(cs, [], lastProcessed, domain);
        assert cs + [] == cs;
        assert whole.scanned == cs + UpToBoundary(rest, lastProcessed, domain);
        assert |whole.cursors| == k + 1;
      }
    }
  }

  lemma {:induction false} ScanPagesHalt(resps: seq<Response>, name: string, lastProcessed: string,
                                         domain: string, best: string, cursor: Option<string>)
    ensures var r := ScanPages(resps, name, lastProcessed, domain, best, cursor);
      var fetched := Consumed(resps, |r.cursors|);
      var last := ResponseAt(resps, |r.cursors| - 1);
      && |r.cursors| >= 1
      && (HasBoundary(fetched, lastProcessed, domain) ==> r.result.Some?)
      && (r.result.Some? ==>
            HasCommits(last) && (|last.changesets| == 1 || HasBoundary(fetched, lastProcessed, domain)))
    decreases |resps|
  {
    var whole := ScanPages(resps, name, lastProcessed, domain, best, cursor);
    var resp := ResponseAt(resps, 0);
    if !HasCommits(resp) {
      assert whole == ScanRun(None, [], [], [cursor]);
      assert Consumed(resps, 1) == CommitsOf(resp) == [];
    } else {
      var cs := resp.changesets;
      var p := ScanPage(cs, name, lastProcessed, domain, best);
      PageStop(cs, name, lastProcessed, domain, best);
      assert Consumed(resps, 1) == cs + Consumed(resps[1..], 0) == cs;
      if p.halted || |cs| == 1 {
        assert whole == ScanRun(Some(p.best), p.events, p.scanned, [cursor]);
      } else {
        var r := ScanPages(resps[1..], name, lastProcessed, domain, p.best, Some(cs[0].node));
        assert whole == ScanRun(r.result, p.events + r.events, p.scanned + r.scanned, [cursor] + r.cursors);
        ScanPagesHalt(resps[1..], name, lastProcessed, domain, p.best, Some(cs[0].node));
        var k := |r.cursors|;
        assert Consumed(resps, k + 1) == cs + Consumed(resps[1..], k);
        assert ResponseAt(resps, k) == ResponseAt(resps[1..], k - 1);
        HasBoundaryAppend(cs, Consumed(resps[1..], k), lastProcessed, domain);
      }
    }
  }

  /** Stop rule: the commits looked at are those of the pages fetched up to and
      including the first in-domain commit that is not newer than the checkpoint
      (so no later commit, in its page or a later one, is examined, and
      out-of-domain commits never stop the scan); when there is such a commit the
      scan returns a value; a scan that returns a value ended on such a commit or
      on a page of exactly one commit. */
  lemma StopRule(resps: seq<Response>, name: string, lastProcessed: string, domain: string)
    ensures var r := Scan(resps, name, lastProcessed, domain);
      var fetched := Consumed(resps, |r.cursors|);
      var last := ResponseAt(resps, |r.cursors| - 1);
      && r.scanned == UpToBoundary(fetched, lastProcessed, domain)
      && (HasBoundary(fetched, lastProcessed, domain) ==> r.result.Some?)
      && (r.result.Some? ==>
            HasCommits(last) && (|last.changesets| == 1 || HasBoundary(fetched, lastProcessed, domain)))
  {
    ScanPagesStop(resps, name, lastProcessed, domain, lastProcessed, None);
    ScanPagesHalt(resps, name, lastProcessed, domain, lastProcessed, None);
  }

  // ---------------------------------------------------------------------------
  // Termination and cursor

  lemma {:induction false} ScanPagesRequests(resps: seq<Response>, name: string, lastProcessed: string,
                                             domain: string, best: string, cursor: Option<string>)
    ensures var r := ScanPages(resps, name, lastProcessed, domain, best, cursor);
      var k := |r.cursors|;
      && 1 <= k <= |resps| + 1
      && r.cursors[0] == cursor
      && (forall j :: 0 <= j < k - 1 ==>
            HasCommits(ResponseAt(resps, j)) && |ResponseAt(resps, j).changesets| > 1
            && r.cursors[j + 1] == Some(ResponseAt(resps, j).changesets[0].node))
      && (r.result.None? <==> !HasCommits(ResponseAt(resps, k - 1)))
    decreases |resps|
  {
    var resp := ResponseAt(resps, 0);
    if HasCommits(resp) {
      var cs := resp.changesets;
      var p := ScanPage(cs, name, lastProcessed, domain, best);
      if !(p.halted || |cs| == 1) {
        var r := ScanPages(resps[1..], name, lastProcessed, domain, p.best, Some(cs[0].node));
        ScanPagesRequests(resps[1..], name, lastProcessed, domain, p.best, Some(cs[0].node));
        var k := |r.cursors|;
        assert |resps[1..]| == |resps| - 1;
        var all := [cursor] + r.cursors;
        forall j | 0 <= j < k
          ensures HasCommits(ResponseAt(resps, j)) && |ResponseAt(resps, j).changesets| > 1
          ensures all[j + 1] == Some(ResponseAt(resps, j).changesets[0].node)
        {
          if j > 0 {
            assert ResponseAt(resps, j) == ResponseAt(resps[1..], j - 1);
            assert all[j + 1] == r.cursors[j];
          }
        }
        assert ResponseAt(resps, k) == ResponseAt(resps[1..], k - 1);
      }
    }
  }

  /** No page is requested after one that holds a boundary commit: every page
      but the last one fetched is free of them. */
  lemma {:induction false} ScanPagesNoRequestPastBoundary(resps: seq<Response>, name: string,
                                                          lastProcessed: string, domain: string,
                                                          best: string, cursor: Option<string>)
    ensures var r := ScanPages(resps, name, lastProcessed, domain, best, cursor);
      forall j :: 0 <= j < |r.cursors| - 1 ==>
        !HasBoundary(CommitsOf(ResponseAt(resps, j)), lastProcessed, domain)
    decreases |resps|
  {
    var resp := ResponseAt(resps, 0);
    if HasCommits(resp) {
      var cs := resp.changesets;
      var p := ScanPage(cs, name, lastProcessed, domain, best);
      if !(p.halted || |cs| == 1) {
        PageStop(cs, name, lastProcessed, domain, best);
        var r := ScanPages(resps[1..], name, lastProcessed, domain, p.best, Some(cs[0].node));
        ScanPagesNoRequestPastBoundary(resps[1..], name, lastProcessed, domain, p.best, Some(cs[0].node));
        forall j | 0 < j < |r.cursors|
          ensures !HasBoundary(CommitsOf(ResponseAt(resps, j)), lastProcessed, domain)
        {
          assert ResponseAt(resps, j) == ResponseAt(resps[1..], j - 1);
        }
      }
    }
  }

  /** Cursor and termination: the first request carries no cursor; every later
      one carries the `node` of the first commit of the page before it, a page of
      more than one commit and without a boundary commit; the scan returns
      `None` exactly when the last response fetched has no `changesets` or an
      empty list. */
  lemma Requests(resps: seq<Response>, name: string, lastProcessed: string, domain: string)
    ensures var r := Scan(resps, name, lastProcessed, domain);
      var k := |r.cursors|;
      && 1 <= k <= |resps| + 1
      && r.cursors[0] == None
      && (forall j :: 0 <= j < k - 1 ==>
            HasCommits(ResponseAt(resps, j)) && |ResponseAt(resps, j).changesets| > 1
            && !HasBoundary(CommitsOf(ResponseAt(resps, j)), lastProcessed, domain)
            && r.cursors[j + 1] == Some(ResponseAt(resps, j).changesets[0].node))
      && (r.result.None? <==> !HasCommits(ResponseAt(resps, k - 1)))
  {
    ScanPagesRequests(resps, name, lastProcessed, domain, lastProcessed, None);
    ScanPagesNoRequestPastBoundary(resps, name, lastProcessed, domain, lastProcessed, None);
  }

  // ---------------------------------------------------------------------------
  // Rescanning

  /** A page rescanned from a checkpoint at least the best value of an earlier
      scan posts nothing, and it halts whenever the earlier scan did. */
  lemma {:induction false} PageRescan(cs: seq<Commit>, name: string, lp1: string, best1: string,
                                      lp2: string, best2: string, domain: string)
    requires AtMost(ScanPage(cs, name, lp1, domain, best1).best, lp2)
    ensures var p1 := ScanPage(cs, name, lp1, domain, best1);
      var p2 := ScanPage(cs, name, lp2, domain, best2);
      p2.events == [] && (p1.halted ==> p2.halted)
    decreases |cs|
  {
    if cs != [] {
      var c := cs[0];
      var b1 := Later(best1, c.utctimestamp);
      var b2 := Later(best2, c.utctimestamp);
      var r1 := ScanPage(cs[1..], name, lp1, domain, b1);
      var p1 := ScanPage(cs, name, lp1, domain, best1);
      LaterIsMax(best1, c.utctimestamp);
      PageBound(cs[1..], name, lp1, domain, b1);
      ExamineVerdict(c, name, lp1, domain);
      ExamineVerdict(c, name, lp2, domain);
      if Examine(c, name, lp1, domain).Halt? {
        assert p1.best == b1;
      } else {
        assert p1.best == r1.best;
      }
      AtMostTotalOrder(c.utctimestamp, b1, p1.best);
      AtMostTotalOrder(c.utctimestamp, p1.best, lp2);
      NotBelowIsAtMost(c.utctimestamp, lp2);
      if !InDomain(c, domain) {
        PageRescan(cs[1..], name, lp1, b1, lp2, b2, domain);
      }
    }
  }

  lemma {:induction false} ScanPagesRescan(resps: seq<Response>, name: string, lp1: string, best1: string,
                                           lp2: string, best2: string, domain: string,
                                           cursor: Option<string>)
    requires var r := ScanPages(resps, name, lp1, domain, best1, cursor);
      r.result.Some? && AtMost(r.result.value, lp2)
    ensures var r2 := ScanPages(resps, name, lp2, domain, best2, cursor);
      r2.events == [] && r2.result.Some?
    decreases |resps|
  {
    var resp := ResponseAt(resps, 0);
    var cs := resp.changesets;
    var p1 := ScanPage(cs, name, lp1, domain, best1);
    var p2 := ScanPage(cs, name, lp2, domain, best2);
    var b := ScanPages(resps, name, lp1, domain, best1, cursor).result.value;
    if p1.halted || |cs| == 1 {
      assert b == p1.best;
    } else {
      ScanPagesBound(resps[1..], name, lp1, domain, p1.best, Some(cs[0].node));
      AtMostTotalOrder(p1.best, b, lp2);
    }
    PageRescan(cs, name, lp1, best1, lp2, best2, domain);
    if !(p1.halted || |cs| == 1) && !p2.halted {
      ScanPagesRescan(resps[1..], name, lp1, p1.best, lp2, p2.best, domain, Some(cs[0].node));
    }
  }

  /** Idempotence: scanning the same history again from the value a scan
      returned (or from any later checkpoint) posts no event, and it again
      returns a value. */
  lemma RescanEmitsNothing(resps: seq<Response>, name: string, lp1: string, lp2: string, domain: string)
    requires var r := Scan(resps, name, lp1, domain);
      r.result.Some? && AtMost(r.result.value, lp2)
    ensures Scan(resps, name, lp2, domain).events == []
    ensures Scan(resps, name, lp2, domain).result.Some?
  {
    ScanPagesRescan(resps, name, lp1, lp1, lp2, lp2, domain, None);
  }

  /** A history of one commit is scanned with a single request, which returns
      the later of the checkpoint and that commit's timestamp. */
  lemma SingleCommitHistory(c: Commit, rest: seq<Response>, name: string, lastProcessed: string,
                            domain: string)
    ensures var r := Scan([Changesets([c])] + rest, name, lastProcessed, domain);
      r.cursors == [None] && r.result == Some(Later(lastProcessed, c.utctimestamp))
      && r.scanned == [c]
  {
    var resps := [Changesets([c])] + rest;
    var cs := [c];
    assert ResponseAt(resps, 0) == Changesets(cs);
    var p := ScanPage(cs, name, lastProcessed, domain, lastProcessed);
    var best' := Later(lastProcessed, c.utctimestamp);
    assert cs[1..] == [];
    assert ScanPage(cs[1..], name, lastProcessed, domain, best') == PageScan(best', [], [], false);
  }
}
