/**
  The per-repository commit scan, `_process_repo`, as functions over a script of
  history responses. Pages are requested one after another; each request carries
  the `node` of the first commit of the previous page as its cursor. Within a page
  every commit raises the best-seen timestamp; commits whose author carries an
  email in the configured domain are emitted while they are newer than the stored
  checkpoint, and the first one that is not ends the scan.
 */
module SyncEngine {
  import opened Wrappers
  import opened StringOrder
  import opened TzOffset
  import opened Batcher

  /** A changeset as the history call returns it. `utcClock` and `localClock` are
      the parsed `utctimestamp` and `timestamp` fields, time zones dropped. */
  datatype Commit = Commit(node: string, utctimestamp: string, utcClock: int,
                           localClock: int, rawAuthor: string)

  /** A history response: without a `changesets` key, or with its list. */
  datatype Response = NoChangesets | Changesets(changesets: seq<Commit>)

  const System := "bitbucket-commits"

  // ---------------------------------------------------------------------------
  // Author email

  /** `s.split(c)[1]` up to the next `c`: text after the first `c`. */
  function AfterFirst(s: string, c: char): string
    requires c in s
    decreases |s|
  {
    if s[0] == c then s[1..] else AfterFirst(s[1..], c)
  }

  /** The text before the first `c`, or all of `s` (`s.split(c)[0]`). */
  function BeforeFirst(s: string, c: char): (r: string)
    ensures c !in r
    decreases |s|
  {
    if s == [] then []
    else if s[0] == c then []
    else [s[0]] + BeforeFirst(s[1..], c)
  }

  /** `s.replace(c, "")` for one character. */
  function RemoveAll(s: string, c: char): (r: string)
    ensures c !in r
    decreases |s|
  {
    if s == [] then []
    else if s[0] == c then RemoveAll(s[1..], c)
    else [s[0]] + RemoveAll(s[1..], c)
  }

  /** The author email of `raw_author`: absent without a `<`; otherwise the second
      piece of `raw_author.split("<")` (the text between the first `<` and the
      next one) with every `>` removed. */
  function AuthorEmail(raw: string): (r: Option<string>)
    ensures r.None? <==> '<' !in raw
  {
    if '<' in raw then Some(RemoveAll(BeforeFirst(AfterFirst(raw, '<'), '<'), '>')) else None
  }

  /** The email holds no `>`. */
  lemma AuthorEmailHasNoCloser(raw: string)
    requires '<' in raw
    ensures '>' !in AuthorEmail(raw).value
  {
  }

  /** `s.endswith(suffix)`. */
  predicate EndsWith(s: string, suffix: string)
  {
    |suffix| <= |s| && s[|s| - |suffix|..] == suffix
  }

  lemma {:induction false} AfterFirstPrefix(pre: string, c: char, rest: string)
    requires c !in pre
    ensures c in pre + [c] + rest && AfterFirst(pre + [c] + rest, c) == rest
    decreases |pre|
  {
    if pre != [] {
      assert (pre + [c] + rest)[1..] == pre[1..] + [c] + rest;
      AfterFirstPrefix(pre[1..], c, rest);
    }
  }

  lemma {:induction false} BeforeFirstPrefix(mid: string, c: char, rest: string)
    requires c !in mid && (rest == [] || rest[0] == c)
    ensures BeforeFirst(mid + rest, c) == mid
    decreases |mid|
  {
    if mid != [] {
      assert (mid + rest)[1..] == mid[1..] + rest;
      BeforeFirstPrefix(mid[1..], c, rest);
    }
  }

  lemma {:induction false} RemoveAllAppend(a: string, b: string, c: char)
    ensures RemoveAll(a + b, c) == RemoveAll(a, c) + RemoveAll(b, c)
    decreases |a|
  {
    if a != [] {
      assert (a + b)[1..] == a[1..] + b;
      RemoveAllAppend(a[1..], b, c);
    } else {
      assert a + b == b;
    }
  }

  lemma {:induction false} RemoveAllAbsent(s: string, c: char)
    requires c !in s
    ensures RemoveAll(s, c) == s
    decreases |s|
  {
    if s != [] {
      RemoveAllAbsent(s[1..], c);
    }
  }

  /** The email is the text between the first `<` and the next `<` (or the end),
      without its `>` characters; whatever follows a second `<` is ignored. */
  lemma AuthorEmailPiece(name: string, piece: string, rest: string)
    requires '<' !in name && '<' !in piece && (rest == [] || rest[0] == '<')
    ensures AuthorEmail(name + "<" + piece + rest) == Some(RemoveAll(piece, '>'))
  {
    AfterFirstPrefix(name, '<', piece + rest);
    assert name + "<" + piece + rest == name + ['<'] + (piece + rest);
    BeforeFirstPrefix(piece, '<', rest);
  }

  /** `"Name <email>"` gives back `email`. */
  lemma AuthorEmailOfNameAndEmail(name: string, email: string)
    requires '<' !in name && '<' !in email && '>' !in email
    ensures AuthorEmail(name + "<" + email + ">") == Some(email)
  {
    AuthorEmailPiece(name, email + ">", []);
    assert name + "<" + (email + ">") + [] == name + "<" + email + ">";
    RemoveAllAppend(email, ">", '>');
    assert RemoveAll(">", '>') == [];
    RemoveAllAbsent(email, '>');
    assert RemoveAll(email + ">", '>') == email;
  }

  // ---------------------------------------------------------------------------
  // Scanning one page

  /** The author carries a `<` and the extracted email ends with the domain. */
  predicate InDomain(c: Commit, domain: string)
  {
    '<' in c.rawAuthor && EndsWith(AuthorEmail(c.rawAuthor).value, domain)
  }

  /** An in-domain commit that is not newer than the checkpoint: it ends the scan. */
  predicate Boundary(c: Commit, lastProcessed: string, domain: string)
  {
    InDomain(c, domain) && AtMost(c.utctimestamp, lastProcessed)
  }

  /** The event posted for an in-domain commit. */
  function CommitEvent(c: Commit, email: string, name: string): Event
  {
    Event(System, c.utctimestamp, email, name, true, GetTzInfo(c.utcClock, c.localClock))
  }

  datatype Verdict = Skip | Emit(event: Event) | Halt

  /** What the loop body does with one commit once the running maximum is updated. */
  function Examine(c: Commit, name: string, lastProcessed: string, domain: string): Verdict
  {
    var email := AuthorEmail(c.rawAuthor);
    if email.None? || !EndsWith(email.value, domain) then Skip
    else if Below(lastProcessed, c.utctimestamp) then Emit(CommitEvent(c, email.value, name))
    else Halt
  }

  /** Out-of-domain commits are skipped, in-domain ones newer than the checkpoint
      are emitted and the others halt the scan. */
  lemma ExamineVerdict(c: Commit, name: string, lastProcessed: string, domain: string)
    ensures var v := Examine(c, name, lastProcessed, domain);
      && (v.Skip? <==> !InDomain(c, domain))
      && (v.Halt? <==> Boundary(c, lastProcessed, domain))
      && (v.Emit? <==> InDomain(c, domain) && Below(lastProcessed, c.utctimestamp))
      && (v.Emit? ==> v.event == CommitEvent(c, AuthorEmail(c.rawAuthor).value, name))
  {
    NotBelowIsAtMost(c.utctimestamp, lastProcessed);
  }

  /** The outcome of scanning one page: the best-seen timestamp, the events
      posted, the commits looked at, and whether a boundary commit ended it. */
  datatype PageScan = PageScan(best: string, events: seq<Event>, scanned: seq<Commit>, halted: bool)

  /** The `for commit in changesets` loop, from running maximum `best`. */
  function ScanPage(cs: seq<Commit>, name: string, lastProcessed: string, domain: string,
                    best: string): PageScan
    decreases |cs|
  {
    if cs == [] then PageScan(best, [], [], false)
    else
      var best' := Later(best, cs[0].utctimestamp);
      match Examine(cs[0], name, lastProcessed, domain)
      case Halt => PageScan(best', [], [cs[0]], true)
      case Skip =>
        var r := ScanPage(cs[1..], name, lastProcessed, domain, best');
        PageScan(r.best, r.events, [cs[0]] + r.scanned, r.halted)
      case Emit(e) =>
        var r := ScanPage(cs[1..], name, lastProcessed, domain, best');
        PageScan(r.best, [e] + r.events, [cs[0]] + r.scanned, r.halted)
  }

  // ---------------------------------------------------------------------------
  // Scanning the history

  /** The `i`-th response of the script; past its end, a response without changesets. */
  function ResponseAt(resps: seq<Response>, i: nat): Response
  {
    if i < |resps| then resps[i] else NoChangesets
  }

  predicate HasCommits(r: Response)
  {
    r.Changesets? && |r.changesets| > 0
  }

  /** The whole scan: the value returned (`None` when the loop breaks and falls
      off the end), the events posted, the commits looked at and the cursor of
      each history request. */
  datatype ScanRun = ScanRun(result: Option<string>, events: seq<Event>, scanned: seq<Commit>,
                             cursors: seq<Option<string>>)

  /** The `while True` loop from running maximum `best` and cursor `cursor`. */
  function ScanPages(resps: seq<Response>, name: string, lastProcessed: string, domain: string,
                     best: string, cursor: Option<string>): ScanRun
    decreases |resps|
  {
    var resp := ResponseAt(resps, 0);
    if !HasCommits(resp) then ScanRun(None, [], [], [cursor])
    else
      var cs := resp.changesets;
      var p := ScanPage(cs, name, lastProcessed, domain, best);
      if p.halted || |cs| == 1 then ScanRun(Some(p.best), p.events, p.scanned, [cursor])
      else
        var r := ScanPages(resps[1..], name, lastProcessed, domain, p.best, Some(cs[0].node));
        ScanRun(r.result, p.events + r.events, p.scanned + r.scanned, [cursor] + r.cursors)
  }

  /** `_process_repo(name, last_processed)` against the response script `resps`. */
  function Scan(resps: seq<Response>, name: string, lastProcessed: string, domain: string): ScanRun
  {
    ScanPages(resps, name, lastProcessed, domain, lastProcessed, None)
  }
}
