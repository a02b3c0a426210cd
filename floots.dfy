/**
  The retention sweeper of floots (main.go): it fetches the statuses of the
  account it is logged in as, and for every status older than the age limit
  that no exclusion rule protects it prints a notice and, unless this is a dry
  run, asks the server to delete it.

  The Mastodon client is not modelled: its answers are supplied in a `Client`
  value (the account lookup, the status list for an account ID, the reply to
  the k-th delete call), and what the sweep does to the outside world is
  recorded as a trace of `Event`s. The wall clock read by `time.Since` is a
  function giving the time at which the i-th fetched status is examined.
  Times and durations are integers counting nanoseconds.
*/
module Floots {
  import opened GoStrings

  datatype Option<T> = None | Some(value: T)

  /** A Go `error`: only its message is observable. */
  datatype Error = Error(message: string)

  datatype Result<T> = Ok(value: T) | Err(error: Error)

  /** A status as the client returns it: its ID, its content, and its creation time. */
  datatype Post = Post(id: string, content: string, createdAt: int)

  /** What the sweep does that can be observed: a printed notice, or a delete request. */
  datatype Event =
    | Notice(content: string, createdAt: int)
    | Delete(id: string)

  /** The process-wide settings `main` stores in the globals `excludeStr` and `dryRun`. */
  datatype Config = Config(excludeStr: seq<string>, dryRun: bool)

  /**
    The answers of the Mastodon client: GetAccountCurrentUser (the account's
    ID or an error), GetAccountStatuses for an account ID, and the reply
    (nil or an error) to the k-th DeleteStatus call of the sweep.
  */
  datatype Client = Client(
    currentAccount: Result<string>,
    statuses: string -> Result<seq<Post>>,
    deleteReply: nat -> Option<Error>)

  // ---------------------------------------------------------------------------
  // Exclusion rules

  /** A rule protects a status when it occurs in the content or is the status's ID. */
  predicate Matches(rule: string, p: Post) {
    Contains(p.content, rule) || p.id == rule
  }

  /** Some configured rule protects the status. */
  predicate Excluded(rules: seq<string>, p: Post) {
    exists r :: r in rules && Matches(r, p)
  }

  /** isExcluded: the rules are tried in order and the first match answers true. */
  method IsExcluded(rules: seq<string>, p: Post) returns (excluded: bool)
    ensures excluded == Excluded(rules, p)
  {
    for i := 0 to |rules|
      invariant forall j :: 0 <= j < i ==> !Matches(rules[j], p)
    {
      if Contains(p.content, rules[i]) || p.id == rules[i] {
        assert Matches(rules[i], p);
        return true;
      }
    }
    return false;
  }

  /** With no rules, nothing is protected. */
  lemma NoRulesExcludeNothing(p: Post)
    ensures !Excluded([], p)
  {
  }

  /** A protected status is protected by a substring of its content or by its own ID, and conversely. */
  lemma ExcludedIff(rules: seq<string>, p: Post)
    ensures Excluded(rules, p) <==>
      exists j :: 0 <= j < |rules| && ((exists i :: OccursAt(p.content, rules[j], i)) || p.id == rules[j])
  {
    if Excluded(rules, p) {
      var r :| r in rules && Matches(r, p);
      var j :| 0 <= j < |rules| && rules[j] == r;
      assert Matches(rules[j], p);
    }
    if j :| 0 <= j < |rules| && ((exists i :: OccursAt(p.content, rules[j], i)) || p.id == rules[j]) {
      assert Matches(rules[j], p);
    }
  }

  /** An empty rule occurs in every content, so it protects every status. */
  lemma EmptyRuleExcludesAll(rules: seq<string>, p: Post)
    requires "" in rules
    ensures Excluded(rules, p)
  {
    ContainsEmpty(p.content);
    assert Matches("", p);
  }

  // ---------------------------------------------------------------------------
  // Reading the exclusion list (main.go line 80)

  /** The separator of the FLOOTS_EXCLUDE value. */
  const ExcludeSeparator: char := ':'

  /**
    `strings.Split(os.Getenv("FLOOTS_EXCLUDE"), ":")`, as written: the list is
    never empty, and it is exactly the colon-free pieces that join to the value.
  */
  function ExcludeRules(env: string): (rules: seq<string>)
    ensures |rules| >= 1
    ensures forall j :: 0 <= j < |rules| ==> ExcludeSeparator !in rules[j]
    ensures Join(rules, ExcludeSeparator) == env
  {
    Split(env, ExcludeSeparator)
  }

  /**
    As written, an empty FLOOTS_EXCLUDE yields one empty rule, which protects
    every status: the sweep then deletes nothing, and the "no exclude tags
    defined" branch can never be taken.
  */
  lemma EmptyExcludeProtectsEverything(p: Post)
    ensures ExcludeRules("") == [""]
    ensures |ExcludeRules("")| != 0
    ensures Excluded(ExcludeRules(""), p)
  {
    EmptyRuleExcludesAll(ExcludeRules(""), p);
  }

  /** The pieces that are not empty, in order. */
  function NonEmptyPieces(pieces: seq<string>): (r: seq<string>)
    ensures forall x :: x in r <==> x in pieces && x != ""
    ensures |r| <= |pieces|
  {
    if pieces == [] then []
    else (if pieces[0] == "" then [] else [pieces[0]]) + NonEmptyPieces(pieces[1..])
  }

  /**
    The exclusion list as evidently intended: the colon-separated rules with
    empty pieces dropped, so that an empty value means "no rules".
  */
  function IntendedExcludeRules(env: string): (rules: seq<string>)
    ensures env == "" ==> rules == []
    ensures "" !in rules
    ensures forall r :: r in rules <==> r in ExcludeRules(env) && r != ""
  {
    NonEmptyPieces(ExcludeRules(env))
  }

  /**
    With the intended reading, an empty FLOOTS_EXCLUDE protects nothing, and a
    status is protected exactly when a non-empty rule of the value protects it.
  */
  lemma IntendedExcludeRulesProtect(env: string, p: Post)
    ensures env == "" ==> !Excluded(IntendedExcludeRules(env), p)
    ensures Excluded(IntendedExcludeRules(env), p) <==>
      exists r :: r in ExcludeRules(env) && r != "" && Matches(r, p)
  {
    if env == "" {
      NoRulesExcludeNothing(p);
    }
  }

  // ---------------------------------------------------------------------------
  // The sweep

  /** A status is deleted when `time.Since(createdAt) > ageLimit` and no rule protects it. */
  predicate Qualifies(p: Post, now: int, ageLimit: int, rules: seq<string>) {
    now - p.createdAt > ageLimit && !Excluded(rules, p)
  }

  /** What handling a qualifying status emits: a notice, then a delete request unless this is a dry run. */
  function EventsFor(p: Post, dryRun: bool): seq<Event> {
    [Notice(p.content, p.createdAt)] + (if dryRun then [] else [Delete(p.id)])
  }

  /** What examining the first `n` fetched statuses emits, in fetch order. */
  function SweepEvents(posts: seq<Post>, clock: nat -> int, ageLimit: int, cfg: Config, n: nat): seq<Event>
    requires n <= |posts|
  {
    if n == 0 then []
    else
      var before := SweepEvents(posts, clock, ageLimit, cfg, n - 1);
      if Qualifies(posts[n - 1], clock(n - 1), ageLimit, cfg.excludeStr) then
        before + EventsFor(posts[n - 1], cfg.dryRun)
      else before
  }

  /** The statuses among the first `n` fetched that qualify, in fetch order. */
  function Chosen(posts: seq<Post>, clock: nat -> int, ageLimit: int, rules: seq<string>, n: nat): seq<Post>
    requires n <= |posts|
  {
    if n == 0 then []
    else
      var before := Chosen(posts, clock, ageLimit, rules, n - 1);
      if Qualifies(posts[n - 1], clock(n - 1), ageLimit, rules) then before + [posts[n - 1]] else before
  }

  /** The events of handling each of the given statuses, one after the other. */
  function Handled(ps: seq<Post>, dryRun: bool): seq<Event> {
    if ps == [] then [] else Handled(ps[..|ps| - 1], dryRun) + EventsFor(ps[|ps| - 1], dryRun)
  }

  /** The sweep emits the events of handling the chosen statuses, in fetch order, and nothing else. */
  lemma {:induction false} SweepIsHandled(posts: seq<Post>, clock: nat -> int, ageLimit: int, cfg: Config, n: nat)
    requires n <= |posts|
    ensures SweepEvents(posts, clock, ageLimit, cfg, n) == Handled(Chosen(posts, clock, ageLimit, cfg.excludeStr, n), cfg.dryRun)
  {
    if n > 0 {
      SweepIsHandled(posts, clock, ageLimit, cfg, n - 1);
      var before := Chosen(posts, clock, ageLimit, cfg.excludeStr, n - 1);
      if Qualifies(posts[n - 1], clock(n - 1), ageLimit, cfg.excludeStr) {
        assert (before + [posts[n - 1]])[..|before|] == before;
      }
    }
  }

  /**
    Handling statuses one after the other, read off position by position: in a
    dry run, the j-th event is the notice of the j-th status; otherwise events
    2j and 2j+1 are the notice of the j-th status and the delete request for
    its ID. There are no other events.
  */
  lemma {:induction false} HandledAt(ps: seq<Post>, dryRun: bool)
    ensures var trace := Handled(ps, dryRun);
      && |trace| == (if dryRun then |ps| else 2 * |ps|)
      && (dryRun ==> forall j :: 0 <= j < |ps| ==> trace[j] == Notice(ps[j].content, ps[j].createdAt))
      && (!dryRun ==> forall j :: 0 <= j < |ps| ==>
            trace[2 * j] == Notice(ps[j].content, ps[j].createdAt) && trace[2 * j + 1] == Delete(ps[j].id))
  {
    if ps != [] {
      var init := ps[..|ps| - 1];
      HandledAt(init, dryRun);
      var before := Handled(init, dryRun);
      var trace := Handled(ps, dryRun);
      assert trace == before + EventsFor(ps[|ps| - 1], dryRun);
      assert forall j :: 0 <= j < |init| ==> ps[j] == init[j];
    }
  }

  /** The positions among the first `n` fetched statuses that qualify, in fetch order. */
  function SelectedIndices(posts: seq<Post>, clock: nat -> int, ageLimit: int, rules: seq<string>, n: nat): seq<nat>
    requires n <= |posts|
  {
    if n == 0 then []
    else
      var before := SelectedIndices(posts, clock, ageLimit, rules, n - 1);
      if Qualifies(posts[n - 1], clock(n - 1), ageLimit, rules) then before + [n - 1] else before
  }

  /**
    The selected positions are below `n` and strictly increasing, so each
    comes once and in fetch order, and a position is selected exactly when
    the status there is older than the limit, strictly, and not protected: a
    status whose age equals the limit is never selected.
  */
  lemma {:induction false} SelectedIff(posts: seq<Post>, clock: nat -> int, ageLimit: int, rules: seq<string>, n: nat)
    requires n <= |posts|
    ensures var idx := SelectedIndices(posts, clock, ageLimit, rules, n);
      && (forall j :: 0 <= j < |idx| ==> idx[j] < n)
      && (forall j, k :: 0 <= j < k < |idx| ==> idx[j] < idx[k])
      && (forall i :: 0 <= i < n ==> (i in idx <==> Qualifies(posts[i], clock(i), ageLimit, rules)))
  {
    if n > 0 {
      SelectedIff(posts, clock, ageLimit, rules, n - 1);
      var before := SelectedIndices(posts, clock, ageLimit, rules, n - 1);
      if Qualifies(posts[n - 1], clock(n - 1), ageLimit, rules) {
        var idx := before + [n - 1];
        assert forall j :: 0 <= j < |before| ==> idx[j] == before[j];
        assert forall i :: i in idx <==> i in before || i == n - 1;
      }
    }
  }

  /** The chosen statuses are the statuses at the selected positions, one by one. */
  lemma {:induction false} ChosenAt(posts: seq<Post>, clock: nat -> int, ageLimit: int, rules: seq<string>, n: nat)
    requires n <= |posts|
    ensures var idx := SelectedIndices(posts, clock, ageLimit, rules, n);
      var chosen := Chosen(posts, clock, ageLimit, rules, n);
      && |chosen| == |idx|
      && forall j :: 0 <= j < |idx| ==> idx[j] < |posts| && chosen[j] == posts[idx[j]]
  {
    if n > 0 {
      ChosenAt(posts, clock, ageLimit, rules, n - 1);
      var before := SelectedIndices(posts, clock, ageLimit, rules, n - 1);
      var chosenBefore := Chosen(posts, clock, ageLimit, rules, n - 1);
      if Qualifies(posts[n - 1], clock(n - 1), ageLimit, rules) {
        var idx, chosen := before + [n - 1], chosenBefore + [posts[n - 1]];
        assert forall j :: 0 <= j < |before| ==> idx[j] == before[j] && chosen[j] == chosenBefore[j];
      }
    }
  }

  /** Distinct statuses have distinct IDs, as the server's do. */
  ghost predicate DistinctIds(posts: seq<Post>) {
    forall i, j :: 0 <= i < j < |posts| ==> posts[i].id != posts[j].id
  }

  /** Under distinct IDs, two positions with the same ID are the same position. */
  lemma DistinctAt(posts: seq<Post>, i: nat, k: nat)
    requires DistinctIds(posts) && i < |posts| && k < |posts|
    ensures posts[i].id == posts[k].id ==> i == k
  {
    if k < i {
      assert posts[k].id != posts[i].id;
    } else if i < k {
      assert posts[i].id != posts[k].id;
    }
  }

  /** Every event of handling the given statuses belongs to one of them: event k to status k / 2, or to status k in a dry run. */
  lemma HandledEvent(ps: seq<Post>, dryRun: bool, k: nat)
    requires k < |Handled(ps, dryRun)|
    ensures var trace := Handled(ps, dryRun);
      var j := if dryRun then k else k / 2;
      && j < |ps|
      && (trace[k].Delete? ==> !dryRun && k == 2 * j + 1 && trace[k].id == ps[j].id)
  {
    HandledAt(ps, dryRun);
  }

  /**
    In a real run every qualifying status is announced and then requested for
    deletion, whatever the other statuses' IDs are.
  */
  lemma QualifyingDeleted(posts: seq<Post>, clock: nat -> int, ageLimit: int, cfg: Config, i: nat)
    requires i < |posts|
    requires !cfg.dryRun && Qualifies(posts[i], clock(i), ageLimit, cfg.excludeStr)
    ensures var trace := SweepEvents(posts, clock, ageLimit, cfg, |posts|);
      exists k :: 0 <= k < |trace| - 1
        && trace[k] == Notice(posts[i].content, posts[i].createdAt) && trace[k + 1] == Delete(posts[i].id)
  {
    var rules, n := cfg.excludeStr, |posts|;
    var chosen := Chosen(posts, clock, ageLimit, rules, n);
    var idx := SelectedIndices(posts, clock, ageLimit, rules, n);
    var trace := SweepEvents(posts, clock, ageLimit, cfg, n);
    SweepIsHandled(posts, clock, ageLimit, cfg, n);
    ChosenAt(posts, clock, ageLimit, rules, n);
    SelectedIff(posts, clock, ageLimit, rules, n);
    assert i in idx;
    var j :| 0 <= j < |idx| && idx[j] == i;
    HandledAt(chosen, cfg.dryRun);
    assert trace[2 * j] == Notice(posts[i].content, posts[i].createdAt);
    assert trace[2 * j + 1] == Delete(posts[i].id);
  }

  /**
    When IDs are distinct, the sweep sends a delete request for a status
    exactly when this is not a dry run and the status qualifies: a status
    whose age equals the limit, or that a rule protects, is never deleted.
  */
  lemma DeletedIff(posts: seq<Post>, clock: nat -> int, ageLimit: int, cfg: Config, i: nat)
    requires i < |posts|
    requires DistinctIds(posts)
    ensures Delete(posts[i].id) in SweepEvents(posts, clock, ageLimit, cfg, |posts|)
        <==> !cfg.dryRun && Qualifies(posts[i], clock(i), ageLimit, cfg.excludeStr)
  {
    var rules, n := cfg.excludeStr, |posts|;
    var chosen := Chosen(posts, clock, ageLimit, rules, n);
    var idx := SelectedIndices(posts, clock, ageLimit, rules, n);
    var trace := SweepEvents(posts, clock, ageLimit, cfg, n);
    SweepIsHandled(posts, clock, ageLimit, cfg, n);
    ChosenAt(posts, clock, ageLimit, rules, n);
    SelectedIff(posts, clock, ageLimit, rules, n);
    if Delete(posts[i].id) in trace {
      var k :| 0 <= k < |trace| && trace[k] == Delete(posts[i].id);
      HandledEvent(chosen, cfg.dryRun, k);
      var j := k / 2;
      assert posts[idx[j]].id == posts[i].id;
      DistinctAt(posts, idx[j], i);
      assert i in idx;
    }
    if !cfg.dryRun && Qualifies(posts[i], clock(i), ageLimit, rules) {
      QualifyingDeleted(posts, clock, ageLimit, cfg, i);
    }
  }

  /** When IDs are distinct, no ID is sent in two delete requests. */
  lemma DeletedOnce(posts: seq<Post>, clock: nat -> int, ageLimit: int, cfg: Config)
    requires DistinctIds(posts)
    ensures var trace := SweepEvents(posts, clock, ageLimit, cfg, |posts|);
      forall k, l :: 0 <= k < l < |trace| && trace[k].Delete? && trace[l].Delete? ==> trace[k].id != trace[l].id
  {
    var rules, n := cfg.excludeStr, |posts|;
    var chosen := Chosen(posts, clock, ageLimit, rules, n);
    var idx := SelectedIndices(posts, clock, ageLimit, rules, n);
    var trace := SweepEvents(posts, clock, ageLimit, cfg, n);
    SweepIsHandled(posts, clock, ageLimit, cfg, n);
    ChosenAt(posts, clock, ageLimit, rules, n);
    SelectedIff(posts, clock, ageLimit, rules, n);
    forall k, l | 0 <= k < l < |trace| && trace[k].Delete? && trace[l].Delete?
      ensures trace[k].id != trace[l].id
    {
      HandledEvent(chosen, cfg.dryRun, k);
      HandledEvent(chosen, cfg.dryRun, l);
      assert k / 2 < l / 2;
      DistinctAt(posts, idx[k / 2], idx[l / 2]);
    }
  }

  /**
    A dry run only announces: it emits no delete request, and its events are
    the notices of a real run over the same statuses and clock, in order.
  */
  lemma DryRunOnlyAnnounces(posts: seq<Post>, clock: nat -> int, ageLimit: int, rules: seq<string>)
    ensures var dry := SweepEvents(posts, clock, ageLimit, Config(rules, true), |posts|);
      var full := SweepEvents(posts, clock, ageLimit, Config(rules, false), |posts|);
      && |full| == 2 * |dry|
      && forall j :: 0 <= j < |dry| ==> dry[j].Notice? && dry[j] == full[2 * j] && full[2 * j + 1].Delete?
  {
    var chosen := Chosen(posts, clock, ageLimit, rules, |posts|);
    SweepIsHandled(posts, clock, ageLimit, Config(rules, true), |posts|);
    SweepIsHandled(posts, clock, ageLimit, Config(rules, false), |posts|);
    HandledAt(chosen, true);
    HandledAt(chosen, false);
  }

  /**
    As written, an empty FLOOTS_EXCLUDE makes the sweep do nothing at all:
    no notice and no delete request, dry run or not.
  */
  lemma {:induction false} EmptyExcludeSweepsNothing(posts: seq<Post>, clock: nat -> int, ageLimit: int, dryRun: bool, n: nat)
    requires n <= |posts|
    ensures SweepEvents(posts, clock, ageLimit, Config(ExcludeRules(""), dryRun), n) == []
  {
    if n > 0 {
      EmptyExcludeSweepsNothing(posts, clock, ageLimit, dryRun, n - 1);
      EmptyExcludeProtectsEverything(posts[n - 1]);
    }
  }

  /**
    removeToots: look up the account, fetch its statuses, and walk them in
    fetch order. A failed lookup or fetch is returned before any status is
    examined. Otherwise every qualifying status is announced and, unless this
    is a dry run, deleted; the reply to each delete is stored and then
    overwritten, and the sweep returns nil whatever the replies were.
  */
  method RemoveToots(client: Client, clock: nat -> int, ageLimit: int, cfg: Config)
    returns (err: Option<Error>, trace: seq<Event>)
    ensures client.currentAccount.Err? ==> err == Some(client.currentAccount.error) && trace == []
    ensures client.currentAccount.Ok? && client.statuses(client.currentAccount.value).Err? ==>
      err == Some(client.statuses(client.currentAccount.value).error) && trace == []
    ensures client.currentAccount.Ok? && client.statuses(client.currentAccount.value).Ok? ==>
      var toots := client.statuses(client.currentAccount.value).value;
      err == None && trace == SweepEvents(toots, clock, ageLimit, cfg, |toots|)
  {
    var account := client.currentAccount;
    if account.Err? {
      return Some(account.error), [];
    }
    var fetched := client.statuses(account.value);
    if fetched.Err? {
      return Some(fetched.error), [];
    }
    var toots := fetched.value;
    var deleteCalls := 0;
    trace := [];
    for i := 0 to |toots|
      invariant trace == SweepEvents(toots, clock, ageLimit, cfg, i)
    {
      var toot := toots[i];
      if clock(i) - toot.createdAt > ageLimit {
        var excluded := IsExcluded(cfg.excludeStr, toot);
        if !excluded {
          trace := trace + [Notice(toot.content, toot.createdAt)];
          if !cfg.dryRun {
            trace := trace + [Delete(toot.id)];
            err := client.deleteReply(deleteCalls);
            deleteCalls := deleteCalls + 1;
          }
        }
      }
    }
    return None, trace;
  }
}
