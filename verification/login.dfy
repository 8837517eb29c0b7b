/**
 * The registry-login deduplication loop of the ECS script (and, as intended,
 * of the Kubernetes script): images are visited in order; an ECR image whose
 * region differs from the last region logged into triggers `docker login`;
 * a failed login skips that image only and keeps the remembered region.
 */
module LoginDedup {
  import opened Wrappers
  import opened Text
  import opened EcrImage
  import opened Trivy

  /** Loop state: the remembered region, the login attempts so far, the items scanned so far. */
  datatype Dedup<T> = Dedup(last: Option<string>, logins: seq<Login>, scanned: seq<T>)

  /** The state before the first image: `last_login_region = None`. */
  function Start<T>(): Dedup<T> {
    Dedup(None, [], [])
  }

  /**
   * The region an image must be logged into before it is scanned: the region of an
   * ECR image (`is_ecr_image` and a truthy `get_ecr_region_from_url`), else None.
   */
  function LoginRegion(url: string): (r: Option<string>)
    ensures r.Some? <==> IsEcrImage(url)
    ensures r.Some? ==> r == EcrRegion(url) && r.value != ""
  {
    if IsEcrImage(url) && EcrRegion(url).Some? && EcrRegion(url).value != "" then EcrRegion(url) else None
  }

  /** Whether visiting an item whose login region is `region` calls `docker login`, given the remembered region. */
  predicate NeedsLogin(region: Option<string>, last: Option<string>) {
    region.Some? && region != last
  }

  /** One iteration of the loop body for `item`, whose required login region is `scope(item)`. */
  function Step<T>(st: Dedup<T>, item: T, scope: T -> Option<string>, login: LoginOracle): (r: Dedup<T>)
    ensures st.logins <= r.logins && |r.logins| <= |st.logins| + 1
    ensures |r.logins| == |st.logins| + 1 <==> NeedsLogin(scope(item), st.last)
    ensures |r.logins| == |st.logins| + 1 ==>
      var a := r.logins[|st.logins|];
      a.region == scope(item).value && (a.succeeded <==> LoginSucceeded(login(a.region, |st.logins|)))
    ensures r.scanned == st.scanned + [item] <==> !(|r.logins| == |st.logins| + 1 && !r.logins[|st.logins|].succeeded)
    ensures r.scanned == st.scanned + [item] || r.scanned == st.scanned
    ensures st.last == LastSuccess(st.logins) ==> r.last == LastSuccess(r.logins)
  {
    if NeedsLogin(scope(item), st.last) then
      var region := scope(item).value;
      var ok := LoginSucceeded(login(region, |st.logins|));
      var st' := st.(logins := st.logins + [Login(region, ok)]);
      if ok then st'.(last := Some(region), scanned := st.scanned + [item]) else st'
    else
      st.(scanned := st.scanned + [item])
  }

  /** The whole loop over `items`, in order. */
  function Run<T>(st: Dedup<T>, items: seq<T>, scope: T -> Option<string>, login: LoginOracle): Dedup<T>
    decreases |items|
  {
    if items == [] then st else Run(Step(st, items[0], scope, login), items[1..], scope, login)
  }

  /** Running over a concatenation is running over each part in turn. */
  lemma {:induction false} RunAppend<T>(st: Dedup<T>, xs: seq<T>, ys: seq<T>, scope: T -> Option<string>, login: LoginOracle)
    ensures Run(st, xs + ys, scope, login) == Run(Run(st, xs, scope, login), ys, scope, login)
    decreases |xs|
  {
    if xs == [] {
      assert xs + ys == ys;
    } else {
      assert (xs + ys)[0] == xs[0];
      assert (xs + ys)[1..] == xs[1..] + ys;
      RunAppend(Step(st, xs[0], scope, login), xs[1..], ys, scope, login);
    }
  }

  /** While the remembered region is `region`, items needing that region are scanned with no login. */
  lemma {:induction false} SameRegionNoLogin<T>(st: Dedup<T>, xs: seq<T>, region: string, scope: T -> Option<string>, login: LoginOracle)
    requires st.last == Some(region)
    requires forall i :: 0 <= i < |xs| ==> scope(xs[i]) == Some(region)
    ensures Run(st, xs, scope, login) == st.(scanned := st.scanned + xs)
    decreases |xs|
  {
    if xs != [] {
      var st' := Step(st, xs[0], scope, login);
      SameRegionNoLogin(st', xs[1..], region, scope, login);
      assert st.scanned + [xs[0]] + xs[1..] == st.scanned + xs;
    }
  }

  /**
   * A consecutive block of items of one region whose first login succeeds
   * costs exactly one login, and all of the block is scanned.
   */
  lemma ConsecutiveSameRegionOneLogin<T>(st: Dedup<T>, xs: seq<T>, region: string, scope: T -> Option<string>, login: LoginOracle)
    requires |xs| >= 1 && st.last != Some(region)
    requires forall i :: 0 <= i < |xs| ==> scope(xs[i]) == Some(region)
    requires LoginSucceeded(login(region, |st.logins|))
    ensures var r := Run(st, xs, scope, login);
      r.logins == st.logins + [Login(region, true)] && r.scanned == st.scanned + xs && r.last == Some(region)
  {
    var st' := Step(st, xs[0], scope, login);
    SameRegionNoLogin(st', xs[1..], region, scope, login);
    assert st.scanned + [xs[0]] + xs[1..] == st.scanned + xs;
  }

  /** A region other than the remembered one re-triggers a login, even after earlier successes. */
  lemma RegionChangeLogsIn<T>(st: Dedup<T>, item: T, scope: T -> Option<string>, login: LoginOracle)
    requires scope(item).Some? && scope(item) != st.last
    ensures |Step(st, item, scope, login).logins| == |st.logins| + 1
  {
  }

  /** A failed login skips only its item and keeps the remembered region, so the next item of that region retries. */
  lemma FailedLoginRetries<T>(st: Dedup<T>, x: T, y: T, scope: T -> Option<string>, login: LoginOracle)
    requires scope(x).Some? && scope(x) != st.last && scope(y) == scope(x)
    requires !LoginSucceeded(login(scope(x).value, |st.logins|))
    ensures var r := Step(st, x, scope, login);
      r.last == st.last && r.scanned == st.scanned && |Step(r, y, scope, login).logins| == |st.logins| + 2
  {
  }

  /** Number of failed attempts in a login log. */
  function Failures(logins: seq<Login>): nat {
    if logins == [] then 0 else (if logins[0].succeeded then 0 else 1) + Failures(logins[1..])
  }

  lemma FailuresAppend(a: seq<Login>, b: seq<Login>)
    ensures Failures(a + b) == Failures(a) + Failures(b)
  {
    if a == [] {
      assert a + b == b;
    } else {
      assert (a + b)[1..] == a[1..] + b;
      FailuresAppend(a[1..], b);
    }
  }

  /** Number of items that need a login region. */
  function ScopedCount<T>(items: seq<T>, scope: T -> Option<string>): nat {
    if items == [] then 0 else (if scope(items[0]).Some? then 1 else 0) + ScopedCount(items[1..], scope)
  }

  /** The items that need no login, in order. */
  function Unscoped<T>(items: seq<T>, scope: T -> Option<string>): seq<T> {
    if items == [] then [] else (if scope(items[0]).Some? then [] else [items[0]]) + Unscoped(items[1..], scope)
  }

  lemma UnscopedAppend<T>(a: seq<T>, b: seq<T>, scope: T -> Option<string>)
    ensures Unscoped(a + b, scope) == Unscoped(a, scope) + Unscoped(b, scope)
  {
    if a == [] {
      assert a + b == b;
    } else {
      assert (a + b)[1..] == a[1..] + b;
      UnscopedAppend(a[1..], b, scope);
    }
  }

  /** `sub` is `s` with some elements left out, order kept. */
  ghost predicate Subsequence<T>(sub: seq<T>, s: seq<T>) {
    if sub == [] then true
    else if s == [] then false
    else if sub[0] == s[0] then Subsequence(sub[1..], s[1..])
    else Subsequence(sub, s[1..])
  }

  lemma {:induction false} SubsequenceExtend<T>(sub: seq<T>, s: seq<T>, x: T, keep: bool)
    requires Subsequence(sub, s)
    ensures Subsequence(if keep then sub + [x] else sub, s + [x])
    decreases |s|
  {
    if s == [] {
      assert sub == [];
      if keep {
        assert ([] + [x])[1..] == [];
      }
    } else if sub == [] {
      if keep {
        assert (s + [x])[1..] == s[1..] + [x];
        SubsequenceExtend(sub, s[1..], x, keep);
      }
    } else {
      assert (s + [x])[1..] == s[1..] + [x];
      if keep {
        assert (sub + [x])[0] == sub[0];
        assert (sub + [x])[1..] == sub[1..] + [x];
      }
      if sub[0] == s[0] {
        SubsequenceExtend(sub[1..], s[1..], x, keep);
      } else {
        SubsequenceExtend(sub, s[1..], x, keep);
      }
    }
  }

  /** The region remembered by the loop is that of the latest successful login. */
  function LastSuccess(logins: seq<Login>): Option<string>
    decreases |logins|
  {
    if logins == [] then None
    else if logins[|logins| - 1].succeeded then Some(logins[|logins| - 1].region)
    else LastSuccess(logins[..|logins| - 1])
  }

  /** One iteration's contribution to the run's bookkeeping. */
  lemma StepAccounting<T>(st: Dedup<T>, x: T, scope: T -> Option<string>, login: LoginOracle)
    ensures var r := Step(st, x, scope, login);
      && |r.scanned| + Failures(r.logins) == |st.scanned| + Failures(st.logins) + 1
      && Unscoped(r.scanned, scope) == Unscoped(st.scanned, scope) + Unscoped([x], scope)
      && |r.logins| <= |st.logins| + ScopedCount([x], scope)
      && (st.last == LastSuccess(st.logins) ==> r.last == LastSuccess(r.logins))
      && st.logins <= r.logins
      && st.scanned <= r.scanned
  {
    var r := Step(st, x, scope, login);
    UnscopedAppend(st.scanned, [x], scope);
    FailuresAppend(st.logins, r.logins[|st.logins|..]);
    assert st.logins + r.logins[|st.logins|..] == r.logins;
    if NeedsLogin(scope(x), st.last) {
      assert r.logins[..|r.logins| - 1] == st.logins;
    }
  }

  /**
   * What a run accomplishes, from any state whose remembered region is its last successful login:
   * every item is either scanned or had its own login fail; every item needing no login is scanned, in order;
   * logins never exceed the items needing one; and the remembered region stays that of the last successful login.
   */
  lemma {:induction false} RunAccounting<T>(st: Dedup<T>, xs: seq<T>, scope: T -> Option<string>, login: LoginOracle)
    requires st.last == LastSuccess(st.logins)
    ensures var r := Run(st, xs, scope, login);
      && |r.scanned| + Failures(r.logins) == |st.scanned| + Failures(st.logins) + |xs|
      && Unscoped(r.scanned, scope) == Unscoped(st.scanned, scope) + Unscoped(xs, scope)
      && |r.logins| <= |st.logins| + ScopedCount(xs, scope)
      && r.last == LastSuccess(r.logins)
    decreases |xs|
  {
    if xs != [] {
      var st' := Step(st, xs[0], scope, login);
      StepAccounting(st, xs[0], scope, login);
      RunAccounting(st', xs[1..], scope, login);
      UnscopedAppend([xs[0]], xs[1..], scope);
      assert [xs[0]] + xs[1..] == xs;
      AppendAssoc(Unscoped(st.scanned, scope), Unscoped([xs[0]], scope), Unscoped(xs[1..], scope));
      ScopedCountHead(xs, scope);
    }
  }

  lemma ScopedCountHead<T>(xs: seq<T>, scope: T -> Option<string>)
    requires xs != []
    ensures ScopedCount(xs, scope) == ScopedCount([xs[0]], scope) + ScopedCount(xs[1..], scope)
  {
    assert [xs[0]][1..] == [];
  }

  /** Scans keep input order: what a run scans is a subsequence of its images, after what was scanned before. */
  lemma {:induction false} RunKeepsOrder<T>(st: Dedup<T>, xs: seq<T>, scope: T -> Option<string>, login: LoginOracle)
    ensures var r := Run(st, xs, scope, login);
      st.scanned <= r.scanned && Subsequence(r.scanned[|st.scanned|..], xs)
    decreases |xs|
  {
    if xs == [] {
      assert Subsequence<T>([], []);
    } else {
      var st' := Step(st, xs[0], scope, login);
      StepAccounting(st, xs[0], scope, login);
      RunKeepsOrder(st', xs[1..], scope, login);
      SubsequenceAfterStep(st, st', xs[0], xs[1..], Run(st', xs[1..], scope, login).scanned, scope, login);
      assert [xs[0]] + xs[1..] == xs;
    }
  }

  lemma SubsequenceAfterStep<T>(st: Dedup<T>, st': Dedup<T>, x: T, rest: seq<T>, out: seq<T>, scope: T -> Option<string>, login: LoginOracle)
    requires st' == Step(st, x, scope, login)
    requires st'.scanned <= out && Subsequence(out[|st'.scanned|..], rest)
    ensures Subsequence(out[|st.scanned|..], [x] + rest)
  {
    var tail := out[|st'.scanned|..];
    if |st'.scanned| == |st.scanned| + 1 {
      assert out[|st.scanned|..] == [x] + tail;
      assert ([x] + tail)[1..] == tail;
      assert ([x] + rest)[1..] == rest;
    } else {
      assert out[|st.scanned|..] == tail;
      SubsequenceSkip(tail, rest, x);
    }
  }

  lemma {:induction false} SubsequenceSkip<T>(sub: seq<T>, s: seq<T>, x: T)
    requires Subsequence(sub, s)
    ensures Subsequence(sub, [x] + s)
    decreases |s|, 1
  {
    assert ([x] + s)[1..] == s;
    if sub != [] && sub[0] == x {
      SubsequenceDropFront(sub, s);
    }
  }

  /** A subsequence of `s` with its head removed is still a subsequence of `s`. */
  lemma {:induction false} SubsequenceDropFront<T>(sub: seq<T>, s: seq<T>)
    requires sub != [] && Subsequence(sub, s)
    ensures Subsequence(sub[1..], s)
    decreases |s|, 0
  {
    if sub[0] == s[0] {
      SubsequenceSkip(sub[1..], s[1..], s[0]);
      assert [s[0]] + s[1..] == s;
    } else {
      SubsequenceDropFront(sub, s[1..]);
      SubsequenceSkip(sub[1..], s[1..], s[0]);
      assert [s[0]] + s[1..] == s;
    }
  }

  // ---------------------------------------------------------------- ECS script

  /** Images of the ECS script, in region, then task-definition, then container order. */
  function EcsImages(regions: seq<seq<seq<string>>>): seq<string> {
    if regions == [] then [] else Flatten(regions[0]) + EcsImages(regions[1..])
  }

  function Flatten(xss: seq<seq<string>>): seq<string> {
    if xss == [] then [] else xss[0] + Flatten(xss[1..])
  }

  /** The `.table` report file of an image: the reference flattened, plus ".table". */
  function EcsTask(url: string): (t: ScanTask)
    ensures t.target == url && t.format == Table
    ensures '/' !in t.output && EndsWith(t.output, ".table")
    ensures |t.output| == |url| + 6 && t.output[..|url|] == Sanitize(url)
  {
    var out := Sanitize(url) + ".table";
    assert out[|out| - 6..] == ".table";
    ScanTask(url, Table, out)
  }

  function Tasks(urls: seq<string>): (ts: seq<ScanTask>)
    ensures |ts| == |urls| && forall i :: 0 <= i < |urls| ==> ts[i] == EcsTask(urls[i])
  {
    if urls == [] then [] else [EcsTask(urls[0])] + Tasks(urls[1..])
  }

  /** Outcome of the ECS script: the scans it runs and the logins it attempts. */
  datatype EcsRun = EcsRun(scans: seq<ScanTask>, logins: seq<Login>)

  /** The ECS script's main loop (the AWS listing calls supply `regions`). */
  function RunEcs(regions: seq<seq<seq<string>>>, login: LoginOracle): EcsRun {
    var r := Run(Start(), EcsImages(regions), LoginRegion, login);
    EcsRun(Tasks(r.scanned), r.logins)
  }

  /** Items that need no login pass straight to the scanner, with no login and no change of region. */
  lemma {:induction false} UnscopedNoLogin<T>(st: Dedup<T>, xs: seq<T>, scope: T -> Option<string>, login: LoginOracle)
    requires forall i :: 0 <= i < |xs| ==> scope(xs[i]).None?
    ensures Run(st, xs, scope, login) == st.(scanned := st.scanned + xs)
    decreases |xs|
  {
    if xs != [] {
      UnscopedNoLogin(Step(st, xs[0], scope, login), xs[1..], scope, login);
      assert st.scanned + [xs[0]] + xs[1..] == st.scanned + xs;
    }
  }

  /**
   * The ECS script's guarantees, in terms of its input images: every image is scanned
   * or had its own login fail, every non-ECR image is scanned, scans keep input order,
   * and there are no more logins than ECR images.
   */
  lemma EcsRunProperties(regions: seq<seq<seq<string>>>, login: LoginOracle)
    ensures var images := EcsImages(regions);
      var r := Run(Start(), images, LoginRegion, login);
      && RunEcs(regions, login).scans == Tasks(r.scanned)
      && |r.scanned| + Failures(r.logins) == |images|
      && Unscoped(r.scanned, LoginRegion) == Unscoped(images, LoginRegion)
      && |RunEcs(regions, login).logins| <= ScopedCount(images, LoginRegion)
      && Subsequence(r.scanned, images)
  {
    var images := EcsImages(regions);
    RunAccounting(Start(), images, LoginRegion, login);
    RunKeepsOrder(Start(), images, LoginRegion, login);
    var r := Run(Start(), images, LoginRegion, login);
    assert r.scanned[0..] == r.scanned;
  }

  /** The first item of a run that needs a region triggers the run's first login, for that region. */
  lemma FirstScopedItemLogsIn<T>(prefix: seq<T>, x: T, rest: seq<T>, scope: T -> Option<string>, login: LoginOracle)
    requires forall i :: 0 <= i < |prefix| ==> scope(prefix[i]).None?
    requires scope(x).Some?
    ensures var r := Run(Start(), prefix + [x] + rest, scope, login);
      |r.logins| >= 1 && Some(r.logins[0].region) == scope(x) && prefix <= r.scanned
  {
    var st := Run(Start(), prefix, scope, login);
    UnscopedNoLogin(Start(), prefix, scope, login);
    RunAppend(Start(), prefix, [x] + rest, scope, login);
    assert prefix + [x] + rest == prefix + ([x] + rest);
    var st1 := Step(st, x, scope, login);
    assert Run(st, [x] + rest, scope, login) == Run(st1, rest, scope, login);
    RunAccounting(st1, rest, scope, login);
    RunKeepsOrder(st1, rest, scope, login);
    FailuresAppend(st1.logins, []);
    LoginsGrow(st1, rest, scope, login);
  }

  /** A run only ever appends to the login log. */
  lemma {:induction false} LoginsGrow<T>(st: Dedup<T>, xs: seq<T>, scope: T -> Option<string>, login: LoginOracle)
    ensures st.logins <= Run(st, xs, scope, login).logins
    decreases |xs|
  {
    if xs != [] {
      StepAccounting(st, xs[0], scope, login);
      LoginsGrow(Step(st, xs[0], scope, login), xs[1..], scope, login);
    }
  }

  /** The first ECR image of the ECS run always triggers the run's first login, for that image's region. */
  lemma EcsFirstEcrImageLogsIn(prefix: seq<string>, x: string, rest: seq<string>, login: LoginOracle)
    requires forall i :: 0 <= i < |prefix| ==> !IsEcrImage(prefix[i])
    requires IsEcrImage(x)
    ensures var r := Run(Start(), prefix + [x] + rest, LoginRegion, login);
      |r.logins| >= 1 && Some(r.logins[0].region) == EcrRegion(x) && prefix <= r.scanned
  {
    FirstScopedItemLogsIn(prefix, x, rest, LoginRegion, login);
  }
}
