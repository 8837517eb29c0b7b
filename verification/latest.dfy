/**
 * The latest-image script: in every region it logs in, resolves the latest tag
 * of every repository, then scans `{account}.dkr.ecr.{region}.amazonaws.com/{repo}:{tag}`.
 * The registry listing calls are replaced by their results (`RegionListing`).
 */
module LatestImage {
  import opened Wrappers
  import opened Text
  import opened EcrImage
  import opened Trivy
  import opened StableSort

  /** One entry of `describe_images`: the push time as JMESPath's `to_string` renders it, and the tags if any. */
  datatype ImageDetail = ImageDetail(pushedAt: string, tags: Option<seq<string>>)

  /** A repository of `describe_repositories` and the images its listing returns. */
  datatype Repository = Repository(name: string, images: seq<ImageDetail>)

  /** What the registry reports for one region. */
  datatype RegionListing = RegionListing(region: string, repositories: seq<Repository>)

  /** Character codes: JMESPath and Python compare strings code point by code point. */
  function Codes(s: string): (r: seq<int>)
    ensures |r| == |s| && forall i :: 0 <= i < |s| ==> r[i] == s[i] as int
  {
    if s == [] then [] else [s[0] as int] + Codes(s[1..])
  }

  /** The sort key of `sort_by(imageDetails, &to_string(imagePushedAt))`. */
  function PushKey(d: ImageDetail): seq<int> {
    Codes(d.pushedAt)
  }

  /** Reference reading of "latest": a left-to-right scan in which a later image wins ties. */
  function Newest(images: seq<ImageDetail>): ImageDetail
    requires |images| >= 1
  {
    if |images| == 1 then images[0]
    else
      var n := Newest(images[1..]);
      if LexLe(PushKey(images[0]), PushKey(n)) then n else images[0]
  }

  /** The newest image has the greatest push time, and no later image has the same one. */
  lemma {:induction false} NewestIsLastMaximum(images: seq<ImageDetail>)
    requires |images| >= 1
    ensures forall j :: 0 <= j < |images| ==> LexLe(PushKey(images[j]), PushKey(Newest(images)))
    ensures exists i :: 0 <= i < |images| && images[i] == Newest(images) &&
                        (forall j :: i < j < |images| ==> PushKey(images[j]) != PushKey(Newest(images)))
  {
    if |images| == 1 {
      LexLeReflexive(PushKey(images[0]));
      assert images[0] == Newest(images);
    } else {
      var rest := images[1..];
      var n := Newest(rest);
      NewestIsLastMaximum(rest);
      var i :| 0 <= i < |rest| && rest[i] == n && forall j :: i < j < |rest| ==> PushKey(rest[j]) != PushKey(n);
      if LexLe(PushKey(images[0]), PushKey(n)) {
        assert images[i + 1] == n;
        forall j | i + 1 < j < |images| ensures PushKey(images[j]) != PushKey(n) {
          assert images[j] == rest[j - 1];
        }
      } else {
        LexLeTotal(PushKey(images[0]), PushKey(n));
        LexLeReflexive(PushKey(images[0]));
        forall j | 0 <= j < |images| ensures LexLe(PushKey(images[j]), PushKey(images[0])) {
          if j > 0 {
            assert images[j] == rest[j - 1];
            LexLeTransitive(PushKey(images[j]), PushKey(n), PushKey(images[0]));
          }
        }
        forall j | 0 < j < |images| ensures PushKey(images[j]) != PushKey(images[0]) {
          assert images[j] == rest[j - 1];
          if PushKey(images[j]) == PushKey(images[0]) {
            LexLeTransitive(PushKey(images[0]), PushKey(images[j]), PushKey(n));
          }
        }
      }
    }
  }

  /** The last element after inserting into a sorted sequence. */
  lemma LastOfInsert(x: ImageDetail, t: seq<ImageDetail>)
    requires SortedBy(t, PushKey) && |t| >= 1
    ensures var r := Insert(x, t, PushKey);
      r[|r| - 1] == if LexLe(PushKey(x), PushKey(t[|t| - 1])) then t[|t| - 1] else x
  {
    LastOfInsertAux(x, t);
  }

  lemma {:induction false} LastOfInsertAux(x: ImageDetail, t: seq<ImageDetail>)
    requires SortedBy(t, PushKey) && |t| >= 1
    ensures |Insert(x, t, PushKey)| == |t| + 1
    ensures var r := Insert(x, t, PushKey);
      r[|r| - 1] == if LexLe(PushKey(x), PushKey(t[|t| - 1])) then t[|t| - 1] else x
  {
    InsertLength(x, t, PushKey);
    if LexLe(PushKey(x), PushKey(t[0])) {
      if |t| > 1 {
        LexLeTransitive(PushKey(x), PushKey(t[0]), PushKey(t[|t| - 1]));
      }
      LastOfCons(x, t);
    } else {
      var t' := t[1..];
      if |t| == 1 {
        assert t' == [];
        assert Insert(x, t, PushKey) == [t[0], x];
      } else {
        assert SortedBy(t', PushKey);
        LastOfInsertAux(x, t');
        assert t'[|t'| - 1] == t[|t| - 1];
        LastOfCons(t[0], Insert(x, t', PushKey));
      }
    }
  }

  /** Putting an element in front does not change the last one. */
  lemma LastOfCons<T>(y: T, s: seq<T>)
    requires s != []
    ensures ([y] + s)[|s|] == s[|s| - 1]
  {
  }

  lemma NewestStep(images: seq<ImageDetail>)
    requires |images| >= 2
    ensures var n := Newest(images[1..]);
      Newest(images) == if LexLe(PushKey(images[0]), PushKey(n)) then n else images[0]
  {
  }

  /** `sort_by(...)[-1]` is the newest image of the reference reading. */
  lemma {:induction false} SortLastIsNewest(images: seq<ImageDetail>)
    requires |images| >= 1
    ensures |Sort(images, PushKey)| == |images|
    ensures Sort(images, PushKey)[|images| - 1] == Newest(images)
  {
    SortLength(images, PushKey);
    if |images| == 1 {
      assert images[1..] == [];
      assert Sort(images, PushKey) == Insert(images[0], [], PushKey) == [images[0]];
    } else {
      SortLength(images[1..], PushKey);
      SortLastIsNewest(images[1..]);
      SortLastStep(images);
    }
  }

  /** Inserting an image into the sorted rest moves the newest of the whole to the end. */
  lemma SortLastStep(images: seq<ImageDetail>)
    requires |images| >= 2
    requires |Sort(images[1..], PushKey)| == |images| - 1
    requires Sort(images[1..], PushKey)[|images| - 2] == Newest(images[1..])
    ensures |Sort(images, PushKey)| == |images|
    ensures Sort(images, PushKey)[|images| - 1] == Newest(images)
  {
    var t := Sort(images[1..], PushKey);
    var r := Insert(images[0], t, PushKey);
    SortCons(images, PushKey);
    assert Sort(images, PushKey) == r;
    InsertLength(images[0], t, PushKey);
    SortSorted(images[1..], PushKey);
    LastOfInsert(images[0], t);
    NewestStep(images);
    assert t[|t| - 1] == Newest(images[1..]);
    assert r[|r| - 1] == Newest(images);
  }

  /** Why the script stops: `list(filter_iterator)[0]` on a latest image whose tag list is empty. */
  datatype TagFailure = EmptyTagList(repository: string)

  /**
   * The latest tag of a repository: the first tag of the image that sorts last by push
   * time. An empty listing, or an untagged latest image, yields `None`.
   */
  function LatestTag(repo: Repository): (r: Result<Option<string>, TagFailure>)
  {
    if repo.images == [] then Ok(None)
    else
      SortLength(repo.images, PushKey);
      var latest := Sort(repo.images, PushKey)[|repo.images| - 1];
      match latest.tags
      case None => Ok(None)
      case Some(ts) => if ts == [] then Err(EmptyTagList(repo.name)) else Ok(Some(ts[0]))
  }

  /** The chosen tag is the first tag of the newest image, newest meaning last among the greatest push times. */
  lemma LatestTagOfNewest(repo: Repository)
    requires repo.images != []
    ensures var n := Newest(repo.images);
      LatestTag(repo) == match n.tags
        case None => Ok(None)
        case Some(ts) => if ts == [] then Err(EmptyTagList(repo.name)) else Ok(Some(ts[0]))
  {
    SortLastIsNewest(repo.images);
  }

  /** `f"{latest_image_tag}"`: Python renders a missing tag as "None". */
  function TagText(tag: Option<string>): string {
    match tag
    case None => "None"
    case Some(t) => t
  }

  /** `f"{repo_name}:{latest_image_tag}_results.json".replace("/", "_")`. */
  function OutputFile(repo: string, tag: Option<string>): (f: string)
    ensures f == Sanitize(repo) + ":" + Sanitize(TagText(tag)) + "_results.json"
    ensures '/' !in f && EndsWith(f, "_results.json")
  {
    var raw := repo + ":" + TagText(tag) + "_results.json";
    OutputFileParts(repo, TagText(tag));
    var f := Sanitize(raw);
    assert f[|f| - 13..] == "_results.json";
    f
  }

  /** The file name is built from the repository and tag, each flattened on its own. */
  lemma OutputFileParts(repo: string, tag: string)
    ensures Sanitize(repo + ":" + tag + "_results.json") == Sanitize(repo) + ":" + Sanitize(tag) + "_results.json"
  {
    SanitizeKeeps(":");
    SanitizeAppend(repo, ":");
    assert Sanitize(repo + ":") == Sanitize(repo) + ":";
    SanitizeAppend(repo + ":", tag);
    assert Sanitize(repo + ":" + tag) == Sanitize(repo) + ":" + Sanitize(tag);
    SanitizeKeeps("_results.json");
    SanitizeAppend(repo + ":" + tag, "_results.json");
  }

  /** `{ecr_uri}/{repo_name}:{latest_image_tag}`. */
  function ScanTarget(account: string, region: string, repo: string, tag: Option<string>): string {
    EcrHost(account, region) + "/" + repo + ":" + TagText(tag)
  }

  /** A scan target is itself an ECR image reference of the region it was built for. */
  lemma ScanTargetIsEcrImage(account: string, region: string, repo: string, tag: Option<string>)
    requires |account| >= 1 && AllDigits(account) && |region| >= 1 && '\n' !in region
    requires !Contains("/" + repo + ":" + TagText(tag), AwsDomain)
    ensures IsEcrImage(ScanTarget(account, region, repo, tag))
    ensures EcrRegion(ScanTarget(account, region, repo, tag)) == Some(region)
  {
    var rest := "/" + repo + ":" + TagText(tag);
    assert ScanTarget(account, region, repo, tag) == EcrHost(account, region) + rest;
    EcrRegionOfHost(ScanTarget(account, region, repo, tag), account, region, rest);
  }

  /** Something the script does, in order. */
  datatype Event = LoginEvent(login: Login) | ScanEvent(task: ScanTask)

  /** The events of a run and, if it crashed, why. */
  datatype Outcome = Outcome(events: seq<Event>, failure: Option<TagFailure>)

  /** Lines 80-85: resolve the latest tag of every repository before any scan. */
  function ResolveTags(repos: seq<Repository>): (r: Result<seq<Option<string>>, TagFailure>)
    ensures r.Ok? ==> |r.value| == |repos| && forall i :: 0 <= i < |repos| ==> LatestTag(repos[i]) == Ok(r.value[i])
    ensures r.Err? <==> exists i :: 0 <= i < |repos| && LatestTag(repos[i]).Err?
  {
    if repos == [] then Ok([])
    else match LatestTag(repos[0])
      case Err(e) => Err(e)
      case Ok(t) =>
        match ResolveTags(repos[1..])
        case Err(e) =>
          FailureInRest(repos);
          Err(e)
        case Ok(ts) =>
          TagsOfRest(repos, t, ts);
          Ok([t] + ts)
  }

  lemma FailureInRest(repos: seq<Repository>)
    requires repos != [] && exists i :: 0 <= i < |repos[1..]| && LatestTag(repos[1..][i]).Err?
    ensures exists i :: 0 <= i < |repos| && LatestTag(repos[i]).Err?
  {
    var i :| 0 <= i < |repos[1..]| && LatestTag(repos[1..][i]).Err?;
    assert repos[i + 1] == repos[1..][i];
  }

  lemma TagsOfRest(repos: seq<Repository>, t: Option<string>, ts: seq<Option<string>>)
    requires repos != [] && LatestTag(repos[0]) == Ok(t) && |ts| == |repos| - 1
    requires forall i :: 0 <= i < |repos[1..]| ==> LatestTag(repos[1..][i]) == Ok(ts[i])
    ensures |[t] + ts| == |repos| && forall i :: 0 <= i < |repos| ==> LatestTag(repos[i]) == Ok(([t] + ts)[i])
    ensures !exists i :: 0 <= i < |repos| && LatestTag(repos[i]).Err?
  {
    forall i | 0 <= i < |repos| ensures LatestTag(repos[i]) == Ok(([t] + ts)[i]) {
      if i > 0 {
        assert repos[i] == repos[1..][i - 1];
      }
    }
  }

  /** Lines 87-88: one scan per repository, in listing order. */
  function RepoScans(account: string, region: string, repos: seq<Repository>, tags: seq<Option<string>>): (es: seq<Event>)
    requires |tags| == |repos|
    ensures |es| == |repos|
    ensures forall i :: 0 <= i < |repos| ==>
      es[i] == ScanEvent(ScanTask(ScanTarget(account, region, repos[i].name, tags[i]), Json, OutputFile(repos[i].name, tags[i])))
  {
    if repos == [] then []
    else
      [ScanEvent(ScanTask(ScanTarget(account, region, repos[0].name, tags[0]), Json, OutputFile(repos[0].name, tags[0])))]
      + RepoScans(account, region, repos[1..], tags[1..])
  }

  /** The region loop, from the `n`-th login attempt of the run. */
  function RunRegions(account: string, listings: seq<RegionListing>, login: LoginOracle, n: nat): Outcome
    decreases |listings|
  {
    if listings == [] then Outcome([], None)
    else
      var l := listings[0];
      var ok := LoginSucceeded(login(l.region, n));
      var head := [LoginEvent(Login(l.region, ok))];
      if !ok then
        var rest := RunRegions(account, listings[1..], login, n + 1);
        Outcome(head + rest.events, rest.failure)
      else match ResolveTags(l.repositories)
        case Err(e) => Outcome(head, Some(e))
        case Ok(tags) =>
          var rest := RunRegions(account, listings[1..], login, n + 1);
          Outcome(head + RepoScans(account, l.region, l.repositories, tags) + rest.events, rest.failure)
  }

  /** The script's main block. */
  function RunLatest(account: string, listings: seq<RegionListing>, login: LoginOracle): Outcome {
    RunRegions(account, listings, login, 0)
  }

  /** The regions of the login events, in order. */
  function LoginRegions(events: seq<Event>): seq<string> {
    if events == [] then []
    else (if events[0].LoginEvent? then [events[0].login.region] else []) + LoginRegions(events[1..])
  }

  function Regions(listings: seq<RegionListing>): (rs: seq<string>)
    ensures |rs| == |listings| && forall i :: 0 <= i < |listings| ==> rs[i] == listings[i].region
  {
    if listings == [] then [] else [listings[0].region] + Regions(listings[1..])
  }

  lemma LoginRegionsAppend(a: seq<Event>, b: seq<Event>)
    ensures LoginRegions(a + b) == LoginRegions(a) + LoginRegions(b)
  {
    if a == [] {
      assert a + b == b;
    } else {
      assert (a + b)[1..] == a[1..] + b;
      LoginRegionsAppend(a[1..], b);
    }
  }

  lemma {:induction false} RepoScansNoLogin(account: string, region: string, repos: seq<Repository>, tags: seq<Option<string>>)
    requires |tags| == |repos|
    ensures LoginRegions(RepoScans(account, region, repos, tags)) == []
    decreases |repos|
  {
    if repos != [] {
      RepoScansNoLogin(account, region, repos[1..], tags[1..]);
    }
  }

  /**
   * Every region attempts exactly one login, in listing order; a run that crashes has
   * attempted the logins of a prefix of the regions.
   */
  lemma {:induction false} EveryRegionLogsIn(account: string, listings: seq<RegionListing>, login: LoginOracle, n: nat)
    ensures var o := RunRegions(account, listings, login, n);
      && (o.failure.None? ==> LoginRegions(o.events) == Regions(listings))
      && LoginRegions(o.events) <= Regions(listings)
    decreases |listings|
  {
    if listings != [] {
      var l := listings[0];
      var head := [LoginEvent(Login(l.region, LoginSucceeded(login(l.region, n))))];
      EveryRegionLogsIn(account, listings[1..], login, n + 1);
      var rest := RunRegions(account, listings[1..], login, n + 1);
      LoginRegionsAppend(head, rest.events);
      if LoginSucceeded(login(l.region, n)) && ResolveTags(l.repositories).Ok? {
        var scans := RepoScans(account, l.region, l.repositories, ResolveTags(l.repositories).value);
        LoginRegionsAppend(head + scans, rest.events);
        LoginRegionsAppend(head, scans);
        RepoScansNoLogin(account, l.region, l.repositories, ResolveTags(l.repositories).value);
      }
      assert Regions(listings) == [l.region] + Regions(listings[1..]);
    }
  }

  /**
   * Reference check of an event log: every scan comes after a successful login to the
   * registry host it targets, with no other login in between.
   */
  predicate ScansAuthorized(events: seq<Event>, account: string, current: Option<string>) {
    if events == [] then true
    else match events[0]
      case LoginEvent(l) => ScansAuthorized(events[1..], account, if l.succeeded then Some(l.region) else None)
      case ScanEvent(t) =>
        && current.Some?
        && StartsWith(t.target, EcrHost(account, current.value) + "/")
        && ScansAuthorized(events[1..], account, current)
  }

  /** A scan target starts with the registry host of its region. */
  lemma ScanTargetHost(account: string, region: string, repo: string, tag: Option<string>)
    ensures StartsWith(ScanTarget(account, region, repo, tag), EcrHost(account, region) + "/")
  {
    var host := EcrHost(account, region) + "/";
    assert ScanTarget(account, region, repo, tag) == host + (repo + ":" + TagText(tag));
    assert ScanTarget(account, region, repo, tag)[..|host|] == host;
  }

  /** A scan of the current region's registry keeps a log authorized. */
  lemma ScanThenAuthorized(t: ScanTask, rest: seq<Event>, account: string, region: string)
    requires StartsWith(t.target, EcrHost(account, region) + "/")
    requires ScansAuthorized(rest, account, Some(region))
    ensures ScansAuthorized([ScanEvent(t)] + rest, account, Some(region))
  {
    assert ([ScanEvent(t)] + rest)[1..] == rest;
  }

  lemma {:induction false} RepoScansAuthorized(account: string, region: string, repos: seq<Repository>, tags: seq<Option<string>>, rest: seq<Event>)
    requires |tags| == |repos|
    requires ScansAuthorized(rest, account, Some(region))
    ensures ScansAuthorized(RepoScans(account, region, repos, tags) + rest, account, Some(region))
    decreases |repos|
  {
    if repos == [] {
      assert RepoScans(account, region, repos, tags) + rest == rest;
    } else {
      var tail := RepoScans(account, region, repos[1..], tags[1..]);
      RepoScansAuthorized(account, region, repos[1..], tags[1..], rest);
      var t := ScanTask(ScanTarget(account, region, repos[0].name, tags[0]), Json, OutputFile(repos[0].name, tags[0]));
      assert RepoScans(account, region, repos, tags) == [ScanEvent(t)] + tail;
      AppendAssoc([ScanEvent(t)], tail, rest);
      ScanTargetHost(account, region, repos[0].name, tags[0]);
      ScanThenAuthorized(t, tail + rest, account, region);
    }
  }

  lemma LoginThenAuthorized(l: Login, rest: seq<Event>, account: string, current: Option<string>)
    requires ScansAuthorized(rest, account, if l.succeeded then Some(l.region) else None)
    ensures ScansAuthorized([LoginEvent(l)] + rest, account, current)
  {
    assert ([LoginEvent(l)] + rest)[1..] == rest;
  }

  /** One step of the region loop, with the login verdict and tag resolution named. */
  lemma RunRegionsStep(account: string, listings: seq<RegionListing>, login: LoginOracle, n: nat)
    requires listings != []
    ensures var l := listings[0];
      var ok := LoginSucceeded(login(l.region, n));
      var rest := RunRegions(account, listings[1..], login, n + 1);
      var o := RunRegions(account, listings, login, n);
      && (!ok ==> o.events == [LoginEvent(Login(l.region, false))] + rest.events)
      && (ok && ResolveTags(l.repositories).Err? ==> o.events == [LoginEvent(Login(l.region, true))])
      && (ok && ResolveTags(l.repositories).Ok? ==>
            o.events == [LoginEvent(Login(l.region, true))]
              + (RepoScans(account, l.region, l.repositories, ResolveTags(l.repositories).value) + rest.events))
  {
  }

  /** Scans only ever follow a successful login to the registry they target; a failed login skips its region. */
  lemma {:induction false} RunIsAuthorized(account: string, listings: seq<RegionListing>, login: LoginOracle, n: nat, current: Option<string>)
    ensures ScansAuthorized(RunRegions(account, listings, login, n).events, account, current)
    decreases |listings|
  {
    if listings != [] {
      var l := listings[0];
      var ok := LoginSucceeded(login(l.region, n));
      var rest := RunRegions(account, listings[1..], login, n + 1);
      RunRegionsStep(account, listings, login, n);
      if !ok {
        RunIsAuthorized(account, listings[1..], login, n + 1, None);
        LoginThenAuthorized(Login(l.region, false), rest.events, account, current);
      } else if ResolveTags(l.repositories).Ok? {
        var tags := ResolveTags(l.repositories).value;
        RunIsAuthorized(account, listings[1..], login, n + 1, Some(l.region));
        RepoScansAuthorized(account, l.region, l.repositories, tags, rest.events);
        LoginThenAuthorized(Login(l.region, true), RepoScans(account, l.region, l.repositories, tags) + rest.events, account, current);
      } else {
        LoginThenAuthorized(Login(l.region, true), [], account, current);
        assert [LoginEvent(Login(l.region, true))] + [] == [LoginEvent(Login(l.region, true))];
      }
    }
  }

  /** The scans of an event log, in order. */
  function ScanTasks(events: seq<Event>): seq<ScanTask> {
    if events == [] then []
    else (if events[0].ScanEvent? then [events[0].task] else []) + ScanTasks(events[1..])
  }

  /** Reference reading of one repository's scan: its latest tag, its target in `region`, its file. */
  function RepoTask(account: string, region: string, repo: Repository): ScanTask {
    var tag := match LatestTag(repo) case Ok(t) => t case Err(_) => None;
    ScanTask(ScanTarget(account, region, repo.name, tag), Json, OutputFile(repo.name, tag))
  }

  function RepoTasks(account: string, region: string, repos: seq<Repository>): seq<ScanTask> {
    if repos == [] then [] else [RepoTask(account, region, repos[0])] + RepoTasks(account, region, repos[1..])
  }

  /** Reference list: every repository of every region whose login succeeds, with the attempt numbering of the run. */
  function ReachableScans(account: string, listings: seq<RegionListing>, login: LoginOracle, n: nat): seq<ScanTask>
    decreases |listings|
  {
    if listings == [] then []
    else
      var l := listings[0];
      (if LoginSucceeded(login(l.region, n)) then RepoTasks(account, l.region, l.repositories) else [])
      + ReachableScans(account, listings[1..], login, n + 1)
  }

  lemma {:induction false} ScanTasksAppend(a: seq<Event>, b: seq<Event>)
    ensures ScanTasks(a + b) == ScanTasks(a) + ScanTasks(b)
    decreases |a|
  {
    if a == [] {
      assert a + b == b;
    } else {
      assert (a + b)[0] == a[0];
      assert (a + b)[1..] == a[1..] + b;
      ScanTasksAppend(a[1..], b);
      var h := if a[0].ScanEvent? then [a[0].task] else [];
      AppendAssoc(h, ScanTasks(a[1..]), ScanTasks(b));
    }
  }

  /** With the tags the listing resolves to, the scans of a region are the reference scans of its repositories. */
  lemma {:induction false} RepoScansTasks(account: string, region: string, repos: seq<Repository>, tags: seq<Option<string>>)
    requires |tags| == |repos| && forall i :: 0 <= i < |repos| ==> LatestTag(repos[i]) == Ok(tags[i])
    ensures ScanTasks(RepoScans(account, region, repos, tags)) == RepoTasks(account, region, repos)
    decreases |repos|
  {
    if repos != [] {
      assert forall i :: 0 <= i < |repos[1..]| ==> repos[1..][i] == repos[i + 1] && tags[1..][i] == tags[i + 1];
      RepoScansTasks(account, region, repos[1..], tags[1..]);
      var t := ScanTask(ScanTarget(account, region, repos[0].name, tags[0]), Json, OutputFile(repos[0].name, tags[0]));
      var tail := RepoScans(account, region, repos[1..], tags[1..]);
      assert RepoScans(account, region, repos, tags) == [ScanEvent(t)] + tail;
      ScanTasksAppend([ScanEvent(t)], tail);
      assert LatestTag(repos[0]) == Ok(tags[0]);
    }
  }

  /**
   * A run that does not crash scans exactly the reference list: every repository of every
   * region whose login succeeded, in listing order, each once, and nothing else.
   */
  lemma {:induction false} ScansEveryReachableRepository(account: string, listings: seq<RegionListing>, login: LoginOracle, n: nat)
    ensures var o := RunRegions(account, listings, login, n);
      o.failure.None? ==> ScanTasks(o.events) == ReachableScans(account, listings, login, n)
    decreases |listings|
  {
    if listings != [] {
      var l := listings[0];
      var ok := LoginSucceeded(login(l.region, n));
      var head := [LoginEvent(Login(l.region, ok))];
      var rest := RunRegions(account, listings[1..], login, n + 1);
      ScansEveryReachableRepository(account, listings[1..], login, n + 1);
      RunRegionsStep(account, listings, login, n);
      ScanTasksAppend(head, rest.events);
      assert ScanTasks(head) == [];
      if ok && ResolveTags(l.repositories).Ok? {
        var tags := ResolveTags(l.repositories).value;
        var scans := RepoScans(account, l.region, l.repositories, tags);
        ScanTasksAppend(head, scans + rest.events);
        ScanTasksAppend(scans, rest.events);
        RepoScansTasks(account, l.region, l.repositories, tags);
      }
    }
  }
}
