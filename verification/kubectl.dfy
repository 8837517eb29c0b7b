/**
 * The Kubernetes script: parsing the `kubectl get pods` listing, the
 * `create_subdirectory` check, the report path, and the main scan loop.
 */
module Kubectl {
  import opened Wrappers
  import opened Text
  import opened EcrImage
  import opened Trivy
  import opened LoginDedup

  /** The `ValueError`s the parser raises while unpacking a line. */
  datatype ParseError =
    | LineShape(line: string)   // `first_part, second_part = line.split(': ')`
    | KeyShape(key: string)     // `namespace, podname = first_part.split('/')`

  /** One entry of the insertion-ordered dict: `namespace/pod` and its images. */
  datatype Pod = Pod(key: string, images: seq<string>)

  /** The dict's keys, in insertion order. */
  function Keys(d: seq<Pod>): seq<string> {
    if d == [] then [] else [d[0].key] + Keys(d[1..])
  }

  /** The `i`-th key is the key of the `i`-th entry. */
  lemma {:induction false} KeysIndex(d: seq<Pod>)
    ensures |Keys(d)| == |d| && forall i :: 0 <= i < |d| ==> Keys(d)[i] == d[i].key
  {
    if d != [] {
      KeysIndex(d[1..]);
    }
  }

  /** `d.get(k)`. */
  function Lookup(d: seq<Pod>, k: string): Option<seq<string>> {
    if d == [] then None else if d[0].key == k then Some(d[0].images) else Lookup(d[1..], k)
  }

  /** A key has a value exactly when it is among the dict's keys. */
  lemma {:induction false} LookupFound(d: seq<Pod>, k: string)
    ensures Lookup(d, k).Some? <==> k in Keys(d)
  {
    if d != [] {
      LookupFound(d[1..], k);
      assert Keys(d) == [d[0].key] + Keys(d[1..]);
    }
  }

  predicate DistinctKeys(d: seq<Pod>) {
    forall i, j :: 0 <= i < j < |d| ==> d[i].key != d[j].key
  }

  /** `d[k] = v`: a new key goes last; an existing key keeps its place and takes the new value. */
  function Put(d: seq<Pod>, k: string, v: seq<string>): seq<Pod> {
    if d == [] then [Pod(k, v)]
    else if d[0].key == k then [Pod(k, v)] + d[1..]
    else [d[0]] + Put(d[1..], k, v)
  }

  /** Assignment keeps the order of the keys and appends a new key at the end. */
  lemma {:induction false} PutKeys(d: seq<Pod>, k: string, v: seq<string>)
    ensures Keys(Put(d, k, v)) == if k in Keys(d) then Keys(d) else Keys(d) + [k]
  {
    if d == [] {
      assert Keys([Pod(k, v)]) == [k];
    } else if d[0].key == k {
      assert Keys([Pod(k, v)] + d[1..]) == [k] + Keys(d[1..]) by {
        assert ([Pod(k, v)] + d[1..])[1..] == d[1..];
      }
      assert Keys(d) == [k] + Keys(d[1..]);
    } else {
      PutKeys(d[1..], k, v);
      var r := [d[0]] + Put(d[1..], k, v);
      assert r[1..] == Put(d[1..], k, v);
      assert Keys(r) == [d[0].key] + Keys(Put(d[1..], k, v));
      assert Keys(d) == [d[0].key] + Keys(d[1..]);
      if k !in Keys(d[1..]) {
        assert [d[0].key] + (Keys(d[1..]) + [k]) == ([d[0].key] + Keys(d[1..])) + [k];
      }
    }
  }

  /** After `d[k] = v`, `k` maps to `v` and every other key to what it mapped to before. */
  lemma {:induction false} PutLookup(d: seq<Pod>, k: string, v: seq<string>, k': string)
    ensures Lookup(Put(d, k, v), k') == if k' == k then Some(v) else Lookup(d, k')
  {
    if d != [] && d[0].key != k {
      PutLookup(d[1..], k, v, k');
    }
  }

  /** Assignment never duplicates a key. */
  lemma PutDistinct(d: seq<Pod>, k: string, v: seq<string>)
    requires DistinctKeys(d)
    ensures DistinctKeys(Put(d, k, v))
  {
    var r := Put(d, k, v);
    PutKeys(d, k, v);
    KeysIndex(d);
    KeysIndex(r);
    forall i, j | 0 <= i < j < |r| ensures r[i].key != r[j].key {
      assert Keys(r)[i] == r[i].key && Keys(r)[j] == r[j].key;
      if k !in Keys(d) {
        if j < |d| {
          assert Keys(d)[i] != Keys(d)[j];
        }
      } else {
        assert Keys(d)[i] != Keys(d)[j];
      }
    }
  }

  /** `kubectl_output.split('\n')`, without the empty string after a final newline. */
  function OutputLines(out: string): seq<string> {
    var lines := Split(out, "\n");
    if lines[|lines| - 1] == "" then lines[..|lines| - 1] else lines
  }

  /**
   * Newline-free lines printed one per line, each ending in a newline, read back as
   * those lines: the empty string after the final newline is dropped.
   */
  lemma OutputLinesOfListing(lines: seq<string>)
    requires |lines| >= 1 && forall i :: 0 <= i < |lines| ==> '\n' !in lines[i]
    ensures OutputLines(Join(lines, "\n") + "\n") == lines
    ensures lines[|lines| - 1] != "" ==> OutputLines(Join(lines, "\n")) == lines
  {
    OutputLinesWithNewline(lines);
    if lines[|lines| - 1] != "" {
      OutputLinesWithoutNewline(lines);
    }
  }

  lemma OutputLinesWithoutNewline(lines: seq<string>)
    requires |lines| >= 1 && forall i :: 0 <= i < |lines| ==> '\n' !in lines[i]
    requires lines[|lines| - 1] != ""
    ensures OutputLines(Join(lines, "\n")) == lines
  {
    SplitJoin(lines, '\n');
    var parts := Split(Join(lines, "\n"), "\n");
    assert parts == lines;
  }

  lemma OutputLinesWithNewline(lines: seq<string>)
    requires |lines| >= 1 && forall i :: 0 <= i < |lines| ==> '\n' !in lines[i]
    ensures OutputLines(Join(lines, "\n") + "\n") == lines
  {
    SplitTrailingNewline(lines);
    var parts := Split(Join(lines, "\n") + "\n", "\n");
    assert parts[|parts| - 1] == "";
    assert parts[..|parts| - 1] == lines;
  }

  lemma SplitTrailingNewline(lines: seq<string>)
    requires |lines| >= 1 && forall i :: 0 <= i < |lines| ==> '\n' !in lines[i]
    ensures Split(Join(lines, "\n") + "\n", "\n") == lines + [""]
  {
    var all := lines + [""];
    JoinSnoc(lines, "", "\n");
    assert Join(lines, "\n") + "\n" + "" == Join(lines, "\n") + "\n";
    forall i | 0 <= i < |all| ensures '\n' !in all[i] {
      if i < |lines| { assert all[i] == lines[i]; }
    }
    SplitJoin(all, '\n');
  }

  /** `create_subdirectory`'s two path components. */
  datatype Subdir = Subdir(dir: string, sub: string)

  /**
   * `create_subdirectory(path)`: `ValueError` unless `path.split('/')` has exactly two
   * parts, i.e. unless the path has exactly one '/'.
   */
  function CreateSubdirectory(path: string): (r: Result<Subdir, string>)
    ensures r.Ok? <==> CountChar(path, '/') == 1
    ensures r.Ok? ==> path == r.value.dir + "/" + r.value.sub && '/' !in r.value.dir && '/' !in r.value.sub
  {
    var parts := Split(path, "/");
    SplitCharCount(path, '/');
    if |parts| != 2 then Err(path)
    else
      SplitJoinsBack(path, "/");
      SplitPartsSepFree(path, "/");
      SepFreeChar(parts[0], '/');
      SepFreeChar(parts[1], '/');
      Ok(Subdir(parts[0], parts[1]))
  }

  /** One line of the listing: `namespace/pod: image image ...`. */
  function ParseLine(line: string): Result<Pod, ParseError>
  {
    var parts := Split(line, ": ");
    if |parts| != 2 then Err(LineShape(line))
    else if |Split(parts[0], "/")| != 2 then Err(KeyShape(parts[0]))
    else Ok(Pod(parts[0], Split(parts[1], " ")))
  }

  /** The loop of `parse_kubectl_output`, from dict `d`; the first bad line raises. */
  function ParseLines(d: seq<Pod>, lines: seq<string>): Result<seq<Pod>, ParseError>
    decreases |lines|
  {
    if lines == [] then Ok(d)
    else match ParseLine(lines[0])
      case Err(e) => Err(e)
      case Ok(p) => ParseLines(Put(d, p.key, p.images), lines[1..])
  }

  /** `parse_kubectl_output` applied to the captured stdout of kubectl. */
  function ParseKubectlOutput(out: string): Result<seq<Pod>, ParseError> {
    ParseLines([], OutputLines(out))
  }

  /** Empty kubectl output gives an empty dict. */
  lemma EmptyOutputEmptyDict()
    ensures ParseKubectlOutput("") == Ok([])
  {
    assert FindFrom("", "\n", 0) == None;
    assert Split("", "\n") == [""];
  }

  /** A parsed line reads back as its source: `key: images joined by spaces`, with a one-'/' key. */
  lemma ParseLineRoundTrip(line: string)
    requires ParseLine(line).Ok?
    ensures var p := ParseLine(line).value;
      line == p.key + ": " + Join(p.images, " ") && CountChar(p.key, '/') == 1 && |p.images| >= 1
  {
    var parts := Split(line, ": ");
    SplitJoinsBack(line, ": ");
    SplitJoinsBack(parts[1], " ");
    SplitCharCount(parts[0], '/');
  }

  /** The first ": " of `k + ": " + rest` is the one after `k` when `k` holds none. */
  lemma FirstColonSpace(k: string, rest: string)
    requires SepFree(k, ": ")
    ensures FindFrom(k + ": " + rest, ": ", 0) == Some(|k|)
  {
    var s := k + ": " + rest;
    assert s[|k|..|k| + 2] == ": ";
    assert OccursAt(s, ": ", |k|);
    forall j | 0 <= j < |k| ensures !OccursAt(s, ": ", j) {
      if j + 2 <= |k| {
        assert s[j..j + 2] == k[j..j + 2];
        assert !OccursAt(k, ": ", j);
      } else {
        assert s[j..j + 2][1] == s[|k|] == ':';
      }
    }
    FindFromFirst(s, ": ", 0);
    var r := FindFrom(s, ": ", 0);
    if r.Some? {
      assert r.value <= |k|;
    }
  }

  /** Writing a pod line and parsing it gives the pod back. */
  lemma ParseLineOfFormatted(k: string, images: seq<string>)
    requires CountChar(k, '/') == 1 && SepFree(k, ": ")
    requires |images| >= 1 && forall i :: 0 <= i < |images| ==> ' ' !in images[i]
    requires !Contains(Join(images, " "), ": ")
    ensures ParseLine(k + ": " + Join(images, " ")) == Ok(Pod(k, images))
  {
    var rest := Join(images, " ");
    var s := k + ": " + rest;
    FirstColonSpace(k, rest);
    assert s[..|k|] == k;
    assert s[|k| + 2..] == rest;
    assert Split(s, ": ") == [k] + Split(rest, ": ");
    SplitCharCount(k, '/');
    SplitJoin(images, ' ');
  }

  /** Parsing from `d` over `a + b` is parsing over `a`, then over `b` from the result. */
  lemma {:induction false} ParseLinesAppend(d: seq<Pod>, a: seq<string>, b: seq<string>)
    ensures ParseLines(d, a + b) == match ParseLines(d, a) case Err(e) => Err(e) case Ok(d') => ParseLines(d', b)
    decreases |a|
  {
    if a == [] {
      assert a + b == b;
    } else {
      assert (a + b)[0] == a[0];
      assert (a + b)[1..] == a[1..] + b;
      match ParseLine(a[0])
      case Err(e) =>
      case Ok(p) => ParseLinesAppend(Put(d, p.key, p.images), a[1..], b);
    }
  }

  /** Reference reading: the images of the LAST line with key `k`, scanning from the end. */
  function LastImages(lines: seq<string>, k: string): Option<seq<string>>
    decreases |lines|
  {
    if lines == [] then None
    else match ParseLine(lines[|lines| - 1])
      case Ok(p) => if p.key == k then Some(p.images) else LastImages(lines[..|lines| - 1], k)
      case Err(_) => LastImages(lines[..|lines| - 1], k)
  }

  /** A line that parses moves the dict on by one assignment. */
  lemma ParseLinesStep(d: seq<Pod>, lines: seq<string>)
    requires lines != [] && ParseLine(lines[0]).Ok?
    ensures ParseLines(d, lines)
      == ParseLines(Put(d, ParseLine(lines[0]).value.key, ParseLine(lines[0]).value.images), lines[1..])
  {
  }

  /** A line that does not parse stops the loop with its error. */
  lemma ParseLinesStop(d: seq<Pod>, lines: seq<string>)
    requires lines != [] && ParseLine(lines[0]).Err?
    ensures ParseLines(d, lines) == Err(ParseLine(lines[0]).error)
  {
  }

  /** Parsing succeeds exactly when every line parses. */
  lemma {:induction false} ParseLinesOkIff(d: seq<Pod>, lines: seq<string>)
    ensures ParseLines(d, lines).Ok? <==> forall i :: 0 <= i < |lines| ==> ParseLine(lines[i]).Ok?
    decreases |lines|
  {
    if lines != [] {
      if ParseLine(lines[0]).Err? {
        ParseLinesStop(d, lines);
      } else {
        var p := ParseLine(lines[0]).value;
        ParseLinesStep(d, lines);
        ParseLinesOkIff(Put(d, p.key, p.images), lines[1..]);
        AllLinesCons(lines);
      }
    }
  }

  /** Every line parses exactly when the first does and every later one does. */
  lemma AllLinesCons(lines: seq<string>)
    requires lines != []
    ensures (forall i :: 0 <= i < |lines| ==> ParseLine(lines[i]).Ok?)
      <==> ParseLine(lines[0]).Ok? && forall i :: 0 <= i < |lines[1..]| ==> ParseLine(lines[1..][i]).Ok?
  {
    assert forall i :: 1 <= i < |lines| ==> lines[i] == lines[1..][i - 1];
  }

  /** Parsing `init + [l]` from the empty dict is parsing `init`, then assigning `l`'s pod. */
  lemma ParseLinesSnoc(init: seq<string>, l: string)
    requires ParseLines([], init + [l]).Ok?
    ensures ParseLines([], init).Ok? && ParseLine(l).Ok?
    ensures ParseLines([], init + [l])
      == Ok(Put(ParseLines([], init).value, ParseLine(l).value.key, ParseLine(l).value.images))
  {
    ParseLinesAppend([], init, [l]);
    if ParseLines([], init).Ok? && ParseLine(l).Ok? {
      ParseLinesStep(ParseLines([], init).value, [l]);
      assert [l][1..] == [];
    }
  }

  /** After parsing, a key maps to the images of its LAST line: a repeated key keeps the later line. */
  lemma {:induction false} ParseLinesLookup(lines: seq<string>, k: string)
    requires ParseLines([], lines).Ok?
    ensures Lookup(ParseLines([], lines).value, k) == LastImages(lines, k)
    decreases |lines|
  {
    if lines != [] {
      var init := lines[..|lines| - 1];
      var l := lines[|lines| - 1];
      assert init + [l] == lines;
      ParseLinesSnoc(init, l);
      ParseLinesLookup(init, k);
      var p := ParseLine(l).value;
      PutLookup(ParseLines([], init).value, p.key, p.images, k);
    }
  }

  /** Every key of a parsed dict has exactly one '/', and no key appears twice. */
  lemma {:induction false} ParseLinesKeys(d: seq<Pod>, lines: seq<string>)
    requires DistinctKeys(d) && forall i :: 0 <= i < |d| ==> CountChar(d[i].key, '/') == 1
    requires ParseLines(d, lines).Ok?
    ensures var r := ParseLines(d, lines).value;
      DistinctKeys(r) && forall i :: 0 <= i < |r| ==> CountChar(r[i].key, '/') == 1
    decreases |lines|
  {
    if lines != [] {
      var p := ParseLine(lines[0]).value;
      var d' := Put(d, p.key, p.images);
      PutDistinct(d, p.key, p.images);
      SplitCharCount(p.key, '/');
      PutKeys(d, p.key, p.images);
      KeysIndex(d);
      KeysIndex(d');
      forall i | 0 <= i < |d'| ensures CountChar(d'[i].key, '/') == 1 {
        assert d'[i].key == Keys(d')[i];
        if d'[i].key != p.key {
          var j :| 0 <= j < |d| && Keys(d)[j] == d'[i].key;
        }
      }
      ParseLinesKeys(d', lines[1..]);
    }
  }

  /** Every key of a successfully parsed listing passes `create_subdirectory`. */
  lemma ParsedKeysPassSubdirectory(out: string)
    requires ParseKubectlOutput(out).Ok?
    ensures forall i :: 0 <= i < |ParseKubectlOutput(out).value| ==>
      CreateSubdirectory(ParseKubectlOutput(out).value[i].key).Ok?
  {
    ParseLinesKeys([], OutputLines(out));
  }

  /** `output/{namespace/pod}/{image with '/' as '_'}.json`. */
  function OutputPath(key: string, url: string): string {
    "output/" + key + "/" + Sanitize(url) + ".json"
  }

  /** The report lands in the directory pair `create_subdirectory` made, under a name with no '/'. */
  lemma OutputPathLayout(key: string, url: string)
    requires CreateSubdirectory(key).Ok?
    ensures var sd := CreateSubdirectory(key).value;
      Split(OutputPath(key, url), "/") == ["output", sd.dir, sd.sub, Sanitize(url) + ".json"]
  {
    var sd := CreateSubdirectory(key).value;
    var f := Sanitize(url) + ".json";
    assert '/' !in f;
    assert OutputPath(key, url) == "output" + "/" + sd.dir + "/" + sd.sub + "/" + f;
    SplitFour("output", sd.dir, sd.sub, f);
  }

  /** Four parts free of '/' joined by '/' split back into those parts. */
  lemma SplitFour(a: string, b: string, c: string, d: string)
    requires '/' !in a && '/' !in b && '/' !in c && '/' !in d
    ensures Split(a + "/" + b + "/" + c + "/" + d, "/") == [a, b, c, d]
  {
    var sep := "/";
    JoinFour(a, b, c, d, sep);
    AppendAssoc(b + sep, c + sep, d);
    AppendAssoc(a + sep, b + sep + (c + sep), d);
    AppendAssoc(a + sep, b + sep, c + sep);
    AppendAssoc(a + sep, b, sep);
    AppendAssoc(a + sep + b + sep, c, sep);
    SplitJoin([a, b, c, d], '/');
  }

  lemma JoinFour(a: string, b: string, c: string, d: string, sep: string)
    ensures Join([a, b, c, d], sep) == a + sep + (b + sep + (c + sep + d))
  {
    assert [c, d][1..] == [d];
    assert Join([c, d], sep) == c + sep + d;
    assert [b, c, d][1..] == [c, d];
    assert Join([b, c, d], sep) == b + sep + Join([c, d], sep);
    assert [a, b, c, d][1..] == [b, c, d];
  }

  /** The scan of one image of one pod. */
  function K8sTask(key: string, url: string): ScanTask {
    ScanTask(url, Json, OutputPath(key, url))
  }

  /** One (pod, image) pair of the main loop. */
  datatype PodImage = PodImage(key: string, url: string)

  /** `for k, v in pods_dict.items(): for image_url in v`. */
  function Items(d: seq<Pod>): seq<PodImage> {
    if d == [] then [] else PodImages(d[0].key, d[0].images) + Items(d[1..])
  }

  function PodImages(key: string, urls: seq<string>): (r: seq<PodImage>)
    ensures |r| == |urls| && forall i :: 0 <= i < |urls| ==> r[i] == PodImage(key, urls[i])
  {
    if urls == [] then [] else [PodImage(key, urls[0])] + PodImages(key, urls[1..])
  }

  function TasksOf(items: seq<PodImage>): (ts: seq<ScanTask>)
    ensures |ts| == |items| && forall i :: 0 <= i < |items| ==> ts[i] == K8sTask(items[i].key, items[i].url)
  {
    if items == [] then [] else [K8sTask(items[0].key, items[0].url)] + TasksOf(items[1..])
  }

  /** Why a run of the script stops early. */
  datatype K8sFailure =
    | ParseFailure(error: ParseError)   // `parse_kubectl_output` raised
    | NameError(url: string)            // `last_login_region` read before assignment
    | SubdirFailure(key: string)        // `create_subdirectory` raised

  /** The scans started before the run ended, and why it ended early, if it did. */
  datatype K8sOutcome = K8sOutcome(scans: seq<ScanTask>, failure: Option<K8sFailure>)

  /**
   * The main loop AS WRITTEN: `last_login_region` is never bound before line 114
   * reads it, so the first ECR image with a region raises `NameError`.
   */
  function RunAsWritten(items: seq<PodImage>): K8sOutcome
  {
    if items == [] then K8sOutcome([], None)
    else if LoginRegion(items[0].url).Some? then K8sOutcome([], Some(NameError(items[0].url)))
    else if CreateSubdirectory(items[0].key).Err? then K8sOutcome([], Some(SubdirFailure(items[0].key)))
    else
      var rest := RunAsWritten(items[1..]);
      K8sOutcome([K8sTask(items[0].key, items[0].url)] + rest.scans, rest.failure)
  }

  /** The whole script as written, from kubectl's stdout. */
  function K8sAsWritten(out: string): K8sOutcome {
    match ParseKubectlOutput(out)
    case Err(e) => K8sOutcome([], Some(ParseFailure(e)))
    case Ok(d) => RunAsWritten(Items(d))
  }

  /** Index of the first ECR image among the items, or their count. */
  function FirstEcr(items: seq<PodImage>): (n: nat)
    ensures n <= |items|
    ensures forall i :: 0 <= i < n ==> !IsEcrImage(items[i].url)
    ensures n < |items| ==> IsEcrImage(items[n].url)
  {
    if items == [] || IsEcrImage(items[0].url) then 0
    else
      var n := FirstEcr(items[1..]);
      assert forall i :: 1 <= i <= n ==> items[i] == items[1..][i - 1];
      1 + n
  }

  /**
   * As written, the loop scans exactly the images before the first ECR image and then
   * stops with `NameError` on that image; with no ECR image it scans everything.
   */
  lemma {:induction false} AsWrittenStopsAtFirstEcr(items: seq<PodImage>)
    requires forall i :: 0 <= i < |items| ==> CreateSubdirectory(items[i].key).Ok?
    ensures var n := FirstEcr(items);
      && RunAsWritten(items).scans == TasksOf(items[..n])
      && RunAsWritten(items).failure == (if n < |items| then Some(NameError(items[n].url)) else None)
    decreases |items|
  {
    if items != [] && !IsEcrImage(items[0].url) {
      var tail := items[1..];
      var n' := FirstEcr(tail);
      AsWrittenStopsAtFirstEcr(tail);
      assert FirstEcr(items) == n' + 1;
      assert RunAsWritten(items).scans == [K8sTask(items[0].key, items[0].url)] + TasksOf(tail[..n']);
      TakeCons(items, n');
      TasksOfCons(items[0], tail[..n']);
      if n' < |tail| {
        assert tail[n'] == items[n' + 1];
      }
    }
  }

  /** The first `n + 1` items are the head followed by the first `n` of the tail. */
  lemma TakeCons<T>(s: seq<T>, n: nat)
    requires n < |s|
    ensures s[..n + 1] == [s[0]] + s[1..][..n]
  {
  }

  lemma TasksOfCons(x: PodImage, xs: seq<PodImage>)
    ensures TasksOf([x] + xs) == [K8sTask(x.key, x.url)] + TasksOf(xs)
  {
    assert ([x] + xs)[1..] == xs;
  }

  /** The corrected loop's scope: the login region of the item's image. */
  function PodScope(it: PodImage): Option<string> {
    LoginRegion(it.url)
  }

  /** The main loop as evidently intended: the ECS loop, with `last_login_region` starting at None. */
  function RunIntended(items: seq<PodImage>, login: LoginOracle): (seq<ScanTask>, seq<Login>) {
    var r := Run(Start(), items, PodScope, login);
    (TasksOf(r.scanned), r.logins)
  }

  /**
   * The corrected loop keeps the guarantees of the ECS loop: every image is scanned or had
   * its own login fail, every non-ECR image is scanned, scans keep listing order, and there
   * are no more logins than ECR images.
   */
  lemma IntendedRunProperties(items: seq<PodImage>, login: LoginOracle)
    ensures var r := Run(Start(), items, PodScope, login);
      && RunIntended(items, login) == (TasksOf(r.scanned), r.logins)
      && |r.scanned| + Failures(r.logins) == |items|
      && Unscoped(r.scanned, PodScope) == Unscoped(items, PodScope)
      && |r.logins| <= ScopedCount(items, PodScope)
      && Subsequence(r.scanned, items)
  {
    RunAccounting(Start(), items, PodScope, login);
    RunKeepsOrder(Start(), items, PodScope, login);
    var r := Run(Start(), items, PodScope, login);
    assert r.scanned[0..] == r.scanned;
  }

  /** With no ECR image, the script as written and the corrected loop scan the same images. */
  lemma AsWrittenAgreesWithoutEcr(items: seq<PodImage>, login: LoginOracle)
    requires forall i :: 0 <= i < |items| ==> CreateSubdirectory(items[i].key).Ok? && !IsEcrImage(items[i].url)
    ensures RunAsWritten(items) == K8sOutcome(RunIntended(items, login).0, None)
  {
    AsWrittenStopsAtFirstEcr(items);
    UnscopedNoLogin(Start(), items, PodScope, login);
    assert items[..|items|] == items;
  }

  /** A pod whose only image is an ECR image. */
  const EcrPod: seq<PodImage> := [PodImage("ns/pod", SampleImage)]

  /**
   * On that pod the script as written raises `NameError` before any scan, while the
   * corrected loop attempts a login for eu-west-1 and, when it succeeds, scans the image.
   */
  lemma NameErrorWitness(login: LoginOracle)
    ensures RunAsWritten(EcrPod).scans == []
    ensures RunAsWritten(EcrPod).failure == Some(NameError(EcrPod[0].url))
    ensures RunIntended(EcrPod, login).1 == [Login("eu-west-1", LoginSucceeded(login("eu-west-1", 0)))]
    ensures LoginSucceeded(login("eu-west-1", 0)) ==> RunIntended(EcrPod, login).0 == [K8sTask("ns/pod", EcrPod[0].url)]
  {
    EcrScenario();
    assert LoginRegion(SampleImage) == Some("eu-west-1");
    SingleEcrPod("ns/pod", SampleImage, "eu-west-1", login);
  }

  /** A single pod image that needs a login for `region`, under both readings of the loop. */
  lemma SingleEcrPod(key: string, url: string, region: string, login: LoginOracle)
    requires LoginRegion(url) == Some(region)
    ensures RunAsWritten([PodImage(key, url)]) == K8sOutcome([], Some(NameError(url)))
    ensures RunIntended([PodImage(key, url)], login).1 == [Login(region, LoginSucceeded(login(region, 0)))]
    ensures LoginSucceeded(login(region, 0)) ==> RunIntended([PodImage(key, url)], login).0 == [K8sTask(key, url)]
  {
    var items := [PodImage(key, url)];
    var st := Step(Start(), items[0], PodScope, login);
    assert items[1..] == [];
    assert Run(Start(), items, PodScope, login) == st;
    assert NeedsLogin(PodScope(items[0]), None);
    assert st.logins == [Login(region, LoginSucceeded(login(region, 0)))];
  }
}
