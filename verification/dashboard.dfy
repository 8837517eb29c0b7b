/**
 * `create_dashboard`: one CSV row of found/fixed counters per (image, target), and a
 * display listing sorted by descending (critical, high, medium, low) counts.
 * Writing the CSV file and printing become the returned rows and lines.
 */
module Dashboard {
  import opened Wrappers
  import opened Text
  import opened StableSort
  import opened Report
  import EcrImage

  // ---- Severities and counters ----

  datatype Severity = Critical | High | Medium | Low | Unknown

  /** The `Severity` text Trivy writes. */
  function Literal(s: Severity): string {
    match s
    case Critical => "CRITICAL"
    case High => "HIGH"
    case Medium => "MEDIUM"
    case Low => "LOW"
    case Unknown => "UNKNOWN"
  }

  /** The word used in the CSV header. */
  function ColumnName(s: Severity): string {
    match s
    case Critical => "Critical"
    case High => "High"
    case Medium => "Medium"
    case Low => "Low"
    case Unknown => "Unknown"
  }

  /** Position of a severity's pair of columns after image and target. */
  function Column(s: Severity): nat {
    match s
    case Critical => 0
    case High => 1
    case Medium => 2
    case Low => 3
    case Unknown => 4
  }

  /** The `if`/`elif` chain: an exact, case-sensitive match against the five literals. */
  function Classify(text: string): (r: Option<Severity>)
    ensures r.Some? ==> Literal(r.value) == text
    ensures r.None? ==> forall s: Severity :: Literal(s) != text
  {
    if text == "CRITICAL" then Some(Critical)
    else if text == "HIGH" then Some(High)
    else if text == "MEDIUM" then Some(Medium)
    else if text == "LOW" then Some(Low)
    else if text == "UNKNOWN" then Some(Unknown)
    else None
  }

  datatype Counter = Counter(found: nat, fixed: nat)

  /** The ten entries of `vuln_count`, in dictionary order. */
  datatype Tally = Tally(critical: Counter, high: Counter, medium: Counter, low: Counter, unknown: Counter)

  const Zero := Counter(0, 0)
  const EmptyTally := Tally(Zero, Zero, Zero, Zero, Zero)

  function Get(t: Tally, s: Severity): Counter {
    match s
    case Critical => t.critical
    case High => t.high
    case Medium => t.medium
    case Low => t.low
    case Unknown => t.unknown
  }

  function Bump(c: Counter, v: Vuln): Counter {
    Counter(c.found + 1, if v.hasFixedVersion then c.fixed + 1 else c.fixed)
  }

  /** One iteration of the vulnerability loop. */
  function Count(t: Tally, v: Vuln): Tally {
    match Classify(v.severity)
    case None => t
    case Some(Critical) => t.(critical := Bump(t.critical, v))
    case Some(High) => t.(high := Bump(t.high, v))
    case Some(Medium) => t.(medium := Bump(t.medium, v))
    case Some(Low) => t.(low := Bump(t.low, v))
    case Some(Unknown) => t.(unknown := Bump(t.unknown, v))
  }

  /** The counters after the loop over `vulns`, in order. */
  function CountAll(vulns: seq<Vuln>): Tally
    decreases |vulns|
  {
    if vulns == [] then EmptyTally else Count(CountAll(vulns[..|vulns| - 1]), vulns[|vulns| - 1])
  }

  /** The vulnerabilities that reach the `else` branch and are only printed, in order. */
  function Unrecognised(vulns: seq<Vuln>): (u: seq<Vuln>)
    ensures |u| <= |vulns|
    ensures forall i :: 0 <= i < |u| ==> Classify(u[i].severity).None?
    decreases |vulns|
  {
    if vulns == [] then []
    else
      var last := vulns[|vulns| - 1];
      Unrecognised(vulns[..|vulns| - 1]) + (if Classify(last.severity).None? then [last] else [])
  }

  /** Reference reading: the positions whose severity is none of the five literals. */
  function UnrecognisedAt(vulns: seq<Vuln>): set<int> {
    set i | 0 <= i < |vulns| && Classify(vulns[i].severity).None?
  }

  /**
   * `Unrecognised` is the in-order filter: it keeps a single vulnerability exactly when its
   * severity is unrecognised, and it distributes over concatenation.
   */
  lemma {:induction false} UnrecognisedAppend(a: seq<Vuln>, b: seq<Vuln>)
    ensures Unrecognised(a + b) == Unrecognised(a) + Unrecognised(b)
    ensures |a| == 1 ==> Unrecognised(a) == if Classify(a[0].severity).None? then a else []
    decreases |b|
  {
    if |a| == 1 {
      assert a[..0] == [];
    }
    if b == [] {
      assert a + b == a;
    } else {
      var n := |b| - 1;
      assert (a + b)[..|a + b| - 1] == a + b[..n];
      assert (a + b)[|a + b| - 1] == b[n];
      UnrecognisedAppend(a, b[..n]);
      var keep := if Classify(b[n].severity).None? then [b[n]] else [];
      AppendAssoc(Unrecognised(a), Unrecognised(b[..n]), keep);
    }
  }

  /** Every vulnerability of unrecognised severity is collected, and nothing more: as many as there are such positions. */
  lemma {:induction false} UnrecognisedExactly(vulns: seq<Vuln>)
    ensures |Unrecognised(vulns)| == |UnrecognisedAt(vulns)|
    ensures forall i :: 0 <= i < |vulns| && Classify(vulns[i].severity).None? ==> vulns[i] in Unrecognised(vulns)
    decreases |vulns|
  {
    if vulns != [] {
      UnrecognisedExactly(vulns[..|vulns| - 1]);
      UnrecognisedAtSnoc(vulns);
    }
    forall i | 0 <= i < |vulns| && Classify(vulns[i].severity).None? ensures vulns[i] in Unrecognised(vulns) {
      UnrecognisedKeeps(vulns, i);
    }
  }

  lemma UnrecognisedAtSnoc(vulns: seq<Vuln>)
    requires vulns != []
    ensures var n := |vulns| - 1;
      |UnrecognisedAt(vulns)| == |UnrecognisedAt(vulns[..n])| + (if Classify(vulns[n].severity).None? then 1 else 0)
  {
    var n := |vulns| - 1;
    assert forall i :: 0 <= i < n ==> vulns[..n][i] == vulns[i];
    var last: set<int> := if Classify(vulns[n].severity).None? then {n} else {};
    assert UnrecognisedAt(vulns) == UnrecognisedAt(vulns[..n]) + last;
    assert n !in UnrecognisedAt(vulns[..n]);
  }

  /** A vulnerability of unrecognised severity is among those collected. */
  lemma {:induction false} UnrecognisedKeeps(vulns: seq<Vuln>, i: nat)
    requires i < |vulns| && Classify(vulns[i].severity).None?
    ensures vulns[i] in Unrecognised(vulns)
    decreases |vulns|
  {
    var n := |vulns| - 1;
    if i < n {
      var w := vulns[..n];
      assert w[i] == vulns[i];
      UnrecognisedKeeps(w, i);
      UnrecognisedGrows(vulns, w[i]);
    } else {
      UnrecognisedLast(vulns);
    }
  }

  lemma UnrecognisedGrows(vulns: seq<Vuln>, v: Vuln)
    requires vulns != [] && v in Unrecognised(vulns[..|vulns| - 1])
    ensures v in Unrecognised(vulns)
  {
  }

  lemma UnrecognisedLast(vulns: seq<Vuln>)
    requires vulns != [] && Classify(vulns[|vulns| - 1].severity).None?
    ensures vulns[|vulns| - 1] in Unrecognised(vulns)
  {
    var u := Unrecognised(vulns[..|vulns| - 1]);
    assert Unrecognised(vulns)[|u|] == vulns[|vulns| - 1];
  }

  /** Reference counts: the positions whose severity is exactly the literal, and those of them with a fix. */
  function FoundAt(vulns: seq<Vuln>, s: Severity): set<int> {
    set i | 0 <= i < |vulns| && vulns[i].severity == Literal(s)
  }

  function FixedAt(vulns: seq<Vuln>, s: Severity): set<int> {
    set i | 0 <= i < |vulns| && vulns[i].severity == Literal(s) && vulns[i].hasFixedVersion
  }

  lemma FoundAtSnoc(vulns: seq<Vuln>, s: Severity)
    requires vulns != []
    ensures var n := |vulns| - 1;
      FoundAt(vulns, s) == FoundAt(vulns[..n], s) + (if vulns[n].severity == Literal(s) then {n} else {})
    ensures var n := |vulns| - 1;
      FixedAt(vulns, s) == FixedAt(vulns[..n], s) + (if vulns[n].severity == Literal(s) && vulns[n].hasFixedVersion then {n} else {})
  {
    var n := |vulns| - 1;
    assert forall i :: 0 <= i < n ==> vulns[..n][i] == vulns[i];
  }

  /** One iteration touches only the counter of the vulnerability's own severity. */
  lemma CountStep(t: Tally, v: Vuln, s: Severity)
    ensures Get(Count(t, v), s) == if v.severity == Literal(s) then Bump(Get(t, s), v) else Get(t, s)
  {
    if v.severity == Literal(s) {
      assert Classify(v.severity) == Some(s);
    } else {
      assert Classify(v.severity) != Some(s);
    }
  }

  /**
   * Each Found counter is the number of vulnerabilities whose severity is exactly that
   * literal, and each Fixed counter the number of those that carry a fixed version.
   */
  lemma {:induction false} TallyCounts(vulns: seq<Vuln>, s: Severity)
    ensures Get(CountAll(vulns), s).found == |FoundAt(vulns, s)|
    ensures Get(CountAll(vulns), s).fixed == |FixedAt(vulns, s)|
    decreases |vulns|
  {
    if vulns != [] {
      var n := |vulns| - 1;
      TallyCounts(vulns[..n], s);
      FoundAtSnoc(vulns, s);
      CountStep(CountAll(vulns[..n]), vulns[n], s);
      assert n !in FoundAt(vulns[..n], s) && n !in FixedAt(vulns[..n], s);
    }
  }

  /** A counter never records more fixes than findings. */
  lemma {:induction false} FixedAtMostFound(vulns: seq<Vuln>, s: Severity)
    ensures Get(CountAll(vulns), s).fixed <= Get(CountAll(vulns), s).found
    decreases |vulns|
  {
    if vulns != [] {
      FixedAtMostFound(vulns[..|vulns| - 1], s);
    }
  }

  function FoundTotal(t: Tally): nat {
    t.critical.found + t.high.found + t.medium.found + t.low.found + t.unknown.found
  }

  /** Every vulnerability is counted once under its severity or set aside as unrecognised. */
  lemma {:induction false} EveryVulnCountedOnce(vulns: seq<Vuln>)
    ensures FoundTotal(CountAll(vulns)) + |Unrecognised(vulns)| == |vulns|
    decreases |vulns|
  {
    if vulns != [] {
      var n := |vulns| - 1;
      EveryVulnCountedOnce(vulns[..n]);
      FoundTotalStep(CountAll(vulns[..n]), vulns[n]);
      assert |Unrecognised(vulns)| == |Unrecognised(vulns[..n])| + (if Classify(vulns[n].severity).None? then 1 else 0);
    }
  }

  /** One iteration adds one finding exactly when the severity is recognised. */
  lemma FoundTotalStep(t: Tally, v: Vuln)
    ensures FoundTotal(Count(t, v)) == FoundTotal(t) + (if Classify(v.severity).Some? then 1 else 0)
  {
  }

  // ---- CSV rows ----

  const Header: seq<string> := ["Image", "Finding Target",
    "Critical Found", "Critical Fixed", "High Found", "High Fixed", "Medium Found", "Medium Fixed",
    "Low Found", "Low Fixed", "Unknown Found", "Unknown Fixed"]

  datatype Row = NoResultsRow(image: string) | CountsRow(image: string, target: string, tally: Tally)

  function CounterCells(c: Counter): seq<string> {
    [NatToString(c.found), NatToString(c.fixed)]
  }

  /** The cells `csv_writer.writerow` receives. */
  function Cells(r: Row): (cells: seq<string>)
    ensures r.NoResultsRow? ==> cells == [r.image, "No results"]
    ensures r.CountsRow? ==> |cells| == |Header| && cells[0] == r.image && cells[1] == r.target
  {
    match r
    case NoResultsRow(image) => [image, "No results"]
    case CountsRow(image, target, t) =>
      [image, target] + CounterCells(t.critical) + CounterCells(t.high)
        + CounterCells(t.medium) + CounterCells(t.low) + CounterCells(t.unknown)
  }

  /** Each severity's counters sit under the header columns named after it. */
  lemma CellsUnderHeader(r: Row, s: Severity)
    requires r.CountsRow?
    ensures Header[2 + 2 * Column(s)] == ColumnName(s) + " Found"
    ensures Header[3 + 2 * Column(s)] == ColumnName(s) + " Fixed"
    ensures Cells(r)[2 + 2 * Column(s)] == NatToString(Get(r.tally, s).found)
    ensures Cells(r)[3 + 2 * Column(s)] == NatToString(Get(r.tally, s).fixed)
  {
    HeaderColumn(s);
    CounterColumn(r, s);
  }

  /** Line 48 names the columns `2 + 2k` and `3 + 2k` after the k-th severity. */
  lemma HeaderColumn(s: Severity)
    ensures Header[2 + 2 * Column(s)] == ColumnName(s) + " Found"
    ensures Header[3 + 2 * Column(s)] == ColumnName(s) + " Fixed"
  {
    match s
    case Critical => assert Header[2] == "Critical" + " Found" && Header[3] == "Critical" + " Fixed";
    case High => assert Header[4] == "High" + " Found" && Header[5] == "High" + " Fixed";
    case Medium => assert Header[6] == "Medium" + " Found" && Header[7] == "Medium" + " Fixed";
    case Low => assert Header[8] == "Low" + " Found" && Header[9] == "Low" + " Fixed";
    case Unknown => assert Header[10] == "Unknown" + " Found" && Header[11] == "Unknown" + " Fixed";
  }

  lemma CounterColumn(r: Row, s: Severity)
    requires r.CountsRow?
    ensures Cells(r)[2 + 2 * Column(s)..4 + 2 * Column(s)] == CounterCells(Get(r.tally, s))
  {
    var t := r.tally;
    var front := [r.image, r.target];
    var cells := Cells(r);
    assert cells == front + CounterCells(t.critical) + CounterCells(t.high)
      + CounterCells(t.medium) + CounterCells(t.low) + CounterCells(t.unknown);
    match s
    case Critical => assert cells[2..4] == CounterCells(t.critical);
    case High => assert cells[4..6] == CounterCells(t.high);
    case Medium => assert cells[6..8] == CounterCells(t.medium);
    case Low => assert cells[8..10] == CounterCells(t.low);
    case Unknown => assert cells[10..12] == CounterCells(t.unknown);
  }

  /** Reading a counts row's cells back as decimals recovers every counter. */
  lemma CellsReadBack(r: Row, s: Severity)
    requires r.CountsRow?
    ensures AllDigits(Cells(r)[2 + 2 * Column(s)]) && AllDigits(Cells(r)[3 + 2 * Column(s)])
    ensures DigitsValue(Cells(r)[2 + 2 * Column(s)]) == Get(r.tally, s).found
    ensures DigitsValue(Cells(r)[3 + 2 * Column(s)]) == Get(r.tally, s).fixed
  {
    CellsUnderHeader(r, s);
    NatToStringRoundTrip(Get(r.tally, s).found);
    NatToStringRoundTrip(Get(r.tally, s).fixed);
  }

  // ---- Targets and display names ----

  /** Python's `s[:-1]`. */
  function DropLast(s: string): string {
    if s == [] then [] else s[..|s| - 1]
  }

  /** Lines 70-71: a target with both parentheses keeps what follows the first `(` up to the next `(`, less its last character. */
  function NormalizeTarget(t: string): string {
    if Contains(t, "(") && Contains(t, ")") then DropLast(Split(t, "(")[1]) else t
  }

  /** An OS finding `image (os)` becomes `os`. */
  lemma NormalizeOsTarget(prefix: string, os: string)
    requires '(' !in prefix && '(' !in os
    ensures NormalizeTarget(prefix + "(" + os + ")") == os
  {
    var u := os + ")";
    assert prefix + "(" + os + ")" == prefix + "(" + u;
    assert u[|os|] == ')';
    BothParentheses(prefix, u);
    AfterFirstParenthesis(prefix, u);
    assert '(' !in u;
    SplitNoChar(u, '(');
    assert DropLast(u) == os;
  }

  /** A target lacking either parenthesis is kept as it is. */
  lemma NormalizeKeepsPlainTarget(t: string)
    requires '(' !in t || ')' !in t
    ensures NormalizeTarget(t) == t
  {
    ContainsChar(t, '(');
    ContainsChar(t, ')');
  }

  lemma NormalizeDebianExample()
    ensures NormalizeTarget("myimage (debian 11)") == "debian 11"
  {
    assert "myimage (debian 11)" == "myimage " + "(" + "debian 11" + ")";
    NormalizeOsTarget("myimage ", "debian 11");
  }

  /**
   * With a second `(` after the first, what is kept is the text between them, less its
   * last character: the first group, not the innermost one.
   */
  lemma NormalizeFirstGroup(prefix: string, group: string, rest: string)
    requires '(' !in prefix && '(' !in group && ')' in rest
    ensures NormalizeTarget(prefix + "(" + group + "(" + rest) == DropLast(group)
  {
    var u := group + "(" + rest;
    var t := prefix + "(" + u;
    assert t == prefix + "(" + group + "(" + rest;
    BothParentheses(prefix, u);
    AfterFirstParenthesis(prefix, u);
    assert u[|group|] == '(' && u[..|group|] == group;
    SplitAtFirstChar(u, '(', |group|);
  }

  /**
   * Every target with both parentheses: what follows its first `(`, up to the next `(`
   * or the end, less the last character.
   */
  lemma NormalizeBracketedTarget(prefix: string, u: string)
    requires '(' !in prefix && (')' in prefix || ')' in u)
    ensures var g := Split(u, "(")[0];
      && StartsWith(u, g) && '(' !in g && (g == u || u[|g|] == '(')
      && NormalizeTarget(prefix + "(" + u) == DropLast(g)
  {
    BothParentheses(prefix, u);
    AfterFirstParenthesis(prefix, u);
    SplitFirstPart(u, '(');
  }

  lemma BothParentheses(prefix: string, u: string)
    requires ')' in prefix || ')' in u
    ensures Contains(prefix + "(" + u, "(") && Contains(prefix + "(" + u, ")")
  {
    var t := prefix + "(" + u;
    if ')' in u {
      var j :| 0 <= j < |u| && u[j] == ')';
      assert t[|prefix| + 1 + j] == ')';
    } else {
      var j :| 0 <= j < |prefix| && prefix[j] == ')';
      assert t[j] == ')';
    }
    assert t[|prefix|] == '(';
    ContainsChar(t, '(');
    ContainsChar(t, ')');
  }

  lemma AfterFirstParenthesis(prefix: string, u: string)
    requires '(' !in prefix
    ensures |Split(prefix + "(" + u, "(")| >= 2
    ensures Split(prefix + "(" + u, "(")[1] == Split(u, "(")[0]
  {
    var t := prefix + "(" + u;
    assert t[|prefix|] == '(' && t[..|prefix|] == prefix && t[|prefix| + 1..] == u;
    SplitAtFirstChar(t, '(', |prefix|);
  }

  lemma NormalizeNestedExample()
    ensures NormalizeTarget("img (x (y))") == "x"
  {
    assert "img (x (y))" == "img " + "(" + "x " + "(" + "y))";
    assert "y))"[1] == ')';
    NormalizeFirstGroup("img ", "x ", "y))");
  }

  /** Lines 123-126: drop the registry host of an ECR reference, then cut the tag. */
  function DisplayName(name: string): (r: string)
    ensures ':' !in r
  {
    var a := if Contains(name, ".amazonaws.com/") then Join(Split(name, "/")[1..], "/") else name;
    ContainsChar(a, ':');
    if Contains(a, ":") then
      SplitPartsSepFree(a, ":");
      SepFreeChar(Split(a, ":")[0], ':');
      Split(a, ":")[0]
    else a
  }

  /** A name without `.amazonaws.com/` keeps its host and loses everything from its first `:` on. */
  lemma DisplayNameOfOtherReference(name: string)
    requires !Contains(name, ".amazonaws.com/")
    ensures var r := DisplayName(name);
      StartsWith(name, r) && ':' !in r && (r == name || name[|r|] == ':')
  {
    ContainsChar(name, ':');
    SplitFirstPart(name, ':');
  }

  /** The display name of `{account}.dkr.ecr.{region}.amazonaws.com/{repo}:{tag}` is `repo`. */
  lemma DisplayNameOfEcrReference(host: string, repo: string, tag: string)
    requires '/' !in host && EndsWith(host, ".amazonaws.com") && ':' !in repo
    ensures DisplayName(host + "/" + repo + ":" + tag) == repo
  {
    var rest := repo + ":" + tag;
    DropHost(host, rest);
    CutTag(repo, tag);
    assert host + "/" + repo + ":" + tag == host + "/" + rest;
  }

  lemma DropHost(host: string, rest: string)
    requires '/' !in host && EndsWith(host, ".amazonaws.com")
    ensures Contains(host + "/" + rest, ".amazonaws.com/")
    ensures Join(Split(host + "/" + rest, "/")[1..], "/") == rest
  {
    var name := host + "/" + rest;
    var k := |host| - |".amazonaws.com"|;
    assert name[k..k + |".amazonaws.com/"|] == host[k..] + "/";
    ContainsAt(name, ".amazonaws.com/", k);
    assert name[|host|] == '/' && name[..|host|] == host && name[|host| + 1..] == rest;
    SplitAtFirstChar(name, '/', |host|);
    SplitJoinsBack(rest, "/");
  }

  lemma CutTag(repo: string, tag: string)
    requires ':' !in repo
    ensures Contains(repo + ":" + tag, ":") && Split(repo + ":" + tag, ":")[0] == repo
  {
    var rest := repo + ":" + tag;
    assert rest[|repo|] == ':' && rest[..|repo|] == repo;
    SplitAtFirstChar(rest, ':', |repo|);
    ContainsChar(rest, ':');
  }

  // ---- The listing ----

  /** A listing entry: the four counts it is sorted by and its line. */
  datatype Entry = Entry(critical: nat, high: nat, medium: nat, low: nat, line: string)

  /** `f"{image_name} & {result_target} & {c} & {h} & {m} & {l} \\\\ \\hline"`. */
  function LatexLine(name: string, target: string, t: Tally): string {
    name + " & " + target + " & " + NatToString(t.critical.found) + " & " + NatToString(t.high.found)
      + " & " + NatToString(t.medium.found) + " & " + NatToString(t.low.found) + " \\\\ \\hline"
  }

  function MakeEntry(name: string, target: string, t: Tally): Entry {
    Entry(t.critical.found, t.high.found, t.medium.found, t.low.found, LatexLine(name, target, t))
  }

  /** `sort(reverse=True)` on the count tuple, as an ascending stable sort on the negated tuple. */
  function SortKey(e: Entry): seq<int> {
    [-(e.critical as int), -(e.high as int), -(e.medium as int), -(e.low as int)]
  }

  /** `a` belongs no later than `b`: its (critical, high, medium, low) tuple is not smaller. */
  predicate RanksAbove(a: Entry, b: Entry) {
    a.critical > b.critical || (a.critical == b.critical &&
    (a.high > b.high || (a.high == b.high &&
    (a.medium > b.medium || (a.medium == b.medium && a.low >= b.low)))))
  }

  lemma SortKeyOrder(a: Entry, b: Entry)
    ensures LexLe(SortKey(a), SortKey(b)) <==> RanksAbove(a, b)
  {
    var ka, kb := SortKey(a), SortKey(b);
    assert ka[1..] == [-(a.high as int), -(a.medium as int), -(a.low as int)];
    assert kb[1..] == [-(b.high as int), -(b.medium as int), -(b.low as int)];
    assert ka[1..][1..] == [-(a.medium as int), -(a.low as int)] && kb[1..][1..] == [-(b.medium as int), -(b.low as int)];
    assert ka[1..][1..][1..] == [-(a.low as int)] && kb[1..][1..][1..] == [-(b.low as int)];
    assert ka[1..][1..][1..][1..] == [] && kb[1..][1..][1..][1..] == [];
    assert LexLe(ka[1..][1..][1..], kb[1..][1..][1..]) <==> a.low >= b.low;
    assert LexLe(ka[1..][1..], kb[1..][1..]) <==> a.medium > b.medium || (a.medium == b.medium && a.low >= b.low);
    assert LexLe(ka[1..], kb[1..]) <==>
      (a.high > b.high || (a.high == b.high && (a.medium > b.medium || (a.medium == b.medium && a.low >= b.low))));
  }

  /** Lines 131-135: the sorted entries. */
  function SortEntries(entries: seq<Entry>): seq<Entry> {
    Sort(entries, SortKey)
  }

  /**
   * The listing is a rearrangement of the entries, in descending (critical, high, medium,
   * low) order, and entries with equal counts keep the order they were added in.
   */
  lemma ListingOrder(entries: seq<Entry>)
    ensures multiset(SortEntries(entries)) == multiset(entries)
    ensures var s := SortEntries(entries);
      forall i, j :: 0 <= i < j < |s| ==> RanksAbove(s[i], s[j])
    ensures StableOf(SortEntries(entries), entries, SortKey)
  {
    SortPermutes(entries, SortKey);
    SortSorted(entries, SortKey);
    SortStable(entries, SortKey);
    var s := SortEntries(entries);
    forall i, j | 0 <= i < j < |s| ensures RanksAbove(s[i], s[j]) {
      SortKeyOrder(s[i], s[j]);
    }
  }

  // ---- The loops ----

  /** Why `create_dashboard` stops. */
  datatype Failure =
    | UndecodableFile(path: string)    // `None.get` after a decode error
    | MissingResults(image: string)    // `for result in None` after the "No results" row
    | MissingVulnerabilities(image: string, target: string)

  /** What a stretch of the loop produced: CSV rows, listing entries, unrecognised findings, and a failure if it stopped. */
  datatype Piece = Piece(rows: seq<Row>, entries: seq<Entry>, unrecognised: seq<Vuln>, failure: Option<Failure>)

  const Nothing := Piece([], [], [], None)

  /**
   * The loop over one report's results. `image` is the current value of `image_name`;
   * `reassign` chooses whether the listing's shortened name is written back to it, as the
   * script does, or not.
   */
  function ResultsLoop(image: string, results: seq<ResultEntry>, printLatex: bool, reassign: bool): Piece
    decreases |results|
  {
    if results == [] then Nothing
    else
      var r := results[0];
      var target := NormalizeTarget(r.target);
      if IsSecretClass(r) then ResultsLoop(image, results[1..], printLatex, reassign)
      else match r.vulns
        case None => Piece([], [], [], Some(MissingVulnerabilities(image, target)))
        case Some(vs) =>
          var t := CountAll(vs);
          var name := DisplayName(image);
          var next := if printLatex && reassign then name else image;
          var rest := ResultsLoop(next, results[1..], printLatex, reassign);
          Piece([CountsRow(image, target, t)] + rest.rows,
                (if printLatex then [MakeEntry(name, target, t)] else []) + rest.entries,
                Unrecognised(vs) + rest.unrecognised,
                rest.failure)
  }

  /** One iteration on a result with vulnerabilities. */
  lemma LoopStep(image: string, rs: seq<ResultEntry>, printLatex: bool, reassign: bool)
    requires rs != [] && !IsSecretClass(rs[0]) && rs[0].vulns.Some?
    ensures var t := CountAll(rs[0].vulns.value);
      var target := NormalizeTarget(rs[0].target);
      var name := DisplayName(image);
      var q := ResultsLoop(if printLatex && reassign then name else image, rs[1..], printLatex, reassign);
      var p := ResultsLoop(image, rs, printLatex, reassign);
      && p.rows == [CountsRow(image, target, t)] + q.rows
      && p.entries == (if printLatex then [MakeEntry(name, target, t)] else []) + q.entries
      && p.failure == q.failure
  {
  }

  lemma LatexLineStarts(name: string, target: string, t: Tally)
    ensures StartsWith(LatexLine(name, target, t), name + " & ")
  {
    var line := LatexLine(name, target, t);
    assert line[..|name + " & "|] == name + " & ";
  }

  /** One report, as the script handles it. */
  function ReportPiece(rep: Report, printLatex: bool): Piece {
    match rep.results
    case None => Piece([NoResultsRow(rep.artifactName)], [], [], Some(MissingResults(rep.artifactName)))
    case Some(rs) => ResultsLoop(rep.artifactName, rs, printLatex, true)
  }

  /** The loop over the files, stopping at the first failure. */
  function FilesLoop(files: seq<Found>, printLatex: bool): Piece {
    if files == [] then Nothing
    else if !IsJsonFile(files[0]) then FilesLoop(files[1..], printLatex)
    else match files[0].content
      case Undecodable => Piece([], [], [], Some(UndecodableFile(files[0].path)))
      case Decoded(rep) =>
        var p := ReportPiece(rep, printLatex);
        if p.failure.Some? then p
        else
          var rest := FilesLoop(files[1..], printLatex);
          Piece(p.rows + rest.rows, p.entries + rest.entries, p.unrecognised + rest.unrecognised, rest.failure)
  }

  /** Everything the script produces: the CSV, the findings it could not classify, the printed listing, and the failure if any. */
  datatype Output = Output(csv: seq<seq<string>>, unrecognised: seq<Vuln>, listing: seq<string>, failure: Option<Failure>)

  function Lines(entries: seq<Entry>): (ls: seq<string>)
    ensures |ls| == |entries| && forall i :: 0 <= i < |entries| ==> ls[i] == entries[i].line
  {
    if entries == [] then [] else [entries[0].line] + Lines(entries[1..])
  }

  function AllCells(rows: seq<Row>): (cs: seq<seq<string>>)
    ensures |cs| == |rows| && forall i :: 0 <= i < |rows| ==> cs[i] == Cells(rows[i])
  {
    if rows == [] then [] else [Cells(rows[0])] + AllCells(rows[1..])
  }

  /** `create_dashboard(out_file_name, print_latex)`; the listing is printed only if the loop ran to the end. */
  function CreateDashboard(files: seq<Found>, printLatex: bool): Output {
    var p := FilesLoop(files, printLatex);
    Output([Header] + AllCells(p.rows), p.unrecognised,
      if printLatex && p.failure.None? then Lines(SortEntries(p.entries)) else [],
      p.failure)
  }

  // ---- Properties of the loops ----

  /** The results that are not of class secret, in order. */
  function NonSecret(rs: seq<ResultEntry>): seq<ResultEntry> {
    if rs == [] then [] else (if IsSecretClass(rs[0]) then [] else [rs[0]]) + NonSecret(rs[1..])
  }

  /** Secret-class results produce no row and no listing entry: the loop behaves as if they were absent. */
  lemma {:induction false} SecretsProduceNothing(image: string, rs: seq<ResultEntry>, printLatex: bool, reassign: bool)
    ensures ResultsLoop(image, rs, printLatex, reassign) == ResultsLoop(image, NonSecret(rs), printLatex, reassign)
    decreases |rs|
  {
    if rs != [] {
      var rest := NonSecret(rs[1..]);
      if IsSecretClass(rs[0]) {
        SecretsProduceNothing(image, rs[1..], printLatex, reassign);
        assert NonSecret(rs) == [] + rest == rest;
      } else {
        var t := [rs[0]] + rest;
        assert NonSecret(rs) == t;
        assert t[0] == rs[0] && t[1..] == rest;
        var next := if printLatex && reassign then DisplayName(image) else image;
        SecretsProduceNothing(next, rs[1..], printLatex, reassign);
      }
    }
  }

  /** `image_name` after `k` iterations that shorten it. */
  function Shortened(name: string, k: nat): string {
    if k == 0 then name else DisplayName(Shortened(name, k - 1))
  }

  /**
   * As written, the `k`-th row of a report carries the artifact name shortened `k` times
   * when the listing is on, and the listing entry of that row the name shortened `k + 1` times.
   */
  lemma RowNamesAsWritten(image: string, rs: seq<ResultEntry>, printLatex: bool, k: nat)
    requires forall i :: 0 <= i < |rs| ==> !IsSecretClass(rs[i]) && rs[i].vulns.Some?
    requires k < |rs|
    ensures var p := ResultsLoop(image, rs, printLatex, true);
      && |p.rows| == |rs|
      && p.rows[k].image == (if printLatex then Shortened(image, k) else image)
      && (printLatex ==> |p.entries| == |rs| && StartsWith(p.entries[k].line, Shortened(image, k + 1) + " & "))
  {
    RowImagesAsWritten(image, rs, printLatex, k);
    if printLatex {
      EntryNamesAsWritten(image, rs, k);
    }
  }

  /** The rest of a report's results: still all non-secret with vulnerabilities. */
  lemma TailAllCounted(rs: seq<ResultEntry>)
    requires rs != [] && forall i :: 0 <= i < |rs| ==> !IsSecretClass(rs[i]) && rs[i].vulns.Some?
    ensures forall i :: 0 <= i < |rs[1..]| ==> !IsSecretClass(rs[1..][i]) && rs[1..][i].vulns.Some?
  {
    forall i | 0 <= i < |rs[1..]| ensures !IsSecretClass(rs[1..][i]) && rs[1..][i].vulns.Some? {
      assert rs[1..][i] == rs[i + 1];
    }
  }

  lemma {:induction false} RowImagesAsWritten(image: string, rs: seq<ResultEntry>, printLatex: bool, k: nat)
    requires forall i :: 0 <= i < |rs| ==> !IsSecretClass(rs[i]) && rs[i].vulns.Some?
    requires k < |rs|
    ensures var p := ResultsLoop(image, rs, printLatex, true);
      |p.rows| == |rs| && p.rows[k].image == (if printLatex then Shortened(image, k) else image)
    decreases |rs|
  {
    var next := if printLatex then DisplayName(image) else image;
    var q := ResultsLoop(next, rs[1..], printLatex, true);
    var p := ResultsLoop(image, rs, printLatex, true);
    LoopStep(image, rs, printLatex, true);
    if |rs| == 1 {
      assert q == Nothing;
    } else {
      TailAllCounted(rs);
      RowImagesAsWritten(next, rs[1..], printLatex, if k == 0 then 0 else k - 1);
    }
    var row := CountsRow(image, NormalizeTarget(rs[0].target), CountAll(rs[0].vulns.value));
    RowShift(p, q, row, k);
    if k > 0 && printLatex {
      ShortenedShift(image, k - 1);
    }
  }

  lemma {:induction false} EntryNamesAsWritten(image: string, rs: seq<ResultEntry>, k: nat)
    requires forall i :: 0 <= i < |rs| ==> !IsSecretClass(rs[i]) && rs[i].vulns.Some?
    requires k < |rs|
    ensures var p := ResultsLoop(image, rs, true, true);
      |p.entries| == |rs| && StartsWith(p.entries[k].line, Shortened(image, k + 1) + " & ")
    decreases |rs|
  {
    var next := DisplayName(image);
    var q := ResultsLoop(next, rs[1..], true, true);
    var p := ResultsLoop(image, rs, true, true);
    LoopStep(image, rs, true, true);
    if |rs| == 1 {
      assert q == Nothing;
    } else {
      TailAllCounted(rs);
      EntryNamesAsWritten(next, rs[1..], if k == 0 then 0 else k - 1);
    }
    var t := CountAll(rs[0].vulns.value);
    var target := NormalizeTarget(rs[0].target);
    EntryShift(p, q, MakeEntry(next, target, t), k);
    if k == 0 {
      LatexLineStarts(next, target, t);
      assert Shortened(image, 1) == next;
    } else {
      ShortenedShift(image, k);
    }
  }

  /** The first entry of a listing iteration is its own; past it come those of the rest of the loop. */
  lemma EntryShift(p: Piece, q: Piece, e: Entry, k: nat)
    requires p.entries == [e] + q.entries && k <= |q.entries|
    ensures p.entries[0] == e && (0 < k ==> p.entries[k] == q.entries[k - 1])
  {
  }

  /** The first row of a loop iteration is its own; past it come those of the rest of the loop. */
  lemma RowShift(p: Piece, q: Piece, row: Row, k: nat)
    requires p.rows == [row] + q.rows && k <= |q.rows|
    ensures p.rows[0] == row && (0 < k ==> p.rows[k] == q.rows[k - 1])
  {
  }

  lemma {:induction false} ShortenedShift(name: string, k: nat)
    ensures Shortened(DisplayName(name), k) == Shortened(name, k + 1)
  {
    if k > 0 {
      ShortenedShift(name, k - 1);
    }
  }

  /** Without the write-back, every row of a report carries the artifact name and every entry its display name. */
  lemma {:induction false} RowNamesIntended(image: string, rs: seq<ResultEntry>, printLatex: bool)
    requires forall i :: 0 <= i < |rs| ==> !IsSecretClass(rs[i]) && rs[i].vulns.Some?
    ensures var p := ResultsLoop(image, rs, printLatex, false);
      && |p.rows| == |rs|
      && (forall k :: 0 <= k < |rs| ==> p.rows[k].image == image)
      && (printLatex ==> |p.entries| == |rs|)
      && (printLatex ==> forall k :: 0 <= k < |rs| ==> StartsWith(p.entries[k].line, DisplayName(image) + " & "))
    decreases |rs|
  {
    if rs != [] {
      forall i | 0 <= i < |rs[1..]| ensures !IsSecretClass(rs[1..][i]) && rs[1..][i].vulns.Some? {
        assert rs[1..][i] == rs[i + 1];
      }
      RowNamesIntended(image, rs[1..], printLatex);
      LoopStep(image, rs, printLatex, false);
      LatexLineStarts(DisplayName(image), NormalizeTarget(rs[0].target), CountAll(rs[0].vulns.value));
    }
  }

  /** The report loop without the write-back of the shortened name. */
  function ReportPieceIntended(rep: Report, printLatex: bool): Piece {
    match rep.results
    case None => Piece([NoResultsRow(rep.artifactName)], [], [], Some(MissingResults(rep.artifactName)))
    case Some(rs) => ResultsLoop(rep.artifactName, rs, printLatex, false)
  }

  /** With the write-back removed, every CSV row of a report names its artifact in full. */
  lemma ReportRowsIntended(rep: Report, printLatex: bool)
    requires rep.results.Some?
    requires forall i :: 0 <= i < |rep.results.value| ==> rep.results.value[i].vulns.Some?
    ensures var p := ReportPieceIntended(rep, printLatex);
      p.failure.None? && forall k :: 0 <= k < |p.rows| ==> p.rows[k].image == rep.artifactName
  {
    var rs := rep.results.value;
    SecretsProduceNothing(rep.artifactName, rs, printLatex, false);
    NonSecretKeepsVulns(rs);
    RowNamesIntended(rep.artifactName, NonSecret(rs), printLatex);
    NoFailureWithVulns(rep.artifactName, NonSecret(rs), printLatex, false);
  }

  lemma {:induction false} NonSecretKeepsVulns(rs: seq<ResultEntry>)
    requires forall i :: 0 <= i < |rs| ==> rs[i].vulns.Some?
    ensures forall i :: 0 <= i < |NonSecret(rs)| ==> !IsSecretClass(NonSecret(rs)[i]) && NonSecret(rs)[i].vulns.Some?
  {
    if rs != [] {
      forall i | 0 <= i < |rs[1..]| ensures rs[1..][i].vulns.Some? {
        assert rs[1..][i] == rs[i + 1];
      }
      NonSecretKeepsVulns(rs[1..]);
    }
  }

  lemma {:induction false} NoFailureWithVulns(image: string, rs: seq<ResultEntry>, printLatex: bool, reassign: bool)
    requires forall i :: 0 <= i < |rs| ==> rs[i].vulns.Some?
    ensures ResultsLoop(image, rs, printLatex, reassign).failure.None?
    decreases |rs|
  {
    if rs != [] {
      forall i | 0 <= i < |rs[1..]| ensures rs[1..][i].vulns.Some? {
        assert rs[1..][i] == rs[i + 1];
      }
      NoFailureWithVulns(image, rs[1..], printLatex, reassign);
      NoFailureWithVulns(DisplayName(image), rs[1..], printLatex, reassign);
    }
  }

  /** A result the loop can get past: a secret, or one that has `Vulnerabilities`. */
  predicate Countable(r: ResultEntry) {
    IsSecretClass(r) || r.vulns.Some?
  }

  /** A file the loop can get past: not a report file, or a decodable report that has `Results`, all countable. */
  predicate Processable(f: Found) {
    !IsJsonFile(f) ||
    (f.content.Decoded? && f.content.report.results.Some? &&
     forall i :: 0 <= i < |f.content.report.results.value| ==> Countable(f.content.report.results.value[i]))
  }

  lemma {:induction false} ResultsLoopCompletesIff(image: string, rs: seq<ResultEntry>, printLatex: bool, reassign: bool)
    ensures ResultsLoop(image, rs, printLatex, reassign).failure.None? <==> forall i :: 0 <= i < |rs| ==> Countable(rs[i])
    decreases |rs|
  {
    if rs != [] {
      ResultsLoopCompletesIff(image, rs[1..], printLatex, reassign);
      ResultsLoopCompletesIff(DisplayName(image), rs[1..], printLatex, reassign);
      assert forall i :: 1 <= i < |rs| ==> rs[i] == rs[1..][i - 1];
    }
  }

  /** `create_dashboard` runs to the end, and prints its listing, exactly when every file is processable. */
  lemma {:induction false} DashboardCompletesIff(files: seq<Found>, printLatex: bool)
    ensures CreateDashboard(files, printLatex).failure.None? <==> forall i :: 0 <= i < |files| ==> Processable(files[i])
    decreases |files|
  {
    if files != [] {
      DashboardCompletesIff(files[1..], printLatex);
      assert forall i :: 1 <= i < |files| ==> files[i] == files[1..][i - 1];
      var f := files[0];
      if IsJsonFile(f) && f.content.Decoded? && f.content.report.results.Some? {
        ResultsLoopCompletesIff(f.content.report.artifactName, f.content.report.results.value, printLatex, true);
      }
    }
  }

  /** A vulnerability-free operating-system result. */
  const CleanResult := ResultEntry("app (alpine 3.18)", Some("os-pkgs"), Some([]), None)

  /** The sample ECR reference `123456789012.dkr.ecr.eu-west-1.amazonaws.com/app:latest` displays as `app`. */
  lemma SampleDisplayName()
    ensures DisplayName(EcrImage.SampleImage) == "app"
  {
    var host := EcrImage.EcrHost(EcrImage.SampleAccount, EcrImage.SampleRegion);
    assert '/' !in host;
    assert EndsWith(host, ".amazonaws.com") by {
      assert host[|host| - |EcrImage.AwsDomain|..] == EcrImage.AwsDomain;
    }
    assert EcrImage.SampleImage == host + "/" + "app" + ":" + "latest";
    DisplayNameOfEcrReference(host, "app", "latest");
  }

  /**
   * As written, a report on an ECR image with two results gives two CSV rows whose Image
   * cells differ: the second shows only the repository name.
   */
  lemma ReassignmentWitness()
    ensures var p := ReportPiece(Report(EcrImage.SampleImage, Some([CleanResult, CleanResult])), true);
      |p.rows| == 2 && p.rows[0].image == EcrImage.SampleImage && p.rows[1].image == "app"
  {
    var rs := [CleanResult, CleanResult];
    SampleDisplayName();
    RowNamesAsWritten(EcrImage.SampleImage, rs, true, 0);
    RowNamesAsWritten(EcrImage.SampleImage, rs, true, 1);
  }
}
