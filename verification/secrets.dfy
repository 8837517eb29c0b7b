/**
 * The secrets listing: `find_secrets_in_json` (find_secrets.py), which reports a decode
 * error and goes on, and `find_secrets` of the dashboard script, whose `load_json`
 * prints the same error and then hands `None` on, so that `'Results' in None` stops the run.
 */
module Secrets {
  import opened Wrappers
  import opened Text
  import opened Report

  const FilePrefix := "File: "
  const MatchPrefix := "Match: "
  const DecodeErrorPrefix := "Error decoding JSON in file: "

  /** `f"Match: {secret.get('Match')}"`: a missing match prints as "None". */
  function MatchText(s: Secret): string {
    match s.matched
    case None => "None"
    case Some(m) => m
  }

  function MatchLines(ss: seq<Secret>): (ls: seq<string>)
    ensures |ls| == |ss|
    ensures forall i :: 0 <= i < |ss| ==> ls[i] == MatchPrefix + MatchText(ss[i])
  {
    if ss == [] then [] else [MatchPrefix + MatchText(ss[0])] + MatchLines(ss[1..])
  }

  /** The lines one result prints: a header and its matches if it is of class secret, else nothing. */
  function ResultLines(path: string, r: ResultEntry): seq<string> {
    if IsSecretClass(r) then
      [FilePrefix + path] + MatchLines(match r.secrets case None => [] case Some(ss) => ss)
    else []
  }

  function ResultsLines(path: string, rs: seq<ResultEntry>): seq<string> {
    if rs == [] then [] else ResultLines(path, rs[0]) + ResultsLines(path, rs[1..])
  }

  /** The lines one decoded report prints; a report without `Results` prints nothing. */
  function ReportLines(path: string, rep: Report): seq<string> {
    match rep.results
    case None => []
    case Some(rs) => ResultsLines(path, rs)
  }

  /** The lines one file prints under find_secrets.py. */
  function FileLines(f: Found): seq<string> {
    if !IsJsonFile(f) then []
    else match f.content
      case Undecodable => [DecodeErrorPrefix + f.path]
      case Decoded(rep) => ReportLines(f.path, rep)
  }

  /** find_secrets.py: every file in walk order; a decode error is reported and the walk goes on. */
  function FindSecretsInJson(files: seq<Found>): seq<string> {
    if files == [] then [] else FileLines(files[0]) + FindSecretsInJson(files[1..])
  }

  /** Lines printed, and whether the run stopped on an undecodable file. */
  datatype Listing = Listing(lines: seq<string>, crashed: bool)

  predicate IsUndecodableJson(f: Found) {
    IsJsonFile(f) && f.content.Undecodable?
  }

  /** `find_secrets` of the dashboard script: like the above, but the first undecodable file ends the run after its error line. */
  function FindSecrets(files: seq<Found>): Listing {
    if files == [] then Listing([], false)
    else if IsUndecodableJson(files[0]) then Listing(FileLines(files[0]), true)
    else
      var rest := FindSecrets(files[1..]);
      Listing(FileLines(files[0]) + rest.lines, rest.crashed)
  }

  // ---- Properties ----

  lemma FindSecretsInJsonAppend(a: seq<Found>, b: seq<Found>)
    ensures FindSecretsInJson(a + b) == FindSecretsInJson(a) + FindSecretsInJson(b)
  {
    if a == [] {
      assert a + b == b;
    } else {
      assert (a + b)[1..] == a[1..] + b;
      FindSecretsInJsonAppend(a[1..], b);
    }
  }

  /** Files are independent: what a file prints does not depend on the files around it, an undecodable one included. */
  lemma {:induction false} EachFileOnItsOwn(files: seq<Found>, i: nat)
    requires i < |files|
    ensures FindSecretsInJson(files) ==
      FindSecretsInJson(files[..i]) + FileLines(files[i]) + FindSecretsInJson(files[i + 1..])
  {
    assert files == files[..i] + ([files[i]] + files[i + 1..]);
    FindSecretsInJsonAppend(files[..i], [files[i]] + files[i + 1..]);
    FindSecretsInJsonAppend([files[i]], files[i + 1..]);
    assert FindSecretsInJson([files[i]]) == FileLines(files[i]) + FindSecretsInJson([]);
  }

  /** Only files whose name ends in ".json" are examined. */
  lemma {:induction false} OnlyJsonFilesExamined(files: seq<Found>)
    ensures FindSecretsInJson(files) == FindSecretsInJson(JsonFiles(files))
  {
    if files != [] {
      OnlyJsonFilesExamined(files[1..]);
      var head := if IsJsonFile(files[0]) then [files[0]] else [];
      FindSecretsInJsonAppend(head, JsonFiles(files[1..]));
      if IsJsonFile(files[0]) {
        assert FindSecretsInJson(head) == FileLines(files[0]) + FindSecretsInJson([]);
      }
    }
  }

  /** The secret-class results, in order. */
  function SecretResults(rs: seq<ResultEntry>): (s: seq<ResultEntry>)
    ensures |s| <= |rs|
    ensures forall i :: 0 <= i < |s| ==> IsSecretClass(s[i])
  {
    if rs == [] then [] else (if IsSecretClass(rs[0]) then [rs[0]] else []) + SecretResults(rs[1..])
  }

  /** Results of any other class print nothing. */
  lemma {:induction false} OnlySecretResultsPrint(path: string, rs: seq<ResultEntry>)
    ensures ResultsLines(path, rs) == ResultsLines(path, SecretResults(rs))
  {
    if rs != [] {
      OnlySecretResultsPrint(path, rs[1..]);
      var rest := SecretResults(rs[1..]);
      if IsSecretClass(rs[0]) {
        var t := [rs[0]] + rest;
        assert SecretResults(rs) == t;
        assert t[0] == rs[0] && t[1..] == rest;
        assert ResultsLines(path, t) == ResultLines(path, rs[0]) + ResultsLines(path, rest);
      } else {
        assert SecretResults(rs) == [] + rest == rest;
      }
    }
  }

  /** Number of lines that start with the given prefix. */
  function CountPrefixed(lines: seq<string>, p: string): nat {
    if lines == [] then 0 else (if StartsWith(lines[0], p) then 1 else 0) + CountPrefixed(lines[1..], p)
  }

  lemma CountPrefixedCons(l: string, t: seq<string>, p: string)
    ensures CountPrefixed([l] + t, p) == (if StartsWith(l, p) then 1 else 0) + CountPrefixed(t, p)
  {
    assert ([l] + t)[0] == l && ([l] + t)[1..] == t;
  }

  lemma {:induction false} CountPrefixedAppend(a: seq<string>, b: seq<string>, p: string)
    ensures CountPrefixed(a + b, p) == CountPrefixed(a, p) + CountPrefixed(b, p)
  {
    if a == [] {
      assert a + b == b;
    } else {
      CountPrefixedAppend(a[1..], b, p);
      assert a + b == [a[0]] + (a[1..] + b);
      assert a == [a[0]] + a[1..];
      CountPrefixedCons(a[0], a[1..] + b, p);
      CountPrefixedCons(a[0], a[1..], p);
    }
  }

  lemma {:induction false} MatchLinesCount(ss: seq<Secret>)
    ensures CountPrefixed(MatchLines(ss), FilePrefix) == 0
    ensures CountPrefixed(MatchLines(ss), MatchPrefix) == |ss|
  {
    if ss != [] {
      MatchLinesCount(ss[1..]);
      var l := MatchPrefix + MatchText(ss[0]);
      assert l[0] == 'M';
      assert l[..|MatchPrefix|] == MatchPrefix;
      assert MatchLines(ss) == [l] + MatchLines(ss[1..]);
      CountPrefixedAppend([l], MatchLines(ss[1..]), FilePrefix);
      CountPrefixedAppend([l], MatchLines(ss[1..]), MatchPrefix);
    }
  }

  /** Number of entries of `Secrets` (absent counts as none). */
  function SecretCount(r: ResultEntry): nat {
    match r.secrets
    case None => 0
    case Some(ss) => |ss|
  }

  function SecretTotal(rs: seq<ResultEntry>): nat {
    if rs == [] then 0 else SecretCount(rs[0]) + SecretTotal(rs[1..])
  }

  /** One result prints one "File:" line and one "Match:" line per entry if it is of class secret, else nothing. */
  lemma ResultLineCounts(path: string, r: ResultEntry)
    ensures CountPrefixed(ResultLines(path, r), FilePrefix) == if IsSecretClass(r) then 1 else 0
    ensures CountPrefixed(ResultLines(path, r), MatchPrefix) == if IsSecretClass(r) then SecretCount(r) else 0
  {
    if IsSecretClass(r) {
      var ss := match r.secrets case None => [] case Some(ss) => ss;
      var h := FilePrefix + path;
      assert h[..|FilePrefix|] == FilePrefix;
      assert h[0] == 'F';
      MatchLinesCount(ss);
      CountPrefixedAppend([h], MatchLines(ss), FilePrefix);
      CountPrefixedAppend([h], MatchLines(ss), MatchPrefix);
    }
  }

  /**
   * One "File:" line per secret-class result, and one "Match:" line per entry of its
   * `Secrets`, none when the key is absent.
   */
  lemma {:induction false} LineCounts(path: string, rs: seq<ResultEntry>)
    ensures CountPrefixed(ResultsLines(path, rs), FilePrefix) == |SecretResults(rs)|
    ensures CountPrefixed(ResultsLines(path, rs), MatchPrefix) == SecretTotal(SecretResults(rs))
  {
    if rs != [] {
      LineCounts(path, rs[1..]);
      CountPrefixedAppend(ResultLines(path, rs[0]), ResultsLines(path, rs[1..]), FilePrefix);
      CountPrefixedAppend(ResultLines(path, rs[0]), ResultsLines(path, rs[1..]), MatchPrefix);
      ResultLineCounts(path, rs[0]);
      SecretResultsStep(rs);
    }
  }

  /** The first result adds itself, and its entries, to the tally exactly when it is of class secret. */
  lemma SecretResultsStep(rs: seq<ResultEntry>)
    requires rs != []
    ensures |SecretResults(rs)| == (if IsSecretClass(rs[0]) then 1 else 0) + |SecretResults(rs[1..])|
    ensures SecretTotal(SecretResults(rs))
      == (if IsSecretClass(rs[0]) then SecretCount(rs[0]) else 0) + SecretTotal(SecretResults(rs[1..]))
  {
    var t := SecretResults(rs[1..]);
    if IsSecretClass(rs[0]) {
      assert SecretResults(rs) == [rs[0]] + t;
      assert ([rs[0]] + t)[0] == rs[0] && ([rs[0]] + t)[1..] == t;
    } else {
      assert SecretResults(rs) == [] + t;
      assert [] + t == t;
    }
  }

  /** The match text a line carries: its remainder after "Match: ", or none for any other line. */
  function LineMatch(l: string): seq<string> {
    if StartsWith(l, MatchPrefix) then [l[|MatchPrefix|..]] else []
  }

  /** The match texts printed, read back from the lines in order. */
  function ReadMatches(lines: seq<string>): seq<string> {
    if lines == [] then [] else LineMatch(lines[0]) + ReadMatches(lines[1..])
  }

  lemma {:induction false} ReadMatchesAppend(a: seq<string>, b: seq<string>)
    ensures ReadMatches(a + b) == ReadMatches(a) + ReadMatches(b)
  {
    if a == [] {
      assert a + b == b;
    } else {
      ReadMatchesAppend(a[1..], b);
      assert (a + b)[0] == a[0];
      assert (a + b)[1..] == a[1..] + b;
      AppendAssoc(LineMatch(a[0]), ReadMatches(a[1..]), ReadMatches(b));
    }
  }

  function MatchTexts(ss: seq<Secret>): (ts: seq<string>)
    ensures |ts| == |ss| && forall i :: 0 <= i < |ss| ==> ts[i] == MatchText(ss[i])
  {
    if ss == [] then [] else [MatchText(ss[0])] + MatchTexts(ss[1..])
  }

  /** The match texts of the secret-class results, result by result and entry by entry. */
  function AllMatchTexts(rs: seq<ResultEntry>): seq<string> {
    if rs == [] then []
    else
      (if IsSecretClass(rs[0]) then MatchTexts(match rs[0].secrets case None => [] case Some(ss) => ss) else [])
      + AllMatchTexts(rs[1..])
  }

  lemma {:induction false} ReadMatchLines(ss: seq<Secret>)
    ensures ReadMatches(MatchLines(ss)) == MatchTexts(ss)
  {
    if ss != [] {
      ReadMatchLines(ss[1..]);
      var l := MatchPrefix + MatchText(ss[0]);
      assert l[..|MatchPrefix|] == MatchPrefix;
      assert l[|MatchPrefix|..] == MatchText(ss[0]);
      assert MatchLines(ss) == [l] + MatchLines(ss[1..]);
      ReadMatchesAppend([l], MatchLines(ss[1..]));
    }
  }

  /** The match texts of one result, if it is of class secret. */
  function ResultMatchTexts(r: ResultEntry): seq<string> {
    if IsSecretClass(r) then MatchTexts(match r.secrets case None => [] case Some(ss) => ss) else []
  }

  /** One result's lines read back to its own match texts; the "File:" header carries none. */
  lemma ReadResultLines(path: string, r: ResultEntry)
    ensures ReadMatches(ResultLines(path, r)) == ResultMatchTexts(r)
  {
    if IsSecretClass(r) {
      var ss := match r.secrets case None => [] case Some(ss) => ss;
      var h := FilePrefix + path;
      assert h[0] == 'F';
      assert !StartsWith(h, MatchPrefix) by { assert MatchPrefix[0] == 'M'; }
      assert ReadMatches([h]) == [];
      ReadMatchLines(ss);
      ReadMatchesAppend([h], MatchLines(ss));
    }
  }

  /** Reading the "Match:" lines back gives every match text in result order, then entry order. */
  lemma {:induction false} MatchesInOrder(path: string, rs: seq<ResultEntry>)
    ensures ReadMatches(ResultsLines(path, rs)) == AllMatchTexts(rs)
  {
    if rs != [] {
      MatchesInOrder(path, rs[1..]);
      ReadMatchesAppend(ResultLines(path, rs[0]), ResultsLines(path, rs[1..]));
      ReadResultLines(path, rs[0]);
      assert AllMatchTexts(rs) == ResultMatchTexts(rs[0]) + AllMatchTexts(rs[1..]);
    }
  }

  /** The dashboard script's variant stops exactly when some examined file is undecodable, and otherwise prints what find_secrets.py prints. */
  lemma {:induction false} FindSecretsCrashesIff(files: seq<Found>)
    ensures FindSecrets(files).crashed <==> exists i :: 0 <= i < |files| && IsUndecodableJson(files[i])
    ensures !FindSecrets(files).crashed ==> FindSecrets(files).lines == FindSecretsInJson(files)
  {
    if files != [] && !IsUndecodableJson(files[0]) {
      var rest := files[1..];
      FindSecretsCrashesIff(rest);
      if exists i :: 0 <= i < |files| && IsUndecodableJson(files[i]) {
        var i :| 0 <= i < |files| && IsUndecodableJson(files[i]);
        assert rest[i - 1] == files[i];
      }
      if exists i :: 0 <= i < |rest| && IsUndecodableJson(rest[i]) {
        var i :| 0 <= i < |rest| && IsUndecodableJson(rest[i]);
        assert files[i + 1] == rest[i];
      }
    }
  }

  /** On a stop, what was printed is find_secrets.py's output up to and including the first undecodable file. */
  lemma {:induction false} FindSecretsStopsAtFirstUndecodable(files: seq<Found>, i: nat)
    requires i < |files| && IsUndecodableJson(files[i])
    requires forall j :: 0 <= j < i ==> !IsUndecodableJson(files[j])
    ensures FindSecrets(files).crashed
    ensures FindSecrets(files).lines == FindSecretsInJson(files[..i + 1])
  {
    if i == 0 {
      assert files[..1] == [files[0]];
      assert FindSecretsInJson([files[0]]) == FileLines(files[0]) + FindSecretsInJson([]);
    } else {
      var rest := files[1..];
      forall j | 0 <= j < i - 1 ensures !IsUndecodableJson(rest[j]) {
        assert rest[j] == files[j + 1];
      }
      FindSecretsStopsAtFirstUndecodable(rest, i - 1);
      assert !IsUndecodableJson(files[0]);
      assert files[..i + 1][1..] == rest[..i];
      assert files[..i + 1][0] == files[0];
    }
  }
}
