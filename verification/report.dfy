/**
 * A Trivy JSON report after decoding, reduced to the keys the report scripts read.
 * `None` stands for a key that is absent from the JSON object.
 */
module Report {
  import opened Wrappers
  import opened Text

  /** An entry of `Vulnerabilities`: its `Severity` and whether it has a `FixedVersion` key. */
  datatype Vuln = Vuln(severity: string, hasFixedVersion: bool)

  /** An entry of `Secrets`: its `Match` text, if any. */
  datatype Secret = Secret(matched: Option<string>)

  /** An entry of `Results`. */
  datatype ResultEntry = ResultEntry(
    target: string,
    resultClass: Option<string>,
    vulns: Option<seq<Vuln>>,
    secrets: Option<seq<Secret>>)

  /** A whole report: `ArtifactName` and `Results`. */
  datatype Report = Report(artifactName: string, results: Option<seq<ResultEntry>>)

  /** What `json.load` makes of a file: a report, or a decode error. */
  datatype ReportFile = Decoded(report: Report) | Undecodable

  /** A file found under the output directory: its path and its decoded content. */
  datatype Found = Found(path: string, content: ReportFile)

  /** `result.get('Class') == 'secret'`. */
  predicate IsSecretClass(r: ResultEntry) {
    r.resultClass == Some("secret")
  }

  /** `file.endswith('.json')`; the path ends with the file name, so the test is the same on the path. */
  predicate IsJsonFile(f: Found) {
    EndsWith(f.path, ".json")
  }

  /** The files the directory walk yields, in walk order. */
  function JsonFiles(files: seq<Found>): (r: seq<Found>)
    ensures forall i :: 0 <= i < |r| ==> IsJsonFile(r[i])
    ensures forall f :: f in files && IsJsonFile(f) ==> f in r
    ensures forall f :: f in r ==> f in files
  {
    if files == [] then []
    else (if IsJsonFile(files[0]) then [files[0]] else []) + JsonFiles(files[1..])
  }

  /**
   * `JsonFiles` is the in-order filter: one file is kept exactly when it is a `.json` file,
   * and the walk's files are filtered part by part, so order and repetitions are kept.
   */
  lemma JsonFilesInOrder(a: seq<Found>, b: seq<Found>)
    ensures JsonFiles(a + b) == JsonFiles(a) + JsonFiles(b)
    ensures |a| == 1 ==> JsonFiles(a) == if IsJsonFile(a[0]) then a else []
  {
    JsonFilesAppend(a, b);
    if |a| == 1 {
      assert a[1..] == [];
    }
  }

  lemma {:induction false} JsonFilesAppend(a: seq<Found>, b: seq<Found>)
    ensures JsonFiles(a + b) == JsonFiles(a) + JsonFiles(b)
    decreases |a|
  {
    if a == [] {
      assert a + b == b;
    } else {
      assert (a + b)[0] == a[0];
      assert (a + b)[1..] == a[1..] + b;
      JsonFilesAppend(a[1..], b);
      var h := if IsJsonFile(a[0]) then [a[0]] else [];
      AppendAssoc(h, JsonFiles(a[1..]), JsonFiles(b));
    }
  }
}
