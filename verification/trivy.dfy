/** What every script hands to the external scanner and to `docker login`. */
module Trivy {
  import opened Text

  /** Output formats passed as `-f`. */
  datatype Format = Json | Table

  function FormatName(f: Format): string {
    match f
    case Json => "json"
    case Table => "table"
  }

  /** One `trivy image <target> -f <format> -o <output>` invocation. */
  datatype ScanTask = ScanTask(target: string, format: Format, output: string)

  /** The command line the scripts build for a task. */
  function Command(t: ScanTask): string {
    "trivy image " + t.target + " -f " + FormatName(t.format) + " -o " + t.output
  }

  /** `s.replace("/", "_")`: a reference flattened into one path component. */
  function Sanitize(s: string): (r: string)
    ensures |r| == |s| && '/' !in r
    ensures forall i :: 0 <= i < |s| && s[i] != '/' ==> r[i] == s[i]
    ensures forall i :: 0 <= i < |s| && s[i] == '/' ==> r[i] == '_'
  {
    ReplaceCharRemoves(s, '/', '_');
    ReplaceChar(s, '/', '_')
  }

  /** A string with no `/` is left as it is. */
  lemma SanitizeKeeps(s: string)
    requires '/' !in s
    ensures Sanitize(s) == s
  {
  }

  /** Replacing characters one by one distributes over concatenation. */
  lemma SanitizeAppend(a: string, b: string)
    ensures Sanitize(a + b) == Sanitize(a) + Sanitize(b)
  {
    var l, r := Sanitize(a + b), Sanitize(a) + Sanitize(b);
    forall i | 0 <= i < |l| ensures l[i] == r[i] {
      if i < |a| {
        assert (a + b)[i] == a[i];
      } else {
        assert (a + b)[i] == b[i - |a|];
      }
    }
  }

  /** Two references that differ only in `/` versus `_` get the same file name. */
  lemma SanitizeCollides()
    ensures Sanitize("a/b") == Sanitize("a_b")
  {
  }

  /**
   * `docker login` output from the registry: the stdout text for the given
   * region on the given attempt of the run (attempts are numbered from 0).
   */
  type LoginOracle = (string, nat) -> string

  /** `'Login Succeeded' in stdout`. */
  predicate LoginSucceeded(stdout: string) {
    Contains(stdout, "Login Succeeded")
  }

  /** One `docker login` attempt and whether its stdout reported success. */
  datatype Login = Login(region: string, succeeded: bool)
}
