/**
 * The two ECR regular expressions, written out as scanners over `seq<char>`:
 *   is_ecr_image            re.match(r"\d+\.dkr\.ecr\..+\.amazonaws\.com", url)
 *   get_ecr_region_from_url re.search(r"\d+\.dkr\.ecr\.(.+)\.amazonaws\.com", url).group(1)
 * `\d` is an ASCII digit here, `.` any character but a newline, and `.+` is
 * greedy, so the region runs to the LAST ".amazonaws.com" on the line.
 */
module EcrImage {
  import opened Wrappers
  import opened Text

  const DkrEcr: string := ".dkr.ecr."
  const AwsDomain: string := ".amazonaws.com"

  /** The registry host of `account` in `region`: `{account}.dkr.ecr.{region}.amazonaws.com`. */
  function EcrHost(account: string, region: string): string {
    account + DkrEcr + region + AwsDomain
  }

  /**
   * Reference shape of an ECR image reference: a non-empty digit run, ".dkr.ecr.",
   * a non-empty newline-free middle, ".amazonaws.com", then anything.
   */
  ghost predicate EcrShaped(s: string, account: string, region: string, rest: string) {
    && |account| >= 1 && AllDigits(account)
    && |region| >= 1 && '\n' !in region
    && s == EcrHost(account, region) + rest
  }

  /** End of the run of digits starting at `i`. */
  function DigitRunEnd(s: string, i: nat): (e: nat)
    requires i <= |s|
    decreases |s| - i
    ensures i <= e <= |s|
    ensures forall j :: i <= j < e ==> IsDigit(s[j])
    ensures e < |s| ==> !IsDigit(s[e])
  {
    if i < |s| && IsDigit(s[i]) then DigitRunEnd(s, i + 1) else i
  }

  /** Where a `(.+)\.amazonaws\.com` starting at `a` may stop its group: at `p`. */
  ghost predicate RegionEnd(s: string, a: nat, p: nat) {
    a < p <= |s| && OccursAt(s, AwsDomain, p) && '\n' !in s[a..p]
  }

  /** The largest `p` in `lo..hi` at which `pat` occurs. */
  function LastOccurrence(s: string, pat: string, lo: nat, hi: nat): (r: Option<nat>)
    decreases hi
    ensures r.Some? ==> lo <= r.value <= hi && OccursAt(s, pat, r.value)
    ensures r.Some? ==> forall q :: r.value < q <= hi ==> !OccursAt(s, pat, q)
    ensures r.None? ==> forall q :: lo <= q <= hi ==> !OccursAt(s, pat, q)
  {
    if hi < lo then None
    else if OccursAt(s, pat, hi) then Some(hi)
    else if hi == 0 then None
    else LastOccurrence(s, pat, lo, hi - 1)
  }

  /** Index of the first newline at or after `a`, or the end of the string. */
  function LineEnd(s: string, a: nat): (e: nat)
    requires a <= |s|
    ensures a <= e <= |s|
    ensures e < |s| ==> s[e] == '\n'
    ensures '\n' !in s[a..e]
  {
    FindFromFirst(s, "\n", a);
    match FindFrom(s, "\n", a)
    case Some(n) =>
      assert s[n..n + 1] == "\n";
      assert '\n' !in s[a..n] by {
        forall j | a <= j < n ensures s[j] != '\n' {
          assert !OccursAt(s, "\n", j);
          assert s[j..j + 1] == [s[j]];
        }
      }
      n
    case None =>
      assert '\n' !in s[a..] by {
        forall j | a <= j < |s| ensures s[j] != '\n' {
          assert !OccursAt(s, "\n", j);
          assert s[j..j + 1] == [s[j]];
        }
      }
      |s|
  }

  /** The greedy end of the region group: the last admissible `.amazonaws.com` on the line. */
  function LastRegionEnd(s: string, a: nat): (r: Option<nat>)
    requires a <= |s|
    ensures r.Some? ==> RegionEnd(s, a, r.value)
    ensures r.Some? ==> forall q :: r.value < q ==> !RegionEnd(s, a, q)
    ensures r.None? ==> forall q :: !RegionEnd(s, a, q)
  {
    var e := LineEnd(s, a);
    var r := LastOccurrence(s, AwsDomain, a + 1, e);
    forall q | a < q <= e ensures '\n' !in s[a..q] {
      NoNewlineInPrefix(s, a, q, e);
    }
    forall q | e < q <= |s| ensures '\n' in s[a..q] {
      assert s[a..q][e - a] == s[e];
    }
    r
  }

  /** A slice inside a newline-free slice is newline-free. */
  lemma NoNewlineInPrefix(s: string, a: nat, q: nat, e: nat)
    requires a <= q <= e <= |s| && '\n' !in s[a..e]
    ensures '\n' !in s[a..q]
  {
    forall j | 0 <= j < q - a ensures s[a..q][j] != '\n' {
      assert s[a..q][j] == s[a..e][j];
    }
  }

  /** The pattern tried at position `i`: the region group on success. */
  function MatchAt(s: string, i: nat): (r: Option<string>)
    requires i <= |s|
    ensures r.Some? ==> |r.value| >= 1 && '\n' !in r.value
  {
    var e := DigitRunEnd(s, i);
    if e == i || !OccursAt(s, DkrEcr, e) then None
    else match LastRegionEnd(s, e + |DkrEcr|)
      case None => None
      case Some(p) => Some(s[e + |DkrEcr|..p])
  }

  /** `re.search`: the leftmost position from `i` on where the pattern matches. */
  function SearchFrom(s: string, i: nat): Option<string>
    requires i <= |s|
    decreases |s| - i
  {
    match MatchAt(s, i)
    case Some(g) => Some(g)
    case None => if i == |s| then None else SearchFrom(s, i + 1)
  }

  /** `is_ecr_image`: the pattern matches at the start of the reference (`re.match`). */
  predicate IsEcrImage(url: string) {
    MatchAt(url, 0).Some?
  }

  /** `get_ecr_region_from_url`: the region group of the leftmost match, or None. */
  function EcrRegion(url: string): Option<string> {
    SearchFrom(url, 0)
  }

  /** The account digits of an ECR-shaped reference are exactly its leading digit run. */
  lemma ShapedDigitRun(s: string, account: string, region: string, rest: string)
    requires EcrShaped(s, account, region, rest)
    ensures DigitRunEnd(s, 0) == |account|
    ensures OccursAt(s, DkrEcr, |account|)
    ensures RegionEnd(s, |account| + |DkrEcr|, |account| + |DkrEcr| + |region|)
    ensures s[..|account|] == account
    ensures s[|account| + |DkrEcr|..|account| + |DkrEcr| + |region|] == region
    ensures s[|account| + |DkrEcr| + |region| + |AwsDomain|..] == rest
  {
    var a := |account| + |DkrEcr|;
    var p := a + |region|;
    assert s[|account|] == '.';
    assert s[..|account|] == account;
    assert s[|account|..a] == DkrEcr;
    assert s[a..p] == region;
    assert s[p..p + |AwsDomain|] == AwsDomain;
    ShapedRunEnd(s, account, 0);
  }

  lemma {:induction false} ShapedRunEnd(s: string, account: string, i: nat)
    requires i <= |account| < |s| && s[..|account|] == account && AllDigits(account)
    requires !IsDigit(s[|account|])
    ensures DigitRunEnd(s, i) == |account|
    decreases |account| - i
  {
    if i < |account| {
      assert s[i] == account[i];
      ShapedRunEnd(s, account, i + 1);
    }
  }

  /** Cutting a reference around ".dkr.ecr." and ".amazonaws.com" and gluing it back through `EcrHost`. */
  lemma GlueHost(s: string, e: nat, a: nat, p: nat)
    requires e + |DkrEcr| == a <= p && p + |AwsDomain| <= |s|
    requires s[e..a] == DkrEcr && s[p..p + |AwsDomain|] == AwsDomain
    ensures s == EcrHost(s[..e], s[a..p]) + s[p + |AwsDomain|..]
  {
    assert s == s[..e] + s[e..a] + s[a..p] + s[p..p + |AwsDomain|] + s[p + |AwsDomain|..];
  }

  /** When the pattern matches at the start, the scanner's cut points give a reading of the reference shape. */
  lemma MatchGivesShape(s: string) returns (account: string, region: string, rest: string, a: nat)
    requires IsEcrImage(s)
    ensures EcrShaped(s, account, region, rest)
    ensures MatchAt(s, 0) == Some(region)
    ensures account == s[..DigitRunEnd(s, 0)]
    ensures a == |account| + |DkrEcr|
    ensures forall q :: a + |region| < q ==> !RegionEnd(s, a, q)
  {
    var e, p;
    e, a, p := ScanCuts(s);
    account, region, rest := s[..e], s[a..p], s[p + |AwsDomain|..];
    CutsGiveShape(s, e, a, p);
  }

  /** The cut points the scanner finds on a matching reference: end of the digits, start and end of the region. */
  lemma ScanCuts(s: string) returns (e: nat, a: nat, p: nat)
    requires IsEcrImage(s)
    ensures e == DigitRunEnd(s, 0) && 0 < e && a == e + |DkrEcr| && OccursAt(s, DkrEcr, e) && AllDigits(s[..e])
    ensures RegionEnd(s, a, p) && p + |AwsDomain| <= |s|
    ensures MatchAt(s, 0) == Some(s[a..p])
    ensures forall q :: p < q ==> !RegionEnd(s, a, q)
  {
    e := DigitRunEnd(s, 0);
    a := e + |DkrEcr|;
    p := LastRegionEnd(s, a).value;
    LeadingDigits(s, e);
  }

  /** Cut points found by the scanner spell out a reading of the reference shape. */
  lemma CutsGiveShape(s: string, e: nat, a: nat, p: nat)
    requires 0 < e && e + |DkrEcr| == a && OccursAt(s, DkrEcr, e) && AllDigits(s[..e])
    requires RegionEnd(s, a, p) && p + |AwsDomain| <= |s|
    ensures EcrShaped(s, s[..e], s[a..p], s[p + |AwsDomain|..])
  {
    GlueHost(s, e, a, p);
  }

  /** The text before the end of the leading digit run is all digits. */
  lemma LeadingDigits(s: string, e: nat)
    requires e == DigitRunEnd(s, 0)
    ensures AllDigits(s[..e])
  {
    forall j | 0 <= j < e ensures IsDigit(s[..e][j]) {
      assert s[..e][j] == s[j];
    }
  }

  /** `is_ecr_image` accepts exactly the references of the reference shape. */
  lemma EcrImageIffShaped(s: string)
    ensures IsEcrImage(s) <==> exists account, region, rest :: EcrShaped(s, account, region, rest)
  {
    if IsEcrImage(s) {
      var account, region, rest, a := MatchGivesShape(s);
    }
    if exists account, region, rest :: EcrShaped(s, account, region, rest) {
      var account, region, rest :| EcrShaped(s, account, region, rest);
      ShapedIsEcrImage(s, account, region, rest);
    }
  }

  /** Every reading of the reference shape is accepted by `is_ecr_image`. */
  lemma ShapedIsEcrImage(s: string, account: string, region: string, rest: string)
    requires EcrShaped(s, account, region, rest)
    ensures IsEcrImage(s)
  {
    ShapedDigitRun(s, account, region, rest);
  }

  /** Every ECR image has a region, and it is never empty (so the script's truthiness test passes). */
  lemma EcrImageHasRegion(s: string)
    requires IsEcrImage(s)
    ensures EcrRegion(s).Some? && |EcrRegion(s).value| >= 1
    ensures EcrRegion(s) == MatchAt(s, 0)
  {
  }

  /**
   * The region is the longest middle of any reading of the reference as
   * digits + ".dkr.ecr." + middle + ".amazonaws.com" + rest, and that reading is valid.
   */
  lemma EcrRegionIsLongest(s: string, account: string, region: string, rest: string)
    requires EcrShaped(s, account, region, rest)
    ensures EcrRegion(s).Some?
    ensures exists rest' :: EcrShaped(s, account, EcrRegion(s).value, rest')
    ensures |region| <= |EcrRegion(s).value|
  {
    ShapedDigitRun(s, account, region, rest);
    var account', region', rest', a := MatchGivesShape(s);
    assert account' == account;
    EcrImageHasRegion(s);
    assert EcrRegion(s) == Some(region');
    assert !(a + |region'| < a + |region|);
    assert EcrShaped(s, account, region', rest');
  }

  /** ".amazonaws.com" does not overlap itself. */
  lemma AwsDomainNoOverlap(s: string, p: nat, q: nat)
    requires OccursAt(s, AwsDomain, p) && p < q < p + |AwsDomain|
    ensures !OccursAt(s, AwsDomain, q)
  {
    var d := q - p;
    assert s[p..p + |AwsDomain|][d] == s[q];
    if d != 10 {
      assert AwsDomain[d] != '.';
      if q + |AwsDomain| <= |s| {
        assert s[q..q + |AwsDomain|][0] == s[q];
      }
    } else {
      assert s[p..p + |AwsDomain|][d + 1] == s[q + 1];
      if q + |AwsDomain| <= |s| {
        assert s[q..q + |AwsDomain|][1] == s[q + 1];
      }
    }
  }

  /** Past an occurrence of ".amazonaws.com" followed by text free of it, there is no other occurrence. */
  lemma NoLaterDomain(s: string, p: nat, rest: string)
    requires OccursAt(s, AwsDomain, p) && s[p + |AwsDomain|..] == rest
    requires !Contains(rest, AwsDomain)
    ensures forall q :: p < q ==> !OccursAt(s, AwsDomain, q)
  {
    FindFromFirst(rest, AwsDomain, 0);
    forall q | p < q ensures !OccursAt(s, AwsDomain, q) {
      if q < p + |AwsDomain| {
        AwsDomainNoOverlap(s, p, q);
      } else if q + |AwsDomain| <= |s| {
        var k := q - (p + |AwsDomain|);
        assert s[q..q + |AwsDomain|] == rest[k..k + |AwsDomain|];
        assert !OccursAt(rest, AwsDomain, k);
      }
    }
  }

  /** When nothing after the domain spells ".amazonaws.com" again, the region is exactly the middle. */
  lemma EcrRegionOfHost(s: string, account: string, region: string, rest: string)
    requires EcrShaped(s, account, region, rest)
    requires !Contains(rest, AwsDomain)
    ensures IsEcrImage(s)
    ensures EcrRegion(s) == Some(region)
  {
    ShapedCuts(s, account, region, rest);
    RegionFromCuts(s, |account|, |account| + |DkrEcr| + |region|, region);
  }

  /** The cut points of a shaped reference whose tail has no further ".amazonaws.com". */
  lemma ShapedCuts(s: string, account: string, region: string, rest: string)
    requires EcrShaped(s, account, region, rest)
    requires !Contains(rest, AwsDomain)
    ensures 0 < |account| && DigitRunEnd(s, 0) == |account| && OccursAt(s, DkrEcr, |account|)
    ensures RegionEnd(s, |account| + |DkrEcr|, |account| + |DkrEcr| + |region|)
    ensures forall q :: |account| + |DkrEcr| + |region| < q ==> !OccursAt(s, AwsDomain, q)
    ensures s[|account| + |DkrEcr|..|account| + |DkrEcr| + |region|] == region
  {
    ShapedDigitRun(s, account, region, rest);
    NoLaterDomain(s, |account| + |DkrEcr| + |region|, rest);
  }

  /** The scanner's verdict from its cut points: digits up to `e`, ".dkr.ecr.", and a last admissible domain at `p`. */
  lemma RegionFromCuts(s: string, e: nat, p: nat, region: string)
    requires 0 < e && DigitRunEnd(s, 0) == e && OccursAt(s, DkrEcr, e)
    requires RegionEnd(s, e + |DkrEcr|, p) && s[e + |DkrEcr|..p] == region
    requires forall q :: p < q ==> !OccursAt(s, AwsDomain, q)
    ensures IsEcrImage(s)
    ensures EcrRegion(s) == Some(region)
  {
    var a := e + |DkrEcr|;
    var r := LastRegionEnd(s, a);
    assert r.Some?;
    assert !(r.value < p);
    assert !(p < r.value) by {
      assert OccursAt(s, AwsDomain, r.value);
    }
    assert MatchAt(s, 0) == Some(s[a..p]);
  }

  /** A reference without any digit matches nowhere. */
  lemma {:induction false} NoDigitNoRegion(s: string, i: nat)
    requires i <= |s|
    requires forall j :: 0 <= j < |s| ==> !IsDigit(s[j])
    ensures SearchFrom(s, i) == None
    decreases |s| - i
  {
    if i < |s| {
      NoDigitNoRegion(s, i + 1);
    }
  }

  /** A sample account, region and image reference: `123456789012.dkr.ecr.eu-west-1.amazonaws.com/app:latest`. */
  const SampleAccount: string := "123456789012"
  const SampleRegion: string := "eu-west-1"
  const SampleImage: string := EcrHost(SampleAccount, SampleRegion) + "/app:latest"

  lemma SampleTailHasNoDomain()
    ensures !Contains("/app:latest", AwsDomain)
  {
    assert FindFrom("/app:latest", AwsDomain, 0) == None;
  }

  /** The sample ECR reference read in the reference shape. */
  lemma SampleIsShaped()
    ensures EcrShaped(SampleImage, SampleAccount, SampleRegion, "/app:latest")
    ensures !Contains("/app:latest", AwsDomain)
  {
    SampleTailHasNoDomain();
    assert AllDigits(SampleAccount);
    assert '\n' !in SampleRegion;
  }

  /** An ECR reference is recognised and yields its region. */
  lemma EcrScenario()
    ensures IsEcrImage(SampleImage)
    ensures EcrRegion(SampleImage) == Some("eu-west-1")
  {
    SampleIsShaped();
    EcrRegionOfHost(SampleImage, SampleAccount, SampleRegion, "/app:latest");
  }

  /** A Docker Hub reference is not an ECR image and has no region, so it is scanned without a login. */
  lemma DockerHubScenario()
    ensures !IsEcrImage("docker.io/library/nginx:latest")
    ensures EcrRegion("docker.io/library/nginx:latest") == None
  {
    var t := "docker.io/library/nginx:latest";
    assert forall j :: 0 <= j < |t| ==> !IsDigit(t[j]);
    NoDigitNoRegion(t, 0);
  }
}
