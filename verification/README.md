# trivy-scripts, modelled in Dafny

trivy-scripts is a handful of Python scripts around the Trivy image scanner. They do four things:

1. **Image discovery and login.** They find the container images a Kubernetes cluster runs (`kubectl` output) or an ECS account defines (task definitions).
   - An image is an ECR image when its reference matches `\d+\.dkr\.ecr\..+\.amazonaws\.com`.
   - For ECR images they log `docker` in to the image's region, at most once per change of region.
   - They run `trivy image` on each image, writing one report file per image.
2. **Latest image per repository.** Another script walks every ECR region. In each region it logs in, resolves the latest tag of every repository, and scans `{account}.dkr.ecr.{region}.amazonaws.com/{repo}:{tag}`.
3. **Dashboard.** The dashboard script reads the JSON reports back. It writes one CSV row of found/fixed counters per (image, target). It also prints a listing of the findings sorted by descending (critical, high, medium, low) counts.
4. **Secrets.** Two variants of a secrets listing print every secret-class result with its matches.

The model keeps the string and record processing and treats the outside world as inputs:

- AWS listings arrive as sequences.
- `docker login` is a login oracle: stdout as a function of (region, attempt number).
- Decoded JSON is a `Report` datatype, or `Undecodable`.
- Printed lines and CSV rows are returned as sequences.
- Every crash of a script becomes an explicit failure value, carrying what was produced before it.

Modules, one per file:

| module | file | models |
|---|---|---|
| `Wrappers` | wrappers.dfy | `Option` and `Result` |
| `Text` | text.dfy | Python's `str.split`, `join`, `replace`, `in`, `startswith`, `endswith`, and `str(n)` of a natural number |
| `StableSort` | sort.dfy | Python's stable `sort`/`sorted` with a key, ascending, on lexicographic integer-sequence keys |
| `EcrImage` | ecr.dfy | `is_ecr_image` and `get_ecr_region_from_url` as scanners over characters, including the greedy `.+` |
| `Trivy` | trivy.dfy | the `trivy image` command, the `/`→`_` file-name sanitisation, the login verdict |
| `LoginDedup` | login.dfy | the `last_login_region` loop as a fold over images, and the ECS script built on it |
| `Kubectl` | kubectl.dfy | `parse_kubectl_output`, `create_subdirectory`, the k8s output path, and the k8s main loop both as written and as intended |
| `LatestImage` | latest.dfy | the latest-ECR-image script: latest-tag choice, output file, per-region login and skip |
| `Report` | report.dfy | decoded Trivy reports and the `.json` file filter |
| `Dashboard` | dashboard.dfy | `create_dashboard`: tallies, CSV cells, target normalisation, display names, the sorted listing |
| `Secrets` | secrets.dfy | `find_secrets_in_json` (find_secrets.py) and `find_secrets` (dashboard script) |

Behaviour of the code that a reader might not expect:

- **Target normalisation.** A target with both parentheses keeps the text after the first `(`, up to the next `(` or the end, minus its last character. It is not the innermost group: `img (x (y))` becomes `x` (`Dashboard.NormalizeNestedExample`).
- **Bad reports.** An undecodable report, a report without `Results`, and a non-secret result without `Vulnerabilities` all stop `create_dashboard`. They are not skipped as anomalies. An undecodable file also stops the dashboard script's `find_secrets`. Only find_secrets.py reports the file and carries on.
- **Unrecognised severities.** A vulnerability with an unrecognised severity is only printed. The model collects these as `unrecognised`, and they change no counter.
- **Output paths.** Report paths are not unique per image. `Sanitize("a/b") == Sanitize("a_b")` (`Trivy.SanitizeCollides`), so two images can write the same file.
- **Tie-breaking.** The latest-tag choice breaks ties of push time in favour of the later listed image, because the sort is stable and the last element is taken.

## Model

| member | source | states |
|---|---|---|
| Text.SplitJoinsBack | trivy_scanner-images_used_by_k8s.py:31 | `str.split` loses nothing: joining its parts with the separator gives back the input. |
| Text.SplitPartsSepFree | trivy_scanner-images_used_by_k8s.py:36-38 | No part produced by `str.split` contains the separator. |
| Text.SplitJoin | trivy_scanner-images_used_by_k8s.py:38 | Joining parts that do not contain `c` with `c`, then splitting on `c`, gives back exactly those parts. |
| Text.SplitCharCount | trivy_scanner-images_used_by_k8s.py:52-55 | Splitting on one character gives one more part than the character occurs, so `len(parts) == 2` means exactly one `/`. |
| Text.FindFromFirst | trivy_scanner-images_used_by_k8s.py:36 | The occurrence `str.split` cuts at is the leftmost one: none lies before it, and when the separator is reported absent it occurs nowhere. |
| Text.SplitAtFirstChar | trivy_scanner-images_used_by_k8s.py:36-37 | Python's split cuts first at the leftmost copy of the separator. |
| Text.NatToStringRoundTrip | find_secrets_or_make_dashboard.py:118-119 | `str(val)` of a counter reads back as the same number. |
| Text.ReplaceCharRemoves | trivy_scanner-images_used_by_k8s.py:79 | After `replace(a, b)` with `a != b`, no `a` is left. |
| StableSort.SortPermutes | find_secrets_or_make_dashboard.py:133 | Sorting is a permutation: the same multiset of elements. |
| StableSort.SortSorted | find_secrets_or_make_dashboard.py:133 | The sorted sequence is ordered by key, pairwise. |
| StableSort.SortStable | find_secrets_or_make_dashboard.py:133 | Python's sort is stable: elements with equal keys keep their relative order. |
| EcrImage.IsEcrImage | trivy_scanner-images_used_by_k8s.py:42-43 | `re.match` of the ECR pattern anchored at the start of the reference. Its meaning is stated by EcrImageIffShaped. |
| EcrImage.EcrRegion | trivy_scanner-images_used_by_k8s.py:45-47 | `re.search` of the pattern with the region captured, or None. Its meaning is stated by EcrImageHasRegion, EcrRegionIsLongest, EcrRegionOfHost and NoDigitNoRegion. |
| EcrImage.EcrImageIffShaped | trivy_scanner-images_used_by_k8s.py:42-43 | `is_ecr_image` accepts a reference exactly when it starts with a non-empty digit run, then `.dkr.ecr.`, then a non-empty middle without newline, then `.amazonaws.com`. |
| EcrImage.EcrImageHasRegion | trivy_scanner-images_used_by_ecs.py:37-42 | Every reference `is_ecr_image` accepts gets a non-None, non-empty region, and it is the text `re.match` would capture. |
| EcrImage.EcrRegionIsLongest | trivy_scanner-images_used_by_k8s.py:45-47 | `.+` is greedy: the region extracted is at least as long as any valid reading of the reference, and is itself a valid reading. |
| EcrImage.EcrRegionOfHost | trivy_scanner-images_used_by_k8s.py:45-47 | For `{account}.dkr.ecr.{region}.amazonaws.com{rest}` with no further `.amazonaws.com` in `rest`, the extracted region is exactly `region`. |
| EcrImage.NoDigitNoRegion | trivy_scanner-images_used_by_k8s.py:45-47 | A reference without any digit yields no region (`None`). |
| EcrImage.LastRegionEnd | trivy_scanner-images_used_by_k8s.py:43 | The greedy middle ends at the last `.amazonaws.com` before the end of the line; no later end is valid. |
| EcrImage.MatchAt | trivy_scanner-images_used_by_k8s.py:43 | A match anchored at a position yields a non-empty captured region without newline. |
| EcrImage.EcrScenario | trivy_scanner-images_used_by_k8s.py:42-47 | `123456789012.dkr.ecr.eu-west-1.amazonaws.com/app:latest` is an ECR image of region `eu-west-1`. |
| EcrImage.DockerHubScenario | trivy_scanner-images_used_by_k8s.py:42-47 | `docker.io/library/nginx:latest` is not an ECR image and has no region. |
| Trivy.Sanitize | trivy_scanner-images_used_by_ecs.py:55 | `replace("/","_")` turns each `/` into `_`, keeps every other character in place, and keeps the length, so no `/` is left. |
| Trivy.SanitizeAppend | trivy_scanner-latest_ecr_image.py:28 | Flattening works character by character: the flattened concatenation is the concatenation of the flattened parts. |
| LoginDedup.LoginRegion | trivy_scanner-images_used_by_ecs.py:74-76 | An image needs a login exactly when it is an ECR image; its region is the extracted one and never empty, so the `ecr_region and` guard never skips an ECR image. |
| LoginDedup.Step | trivy_scanner-images_used_by_ecs.py:74-85 | One iteration keeps the loop's invariants. The login log only grows, by at most one attempt. An attempt is made exactly when the image has a region other than the remembered one. That attempt is for the image's region, and it succeeds exactly when the oracle's stdout contains `Login Succeeded`. The image is scanned unless that attempt failed, and nothing else is scanned. The remembered region stays the region of the last successful login in the log. |
| LoginDedup.RunAppend | trivy_scanner-images_used_by_ecs.py:71-73 | The loop over a concatenation of image lists is the loop over each list in turn, carrying the state. |
| LoginDedup.SameRegionNoLogin | trivy_scanner-images_used_by_ecs.py:76-79 | While the remembered region is R, images of region R are all scanned with no login. |
| LoginDedup.ConsecutiveSameRegionOneLogin | trivy_scanner-images_used_by_ecs.py:76-79 | A block of images of one new region whose first login succeeds costs exactly one login, and the whole block is scanned. |
| LoginDedup.RegionChangeLogsIn | trivy_scanner-images_used_by_ecs.py:76-77 | An image whose region differs from the remembered one always triggers a login attempt. |
| LoginDedup.FailedLoginRetries | trivy_scanner-images_used_by_ecs.py:80-84 | After a failed login the image is not scanned and the remembered region is unchanged, so the next image of that region tries again. |
| LoginDedup.RunAccounting | trivy_scanner-images_used_by_ecs.py:71-85 | Over any run, each image is either scanned or had its own login fail. Non-ECR images are all scanned. There are no more logins than ECR images. The remembered region is that of the last successful login. |
| LoginDedup.RunKeepsOrder | trivy_scanner-images_used_by_ecs.py:71-85 | The scanned images are a subsequence of the input images, in input order. |
| LoginDedup.UnscopedNoLogin | trivy_scanner-images_used_by_ecs.py:74-85 | Images needing no login all go straight to the scanner with no login and no change of remembered region. |
| LoginDedup.FirstScopedItemLogsIn | trivy_scanner-images_used_by_ecs.py:51-77 | Since the remembered region starts as None, the first image needing a region triggers the run's first login, for that region, after the images before it were scanned. |
| LoginDedup.Run | trivy_scanner-images_used_by_ecs.py:71-85 | The loop over all images as a fold of `Step`. Its meaning is stated by RunAppend, RunAccounting and RunKeepsOrder. |
| LoginDedup.LoginsGrow | trivy_scanner-images_used_by_ecs.py:77 | The login log only grows. |
| LoginDedup.EcsTask | trivy_scanner-images_used_by_ecs.py:53-55 | The ECS scan targets the image in table format. Its output file is the sanitised reference plus `.table`, contains no `/`, and is 6 characters longer than the reference. |
| LoginDedup.RunEcs | trivy_scanner-images_used_by_ecs.py:27-85 | The ECS script's main loop: images in region, task-definition, container order, through the shared login fold, each scanned as an EcsTask. Its meaning is stated by EcsRunProperties and EcsFirstEcrImageLogsIn. |
| LoginDedup.EcsRunProperties | trivy_scanner-images_used_by_ecs.py:27-85 | For the ECS script's images (region, then task-definition, then container order), every image is scanned or had its login fail. Every non-ECR image is scanned. Scans keep input order. Logins never exceed ECR images. |
| LoginDedup.EcsFirstEcrImageLogsIn | trivy_scanner-images_used_by_ecs.py:51-77 | The first ECR image of the ECS run always triggers the run's first login, for that image's region. |
| Kubectl.PutKeys | trivy_scanner-images_used_by_k8s.py:39 | Dict assignment keeps the key order of first insertion and appends a new key at the end. |
| Kubectl.PutLookup | trivy_scanner-images_used_by_k8s.py:39 | After `output[k] = v`, key `k` maps to `v` and every other key is unchanged. |
| Kubectl.PutDistinct | trivy_scanner-images_used_by_k8s.py:39 | Assignment never creates a duplicate key. |
| Kubectl.LookupFound | trivy_scanner-images_used_by_k8s.py:39 | A key has a value exactly when it is among the dict's keys. |
| Kubectl.CreateSubdirectory | trivy_scanner-images_used_by_k8s.py:50-56 | Accepts a path exactly when it has one `/`. The two parts then rejoin with `/` to the path and contain no `/` themselves. |
| Kubectl.OutputLines | trivy_scanner-images_used_by_k8s.py:31-33 | `stdout.split("\n")` without its last element when that is empty. Its meaning is stated by EmptyOutputEmptyDict and OutputLinesOfListing. |
| Kubectl.OutputLinesOfListing | trivy_scanner-images_used_by_k8s.py:31-33 | For a listing of lines without newline, the lines read back are exactly the listing when it ends in a newline, and also when it does not and its last line is non-empty: only an empty string after the final newline is dropped. |
| Kubectl.EmptyOutputEmptyDict | trivy_scanner-images_used_by_k8s.py:31-33 | Empty kubectl output gives an empty dict: the trailing empty line is dropped. |
| Kubectl.ParseLine | trivy_scanner-images_used_by_k8s.py:36-38 | One line: `split(': ')` into key and images, `split(' ')` of the images, and the key's one-`/` check. Its meaning is stated by ParseLineRoundTrip and ParseLineOfFormatted. |
| Kubectl.ParseLines | trivy_scanner-images_used_by_k8s.py:35-39 | The loop over lines into the dict, stopping at the first line that does not unpack. Its meaning is stated by ParseLinesOkIff, ParseLinesLookup and ParseLinesKeys. |
| Kubectl.ParseLineRoundTrip | trivy_scanner-images_used_by_k8s.py:36-38 | A line that parses is its key, `": "`, and its images joined by single spaces. Its key has exactly one `/`, and there is at least one image. |
| Kubectl.ParseLineOfFormatted | trivy_scanner-images_used_by_k8s.py:36-38 | Formatting a pod line from a one-`/` key and space-free images, then parsing it, gives that pod back, images in order. |
| Kubectl.ParseLinesOkIff | trivy_scanner-images_used_by_k8s.py:35-37 | Parsing succeeds exactly when every line splits into two on `": "` and its key into two on `/`. |
| Kubectl.ParseLinesLookup | trivy_scanner-images_used_by_k8s.py:35-39 | Each key maps to the images of its last line: a repeated key keeps the later line. |
| Kubectl.ParseLinesKeys | trivy_scanner-images_used_by_k8s.py:36-39 | Parsed keys are distinct and each has exactly one `/`. |
| Kubectl.ParsedKeysPassSubdirectory | trivy_scanner-images_used_by_k8s.py:52-56 | Every key `parse_kubectl_output` produces passes `create_subdirectory`'s check. |
| Kubectl.OutputPathLayout | trivy_scanner-images_used_by_k8s.py:77-79 | The report path is `output`, the namespace, the pod, then the sanitised image plus `.json`: exactly four `/`-separated components. |
| Kubectl.RunAsWritten | trivy_scanner-images_used_by_k8s.py:110-123 | The main loop as written, where the first ECR image raises NameError. Its meaning is stated by AsWrittenStopsAtFirstEcr and AsWrittenAgreesWithoutEcr. |
| Kubectl.RunIntended | trivy_scanner-images_used_by_k8s.py:110-123 | The main loop with `last_login_region` starting as None, through the shared login fold. Its meaning is stated by IntendedRunProperties and NameErrorWitness. |
| Kubectl.AsWrittenStopsAtFirstEcr | trivy_scanner-images_used_by_k8s.py:110-123 | As written, the loop scans exactly the images before the first ECR image and then fails with NameError on it. With no ECR image, it scans everything. |
| Kubectl.AsWrittenAgreesWithoutEcr | trivy_scanner-images_used_by_k8s.py:110-123 | With no ECR image the script as written and the corrected loop scan the same images. |
| Kubectl.IntendedRunProperties | trivy_scanner-images_used_by_k8s.py:110-123 | The corrected loop keeps the ECS loop's guarantees: each image is scanned or had its login fail, non-ECR images are scanned, order is kept, and logins never exceed ECR images. |
| Kubectl.NameErrorWitness | trivy_scanner-images_used_by_k8s.py:112-117 | On a pod with one ECR image, the script as written raises NameError before any scan. The corrected loop attempts a login for `eu-west-1` and, if it succeeds, scans the image. |
| LatestImage.NewestIsLastMaximum | trivy_scanner-latest_ecr_image.py:79 | Reference reading of "latest": the chosen image has the greatest push-time string, and no later image shares it. |
| LatestImage.SortLastIsNewest | trivy_scanner-latest_ecr_image.py:79 | `sort_by(imageDetails, &to_string(imagePushedAt))[-1]` is that reference image. |
| LatestImage.LatestTag | trivy_scanner-latest_ecr_image.py:79-85 | The JMESPath choice of the newest image and its first tag. Its meaning is stated by LatestTagOfNewest, against the reference reading NewestIsLastMaximum. |
| LatestImage.LatestTagOfNewest | trivy_scanner-latest_ecr_image.py:79-85 | The latest tag is the first tag of the newest image. An untagged newest image gives None. An empty tag list makes `[0]` fail. |
| LatestImage.OutputFile | trivy_scanner-latest_ecr_image.py:27-28 | The report file name is `{repo}:{tag}_results.json` with `/` turned into `_` in the repository and in the tag (an untagged image gives `None`). So it has no `/` and ends in `_results.json`. |
| LatestImage.ScanTargetIsEcrImage | trivy_scanner-latest_ecr_image.py:29 | The scan target `{ecr_uri}/{repo}:{tag}`, with the `ecr_uri` built at line 63, is itself an ECR image reference whose extracted region is the region being walked. |
| LatestImage.ResolveTags | trivy_scanner-latest_ecr_image.py:80-85 | Tags are resolved for all repositories before any scan. Resolution fails exactly when some repository's latest tag fails, and otherwise gives each repository its own latest tag. |
| LatestImage.RepoScans | trivy_scanner-latest_ecr_image.py:87-88 | One JSON scan per repository, in `describe_repositories` order, each of that repository's latest tag. |
| LatestImage.EveryRegionLogsIn | trivy_scanner-latest_ecr_image.py:61-71 | Every region attempts exactly one login, in region order. A run that crashes has attempted the logins of a prefix of the regions. |
| LatestImage.RunIsAuthorized | trivy_scanner-latest_ecr_image.py:61-88 | Every scan comes after a successful login to the registry host it targets, with no login in between. A region whose login fails gets no scan. |
| LatestImage.RunRegions | trivy_scanner-latest_ecr_image.py:61-88 | The loop over regions: log in, resolve every repository's tag, then scan. Its meaning is stated by EveryRegionLogsIn, RunIsAuthorized and ScansEveryReachableRepository. |
| LatestImage.ScansEveryReachableRepository | trivy_scanner-latest_ecr_image.py:61-88 | A run that does not crash starts exactly the scans of the reference list: for each region in order whose login succeeded, one scan per repository in listing order, of its latest tag. Nothing else is scanned. |
| Report.JsonFiles | find_secrets_or_make_dashboard.py:11-16 | Only files whose names end in `.json` are yielded, and all of them are. |
| Report.JsonFilesInOrder | find_secrets_or_make_dashboard.py:11-16 | The generator is an in-order filter: it distributes over concatenation and yields a single file exactly when its name ends in `.json`. |
| Secrets.FindSecretsInJson | find_secrets.py:4-19 | find_secrets.py's walk: each file's lines in turn. Its meaning is stated by EachFileOnItsOwn, OnlyJsonFilesExamined, OnlySecretResultsPrint, LineCounts and MatchesInOrder. |
| Secrets.FindSecrets | find_secrets_or_make_dashboard.py:28-39 | The dashboard script's variant, which stops at an undecodable file. Its meaning is stated by FindSecretsCrashesIff and FindSecretsStopsAtFirstUndecodable. |
| Secrets.MatchLines | find_secrets.py:16-17 | One `Match: ` line per entry of `Secrets`, in order. A missing `Match` prints as `None`. |
| Secrets.EachFileOnItsOwn | find_secrets.py:18-19 | In find_secrets.py each file's lines are independent of the other files. An undecodable file contributes its error line and the walk goes on. |
| Secrets.OnlyJsonFilesExamined | find_secrets.py:7 | Files whose names do not end in `.json` print nothing. |
| Secrets.OnlySecretResultsPrint | find_secrets.py:13-15 | Results whose `Class` is not `secret` print nothing. |
| Secrets.LineCounts | find_secrets.py:14-17 | One `File:` line per secret-class result, and one `Match:` line per entry of its `Secrets`, none when the key is absent. |
| Secrets.MatchesInOrder | find_secrets.py:16-17 | Reading the `Match:` lines back gives every match text, by result and then by entry. |
| Secrets.FindSecretsCrashesIff | find_secrets_or_make_dashboard.py:18-39 | The dashboard script's `find_secrets` stops exactly when some `.json` file is undecodable, since `'Results' in None` raises. Otherwise it prints what find_secrets.py prints. |
| Secrets.FindSecretsStopsAtFirstUndecodable | find_secrets_or_make_dashboard.py:18-39 | When it stops, it has printed find_secrets.py's output up to and including the first undecodable file's error line. |
| Dashboard.Classify | find_secrets_or_make_dashboard.py:94-116 | The `if`/`elif` chain matches a severity exactly and case-sensitively against the five literals, and nothing else. |
| Dashboard.CountStep | find_secrets_or_make_dashboard.py:94-113 | One vulnerability touches only the counter of its own severity: `found` always, `fixed` when it has a fixed version. |
| Dashboard.TallyCounts | find_secrets_or_make_dashboard.py:93-113 | Each Found counter equals the number of vulnerabilities whose severity is exactly that literal. Each Fixed counter equals those of them with a `FixedVersion`. |
| Dashboard.FixedAtMostFound | find_secrets_or_make_dashboard.py:94-113 | For every severity, Fixed ≤ Found. |
| Dashboard.EveryVulnCountedOnce | find_secrets_or_make_dashboard.py:93-116 | The Found counters sum to the number of recognised vulnerabilities. The unrecognised ones are exactly the rest. |
| Dashboard.Unrecognised | find_secrets_or_make_dashboard.py:114-116 | The vulnerabilities only printed all have a severity that is not one of the five literals. |
| Dashboard.UnrecognisedAppend | find_secrets_or_make_dashboard.py:93-116 | The collection is an in-order filter: it distributes over concatenation, and a single vulnerability is collected exactly when its severity is unrecognised. |
| Dashboard.UnrecognisedExactly | find_secrets_or_make_dashboard.py:114-116 | As many vulnerabilities are collected as there are positions with an unrecognised severity, and every such vulnerability is collected. |
| Dashboard.Cells | find_secrets_or_make_dashboard.py:78-120 | A counts row has as many cells as the header at line 48 and starts with the image and the finding target. A missing-results row is `[image, "No results"]`. |
| Dashboard.CellsUnderHeader | find_secrets_or_make_dashboard.py:48-119 | For each severity, the header names the two columns "<Severity> Found" and "<Severity> Fixed", and a counts row holds that severity's found and fixed counters, in decimal, in exactly those columns. |
| Dashboard.CellsReadBack | find_secrets_or_make_dashboard.py:118-119 | Every counter cell is a decimal that reads back as its counter. |
| Dashboard.NormalizeTarget | find_secrets_or_make_dashboard.py:70-71 | `result_target.split('(')[1][:-1]` when both parentheses occur. Its meaning is stated by NormalizeBracketedTarget and the lemmas below. |
| Dashboard.NormalizeBracketedTarget | find_secrets_or_make_dashboard.py:70-71 | For any `prefix` without `(` and any `u`, with a `)` somewhere, the target `prefix(u` becomes the longest `(`-free prefix of `u` minus its last character. |
| Dashboard.NormalizeOsTarget | find_secrets_or_make_dashboard.py:70-71 | `image (os)` becomes `os`. |
| Dashboard.NormalizeKeepsPlainTarget | find_secrets_or_make_dashboard.py:70-71 | A target lacking `(` or `)` is unchanged. |
| Dashboard.NormalizeFirstGroup | find_secrets_or_make_dashboard.py:70-71 | With a second `(`, the text between the first two `(`, minus its last character, is kept. |
| Dashboard.NormalizeDebianExample | find_secrets_or_make_dashboard.py:70-71 | `myimage (debian 11)` becomes `debian 11`. |
| Dashboard.NormalizeNestedExample | find_secrets_or_make_dashboard.py:70-71 | `img (x (y))` becomes `x`, not the innermost `y`. |
| Dashboard.DisplayName | find_secrets_or_make_dashboard.py:123-126 | A display name never contains `:`. |
| Dashboard.DisplayNameOfEcrReference | find_secrets_or_make_dashboard.py:123-126 | The display name of `{host}.amazonaws.com/{repo}:{tag}` is `repo`: the host is dropped and the tag is cut. |
| Dashboard.DisplayNameOfOtherReference | find_secrets_or_make_dashboard.py:125-126 | A name without `.amazonaws.com/` keeps its longest `:`-free prefix: the display name is a prefix of the name, has no `:`, and is the whole name or stops at its first `:`. |
| Dashboard.SortKeyOrder | find_secrets_or_make_dashboard.py:133 | Ascending order on the negated key is descending (critical, high, medium, low) order. |
| Dashboard.ListingOrder | find_secrets_or_make_dashboard.py:129-135 | The listing is a permutation of the entries, in descending (critical, high, medium, low) order. Entries with equal counts keep insertion order. |
| Dashboard.SecretsProduceNothing | find_secrets_or_make_dashboard.py:73-75 | Secret-class results produce no row, no listing entry and no other effect. The loop behaves as if they were absent. |
| Dashboard.RowNamesAsWritten | find_secrets_or_make_dashboard.py:122-126 | As written, with the listing on, the k-th row of a report shows the artifact name shortened k times, and its listing entry shows it shortened k+1 times. With the listing off, every row shows the full name. |
| Dashboard.RowNamesIntended | find_secrets_or_make_dashboard.py:122-126 | Without the write-back, every row shows the artifact name, and every listing entry starts with its display name. |
| Dashboard.ReportRowsIntended | find_secrets_or_make_dashboard.py:78-126 | Without the write-back, a report whose results all have `Vulnerabilities` completes, and every CSV row names its artifact in full. |
| Dashboard.ReassignmentWitness | find_secrets_or_make_dashboard.py:123-126 | As written, a report on `123456789012.dkr.ecr.eu-west-1.amazonaws.com/app:latest` with two results gives two rows. The first row's Image cell is the full reference. The second row's Image cell is `app`. |
| Dashboard.ResultsLoop | find_secrets_or_make_dashboard.py:65-129 | The loop over one report's results: rows, listing entries, unrecognised vulnerabilities, and the display-name write-back. Its meaning is stated by ResultsLoopCompletesIff, SecretsProduceNothing, RowNamesAsWritten and ReassignmentWitness. |
| Dashboard.ResultsLoopCompletesIff | find_secrets_or_make_dashboard.py:65-93 | The results loop gets through a report exactly when every non-secret result has `Vulnerabilities`. |
| Dashboard.DashboardCompletesIff | find_secrets_or_make_dashboard.py:55-93 | `create_dashboard` runs to the end, and so prints its listing, exactly when every `.json` file decodes, has `Results`, and has `Vulnerabilities` in every non-secret result. |
| Dashboard.CreateDashboard | find_secrets_or_make_dashboard.py:44-137 | The whole script: header, rows of every `.json` file, and the sorted listing when it completes. Its meaning is stated by DashboardCompletesIff, Cells, CellsUnderHeader and ListingOrder. |

## Left out

- AWS calls are not modelled and enter as inputs: STS account lookup, `get_regions_for_service`, ECS task-definition listing, ECR `describe_repositories` and `describe_images`.
- Only one page of `describe_images` is modelled. `list(filter_iterator)[0]` takes the first page's answer.
- The JMESPath expression is modelled only as "stable sort by the push-time string, take the last, read its tags". The library is not modelled, and `to_string` of a datetime is taken as a given string.
- `docker login` and `aws ecr get-login-password` are replaced by the login oracle: stdout as a function of the region and the attempt number. Their stderr and the diagnostic prints are not modelled.
- The `trivy` subprocess and its `Popen` read/poll streaming loop are process I/O with timing. The model records which scans are started, with their target, format and output file.
- No file system: `os.walk` order is the order of the given file list, and `os.makedirs` is not modelled. `create_subdirectory` is modelled only as its validation.
- CSV quoting and the final `print` are left out: rows are sequences of cells and the listing is a sequence of lines. `json.dumps` of an unrecognised vulnerability is represented by the vulnerability itself.
- JSON decoding is not modelled: a file is a decoded `Report` or `Undecodable`.
- Report keys that the model assumes present: `ArtifactName`, `Target` and `Severity`, always as strings. When the source meets them missing or `None`, it raises or prints `None`.
- A `Results` or `Secrets` key present with the value `null` is not modelled: the model reads absent keys only.
- `argparse`, the boto3 session set-up and the module-level wiring are left out.
- Python's `\d` also matches non-ASCII decimal digits. The model accepts ASCII `0`-`9` only.
- The k8s script's "login failed" branch is covered only by the corrected loop, since the script as written never reaches it.
- Trivy.SanitizeCollides: the collision of sanitised paths is stated by a concrete example, not as a general property.

## Findings

| source | as written | input that shows it | evidently intended | confidence | as-written member | corrected member |
|---|---|---|---|---|---|---|
| trivy_scanner-images_used_by_k8s.py:112-117 | `last_login_region` is read at line 114 but never bound before, so the first ECR image raises `NameError` and the run stops. | kubectl output `ns/pod: 123456789012.dkr.ecr.eu-west-1.amazonaws.com/app:latest` | The ECS script's loop: start with no remembered region, log in once per change of region, and skip only the image whose login fails. | high; not executed | Kubectl.NameErrorWitness, Kubectl.AsWrittenStopsAtFirstEcr | Kubectl.IntendedRunProperties |
| find_secrets_or_make_dashboard.py:123-126 | The shortened display name is written back into `image_name`, so later CSV rows of the same report show the shortened name. Turning the listing on or off therefore changes the CSV. | a report on `123456789012.dkr.ecr.eu-west-1.amazonaws.com/app:latest` with two non-secret results: its Image cells are the full reference, then `app` | Every CSV row carries `ArtifactName`; only the listing uses the shortened name. | medium; not executed | Dashboard.ReassignmentWitness, Dashboard.RowNamesAsWritten | Dashboard.ReportRowsIntended, Dashboard.RowNamesIntended |
