# branch-release in Dafny

`branch-release` publishes a built version of an npm package to a dedicated
releases branch of its git repository. A run works like this:

1. It reads the version from `package.json` on `master`.
2. It asks the remote for its tags. If a tag already names that version, the
   run stops there, so running it twice is harmless.
3. Otherwise it checks out the releases branch with `checkout -B`, then pulls
   it if it exists on the remote, and merges `master`.
4. It clears the dist folder, runs the build script, and force-adds the built
   files.
5. It commits, tags `v<version>` and pushes the branch and the tags, with an
   authenticated URL when a GitHub token is configured.
6. Once the build phase has started, it checks `master` out again whatever
   happens. A failure while reading the version or the tags ends the run
   without that checkout.

Any failure prints the error message with the token masked and exits with
status 1.

This project models `index.js` as pure functions over strings and proves what
its decisions mean:

- **Configuration** (`settings.dfy`): options are resolved as
  `env || flag || default`, using JavaScript truthiness.
- **Commit message and tag name** (`compose.dfy`).
- **Release gate** (`gate.dfy`): the tag-listing regular expression.
- **Branch-existence check** (`sync.dfy`): the heads-listing regular
  expression.
- **Remote reference and push targets** (`publish.dfy`), including the log
  line that masks the token.
- **Error-message redaction** (`redaction.dfy`).
- **Orchestration** (`release.dfy`): the chain of fallible steps, with its
  `finally`.

The supporting modules give the JavaScript primitives a meaning:

- `text.dfy` covers `indexOf`, `replace` with a string pattern, `split`,
  global replace, `startsWith` and `trim`.
- `line_regex.dfy` covers the small fragment of multiline regular expressions
  the script builds: literals, `\D`, escaped syntax characters and `.`,
  followed by `$` with the `m` flag.

git, del and npm are not modelled. Each call becomes a `Release.Step` in the
run's trace, and a `Release.World` supplies what they answer:

- the tag listing;
- the heads listing;
- the remote URL;
- which step of the run fails, and with what message.

Where the code and its documentation disagree, the model follows the code:

- The environment variable wins over the command-line flag, because each
  option is `process.env.X || argv.y || default`.
- The commit-message template is read from `BR_DIST_DIR` (index.js:16). So
  setting the dist directory through the environment also sets the commit
  message.
- Redaction does not always remove the token from the message. The
  placeholder `xxGH_TOKENxx` can complete an occurrence of the token again.
  `Redaction.RedactionCanRebuildToken` shows this. `RedactedMessageHasNoToken`
  gives a condition under which no occurrence is left: the token's first and
  last characters do not occur in the placeholder, and the token does not
  contain the placeholder.
- The push log line masks only the first occurrence of the token.
  `Publish.ShortTokenLeaksIntoLog` shows a token whose first occurrence falls
  inside `https://`.

## Model

| member | source | states |
|---|---|---|
| Settings.Pick | index.js:13 | `env \|\| flag \|\| default`: a non-empty environment value wins, then a non-empty flag, then the default; a non-empty default gives a non-empty result |
| Settings.Resolve | index.js:13-17 | the releases branch, the dist directory, the commit template and the build script each come from their truthy environment variable, else their truthy flag, else their default, and the template's variable is `BR_DIST_DIR`; the token is a truthy `GH_TOKEN`, else the `-t` flag; every option except the token is non-empty; a token is in use exactly when `GH_TOKEN` or `-t` is a non-empty string |
| Settings.DistDirVariableSetsCommitTemplate | index.js:15-16 | a truthy `BR_DIST_DIR` becomes both the dist directory and the commit-message template |
| Settings.Defaults | index.js:13-17 | with nothing configured: branch `releases`, no token, `dist`, `Release v%ver%`, `build-dist` |
| Text.IndexOf | index.js:104 | the search fails exactly when the pattern occurs nowhere; otherwise it finds the leftmost occurrence |
| Text.ReplaceFirst | index.js:104 | replacing with a string pattern leaves a text without the pattern unchanged, and otherwise substitutes only its leftmost occurrence |
| Text.SplitPieces | index.js:119 | `Split` (`split('@')`, and `fail`'s global replace): no piece contains the separator; a text without the separator is a single piece; one with it splits into at least two |
| Text.JoinSplit | index.js:119 | joining the pieces of `Split` with the separator gives the text back |
| Text.ReplaceAllIsJoin | index.js:161 | `ReplaceAll`, the global literal replace, equals splitting on the pattern and joining with the replacement |
| Text.Trim | index.js:120 | the result is a contiguous slice of the text; only whitespace or line terminators are cut from either end; the result neither starts nor ends with one |
| Text.TrimStartDrops | index.js:120 | the leading-side cut of `trim` removes only whitespace and leaves a text that is empty or starts with a non-space |
| Text.TrimEndDrops | index.js:120 | the trailing-side cut of `trim` removes only whitespace and leaves a text that is empty or ends with a non-space |
| Text.TrimPadded | index.js:120 | trimming a text without surrounding space that is followed by whitespace gives that text |
| LineRegex.CompileLiteral | index.js:63 | `Compile` (`new RegExp(…, 'm')`): a pattern body without syntax characters compiles to the literal pattern of its own text |
| LineRegex.CompiledMatchesSource | index.js:63 | a pattern without backslashes, read by `Compile`, matches its own text: each literal matches itself and each `.` matches the dot |
| LineRegex.Test | index.js:50 | a multiline `test` succeeds exactly when the pattern matches at some position and the match ends at a line end |
| LineRegex.ConsMatchAt | index.js:49 | a leading atom and the rest match exactly when the atom matches the character and the rest matches from the next position |
| Gate.EscapedDots | index.js:49 | escaping leaves a version without dots unchanged, and every dot of the escaped text follows a backslash |
| Gate.EscapedVersionIsLiteral | index.js:49 | escaping the dots of a clean version makes the pattern match the version literally |
| Gate.GatePattern | index.js:49 | the gate's pattern body is a non-digit followed by the version's characters |
| Gate.GateMatchAt | index.js:49-50 | the gate pattern matches at `i` exactly when a non-digit sits at `i`, the version follows it, and a line ends after it |
| Gate.CheckVersionIsTagged | index.js:46-52 | a version counts as released exactly when the tag listing contains a non-digit, then the version, then the end of a line |
| Gate.CreatedTagIsRecognised | index.js:49-50 | a listing line that ends in the tag `v<version>` makes the gate report the version released |
| Gate.LongerVersionDoesNotMatch | index.js:49 | the tag `v12.3` does not release `2.3`, because a digit precedes it |
| Gate.DotsAreLiteral | index.js:49 | the escaped dots are literal: `v1x2x3` does not release `1.2.3` |
| Sync.HeadsPattern | index.js:63 | the branch check's pattern is the literal `heads/` followed by the branch name's pattern |
| Sync.HeadsMatchAt | index.js:63-64 | the pattern matches exactly where `heads/` occurs and the branch pattern matches right after it, up to a line end |
| Sync.RemoteBranchExists | index.js:63-64 | the check succeeds exactly when some position of the heads listing has `heads/` followed by a match of the branch name that ends a line |
| Sync.PlainBranchName | index.js:63-64 | for a name without syntax characters, the check succeeds exactly when some line ends with `heads/<name>` |
| Sync.ListedBranchIsFound | index.js:63-64 | a listing line ending in `heads/<branch>` is always found |
| Sync.DottedBranchMatchesOtherName | index.js:63 | the unescaped `.` of a branch name matches any character but a line terminator: `1.x` is taken to exist when only `1ax` is listed |
| Compose.CommitMessage | index.js:104 | a template without `%ver%` is the message itself; otherwise only the leftmost `%ver%` becomes the version |
| Compose.DefaultCommitMessage | index.js:104 | the default template gives `Release v<version>` |
| Compose.OnlyFirstPlaceholderReplaced | index.js:104 | a second `%ver%` stays in the message |
| Compose.TagName | index.js:109-110 | the tag is `v` followed by the whole version |
| Publish.AfterUserinfo | index.js:119 | the part after the userinfo contains no `@`; a URL without `@` is kept whole; a URL with exactly one `@` gives the text after it |
| Publish.StripScheme | index.js:121-122 | a leading `https://` is dropped and nothing else changes; a text without it is kept |
| Publish.RepoRef | index.js:119-124 | the repository reference built from the remote URL contains no `@` |
| Publish.SoleAtRepoRef | index.js:119-124 | for a URL with exactly one `@`, the reference is the text after it, trimmed, without a leading `https://`, with its first `:` made `/` |
| Publish.NoAtRepoRef | index.js:119-124 | for a URL without `@`, the reference is the whole URL normalised the same way |
| Publish.ScpStyleRemote | index.js:119-124 | `user@host:path` followed by whitespace gives `host/path` |
| Publish.UserinfoRemote | index.js:119-124 | `userinfo@host/path` with whitespace after it gives `host/path`, so old credentials are dropped |
| Publish.HttpsRemote | index.js:119-124 | `https://host/path` with whitespace after it gives `host/path` |
| Publish.PushRemote | index.js:125-128 | without a token the push goes to `origin`; with one it goes to `https://`, then the token, then `@` and the repository reference |
| Publish.TagsPushArgs | index.js:135-138 | the tag push gets one extra argument exactly when a token is configured, and that argument is the authenticated URL, never `origin` |
| Publish.PushLogMasksFirst | index.js:131 | `PushLogLine`, the logged push line, shows the remote with the leftmost occurrence of the token, or of `undefined` when there is no token, replaced by the placeholder and the rest unchanged |
| Publish.PushLogShowsUnmatchedRemote | index.js:131 | a remote in which that pattern does not occur is logged unchanged |
| Publish.TokenFirstAfterScheme | index.js:127 | when a token has no `:` or `/` and some character other than `h`, `t`, `p`, `s`, its leftmost occurrence in the authenticated URL is the one after `https://` |
| Publish.MaskedPushRemote | index.js:127-131 | for such a token, masking the authenticated URL gives `https://xxGH_TOKENxx@<ref>` |
| Publish.PushLogHidesToken | index.js:125-131 | for such a token, the logged push line shows the placeholder in place of the credential |
| Publish.PushLogWithoutToken | index.js:125-131 | without a token the push goes to `origin` and the log line shows `origin` unchanged |
| Publish.PushLogWithEmptyToken | index.js:125-131 | an empty token means no token, so the push goes to `origin`; the log line shows `xxGH_TOKENxxorigin`, because the empty pattern matches at the start |
| Publish.ShortTokenLeaksIntoLog | index.js:131 | the token `tp` is masked inside `https://`, and the logged line still shows the credential |
| Redaction.Redact | index.js:158-161 | without a token the message is unchanged; with one, the message is cut at every leftmost non-overlapping occurrence into token-free pieces that are rejoined with the placeholder, and the first occurrence is replaced in place |
| Redaction.RedactedMessageHasNoToken | index.js:160-161 | when the token's first and last characters do not occur in the placeholder and the token does not contain the placeholder, the printed message contains no occurrence of the token |
| Redaction.PersonalAccessTokenUnlinked | index.js:160-161 | a GitHub personal access token, `ghp_` followed by letters and digits, has no regular-expression syntax and meets that condition whenever its last character is not one of the placeholder's (`x`, `G`, `H`, `T`, `O`, `K`, `E`, `N`) |
| Redaction.RedactionCanRebuildToken | index.js:161 | with the token `xxx`, the message `xxxx` prints as `xxGH_TOKENxxx`, which contains the token again |
| Release.Execute | index.js:78-144 | a chain of steps runs a prefix of the plan; it succeeds exactly when no step fails, and then runs the whole plan; otherwise it stops at the first failing step and reports that step's message |
| Release.CheckoutAndPull | index.js:54-73 | the heads are listed first; `checkout -B` of the releases branch follows whether or not it is listed; the pull is the third step when the branch is listed and is absent when it is not |
| Release.PublishSteps | index.js:78-144 | ten steps: the merge of `master` first, the clearing of `<dist>/**/*` second, the build third and the only build, the force-add of the dist directory fifth, the commit of the composed message sixth, the tag `v<version>` seventh, the branch push of `BranchRefspec` (`<branch>:<branch>`, index.js:129) to the push remote ninth and the tag push with its extra arguments tenth; none of them pulls or resets the branch |
| Release.BuildPlan | index.js:54-144 | the plan starts with the heads listing and the `checkout -B`; the pull is the third step when the branch is listed and is absent when it is not; the clearing of the dist directory comes right before the build; the tag step is fourth from the end |
| Release.BuildPlanBuildsOnce | index.js:83-91 | the plan holds a single build step, the one right after the clearing |
| Release.Fail | index.js:158-164 | `fail` exits with status 1 and prints the message unchanged when no token is configured |
| Release.BranchRelease | index.js:19-35 | the exit status is 1 exactly when the run failed, and 0 when it skipped or released |
| Release.SkipsWhenTagged | index.js:31-33 | a version that is already tagged only reads the version and the tags; nothing is built or pushed |
| Release.BuildsOnlyWhenUntagged | index.js:31-32 | the build phase starts exactly when the prelude succeeded and the gate reported the version untagged |
| Release.BuildRunsPlanThenMaster | index.js:78-148 | `Conclude`, the run after the gate: once `buildAndPublish` starts, the run is the prelude, a prefix of the plan that stops at its first failing step, then the `finally` checkout of `master` |
| Release.FailsIffSomeStepFailed | index.js:19-21 | a run reports failure exactly when one of the steps it ran failed |
| Release.FailureReportsRedactedMessage | index.js:158-163 | a failure prints the redacted message of one of the steps that failed |
| Release.ClearsBeforeBuild | index.js:83-91 | the build runs only right after the dist directory was cleared, and that clearing succeeded |
| Release.CheckoutResetWhetherListedOrNot | index.js:59-61 | once the heads listing has succeeded in a build, `checkout -B` of the releases branch runs, whether the branch is listed or not |
| Release.PullOnlyWhenBranchListed | index.js:63-71 | the releases branch is pulled only when the heads listing shows it |
| Release.PullWhenBranchListed | index.js:64-67 | a listed branch is pulled once the heads listing and `checkout -B` have succeeded |
| Release.ReleasedRunIsComplete | index.js:78-151 | a successful run went through the whole plan, including the tag `v<version>`, and none of its steps failed |
| Release.RerunAfterReleaseSkips | index.js:46-52 | after a release, a listing that shows the tag it created makes the next run with the same version skip |

## Left out

- Redaction.PersonalAccessTokenUnlinked: a token whose last character is one
  of the placeholder's letters is not covered. Such a token may still be
  masked completely, but the proof that no occurrence is left relies on
  both ends of the token being foreign to the placeholder.
- git, del, npm and the filesystem are not modelled. Each call is an opaque
  `Step`. What it returns, and whether it fails, comes from the `World`.
- The console output, its `chalk` colouring and the progress log lines are
  not modelled. Only the branch-push log line is kept, because it handles the
  token.
- The process exit status is a field of the outcome, not a real process exit.
- Promises and their asynchrony are replaced by a sequential run that stops
  at the first failure.
- The `finally` step replaces the run's outcome when it fails, and leaves it
  unchanged when it succeeds.
- `semver.clean` and `JSON.parse` of `package.json` are not modelled.
  - The version is a parameter, limited to the characters `semver.clean` can
    leave (`Gate.IsCleanVersion`).
  - A manifest whose version is missing or invalid, which makes the source
    throw, is not modelled.
- yargs parsing is not modelled. Flags arrive as a map of strings, so a
  numeric or boolean flag value is not modelled.
- `err.message || err.string` is not modelled. A failure carries its message
  as a string.
- Sync.RemoteBranchExists: only branch names whose pattern lies in the
  modelled fragment are covered, meaning literals and `.`. Names holding
  other regular-expression syntax (`*`, `+`, `[`, `(` and the like) are
  excluded by `Sync.IsSupportedBranch`. The source passes those to `RegExp`
  unescaped.
- Redaction.Redact: the token is assumed to contain no regular-expression
  syntax characters (`Redaction.IsLiteralToken`). The source builds
  `new RegExp(GH_TOKEN, 'g')` unescaped. GitHub tokens are letters, digits
  and underscores.
- `$` substitution patterns in replacement strings are not modelled. The
  version and the placeholder contain no `$`.
- Text.Trim: only the JavaScript whitespace and line-terminator characters
  listed in `Text.IsJsSpace` are cut.
- Strings are sequences of Unicode scalar values, not of UTF-16 code units as
  in JavaScript. A character outside the Basic Multilingual Plane is one
  character here. In JavaScript a `.` in a branch name or `\D` in the gate can
  match one half of such a character, which the model does not reproduce.
