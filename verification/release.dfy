/**
 The control flow of a run (index.js:19-35, index.js:75-152): read the
 version on `master`, consult the gate, and either stop or run
 `buildAndPublish`, a fixed sequence of fallible steps whose `finally` checks
 `master` out again. Any rejection reaches `fail`, which prints the redacted
 message and exits with status 1.

 The promise chain is modelled as a synchronous pipeline: a step runs only
 when every step before it succeeded. What git, del and npm answer is given
 by a `World`: the listings and the remote URL they return, and which step of
 the run, counted from 0, fails and with what message.
 */
module Release {
  import opened Wrappers
  import opened LineRegex
  import opened Settings
  import opened Compose
  import opened Gate
  import opened Sync
  import opened Redaction
  import opened Publish

  /** A call into git, del or npm. */
  datatype Step =
    | Checkout(branch: string)               // git checkout <branch>
    | ShowFile(spec: string)                 // git show HEAD:package.json
    | ListRemoteTags                         // git ls-remote -t origin
    | ListRemoteHeads                        // git ls-remote -h origin
    | CheckoutReset(branch: string)          // git checkout -B <branch>
    | Pull(remote: string, branch: string)   // git pull origin <branch>
    | Merge(branch: string)                  // git merge master
    | DeleteFiles(glob: string)              // del([<dist>/**/*])
    | RunBuild(command: string)              // npm run-script <script>
    | Add(path: string)                      // git add .
    | ForceAdd(path: string)                 // git add <dist> -f
    | Commit(message: string)                // git commit -m <message>
    | CreateTag(name: string)                // git tag v<version>
    | GetConfig(key: string)                 // git config --get remote.origin.url
    | Push(remote: string, refspec: string)  // git push <remote> <branch>:<branch>
    | PushTags(remotes: seq<string>)         // git push --tags [<url>]

  /** What the collaborators answer during one run. */
  datatype World = World(
    tagListing: string,           // output of `git ls-remote -t origin`
    headListing: string,          // output of `git ls-remote -h origin`
    remoteUrl: string,            // output of `git config --get remote.origin.url`
    failures: map<nat, string>)   // the step at this position of the run fails with this message

  /** The steps a pipeline ran and, when one failed, its message. */
  datatype Ran = Ran(steps: seq<Step>, error: Option<string>)

  /** The `n` steps from position `start` on all succeed. */
  ghost predicate SucceedsFrom(failures: map<nat, string>, start: nat, n: nat) {
    forall k :: start <= k < start + n ==> k !in failures
  }

  /**
   Runs `plan`, whose first step is at position `start` of the run, and stops
   at the first step that fails.
   */
  function Execute(plan: seq<Step>, start: nat, failures: map<nat, string>): (r: Ran)
    decreases |plan|
    ensures r.steps <= plan
    ensures r.error.None? <==> SucceedsFrom(failures, start, |plan|)
    ensures r.error.None? ==> r.steps == plan
    ensures r.error.Some? ==>
      && 0 < |r.steps|
      && start + |r.steps| - 1 in failures
      && r.error.value == failures[start + |r.steps| - 1]
      && SucceedsFrom(failures, start, |r.steps| - 1)
  {
    if plan == [] then Ran([], None)
    else if start in failures then Ran([plan[0]], Some(failures[start]))
    else
      var rest := Execute(plan[1..], start + 1, failures);
      assert plan == [plan[0]] + plan[1..];
      Ran([plan[0]] + rest.steps, rest.error)
  }

  /** `getCurrentVersion` and the listing `checkVersionIsTagged` reads. */
  const Prelude: seq<Step> := [Checkout("master"), ShowFile("HEAD:package.json"), ListRemoteTags]

  /**
   `checkoutAndPull`: list the remote heads, `checkout -B` the branch in any
   case, and pull it only when `listed`, the answer of the heads check
   (`Sync.RemoteBranchExists`).
   */
  function CheckoutAndPull(branch: string, listed: bool): (r: seq<Step>)
    ensures |r| == (if listed then 3 else 2)
    ensures r[0] == ListRemoteHeads && r[1] == CheckoutReset(branch)
    ensures listed ==> r[2] == Pull("origin", branch)
    ensures Pull("origin", branch) in r <==> listed
  {
    [ListRemoteHeads, CheckoutReset(branch)] + (if listed then [Pull("origin", branch)] else [])
  }

  /**
   The steps of `buildAndPublish` after `checkoutAndPull`: merge, clear, build,
   add, commit, tag, read the remote URL, push the branch, push the tags.
   `repoRef` is the reference `Publish.RepoRef` derives from that URL.
   */
  function PublishSteps(cfg: Config, version: string, repoRef: string): (r: seq<Step>)
    ensures |r| == 10
    ensures r[0] == Merge("master")
    ensures r[1] == DeleteFiles(cfg.distDir + "/**/*") && r[2] == RunBuild("npm run-script " + cfg.buildScript)
    ensures forall j :: 0 <= j < |r| && r[j].RunBuild? ==> j == 2
    ensures r[4] == ForceAdd(cfg.distDir)
    ensures r[5] == Commit(CommitMessage(cfg.commitTemplate, version)) && r[6] == CreateTag(TagName(version))
    ensures r[8] == Push(PushRemote(cfg.token, repoRef), BranchRefspec(cfg.releasesBranch))
    ensures r[9] == PushTags(TagsPushArgs(cfg.token, repoRef))
    ensures forall s :: s in r ==> !s.Pull? && !s.CheckoutReset?
  {
    [ Merge("master"),
      DeleteFiles(cfg.distDir + "/**/*"),
      RunBuild("npm run-script " + cfg.buildScript),
      Add("."),
      ForceAdd(cfg.distDir),
      Commit(CommitMessage(cfg.commitTemplate, version)),
      CreateTag(TagName(version)),
      GetConfig("remote.origin.url"),
      Push(PushRemote(cfg.token, repoRef), BranchRefspec(cfg.releasesBranch)),
      PushTags(TagsPushArgs(cfg.token, repoRef)) ]
  }

  /** Everything `buildAndPublish` does before its `finally`, and where its notable steps sit. */
  function BuildPlan(cfg: Config, version: string, listed: bool, repoRef: string): (plan: seq<Step>)
    ensures |plan| == (if listed then 13 else 12)
    ensures plan[0] == ListRemoteHeads && plan[1] == CheckoutReset(cfg.releasesBranch)
    ensures listed ==> plan[2] == Pull("origin", cfg.releasesBranch)
    ensures Pull("origin", cfg.releasesBranch) in plan <==> listed
    ensures plan[|plan| - 4] == CreateTag(TagName(version))
    ensures plan[|plan| - 9] == DeleteFiles(cfg.distDir + "/**/*")
    ensures plan[|plan| - 8] == RunBuild("npm run-script " + cfg.buildScript)
  {
    var head := CheckoutAndPull(cfg.releasesBranch, listed);
    var tail := PublishSteps(cfg, version, repoRef);
    JoinedShape(cfg.releasesBranch, listed, head, tail, TagName(version));
    head + tail
  }

  /** The plan holds one build step, the one right after the clearing of the dist directory. */
  lemma BuildPlanBuildsOnce(cfg: Config, version: string, listed: bool, repoRef: string)
    ensures var plan := BuildPlan(cfg, version, listed, repoRef);
      forall j :: 0 <= j < |plan| && plan[j].RunBuild? ==> j == |plan| - 8
  {
    var head := CheckoutAndPull(cfg.releasesBranch, listed);
    var tail := PublishSteps(cfg, version, repoRef);
    BuildAfterClearing(head, tail, DeleteFiles(cfg.distDir + "/**/*"), RunBuild("npm run-script " + cfg.buildScript));
  }

  /** The clearing and the build keep their places, and the build its uniqueness, once the head is prepended. */
  lemma BuildAfterClearing(head: seq<Step>, tail: seq<Step>, clear: Step, build: Step)
    requires forall s :: s in head ==> !s.RunBuild?
    requires |tail| == 10 && tail[1] == clear && tail[2] == build
    requires forall j :: 0 <= j < |tail| && tail[j].RunBuild? ==> j == 2
    ensures var plan := head + tail;
      && plan[|plan| - 9] == clear && plan[|plan| - 8] == build
      && forall j :: 0 <= j < |plan| && plan[j].RunBuild? ==> j == |plan| - 8
  {
    var plan := head + tail;
    forall j | 0 <= j < |plan| && plan[j].RunBuild? ensures j == |plan| - 8 {
      if j >= |head| {
        assert plan[j] == tail[j - |head|];
      }
    }
  }

  lemma JoinedShape(b: string, listed: bool, head: seq<Step>, tail: seq<Step>, tag: string)
    requires |head| == (if listed then 3 else 2) && head[0] == ListRemoteHeads && head[1] == CheckoutReset(b)
    requires (listed ==> head[2] == Pull("origin", b)) && (Pull("origin", b) in head <==> listed)
    requires |tail| == 10 && tail[6] == CreateTag(tag) && forall s :: s in tail ==> !s.Pull?
    ensures var plan := head + tail;
      && |plan| == (if listed then 13 else 12)
      && plan[0] == ListRemoteHeads && plan[1] == CheckoutReset(b)
      && (listed ==> plan[2] == Pull("origin", b))
      && (Pull("origin", b) in plan <==> listed)
      && plan[|plan| - 4] == CreateTag(tag)
  {
    var plan := head + tail;
    if Pull("origin", b) in plan {
      assert Pull("origin", b) !in tail;
      assert Pull("origin", b) in head;
    }
    if listed {
      assert plan[2] == head[2];
    }
  }

  /** How a run ends. */
  datatype Report =
    | AlreadyReleased(version: string)
    | Released
    | Failed(message: string)   // what `fail` prints after `Release failed:`

  datatype Outcome = Outcome(trace: seq<Step>, report: Report, exitCode: int)

  /** The inputs the model covers: see `IsCleanVersion`, `IsSupportedBranch` and `IsLiteralToken`. */
  predicate Supported(cfg: Config, version: string) {
    IsCleanVersion(version) && IsSupportedBranch(cfg.releasesBranch) && IsLiteralToken(cfg.token)
  }

  /** `fail`: the message with the token redacted, and exit status 1. */
  function Fail(token: Option<string>, trace: seq<Step>, message: string): (o: Outcome)
    requires IsLiteralToken(token)
    ensures o.exitCode == 1 && o.trace == trace
    ensures !HasToken(token) ==> o.report == Failed(message)
  {
    Outcome(trace, Failed(Redact(token, message)), 1)
  }

  /**
   `main` once the gate has answered and the plan is known: a failed prelude
   or a failed step reaches `fail`; a tagged version stops; otherwise the
   plan runs and the `finally` checks `master` out again.
   */
  function Conclude(token: Option<string>, version: string, tagged: bool,
                    plan: seq<Step>, failures: map<nat, string>): (o: Outcome)
    requires IsLiteralToken(token)
    ensures o.exitCode == (if o.report.Failed? then 1 else 0)
  {
    var pre := Execute(Prelude, 0, failures);
    if pre.error.Some? then Fail(token, pre.steps, pre.error.value)
    else if tagged then Outcome(Prelude, AlreadyReleased(version), 0)
    else
      var ran := Execute(plan, |Prelude|, failures);
      var back := |Prelude| + |ran.steps|;   // position of the `finally` checkout
      var trace := Prelude + ran.steps + [Checkout("master")];
      // a rejected `finally` replaces the chain's own outcome
      var error := if back in failures then Some(failures[back]) else ran.error;
      if error.Some? then Fail(token, trace, error.value) else Outcome(trace, Released, 0)
  }

  /** `main`: `branchRelease()`, with `fail` on any rejection. */
  function BranchRelease(cfg: Config, version: string, w: World): (o: Outcome)
    requires Supported(cfg, version)
    ensures o.exitCode == (if o.report.Failed? then 1 else 0)
  {
    Conclude(cfg.token, version, CheckVersionIsTagged(w.tagListing, version), RunPlan(cfg, version, w), w.failures)
  }

  /** The plan of a run: the pull depends on the heads listing, the push targets on the remote URL. */
  function RunPlan(cfg: Config, version: string, w: World): seq<Step>
    requires IsSupportedBranch(cfg.releasesBranch)
  {
    BuildPlan(cfg, version, RemoteBranchExists(w.headListing, cfg.releasesBranch), RepoRef(w.remoteUrl))
  }

  /** A step of `buildAndPublish`'s own is not a step of the prelude or the final checkout. */
  lemma OutsidePrelude(s: Step)
    requires !s.Checkout? && !s.ShowFile? && !s.ListRemoteTags?
    ensures s !in Prelude && s != Checkout("master")
  {
  }

  /** A run reaches the plan only when the prelude succeeded and the gate said "not tagged". */
  ghost predicate Builds(tagged: bool, failures: map<nat, string>) {
    SucceedsFrom(failures, 0, |Prelude|) && !tagged
  }

  // The `Conclude…` lemmas hold for any plan; the lemmas about `BranchRelease`
  // further down apply them to the plan of a run.

  /** The plan runs as a prefix that stops at its first failing step, then `master` is checked out. */
  lemma ConcludeRunsPlanThenMaster(token: Option<string>, version: string, tagged: bool,
                                   plan: seq<Step>, failures: map<nat, string>)
    requires IsLiteralToken(token) && Builds(tagged, failures) && |plan| > 0
    ensures var o := Conclude(token, version, tagged, plan, failures);
      exists n ::
        && 1 <= n <= |plan|
        && o.trace == Prelude + plan[..n] + [Checkout("master")]
        && SucceedsFrom(failures, |Prelude|, n - 1)
        && (n < |plan| ==> |Prelude| + n - 1 in failures)
  {
    var ran := Execute(plan, |Prelude|, failures);
    var n := |ran.steps|;
    assert ran.steps == plan[..n];
    if ran.error.None? {
      assert n == |plan|;
    }
  }

  lemma ConcludeFailsIffSomeStepFailed(token: Option<string>, version: string, tagged: bool,
                                       plan: seq<Step>, failures: map<nat, string>)
    requires IsLiteralToken(token)
    ensures var o := Conclude(token, version, tagged, plan, failures);
      o.report.Failed? <==> exists k :: 0 <= k < |o.trace| && k in failures
  {
    var o := Conclude(token, version, tagged, plan, failures);
    var pre := Execute(Prelude, 0, failures);
    if pre.error.Some? {
      assert |pre.steps| - 1 in failures;
    } else if !tagged {
      var ran := Execute(plan, |Prelude|, failures);
      var back := |Prelude| + |ran.steps|;
      if ran.error.Some? {
        assert back - 1 in failures;
      } else if back !in failures {
        forall k | 0 <= k < |o.trace| ensures k !in failures {
          if k < |Prelude| {
            assert SucceedsFrom(failures, 0, |Prelude|);
          } else if k < back {
            assert SucceedsFrom(failures, |Prelude|, |plan|);
          }
        }
      }
    }
  }

  lemma ConcludeReportsRedactedMessage(token: Option<string>, version: string, tagged: bool,
                                       plan: seq<Step>, failures: map<nat, string>)
    requires IsLiteralToken(token)
    ensures var o := Conclude(token, version, tagged, plan, failures);
      o.report.Failed? ==>
        exists k :: 0 <= k < |o.trace| && k in failures && o.report.message == Redact(token, failures[k])
  {
    var pre := Execute(Prelude, 0, failures);
    if pre.error.Some? {
      assert |pre.steps| - 1 in failures;
    } else if !tagged {
      var ran := Execute(plan, |Prelude|, failures);
      var back := |Prelude| + |ran.steps|;
      if back !in failures && ran.error.Some? {
        assert back - 1 in failures;
      }
    }
  }

  /** A step of the plan appears in the run only if the plan holds it. */
  lemma ConcludeStepFromPlan(token: Option<string>, version: string, tagged: bool,
                             plan: seq<Step>, failures: map<nat, string>, s: Step)
    requires IsLiteralToken(token)
    requires s !in Prelude && s != Checkout("master")
    ensures s in Conclude(token, version, tagged, plan, failures).trace ==> s in plan
  {
    var pre := Execute(Prelude, 0, failures);
    if pre.error.None? && !tagged {
      var ran := Execute(plan, |Prelude|, failures);
      var trace := Prelude + ran.steps + [Checkout("master")];
      if s in trace {
        assert s in ran.steps;
      }
    }
  }

  /** The plan's first step shows in the run exactly when the run reaches the plan. */
  lemma ConcludeStartsPlan(token: Option<string>, version: string, tagged: bool,
                           plan: seq<Step>, failures: map<nat, string>)
    requires IsLiteralToken(token) && |plan| > 0
    requires plan[0] !in Prelude && plan[0] != Checkout("master")
    ensures plan[0] in Conclude(token, version, tagged, plan, failures).trace <==> Builds(tagged, failures)
  {
    if Builds(tagged, failures) {
      ConcludeReachesStep(token, version, tagged, plan, failures, 0);
    } else {
      assert Conclude(token, version, tagged, plan, failures).trace <= Prelude;
    }
  }

  /** A step of the plan runs when every step before it succeeded. */
  lemma ConcludeReachesStep(token: Option<string>, version: string, tagged: bool,
                            plan: seq<Step>, failures: map<nat, string>, j: nat)
    requires IsLiteralToken(token) && Builds(tagged, failures)
    requires j < |plan| && SucceedsFrom(failures, |Prelude|, j)
    ensures plan[j] in Conclude(token, version, tagged, plan, failures).trace
  {
    var ran := Execute(plan, |Prelude|, failures);
    var trace := Prelude + ran.steps + [Checkout("master")];
    assert j < |ran.steps|;
    assert trace[|Prelude| + j] == ran.steps[j] == plan[j];
  }

  /**
   A step the plan holds once runs only right after its predecessor in the
   plan, and that predecessor succeeded.
   */
  lemma ConcludeRunsPredecessor(token: Option<string>, version: string, tagged: bool,
                                plan: seq<Step>, failures: map<nat, string>, i: nat)
    requires IsLiteralToken(token) && 0 < i < |plan|
    requires forall j :: 0 <= j < |plan| && plan[j] == plan[i] ==> j == i
    requires plan[i] !in Prelude && plan[i] != Checkout("master")
    ensures var o := Conclude(token, version, tagged, plan, failures);
      plan[i] in o.trace ==>
        exists k :: 0 <= k && k + 1 < |o.trace| && o.trace[k] == plan[i - 1] &&
          o.trace[k + 1] == plan[i] && k !in failures
  {
    var o := Conclude(token, version, tagged, plan, failures);
    if !Builds(tagged, failures) {
      assert o.trace <= Prelude;
    } else if plan[i] in o.trace {
      ConcludeRunsPlanThenMaster(token, version, tagged, plan, failures);
      var n :| 1 <= n <= |plan| && o.trace == Prelude + plan[..n] + [Checkout("master")]
        && SucceedsFrom(failures, |Prelude|, n - 1);
      PredecessorInPrefix(plan, n, i, o.trace);
      var k := |Prelude| + i - 1;
      assert k !in failures;
      assert o.trace[k] == plan[i - 1] && o.trace[k + 1] == plan[i];
    }
  }

  /** In `Prelude + plan[..n] + [Checkout("master")]`, a plan step held once sits right after its predecessor. */
  lemma PredecessorInPrefix(plan: seq<Step>, n: nat, i: nat, trace: seq<Step>)
    requires 0 < i < |plan| && n <= |plan| && trace == Prelude + plan[..n] + [Checkout("master")]
    requires forall j :: 0 <= j < |plan| && plan[j] == plan[i] ==> j == i
    requires plan[i] !in Prelude && plan[i] != Checkout("master") && plan[i] in trace
    ensures i < n
    ensures trace[|Prelude| + i - 1] == plan[i - 1] && trace[|Prelude| + i] == plan[i]
  {
    var t := |Prelude| + n;
    var p :| 0 <= p < |trace| && trace[p] == plan[i];
    assert p >= |Prelude| && p < t;
    assert plan[p - |Prelude|] == plan[i];
  }

  /** A released run ran the whole plan, and every step of it succeeded. */
  lemma ConcludeReleasedIsComplete(token: Option<string>, version: string, tagged: bool,
                                   plan: seq<Step>, failures: map<nat, string>)
    requires IsLiteralToken(token)
    ensures var o := Conclude(token, version, tagged, plan, failures);
      o.report.Released? ==>
        o.trace == Prelude + plan + [Checkout("master")] && SucceedsFrom(failures, 0, |o.trace|)
  {
    var o := Conclude(token, version, tagged, plan, failures);
    if o.report.Released? {
      var ran := Execute(plan, |Prelude|, failures);
      assert ran.steps == plan;
      forall k | 0 <= k < |o.trace| ensures k !in failures {
        if k < |Prelude| {
          assert SucceedsFrom(failures, 0, |Prelude|);
        } else if k < |Prelude| + |plan| {
          assert SucceedsFrom(failures, |Prelude|, |plan|);
        }
      }
    }
  }

  /** A tagged version only logs "already released": no build, commit, tag or push step runs. */
  lemma SkipsWhenTagged(cfg: Config, version: string, w: World)
    requires Supported(cfg, version)
    requires SucceedsFrom(w.failures, 0, |Prelude|) && CheckVersionIsTagged(w.tagListing, version)
    ensures BranchRelease(cfg, version, w) == Outcome(Prelude, AlreadyReleased(version), 0)
  {
  }

  /** `buildAndPublish` starts, shown by its first step, exactly when the gate let the run through. */
  lemma BuildsOnlyWhenUntagged(cfg: Config, version: string, w: World)
    requires Supported(cfg, version)
    ensures ListRemoteHeads in BranchRelease(cfg, version, w).trace <==>
      Builds(CheckVersionIsTagged(w.tagListing, version), w.failures)
  {
    var plan := RunPlan(cfg, version, w);
    assert plan[0] == ListRemoteHeads;
    OutsidePrelude(ListRemoteHeads);
    ConcludeStartsPlan(cfg.token, version, CheckVersionIsTagged(w.tagListing, version), plan, w.failures);
  }

  /**
   Once `buildAndPublish` starts, the run is the prelude, a prefix of the
   plan that stops at its first failing step, and the `finally` checkout of
   `master`, which is always the last step.
   */
  lemma BuildRunsPlanThenMaster(cfg: Config, version: string, w: World)
    requires Supported(cfg, version) && Builds(CheckVersionIsTagged(w.tagListing, version), w.failures)
    ensures var plan := RunPlan(cfg, version, w);
      var o := BranchRelease(cfg, version, w);
      exists n ::
        && 1 <= n <= |plan|
        && o.trace == Prelude + plan[..n] + [Checkout("master")]
        && SucceedsFrom(w.failures, |Prelude|, n - 1)
        && (n < |plan| ==> |Prelude| + n - 1 in w.failures)
  {
    ConcludeRunsPlanThenMaster(cfg.token, version, CheckVersionIsTagged(w.tagListing, version),
      RunPlan(cfg, version, w), w.failures);
  }

  /** The run fails exactly when one of the steps it ran failed; skip and success never call `fail`. */
  lemma FailsIffSomeStepFailed(cfg: Config, version: string, w: World)
    requires Supported(cfg, version)
    ensures var o := BranchRelease(cfg, version, w);
      o.report.Failed? <==> exists k :: 0 <= k < |o.trace| && k in w.failures
  {
    ConcludeFailsIffSomeStepFailed(cfg.token, version, CheckVersionIsTagged(w.tagListing, version),
      RunPlan(cfg, version, w), w.failures);
  }

  /**
   A failure prints the message of a step that failed, redacted: the first
   failing step's, or the `finally` checkout's when that one fails as well.
   */
  lemma FailureReportsRedactedMessage(cfg: Config, version: string, w: World)
    requires Supported(cfg, version)
    ensures var o := BranchRelease(cfg, version, w);
      o.report.Failed? ==>
        exists k :: 0 <= k < |o.trace| && k in w.failures &&
          o.report.message == Redact(cfg.token, w.failures[k])
  {
    ConcludeReportsRedactedMessage(cfg.token, version, CheckVersionIsTagged(w.tagListing, version),
      RunPlan(cfg, version, w), w.failures);
  }

  /**
   `checkout -B` of the releases branch is issued as soon as the heads listing
   succeeded, whether the branch is listed on the remote or not.
   */
  lemma CheckoutResetWhetherListedOrNot(cfg: Config, version: string, w: World)
    requires Supported(cfg, version) && Builds(CheckVersionIsTagged(w.tagListing, version), w.failures)
    requires |Prelude| !in w.failures
    ensures CheckoutReset(cfg.releasesBranch) in BranchRelease(cfg, version, w).trace
  {
    var plan := RunPlan(cfg, version, w);
    assert plan[1] == CheckoutReset(cfg.releasesBranch);
    assert SucceedsFrom(w.failures, |Prelude|, 1);
    ConcludeReachesStep(cfg.token, version, CheckVersionIsTagged(w.tagListing, version), plan, w.failures, 1);
  }

  /**
   The build runs only right after the dist directory was cleared, and the
   clearing succeeded: a failing `del` ends the chain before `npm`.
   */
  lemma ClearsBeforeBuild(cfg: Config, version: string, w: World)
    requires Supported(cfg, version)
    ensures var o := BranchRelease(cfg, version, w);
      RunBuild("npm run-script " + cfg.buildScript) in o.trace ==>
        exists k :: 0 <= k && k + 1 < |o.trace| && o.trace[k] == DeleteFiles(cfg.distDir + "/**/*") &&
          o.trace[k + 1] == RunBuild("npm run-script " + cfg.buildScript) && k !in w.failures
  {
    var plan := RunPlan(cfg, version, w);
    var i := |plan| - 8;
    BuildPlanBuildsOnce(cfg, version, RemoteBranchExists(w.headListing, cfg.releasesBranch), RepoRef(w.remoteUrl));
    forall j | 0 <= j < |plan| && plan[j] == plan[i] ensures j == i {
      assert plan[j].RunBuild?;
    }
    OutsidePrelude(plan[i]);
    ConcludeRunsPredecessor(cfg.token, version, CheckVersionIsTagged(w.tagListing, version), plan, w.failures, i);
  }

  /** A pull of the releases branch is issued only when the heads listing shows it. */
  lemma PullOnlyWhenBranchListed(cfg: Config, version: string, w: World)
    requires Supported(cfg, version)
    ensures Pull("origin", cfg.releasesBranch) in BranchRelease(cfg, version, w).trace ==>
      RemoteBranchExists(w.headListing, cfg.releasesBranch)
  {
    var plan := RunPlan(cfg, version, w);
    var pull := Pull("origin", cfg.releasesBranch);
    assert pull in plan ==> RemoteBranchExists(w.headListing, cfg.releasesBranch);
    OutsidePrelude(pull);
    ConcludeStepFromPlan(cfg.token, version, CheckVersionIsTagged(w.tagListing, version), plan, w.failures, pull);
  }

  /** And it is issued when the branch is listed and the listing and the `checkout -B` succeeded. */
  lemma PullWhenBranchListed(cfg: Config, version: string, w: World)
    requires Supported(cfg, version) && Builds(CheckVersionIsTagged(w.tagListing, version), w.failures)
    requires RemoteBranchExists(w.headListing, cfg.releasesBranch)
    requires SucceedsFrom(w.failures, |Prelude|, 2)
    ensures Pull("origin", cfg.releasesBranch) in BranchRelease(cfg, version, w).trace
  {
    ConcludeReachesStep(cfg.token, version, CheckVersionIsTagged(w.tagListing, version),
      RunPlan(cfg, version, w), w.failures, 2);
  }

  /** A successful run went through the whole plan, tagging the version, and every step of it succeeded. */
  lemma ReleasedRunIsComplete(cfg: Config, version: string, w: World)
    requires Supported(cfg, version)
    ensures var o := BranchRelease(cfg, version, w);
      var plan := RunPlan(cfg, version, w);
      o.report.Released? ==>
        && o.trace == Prelude + plan + [Checkout("master")]
        && SucceedsFrom(w.failures, 0, |o.trace|)
        && CreateTag(TagName(version)) in o.trace
  {
    var plan := RunPlan(cfg, version, w);
    ConcludeReleasedIsComplete(cfg.token, version, CheckVersionIsTagged(w.tagListing, version), plan, w.failures);
    assert (Prelude + plan + [Checkout("master")])[|Prelude| + |plan| - 4] == plan[|plan| - 4];
  }

  /**
   Re-running a released version skips: once the tag the run created is
   listed on the remote, the next run with the same version stops at the gate.
   */
  lemma RerunAfterReleaseSkips(cfg: Config, version: string, w1: World, w2: World, pre: string, post: string)
    requires Supported(cfg, version)
    requires BranchRelease(cfg, version, w1).report.Released?
    requires w2.tagListing == pre + TagName(version) + post
    requires post == [] || IsLineTerminator(post[0])
    requires SucceedsFrom(w2.failures, 0, |Prelude|)
    ensures CreateTag(TagName(version)) in BranchRelease(cfg, version, w1).trace
    ensures BranchRelease(cfg, version, w2) == Outcome(Prelude, AlreadyReleased(version), 0)
  {
    ReleasedRunIsComplete(cfg, version, w1);
    CreatedTagIsRecognised(pre, version, post);
  }
}
