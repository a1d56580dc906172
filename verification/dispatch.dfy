/**
 * The `run` entry point: a fixed precedence chain over the parsed command
 * line (version, top-level help, unresolved task, per-task help, execution),
 * followed by the chaining of tasks that name a `nextTask` on completion.
 */
module Dispatch {
  import opened Text
  import opened Registry
  import opened Resolver

  /** The parsed command line: positional words and the flags `run` consults. */
  datatype Argv = Argv(
    words: seq<string>,
    version: bool,   // --version
    v: bool,         // -v
    help: bool,      // --help
    h: bool,         // -h
    all: bool,       // --all
    browser: bool)   // --browser

  /** Where `run` ends up; every outcome but `Run` terminates the process. */
  datatype Outcome =
    | ShowVersion
    | SummaryHelp(showAll: bool)
    | ExtendedHelp(showAll: bool)
    | Invalid(message: string)
    | TaskHelp(name: string, taskSet: string)
    | Run(name: string, taskSet: string)

  /** `argv._[0]` is truthy: there is a first word and it is not empty. */
  predicate FirstWordTruthy(a: Argv) {
    |a.words| > 0 && a.words[0] != ""
  }

  predicate FirstWordIs(a: Argv, w: string) {
    |a.words| > 0 && a.words[0] == w
  }

  predicate VersionRequested(a: Argv) {
    FirstWordIs(a, "version") || a.version || a.v
  }

  /** The two tasks that show their help instead of running when short of words. */
  predicate TooFewWords(a: Argv, name: string) {
    || (name == "create" && |a.words| < 2)
    || (name == "remote build" && !a.browser && |a.words| < 3)
  }

  /** The message `util.fail` receives for an unresolved task. */
  function InvalidTaskMessage(name: string): (m: string)
    ensures |m| == |name| + 28
    ensures m[..7] == "Error: " && m[7..7 + |name|] == name
    ensures m[7 + |name|..] == " is not a valid task."
  {
    "Error: " + name + " is not a valid task."
  }

  /** `task.set` is truthy: present and not the empty group key. */
  predicate HasSet(task: ResolvedTask) {
    task.taskSet.Some? && task.taskSet.value != ""
  }

  /**
   * The decision chain of `Monaca.run`, up to the first call of `runner`: a
   * task is resolved only past the version and top-level help exits, and a
   * task that is shown or run always has a group key.
   */
  function Decide(reg: Registry, a: Argv): (r: Outcome)
    ensures r.Invalid? || r.TaskHelp? || r.Run? ==>
      !VersionRequested(a) && FirstWordTruthy(a) && !a.help && !FirstWordIs(a, "help")
    ensures r.TaskHelp? || r.Run? ==> r.taskSet != ""
  {
    if VersionRequested(a) then ShowVersion
    else if !FirstWordTruthy(a) && !a.help then SummaryHelp(a.all)
    else if FirstWordIs(a, "help") || a.help then ExtendedHelp(a.all)
    else
      var task := Resolve(reg, a.words);
      if !HasSet(task) then Invalid(InvalidTaskMessage(task.name))
      else if a.help || a.h || TooFewWords(a, task.name) then TaskHelp(task.name, task.taskSet.value)
      else Run(task.name, task.taskSet.value)
  }

  /**
   * The version request wins over everything else, and it and both help
   * modes are decided before the registry is consulted at all.
   */
  lemma VersionFirst(reg: Registry, reg': Registry, a: Argv)
    ensures Decide(reg, a) == ShowVersion <==> VersionRequested(a)
    ensures Decide(reg, a).ShowVersion? || Decide(reg, a).SummaryHelp? || Decide(reg, a).ExtendedHelp? ==>
      Decide(reg', a) == Decide(reg, a)
  {
  }

  /**
   * Top-level help routing: no first word and no `--help` gives the summary;
   * the word `help` or `--help` gives the extended form; `--all` is passed on.
   */
  lemma HelpRouting(reg: Registry, a: Argv)
    requires !VersionRequested(a)
    ensures Decide(reg, a) == SummaryHelp(a.all) <==> !FirstWordTruthy(a) && !a.help
    ensures Decide(reg, a) == ExtendedHelp(a.all) <==> (FirstWordTruthy(a) || a.help) && (FirstWordIs(a, "help") || a.help)
  {
  }

  /** `--help` never reaches per-task help or a task run: only `-h` does. */
  lemma HelpFlagNeverReachesTask(reg: Registry, a: Argv)
    requires a.help
    ensures Decide(reg, a) == ShowVersion || Decide(reg, a) == ExtendedHelp(a.all)
  {
  }

  /**
   * An unresolved task fails, naming the full candidate; it is reported
   * exactly when resolution is reached and yields no (or an empty) group key.
   */
  lemma InvalidTask(reg: Registry, a: Argv)
    requires !VersionRequested(a) && FirstWordTruthy(a) && !a.help && !FirstWordIs(a, "help")
    ensures Decide(reg, a).Invalid? <==> !HasSet(Resolve(reg, a.words))
    ensures Resolve(reg, a.words).taskSet.None? ==>
      Decide(reg, a) == Invalid(InvalidTaskMessage(Candidate(a.words, |a.words|)))
  {
    ResolveNoMatch(reg, a.words);
  }

  /**
   * Per-task help and execution both carry the resolved task; a task runs
   * only without `-h`/`--help` and with enough words for `create` and for
   * `remote build` (which `--browser` exempts).
   */
  lemma ResolvedOutcomes(reg: Registry, a: Argv)
    ensures Decide(reg, a).TaskHelp? ==>
      Resolve(reg, a.words) == ResolvedTask(Decide(reg, a).name, Some(Decide(reg, a).taskSet)) &&
      Decide(reg, a).taskSet != "" && (a.h || TooFewWords(a, Decide(reg, a).name))
    ensures Decide(reg, a).Run? ==>
      Resolve(reg, a.words) == ResolvedTask(Decide(reg, a).name, Some(Decide(reg, a).taskSet)) &&
      Decide(reg, a).taskSet != "" && !a.h && !a.help && !VersionRequested(a)
    ensures Decide(reg, a).Run? && Decide(reg, a).name == "create" ==> |a.words| >= 2
    ensures Decide(reg, a).Run? && Decide(reg, a).name == "remote build" ==> a.browser || |a.words| >= 3
  {
  }

  /** A single clean word that first matches task `t` of group `g` resolves to it, whatever follows. */
  lemma ResolveSingleWord(reg: Registry, g: nat, t: nat, w: string, more: seq<string>)
    requires IsCleanWord(w) && IsFirstMatch(reg, w, g, t)
    ensures Resolve(reg, [w] + more) == ResolvedTask(reg[g].1[t].0, Some(reg[g].0))
  {
    LookupFindsFirstMatch(reg, w, g, t);
    CandidateOfCleanWords([w], 1);
    assert [w][..1] == [w];
    ResolveShortestPrefix(reg, [w], 1);
    ResolveIgnoresLaterWords(reg, [w], more);
  }

  /**
   * Two clean words, the first of which names no task, that together first
   * match task `t` of group `g` resolve to it, whatever follows.
   */
  lemma ResolveTwoWords(reg: Registry, g: nat, t: nat, words: seq<string>)
    requires |words| >= 2 && IsCleanWord(words[0]) && IsCleanWord(words[1])
    requires Lookup(reg, words[0]).None?
    requires IsFirstMatch(reg, words[0] + " " + words[1], g, t)
    ensures Resolve(reg, words) == ResolvedTask(reg[g].1[t].0, Some(reg[g].0))
  {
    CandidateOfCleanWords(words, 1);
    CandidateOfCleanWords(words, 2);
    assert words[..1] == [words[0]] && words[..2] == [words[0], words[1]];
    JoinPair(words[0], words[1], " ");
    LookupFindsFirstMatch(reg, words[0] + " " + words[1], g, t);
    ResolveShortestPrefix(reg, words, 2);
  }

  /**
   * `create` alone shows its help and `create <dir> ...` runs it, whenever the
   * word `create` first resolves to the task `create` in a named group.
   */
  lemma CreateNeedsDirectory(reg: Registry, g: nat, t: nat, a: Argv)
    requires IsFirstMatch(reg, "create", g, t)
    requires reg[g].1[t].0 == "create" && reg[g].0 != ""
    requires FirstWordIs(a, "create") && !a.version && !a.v && !a.help && !a.h
    ensures |a.words| == 1 ==> Decide(reg, a) == TaskHelp("create", reg[g].0)
    ensures |a.words| >= 2 ==> Decide(reg, a) == Run("create", reg[g].0)
  {
    ResolveSingleWord(reg, g, t, "create", a.words[1..]);
    assert a.words == ["create"] + a.words[1..];
  }

  /**
   * How the `run` of a task module ends: with no `nextTask`, with a
   * `nextTask` to start, or with an error (it throws, or its promise
   * rejects, which no handler catches).
   */
  datatype TaskResult = Finished | Next(task: ResolvedTask) | Crashed

  /** The `nextTask` is started: it names the module to load (`task.set`). */
  predicate Continues(r: TaskResult) {
    r.Next? && r.task.taskSet.Some?
  }

  /**
   * `runner`: the tasks run, in order, starting from `first`, each one the
   * `nextTask` of the one before. `run` stands for the task module's `run`;
   * `fuel` bounds the number of follow-up tasks, which the source leaves
   * unbounded.
   */
  function Chain(first: ResolvedTask, run: ResolvedTask -> TaskResult, fuel: nat): (c: seq<ResolvedTask>)
    ensures 1 <= |c| <= fuel + 1 && c[0] == first
    decreases fuel
  {
    if fuel == 0 || !Continues(run(first)) then [first] else [first] + Chain(run(first).task, run, fuel - 1)
  }

  /**
   * The chain ends in an error: its last task crashed, or named a `nextTask`
   * without a module, whose path cannot be built.
   */
  predicate ChainFails(first: ResolvedTask, run: ResolvedTask -> TaskResult, fuel: nat) {
    var c := Chain(first, run, fuel);
    var r := run(c[|c| - 1]);
    r.Crashed? || (|c| <= fuel && r.Next? && r.task.taskSet.None?)
  }

  /**
   * Each later task of the chain is exactly the `nextTask` of its predecessor
   * (no re-resolution, no arity check), and the chain stops, short of the
   * bound, only on a result that starts nothing: no `nextTask`, one without
   * a module, or an error.
   */
  lemma {:induction false} ChainShape(first: ResolvedTask, run: ResolvedTask -> TaskResult, fuel: nat)
    ensures forall i :: 0 <= i < |Chain(first, run, fuel)| - 1 ==>
      Continues(run(Chain(first, run, fuel)[i])) && run(Chain(first, run, fuel)[i]).task == Chain(first, run, fuel)[i + 1]
    ensures |Chain(first, run, fuel)| <= fuel ==>
      !Continues(run(Chain(first, run, fuel)[|Chain(first, run, fuel)| - 1]))
    decreases fuel
  {
    var c := Chain(first, run, fuel);
    if fuel > 0 && Continues(run(first)) {
      var rest := Chain(run(first).task, run, fuel - 1);
      ChainShape(run(first).task, run, fuel - 1);
      assert c == [first] + rest;
      forall i | 0 <= i < |c| - 1 ensures Continues(run(c[i])) && run(c[i]).task == c[i + 1] {
        if i > 0 {
          assert c[i] == rest[i - 1] && c[i + 1] == rest[i];
        }
      }
    } else {
      assert c == [first];
    }
  }

  /** A crash stops the chain at once: nothing runs after the task that crashed. */
  lemma CrashStopsChain(first: ResolvedTask, run: ResolvedTask -> TaskResult, fuel: nat, i: nat)
    requires i < |Chain(first, run, fuel)| && run(Chain(first, run, fuel)[i]).Crashed?
    ensures i == |Chain(first, run, fuel)| - 1 && ChainFails(first, run, fuel)
  {
    ChainShape(first, run, fuel);
  }

  /** A larger bound only lets the chain run further: it never changes its start. */
  lemma {:induction false} ChainFuelMonotone(first: ResolvedTask, run: ResolvedTask -> TaskResult, fuel: nat)
    ensures Chain(first, run, fuel) <= Chain(first, run, fuel + 1)
    decreases fuel
  {
    if fuel > 0 && Continues(run(first)) {
      ChainFuelMonotone(run(first).task, run, fuel - 1);
    }
  }

  /** One turn of `runner`: the pending task runs, then its `nextTask`, if started, is pending. */
  lemma ChainStep(ran: seq<ResolvedTask>, task: ResolvedTask, run: ResolvedTask -> TaskResult, left: nat)
    ensures left == 0 || !Continues(run(task)) ==> ran + Chain(task, run, left) == ran + [task]
    ensures left > 0 && Continues(run(task)) ==>
      ran + Chain(task, run, left) == (ran + [task]) + Chain(run(task).task, run, left - 1)
  {
  }

  /** `runner` as a loop over the pending task, with its bound; `failed` reports an error ending. */
  method RunChain(first: ResolvedTask, run: ResolvedTask -> TaskResult, fuel: nat)
    returns (ran: seq<ResolvedTask>, failed: bool)
    ensures ran == Chain(first, run, fuel)
    ensures failed == ChainFails(first, run, fuel)
  {
    ran := [];
    var task := first;
    var left := fuel;
    assert ran + Chain(task, run, left) == Chain(first, run, fuel);
    while true
      invariant ran + Chain(task, run, left) == Chain(first, run, fuel)
      invariant |ran| + left == fuel
      decreases left
    {
      ChainStep(ran, task, run, left);
      ran := ran + [task];
      var result := run(task);
      if result.Crashed? {
        failed := true;
        return;
      }
      if left == 0 || result.Finished? {
        failed := false;
        return;
      }
      if result.task.taskSet.None? {
        failed := true;
        return;
      }
      task, left := result.task, left - 1;
    }
  }

  /**
   * A whole session: the dispatch decision, and for a task that runs, the
   * chain of tasks it sets off and whether that chain ends in an error.
   */
  method Session(reg: Registry, a: Argv, run: ResolvedTask -> TaskResult, fuel: nat)
    returns (outcome: Outcome, ran: seq<ResolvedTask>, failed: bool)
    ensures outcome == Decide(reg, a)
    ensures outcome.Run? ==> ran == Chain(ResolvedTask(outcome.name, Some(outcome.taskSet)), run, fuel)
    ensures outcome.Run? ==> failed == ChainFails(ResolvedTask(outcome.name, Some(outcome.taskSet)), run, fuel)
    ensures !outcome.Run? ==> ran == [] && !failed
  {
    outcome := Decide(reg, a);
    ran, failed := [], false;
    if outcome.Run? {
      ran, failed := RunChain(ResolvedTask(outcome.name, Some(outcome.taskSet)), run, fuel);
    }
  }
}
