/**
 * Task resolution: the positional words are consumed one at a time into a
 * candidate command name, and after every word the whole registry is scanned,
 * group by group and task by task, for a task whose name or one of whose
 * aliases equals the candidate. The first hit ends the search.
 */
module Resolver {
  import opened Text
  import opened Registry

  /** The resolved task: its canonical name and, when found, its group key (`task.set`). */
  datatype ResolvedTask = ResolvedTask(name: string, taskSet: Option<string>)

  /** One extension of the candidate: `[name, word].join(' ').trim()`. */
  function Step(name: string, word: string): string {
    Trim(Join([name, word], " "))
  }

  /** The candidate name after consuming all of `ws`, one word at a time. */
  function CandidateOf(ws: seq<string>): (c: string)
    ensures IsTrimmed(c)
  {
    if ws == [] then "" else Step(CandidateOf(ws[..|ws| - 1]), ws[|ws| - 1])
  }

  /** The candidate name after consuming the first `k` of `words`. */
  function Candidate(words: seq<string>, k: nat): string
    requires k <= |words|
  {
    CandidateOf(words[..k])
  }

  /** Consuming one more word extends the candidate by one step. */
  lemma CandidateStep(words: seq<string>, k: nat)
    requires k < |words|
    ensures Candidate(words, k + 1) == Step(Candidate(words, k), words[k])
  {
    assert words[..k + 1][..k] == words[..k];
  }

  /** `aliases || []` */
  function AliasesOf(d: Descriptor): seq<string> {
    if d.aliases.Some? then d.aliases.value else []
  }

  /** A task entry answers to `c` by its own name or by one of its aliases. */
  predicate Matches(entry: (string, Descriptor), c: string) {
    entry.0 == c || c in AliasesOf(entry.1)
  }

  predicate MatchAt(reg: Registry, g: int, t: int, c: string) {
    0 <= g < |reg| && 0 <= t < |reg[g].1| && Matches(reg[g].1[t], c)
  }

  /** (g, t) matches and no position visited before it does. */
  ghost predicate IsFirstMatch(reg: Registry, c: string, g: int, t: int) {
    && MatchAt(reg, g, t, c)
    && forall g2, t2 :: MatchAt(reg, g2, t2, c) ==> g < g2 || (g == g2 && t <= t2)
  }

  /** The first task of group `g`, from task `t0` on, that answers to `c`. */
  function FirstInGroup(reg: Registry, g: nat, c: string, t0: nat): (r: Option<nat>)
    requires g < |reg| && t0 <= |reg[g].1|
    ensures r.Some? ==> t0 <= r.value && MatchAt(reg, g, r.value, c)
    ensures r.Some? ==> forall t :: t0 <= t < r.value ==> !MatchAt(reg, g, t, c)
    ensures r.None? ==> forall t :: t0 <= t ==> !MatchAt(reg, g, t, c)
    decreases |reg[g].1| - t0
  {
    if t0 == |reg[g].1| then None
    else if Matches(reg[g].1[t0], c) then Some(t0)
    else FirstInGroup(reg, g, c, t0 + 1)
  }

  /**
   * One full registry scan for `c` from group `g0` on: the canonical name and
   * group key of the first task that answers to it.
   */
  function Lookup(reg: Registry, c: string, g0: nat := 0): (r: Option<ResolvedTask>)
    requires g0 <= |reg|
    ensures r.Some? ==> r.value.taskSet.Some?
    decreases |reg| - g0
  {
    if g0 == |reg| then None
    else match FirstInGroup(reg, g0, c, 0)
      case Some(t) => Some(ResolvedTask(reg[g0].1[t].0, Some(reg[g0].0)))
      case None => Lookup(reg, c, g0 + 1)
  }

  /**
   * The scan reports nothing exactly when no task answers to `c`, and
   * otherwise the canonical name and group of the first task that does, even
   * when it answered through an alias.
   */
  lemma {:induction false} LookupIsFirstMatch(reg: Registry, c: string, g0: nat := 0)
    requires g0 <= |reg|
    ensures Lookup(reg, c, g0).None? <==> forall g, t :: g0 <= g ==> !MatchAt(reg, g, t, c)
    ensures Lookup(reg, c, g0).Some? ==> exists g, t ::
      && g0 <= g && MatchAt(reg, g, t, c)
      && (forall g2, t2 :: g0 <= g2 && MatchAt(reg, g2, t2, c) ==> g < g2 || (g == g2 && t <= t2))
      && Lookup(reg, c, g0).value == ResolvedTask(reg[g].1[t].0, Some(reg[g].0))
    decreases |reg| - g0
  {
    if g0 < |reg| {
      var first := FirstInGroup(reg, g0, c, 0);
      if first.None? {
        LookupIsFirstMatch(reg, c, g0 + 1);
        assert forall t :: !MatchAt(reg, g0, t, c);
        if Lookup(reg, c, g0).Some? {
          var g, t :| && g0 + 1 <= g && MatchAt(reg, g, t, c)
            && (forall g2, t2 :: g0 + 1 <= g2 && MatchAt(reg, g2, t2, c) ==> g < g2 || (g == g2 && t <= t2))
            && Lookup(reg, c, g0 + 1).value == ResolvedTask(reg[g].1[t].0, Some(reg[g].0));
          assert forall g2, t2 :: g0 <= g2 && MatchAt(reg, g2, t2, c) ==> g < g2 || (g == g2 && t <= t2);
        }
      } else {
        var t := first.value;
        assert MatchAt(reg, g0, t, c);
        assert forall g2, t2 :: g0 <= g2 && MatchAt(reg, g2, t2, c) ==> g0 < g2 || (g0 == g2 && t <= t2);
      }
    }
  }

  /** A first match is what a registry scan reports. */
  lemma LookupFindsFirstMatch(reg: Registry, c: string, g: nat, t: nat)
    requires IsFirstMatch(reg, c, g, t)
    ensures Lookup(reg, c) == Some(ResolvedTask(reg[g].1[t].0, Some(reg[g].0)))
  {
    LookupIsFirstMatch(reg, c);
  }

  /** The candidates after 0, 1, ..., |words| words. */
  function Candidates(words: seq<string>): (cs: seq<string>)
    ensures |cs| == |words| + 1
    ensures forall k :: 0 <= k <= |words| ==> cs[k] == Candidate(words, k)
  {
    seq(|words| + 1, k requires 0 <= k <= |words| => Candidate(words, k))
  }

  /** No task answers to the candidate formed by the first `k` words. */
  predicate NoHitAfter(reg: Registry, words: seq<string>, k: nat)
    requires k <= |words|
  {
    Lookup(reg, Candidate(words, k)).None?
  }

  /**
   * The rest of the search once candidates `cs[..k + 1]` have been tried
   * without a hit; the last candidate is the answer when nothing matches.
   */
  function ScanFrom(reg: Registry, cs: seq<string>, k: nat): ResolvedTask
    requires k < |cs|
    decreases |cs| - k
  {
    if k == |cs| - 1 then ResolvedTask(cs[k], None)
    else match Lookup(reg, cs[k + 1])
      case Some(task) => task
      case None => ScanFrom(reg, cs, k + 1)
  }

  /** What `_getTask` returns for the positional words `words`. */
  function Resolve(reg: Registry, words: seq<string>): (r: ResolvedTask)
    ensures words == [] ==> r == ResolvedTask("", None)
  {
    ScanFrom(reg, Candidates(words), 0)
  }

  /** One pass of `_getTask`'s inner loops: every task of every group, in order. */
  method ScanRegistry(reg: Registry, name: string) returns (found: Option<ResolvedTask>)
    ensures found == Lookup(reg, name)
  {
    for g := 0 to |reg|
      invariant forall g2, t2 :: g2 < g ==> !MatchAt(reg, g2, t2, name)
    {
      var (taskSet, group) := reg[g];
      assert group == reg[g].1;
      for t := 0 to |group|
        invariant forall t2 :: t2 < t ==> !MatchAt(reg, g, t2, name)
      {
        var (taskName, descriptor) := group[t];
        if taskName == name || name in AliasesOf(descriptor) {
          LookupFindsFirstMatch(reg, name, g, t);
          return Some(ResolvedTask(taskName, Some(taskSet)));
        }
      }
      assert forall t2 :: !MatchAt(reg, g, t2, name);
    }
    LookupIsFirstMatch(reg, name);
    return None;
  }

  /**
   * `_getTask`: grow the candidate one word at a time and scan the registry
   * after each word, returning at the first task that answers to it.
   */
  method GetTask(reg: Registry, words: seq<string>) returns (task: ResolvedTask)
    ensures task == Resolve(reg, words)
  {
    ghost var cs := Candidates(words);
    var name := "";
    for i := 0 to |words|
      invariant name == cs[i]
      invariant Resolve(reg, words) == ScanFrom(reg, cs, i)
    {
      name := Step(name, words[i]);
      CandidateStep(words, i);
      assert name == cs[i + 1];
      var found := ScanRegistry(reg, name);
      if found.Some? {
        return found.value;
      }
    }
    return ResolvedTask(name, None);
  }

  /** A word with no surrounding whitespace and at least one character. */
  predicate IsCleanWord(w: string) {
    w != "" && IsTrimmed(w)
  }

  /** Extending a trimmed candidate by a clean word just appends it after a space, if any. */
  lemma StepClean(prev: string, w: string)
    requires IsTrimmed(prev) && IsCleanWord(w)
    ensures Step(prev, w) == if prev == "" then w else prev + " " + w
  {
    JoinPair(prev, w, " ");
    if prev == "" {
      TrimAfterBlank(w);
    } else {
      var s := prev + " " + w;
      assert s[0] == prev[0] && s[|s| - 1] == w[|w| - 1];
    }
  }

  /** An empty word leaves the candidate as it was. */
  lemma StepEmpty(prev: string)
    requires IsTrimmed(prev)
    ensures Step(prev, "") == prev
  {
    JoinPair(prev, "", " ");
    assert prev + " " + "" == prev + " ";
    TrimBeforeBlank(prev);
  }

  /** An empty word among the positional words adds nothing to the candidate. */
  lemma CandidateSkipsEmptyWord(words: seq<string>, k: nat)
    requires k < |words| && words[k] == ""
    ensures Candidate(words, k + 1) == Candidate(words, k)
  {
    CandidateStep(words, k);
    StepEmpty(Candidate(words, k));
  }

  /**
   * Words that are not clean make the candidate differ from the words joined
   * by single spaces: `a`, an empty word and `b` give `a b`, not `a  b`.
   */
  lemma EmptyWordBreaksJoin(a: string, b: string)
    requires IsCleanWord(a) && IsCleanWord(b)
    ensures Candidate([a, "", b], 3) == a + " " + b
    ensures Join([a, "", b], " ") == a + " " + " " + b
    ensures Candidate([a, "", b], 3) != Join([a, "", b], " ")
  {
    var words := [a, "", b];
    assert words[..1] == [a];
    CandidateOfCleanWords(words, 1);
    CandidateSkipsEmptyWord(words, 1);
    CandidateStep(words, 2);
    StepClean(a, b);
    JoinTriple(a, "", b, " ");
    assert a + " " + "" == a + " ";
  }

  /** Over clean words, the candidate is just the words joined by single spaces. */
  lemma {:induction false} CandidateOfCleanWords(words: seq<string>, k: nat)
    requires k <= |words|
    requires forall i :: 0 <= i < k ==> IsCleanWord(words[i])
    ensures Candidate(words, k) == Join(words[..k], " ")
    ensures k > 0 ==> Candidate(words, k) != ""
  {
    if k > 0 {
      CandidateOfCleanWords(words, k - 1);
      CandidateStep(words, k - 1);
      StepClean(Candidate(words, k - 1), words[k - 1]);
      assert words[..k][..k - 1] == words[..k - 1];
    }
  }

  /** The candidate after `k` words depends on those `k` words only. */
  lemma CandidateOfPrefix(words: seq<string>, more: seq<string>, k: nat)
    requires k <= |words|
    ensures Candidate(words + more, k) == Candidate(words, k)
  {
    assert (words + more)[..k] == words[..k];
  }

  /** The search from candidate `i` on fails exactly when no later candidate matches. */
  lemma {:induction false} ScanNoMatch(reg: Registry, cs: seq<string>, i: nat)
    requires i < |cs|
    ensures ScanFrom(reg, cs, i).taskSet.None? <==> forall k :: i < k < |cs| ==> Lookup(reg, cs[k]).None?
    ensures ScanFrom(reg, cs, i).taskSet.None? ==> ScanFrom(reg, cs, i).name == cs[|cs| - 1]
    decreases |cs| - i
  {
    if i < |cs| - 1 {
      ScanNoMatch(reg, cs, i + 1);
    }
  }

  /**
   * An unresolved task: nothing answers to any candidate. Its name is then the
   * full candidate, which is the words joined by spaces when they are clean.
   */
  lemma ResolveNoMatch(reg: Registry, words: seq<string>)
    ensures Resolve(reg, words).taskSet.None? <==>
      forall k :: 1 <= k <= |words| ==> NoHitAfter(reg, words, k)
    ensures Resolve(reg, words).taskSet.None? ==> Resolve(reg, words).name == Candidate(words, |words|)
    ensures (forall i :: 0 <= i < |words| ==> IsCleanWord(words[i])) && Resolve(reg, words).taskSet.None? ==>
      Resolve(reg, words).name == Join(words, " ")
  {
    var cs := Candidates(words);
    ScanNoMatch(reg, cs, 0);
    assert forall k :: 1 <= k <= |words| ==> (NoHitAfter(reg, words, k) <==> Lookup(reg, cs[k]).None?);
    if forall i :: 0 <= i < |words| ==> IsCleanWord(words[i]) {
      CandidateOfCleanWords(words, |words|);
      assert words[..|words|] == words;
    }
  }

  lemma {:induction false} ScanShortest(reg: Registry, cs: seq<string>, i: nat, k: nat)
    requires i < k < |cs|
    requires Lookup(reg, cs[k]).Some?
    requires forall j :: i < j < k ==> Lookup(reg, cs[j]).None?
    ensures ScanFrom(reg, cs, i) == Lookup(reg, cs[k]).value
    decreases k - i
  {
    if i + 1 < k {
      ScanShortest(reg, cs, i + 1, k);
    }
  }

  /**
   * The shortest matching prefix wins: when the first `k` words form the
   * first candidate any task answers to, resolution returns that task.
   */
  lemma ResolveShortestPrefix(reg: Registry, words: seq<string>, k: nat)
    requires 1 <= k <= |words|
    requires Lookup(reg, Candidate(words, k)).Some?
    requires forall j :: 1 <= j < k ==> NoHitAfter(reg, words, j)
    ensures Resolve(reg, words) == Lookup(reg, Candidate(words, k)).value
    ensures Resolve(reg, words).taskSet.Some?
  {
    var cs := Candidates(words);
    assert forall j :: 1 <= j < k ==> Lookup(reg, cs[j]).None? by {
      forall j | 1 <= j < k ensures Lookup(reg, cs[j]).None? {
        assert NoHitAfter(reg, words, j);
      }
    }
    ScanShortest(reg, cs, 0, k);
  }

  lemma {:induction false} ScanExtend(reg: Registry, cs: seq<string>, cs': seq<string>, i: nat)
    requires i < |cs| <= |cs'| && cs <= cs'
    requires ScanFrom(reg, cs, i).taskSet.Some?
    ensures ScanFrom(reg, cs', i) == ScanFrom(reg, cs, i)
    decreases |cs| - i
  {
    assert cs[i] == cs'[i];
    if i + 1 < |cs| {
      assert cs[i + 1] == cs'[i + 1];
      if Lookup(reg, cs[i + 1]).None? {
        ScanExtend(reg, cs, cs', i + 1);
      }
    }
  }

  /** Once a prefix resolves, the words after it are never consulted. */
  lemma ResolveIgnoresLaterWords(reg: Registry, words: seq<string>, more: seq<string>)
    requires Resolve(reg, words).taskSet.Some?
    ensures Resolve(reg, words + more) == Resolve(reg, words)
  {
    var cs, cs' := Candidates(words), Candidates(words + more);
    forall k | 0 <= k <= |words| ensures cs[k] == cs'[k] {
      CandidateOfPrefix(words, more, k);
    }
    ScanExtend(reg, cs, cs', 0);
  }

  lemma {:induction false} ScanCanonical(reg: Registry, cs: seq<string>, i: nat)
    requires i < |cs|
    requires ScanFrom(reg, cs, i).taskSet.Some?
    ensures exists g, t ::
      0 <= g < |reg| && 0 <= t < |reg[g].1| && ScanFrom(reg, cs, i) == ResolvedTask(reg[g].1[t].0, Some(reg[g].0))
    decreases |cs| - i
  {
    if i + 1 < |cs| {
      if Lookup(reg, cs[i + 1]).None? {
        ScanCanonical(reg, cs, i + 1);
      } else {
        LookupIsFirstMatch(reg, cs[i + 1]);
      }
    }
  }

  /**
   * A resolved name is always a canonical task key of the group reported,
   * never the alias text that matched.
   */
  lemma ResolvedNameIsCanonical(reg: Registry, words: seq<string>)
    requires Resolve(reg, words).taskSet.Some?
    ensures exists g, t ::
      0 <= g < |reg| && 0 <= t < |reg[g].1| && Resolve(reg, words) == ResolvedTask(reg[g].1[t].0, Some(reg[g].0))
  {
    ScanCanonical(reg, Candidates(words), 0);
  }

  /**
   * Typing a multi-word command name word by word: when the words joined by
   * spaces form the first candidate any task answers to, that task is the
   * result, whatever words follow.
   */
  lemma ResolveExactWords(reg: Registry, words: seq<string>, more: seq<string>)
    requires 1 <= |words|
    requires forall i :: 0 <= i < |words| ==> IsCleanWord(words[i])
    requires Lookup(reg, Join(words, " ")).Some?
    requires forall k :: 1 <= k < |words| ==> Lookup(reg, Join(words[..k], " ")).None?
    ensures Resolve(reg, words + more) == Lookup(reg, Join(words, " ")).value
  {
    forall k | 1 <= k <= |words|
      ensures Candidate(words, k) == Join(words[..k], " ")
    {
      CandidateOfCleanWords(words, k);
    }
    assert words[..|words|] == words;
    ResolveShortestPrefix(reg, words, |words|);
    ResolveIgnoresLaterWords(reg, words, more);
  }

  /** No candidate string answers to two different task positions. */
  ghost predicate Unambiguous(reg: Registry) {
    forall c, g1, t1, g2, t2 :: MatchAt(reg, g1, t1, c) && MatchAt(reg, g2, t2, c) ==> g1 == g2 && t1 == t2
  }

  /**
   * In a registry where names and aliases are unique, a task's canonical name
   * and each of its aliases all resolve to the canonical name and its group.
   */
  lemma AliasResolvesToCanonical(reg: Registry, g: nat, t: nat, a: string)
    requires Unambiguous(reg)
    requires g < |reg| && t < |reg[g].1|
    requires a == reg[g].1[t].0 || a in AliasesOf(reg[g].1[t].1)
    ensures Lookup(reg, a) == Some(ResolvedTask(reg[g].1[t].0, Some(reg[g].0)))
    ensures IsCleanWord(a) ==> Resolve(reg, [a]) == ResolvedTask(reg[g].1[t].0, Some(reg[g].0))
  {
    assert MatchAt(reg, g, t, a);
    assert IsFirstMatch(reg, a, g, t);
    LookupFindsFirstMatch(reg, a, g, t);
    if IsCleanWord(a) {
      CandidateOfCleanWords([a], 1);
      assert [a][..1] == [a];
      ResolveShortestPrefix(reg, [a], 1);
    }
  }
}
