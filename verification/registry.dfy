/**
 * The task registry: one task-group document per file under doc/tasks/,
 * each mapping a task name to its help metadata. The registry is kept as an
 * ordered sequence of (group key, group) pairs so that the order in which
 * resolution and the help listing visit groups and tasks is explicit.
 */
module Registry {
  import opened Text

  /** Help metadata of one task, as read from its group document. */
  datatype Descriptor = Descriptor(
    description: string,
    longDescription: seq<string>,
    usage: seq<string>,
    examples: seq<string>,
    aliases: Option<seq<string>>,  // None when the document has no "aliases" key
    order: int,
    showInHelp: bool)              // false only when the document says `false`

  /** A group document: task name to descriptor, in the order the parsed object enumerates them. */
  type TaskGroup = seq<(string, Descriptor)>

  /** The loaded registry: group key to group, in insertion order. */
  type Registry = seq<(string, TaskGroup)>

  predicate HasKey(reg: Registry, key: string) {
    exists i :: 0 <= i < |reg| && reg[i].0 == key
  }

  /** Object keys are unique: no group key occurs twice. */
  predicate DistinctKeys(reg: Registry) {
    forall i, j :: 0 <= i < j < |reg| ==> reg[i].0 != reg[j].0
  }

  /** `filename.split('.')[0]`: the file name up to its first dot. */
  function GroupKey(filename: string): (key: string)
    ensures key <= filename
    ensures '.' !in key
    ensures |key| < |filename| ==> filename[|key|] == '.'
  {
    if filename == [] || filename[0] == '.' then []
    else [filename[0]] + GroupKey(filename[1..])
  }

  /** Position of `key` among the group keys, or `|reg|` when it is absent. */
  function IndexOf(reg: Registry, key: string, from: nat := 0): (i: nat)
    requires from <= |reg|
    requires forall j :: 0 <= j < from ==> reg[j].0 != key
    ensures from <= i <= |reg|
    ensures i < |reg| ==> reg[i].0 == key
    ensures forall j :: 0 <= j < i ==> reg[j].0 != key
    decreases |reg| - from
  {
    if from == |reg| || reg[from].0 == key then from else IndexOf(reg, key, from + 1)
  }

  /**
   * `taskList[key] = group` on a plain object: an existing key keeps its
   * place and takes the new value; a new key goes to the end.
   */
  function Assign(reg: Registry, key: string, group: TaskGroup): (r: Registry)
    requires DistinctKeys(reg)
    ensures DistinctKeys(r)
    ensures HasKey(reg, key) ==>
      |r| == |reg| && forall i :: 0 <= i < |reg| ==> r[i] == (if reg[i].0 == key then (key, group) else reg[i])
    ensures !HasKey(reg, key) ==> r == reg + [(key, group)]
    ensures forall k :: HasKey(r, k) <==> k == key || HasKey(reg, k)
  {
    var i := IndexOf(reg, key);
    if i < |reg| then
      var r := reg[i := (key, group)];
      assert forall k :: HasKey(r, k) ==> k == key || HasKey(reg, k);
      r
    else
      var r := reg + [(key, group)];
      assert r[|reg|].0 == key;
      assert forall k :: HasKey(reg, k) ==> HasKey(r, k) by {
        forall k | HasKey(reg, k) ensures HasKey(r, k) {
          var j :| 0 <= j < |reg| && reg[j].0 == k;
          assert r[j].0 == k;
        }
      }
      r
  }

  /** The group of the last file in `files` whose name yields `key`. */
  function LastGroup(files: seq<(string, TaskGroup)>, key: string): Option<TaskGroup> {
    if files == [] then None
    else if GroupKey(files[|files| - 1].0) == key then Some(files[|files| - 1].1)
    else LastGroup(files[..|files| - 1], key)
  }

  /** No file yields `key` exactly when there is no last such file. */
  lemma {:induction false} LastGroupNone(files: seq<(string, TaskGroup)>, key: string)
    ensures LastGroup(files, key).None? <==> forall j :: 0 <= j < |files| ==> GroupKey(files[j].0) != key
    decreases |files|
  {
    if files != [] {
      var init := files[..|files| - 1];
      LastGroupNone(init, key);
      assert forall j :: 0 <= j < |init| ==> init[j] == files[j];
    }
  }

  /** Position of the first file in `files` whose name yields `key`, or `|files|`. */
  function FirstFile(files: seq<(string, TaskGroup)>, key: string, from: nat := 0): (r: nat)
    requires from <= |files|
    requires forall j :: 0 <= j < from ==> GroupKey(files[j].0) != key
    ensures from <= r <= |files|
    ensures r < |files| ==> GroupKey(files[r].0) == key
    ensures forall j :: 0 <= j < r ==> GroupKey(files[j].0) != key
    decreases |files| - from
  {
    if from == |files| || GroupKey(files[from].0) == key then from else FirstFile(files, key, from + 1)
  }

  /** The keys of `reg` in the order of the first files yielding them, all before file `n`. */
  predicate InFirstFileOrder(files: seq<(string, TaskGroup)>, reg: Registry, n: nat) {
    && (forall i :: 0 <= i < |reg| ==> FirstFile(files, reg[i].0) < n)
    && (forall i, j :: 0 <= i < j < |reg| ==> FirstFile(files, reg[i].0) < FirstFile(files, reg[j].0))
  }

  /**
   * Storing the group of file `n` keeps the keys in first-file order: a new
   * key, which no earlier file yields, goes last and its first file is `n`.
   */
  lemma AssignKeepsOrder(files: seq<(string, TaskGroup)>, n: nat, reg: Registry, group: TaskGroup)
    requires n < |files| && DistinctKeys(reg) && InFirstFileOrder(files, reg, n)
    requires !HasKey(reg, GroupKey(files[n].0)) ==> forall j :: 0 <= j < n ==> GroupKey(files[j].0) != GroupKey(files[n].0)
    ensures InFirstFileOrder(files, Assign(reg, GroupKey(files[n].0), group), n + 1)
  {
    var key := GroupKey(files[n].0);
    if !HasKey(reg, key) {
      assert FirstFile(files, key) == n;
    }
  }

  /** Each key of `reg` holds the group of the last of `files` yielding it, and only such keys occur. */
  ghost predicate HoldsLastGroups(files: seq<(string, TaskGroup)>, reg: Registry) {
    && (forall key :: HasKey(reg, key) <==> LastGroup(files, key).Some?)
    && (forall i :: 0 <= i < |reg| ==> LastGroup(files, reg[i].0) == Some(reg[i].1))
  }

  /** Storing the group of one more file keeps every key bound to its last file's group. */
  lemma AssignKeepsLastGroups(files: seq<(string, TaskGroup)>, n: nat, reg: Registry)
    requires n < |files| && DistinctKeys(reg) && HoldsLastGroups(files[..n], reg)
    ensures HoldsLastGroups(files[..n + 1], Assign(reg, GroupKey(files[n].0), files[n].1))
  {
    var key, fs, fs' := GroupKey(files[n].0), files[..n], files[..n + 1];
    var r := Assign(reg, key, files[n].1);
    assert fs'[..n] == fs && fs'[n] == files[n];
    assert forall k :: LastGroup(fs', k) == if k == key then Some(files[n].1) else LastGroup(fs, k);
    assert forall k :: HasKey(r, k) <==> LastGroup(fs', k).Some?;
    forall i | 0 <= i < |r| ensures LastGroup(fs', r[i].0) == Some(r[i].1) {
      if r[i].0 != key {
        assert i < |reg| && r[i] == reg[i];
      }
    }
  }

  /** The state of the registry after the first `n` files. */
  ghost predicate Loaded(files: seq<(string, TaskGroup)>, reg: Registry, n: nat)
    requires n <= |files|
  {
    DistinctKeys(reg) && HoldsLastGroups(files[..n], reg) && InFirstFileOrder(files, reg, n)
  }

  /** One turn of the `forEach`: the next file's group is stored under its key. */
  lemma LoadStep(files: seq<(string, TaskGroup)>, n: nat, reg: Registry)
    requires n < |files| && Loaded(files, reg, n)
    ensures Loaded(files, Assign(reg, GroupKey(files[n].0), files[n].1), n + 1)
  {
    var key := GroupKey(files[n].0);
    if !HasKey(reg, key) {
      LastGroupNone(files[..n], key);
      assert forall j :: 0 <= j < n ==> files[..n][j] == files[j];
    }
    AssignKeepsOrder(files, n, reg, files[n].1);
    AssignKeepsLastGroups(files, n, reg);
  }

  /**
   * The start-up `forEach` over the task documents: each (file name, parsed
   * document) pair is stored under the file name's group key. Each key holds
   * the group of the last file yielding it, and keeps the place of the first.
   */
  method Load(files: seq<(string, TaskGroup)>) returns (reg: Registry)
    ensures DistinctKeys(reg)
    ensures forall key :: HasKey(reg, key) <==> LastGroup(files, key).Some?
    ensures forall i :: 0 <= i < |reg| ==> LastGroup(files, reg[i].0) == Some(reg[i].1)
    ensures forall i, j :: 0 <= i < j < |reg| ==> FirstFile(files, reg[i].0) < FirstFile(files, reg[j].0)
  {
    reg := [];
    for n := 0 to |files|
      invariant Loaded(files, reg, n)
    {
      var (filename, group) := files[n];
      LoadStep(files, n, reg);
      reg := Assign(reg, GroupKey(filename), group);
    }
    assert files[..|files|] == files;
  }
}
