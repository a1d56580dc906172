/**
 * Top-level help rendering: the command listing of `printCommands` (hidden
 * tasks filtered out, aliases annotated under `--all`, a common column width,
 * entries ordered by `order`, dot padding) and the mode choice of `printHelp`.
 * Colour codes are dropped; each printed line is one string.
 */
module Info {
  import opened Text
  import opened Registry

  /** One listed task: its display name, sort key and description. */
  datatype Entry = Entry(cmd: string, order: int, description: string)

  /** What a printing routine wrote, line by line, and whether it then threw. */
  datatype Printout = Printout(lines: seq<string>, threw: bool)

  const Header := "Commands: (use --all to show all)\n"

  /** `task.showInHelp !== false || showAll` */
  predicate Shown(showAll: bool, d: Descriptor) {
    d.showInHelp || showAll
  }

  /** The name as listed: under `--all`, followed by ` | ` and the aliases joined by ` | `. */
  function DisplayName(showAll: bool, name: string, d: Descriptor): (r: string)
    ensures name <= r
    ensures r == name <==> !(showAll && d.aliases.Some?)
  {
    if showAll && d.aliases.Some? then name + " | " + Join(d.aliases.value, " | ") else name
  }

  function EntryOf(showAll: bool, task: (string, Descriptor)): Entry {
    Entry(DisplayName(showAll, task.0, task.1), task.1.order, task.1.description)
  }

  /** All tasks, group after group, each group in its own order (the `reduce`/`concat`). */
  function Flatten(reg: Registry): seq<(string, Descriptor)> {
    if reg == [] then [] else Flatten(reg[..|reg| - 1]) + reg[|reg| - 1].1
  }

  /** The `map` and `filter` steps: the entry of every shown task, in order. */
  function Visible(showAll: bool, tasks: seq<(string, Descriptor)>): (es: seq<Entry>)
    ensures |es| <= |tasks|
  {
    if tasks == [] then []
    else
      var last := tasks[|tasks| - 1];
      Visible(showAll, tasks[..|tasks| - 1]) + if Shown(showAll, last.1) then [EntryOf(showAll, last)] else []
  }

  /** The positions of the shown tasks, in increasing order: the `filter`, by position. */
  function ShownIndices(showAll: bool, tasks: seq<(string, Descriptor)>): (idx: seq<nat>)
    ensures |idx| <= |tasks|
  {
    if tasks == [] then []
    else
      var n := |tasks| - 1;
      ShownIndices(showAll, tasks[..n]) + if Shown(showAll, tasks[n].1) then [n] else []
  }

  /**
   * The listing is exactly the shown tasks, each once, in their own order:
   * its `k`-th entry is the entry of the `k`-th shown task, the positions
   * taken strictly increase, and no shown task is skipped.
   */
  lemma {:induction false} VisibleByIndex(showAll: bool, tasks: seq<(string, Descriptor)>)
    ensures |ShownIndices(showAll, tasks)| == |Visible(showAll, tasks)|
    ensures forall k :: 0 <= k < |ShownIndices(showAll, tasks)| ==>
      && ShownIndices(showAll, tasks)[k] < |tasks|
      && Shown(showAll, tasks[ShownIndices(showAll, tasks)[k]].1)
      && Visible(showAll, tasks)[k] == EntryOf(showAll, tasks[ShownIndices(showAll, tasks)[k]])
    ensures forall k, l :: 0 <= k < l < |ShownIndices(showAll, tasks)| ==>
      ShownIndices(showAll, tasks)[k] < ShownIndices(showAll, tasks)[l]
    ensures forall i :: 0 <= i < |tasks| && Shown(showAll, tasks[i].1) ==> i in ShownIndices(showAll, tasks)
    decreases |tasks|
  {
    if tasks != [] {
      var n := |tasks| - 1;
      var init := tasks[..n];
      VisibleByIndex(showAll, init);
      var idx0, vis0 := ShownIndices(showAll, init), Visible(showAll, init);
      var idx, vis := ShownIndices(showAll, tasks), Visible(showAll, tasks);
      if Shown(showAll, tasks[n].1) {
        assert idx == idx0 + [n] && vis == vis0 + [EntryOf(showAll, tasks[n])];
      } else {
        assert idx == idx0 && vis == vis0;
      }
      forall k | 0 <= k < |idx0|
        ensures idx[k] == idx0[k] < n && vis[k] == vis0[k] && tasks[idx[k]] == init[idx0[k]]
      {
      }
      forall i | 0 <= i < |tasks| && Shown(showAll, tasks[i].1)
        ensures i in idx
      {
        if i < n {
          assert tasks[i] == init[i];
        }
      }
    }
  }

  /** Filtering distributes over concatenation: each task contributes on its own. */
  lemma {:induction false} VisibleConcat(showAll: bool, a: seq<(string, Descriptor)>, b: seq<(string, Descriptor)>)
    ensures Visible(showAll, a + b) == Visible(showAll, a) + Visible(showAll, b)
    decreases |b|
  {
    if b != [] {
      var init, last := b[..|b| - 1], b[|b| - 1];
      var x := if Shown(showAll, last.1) then [EntryOf(showAll, last)] else [];
      assert (a + b)[..|a + b| - 1] == a + init;
      assert (a + b)[|a + b| - 1] == last;
      assert Visible(showAll, a + b) == Visible(showAll, a + init) + x;
      VisibleConcat(showAll, a, init);
      assert Visible(showAll, a) + Visible(showAll, init) + x == Visible(showAll, a) + (Visible(showAll, init) + x);
    } else {
      assert a + b == a;
    }
  }

  /**
   * Every shown task is listed, and everything listed is the entry of a
   * shown task: hidden tasks appear only under `--all`.
   */
  lemma {:induction false} VisibleIsShown(showAll: bool, tasks: seq<(string, Descriptor)>)
    ensures forall i :: 0 <= i < |tasks| && Shown(showAll, tasks[i].1) ==> EntryOf(showAll, tasks[i]) in Visible(showAll, tasks)
    ensures forall e :: e in Visible(showAll, tasks) ==>
      exists i :: 0 <= i < |tasks| && Shown(showAll, tasks[i].1) && e == EntryOf(showAll, tasks[i])
    decreases |tasks|
  {
    if tasks != [] {
      var init := tasks[..|tasks| - 1];
      VisibleIsShown(showAll, init);
      forall e | e in Visible(showAll, tasks)
        ensures exists i :: 0 <= i < |tasks| && Shown(showAll, tasks[i].1) && e == EntryOf(showAll, tasks[i])
      {
        if e in Visible(showAll, init) {
          var i :| 0 <= i < |init| && Shown(showAll, init[i].1) && e == EntryOf(showAll, init[i]);
          assert tasks[i] == init[i];
        } else {
          assert Shown(showAll, tasks[|tasks| - 1].1) && e == EntryOf(showAll, tasks[|tasks| - 1]);
        }
      }
      forall i | 0 <= i < |tasks| && Shown(showAll, tasks[i].1)
        ensures EntryOf(showAll, tasks[i]) in Visible(showAll, tasks)
      {
        if i < |init| {
          assert tasks[i] == init[i];
        }
      }
    }
  }

  /** Under `--all` every task is listed exactly once, in registry order. */
  lemma {:induction false} VisibleAll(tasks: seq<(string, Descriptor)>)
    ensures |Visible(true, tasks)| == |tasks|
    ensures forall i :: 0 <= i < |tasks| ==> Visible(true, tasks)[i] == EntryOf(true, tasks[i])
    decreases |tasks|
  {
    if tasks != [] {
      var init := tasks[..|tasks| - 1];
      VisibleAll(init);
      assert Visible(true, tasks) == Visible(true, init) + [EntryOf(true, tasks[|tasks| - 1])];
      forall i | 0 <= i < |init| ensures Visible(true, tasks)[i] == EntryOf(true, tasks[i]) {
        assert tasks[i] == init[i];
      }
    }
  }

  /** `taskMaxLength`: the longest display name plus three, or 0 for none. */
  function Width(es: seq<Entry>): nat {
    if es == [] then 0 else Max(Width(es[..|es| - 1]), |es[|es| - 1].cmd| + 3)
  }

  /** The width bounds every display name and is reached by one of them. */
  lemma {:induction false} WidthIsMax(es: seq<Entry>)
    ensures forall i :: 0 <= i < |es| ==> |es[i].cmd| + 3 <= Width(es)
    ensures es == [] ==> Width(es) == 0
    ensures es != [] ==> exists i :: 0 <= i < |es| && Width(es) == |es[i].cmd| + 3
    decreases |es|
  {
    if es != [] {
      var init := es[..|es| - 1];
      WidthIsMax(init);
      assert forall i :: 0 <= i < |init| ==> es[i] == init[i];
      if init != [] && Width(es) == Width(init) {
        var i :| 0 <= i < |init| && Width(init) == |init[i].cmd| + 3;
        assert es[i] == init[i];
      }
    }
  }

  /** The sort key of entry `i`. */
  function OrderAt(es: seq<Entry>, i: nat): int
    requires i < |es|
  {
    es[i].order
  }

  predicate SortedByOrder(es: seq<Entry>) {
    forall i, j :: 0 <= i < j < |es| ==> OrderAt(es, i) <= OrderAt(es, j)
  }

  /** Where `e` goes: before the first entry whose order exceeds its own. */
  function InsertPos(s: seq<Entry>, e: Entry): (p: nat)
    ensures p <= |s|
    ensures forall i :: 0 <= i < p ==> s[i].order <= e.order
    ensures p < |s| ==> e.order < s[p].order
  {
    if s == [] || e.order < s[0].order then 0 else 1 + InsertPos(s[1..], e)
  }

  /** In a sorted sequence, everything from the insertion point on sorts after `e`. */
  lemma AfterInsertPos(s: seq<Entry>, e: Entry)
    requires SortedByOrder(s)
    ensures forall i :: 0 <= i < |s[InsertPos(s, e)..]| ==> e.order < s[InsertPos(s, e)..][i].order
  {
    var p := InsertPos(s, e);
    forall i | 0 <= i < |s[p..]| ensures e.order < s[p..][i].order {
      assert s[p..][i] == s[p + i];
      assert OrderAt(s, p) <= OrderAt(s, p + i) || i == 0;
    }
  }

  /** Inserting at `InsertPos` keeps a sorted sequence sorted. */
  lemma InsertAtSorted(s: seq<Entry>, e: Entry, p: nat)
    requires SortedByOrder(s) && p == InsertPos(s, e)
    ensures SortedByOrder(s[..p] + [e] + s[p..])
  {
    var r := s[..p] + [e] + s[p..];
    forall i, j | 0 <= i < j < |r| ensures OrderAt(r, i) <= OrderAt(r, j) {
      if j < p {
        assert r[i] == s[i] && r[j] == s[j];
        assert OrderAt(s, i) <= OrderAt(s, j);
      } else if j == p {
        assert r[i] == s[i] && r[j] == e;
      } else if i < p {
        assert r[i] == s[i] && r[j] == s[j - 1];
        assert OrderAt(s, i) <= OrderAt(s, j - 1);
      } else if i == p {
        assert r[i] == e && r[j] == s[j - 1];
        assert OrderAt(s, p) <= OrderAt(s, j - 1) || j - 1 == p;
      } else {
        assert r[i] == s[i - 1] && r[j] == s[j - 1];
        assert OrderAt(s, i - 1) <= OrderAt(s, j - 1);
      }
    }
  }

  lemma InsertAtCount(s: seq<Entry>, e: Entry, p: nat)
    requires p <= |s|
    ensures multiset(s[..p] + [e] + s[p..]) == multiset(s) + multiset{e}
  {
    assert s == s[..p] + s[p..];
  }

  /** Place `e` after every entry whose order does not exceed its own. */
  function Insert(s: seq<Entry>, e: Entry): (r: seq<Entry>)
    requires SortedByOrder(s)
    ensures SortedByOrder(r)
    ensures multiset(r) == multiset(s) + multiset{e}
  {
    var p := InsertPos(s, e);
    InsertAtSorted(s, e, p);
    InsertAtCount(s, e, p);
    s[..p] + [e] + s[p..]
  }

  /** The comparator sort on `order`, stable: equal orders keep their relative places. */
  function SortByOrder(es: seq<Entry>): (r: seq<Entry>)
    ensures SortedByOrder(r)
    ensures multiset(r) == multiset(es)
  {
    if es == [] then []
    else
      assert es == es[..|es| - 1] + [es[|es| - 1]];
      Insert(SortByOrder(es[..|es| - 1]), es[|es| - 1])
  }

  /** The entries whose order is `k`, in their original relative order. */
  function Only(es: seq<Entry>, k: int): seq<Entry> {
    if es == [] then []
    else (if es[0].order == k then [es[0]] else []) + Only(es[1..], k)
  }

  lemma {:induction false} OnlyConcat(a: seq<Entry>, b: seq<Entry>, k: int)
    ensures Only(a + b, k) == Only(a, k) + Only(b, k)
    decreases |a|
  {
    if a != [] {
      var x := if a[0].order == k then [a[0]] else [];
      assert (a + b)[1..] == a[1..] + b;
      assert (a + b)[0] == a[0];
      assert Only(a + b, k) == x + Only(a[1..] + b, k);
      OnlyConcat(a[1..], b, k);
      assert x + (Only(a[1..], k) + Only(b, k)) == (x + Only(a[1..], k)) + Only(b, k);
    } else {
      assert a + b == b;
    }
  }

  lemma {:induction false} OnlyBelow(s: seq<Entry>, k: int)
    requires forall i :: 0 <= i < |s| ==> k < s[i].order
    ensures Only(s, k) == []
    decreases |s|
  {
    if s != [] {
      OnlyBelow(s[1..], k);
    }
  }

  lemma OnlySplit(a: seq<Entry>, e: Entry, b: seq<Entry>, k: int)
    ensures Only(a + [e] + b, k) == Only(a, k) + (if e.order == k then [e] else []) + Only(b, k)
  {
    assert Only([e], k) == (if e.order == k then [e] else []) by {
      assert [e][1..] == [];
    }
    OnlyConcat(a, [e], k);
    OnlyConcat(a + [e], b, k);
  }

  /** Putting `e` before entries that all sort after it adds it last among its key. */
  lemma OnlyInsertBefore(before: seq<Entry>, e: Entry, after: seq<Entry>, k: int)
    requires forall i :: 0 <= i < |after| ==> e.order < after[i].order
    ensures Only(before + [e] + after, k) == Only(before + after, k) + (if e.order == k then [e] else [])
  {
    OnlySplit(before, e, after, k);
    OnlyConcat(before, after, k);
    if e.order == k {
      OnlyBelow(after, k);
      assert Only(before, k) + [e] + [] == Only(before, k) + [] + [e];
    } else {
      assert Only(before, k) + [] + Only(after, k) == Only(before, k) + Only(after, k) + [];
    }
  }

  lemma InsertStable(s: seq<Entry>, e: Entry, k: int)
    requires SortedByOrder(s)
    ensures Only(Insert(s, e), k) == Only(s, k) + (if e.order == k then [e] else [])
  {
    var p := InsertPos(s, e);
    var before, after := s[..p], s[p..];
    AfterInsertPos(s, e);
    OnlyInsertBefore(before, e, after, k);
    assert s == before + after;
  }

  /**
   * Stability: for every key, the entries with that order appear in the sorted
   * listing exactly as they appear in registry order.
   */
  lemma {:induction false} SortStable(es: seq<Entry>, k: int)
    ensures Only(SortByOrder(es), k) == Only(es, k)
    decreases |es|
  {
    if es != [] {
      var init, last := es[..|es| - 1], es[|es| - 1];
      SortStable(init, k);
      InsertStable(SortByOrder(init), last, k);
      assert es == init + [last];
      OnlyConcat(init, [last], k);
    }
  }

  /** `new Array(n).join('.')`: n - 1 dots, or none for n = 0. */
  function Dots(n: nat): string {
    Join(seq(n, _ => ""), ".")
  }

  lemma {:induction false} DotsShape(n: nat)
    ensures |Dots(n)| == if n == 0 then 0 else n - 1
    ensures forall i :: 0 <= i < |Dots(n)| ==> Dots(n)[i] == '.'
    decreases n
  {
    if n > 1 {
      DotsShape(n - 1);
      assert seq(n, _ => "")[..n - 1] == seq(n - 1, _ => "");
    }
  }

  /** One listed command: indent, name, dots up to the common column, description. */
  function Line(e: Entry, width: nat): string
    requires |e.cmd| + 3 <= width
  {
    "  " + e.cmd + "  " + Dots(Max(15, width) - |e.cmd|) + "  " + e.description
  }

  /**
   * Every line is the indented name, two spaces, `max(15, width) - |cmd| - 1`
   * dots (at least two), two spaces and the description, so every
   * description starts at the same column, `max(15, width) + 5`.
   */
  lemma LineLayout(e: Entry, width: nat)
    requires |e.cmd| + 3 <= width
    ensures var col := Max(15, width) + 5;
      && |Line(e, width)| == col + |e.description|
      && Line(e, width)[..2 + |e.cmd|] == "  " + e.cmd
      && Line(e, width)[2 + |e.cmd|..4 + |e.cmd|] == "  "
      && Line(e, width)[col - 2..col] == "  "
      && Line(e, width)[col..] == e.description
      && (forall i :: 4 + |e.cmd| <= i < col - 2 ==> Line(e, width)[i] == '.')
      && col - 2 - (4 + |e.cmd|) >= 2
  {
    var n := Max(15, width) - |e.cmd|;
    DotsShape(n);
    var dots := Dots(n);
    var line := "  " + e.cmd + "  " + dots + "  " + e.description;
    assert line == ("  " + e.cmd) + "  " + dots + "  " + e.description;
    forall i | 4 + |e.cmd| <= i < 4 + |e.cmd| + |dots| ensures line[i] == '.' {
      assert line[i] == dots[i - 4 - |e.cmd|];
    }
    assert line[..2 + |e.cmd|] == "  " + e.cmd;
    assert line[2 + |e.cmd|..4 + |e.cmd|] == "  ";
    assert line[Max(15, width) + 3..Max(15, width) + 5] == "  ";
    assert line[Max(15, width) + 5..] == e.description;
  }

  function Lines(es: seq<Entry>, width: nat): (ls: seq<string>)
    requires forall i :: 0 <= i < |es| ==> |es[i].cmd| + 3 <= width
    ensures |ls| == |es|
  {
    if es == [] then [] else Lines(es[..|es| - 1], width) + [Line(es[|es| - 1], width)]
  }

  lemma {:induction false} LinesAt(es: seq<Entry>, width: nat, i: nat)
    requires forall j :: 0 <= j < |es| ==> |es[j].cmd| + 3 <= width
    requires i < |es|
    ensures Lines(es, width)[i] == Line(es[i], width)
    decreases |es|
  {
    if i < |es| - 1 {
      LinesAt(es[..|es| - 1], width, i);
    }
  }

  /** Reordering the entries keeps every name within the common width. */
  lemma WidthCoversPermutation(es: seq<Entry>, sorted: seq<Entry>)
    requires multiset(sorted) == multiset(es)
    ensures forall i :: 0 <= i < |sorted| ==> |sorted[i].cmd| + 3 <= Width(es)
  {
    WidthIsMax(es);
    forall i | 0 <= i < |sorted| ensures |sorted[i].cmd| + 3 <= Width(es) {
      assert sorted[i] in multiset(es);
      var j :| 0 <= j < |es| && es[j] == sorted[i];
    }
  }

  /**
   * The output of `printCommands`: the header, one line per listed task and
   * a blank line; an empty registry makes `reduce` throw right after the header.
   */
  function CommandListing(showAll: bool, reg: Registry): (p: Printout)
    ensures p.threw <==> reg == []
    ensures |p.lines| >= 1 && p.lines[0] == Header
    ensures !p.threw ==> p.lines[|p.lines| - 1] == ""
  {
    if reg == [] then Printout([Header], true)
    else
      var es := Visible(showAll, Flatten(reg));
      var sorted := SortByOrder(es);
      var w := Width(es);
      WidthCoversPermutation(es, sorted);
      Printout([Header] + Lines(sorted, w) + [""], false)
  }

  /** The header, one line per entry in order, and the closing blank line. */
  lemma {:induction false} Framed(es: seq<Entry>, width: nat)
    requires forall i :: 0 <= i < |es| ==> |es[i].cmd| + 3 <= width
    ensures var out := [Header] + Lines(es, width) + [""];
      && |out| == |es| + 2 && out[0] == Header && out[|es| + 1] == ""
      && forall i :: 0 <= i < |es| ==> out[i + 1] == Line(es[i], width)
  {
    var out := [Header] + Lines(es, width) + [""];
    forall i | 0 <= i < |es| ensures out[i + 1] == Line(es[i], width) {
      LinesAt(es, width, i);
    }
  }

  /**
   * The listing throws exactly for an empty registry; otherwise it has one
   * line per shown task, in non-decreasing order, every line laid out to the
   * column set by the longest display name.
   */
  lemma ListingShape(showAll: bool, reg: Registry)
    ensures CommandListing(showAll, reg).threw <==> reg == []
    ensures CommandListing(showAll, reg).lines[0] == Header
    ensures reg != [] ==>
      var es := Visible(showAll, Flatten(reg));
      var sorted := SortByOrder(es);
      && |CommandListing(showAll, reg).lines| == |es| + 2
      && SortedByOrder(sorted) && multiset(sorted) == multiset(es)
      && CommandListing(showAll, reg).lines[|es| + 1] == ""
      && (forall i :: 0 <= i < |sorted| ==> |sorted[i].cmd| + 3 <= Width(es))
      && forall i :: 0 <= i < |es| ==> CommandListing(showAll, reg).lines[i + 1] == Line(sorted[i], Width(es))
  {
    if reg != [] {
      var es := Visible(showAll, Flatten(reg));
      var sorted := SortByOrder(es);
      WidthCoversPermutation(es, sorted);
      assert |sorted| == |multiset(sorted)| == |es|;
      Framed(sorted, Width(es));
    }
  }

  lemma VisibleSnoc(showAll: bool, tasks: seq<(string, Descriptor)>, task: (string, Descriptor))
    ensures Visible(showAll, tasks + [task]) ==
      Visible(showAll, tasks) + if Shown(showAll, task.1) then [EntryOf(showAll, task)] else []
  {
    assert (tasks + [task])[..|tasks|] == tasks;
  }

  lemma WidthSnoc(es: seq<Entry>, e: Entry)
    ensures Width(es + [e]) == Max(Width(es), |e.cmd| + 3)
  {
    assert (es + [e])[..|es|] == es;
  }

  lemma FlattenSnoc(reg: Registry, g: nat)
    requires g < |reg|
    ensures Flatten(reg[..g + 1]) == Flatten(reg[..g]) + reg[g].1
  {
    assert reg[..g + 1][..g] == reg[..g];
  }

  /** One step of the inner `map`: the next task's entry is appended when it is shown. */
  lemma CollectStep(showAll: bool, tasks0: seq<Entry>, group: seq<(string, Descriptor)>, t: nat, tasks: seq<Entry>)
    requires t < |group| && tasks == tasks0 + Visible(showAll, group[..t])
    ensures tasks0 + Visible(showAll, group[..t + 1]) ==
      tasks + if Shown(showAll, group[t].1) then [EntryOf(showAll, group[t])] else []
  {
    assert group[..t + 1] == group[..t] + [group[t]];
    VisibleSnoc(showAll, group[..t], group[t]);
  }

  /**
   * The callback of the inner `map` for one task: a shown task gets its
   * display name and widens `taskMaxLength`; a hidden one adds nothing.
   */
  method CollectTask(showAll: bool, task: (string, Descriptor), tasks0: seq<Entry>, width0: nat)
    returns (tasks: seq<Entry>, taskMaxLength: nat)
    requires width0 == Width(tasks0)
    ensures tasks == tasks0 + if Shown(showAll, task.1) then [EntryOf(showAll, task)] else []
    ensures taskMaxLength == Width(tasks)
  {
    tasks, taskMaxLength := tasks0, width0;
    var (taskName, d) := task;
    if Shown(showAll, d) {
      var cmd := DisplayName(showAll, taskName, d);
      WidthSnoc(tasks, Entry(cmd, d.order, d.description));
      taskMaxLength := Max(taskMaxLength, |cmd| + 3);
      tasks := tasks + [Entry(cmd, d.order, d.description)];
    }
  }

  /**
   * The inner `map` over one group's tasks, with the `filter`: appends the
   * entries of the shown tasks to `tasks0`.
   */
  method CollectGroup(showAll: bool, group: seq<(string, Descriptor)>, tasks0: seq<Entry>, width0: nat)
    returns (tasks: seq<Entry>, taskMaxLength: nat)
    requires width0 == Width(tasks0)
    ensures tasks == tasks0 + Visible(showAll, group)
    ensures taskMaxLength == Width(tasks)
  {
    tasks, taskMaxLength := tasks0, width0;
    assert group[..0] == [];
    for t := 0 to |group|
      invariant tasks == tasks0 + Visible(showAll, group[..t])
      invariant taskMaxLength == Width(tasks)
    {
      CollectStep(showAll, tasks0, group, t, tasks);
      tasks, taskMaxLength := CollectTask(showAll, group[t], tasks, taskMaxLength);
    }
    assert group[..|group|] == group;
  }

  /**
   * The `map` over groups and tasks of `printCommands`, with its `reduce` and
   * `filter`: the entries of the shown tasks, and `taskMaxLength` as the
   * callback leaves it.
   */
  method CollectEntries(showAll: bool, reg: Registry) returns (tasks: seq<Entry>, taskMaxLength: nat)
    ensures tasks == Visible(showAll, Flatten(reg))
    ensures taskMaxLength == Width(tasks)
  {
    tasks := [];
    taskMaxLength := 0;
    assert reg[..0] == [];
    for g := 0 to |reg|
      invariant tasks == Visible(showAll, Flatten(reg[..g]))
      invariant taskMaxLength == Width(tasks)
    {
      FlattenSnoc(reg, g);
      VisibleConcat(showAll, Flatten(reg[..g]), reg[g].1);
      tasks, taskMaxLength := CollectGroup(showAll, reg[g].1, tasks, taskMaxLength);
    }
    assert reg[..|reg|] == reg;
  }

  /** The `forEach` that prints one line per sorted entry. */
  method EmitLines(sorted: seq<Entry>, width: nat) returns (printed: seq<string>)
    requires forall i :: 0 <= i < |sorted| ==> |sorted[i].cmd| + 3 <= width
    ensures printed == Lines(sorted, width)
  {
    printed := [];
    for i := 0 to |sorted|
      invariant printed == Lines(sorted[..i], width)
    {
      assert sorted[..i + 1][..i] == sorted[..i];
      printed := printed + [Line(sorted[i], width)];
    }
    assert sorted[..|sorted|] == sorted;
  }

  /**
   * `printCommands`: the header, the collected entries sorted on `order`, one
   * line each, and a closing blank line.
   */
  method PrintCommands(showAll: bool, reg: Registry) returns (out: Printout)
    ensures out == CommandListing(showAll, reg)
  {
    var printed := [Header];
    var tasks, taskMaxLength := CollectEntries(showAll, reg);
    if reg == [] {
      return Printout(printed, true);
    }
    var sorted := SortByOrder(tasks);
    WidthCoversPermutation(tasks, sorted);
    var lines := EmitLines(sorted, taskMaxLength);
    return Printout(printed + lines + [""], false);
  }

  /** `printLogo` and `printUsage`; the logo text and the version are inputs. */
  function Preamble(logo: string, version: string): seq<string> {
    [logo, " Command Line Interface for Monaca and Onsen UI", " Monaca CLI Version " + version + "\n",
     "Usage: monaca command [args]\n"]
  }

  const Description: seq<string> := [
    "  To learn about a specific command type:\n", "  $ monaca <command> --help\n",
    "  To learn about all the command type:\n", "  $ monaca help | monaca --help\n"]

  const Examples: seq<string> := [
    "Typical Usage:\n",
    "  $ monaca create myproject # Create a new project from various templates",
    "  $ cd myproject",
    "  $ monaca preview # Preview app on a browser",
    "  $ monaca debug # Run the app in Monaca Debugger",
    "  $ monaca remote build # Execute remote build for packaging"]

  /**
   * `printHelp`: the preamble, then either the static extended walkthrough
   * (`extendedBlock`) or description, command listing and examples, then a
   * blank line. A listing that throws ends the output there.
   */
  function Help(showAll: bool, reg: Registry, extended: bool, logo: string, version: string,
                extendedBlock: seq<string>): (p: Printout)
    ensures p.threw <==> !extended && reg == []
    ensures |p.lines| > 4 && p.lines[..4] == Preamble(logo, version)
  {
    if extended then Printout(Preamble(logo, version) + extendedBlock + [""], false)
    else
      var listing := CommandListing(showAll, reg);
      if listing.threw then Printout(Preamble(logo, version) + Description + listing.lines, true)
      else Printout(Preamble(logo, version) + Description + listing.lines + Examples + [""], false)
  }

  /**
   * The extended form is the preamble, the extended block and a blank line,
   * the same whatever the registry and `--all`, and never throws; the summary
   * form never shows the extended block and throws exactly for an empty
   * registry, right after printing the header of the command list.
   */
  lemma HelpModes(showAll: bool, showAll': bool, reg: Registry, reg': Registry, logo: string, version: string,
                  block: seq<string>, block': seq<string>)
    ensures Help(showAll, reg, true, logo, version, block) == Help(showAll', reg', true, logo, version, block)
    ensures !Help(showAll, reg, true, logo, version, block).threw
    ensures var out := Help(showAll, reg, true, logo, version, block).lines;
      && |out| == |block| + 5
      && out[..4] == Preamble(logo, version)
      && out[4..4 + |block|] == block
      && out[4 + |block|] == ""
    ensures reg == [] ==>
      Help(showAll, reg, false, logo, version, block).lines == Preamble(logo, version) + Description + [Header]
    ensures Help(showAll, reg, false, logo, version, block) == Help(showAll, reg, false, logo, version, block')
    ensures Help(showAll, reg, false, logo, version, block).threw <==> reg == []
  {
    var out := Help(showAll, reg, true, logo, version, block).lines;
    assert out == Preamble(logo, version) + block + [""];
  }

  /**
   * Over a non-empty registry the summary is the preamble and description,
   * then the command listing, then the examples and a blank line.
   */
  lemma SummaryLayout(showAll: bool, reg: Registry, logo: string, version: string, block: seq<string>)
    requires reg != []
    ensures var out := Help(showAll, reg, false, logo, version, block).lines;
      var listing := CommandListing(showAll, reg).lines;
      && out[..8] == Preamble(logo, version) + Description
      && out[8..8 + |listing|] == listing
      && out[8 + |listing|..] == Examples + [""]
  {
    var listing := CommandListing(showAll, reg).lines;
    var head := Preamble(logo, version) + Description;
    var out := Help(showAll, reg, false, logo, version, block).lines;
    assert |head| == 8;
    assert out == head + listing + (Examples + [""]);
  }
}
