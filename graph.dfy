/**
 * The target graph of cbuild.  Targets live in an arena (a sequence) and a
 * target source refers to another target by its index.  In C a static target
 * can only take the address of a target declared before it, so the arena is
 * numbered in dependency order: every target source points to a smaller
 * index, which also makes the graph acyclic.
 */
module Graph {
  import opened Wrappers
  import opened CStrings
  import opened Commands

  /** cbuild_source: a file or another target, with the `add_to_command` flag. */
  datatype Source =
    | FileSource(file: seq<char>, addToCommand: bool)
    | TargetSource(target: nat, addToCommand: bool)

  /** cbuild_target without its `is_built` flag, which the Arena holds. */
  datatype Target = Target(targetFile: seq<char>, command: seq<seq<char>>, sources: seq<Source>)

  ghost predicate ValidGraph(g: seq<Target>) {
    forall t, j :: 0 <= t < |g| && 0 <= j < |g[t].sources| && g[t].sources[j].TargetSource? ==>
      g[t].sources[j].target < t
  }

  /** The arena of targets together with their `is_built` flags, the only part a build mutates. */
  class Arena {
    const targets: seq<Target>
    var isBuilt: seq<bool>

    ghost predicate Valid()
      reads this
    {
      ValidGraph(targets) && |isBuilt| == |targets|
    }

    /** Static targets start with `is_built == 0`. */
    constructor (targets: seq<Target>)
      requires ValidGraph(targets)
      ensures Valid() && this.targets == targets
      ensures forall t :: 0 <= t < |targets| ==> !isBuilt[t]
    {
      this.targets := targets;
      isBuilt := seq(|targets|, _ => false);
    }
  }

  /** Every target source of `t` is built: the readiness test of the parallel scheduler. */
  predicate Ready(g: seq<Target>, isBuilt: seq<bool>, t: nat)
    requires t < |g| && |isBuilt| == |g| && ValidGraph(g)
  {
    forall j :: 0 <= j < |g[t].sources| && g[t].sources[j].TargetSource? ==>
      isBuilt[g[t].sources[j].target]
  }

  /** The path a source adds to the command: the file name, or the target's output file. */
  function SourcePath(g: seq<Target>, s: Source): seq<char>
    requires s.TargetSource? ==> s.target < |g|
  {
    match s
    case FileSource(f, _) => f
    case TargetSource(d, _) => g[d].targetFile
  }

  /** The paths of the sources flagged `add_to_command`, in source order. */
  function SourceArgs(g: seq<Target>, srcs: seq<Source>): seq<seq<char>>
    requires forall j :: 0 <= j < |srcs| && srcs[j].TargetSource? ==> srcs[j].target < |g|
  {
    if srcs == [] then []
    else
      var last := srcs[|srcs| - 1];
      SourceArgs(g, srcs[..|srcs| - 1]) + (if last.addToCommand then [SourcePath(g, last)] else [])
  }

  lemma SourceArgsSnoc(g: seq<Target>, srcs: seq<Source>, j: nat)
    requires forall k :: 0 <= k < |srcs| && srcs[k].TargetSource? ==> srcs[k].target < |g|
    requires j < |srcs|
    ensures SourceArgs(g, srcs[..j + 1]) ==
      SourceArgs(g, srcs[..j]) + (if srcs[j].addToCommand then [SourcePath(g, srcs[j])] else [])
  {
    assert srcs[..j + 1][..j] == srcs[..j];
  }

  /** The number of sources flagged `add_to_command`. */
  function CountIncluded(srcs: seq<Source>): nat {
    if srcs == [] then 0 else CountIncluded(srcs[1..]) + (if srcs[0].addToCommand then 1 else 0)
  }

  /** The rebuild command: the target's command prefix, `-o <target file>`, then the included sources. */
  function CommandLayout(g: seq<Target>, t: nat): seq<seq<char>>
    requires t < |g| && ValidGraph(g)
  {
    g[t].command + ["-o", g[t].targetFile] + SourceArgs(g, g[t].sources)
  }

  lemma {:induction false} SourceArgsLength(g: seq<Target>, srcs: seq<Source>)
    requires forall j :: 0 <= j < |srcs| && srcs[j].TargetSource? ==> srcs[j].target < |g|
    ensures |SourceArgs(g, srcs)| == CountIncluded(srcs)
  {
    if srcs != [] {
      var n := |srcs|;
      SourceArgsLength(g, srcs[..n - 1]);
      CountIncludedSnoc(srcs[..n - 1], srcs[n - 1]);
      assert srcs[..n - 1] + [srcs[n - 1]] == srcs;
    }
  }

  lemma {:induction false} CountIncludedSnoc(srcs: seq<Source>, s: Source)
    ensures CountIncluded(srcs + [s]) == CountIncluded(srcs) + (if s.addToCommand then 1 else 0)
  {
    if srcs != [] {
      assert (srcs + [s])[1..] == srcs[1..] + [s];
      CountIncludedSnoc(srcs[1..], s);
    }
  }

  /** A source flagged `add_to_command` contributes its path, and the paths keep source order. */
  lemma {:induction false} SourceArgsKeepsOrder(g: seq<Target>, srcs: seq<Source>, j: nat)
    requires forall k :: 0 <= k < |srcs| && srcs[k].TargetSource? ==> srcs[k].target < |g|
    requires j < |srcs| && srcs[j].addToCommand
    ensures CountIncluded(srcs[..j]) < |SourceArgs(g, srcs)|
    ensures SourceArgs(g, srcs)[CountIncluded(srcs[..j])] == SourcePath(g, srcs[j])
  {
    var n := |srcs|;
    assert srcs[..n - 1] + [srcs[n - 1]] == srcs;
    if j == n - 1 {
      SourceArgsLength(g, srcs[..n - 1]);
      assert srcs[..j] == srcs[..n - 1];
    } else {
      assert srcs[..n - 1][..j] == srcs[..j];
      SourceArgsKeepsOrder(g, srcs[..n - 1], j);
    }
  }

  /** The layout has the prefix, then `-o` and the target file, then one path per included source. */
  lemma CommandLayoutShape(g: seq<Target>, t: nat)
    requires t < |g| && ValidGraph(g)
    ensures var c := g[t].command;
      && |CommandLayout(g, t)| == |c| + 2 + CountIncluded(g[t].sources)
      && CommandLayout(g, t)[..|c|] == c
      && CommandLayout(g, t)[|c|] == "-o"
      && CommandLayout(g, t)[|c| + 1] == g[t].targetFile
  {
    SourceArgsLength(g, g[t].sources);
  }

  /** The first loop of the command assembly: each string of the target's command prefix, one at a time. */
  method AddEachArg(cmd: Command, prefix: seq<seq<char>>)
    requires cmd.Valid()
    modifies cmd.argv, cmd.argv.strs
    ensures cmd.Valid() && (prefix != [] ==> cmd.argv.strs != null)
    ensures cmd.Args() == old(cmd.Args()) + prefix
    ensures cmd.argv.strs == old(cmd.argv.strs) || fresh(cmd.argv.strs)
  {
    ghost var base := cmd.Args();
    var i := 0;
    while i < |prefix|
      invariant 0 <= i <= |prefix|
      invariant cmd.Valid() && (i > 0 ==> cmd.argv.strs != null)
      invariant cmd.argv.strs == old(cmd.argv.strs) || fresh(cmd.argv.strs)
      invariant cmd.Args() == base + prefix[..i]
    {
      cmd.AddArg(prefix[i]);
      assert prefix[..i + 1] == prefix[..i] + [prefix[i]];
      i := i + 1;
    }
    assert prefix[..i] == prefix;
  }

  /** The last loop of the command assembly: the path of every source flagged `add_to_command`. */
  method AddSourceArgs(cmd: Command, g: seq<Target>, srcs: seq<Source>)
    requires forall j :: 0 <= j < |srcs| && srcs[j].TargetSource? ==> srcs[j].target < |g|
    requires cmd.Valid()
    modifies cmd.argv, cmd.argv.strs
    ensures cmd.Valid()
    ensures cmd.Args() == old(cmd.Args()) + SourceArgs(g, srcs)
    ensures cmd.argv.strs == old(cmd.argv.strs) || fresh(cmd.argv.strs)
  {
    ghost var base := cmd.Args();
    var j := 0;
    while j < |srcs|
      invariant 0 <= j <= |srcs|
      invariant cmd.Valid()
      invariant cmd.argv.strs == old(cmd.argv.strs) || fresh(cmd.argv.strs)
      invariant cmd.Args() == base + SourceArgs(g, srcs[..j])
    {
      SourceArgsSnoc(g, srcs, j);
      if srcs[j].addToCommand {
        cmd.AddArg(SourcePath(g, srcs[j]));
      }
      j := j + 1;
    }
    assert srcs[..j] == srcs;
  }

  /** The command assembly shared by both builders: prefix, `-o <target file>`, included sources. */
  method AssembleCommand(g: seq<Target>, t: nat) returns (cmd: Command)
    requires t < |g| && ValidGraph(g)
    ensures fresh(cmd) && fresh(cmd.argv) && (cmd.argv.strs == null || fresh(cmd.argv.strs))
    ensures cmd.Valid() && cmd.argv.strs != null
    ensures cmd.Args() == CommandLayout(g, t)
  {
    cmd := new Command();
    AddEachArg(cmd, g[t].command);
    cmd.AddArgs(["-o", g[t].targetFile]);
    AddSourceArgs(cmd, g, g[t].sources);
  }

  /**
   * The order in which cbuild_setup_target_stack pushes targets: the target
   * itself, then, for each target source in order, that target's own order.
   */
  function Preorder(g: seq<Target>, t: nat): seq<nat>
    requires t < |g| && ValidGraph(g)
    decreases t, |g[t].sources| + 1
  {
    [t] + PreorderOfSources(g, t, 0)
  }

  function PreorderOfSources(g: seq<Target>, t: nat, i: nat): seq<nat>
    requires t < |g| && ValidGraph(g) && i <= |g[t].sources|
    decreases t, |g[t].sources| - i
  {
    if i == |g[t].sources| then [] else PreorderOfSource(g, t, i) + PreorderOfSources(g, t, i + 1)
  }

  /** The traversal below source `i` of `t`: empty for a file source. */
  function PreorderOfSource(g: seq<Target>, t: nat, i: nat): seq<nat>
    requires t < |g| && ValidGraph(g) && i < |g[t].sources|
    decreases t, 0
  {
    var s := g[t].sources[i];
    if s.TargetSource? then Preorder(g, s.target) else []
  }

  /** The targets reachable from `t` through target sources, `t` included. */
  ghost function Reachable(g: seq<Target>, t: nat): set<nat>
    requires t < |g| && ValidGraph(g)
  {
    set x | x in Preorder(g, t)
  }

  /** Everything in the traversal is an arena index no larger than the root, and the root comes first. */
  lemma {:induction false} PreorderBounded(g: seq<Target>, t: nat)
    requires t < |g| && ValidGraph(g)
    ensures Preorder(g, t)[0] == t
    ensures forall k :: 0 <= k < |Preorder(g, t)| ==> Preorder(g, t)[k] <= t
    decreases t, |g[t].sources| + 1
  {
    PreorderOfSourcesBounded(g, t, 0);
  }

  lemma {:induction false} PreorderOfSourcesBounded(g: seq<Target>, t: nat, i: nat)
    requires t < |g| && ValidGraph(g) && i <= |g[t].sources|
    ensures forall k :: 0 <= k < |PreorderOfSources(g, t, i)| ==> PreorderOfSources(g, t, i)[k] < t
    decreases t, |g[t].sources| - i
  {
    if i < |g[t].sources| {
      var s := g[t].sources[i];
      PreorderOfSourcesBounded(g, t, i + 1);
      if s.TargetSource? {
        PreorderBounded(g, s.target);
      }
    }
  }

  /** The root occurs exactly once in its own traversal, at the front. */
  lemma RootOnlyFirst(g: seq<Target>, t: nat)
    requires t < |g| && ValidGraph(g)
    ensures Preorder(g, t)[0] == t && t !in Preorder(g, t)[1..]
  {
    PreorderOfSourcesBounded(g, t, 0);
    assert Preorder(g, t)[1..] == PreorderOfSources(g, t, 0);
  }

  /** The traversal from a target is closed under target sources. */
  lemma {:induction false} PreorderClosed(g: seq<Target>, t: nat, x: nat, j: nat)
    requires t < |g| && ValidGraph(g)
    requires x in Preorder(g, t) && x < |g|
    requires j < |g[x].sources| && g[x].sources[j].TargetSource?
    ensures g[x].sources[j].target in Preorder(g, t)
    decreases t, |g[t].sources| + 1
  {
    if x == t {
      PreorderOfSourcesContains(g, t, 0, j);
    } else {
      PreorderOfSourcesClosed(g, t, 0, x, j);
    }
  }

  lemma {:induction false} PreorderOfSourcesClosed(g: seq<Target>, t: nat, i: nat, x: nat, j: nat)
    requires t < |g| && ValidGraph(g) && i <= |g[t].sources|
    requires x in PreorderOfSources(g, t, i) && x < |g|
    requires j < |g[x].sources| && g[x].sources[j].TargetSource?
    ensures g[x].sources[j].target in PreorderOfSources(g, t, i)
    decreases t, |g[t].sources| - i
  {
    var s := g[t].sources[i];
    var head := if s.TargetSource? then Preorder(g, s.target) else [];
    assert PreorderOfSources(g, t, i) == head + PreorderOfSources(g, t, i + 1);
    if x in head {
      PreorderClosed(g, s.target, x, j);
    } else {
      PreorderOfSourcesClosed(g, t, i + 1, x, j);
    }
  }

  lemma {:induction false} PreorderOfSourcesContains(g: seq<Target>, t: nat, i: nat, j: nat)
    requires t < |g| && ValidGraph(g) && i <= j < |g[t].sources| && g[t].sources[j].TargetSource?
    ensures g[t].sources[j].target in PreorderOfSources(g, t, i)
    decreases |g[t].sources| - i
  {
    var s := g[t].sources[i];
    var head := if s.TargetSource? then Preorder(g, s.target) else [];
    assert PreorderOfSources(g, t, i) == head + PreorderOfSources(g, t, i + 1);
    if i == j {
      assert Preorder(g, s.target)[0] == s.target;
    } else {
      PreorderOfSourcesContains(g, t, i + 1, j);
    }
  }

  /** The traversal from a target contains the traversal from each of its target sources. */
  lemma PreorderIncludesSource(g: seq<Target>, t: nat, j: nat)
    requires t < |g| && ValidGraph(g) && j < |g[t].sources| && g[t].sources[j].TargetSource?
    ensures forall x :: x in Preorder(g, g[t].sources[j].target) ==> x in Preorder(g, t)
  {
    PreorderOfSourcesIncludes(g, t, 0, j);
  }

  lemma {:induction false} PreorderOfSourcesIncludes(g: seq<Target>, t: nat, i: nat, j: nat)
    requires t < |g| && ValidGraph(g) && i <= j < |g[t].sources| && g[t].sources[j].TargetSource?
    ensures forall x :: x in Preorder(g, g[t].sources[j].target) ==> x in PreorderOfSources(g, t, i)
    decreases |g[t].sources| - i
  {
    var s := g[t].sources[i];
    var head := if s.TargetSource? then Preorder(g, s.target) else [];
    assert PreorderOfSources(g, t, i) == head + PreorderOfSources(g, t, i + 1);
    if i < j {
      PreorderOfSourcesIncludes(g, t, i + 1, j);
    }
  }

  /** Anything reachable other than the root is reachable from one of its target sources. */
  lemma PreorderSplit(g: seq<Target>, t: nat, x: nat)
    requires t < |g| && ValidGraph(g) && x in Preorder(g, t) && x != t
    ensures exists j :: 0 <= j < |g[t].sources| && g[t].sources[j].TargetSource?
                        && x in Preorder(g, g[t].sources[j].target)
  {
    PreorderOfSourcesSplit(g, t, 0, x);
  }

  lemma {:induction false} PreorderOfSourcesSplit(g: seq<Target>, t: nat, i: nat, x: nat)
    requires t < |g| && ValidGraph(g) && i <= |g[t].sources| && x in PreorderOfSources(g, t, i)
    ensures exists j :: i <= j < |g[t].sources| && g[t].sources[j].TargetSource?
                        && x in Preorder(g, g[t].sources[j].target)
    decreases |g[t].sources| - i
  {
    var s := g[t].sources[i];
    var head := if s.TargetSource? then Preorder(g, s.target) else [];
    assert PreorderOfSources(g, t, i) == head + PreorderOfSources(g, t, i + 1);
    if x !in head {
      PreorderOfSourcesSplit(g, t, i + 1, x);
    }
  }

  /**
   * A small arena used by the examples: `app` depends on `d.o` and on `a.o`,
   * and `a.o` depends on `d.o` too, so `d.o` is reachable along two paths.
   */
  function Diamond(): (g: seq<Target>)
    ensures ValidGraph(g) && |g| == 3
  {
    [Target("d.o", ["cc"], [FileSource("d.c", true)]),
     Target("a.o", ["cc"], [TargetSource(0, true)]),
     Target("app", ["cc"], [TargetSource(0, true), TargetSource(1, true)])]
  }
}
