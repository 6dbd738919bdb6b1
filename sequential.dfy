/**
 * The sequential builder, cbuild_build_target.  A depth-first walk over the
 * target's sources: a target source that is not yet flagged built is built
 * first, and a non-zero result aborts with 1.  A target is rebuilt when
 * `always_recompile` is set, when one of its sources is newer than it, or as
 * soon as anything at all has been rebuilt -- the `built` flag is shared by
 * the whole walk.
 *
 * The walk never changes the file system as far as the decisions are
 * concerned: the first command it runs sets `built`, and from then on every
 * remaining target is rebuilt whatever the timestamps say.  So the
 * timestamps are a fixed FileSystem, and running a command is an oracle
 * `exec` that gives its exit status from the number of commands already run
 * and the command itself.
 */
module Sequential {
  import opened Freshness
  import opened Graph
  import opened Commands

  type Argv = seq<seq<char>>

  datatype Env = Env(
    g: seq<Target>,
    isBuilt: seq<bool>,
    fs: FileSystem,
    always: bool,
    exec: (nat, Argv) -> int)

  ghost predicate EnvValid(env: Env) {
    ValidGraph(env.g) && |env.isBuilt| == |env.g|
  }

  /** The result of a walk: the returned status, the shared `built` flag, and the commands run, in order. */
  datatype Outcome = Outcome(status: int, built: bool, spawned: seq<Argv>)

  /** cbuild_build_target(t, &built, always) started with the given flag and command log. */
  function Build(env: Env, t: nat, built: bool, spawned: seq<Argv>): (r: Outcome)
    requires EnvValid(env) && t < |env.g|
    ensures spawned <= r.spawned
    ensures r.built <==> built || |r.spawned| > |spawned|
    ensures r.status != 0 ==> |r.spawned| > |spawned|
    decreases t, |env.g[t].sources| + 1
  {
    Scan(env, t, 0, built, env.always, spawned)
  }

  /** The loop over the sources of `t` from index `i`, with `build_needed` so far. */
  function Scan(env: Env, t: nat, i: nat, built: bool, needed: bool, spawned: seq<Argv>): (r: Outcome)
    requires EnvValid(env) && t < |env.g| && i <= |env.g[t].sources|
    ensures spawned <= r.spawned
    ensures r.built <==> built || |r.spawned| > |spawned|
    ensures r.status != 0 ==> |r.spawned| > |spawned|
    decreases t, |env.g[t].sources| - i
  {
    var tg := env.g[t];
    if i == |tg.sources| then
      if needed || built then
        var cmd := CommandLayout(env.g, t);
        Outcome(env.exec(|spawned|, cmd), true, spawned + [cmd])
      else
        Outcome(0, built, spawned)
    else
      match tg.sources[i]
      case FileSource(f, _) =>
        Scan(env, t, i + 1, built, needed || IsOlderThanSource(env.fs, tg.targetFile, f), spawned)
      case TargetSource(d, _) =>
        var o := if env.isBuilt[d] then Outcome(0, built, spawned) else Build(env, d, built, spawned);
        if o.status != 0 then
          Outcome(1, o.built, o.spawned)
        else
          Scan(env, t, i + 1, o.built,
            needed || o.built || IsOlderThanSource(env.fs, tg.targetFile, env.g[d].targetFile), o.spawned)
  }

  /**
   * cbuild_build_target.  `built` and `spawned` are the shared flag and the
   * log of commands run before this call; the arena's `is_built` flags are only
   * read, never set.
   */
  method BuildTarget(arena: Arena, fs: FileSystem, always: bool, exec: (nat, Argv) -> int,
                     t: nat, built: bool, spawned: seq<Argv>)
      returns (status: int, builtOut: bool, spawnedOut: seq<Argv>)
    requires arena.Valid() && t < |arena.targets|
    ensures Outcome(status, builtOut, spawnedOut) ==
      Build(Env(arena.targets, arena.isBuilt, fs, always, exec), t, built, spawned)
    decreases t
  {
    ghost var env := Env(arena.targets, arena.isBuilt, fs, always, exec);
    var tg := arena.targets[t];
    var needed := always;
    builtOut, spawnedOut := built, spawned;
    var i := 0;
    while i < |tg.sources|
      invariant 0 <= i <= |tg.sources|
      invariant Scan(env, t, i, builtOut, needed, spawnedOut) == Build(env, t, built, spawned)
    {
      match tg.sources[i] {
        case FileSource(f, _) =>
          needed := needed || IsOlderThanSource(fs, tg.targetFile, f);
        case TargetSource(d, _) =>
          if !arena.isBuilt[d] {
            var st;
            st, builtOut, spawnedOut := BuildTarget(arena, fs, always, exec, d, builtOut, spawnedOut);
            if st != 0 {
              return 1, builtOut, spawnedOut;
            }
          }
          needed := needed || builtOut;
          needed := needed || IsOlderThanSource(fs, tg.targetFile, arena.targets[d].targetFile);
      }
      i := i + 1;
    }
    if needed || builtOut {
      var cmd := AssembleCommand(arena.targets, t);
      var argv := cmd.Args();
      builtOut := true;
      status := exec(|spawnedOut|, argv);
      spawnedOut := spawnedOut + [argv];
      return;
    }
    status := 0;
  }

  /** Whether source `j` of target `x` is newer than the target's file, as the walk tests it. */
  predicate SourceStale(env: Env, x: nat, j: nat)
    requires EnvValid(env) && x < |env.g| && j < |env.g[x].sources|
  {
    var tg := env.g[x];
    match tg.sources[j]
    case FileSource(f, _) => IsOlderThanSource(env.fs, tg.targetFile, f)
    case TargetSource(d, _) => IsOlderThanSource(env.fs, tg.targetFile, env.g[d].targetFile)
  }

  ghost predicate UpToDate(env: Env, x: nat)
    requires EnvValid(env) && x < |env.g|
  {
    forall j :: 0 <= j < |env.g[x].sources| ==> !SourceStale(env, x, j)
  }

  /** The rebuild commands of the targets the walk from `root` can reach. */
  ghost function Layouts(g: seq<Target>, root: nat): set<Argv>
    requires root < |g| && ValidGraph(g)
  {
    set x | 0 <= x <= root && x in Preorder(g, root) :: CommandLayout(g, x)
  }

  /** Every command in `cmds` rebuilds a target reachable from `root`. */
  ghost predicate RunsWithin(g: seq<Target>, cmds: seq<Argv>, root: nat)
    requires root < |g| && ValidGraph(g)
  {
    forall k :: 0 <= k < |cmds| ==> cmds[k] in Layouts(g, root)
  }

  lemma RootLayout(g: seq<Target>, t: nat)
    requires t < |g| && ValidGraph(g)
    ensures CommandLayout(g, t) in Layouts(g, t)
  {
    PreorderBounded(g, t);
  }

  lemma LayoutsOfSource(g: seq<Target>, t: nat, i: nat)
    requires t < |g| && ValidGraph(g) && i < |g[t].sources| && g[t].sources[i].TargetSource?
    ensures Layouts(g, g[t].sources[i].target) <= Layouts(g, t)
  {
    var d := g[t].sources[i].target;
    PreorderIncludesSource(g, t, i);
    forall c | c in Layouts(g, d)
      ensures c in Layouts(g, t)
    {
      var x :| 0 <= x <= d && x in Preorder(g, d) && c == CommandLayout(g, x);
      assert x in Preorder(g, t);
    }
  }

  lemma RunsWithinConcat(g: seq<Target>, a: seq<Argv>, b: seq<Argv>, c: seq<Argv>, root: nat)
    requires root < |g| && ValidGraph(g)
    requires a <= b <= c && RunsWithin(g, b[|a|..], root) && RunsWithin(g, c[|b|..], root)
    ensures RunsWithin(g, c[|a|..], root)
  {
    forall k | 0 <= k < |c| - |a|
      ensures c[|a|..][k] in Layouts(g, root)
    {
      if |a| + k < |b| {
        assert c[|a|..][k] == b[|a|..][k];
      } else {
        assert c[|a|..][k] == c[|b|..][|a| + k - |b|];
      }
    }
  }

  /** Every command the walk from `t` runs rebuilds a target reachable from `t`. */
  lemma {:induction false} BuildRunsWithin(env: Env, t: nat, built: bool, spawned: seq<Argv>)
    requires EnvValid(env) && t < |env.g|
    ensures var r := Build(env, t, built, spawned); RunsWithin(env.g, r.spawned[|spawned|..], t)
    decreases t, |env.g[t].sources| + 1
  {
    ScanRunsWithin(env, t, 0, built, env.always, spawned);
  }

  lemma {:induction false} ScanRunsWithin(env: Env, t: nat, i: nat, built: bool, needed: bool, spawned: seq<Argv>)
    requires EnvValid(env) && t < |env.g| && i <= |env.g[t].sources|
    ensures var r := Scan(env, t, i, built, needed, spawned); RunsWithin(env.g, r.spawned[|spawned|..], t)
    decreases t, |env.g[t].sources| - i
  {
    var tg := env.g[t];
    var r := Scan(env, t, i, built, needed, spawned);
    if i == |tg.sources| {
      if needed || built {
        RootLayout(env.g, t);
        assert r.spawned[|spawned|..] == [CommandLayout(env.g, t)];
      } else {
        assert r.spawned[|spawned|..] == [];
      }
    } else {
      match tg.sources[i]
      case FileSource(f, _) =>
        ScanRunsWithin(env, t, i + 1, built, needed || IsOlderThanSource(env.fs, tg.targetFile, f), spawned);
      case TargetSource(d, _) =>
        var o := if env.isBuilt[d] then Outcome(0, built, spawned) else Build(env, d, built, spawned);
        if env.isBuilt[d] {
          assert o.spawned[|spawned|..] == [];
        } else {
          BuildRunsWithin(env, d, built, spawned);
          LayoutsOfSource(env.g, t, i);
        }
        assert RunsWithin(env.g, o.spawned[|spawned|..], t);
        if o.status == 0 {
          var needed' := needed || o.built || IsOlderThanSource(env.fs, tg.targetFile, env.g[d].targetFile);
          ScanRunsWithin(env, t, i + 1, o.built, needed', o.spawned);
          RunsWithinConcat(env.g, spawned, o.spawned, r.spawned, t);
        }
    }
  }

  /**
   * A dependency that is not flagged built and whose own walk fails aborts
   * the walk of `t` with 1: every command run meanwhile rebuilds a target
   * reachable from that dependency, all of which have smaller indices than
   * `t`, so no command for `t` is assembled.
   */
  lemma FailingDependencyAborts(env: Env, t: nat, i: nat, built: bool, needed: bool, spawned: seq<Argv>)
    requires EnvValid(env) && t < |env.g| && i < |env.g[t].sources|
    requires env.g[t].sources[i].TargetSource? && !env.isBuilt[env.g[t].sources[i].target]
    requires Build(env, env.g[t].sources[i].target, built, spawned).status != 0
    ensures var d := env.g[t].sources[i].target;
      var r := Scan(env, t, i, built, needed, spawned);
      && d < t
      && r.status == 1
      && RunsWithin(env.g, r.spawned[|spawned|..], d)
  {
    BuildRunsWithin(env, env.g[t].sources[i].target, built, spawned);
  }

  /** Once a rebuild is needed or something has been built, a walk that succeeds ends by running this target's command. */
  lemma {:induction false} ScanRebuildsWhenNeeded(env: Env, t: nat, i: nat, built: bool, needed: bool, spawned: seq<Argv>)
    requires EnvValid(env) && t < |env.g| && i <= |env.g[t].sources|
    requires needed || built
    ensures var r := Scan(env, t, i, built, needed, spawned);
      r.status == 0 ==> r.built && |r.spawned| > |spawned| && r.spawned[|r.spawned| - 1] == CommandLayout(env.g, t)
    decreases |env.g[t].sources| - i
  {
    var tg := env.g[t];
    if i < |tg.sources| {
      match tg.sources[i]
      case FileSource(f, _) =>
        ScanRebuildsWhenNeeded(env, t, i + 1, built, needed || IsOlderThanSource(env.fs, tg.targetFile, f), spawned);
      case TargetSource(d, _) =>
        var stale := IsOlderThanSource(env.fs, tg.targetFile, env.g[d].targetFile);
        var o := if env.isBuilt[d] then Outcome(0, built, spawned) else Build(env, d, built, spawned);
        if o.status == 0 {
          ScanRebuildsWhenNeeded(env, t, i + 1, o.built, needed || o.built || stale, o.spawned);
        }
    }
  }

  /** `always_recompile` rebuilds every target the walk reaches. */
  lemma AlwaysRebuilds(env: Env, t: nat, built: bool, spawned: seq<Argv>)
    requires EnvValid(env) && t < |env.g| && env.always
    ensures var r := Build(env, t, built, spawned);
      r.status == 0 ==> r.built && |r.spawned| > |spawned| && r.spawned[|r.spawned| - 1] == CommandLayout(env.g, t)
  {
    ScanRebuildsWhenNeeded(env, t, 0, built, env.always, spawned);
  }

  /** Once something has been rebuilt, every later target is rebuilt too, stale or not. */
  lemma BuiltCascades(env: Env, t: nat, spawned: seq<Argv>)
    requires EnvValid(env) && t < |env.g|
    ensures var r := Build(env, t, true, spawned);
      r.status == 0 ==> |r.spawned| > |spawned| && r.spawned[|r.spawned| - 1] == CommandLayout(env.g, t)
  {
    ScanRebuildsWhenNeeded(env, t, 0, true, env.always, spawned);
  }

  /** A target with a source newer than itself is rebuilt, unless the walk fails first. */
  lemma StaleSourceRebuilds(env: Env, t: nat, j: nat, built: bool, spawned: seq<Argv>)
    requires EnvValid(env) && t < |env.g| && j < |env.g[t].sources| && SourceStale(env, t, j)
    ensures var r := Build(env, t, built, spawned);
      r.status == 0 ==> r.built && |r.spawned| > |spawned| && r.spawned[|r.spawned| - 1] == CommandLayout(env.g, t)
  {
    ScanReachesStale(env, t, 0, j, built, env.always, spawned);
  }

  lemma {:induction false} ScanReachesStale(env: Env, t: nat, i: nat, j: nat, built: bool, needed: bool, spawned: seq<Argv>)
    requires EnvValid(env) && t < |env.g| && i <= j < |env.g[t].sources| && SourceStale(env, t, j)
    ensures var r := Scan(env, t, i, built, needed, spawned);
      r.status == 0 ==> r.built && |r.spawned| > |spawned| && r.spawned[|r.spawned| - 1] == CommandLayout(env.g, t)
    decreases |env.g[t].sources| - i
  {
    var tg := env.g[t];
    match tg.sources[i]
    case FileSource(f, _) =>
      var needed' := needed || IsOlderThanSource(env.fs, tg.targetFile, f);
      if i == j {
        ScanRebuildsWhenNeeded(env, t, i + 1, built, needed', spawned);
      } else {
        ScanReachesStale(env, t, i + 1, j, built, needed', spawned);
      }
    case TargetSource(d, _) =>
      var o := if env.isBuilt[d] then Outcome(0, built, spawned) else Build(env, d, built, spawned);
      if o.status == 0 {
        var needed' := needed || o.built || IsOlderThanSource(env.fs, tg.targetFile, env.g[d].targetFile);
        if i == j {
          ScanRebuildsWhenNeeded(env, t, i + 1, o.built, needed', o.spawned);
        } else {
          ScanReachesStale(env, t, i + 1, j, o.built, needed', o.spawned);
        }
      }
  }

  /** With nothing stale anywhere below it and no forced rebuild, the walk runs nothing and succeeds. */
  lemma {:induction false} UpToDateRunsNothing(env: Env, t: nat, spawned: seq<Argv>)
    requires EnvValid(env) && t < |env.g| && !env.always
    requires forall x :: x in Preorder(env.g, t) ==> x < |env.g| && UpToDate(env, x)
    ensures Build(env, t, false, spawned) == Outcome(0, false, spawned)
    decreases t, |env.g[t].sources| + 1
  {
    ScanUpToDate(env, t, 0, spawned);
  }

  lemma {:induction false} ScanUpToDate(env: Env, t: nat, i: nat, spawned: seq<Argv>)
    requires EnvValid(env) && t < |env.g| && i <= |env.g[t].sources| && !env.always
    requires forall x :: x in Preorder(env.g, t) ==> x < |env.g| && UpToDate(env, x)
    ensures Scan(env, t, i, false, false, spawned) == Outcome(0, false, spawned)
    decreases t, |env.g[t].sources| - i
  {
    var tg := env.g[t];
    if i < |tg.sources| {
      assert t in Preorder(env.g, t);
      assert !SourceStale(env, t, i);
      match tg.sources[i]
      case FileSource(f, _) =>
        ScanUpToDate(env, t, i + 1, spawned);
      case TargetSource(d, _) =>
        if !env.isBuilt[d] {
          PreorderIncludesSource(env.g, t, i);
          UpToDateRunsNothing(env, d, spawned);
        }
        ScanUpToDate(env, t, i + 1, spawned);
    }
  }

  /**
   * The arena flags are never set by the walk, so a target shared by two
   * others is built once for each path to it.  In this arena `app` depends on
   * `d.o` and on `a.o`, which depends on `d.o` too.
   */
  function DiamondEnv(): Env {
    Env(Diamond(), [false, false, false], map[], true, (k: nat, c: Argv) => 0)
  }

  /** With `always_recompile` the commands run are d.o, d.o again, a.o, app. */
  lemma SharedDependencyBuiltTwice()
    ensures EnvValid(DiamondEnv())
    ensures Build(DiamondEnv(), 2, false, []) == Outcome(0, true, [
        ["cc", "-o", "d.o", "d.c"], ["cc", "-o", "d.o", "d.c"],
        ["cc", "-o", "a.o", "d.o"], ["cc", "-o", "app", "d.o", "a.o"]])
  {
    var env := DiamondEnv();
    var g := env.g;
    var ld: Argv := ["cc", "-o", "d.o", "d.c"];
    var la: Argv := ["cc", "-o", "a.o", "d.o"];
    var lapp: Argv := ["cc", "-o", "app", "d.o", "a.o"];
    assert ValidGraph(g);
    assert SourceArgs(g, g[0].sources) == ["d.c"] by {
      assert g[0].sources[..0] == [];
    }
    assert SourceArgs(g, g[1].sources) == ["d.o"] by {
      assert g[1].sources[..0] == [];
    }
    assert SourceArgs(g, g[2].sources) == ["d.o", "a.o"] by {
      assert g[2].sources[..1] == [TargetSource(0, true)];
      assert g[2].sources[..1][..0] == [];
    }
    assert CommandLayout(g, 0) == ld;
    assert CommandLayout(g, 1) == la;
    assert CommandLayout(g, 2) == lapp;
    assert Build(env, 0, false, []) == Outcome(0, true, [ld]) by {
      assert Scan(env, 0, 1, false, true, []) == Outcome(0, true, [ld]);
    }
    assert Build(env, 0, true, [ld]) == Outcome(0, true, [ld, ld]) by {
      assert Scan(env, 0, 1, true, true, [ld]) == Outcome(0, true, [ld, ld]);
    }
    assert Build(env, 1, true, [ld]) == Outcome(0, true, [ld, ld, la]) by {
      assert Scan(env, 1, 1, true, true, [ld, ld]) == Outcome(0, true, [ld, ld, la]);
    }
    assert Scan(env, 2, 2, true, true, [ld, ld, la]) == Outcome(0, true, [ld, ld, la, lapp]);
    assert Scan(env, 2, 1, true, true, [ld]) == Outcome(0, true, [ld, ld, la, lapp]);
  }
}
