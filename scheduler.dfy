/**
 * The parallel builder of cbuild: cbuild_build_target_async decides one
 * target's staleness and either starts a child or marks the target built;
 * cbuild_multiprocess_build_target keeps up to `nb_process` children running,
 * taking ready targets from the worklist and reaping children one at a time.
 *
 * The operating system is the `Os` object.  Forking gives a fresh positive
 * pid, or -1 when `fork` fails; waiting yields one live child and its exit
 * status, or -1 when there is no child; the filesystem may change while
 * children run.  The methods' bodies are one possible behaviour; callers rely
 * only on their contracts.
 */
module Scheduler {
  import opened Wrappers
  import opened Freshness
  import opened Graph
  import opened Commands
  import opened Worklist
  import opened ProcessTable
  import opened Progress

  type Argv = seq<seq<char>>

  class Os {
    var fs: FileSystem
    /** The children forked and not yet reaped, as a set and in fork order. */
    var live: set<int>
    var children: seq<int>
    var nextPid: int
    /** The command of every child forked, in order. */
    var spawned: seq<Argv>
    /** The exit status of every child reaped, in order. */
    var reaped: seq<int>
    /** Whether some `fork` has failed. */
    var forkFailed: bool
    /** Whether the n-th fork succeeds. */
    const forkOk: nat -> bool
    /** The exit status each child ends with. */
    const exitCode: int -> int

    ghost predicate Valid()
      reads this
    {
      && nextPid > 0
      && (forall p :: p in live ==> 0 < p < nextPid)
      && (forall p :: p in live <==> p in children)
      && (forall i, j :: 0 <= i < j < |children| ==> children[i] != children[j])
    }

    constructor (fs: FileSystem, forkOk: nat -> bool, exitCode: int -> int)
      ensures Valid() && this.fs == fs && this.forkOk == forkOk && this.exitCode == exitCode
      ensures live == {} && spawned == [] && reaped == [] && !forkFailed
    {
      this.fs := fs;
      this.forkOk := forkOk;
      this.exitCode := exitCode;
      live := {};
      children := [];
      nextPid := 1;
      spawned := [];
      reaped := [];
      forkFailed := false;
    }

    /** cbuild_command_exec_async: fork a child that runs `argv`. */
    method Spawn(argv: Argv) returns (pid: int)
      requires Valid()
      modifies this
      ensures Valid() && fs == old(fs) && reaped == old(reaped)
      ensures pid == -1 <==> !forkOk(|old(spawned)|)
      ensures pid == -1 ==> forkFailed && live == old(live) && spawned == old(spawned)
      ensures pid != -1 ==>
        && pid > 0 && pid !in old(live) && live == old(live) + {pid}
        && spawned == old(spawned) + [argv] && forkFailed == old(forkFailed)
    {
      if forkOk(|spawned|) {
        pid := nextPid;
        nextPid := nextPid + 1;
        live := live + {pid};
        children := children + [pid];
        spawned := spawned + [argv];
      } else {
        pid := -1;
        forkFailed := true;
      }
    }

    /** `waitpid(-1, &wstatus, 0)` followed by `WEXITSTATUS`. */
    method Wait() returns (pid: int, status: int)
      requires Valid()
      modifies this
      ensures Valid() && spawned == old(spawned) && forkFailed == old(forkFailed)
      ensures old(live) == {} ==> pid == -1 && live == old(live) && reaped == old(reaped)
      ensures old(live) != {} ==>
        && pid in old(live) && live == old(live) - {pid}
        && status == exitCode(pid) % 256 && reaped == old(reaped) + [status]
    {
      if children == [] {
        forall p
          ensures p !in live
        {
          assert p !in children;
        }
        pid, status := -1, 0;
      } else {
        var i :| 0 <= i < |children|;
        pid := children[i];
        assert pid in live;
        status := exitCode(pid) % 256;
        ghost var before := children;
        live := live - {pid};
        children := children[..i] + children[i + 1..];
        forall p
          ensures p in live <==> p in children
        {
          if p in before && p != pid {
            var j :| 0 <= j < |before| && before[j] == p;
            assert j != i;
            if j < i {
              assert children[j] == p;
            } else {
              assert children[j - 1] == p;
            }
          }
        }
        forall a, b | 0 <= a < b < |children|
          ensures children[a] != children[b]
        {
          var a' := if a < i then a else a + 1;
          var b' := if b < i then b else b + 1;
          assert children[a] == before[a'] && children[b] == before[b'];
        }
        reaped := reaped + [status];
      }
    }
  }

  /** The timestamp test of cbuild_build_target_async for source `j` of `t`. */
  predicate StaleAt(fs: FileSystem, g: seq<Target>, t: nat, j: nat)
    requires t < |g| && ValidGraph(g) && j < |g[t].sources|
  {
    IsOlderThanSource(fs, g[t].targetFile, SourcePath(g, g[t].sources[j]))
  }

  /** Whether the asynchronous step rebuilds `t`: timestamps only, no cascade from dependencies. */
  ghost predicate NeedsBuild(fs: FileSystem, g: seq<Target>, t: nat, always: bool)
    requires t < |g| && ValidGraph(g)
  {
    always || exists j :: 0 <= j < |g[t].sources| && StaleAt(fs, g, t, j)
  }

  /** The staleness loop of cbuild_build_target_async: `build_needed |=` every source's test. */
  method CheckStaleness(fs: FileSystem, g: seq<Target>, t: nat, always: bool) returns (needed: bool)
    requires t < |g| && ValidGraph(g)
    ensures needed == NeedsBuild(fs, g, t, always)
  {
    needed := always;
    var srcs := g[t].sources;
    var i := 0;
    while i < |srcs|
      invariant 0 <= i <= |srcs|
      invariant needed == (always || exists j :: 0 <= j < i && StaleAt(fs, g, t, j))
    {
      needed := needed || StaleAt(fs, g, t, i);
      i := i + 1;
    }
  }

  /**
   * cbuild_build_target_async.  A target that needs work gets a child running
   * its command, and the pid (or -1) is returned with `is_built` untouched;
   * otherwise the target is marked built and 0 is returned.
   */
  method BuildTargetAsync(arena: Arena, t: nat, always: bool, os: Os) returns (pid: int)
    requires arena.Valid() && t < |arena.targets| && os.Valid()
    modifies arena, os
    ensures arena.Valid() && os.Valid()
    ensures os.fs == old(os.fs) && os.reaped == old(os.reaped)
    ensures NeedsBuild(old(os.fs), arena.targets, t, always) ==>
      && arena.isBuilt == old(arena.isBuilt) && (pid == -1 <==> !os.forkOk(|old(os.spawned)|))
      && (pid == -1 ==> os.forkFailed && os.live == old(os.live) && os.spawned == old(os.spawned))
      && (pid != -1 ==>
            && pid > 0 && pid !in old(os.live) && os.live == old(os.live) + {pid}
            && os.spawned == old(os.spawned) + [CommandLayout(arena.targets, t)]
            && os.forkFailed == old(os.forkFailed))
    ensures !NeedsBuild(old(os.fs), arena.targets, t, always) ==>
      && pid == 0 && arena.isBuilt == old(arena.isBuilt)[t := true]
      && os.live == old(os.live) && os.spawned == old(os.spawned) && os.forkFailed == old(os.forkFailed)
  {
    var needed := CheckStaleness(os.fs, arena.targets, t, always);
    if needed {
      var cmd := AssembleCommand(arena.targets, t);
      pid := os.Spawn(cmd.Args());
    } else {
      arena.isBuilt := arena.isBuilt[t := true];
      pid := 0;
    }
  }


  /** `error` is the last status reaped, every earlier one since the start was 0. */
  ghost predicate StatusLog(start: seq<int>, reaped: seq<int>, error: int) {
    && |start| <= |reaped| && reaped[..|start|] == start
    && (forall i :: |start| <= i < |reaped| - 1 ==> reaped[i] == 0)
    && error == (if |reaped| == |start| then 0 else reaped[|reaped| - 1])
  }

  /** Only reachable targets have changed their `is_built` flag. */
  ghost predicate OnlyReachableChanged(g: seq<Target>, root: nat, before: seq<bool>, after: seq<bool>)
    requires ValidGraph(g) && root < |g|
  {
    |after| == |before| && forall x :: 0 <= x < |before| && x !in Reachable(g, root) ==> after[x] == before[x]
  }

  /** The worklist and the running children only ever hold targets reachable from the root. */
  ghost predicate Confined(g: seq<Target>, root: nat, stack: seq<nat>, jobs: map<int, nat>)
    requires ValidGraph(g) && root < |g|
  {
    && (forall i :: 0 <= i < |stack| ==> stack[i] in Reachable(g, root) && stack[i] < |g|)
    && (forall p :: p in jobs ==> jobs[p] in Reachable(g, root) && jobs[p] < |g|)
  }

  /**
   * The progress argument while it applies (`onTrack`: the arena started with
   * nothing reachable built, some process may run, no fork has failed).  Once
   * the root has left the worklist it is built, or, between the launching of
   * children and the next reap, possibly still being built.
   */
  ghost predicate Sound(g: seq<Target>, root: nat, onTrack: bool, built: seq<bool>, stack: seq<nat>,
                        jobs: map<int, nat>, launching: bool)
  {
    onTrack ==>
      && Inv(g, root, built, stack, jobs)
      && (root !in stack ==> built[root] || (launching && root in Running(jobs)))
  }

  /**
   * What the main loop of cbuild_multiprocess_build_target keeps about the
   * values it changes, against the values it started from (`B0`, `log0`,
   * `spawned0`).  `fresh0` says the arena started with nothing reachable built.
   */
  ghost predicate Tracked(g: seq<Target>, root: nat, nbProcess: nat, B0: seq<bool>, log0: seq<int>,
                           spawned0: seq<Argv>, fresh0: bool, built: seq<bool>, stack: seq<nat>,
                           jobs: map<int, nat>, reaped: seq<int>, spawned: seq<Argv>, forkFailed: bool,
                           error: int, launching: bool)
  {
    && ValidGraph(g) && root < |g| && |built| == |g|
    && Confined(g, root, stack, jobs)
    && OnlyReachableChanged(g, root, B0, built)
    && StatusLog(log0, reaped, error)
    && (nbProcess == 0 ==> built == B0 && spawned == spawned0 && jobs == map[] && error == 0)
    && Sound(g, root, fresh0 && nbProcess >= 1 && !forkFailed, built, stack, jobs, launching)
  }

  lemma StatusLogStep(start: seq<int>, reaped: seq<int>, status: int)
    requires StatusLog(start, reaped, 0)
    ensures StatusLog(start, reaped + [status], status)
  {
    assert (reaped + [status])[..|start|] == reaped[..|start|];
  }

  /** Reaping the child `pid` marks its target built and drops it from the jobs. */
  lemma TrackedReap(g: seq<Target>, root: nat, nbProcess: nat, B0: seq<bool>, log0: seq<int>,
                     spawned0: seq<Argv>, fresh0: bool, built: seq<bool>, stack: seq<nat>,
                     jobs: map<int, nat>, reaped: seq<int>, spawned: seq<Argv>, forkFailed: bool,
                     pid: int, status: int, built': seq<bool>, jobs': map<int, nat>, reaped': seq<int>)
    requires Tracked(g, root, nbProcess, B0, log0, spawned0, fresh0, built, stack, jobs, reaped, spawned,
                      forkFailed, 0, true)
    requires pid in jobs && built' == built[jobs[pid] := true] && jobs' == jobs - {pid} && reaped' == reaped + [status]
    ensures Tracked(g, root, nbProcess, B0, log0, spawned0, fresh0, built', stack, jobs', reaped', spawned,
                    forkFailed, status, false)
  {
    if fresh0 && nbProcess >= 1 && !forkFailed {
      InvReap(g, root, built, stack, jobs, pid);
    }
    StatusLogStep(log0, reaped, status);
  }

  /** With no child left, a root off the worklist is built. */
  lemma TrackedIdle(g: seq<Target>, root: nat, nbProcess: nat, B0: seq<bool>, log0: seq<int>,
                     spawned0: seq<Argv>, fresh0: bool, built: seq<bool>, stack: seq<nat>,
                     reaped: seq<int>, spawned: seq<Argv>, forkFailed: bool)
    requires Tracked(g, root, nbProcess, B0, log0, spawned0, fresh0, built, stack, map[], reaped, spawned,
                      forkFailed, 0, true)
    ensures Tracked(g, root, nbProcess, B0, log0, spawned0, fresh0, built, stack, map[], reaped, spawned,
                     forkFailed, 0, false)
  {
    assert Running(map[]) == {};
  }

  /**
   * A target taken off the worklist at position `k` whose target `stack[j]`
   * needs no work is marked built.  While the progress argument applies the
   * two are the same ready target.
   */
  lemma TrackedPopBuilt(g: seq<Target>, root: nat, nbProcess: nat, B0: seq<bool>, log0: seq<int>,
                         spawned0: seq<Argv>, fresh0: bool, built: seq<bool>, stack: seq<nat>,
                         jobs: map<int, nat>, reaped: seq<int>, spawned: seq<Argv>, forkFailed: bool,
                         k: nat, j: nat)
    requires Tracked(g, root, nbProcess, B0, log0, spawned0, fresh0, built, stack, jobs, reaped, spawned,
                      forkFailed, 0, true)
    requires nbProcess >= 1 && k < |stack| && j < |stack|
    requires fresh0 && !forkFailed ==> j == k && Ready(g, built, stack[k])
    ensures Tracked(g, root, nbProcess, B0, log0, spawned0, fresh0, built[stack[j] := true], Without(stack, k),
                     jobs, reaped, spawned, forkFailed, 0, true)
  {
    WithoutElements(stack, k);
    if fresh0 && !forkFailed {
      InvPopBuilt(g, root, built, stack, jobs, k);
    }
  }

  /**
   * A target taken off the worklist at position `k` whose target `stack[j]`
   * is handed to the new child `pid` running `cmd`.
   */
  lemma TrackedPopSpawn(g: seq<Target>, root: nat, nbProcess: nat, B0: seq<bool>, log0: seq<int>,
                         spawned0: seq<Argv>, fresh0: bool, built: seq<bool>, stack: seq<nat>,
                         jobs: map<int, nat>, reaped: seq<int>, spawned: seq<Argv>, forkFailed: bool,
                         k: nat, j: nat, pid: int, cmd: Argv)
    requires Tracked(g, root, nbProcess, B0, log0, spawned0, fresh0, built, stack, jobs, reaped, spawned,
                      forkFailed, 0, true)
    requires nbProcess >= 1 && k < |stack| && j < |stack| && pid !in jobs
    requires fresh0 && !forkFailed ==> j == k && Ready(g, built, stack[k])
    ensures Tracked(g, root, nbProcess, B0, log0, spawned0, fresh0, built, Without(stack, k),
                     jobs[pid := stack[j]], reaped, spawned + [cmd], forkFailed, 0, true)
  {
    WithoutElements(stack, k);
    if fresh0 && !forkFailed {
      InvPopSpawn(g, root, built, stack, jobs, k, pid);
    }
  }

  /** A target taken off the worklist whose fork failed is lost; the progress argument no longer applies. */
  lemma TrackedForkFailed(g: seq<Target>, root: nat, nbProcess: nat, B0: seq<bool>, log0: seq<int>,
                           spawned0: seq<Argv>, fresh0: bool, built: seq<bool>, stack: seq<nat>,
                           jobs: map<int, nat>, reaped: seq<int>, spawned: seq<Argv>, forkFailed: bool, k: nat)
    requires Tracked(g, root, nbProcess, B0, log0, spawned0, fresh0, built, stack, jobs, reaped, spawned,
                      forkFailed, 0, true)
    requires nbProcess >= 1 && k < |stack|
    ensures Tracked(g, root, nbProcess, B0, log0, spawned0, fresh0, built, Without(stack, k),
                     jobs, reaped, spawned, true, 0, true)
  {
    WithoutElements(stack, k);
  }

  /** With the progress argument in force and no child running, nothing ready means nothing left. */
  lemma TrackedStuck(g: seq<Target>, root: nat, nbProcess: nat, B0: seq<bool>, log0: seq<int>,
                      spawned0: seq<Argv>, fresh0: bool, built: seq<bool>, stack: seq<nat>,
                      reaped: seq<int>, spawned: seq<Argv>, forkFailed: bool)
    requires Tracked(g, root, nbProcess, B0, log0, spawned0, fresh0, built, stack, map[], reaped, spawned,
                      forkFailed, 0, true)
    requires fresh0 && nbProcess >= 1 && !forkFailed
    requires FirstReadyIndex(g, built, stack) == |stack|
    ensures stack == []
  {
    if stack != [] {
      InvStuck(g, root, built, stack, map[]);
    }
  }

  /** At the end of the loop with the argument in force and an empty worklist, everything reachable is built. */
  lemma TrackedDone(g: seq<Target>, root: nat, nbProcess: nat, B0: seq<bool>, log0: seq<int>,
                     spawned0: seq<Argv>, fresh0: bool, built: seq<bool>, jobs: map<int, nat>,
                     reaped: seq<int>, spawned: seq<Argv>, forkFailed: bool, error: int)
    requires Tracked(g, root, nbProcess, B0, log0, spawned0, fresh0, built, [], jobs, reaped, spawned,
                      forkFailed, error, false)
    requires fresh0 && nbProcess >= 1 && !forkFailed
    ensures forall x :: x in Reachable(g, root) && x < |g| ==> built[x]
  {
  }

  /** What the status log says about the result and the statuses reaped. */
  lemma StatusLogOutcome(start: seq<int>, reaped: seq<int>, error: int)
    requires StatusLog(start, reaped, error)
    ensures start <= reaped
    ensures error != 0 <==> |reaped| > |start| && reaped[|reaped| - 1] != 0
    ensures forall i :: |start| <= i < |reaped| - 1 ==> reaped[i] == 0
  {
  }

  /**
   * What the `size` field of the table holds: the entry count in the
   * corrected table, and 0 as written, where nothing ever changes it.
   */
  ghost predicate SizeField(table: TargetMap, asWritten: bool)
    reads table
  {
    if asWritten then table.size == 0 else table.Counted()
  }

  /**
   * The objects of one parallel build and how they agree: `running` children,
   * one per table entry.  `asWritten` selects the worklist search, the set-up
   * and the table operations of the C code, or the corrected ones.
   */
  ghost predicate Machine(arena: Arena, sk: TargetStack, table: TargetMap, os: Os, running: nat, nbProcess: nat,
                          R0: set<object>, asWritten: bool)
    reads arena, sk, sk.Repr, table, table.items, os
  {
    && arena.Valid() && sk.Valid() && sk.Repr == R0
    && arena !in R0 && os !in R0 && table !in R0 && table.items !in R0
    && table.Valid() && SizeField(table, asWritten) && running == |table.contents|
    && table.capacity == nbProcess && running <= nbProcess
    && os.Valid() && os.live == table.contents.Keys
  }

  /**
   * cbuild_build_target_async on a target taken off the worklist, followed by
   * cbuild_target_map_insert when a child was started.
   */
  method StartTarget(arena: Arena, t: nat, always: bool, os: Os, table: TargetMap, asWritten: bool)
    returns (pid: int)
    requires arena.Valid() && t < |arena.targets|
    requires table.Valid() && SizeField(table, asWritten) && |table.contents| < table.capacity
    requires os.Valid() && os.live == table.contents.Keys
    modifies arena, os, table, table.items
    ensures arena.Valid() && table.Valid() && SizeField(table, asWritten)
    ensures os.Valid() && os.live == table.contents.Keys && os.reaped == old(os.reaped) && os.fs == old(os.fs)
    ensures table.items == old(table.items) && table.capacity == old(table.capacity)
    ensures pid == 0 <==> !NeedsBuild(old(os.fs), arena.targets, t, always)
    ensures pid == -1 <==> NeedsBuild(old(os.fs), arena.targets, t, always) && !os.forkOk(|old(os.spawned)|)
    ensures pid == -1 ==>
      && arena.isBuilt == old(arena.isBuilt) && table.contents == old(table.contents)
      && os.spawned == old(os.spawned) && os.forkFailed
    ensures pid == 0 ==>
      && arena.isBuilt == old(arena.isBuilt)[t := true] && table.contents == old(table.contents)
      && os.spawned == old(os.spawned) && os.forkFailed == old(os.forkFailed)
    ensures pid != -1 && pid != 0 ==>
      && arena.isBuilt == old(arena.isBuilt) && pid !in old(table.contents)
      && table.contents == old(table.contents)[pid := t]
      && os.spawned == old(os.spawned) + [CommandLayout(arena.targets, t)]
      && os.forkFailed == old(os.forkFailed)
  {
    pid := BuildTargetAsync(arena, t, always, os);
    assert table.Valid() && SizeField(table, asWritten);
    if pid > 0 {
      if asWritten {
        var _ := table.InsertAsWritten(pid, t);
      } else {
        var _ := table.Insert(pid, t);
      }
      assert arena.Valid() && os.Valid();
    }
  }

  /**
   * One turn of the inner loop of cbuild_multiprocess_build_target: unlink
   * the first ready item of the worklist (None when there is none, and then
   * nothing changes) and take the target the search hands back; if it needs
   * work, start a child for it and record the child in the table, otherwise
   * mark it built (pid 0).  A failed fork (pid -1) loses the target.
   */
  method LaunchOne(arena: Arena, always: bool, os: Os, sk: TargetStack, table: TargetMap, asWritten: bool)
    returns (next: Option<nat>, pid: int)
    requires arena.Valid() && sk.Valid() && OnArena(arena, sk.contents)
    requires arena !in sk.Repr && os !in sk.Repr && table !in sk.Repr && table.items !in sk.Repr
    requires table.Valid() && SizeField(table, asWritten) && |table.contents| < table.capacity
    requires os.Valid() && os.live == table.contents.Keys
    modifies arena, os, sk.Repr, table, table.items
    ensures arena.Valid() && sk.Valid() && sk.Repr == old(sk.Repr) && table.Valid() && SizeField(table, asWritten)
    ensures os.Valid() && os.live == table.contents.Keys && os.reaped == old(os.reaped) && os.fs == old(os.fs)
    ensures table.items == old(table.items) && table.capacity == old(table.capacity)
    ensures var xs, k := old(sk.contents), FirstReadyIndex(arena.targets, old(arena.isBuilt), old(sk.contents));
      k == |xs| ==>
        && next == None && sk.contents == xs && arena.isBuilt == old(arena.isBuilt)
        && table.contents == old(table.contents) && os.spawned == old(os.spawned)
        && os.forkFailed == old(os.forkFailed)
    ensures var xs, k := old(sk.contents), FirstReadyIndex(arena.targets, old(arena.isBuilt), old(sk.contents));
      k < |xs| ==>
        var u := Handed(xs, k, asWritten);
        && next == Some(u) && sk.contents == Without(xs, k)
        && (pid == 0 <==> !NeedsBuild(old(os.fs), arena.targets, u, always))
        && (pid == -1 <==> NeedsBuild(old(os.fs), arena.targets, u, always) && !os.forkOk(|old(os.spawned)|))
        && (pid == -1 ==>
              && arena.isBuilt == old(arena.isBuilt) && table.contents == old(table.contents)
              && os.spawned == old(os.spawned) && os.forkFailed)
        && (pid == 0 ==>
              && arena.isBuilt == old(arena.isBuilt)[u := true] && table.contents == old(table.contents)
              && os.spawned == old(os.spawned) && os.forkFailed == old(os.forkFailed))
        && (pid != -1 && pid != 0 ==>
              && arena.isBuilt == old(arena.isBuilt) && pid !in old(table.contents)
              && table.contents == old(table.contents)[pid := u]
              && os.spawned == old(os.spawned) + [CommandLayout(arena.targets, u)]
              && os.forkFailed == old(os.forkFailed))
  {
    ghost var xs, k := sk.contents, FirstReadyIndex(arena.targets, arena.isBuilt, sk.contents);
    var found;
    found, next := sk.Unlink(arena, asWritten);
    if next == None {
      pid := 0;
      return;
    }
    assert k < |xs| && next.value == Handed(xs, k, asWritten) && sk.contents == Without(xs, k);
    pid := StartTarget(arena, next.value, always, os, table, asWritten);
    assert sk.Valid();
  }

  /** One turn of the inner loop with the bookkeeping of the main loop carried across it. */
  method LaunchStep(arena: Arena, root: nat, always: bool, nbProcess: nat, os: Os, sk: TargetStack,
                    table: TargetMap, count: nat, asWritten: bool, ghost R0: set<object>, ghost B0: seq<bool>,
                    ghost log0: seq<int>, ghost spawned0: seq<Argv>, ghost fresh0: bool)
    returns (next: Option<nat>, pid: int, count': nat)
    requires Machine(arena, sk, table, os, count, nbProcess, R0, asWritten) && count < nbProcess
    requires asWritten ==> !fresh0
    requires Tracked(arena.targets, root, nbProcess, B0, log0, spawned0, fresh0, arena.isBuilt, sk.contents,
                     table.contents, os.reaped, os.spawned, os.forkFailed, 0, true)
    modifies arena, os, sk.Repr, table, table.items
    ensures Machine(arena, sk, table, os, count', nbProcess, R0, asWritten)
    ensures count' == if next != None && pid != -1 && pid != 0 then count + 1 else count
    ensures table.items == old(table.items)
    ensures Tracked(arena.targets, root, nbProcess, B0, log0, spawned0, fresh0, arena.isBuilt, sk.contents,
                    table.contents, os.reaped, os.spawned, os.forkFailed, 0, true)
    ensures next == None ==> sk.contents == old(sk.contents)
    ensures next == None ==> fresh0 && nbProcess >= 1 && !os.forkFailed && count == 0 ==> sk.contents == []
    ensures next != None ==> |sk.contents| == old(|sk.contents|) - 1
    ensures next != None && pid == -1 ==> os.forkFailed
  {
    ghost var g := arena.targets;
    ghost var stack := sk.contents;
    ghost var built := arena.isBuilt;
    ghost var jobs := table.contents;
    ghost var spawned := os.spawned;
    ghost var failed := os.forkFailed;
    ghost var k := FirstReadyIndex(g, built, stack);
    next, pid := LaunchOne(arena, always, os, sk, table, asWritten);
    count' := count;
    if next == None {
      if fresh0 && !os.forkFailed && count == 0 {
        TrackedStuck(g, root, nbProcess, B0, log0, spawned0, fresh0, built, stack, os.reaped, spawned, failed);
      }
      return;
    }
    ghost var j := if asWritten && k > 0 then k - 1 else k;
    assert stack[j] == Handed(stack, k, asWritten);
    if pid == -1 {
      TrackedForkFailed(g, root, nbProcess, B0, log0, spawned0, fresh0, built, stack, jobs, os.reaped,
                        spawned, failed, k);
    } else if pid == 0 {
      TrackedPopBuilt(g, root, nbProcess, B0, log0, spawned0, fresh0, built, stack, jobs, os.reaped,
                      spawned, failed, k, j);
    } else {
      TrackedPopSpawn(g, root, nbProcess, B0, log0, spawned0, fresh0, built, stack, jobs, os.reaped,
                      spawned, failed, k, j, pid, CommandLayout(g, stack[j]));
      count' := count + 1;
    }
  }

  /**
   * The inner loop of cbuild_multiprocess_build_target: while fewer than
   * `nbProcess` children run, launch the next ready target.  It stops when
   * nothing is ready or a fork fails.  With the progress argument in force, it
   * leaves no child running only when the worklist is empty.
   */
  method LaunchReady(arena: Arena, root: nat, always: bool, nbProcess: nat, os: Os, sk: TargetStack,
                     table: TargetMap, running: nat, asWritten: bool, ghost R0: set<object>, ghost B0: seq<bool>,
                     ghost log0: seq<int>, ghost spawned0: seq<Argv>, ghost fresh0: bool)
    returns (count: nat)
    requires Machine(arena, sk, table, os, running, nbProcess, R0, asWritten)
    requires asWritten ==> !fresh0
    requires Tracked(arena.targets, root, nbProcess, B0, log0, spawned0, fresh0, arena.isBuilt, sk.contents,
                     table.contents, os.reaped, os.spawned, os.forkFailed, 0, true)
    modifies arena, os, sk.Repr, table, table.items
    ensures Machine(arena, sk, table, os, count, nbProcess, R0, asWritten) && table.items == old(table.items)
    ensures Tracked(arena.targets, root, nbProcess, B0, log0, spawned0, fresh0, arena.isBuilt, sk.contents,
                    table.contents, os.reaped, os.spawned, os.forkFailed, 0, true)
    ensures 2 * |sk.contents| + count <= 2 * old(|sk.contents|) + running
    ensures fresh0 && nbProcess >= 1 && !os.forkFailed && count == 0 ==> sk.contents == []
  {
    count := running;
    while count < nbProcess
      invariant Machine(arena, sk, table, os, count, nbProcess, R0, asWritten) && table.items == old(table.items)
      invariant Tracked(arena.targets, root, nbProcess, B0, log0, spawned0, fresh0, arena.isBuilt, sk.contents,
                        table.contents, os.reaped, os.spawned, os.forkFailed, 0, true)
      invariant 2 * |sk.contents| + count <= 2 * old(|sk.contents|) + running
      decreases |sk.contents|
    {
      var next, pid, count' := LaunchStep(arena, root, always, nbProcess, os, sk, table, count, asWritten, R0, B0,
                                          log0, spawned0, fresh0);
      if next == None || pid == -1 {
        break;
      }
      count := count';
    }
  }

  /**
   * The reaping step of cbuild_multiprocess_build_target: wait for any child;
   * with none, report -1 and change nothing; otherwise mark the child's
   * target `t` built and drop the child from the table.
   */
  method ReapChild(arena: Arena, os: Os, table: TargetMap, asWritten: bool) returns (pid: int, status: int, ghost t: nat)
    requires arena.Valid() && table.Valid() && SizeField(table, asWritten) && os.Valid()
    requires os.live == table.contents.Keys
    requires forall p :: p in table.contents ==> table.contents[p] < |arena.isBuilt|
    modifies arena, os, table, table.items
    ensures arena.Valid() && table.Valid() && SizeField(table, asWritten) && os.Valid()
    ensures os.live == table.contents.Keys
    ensures table.items == old(table.items) && table.capacity == old(table.capacity)
    ensures os.spawned == old(os.spawned) && os.forkFailed == old(os.forkFailed)
    ensures pid == -1 ==>
      && old(table.contents) == map[] && table.contents == map[]
      && arena.isBuilt == old(arena.isBuilt) && os.reaped == old(os.reaped)
    ensures pid != -1 ==>
      && pid in old(table.contents) && t == old(table.contents)[pid]
      && table.contents == old(table.contents) - {pid} && status == os.exitCode(pid) % 256
      && arena.isBuilt == old(arena.isBuilt)[t := true] && os.reaped == old(os.reaped) + [status]
  {
    ghost var jobs := table.contents;
    pid, status := os.Wait();
    if pid == -1 {
      assert jobs == map[];
      t := 0;
      return;
    }
    t := Retire(arena, table, pid, asWritten);
  }

  /** After `waitpid` returned `pid`: look up its target, mark it built, and drop the entry. */
  method Retire(arena: Arena, table: TargetMap, pid: int, asWritten: bool) returns (ghost t: nat)
    requires arena.Valid() && table.Valid() && SizeField(table, asWritten) && pid in table.contents
    requires table.contents[pid] < |arena.isBuilt|
    modifies arena, table, table.items
    ensures arena.Valid() && table.Valid() && SizeField(table, asWritten)
    ensures table.items == old(table.items) && table.capacity == old(table.capacity)
    ensures t == old(table.contents)[pid] && table.contents == old(table.contents) - {pid}
    ensures arena.isBuilt == old(arena.isBuilt)[t := true]
  {
    var target := table.Get(pid);
    t := target;
    arena.isBuilt := arena.isBuilt[target := true];
    if asWritten {
      assert |table.contents| <= table.capacity;
      var _ := table.RemoveAsWritten(pid);
    } else {
      var _ := table.Remove(pid);
    }
  }

  /** The reaping step with the bookkeeping of the main loop carried across it. */
  method ReapStep(arena: Arena, root: nat, nbProcess: nat, os: Os, sk: TargetStack, table: TargetMap,
                  running: nat, asWritten: bool, ghost R0: set<object>, ghost B0: seq<bool>, ghost log0: seq<int>,
                  ghost spawned0: seq<Argv>, ghost fresh0: bool)
    returns (pid: int, status: int)
    requires Machine(arena, sk, table, os, running, nbProcess, R0, asWritten)
    requires Tracked(arena.targets, root, nbProcess, B0, log0, spawned0, fresh0, arena.isBuilt, sk.contents,
                     table.contents, os.reaped, os.spawned, os.forkFailed, 0, true)
    modifies arena, os, table, table.items
    ensures table.items == old(table.items) && os.forkFailed == old(os.forkFailed)
    ensures pid == -1 ==>
      && running == 0 && Machine(arena, sk, table, os, running, nbProcess, R0, asWritten)
      && Tracked(arena.targets, root, nbProcess, B0, log0, spawned0, fresh0, arena.isBuilt, sk.contents,
                 table.contents, os.reaped, os.spawned, os.forkFailed, 0, false)
    ensures pid != -1 ==>
      && running > 0 && Machine(arena, sk, table, os, running - 1, nbProcess, R0, asWritten)
      && Tracked(arena.targets, root, nbProcess, B0, log0, spawned0, fresh0, arena.isBuilt, sk.contents,
                 table.contents, os.reaped, os.spawned, os.forkFailed, status, false)
  {
    ghost var g := arena.targets;
    ghost var built := arena.isBuilt;
    ghost var jobs := table.contents;
    ghost var reaped := os.reaped;
    ghost var t;
    pid, status, t := ReapChild(arena, os, table, asWritten);
    assert sk.Valid();
    if pid == -1 {
      TrackedIdle(g, root, nbProcess, B0, log0, spawned0, fresh0, built, sk.contents, reaped, os.spawned,
                  os.forkFailed);
      return;
    }
    TrackedReap(g, root, nbProcess, B0, log0, spawned0, fresh0, built, sk.contents, jobs, reaped, os.spawned,
                os.forkFailed, pid, status, arena.isBuilt, table.contents, os.reaped);
  }

  /** No target reachable from the root is built. */
  ghost predicate NoneBuilt(g: seq<Target>, root: nat, built: seq<bool>)
    requires ValidGraph(g) && root < |g| && |built| == |g|
  {
    forall x :: x in Reachable(g, root) && x < |g| ==> !built[x]
  }

  /** Every target reachable from the root is built. */
  ghost predicate AllBuilt(g: seq<Target>, root: nat, built: seq<bool>)
    requires ValidGraph(g) && root < |g| && |built| == |g|
  {
    forall x :: x in Reachable(g, root) && x < |g| ==> built[x]
  }

  /** What the main loop leaves behind, restated for its caller. */
  lemma TrackedOutcome(g: seq<Target>, root: nat, nbProcess: nat, B0: seq<bool>, log0: seq<int>,
                       spawned0: seq<Argv>, fresh0: bool, built: seq<bool>, stack: seq<nat>, jobs: map<int, nat>,
                       reaped: seq<int>, spawned: seq<Argv>, forkFailed: bool, error: int)
    requires ValidGraph(g) && root < |g| && |B0| == |g|
    requires Tracked(g, root, nbProcess, B0, log0, spawned0, fresh0, built, stack, jobs, reaped,
                     spawned, forkFailed, error, false)
    requires fresh0 && nbProcess >= 1 && !forkFailed && error == 0 ==> stack == []
    ensures log0 <= reaped
    ensures error != 0 <==> |reaped| > |log0| && reaped[|reaped| - 1] != 0
    ensures forall i :: |log0| <= i < |reaped| - 1 ==> reaped[i] == 0
    ensures OnlyReachableChanged(g, root, B0, built)
    ensures nbProcess == 0 ==> error == 0 && built == B0 && spawned == spawned0
    ensures fresh0 && nbProcess >= 1 && !forkFailed && error == 0 ==> AllBuilt(g, root, built)
  {
    StatusLogOutcome(log0, reaped, error);
  }

  /**
   * The set-up of cbuild_multiprocess_build_target: the worklist of the root
   * and an empty table of `nbProcess` slots.  As written the worklist holds a
   * target once per path to it; the corrected set-up holds each reachable
   * target once, and only then does the progress argument apply.
   */
  method SetUp(arena: Arena, root: nat, nbProcess: nat, os: Os, asWritten: bool)
    returns (sk: TargetStack, table: TargetMap)
    requires arena.Valid() && root < |arena.targets| && os.Valid() && os.live == {}
    ensures fresh(sk.Repr) && fresh(table) && fresh(table.items)
    ensures sk.contents == if asWritten then StackOrder(arena.targets, root) else OnceOrder(arena.targets, root, [])
    ensures Machine(arena, sk, table, os, 0, nbProcess, sk.Repr, asWritten)
    ensures Tracked(arena.targets, root, nbProcess, arena.isBuilt, os.reaped, os.spawned,
                    !asWritten && NoneBuilt(arena.targets, root, arena.isBuilt), arena.isBuilt, sk.contents,
                    table.contents, os.reaped, os.spawned, os.forkFailed, 0, false)
  {
    ghost var g := arena.targets;
    sk := new TargetStack();
    if asWritten {
      SetupTargetStack(arena.targets, root, sk);
      StackOrderElems(g, root);
      assert sk.contents == StackOrder(g, root) + [];
    } else {
      SetupTargetStackOnce(arena.targets, root, sk);
      OnceOrderElems(g, root, []);
      if NoneBuilt(g, root, arena.isBuilt) {
        InvInit(g, root, arena.isBuilt);
      }
    }
    ReachableBounded(g, root);
    table := new TargetMap(nbProcess);
  }

  /** The main loop of cbuild_multiprocess_build_target, from the state right after set-up. */
  method RunLoop(arena: Arena, root: nat, always: bool, nbProcess: nat, os: Os, sk: TargetStack, table: TargetMap,
                 asWritten: bool, ghost B0: seq<bool>, ghost log0: seq<int>, ghost spawned0: seq<Argv>,
                 ghost fresh0: bool)
    returns (error: int)
    requires Machine(arena, sk, table, os, 0, nbProcess, sk.Repr, asWritten)
    requires root < |arena.targets| && |B0| == |arena.targets| && (asWritten ==> !fresh0)
    requires Tracked(arena.targets, root, nbProcess, B0, log0, spawned0, fresh0,
                     arena.isBuilt, sk.contents, table.contents, os.reaped, os.spawned, os.forkFailed, 0, false)
    modifies arena, os, sk.Repr, table, table.items
    ensures arena.Valid() && os.Valid()
    ensures Tracked(arena.targets, root, nbProcess, B0, log0, spawned0, fresh0,
                    arena.isBuilt, sk.contents, table.contents, os.reaped, os.spawned, os.forkFailed, error, false)
    ensures fresh0 && nbProcess >= 1 && !os.forkFailed && error == 0 ==> sk.contents == []
  {
    ghost var R0 := sk.Repr;
    var running: nat := 0;
    error := 0;
    while sk.head != null && error == 0
      invariant Machine(arena, sk, table, os, running, nbProcess, R0, asWritten) && table.items == old(table.items)
      invariant Tracked(arena.targets, root, nbProcess, B0, log0, spawned0, fresh0, arena.isBuilt, sk.contents,
                        table.contents, os.reaped, os.spawned, os.forkFailed, error, false)
      decreases 2 * |sk.contents| + running
    {
      running := LaunchReady(arena, root, always, nbProcess, os, sk, table, running, asWritten, R0, B0, log0,
                             spawned0, fresh0);
      var pid, status := ReapStep(arena, root, nbProcess, os, sk, table, running, asWritten, R0, B0, log0,
                                  spawned0, fresh0);
      if pid == -1 {
        break;
      }
      running := running - 1;
      error := status;
    }
  }

  /**
   * The main loop and the result `error != 0`, stated against the flags,
   * statuses and commands the run started from.
   */
  method RunAndReport(arena: Arena, root: nat, always: bool, nbProcess: nat, os: Os, sk: TargetStack,
                      table: TargetMap, asWritten: bool, ghost B0: seq<bool>, ghost log0: seq<int>,
                      ghost spawned0: seq<Argv>, ghost fresh0: bool)
    returns (r: int)
    requires Machine(arena, sk, table, os, 0, nbProcess, sk.Repr, asWritten)
    requires root < |arena.targets| && |B0| == |arena.targets| && (asWritten ==> !fresh0)
    requires Tracked(arena.targets, root, nbProcess, B0, log0, spawned0, fresh0,
                     arena.isBuilt, sk.contents, table.contents, os.reaped, os.spawned, os.forkFailed, 0, false)
    modifies arena, os, sk.Repr, table, table.items
    ensures arena.Valid() && os.Valid() && log0 <= os.reaped && (r == 0 || r == 1)
    ensures r == 1 <==> |os.reaped| > |log0| && os.reaped[|os.reaped| - 1] != 0
    ensures forall i :: |log0| <= i < |os.reaped| - 1 ==> os.reaped[i] == 0
    ensures OnlyReachableChanged(arena.targets, root, B0, arena.isBuilt)
    ensures nbProcess == 0 ==> r == 0 && arena.isBuilt == B0 && os.spawned == spawned0
    ensures fresh0 && nbProcess >= 1 && !os.forkFailed && r == 0 ==> AllBuilt(arena.targets, root, arena.isBuilt)
  {
    var error := RunLoop(arena, root, always, nbProcess, os, sk, table, asWritten, B0, log0, spawned0, fresh0);
    TrackedOutcome(arena.targets, root, nbProcess, B0, log0, spawned0, fresh0,
                   arena.isBuilt, sk.contents, table.contents, os.reaped, os.spawned, os.forkFailed, error);
    r := if error != 0 then 1 else 0;
  }

  /**
   * cbuild_multiprocess_build_target as written.  Up to `nbProcess` children
   * run at once; the loop stops at the first non-zero exit status, when the
   * worklist is empty, or when `waitpid` finds no child.  The result is 1
   * exactly when the last child reaped failed, every child reaped before it
   * exited with 0, and only targets reachable from the root change.  Nothing
   * promises that they are all built: LostTargets is a run that returns 0
   * with three of them never built.
   */
  method MultiprocessBuildTarget(arena: Arena, root: nat, always: bool, nbProcess: nat, os: Os) returns (r: int)
    requires arena.Valid() && root < |arena.targets| && os.Valid() && os.live == {}
    modifies arena, os
    ensures arena.Valid() && os.Valid()
    ensures old(os.reaped) <= os.reaped
    ensures r == 0 || r == 1
    ensures r == 1 <==> |os.reaped| > |old(os.reaped)| && os.reaped[|os.reaped| - 1] != 0
    ensures forall i :: |old(os.reaped)| <= i < |os.reaped| - 1 ==> os.reaped[i] == 0
    ensures OnlyReachableChanged(arena.targets, root, old(arena.isBuilt), arena.isBuilt)
    ensures nbProcess == 0 ==> r == 0 && arena.isBuilt == old(arena.isBuilt) && os.spawned == old(os.spawned)
  {
    var sk, table := SetUp(arena, root, nbProcess, os, true);
    r := RunAndReport(arena, root, always, nbProcess, os, sk, table, true, old(arena.isBuilt), old(os.reaped),
                      old(os.spawned), false);
  }

  /**
   * cbuild_multiprocess_build_target over the corrected worklist search, the
   * deduplicated set-up and the counting table.  Besides what the code as
   * written keeps, when no fork fails and nothing reachable was built before,
   * a result of 0 means every target reachable from the root is built.
   */
  method MultiprocessBuildTargetCorrected(arena: Arena, root: nat, always: bool, nbProcess: nat, os: Os)
    returns (r: int)
    requires arena.Valid() && root < |arena.targets| && os.Valid() && os.live == {}
    modifies arena, os
    ensures arena.Valid() && os.Valid()
    ensures old(os.reaped) <= os.reaped
    ensures r == 0 || r == 1
    ensures r == 1 <==> |os.reaped| > |old(os.reaped)| && os.reaped[|os.reaped| - 1] != 0
    ensures forall i :: |old(os.reaped)| <= i < |os.reaped| - 1 ==> os.reaped[i] == 0
    ensures OnlyReachableChanged(arena.targets, root, old(arena.isBuilt), arena.isBuilt)
    ensures nbProcess == 0 ==> r == 0 && arena.isBuilt == old(arena.isBuilt) && os.spawned == old(os.spawned)
    ensures NoneBuilt(arena.targets, root, old(arena.isBuilt)) && nbProcess >= 1 && !os.forkFailed && r == 0
            ==> AllBuilt(arena.targets, root, arena.isBuilt)
  {
    var sk, table := SetUp(arena, root, nbProcess, os, false);
    r := RunAndReport(arena, root, always, nbProcess, os, sk, table, false, old(arena.isBuilt), old(os.reaped),
                      old(os.spawned), NoneBuilt(arena.targets, root, old(arena.isBuilt)));
  }

  /** The files before the run of LostTargets: the two C files exist, no object file does. */
  function SourcesOnly(): (fs: FileSystem)
    ensures "b1.c" in fs && "b1.o" !in fs && "a1.o" !in fs
  {
    map["a1.c" := Timespec(1, 0), "b1.c" := Timespec(1, 0)]
  }

  /** `b1.o` is missing, so it is stale; `b.o` depends on `b1.o`, which cannot be read, so it is not. */
  lemma SourcesOnlyStaleness()
    ensures NeedsBuild(SourcesOnly(), TwoChains(), 1, false)
    ensures !NeedsBuild(SourcesOnly(), TwoChains(), 3, false)
  {
    var g := TwoChains();
    assert g[1].sources == [FileSource("b1.c", true)] && g[1].targetFile == "b1.o";
    assert StaleAt(SourcesOnly(), g, 1, 0);
    assert g[3].sources == [TargetSource(1, true)] && SourcePath(g, g[3].sources[0]) == "b1.o";
  }

  /** A turn of the inner loop that hands a stale target to a child whose fork succeeds. */
  method LaunchSpawn(arena: Arena, always: bool, os: Os, sk: TargetStack, table: TargetMap, running: nat,
                     nbProcess: nat, ghost R0: set<object>, asWritten: bool, ghost k: nat, ghost u: nat)
    returns (pid: int)
    requires Machine(arena, sk, table, os, running, nbProcess, R0, asWritten) && running < nbProcess
    requires OnArena(arena, sk.contents)
    requires k == FirstReadyIndex(arena.targets, arena.isBuilt, sk.contents) && k < |sk.contents|
    requires u == Handed(sk.contents, k, asWritten) && u < |arena.targets|
    requires NeedsBuild(os.fs, arena.targets, u, always) && os.forkOk(|os.spawned|)
    modifies arena, os, sk.Repr, table, table.items
    ensures Machine(arena, sk, table, os, running + 1, nbProcess, R0, asWritten) && OnArena(arena, sk.contents)
    ensures table.items == old(table.items) && os.fs == old(os.fs)
    ensures sk.contents == Without(old(sk.contents), k) && arena.isBuilt == old(arena.isBuilt)
    ensures pid !in old(table.contents) && table.contents == old(table.contents)[pid := u]
  {
    var next;
    next, pid := LaunchOne(arena, always, os, sk, table, asWritten);
  }

  /** A turn of the inner loop that marks a target needing no work built. */
  method LaunchBuilt(arena: Arena, always: bool, os: Os, sk: TargetStack, table: TargetMap, running: nat,
                     nbProcess: nat, ghost R0: set<object>, asWritten: bool, ghost k: nat, ghost u: nat)
    requires Machine(arena, sk, table, os, running, nbProcess, R0, asWritten) && running < nbProcess
    requires OnArena(arena, sk.contents)
    requires k == FirstReadyIndex(arena.targets, arena.isBuilt, sk.contents) && k < |sk.contents|
    requires u == Handed(sk.contents, k, asWritten) && u < |arena.targets|
    requires !NeedsBuild(os.fs, arena.targets, u, always)
    modifies arena, os, sk.Repr, table, table.items
    ensures Machine(arena, sk, table, os, running, nbProcess, R0, asWritten) && OnArena(arena, sk.contents)
    ensures table.items == old(table.items) && os.fs == old(os.fs)
    ensures sk.contents == Without(old(sk.contents), k) && arena.isBuilt == old(arena.isBuilt)[u := true]
    ensures table.contents == old(table.contents)
  {
    var next, pid := LaunchOne(arena, always, os, sk, table, asWritten);
  }

  /** A turn of the inner loop that hands any target out: a child starts for it, or it is marked built. */
  method LaunchAny(arena: Arena, always: bool, os: Os, sk: TargetStack, table: TargetMap, running: nat,
                   nbProcess: nat, ghost R0: set<object>, asWritten: bool, ghost k: nat, ghost u: nat)
    returns (pid: int)
    requires Machine(arena, sk, table, os, running, nbProcess, R0, asWritten) && running < nbProcess
    requires OnArena(arena, sk.contents)
    requires k == FirstReadyIndex(arena.targets, arena.isBuilt, sk.contents) && k < |sk.contents|
    requires u == Handed(sk.contents, k, asWritten) && u < |arena.targets| && os.forkOk(|os.spawned|)
    modifies arena, os, sk.Repr, table, table.items
    ensures pid != -1 && table.items == old(table.items) && sk.contents == Without(old(sk.contents), k)
    ensures OnArena(arena, sk.contents)
    ensures pid == 0 ==>
      && Machine(arena, sk, table, os, running, nbProcess, R0, asWritten)
      && arena.isBuilt == old(arena.isBuilt)[u := true] && table.contents == old(table.contents)
    ensures pid != 0 ==>
      && Machine(arena, sk, table, os, running + 1, nbProcess, R0, asWritten)
      && arena.isBuilt == old(arena.isBuilt) && table.contents == old(table.contents)[pid := u]
  {
    var next;
    next, pid := LaunchOne(arena, always, os, sk, table, asWritten);
  }

  /** A turn of the inner loop that finds nothing ready and changes nothing. */
  method LaunchNone(arena: Arena, always: bool, os: Os, sk: TargetStack, table: TargetMap, running: nat,
                    nbProcess: nat, ghost R0: set<object>, asWritten: bool)
    requires Machine(arena, sk, table, os, running, nbProcess, R0, asWritten) && running < nbProcess
    requires OnArena(arena, sk.contents)
    requires FirstReadyIndex(arena.targets, arena.isBuilt, sk.contents) == |sk.contents|
    modifies arena, os, sk.Repr, table, table.items
    ensures Machine(arena, sk, table, os, running, nbProcess, R0, asWritten) && OnArena(arena, sk.contents)
    ensures table.items == old(table.items) && os.fs == old(os.fs)
    ensures sk.contents == old(sk.contents) && arena.isBuilt == old(arena.isBuilt)
    ensures table.contents == old(table.contents)
  {
    var next, pid := LaunchOne(arena, always, os, sk, table, asWritten);
  }

  /** The reaping step with one child running: it is the child `waitpid` returns. */
  method ReapOnly(arena: Arena, os: Os, sk: TargetStack, table: TargetMap, nbProcess: nat,
                  ghost R0: set<object>, asWritten: bool, ghost p: int, ghost u: nat)
    returns (status: int)
    requires Machine(arena, sk, table, os, 1, nbProcess, R0, asWritten) && table.contents == map[p := u]
    requires u < |arena.isBuilt| && OnArena(arena, sk.contents)
    modifies arena, os, table, table.items
    ensures Machine(arena, sk, table, os, 0, nbProcess, R0, asWritten) && OnArena(arena, sk.contents)
    ensures table.items == old(table.items) && table.contents == map[]
    ensures sk.contents == old(sk.contents) && arena.isBuilt == old(arena.isBuilt)[u := true]
    ensures status == os.exitCode(p) % 256
  {
    var pid;
    ghost var t;
    pid, status, t := ReapChild(arena, os, table, asWritten);
  }

  /** The reaping step with no child running: `waitpid` returns -1. */
  method ReapNone(arena: Arena, os: Os, sk: TargetStack, table: TargetMap, nbProcess: nat,
                  ghost R0: set<object>, asWritten: bool)
    returns (pid: int)
    requires Machine(arena, sk, table, os, 0, nbProcess, R0, asWritten)
    modifies arena, os, table, table.items
    ensures pid == -1 && sk.contents == old(sk.contents) && arena.isBuilt == old(arena.isBuilt)
  {
    var status;
    ghost var t;
    pid, status, t := ReapChild(arena, os, table, asWritten);
  }

  /**
   * What the run of LostTargets meets, in terms of the first worklist `xs`
   * and flags `B`: the head is ready and stale; the target handed out next,
   * past the head, is not stale; nothing is ready after that until the first
   * child is reaped, and then only the head once more.
   */
  ghost predicate LostSchedule(g: seq<Target>, fs: FileSystem, xs: seq<nat>, B: seq<bool>)
  {
    && ValidGraph(g) && |B| == |g| && |xs| == 5 && (forall i :: 0 <= i < |xs| ==> xs[i] < |g|)
    && var xs1 := Without(xs, 0);
       var xs2 := Without(xs1, 1);
       var B2 := B[xs1[0] := true][xs[0] := true];
       && FirstReadyIndex(g, B, xs) == 0 && NeedsBuild(fs, g, xs[0], false)
       && FirstReadyIndex(g, B, xs1) == 1 && !NeedsBuild(fs, g, xs1[0], false)
       && FirstReadyIndex(g, B[xs1[0] := true], xs2) == |xs2|
       && LostRest(g, B2, xs2)
  }

  /** What the turns after the first meet: the head is ready and built already, and nothing below it is ready. */
  ghost predicate LostRest(g: seq<Target>, B: seq<bool>, xs: seq<nat>)
  {
    && ValidGraph(g) && |B| == |g| && |xs| >= 2 && (forall i :: 0 <= i < |xs| ==> xs[i] < |g|)
    && FirstReadyIndex(g, B, xs) == 0 && B[xs[0]]
    && FirstReadyIndex(g, B, Without(xs, 0)) == |Without(xs, 0)|
  }

  lemma LostRestHolds()
    ensures LostRest(TwoChains(), [false, true, false, true, false], [3, 2, 4])
  {
    TwoChainsWaiting();
    assert Without([3, 2, 4], 0) == [2, 4];
  }

  /** The first search takes the ready, stale head `b1.o`. */
  lemma LostHead()
    ensures var g, xs, B := TwoChains(), [1, 3, 0, 2, 4], [false, false, false, false, false];
      FirstReadyIndex(g, B, xs) == 0 && NeedsBuild(SourcesOnly(), g, xs[0], false)
  {
    SourcesOnlyStaleness();
    TwoChainsLeafReady();
  }

  /** The second search unlinks `a1.o` at position 1 and hands back `b.o`, which is not stale. */
  lemma LostSecond()
    ensures var g, xs, B := TwoChains(), [1, 3, 0, 2, 4], [false, false, false, false, false];
      FirstReadyIndex(g, B, Without(xs, 0)) == 1 && !NeedsBuild(SourcesOnly(), g, Without(xs, 0)[0], false)
  {
    assert Without([1, 3, 0, 2, 4], 0) == [3, 0, 2, 4];
    SourcesOnlyStaleness();
    TwoChainsFirstReady();
  }

  /** With `b.o` marked built, none of `b.o`, `a.o`, `app` is ready. */
  lemma LostThird()
    ensures var g, xs, B := TwoChains(), [1, 3, 0, 2, 4], [false, false, false, false, false];
      FirstReadyIndex(g, B[Without(xs, 0)[0] := true], Without(Without(xs, 0), 1))
        == |Without(Without(xs, 0), 1)|
  {
    assert Without([1, 3, 0, 2, 4], 0) == [3, 0, 2, 4];
    assert Without([3, 0, 2, 4], 1) == [3, 2, 4];
    assert [false, false, false, false, false][3 := true] == [false, false, false, true, false];
    TwoChainsWaiting();
  }

  /** Once `b1.o` is reaped, the turns after the first meet LostRest. */
  lemma LostAfterReap()
    ensures var g, xs, B := TwoChains(), [1, 3, 0, 2, 4], [false, false, false, false, false];
      LostRest(g, B[Without(xs, 0)[0] := true][xs[0] := true], Without(Without(xs, 0), 1))
  {
    assert Without([1, 3, 0, 2, 4], 0) == [3, 0, 2, 4];
    assert Without([3, 0, 2, 4], 1) == [3, 2, 4];
    assert [false, false, false, false, false][3 := true][1 := true] == [false, true, false, true, false];
    LostRestHolds();
  }

  /** The first worklist names targets of the arena. */
  lemma LostBounds()
    ensures var g, xs := TwoChains(), [1, 3, 0, 2, 4];
      ValidGraph(g) && |g| == 5 && forall i :: 0 <= i < |xs| ==> xs[i] < |g|
  {
  }

  lemma LostScheduleHolds()
    ensures LostSchedule(TwoChains(), SourcesOnly(), [1, 3, 0, 2, 4], [false, false, false, false, false])
  {
    LostBounds();
    LostHead();
    LostSecond();
    LostThird();
    LostAfterReap();
  }

  /** Where the run ends: `a.o` and `app` left on the worklist, `b1.o` and `b.o` built. */
  lemma LostEnd()
    ensures var xs, B := [1, 3, 0, 2, 4], [false, false, false, false, false];
      && Without(Without(Without(xs, 0), 1), 0) == [2, 4]
      && B[Without(xs, 0)[0] := true][xs[0] := true] == [false, true, false, true, false]
  {
    assert Without([1, 3, 0, 2, 4], 0) == [3, 0, 2, 4];
    assert Without([3, 0, 2, 4], 1) == [3, 2, 4];
    assert Without([3, 2, 4], 0) == [2, 4];
  }

  /** The run's fixed behaviour of the operating system: every fork succeeds and every child exits with 0. */
  ghost predicate AllSucceed(os: Os) {
    (forall n :: os.forkOk(n)) && (forall p :: os.exitCode(p) == 0)
  }

  /** A child that exits with 0 reports status 0. */
  lemma ExitZero(code: int, status: int)
    requires code == 0 && status == code % 256
    ensures status == 0
  {
  }

  /**
   * The launches of the first turn of the main loop as written: the head is
   * handed to a child; the next search unlinks the ready item below the head
   * but hands back the head, which is not stale and is marked built.
   */
  method LostLaunches(arena: Arena, sk: TargetStack, table: TargetMap, os: Os, ghost R0: set<object>)
    returns (pid: int)
    requires Machine(arena, sk, table, os, 0, 2, R0, true) && OnArena(arena, sk.contents) && AllSucceed(os)
    requires LostSchedule(arena.targets, os.fs, sk.contents, arena.isBuilt)
    modifies arena, os, sk.Repr, table, table.items
    ensures Machine(arena, sk, table, os, 1, 2, R0, true) && OnArena(arena, sk.contents)
    ensures table.items == old(table.items)
    ensures var xs := old(sk.contents);
      && table.contents == map[pid := xs[0]]
      && sk.contents == Without(Without(xs, 0), 1)
      && arena.isBuilt == old(arena.isBuilt)[Without(xs, 0)[0] := true]
  {
    ghost var xs := sk.contents;
    ghost var xs1 := Without(xs, 0);
    pid := LaunchSpawn(arena, false, os, sk, table, 0, 2, R0, true, 0, xs[0]);
    WithoutElements(xs, 0);
    LaunchBuilt(arena, false, os, sk, table, 1, 2, R0, true, 1, xs1[0]);
  }

  /**
   * The first turn of the main loop as written: after the two launches
   * nothing is ready, and the one child is reaped with status 0.
   */
  method LostFirstTurn(arena: Arena, sk: TargetStack, table: TargetMap, os: Os, ghost R0: set<object>)
    returns (status: int)
    requires Machine(arena, sk, table, os, 0, 2, R0, true) && OnArena(arena, sk.contents) && AllSucceed(os)
    requires LostSchedule(arena.targets, os.fs, sk.contents, arena.isBuilt)
    modifies arena, os, sk.Repr, table, table.items
    ensures Machine(arena, sk, table, os, 0, 2, R0, true) && OnArena(arena, sk.contents)
    ensures table.items == old(table.items) && status == 0
    ensures var xs := old(sk.contents);
      && sk.contents == Without(Without(xs, 0), 1)
      && arena.isBuilt == old(arena.isBuilt)[Without(xs, 0)[0] := true][xs[0] := true]
      && LostRest(arena.targets, arena.isBuilt, sk.contents)
  {
    ghost var xs := sk.contents;
    var pid := LostLaunches(arena, sk, table, os, R0);
    LaunchNone(arena, false, os, sk, table, 1, 2, R0, true);
    status := ReapOnly(arena, os, sk, table, 2, R0, true, pid, xs[0]);
    ExitZero(os.exitCode(pid), status);
  }

  /**
   * The turns that follow: the head is handed out again; nothing below it is
   * ready, so the loop ends when `waitpid` finds no child.
   */
  method LostLastTurns(arena: Arena, sk: TargetStack, table: TargetMap, os: Os, ghost R0: set<object>)
    returns (last: int)
    requires Machine(arena, sk, table, os, 0, 2, R0, true) && OnArena(arena, sk.contents) && AllSucceed(os)
    requires LostRest(arena.targets, arena.isBuilt, sk.contents)
    modifies arena, os, sk.Repr, table, table.items
    ensures last == -1 && sk.contents == Without(old(sk.contents), 0) && arena.isBuilt == old(arena.isBuilt)
  {
    ghost var xs := sk.contents;
    ghost var B := arena.isBuilt;
    assert B[xs[0] := true] == B;
    var pid := LaunchAny(arena, false, os, sk, table, 0, 2, R0, true, 0, xs[0]);
    WithoutElements(xs, 0);
    if pid == 0 {
      LaunchNone(arena, false, os, sk, table, 0, 2, R0, true);
    } else {
      LaunchNone(arena, false, os, sk, table, 1, 2, R0, true);
      var status := ReapOnly(arena, os, sk, table, 2, R0, true, pid, xs[0]);
      ExitZero(os.exitCode(pid), status);
      assert status == 0 && sk.head != null;
      LaunchNone(arena, false, os, sk, table, 0, 2, R0, true);
    }
    last := ReapNone(arena, os, sk, table, 2, R0, true);
  }

  /**
   * A run of cbuild_multiprocess_build_target as written, turn by turn: `app`
   * of TwoChains with two processes, nothing built and no object file on
   * disk.  Every child exits with 0 and the result is 0, yet `a1.o`, `a.o`
   * and `app` are never built and `a.o`, `app` are left on the worklist.
   */
  method LostTargets() returns (r: int, arena: Arena, sk: TargetStack)
    ensures r == 0 && arena.isBuilt == [false, true, false, true, false] && sk.contents == [2, 4]
  {
    arena := new Arena(TwoChains());
    assert arena.isBuilt == [false, false, false, false, false];
    var os := new Os(SourcesOnly(), _ => true, _ => 0);
    var table;
    sk, table := SetUp(arena, 4, 2, os, true);
    TwoChainsStack();
    LostScheduleHolds();
    LostEnd();
    var error := LostFirstTurn(arena, sk, table, os, sk.Repr);
    assert sk.head != null && error == 0;
    var last := LostLastTurns(arena, sk, table, os, sk.Repr);
    r := if error != 0 then 1 else 0;
  }
}
