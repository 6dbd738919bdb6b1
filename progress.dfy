/**
 * The bookkeeping behind cbuild_multiprocess_build_target, stated on values.
 * Every target reachable from the root is in one of three places: built,
 * still on the worklist, or being built by a running child (a job, keyed by
 * the child's pid).  The lemmas below follow the scheduler's steps: taking a
 * ready target that needs no work, taking one and starting a child for it,
 * and reaping a child.
 */
module Progress {
  import opened Graph
  import opened Worklist

  /** The targets the running children are building. */
  ghost function Running(jobs: map<int, nat>): set<nat> {
    set p | p in jobs :: jobs[p]
  }

  /** No two children build the same target. */
  ghost predicate Injective(jobs: map<int, nat>) {
    forall p, q :: p in jobs && q in jobs && p != q ==> jobs[p] != jobs[q]
  }

  /** A built reachable target has all its target sources built. */
  ghost predicate BuiltClosed(g: seq<Target>, root: nat, built: seq<bool>)
    requires ValidGraph(g) && root < |g| && |built| == |g|
  {
    forall x :: x in Reachable(g, root) && x < |g| && built[x] ==> Ready(g, built, x)
  }

  ghost predicate Inv(g: seq<Target>, root: nat, built: seq<bool>, stack: seq<nat>, jobs: map<int, nat>) {
    && ValidGraph(g) && root < |g| && |built| == |g|
    && Distinct(stack)
    && (forall i :: 0 <= i < |stack| ==> stack[i] in Reachable(g, root) && stack[i] < |g| && !built[stack[i]])
    && (forall p :: p in jobs ==>
          && jobs[p] in Reachable(g, root) && jobs[p] !in stack && jobs[p] < |g|
          && Ready(g, built, jobs[p]) && !built[jobs[p]])
    && Injective(jobs)
    && BuiltClosed(g, root, built)
    && (forall x :: x in Reachable(g, root) && x < |g| ==> built[x] || x in stack || x in Running(jobs))
    && (root !in stack ==> forall x :: x in Reachable(g, root) && x < |g| && x != root ==> built[x])
  }

  lemma ReachableBounded(g: seq<Target>, t: nat)
    requires t < |g| && ValidGraph(g)
    ensures forall x :: x in Reachable(g, t) ==> x <= t
  {
    PreorderBounded(g, t);
  }

  /** Marking one more target built keeps every ready target ready. */
  lemma ReadyMonotone(g: seq<Target>, built: seq<bool>, t: nat, x: nat)
    requires ValidGraph(g) && |built| == |g| && t < |g| && x < |g| && Ready(g, built, x)
    ensures Ready(g, built[t := true], x)
  {
  }

  /** Below a built target everything is built. */
  lemma {:induction false} BuiltBelow(g: seq<Target>, root: nat, built: seq<bool>, y: nat)
    requires ValidGraph(g) && root < |g| && |built| == |g| && BuiltClosed(g, root, built)
    requires y in Reachable(g, root) && y < |g| && built[y]
    ensures forall x :: x in Reachable(g, y) && x < |g| ==> built[x]
    decreases y
  {
    forall x | x in Reachable(g, y) && x < |g|
      ensures built[x]
    {
      if x != y {
        PreorderSplit(g, y, x);
        var j :| 0 <= j < |g[y].sources| && g[y].sources[j].TargetSource?
                 && x in Preorder(g, g[y].sources[j].target);
        var d := g[y].sources[j].target;
        PreorderClosed(g, root, y, j);
        BuiltBelow(g, root, built, d);
      }
    }
  }

  /** Once the root is ready, everything else reachable from it is built. */
  lemma RootReadyAllBuilt(g: seq<Target>, root: nat, built: seq<bool>)
    requires ValidGraph(g) && root < |g| && |built| == |g| && BuiltClosed(g, root, built)
    requires Ready(g, built, root)
    ensures forall x :: x in Reachable(g, root) && x < |g| && x != root ==> built[x]
  {
    forall x | x in Reachable(g, root) && x < |g| && x != root
      ensures built[x]
    {
      PreorderSplit(g, root, x);
      var j :| 0 <= j < |g[root].sources| && g[root].sources[j].TargetSource?
               && x in Preorder(g, g[root].sources[j].target);
      var d := g[root].sources[j].target;
      PreorderClosed(g, root, root, j);
      BuiltBelow(g, root, built, d);
    }
  }

  lemma WithoutElements(xs: seq<nat>, k: nat)
    requires k < |xs|
    ensures |Without(xs, k)| == |xs| - 1
    ensures forall i :: 0 <= i < |Without(xs, k)| ==> Without(xs, k)[i] == (if i < k then xs[i] else xs[i + 1])
  {
  }

  lemma DistinctWithout(xs: seq<nat>, k: nat)
    requires k < |xs| && Distinct(xs)
    ensures Distinct(Without(xs, k)) && xs[k] !in Without(xs, k)
    ensures forall x :: x in xs && x != xs[k] ==> x in Without(xs, k)
    ensures forall x :: x in Without(xs, k) ==> x in xs
  {
    WithoutElements(xs, k);
    var w := Without(xs, k);
    forall x | x in xs && x != xs[k]
      ensures x in w
    {
      var i :| 0 <= i < |xs| && xs[i] == x;
      if i < k {
        assert w[i] == x;
      } else {
        assert w[i - 1] == x;
      }
    }
  }

  /** The worklist built by the deduplicating set-up from a fresh arena. */
  lemma InvInit(g: seq<Target>, root: nat, built: seq<bool>)
    requires ValidGraph(g) && root < |g| && |built| == |g|
    requires forall x :: x in Reachable(g, root) && x < |g| ==> !built[x]
    ensures Inv(g, root, built, OnceOrder(g, root, []), map[])
    ensures root in OnceOrder(g, root, [])
  {
    var stack := OnceOrder(g, root, []);
    OnceOrderElems(g, root, []);
    OnceOrderDistinct(g, root, []);
    ReachableBounded(g, root);
    PreorderBounded(g, root);
    assert root in Reachable(g, root);
    assert forall x :: x in Reachable(g, root) ==> x in Elems(stack);
  }

  /** A ready target taken from the worklist that needs no work is marked built (cbuild.h:572). */
  lemma InvPopBuilt(g: seq<Target>, root: nat, built: seq<bool>, stack: seq<nat>, jobs: map<int, nat>, k: nat)
    requires Inv(g, root, built, stack, jobs) && k < |stack| && Ready(g, built, stack[k])
    ensures Inv(g, root, built[stack[k] := true], Without(stack, k), jobs)
  {
    var t := stack[k];
    var built' := built[t := true];
    var stack' := Without(stack, k);
    DistinctWithout(stack, k);
    WithoutElements(stack, k);
    forall i | 0 <= i < |stack'|
      ensures stack'[i] in Reachable(g, root) && stack'[i] < |g| && !built'[stack'[i]]
    {
      var j := if i < k then i else i + 1;
      assert stack'[i] == stack[j] && stack[j] != t;
    }
    forall p | p in jobs
      ensures Ready(g, built', jobs[p]) && !built'[jobs[p]]
    {
      ReadyMonotone(g, built, t, jobs[p]);
    }
    forall x | x in Reachable(g, root) && x < |g| && built'[x]
      ensures Ready(g, built', x)
    {
      ReadyMonotone(g, built, t, x);
    }
    if t == root {
      RootReadyAllBuilt(g, root, built);
    }
  }

  /** A ready target taken from the worklist is handed to a new child `pid`. */
  lemma InvPopSpawn(g: seq<Target>, root: nat, built: seq<bool>, stack: seq<nat>, jobs: map<int, nat>, k: nat, pid: int)
    requires Inv(g, root, built, stack, jobs) && k < |stack| && Ready(g, built, stack[k]) && pid !in jobs
    ensures Inv(g, root, built, Without(stack, k), jobs[pid := stack[k]])
  {
    var t := stack[k];
    var stack' := Without(stack, k);
    var jobs' := jobs[pid := t];
    DistinctWithout(stack, k);
    WithoutElements(stack, k);
    forall i | 0 <= i < |stack'|
      ensures stack'[i] in Reachable(g, root) && stack'[i] < |g| && !built[stack'[i]]
    {
      var j := if i < k then i else i + 1;
      assert stack'[i] == stack[j];
    }
    forall p, q | p in jobs' && q in jobs' && p != q
      ensures jobs'[p] != jobs'[q]
    {
      if p == pid {
        assert jobs[q] !in stack;
      } else if q == pid {
        assert jobs[p] !in stack;
      }
    }
    forall x | x in Reachable(g, root) && x < |g|
      ensures built[x] || x in stack' || x in Running(jobs')
    {
      if x == t {
        assert jobs'[pid] == x;
      } else if x in Running(jobs) {
        var p :| p in jobs && jobs[p] == x;
        assert jobs'[p] == x;
      }
    }
    if t == root {
      RootReadyAllBuilt(g, root, built);
    }
  }

  /**
   * A reaped child's target is marked built (cbuild.h:708).  Once the root has
   * left the worklist it is the only target a child can still be building.
   */
  lemma InvReap(g: seq<Target>, root: nat, built: seq<bool>, stack: seq<nat>, jobs: map<int, nat>, pid: int)
    requires Inv(g, root, built, stack, jobs) && pid in jobs
    ensures Inv(g, root, built[jobs[pid] := true], stack, jobs - {pid})
    ensures root !in stack ==> jobs[pid] == root
  {
    var t := jobs[pid];
    var built' := built[t := true];
    var jobs' := jobs - {pid};
    forall i | 0 <= i < |stack|
      ensures !built'[stack[i]]
    {
      assert stack[i] != t;
    }
    forall p | p in jobs'
      ensures Ready(g, built', jobs'[p]) && !built'[jobs'[p]]
    {
      ReadyMonotone(g, built, t, jobs[p]);
    }
    forall x | x in Reachable(g, root) && x < |g| && built'[x]
      ensures Ready(g, built', x)
    {
      ReadyMonotone(g, built, t, x);
    }
    forall x | x in Reachable(g, root) && x < |g|
      ensures built'[x] || x in stack || x in Running(jobs')
    {
      if x != t && x in Running(jobs) {
        var p :| p in jobs && jobs[p] == x;
        assert p != pid && jobs'[p] == x;
      }
    }
  }

  /** With no child running, some item on a non-empty worklist is ready. */
  lemma InvStuck(g: seq<Target>, root: nat, built: seq<bool>, stack: seq<nat>, jobs: map<int, nat>)
    requires Inv(g, root, built, stack, jobs) && jobs == map[] && stack != []
    ensures FirstReadyIndex(g, built, stack) < |stack|
  {
    var m := Lowest(stack);
    forall j | 0 <= j < |g[m].sources| && g[m].sources[j].TargetSource?
      ensures built[g[m].sources[j].target]
    {
      var d := g[m].sources[j].target;
      PreorderClosed(g, root, m, j);
      assert d < m;
      assert d !in stack;
    }
    assert Ready(g, built, m);
    var i :| 0 <= i < |stack| && stack[i] == m;
    assert Ready(g, built, stack[i]);
  }

  /** The smallest index on a non-empty worklist. */
  function Lowest(xs: seq<nat>): (m: nat)
    requires xs != []
    ensures m in xs && forall i :: 0 <= i < |xs| ==> m <= xs[i]
  {
    if |xs| == 1 then xs[0]
    else
      var m := Lowest(xs[1..]);
      assert forall i :: 1 <= i < |xs| ==> xs[i] == xs[1..][i - 1];
      if xs[0] <= m then xs[0] else m
  }
}
