/**
 * The work list of the parallel scheduler: cbuild_target_stack, a singly
 * linked stack of targets filled by cbuild_setup_target_stack and drained by
 * cbuild_find_buildable_target, which unlinks the first target whose target
 * sources are all built.
 */
module Worklist {
  import opened Wrappers
  import opened Graph

  /** cbuild_target_stack_item; the target is set once, when the item is allocated. */
  class StackItem {
    const target: nat
    var next: StackItem?

    constructor (target: nat, next: StackItem?)
      ensures this.target == target && this.next == next
    {
      this.target := target;
      this.next := next;
    }
  }

  function Reverse(xs: seq<nat>): (r: seq<nat>)
    ensures |r| == |xs|
    ensures forall i :: 0 <= i < |xs| ==> r[i] == xs[|xs| - 1 - i]
  {
    if xs == [] then [] else Reverse(xs[1..]) + [xs[0]]
  }

  lemma {:induction false} ReverseAppend(a: seq<nat>, b: seq<nat>)
    ensures Reverse(a + b) == Reverse(b) + Reverse(a)
  {
    var r, l := Reverse(a + b), Reverse(b) + Reverse(a);
    assert |r| == |l|;
    forall i | 0 <= i < |r|
      ensures r[i] == l[i]
    {
      if i < |b| {
        assert l[i] == b[|b| - 1 - i];
      } else {
        assert l[i] == Reverse(a)[i - |b|] == a[|a| - 1 - (i - |b|)];
      }
    }
  }

  /** The position of the first target of `xs` whose target sources are all built, or |xs|. */
  function FirstReadyIndex(g: seq<Target>, isBuilt: seq<bool>, xs: seq<nat>): (k: nat)
    requires ValidGraph(g) && |isBuilt| == |g| && forall i :: 0 <= i < |xs| ==> xs[i] < |g|
    ensures k <= |xs|
    ensures forall i :: 0 <= i < k ==> !Ready(g, isBuilt, xs[i])
    ensures k < |xs| ==> Ready(g, isBuilt, xs[k])
  {
    if xs == [] then 0
    else if Ready(g, isBuilt, xs[0]) then 0
    else 1 + FirstReadyIndex(g, isBuilt, xs[1..])
  }

  /** The first item is waiting and the second is ready: the search stops at position 1. */
  lemma FirstReadySecond(g: seq<Target>, isBuilt: seq<bool>, xs: seq<nat>)
    requires ValidGraph(g) && |isBuilt| == |g| && forall i :: 0 <= i < |xs| ==> xs[i] < |g|
    requires 2 <= |xs| && !Ready(g, isBuilt, xs[0]) && Ready(g, isBuilt, xs[1])
    ensures FirstReadyIndex(g, isBuilt, xs) == 1
  {
    assert xs[1..][0] == xs[1];
  }

  lemma FirstReadyIndexNone(g: seq<Target>, isBuilt: seq<bool>, xs: seq<nat>)
    requires ValidGraph(g) && |isBuilt| == |g| && forall i :: 0 <= i < |xs| ==> xs[i] < |g|
    requires forall i :: 0 <= i < |xs| ==> !Ready(g, isBuilt, xs[i])
    ensures FirstReadyIndex(g, isBuilt, xs) == |xs|
  {
  }

  /** The items form a chain through `next`, end in null, and are pairwise distinct. */
  ghost predicate Linked(ns: seq<StackItem>)
    reads ns
  {
    && (forall i, j :: 0 <= i && j == i + 1 && j < |ns| ==> ns[i].next == ns[j])
    && (ns != [] ==> ns[|ns| - 1].next == null)
    && (forall i, j :: 0 <= i < j < |ns| ==> ns[i] != ns[j])
  }

  lemma LinkedTail(ns: seq<StackItem>)
    requires Linked(ns) && ns != []
    ensures Linked(ns[1..])
    ensures ns[0].next == (if |ns| > 1 then ns[1] else null)
  {
    var ts := ns[1..];
    forall a, b | 0 <= a && b == a + 1 && b < |ts|
      ensures ts[a].next == ts[b]
    {
      assert ts[a] == ns[a + 1] && ts[b] == ns[b + 1];
    }
    forall a, b | 0 <= a < b < |ts|
      ensures ts[a] != ts[b]
    {
      assert ts[a] == ns[a + 1] && ts[b] == ns[b + 1];
    }
    if |ns| > 1 {
      assert ns[0].next == ns[1];
    }
  }

  lemma LinkedCons(n: StackItem, ns: seq<StackItem>)
    requires Linked(ns) && n !in ns && n.next == (if ns == [] then null else ns[0])
    ensures Linked([n] + ns)
  {
    var ms := [n] + ns;
    forall a, b | 0 <= a && b == a + 1 && b < |ms|
      ensures ms[a].next == ms[b]
    {
      if a > 0 {
        assert ms[a] == ns[a - 1] && ms[b] == ns[b - 1];
      }
    }
    forall a, b | 0 <= a < b < |ms|
      ensures ms[a] != ms[b]
    {
      assert ms[b] == ns[b - 1];
      if a > 0 {
        assert ms[a] == ns[a - 1];
      }
    }
  }

  /** `xs` with the element at position `k` removed. */
  function Without(xs: seq<nat>, k: nat): seq<nat>
    requires k < |xs|
  {
    xs[..k] + xs[k + 1..]
  }

  /**
   * The target cbuild_find_buildable_target hands back when it unlinks
   * position `k`: that item's own, or, as written and past the head, the one
   * of the item before it.
   */
  function Handed(xs: seq<nat>, k: nat, asWritten: bool): nat
    requires k < |xs|
  {
    if k == 0 || !asWritten then xs[k] else xs[k - 1]
  }

  lemma WithoutFirst(xs: seq<nat>)
    requires xs != []
    ensures Without(xs, 0) == xs[1..]
  {
  }

  /** cbuild_target_stack: the ghost `nodes` are the items from the head down. */
  class TargetStack {
    var head: StackItem?
    ghost var nodes: seq<StackItem>
    ghost var contents: seq<nat>
    ghost var Repr: set<object>

    ghost predicate Valid()
      reads this, Repr
    {
      && this in Repr
      && (forall i :: 0 <= i < |nodes| ==> nodes[i] in Repr)
      && head == (if nodes == [] then null else nodes[0])
      && Linked(nodes)
      && |contents| == |nodes|
      && (forall i :: 0 <= i < |nodes| ==> nodes[i].target == contents[i])
    }

    /** The targets on the stack, from the head down. */
    ghost function Contents(): seq<nat>
      reads this
    {
      contents
    }

    /** `cbuild_target_stack targets = { 0 }`. */
    constructor ()
      ensures Valid() && fresh(Repr) && Contents() == []
    {
      head := null;
      nodes := [];
      contents := [];
      Repr := {this};
    }

    /** cbuild_target_stack_push. */
    method Push(t: nat)
      requires Valid()
      modifies this
      ensures Valid() && fresh(Repr - old(Repr))
      ensures Contents() == [t] + old(Contents())
    {
      var n := new StackItem(t, head);
      LinkedCons(n, nodes);
      head := n;
      nodes := [n] + nodes;
      contents := [t] + contents;
      Repr := Repr + {n};
    }

    /**
     * cbuild_find_buildable_target with the item it unlinks and the target it
     * returns agreeing: the first target on the stack whose target sources are
     * all built is removed and returned; with none, the stack is unchanged.
     */
    method FindBuildable(arena: Arena) returns (r: Option<nat>)
      requires Valid() && OnArena(arena, contents)
      modifies Repr
      ensures Valid() && Repr == old(Repr)
      ensures var xs, k := old(contents), FirstReadyIndex(arena.targets, old(arena.isBuilt), old(contents));
        if k == |xs| then r == None && contents == xs
        else r == Some(xs[k]) && contents == Without(xs, k)
    {
      var returned;
      r, returned := Unlink(arena, false);
    }

    /**
     * cbuild_find_buildable_target as written: past the head it unlinks the
     * first ready item but returns the target of the item before it.
     */
    method FindBuildableAsWritten(arena: Arena) returns (r: Option<nat>)
      requires Valid() && OnArena(arena, contents)
      modifies Repr
      ensures Valid() && Repr == old(Repr)
      ensures var xs, k := old(contents), FirstReadyIndex(arena.targets, old(arena.isBuilt), old(contents));
        if k == |xs| then r == None && contents == xs
        else r == Some(if k == 0 then xs[0] else xs[k - 1]) && contents == Without(xs, k)
    {
      var found;
      found, r := Unlink(arena, true);
    }

    /**
     * The walk both variants share: unlink the first ready item; `found` is its
     * target and `returned` what the source hands back.
     */
    method Unlink(arena: Arena, asWritten: bool) returns (found: Option<nat>, returned: Option<nat>)
      requires Valid() && OnArena(arena, contents)
      modifies Repr
      ensures Valid() && Repr == old(Repr)
      ensures var xs, k := old(contents), FirstReadyIndex(arena.targets, old(arena.isBuilt), old(contents));
        if k == |xs| then found == None && returned == None && contents == xs
        else
          && found == Some(xs[k])
          && returned == Some(Handed(xs, k, asWritten))
          && contents == Without(xs, k)
    {
      ghost var xs := contents;
      ghost var k := FirstReadyIndex(arena.targets, arena.isBuilt, xs);
      if head == null {
        return None, None;
      }
      var ready := IsReady(arena, head.target);
      if ready {
        found := Some(head.target);
        PopHead();
        return found, found;
      }
      var it, j := FindReadyBelowHead(arena);
      if it == null {
        return None, None;
      }
      assert k == j + 1;
      assert it.next == nodes[j + 1];
      found := Some(it.next.target);
      returned := if asWritten then Some(it.target) else found;
      UnlinkAfter(j, it);
    }

    /**
     * The walk past a head that is not ready: the item whose successor is the
     * first ready one, with its position, or null when none is ready.
     */
    method FindReadyBelowHead(arena: Arena) returns (it: StackItem?, j: nat)
      requires Valid() && OnArena(arena, contents) && nodes != []
      requires !Ready(arena.targets, arena.isBuilt, contents[0])
      ensures var k := FirstReadyIndex(arena.targets, arena.isBuilt, contents);
        if it == null then k == |contents| else j + 1 == k && k < |contents| && it == nodes[j]
    {
      it := head;
      j := 0;
      while it.next != null
        invariant 0 <= j < |nodes| && it == nodes[j]
        invariant it.next == (if j + 1 < |nodes| then nodes[j + 1] else null)
        invariant forall i :: 0 <= i <= j ==> !Ready(arena.targets, arena.isBuilt, contents[i])
        decreases |nodes| - j
      {
        var ready := IsReady(arena, it.next.target);
        if ready {
          return;
        }
        it := it.next;
        j := j + 1;
      }
      FirstReadyIndexNone(arena.targets, arena.isBuilt, contents);
      return null, j;
    }

    /** `targets->head = it->next`. */
    method PopHead()
      requires Valid() && nodes != []
      modifies this
      ensures Valid() && Repr == old(Repr)
      ensures contents == Without(old(contents), 0)
    {
      WithoutFirst(contents);
      LinkedTail(nodes);
      head := head.next;
      nodes := nodes[1..];
      contents := contents[1..];
    }

    /** Unlinks the item after position `j`, which is `it`. */
    method UnlinkAfter(j: nat, it: StackItem)
      requires Valid() && j + 1 < |nodes| && it == nodes[j]
      modifies Repr
      ensures Valid() && Repr == old(Repr)
      ensures contents == Without(old(contents), j + 1)
    {
      ghost var ns := nodes;
      assert it.next == ns[j + 1];
      assert ns[j + 1].next == (if j + 2 < |ns| then ns[j + 2] else null) by {
        if j + 2 < |ns| {
          assert ns[j + 1].next == ns[j + 2];
        }
      }
      it.next := it.next.next;
      nodes := nodes[..j + 1] + nodes[j + 2..];
      contents := contents[..j + 1] + contents[j + 2..];
      forall a, b | 0 <= a && b == a + 1 && b < |nodes|
        ensures nodes[a].next == nodes[b]
      {
        if a < j {
          assert nodes[a] == ns[a] && nodes[b] == ns[a + 1];
        } else if a == j {
          assert nodes[b] == ns[j + 2];
        } else {
          assert nodes[a] == ns[a + 1] && nodes[b] == ns[a + 2];
        }
      }
      forall a, b | 0 <= a < b < |nodes|
        ensures nodes[a] != nodes[b]
      {
        var a' := if a <= j then a else a + 1;
        var b' := if b <= j then b else b + 1;
        assert nodes[a] == ns[a'] && nodes[b] == ns[b'];
      }
    }

    /** Whether `t` is on the stack: a walk from the head. */
    method Contains(t: nat) returns (found: bool)
      requires Valid()
      ensures found <==> t in Contents()
    {
      var it := head;
      var k := 0;
      while it != null
        invariant 0 <= k <= |nodes|
        invariant it == (if k < |nodes| then nodes[k] else null)
        invariant t !in Contents()[..k]
        decreases |nodes| - k
      {
        if it.target == t {
          return true;
        }
        assert nodes[k].next == (if k + 1 < |nodes| then nodes[k + 1] else null);
        it := it.next;
        k := k + 1;
      }
      assert Contents()[..k] == Contents();
      return false;
    }
  }

  /**
   * The stack that cbuild_setup_target_stack builds, head first: it pushes the
   * target, then sets up each target source in order, so the last source's
   * targets end up on top and the target itself below them.
   */
  function StackOrder(g: seq<Target>, t: nat): seq<nat>
    requires t < |g| && ValidGraph(g)
    decreases t, |g[t].sources| + 1
  {
    StackOrderOfSources(g, t, 0) + [t]
  }

  function StackOrderOfSources(g: seq<Target>, t: nat, i: nat): seq<nat>
    requires t < |g| && ValidGraph(g) && i <= |g[t].sources|
    decreases t, |g[t].sources| - i
  {
    if i == |g[t].sources| then []
    else StackOrderOfSources(g, t, i + 1) + StackOrderOfSource(g, t, i)
  }

  function StackOrderOfSource(g: seq<Target>, t: nat, i: nat): seq<nat>
    requires t < |g| && ValidGraph(g) && i < |g[t].sources|
    decreases t, 0
  {
    var s := g[t].sources[i];
    if s.TargetSource? then StackOrder(g, s.target) else []
  }

  /** The stack holds the traversal order reversed: the last target visited is on top. */
  lemma {:induction false} StackOrderReversesPreorder(g: seq<Target>, t: nat)
    requires t < |g| && ValidGraph(g)
    ensures StackOrder(g, t) == Reverse(Preorder(g, t))
    decreases t, |g[t].sources| + 1
  {
    StackOrderOfSourcesReverses(g, t, 0);
    ReverseAppend([t], PreorderOfSources(g, t, 0));
  }

  lemma {:induction false} StackOrderOfSourcesReverses(g: seq<Target>, t: nat, i: nat)
    requires t < |g| && ValidGraph(g) && i <= |g[t].sources|
    ensures StackOrderOfSources(g, t, i) == Reverse(PreorderOfSources(g, t, i))
    decreases t, |g[t].sources| - i
  {
    if i < |g[t].sources| {
      var s := g[t].sources[i];
      var head := if s.TargetSource? then Preorder(g, s.target) else [];
      StackOrderOfSourcesReverses(g, t, i + 1);
      if s.TargetSource? {
        StackOrderReversesPreorder(g, s.target);
      }
      ReverseAppend(head, PreorderOfSources(g, t, i + 1));
    }
  }

  /** The stack as written holds exactly the targets reachable from `t`, repeats included. */
  lemma StackOrderElems(g: seq<Target>, t: nat)
    requires t < |g| && ValidGraph(g)
    ensures Elems(StackOrder(g, t)) == Reachable(g, t)
  {
    StackOrderReversesPreorder(g, t);
    var p := Preorder(g, t);
    var r := Reverse(p);
    forall x
      ensures x in r <==> x in p
    {
      if x in p {
        var i :| 0 <= i < |p| && p[i] == x;
        assert r[|p| - 1 - i] == x;
      }
    }
  }

  lemma EmptyPrefix(c: seq<nat>)
    ensures [] + c == c
  {
  }

  /** One step of the set-up loop: what is still to push, followed by the stack, stays the same. */
  lemma PushStep(todo: seq<nat>, head: seq<nat>, rest: seq<nat>, c: seq<nat>, c': seq<nat>, goal: seq<nat>)
    requires todo == rest + head && todo + c == goal && c' == head + c
    ensures rest + c' == goal
  {
    assert rest + (head + c) == (rest + head) + c;
  }

  /**
   * cbuild_setup_target_stack: push the target, then set up each of its
   * target sources in order.  A target reachable along two paths is pushed
   * once per path.
   */
  method SetupTargetStack(g: seq<Target>, t: nat, sk: TargetStack)
    requires t < |g| && ValidGraph(g) && sk.Valid()
    modifies sk
    ensures sk.Valid() && fresh(sk.Repr - old(sk.Repr))
    ensures sk.Contents() == StackOrder(g, t) + old(sk.Contents())
    decreases t, 2
  {
    ghost var c0 := sk.Contents();
    sk.Push(t);
    SetupSources(g, t, sk);
    assert StackOrderOfSources(g, t, 0) + ([t] + c0) == (StackOrderOfSources(g, t, 0) + [t]) + c0;
  }

  /** The loop of cbuild_setup_target_stack over the sources of `t`. */
  method SetupSources(g: seq<Target>, t: nat, sk: TargetStack)
    requires t < |g| && ValidGraph(g) && sk.Valid()
    modifies sk
    ensures sk.Valid() && fresh(sk.Repr - old(sk.Repr))
    ensures sk.Contents() == StackOrderOfSources(g, t, 0) + old(sk.Contents())
    decreases t, 1
  {
    ghost var goal := StackOrderOfSources(g, t, 0) + sk.Contents();
    var srcs := g[t].sources;
    var i := 0;
    while i < |srcs|
      invariant 0 <= i <= |srcs|
      invariant sk.Valid() && fresh(sk.Repr - old(sk.Repr))
      invariant StackOrderOfSources(g, t, i) + sk.Contents() == goal
    {
      ghost var c := sk.Contents();
      SetupSource(g, t, i, sk);
      PushStep(StackOrderOfSources(g, t, i), StackOrderOfSource(g, t, i), StackOrderOfSources(g, t, i + 1),
        c, sk.Contents(), goal);
      i := i + 1;
    }
    assert StackOrderOfSources(g, t, i) == [];
    EmptyPrefix(sk.Contents());
  }

  /** One iteration of the loop over the sources of `t`: a target source pushes its own order. */
  method SetupSource(g: seq<Target>, t: nat, i: nat, sk: TargetStack)
    requires t < |g| && ValidGraph(g) && i < |g[t].sources| && sk.Valid()
    modifies sk
    ensures sk.Valid() && fresh(sk.Repr - old(sk.Repr))
    ensures sk.Contents() == StackOrderOfSource(g, t, i) + old(sk.Contents())
    decreases t, 0
  {
    var s := g[t].sources[i];
    if s.TargetSource? {
      SetupTargetStack(g, s.target, sk);
    } else {
      EmptyPrefix(sk.Contents());
    }
  }

  ghost predicate Distinct(xs: seq<nat>) {
    forall i, j :: 0 <= i < j < |xs| ==> xs[i] != xs[j]
  }

  lemma DistinctCons(t: nat, xs: seq<nat>)
    requires Distinct(xs) && t !in xs
    ensures Distinct([t] + xs)
  {
    var ys := [t] + xs;
    forall i, j | 0 <= i < j < |ys|
      ensures ys[i] != ys[j]
    {
      if i > 0 {
        assert ys[i] == xs[i - 1] && ys[j] == xs[j - 1];
      } else {
        assert ys[j] == xs[j - 1];
      }
    }
  }

  lemma SuffixTrans(a: seq<nat>, b: seq<nat>, c: seq<nat>)
    requires |b| <= |a| && a[|a| - |b|..] == b
    requires |c| <= |b| && b[|b| - |c|..] == c
    ensures a[|a| - |c|..] == c
  {
    assert a[|a| - |c|..] == a[|a| - |b|..][|b| - |c|..];
  }

  /**
   * The stack the deduplicating set-up leaves when started on stack `c`
   * (head first): push `t` unless it is already there, then visit each
   * target source in order.
   */
  function OnceOrder(g: seq<Target>, t: nat, c: seq<nat>): seq<nat>
    requires t < |g| && ValidGraph(g)
    decreases t, |g[t].sources| + 1
  {
    OnceOrderOfSources(g, t, 0, if t in c then c else [t] + c)
  }

  function OnceOrderOfSources(g: seq<Target>, t: nat, i: nat, c: seq<nat>): seq<nat>
    requires t < |g| && ValidGraph(g) && i <= |g[t].sources|
    decreases t, |g[t].sources| - i
  {
    if i == |g[t].sources| then c
    else OnceOrderOfSources(g, t, i + 1, OnceOrderOfSource(g, t, i, c))
  }

  function OnceOrderOfSource(g: seq<Target>, t: nat, i: nat, c: seq<nat>): seq<nat>
    requires t < |g| && ValidGraph(g) && i < |g[t].sources|
    decreases t, 0
  {
    var s := g[t].sources[i];
    if s.TargetSource? then OnceOrder(g, s.target, c) else c
  }

  /**
   * The set-up the scheduler needs: a target is pushed only if it is not on
   * the stack yet, but its sources are always visited.
   */
  method SetupTargetStackOnce(g: seq<Target>, t: nat, sk: TargetStack)
    requires t < |g| && ValidGraph(g) && sk.Valid()
    modifies sk
    ensures sk.Valid() && fresh(sk.Repr - old(sk.Repr))
    ensures sk.Contents() == OnceOrder(g, t, old(sk.Contents()))
    decreases t
  {
    ghost var goal := OnceOrder(g, t, sk.Contents());
    var present := sk.Contains(t);
    if !present {
      sk.Push(t);
    }
    var srcs := g[t].sources;
    var i := 0;
    while i < |srcs|
      invariant 0 <= i <= |srcs|
      invariant sk.Valid() && fresh(sk.Repr - old(sk.Repr))
      invariant OnceOrderOfSources(g, t, i, sk.Contents()) == goal
    {
      var s := srcs[i];
      if s.TargetSource? {
        SetupTargetStackOnce(g, s.target, sk);
      }
      i := i + 1;
    }
  }

  ghost function Elems(s: seq<nat>): set<nat> {
    set x | x in s
  }

  lemma ElemsConcat(a: seq<nat>, b: seq<nat>)
    ensures Elems(a + b) == Elems(a) + Elems(b)
  {
  }

  /** Started on a stack without duplicates, the deduplicating set-up leaves none. */
  lemma {:induction false} OnceOrderDistinct(g: seq<Target>, t: nat, c: seq<nat>)
    requires t < |g| && ValidGraph(g) && Distinct(c)
    ensures Distinct(OnceOrder(g, t, c))
    decreases t, |g[t].sources| + 1
  {
    if t !in c {
      DistinctCons(t, c);
    }
    OnceOrderOfSourcesDistinct(g, t, 0, if t in c then c else [t] + c);
  }

  lemma {:induction false} OnceOrderOfSourcesDistinct(g: seq<Target>, t: nat, i: nat, c: seq<nat>)
    requires t < |g| && ValidGraph(g) && i <= |g[t].sources| && Distinct(c)
    ensures Distinct(OnceOrderOfSources(g, t, i, c))
    decreases t, |g[t].sources| - i
  {
    if i < |g[t].sources| {
      var s := g[t].sources[i];
      if s.TargetSource? {
        OnceOrderDistinct(g, s.target, c);
      }
      OnceOrderOfSourcesDistinct(g, t, i + 1, OnceOrderOfSource(g, t, i, c));
    }
  }

  /** The deduplicating set-up only pushes: what was on the stack stays, at the bottom. */
  lemma {:induction false} OnceOrderKeepsBottom(g: seq<Target>, t: nat, c: seq<nat>)
    requires t < |g| && ValidGraph(g)
    ensures var r := OnceOrder(g, t, c); |c| <= |r| && r[|r| - |c|..] == c
    decreases t, |g[t].sources| + 1
  {
    var c0 := if t in c then c else [t] + c;
    PushIfAbsentKeepsBottom(t, c);
    OnceOrderOfSourcesKeepsBottom(g, t, 0, c0);
    SuffixTrans(OnceOrderOfSources(g, t, 0, c0), c0, c);
  }

  /** Pushing a target only when it is absent keeps the stack at the bottom. */
  lemma PushIfAbsentKeepsBottom(t: nat, c: seq<nat>)
    ensures var c0 := if t in c then c else [t] + c; |c| <= |c0| && c0[|c0| - |c|..] == c
  {
    if t !in c {
      assert ([t] + c)[1..] == c;
    }
  }

  lemma {:induction false} OnceOrderOfSourcesKeepsBottom(g: seq<Target>, t: nat, i: nat, c: seq<nat>)
    requires t < |g| && ValidGraph(g) && i <= |g[t].sources|
    ensures var r := OnceOrderOfSources(g, t, i, c); |c| <= |r| && r[|r| - |c|..] == c
    decreases t, |g[t].sources| - i
  {
    if i == |g[t].sources| {
      assert OnceOrderOfSources(g, t, i, c) == c;
      assert c[|c| - |c|..] == c;
    } else {
      var c1 := OnceOrderOfSource(g, t, i, c);
      var s := g[t].sources[i];
      if s.TargetSource? {
        OnceOrderKeepsBottom(g, s.target, c);
      } else {
        assert c1[|c1| - |c|..] == c;
      }
      OnceOrderOfSourcesKeepsBottom(g, t, i + 1, c1);
      var r := OnceOrderOfSources(g, t, i, c);
      assert r == OnceOrderOfSources(g, t, i + 1, c1);
      SuffixTrans(r, c1, c);
    }
  }

  /** The deduplicating set-up adds exactly the targets reachable from `t`. */
  lemma {:induction false} OnceOrderElems(g: seq<Target>, t: nat, c: seq<nat>)
    requires t < |g| && ValidGraph(g)
    ensures Elems(OnceOrder(g, t, c)) == Elems(c) + Reachable(g, t)
    decreases t, |g[t].sources| + 1
  {
    var c0 := if t in c then c else [t] + c;
    ElemsConcat([t], c);
    OnceOrderOfSourcesElems(g, t, 0, c0);
    assert Preorder(g, t) == [t] + PreorderOfSources(g, t, 0);
    ElemsConcat([t], PreorderOfSources(g, t, 0));
    assert Reachable(g, t) == Elems(Preorder(g, t));
  }

  lemma {:induction false} OnceOrderOfSourcesElems(g: seq<Target>, t: nat, i: nat, c: seq<nat>)
    requires t < |g| && ValidGraph(g) && i <= |g[t].sources|
    ensures Elems(OnceOrderOfSources(g, t, i, c)) == Elems(c) + Elems(PreorderOfSources(g, t, i))
    decreases t, |g[t].sources| - i
  {
    if i < |g[t].sources| {
      var c1 := OnceOrderOfSource(g, t, i, c);
      var s := g[t].sources[i];
      if s.TargetSource? {
        OnceOrderElems(g, s.target, c);
        assert Reachable(g, s.target) == Elems(PreorderOfSource(g, t, i));
      }
      assert Elems(c1) == Elems(c) + Elems(PreorderOfSource(g, t, i));
      OnceOrderOfSourcesElems(g, t, i + 1, c1);
      ElemsConcat(PreorderOfSource(g, t, i), PreorderOfSources(g, t, i + 1));
    }
  }

  /** The readiness test of cbuild_find_buildable_target: stop at the first target source not yet built. */
  method IsReady(arena: Arena, t: nat) returns (ready: bool)
    requires arena.Valid() && t < |arena.targets|
    ensures ready == Ready(arena.targets, arena.isBuilt, t)
  {
    var srcs := arena.targets[t].sources;
    var i := 0;
    while i < |srcs|
      invariant 0 <= i <= |srcs|
      invariant forall j :: 0 <= j < i && srcs[j].TargetSource? ==> arena.isBuilt[srcs[j].target]
    {
      if srcs[i].TargetSource? && !arena.isBuilt[srcs[i].target] {
        return false;
      }
      i := i + 1;
    }
    return true;
  }

  ghost predicate OnArena(arena: Arena, xs: seq<nat>)
    reads arena
  {
    arena.Valid() && forall i :: 0 <= i < |xs| ==> xs[i] < |arena.targets|
  }

  lemma DiamondLeafStack()
    ensures StackOrder(Diamond(), 0) == [0]
  {
    var g := Diamond();
    assert StackOrderOfSource(g, 0, 0) == [];
    assert StackOrderOfSources(g, 0, 1) == [];
  }

  lemma DiamondLeafOnce(c: seq<nat>)
    ensures OnceOrder(Diamond(), 0, c) == (if 0 in c then c else [0] + c)
  {
    var g := Diamond();
    var c0 := if 0 in c then c else [0] + c;
    assert OnceOrderOfSource(g, 0, 0, c0) == c0;
    assert OnceOrderOfSources(g, 0, 1, c0) == c0;
  }

  lemma DiamondMiddleStack()
    ensures StackOrder(Diamond(), 1) == [0, 1]
  {
    var g := Diamond();
    DiamondLeafStack();
    assert StackOrderOfSource(g, 1, 0) == [0];
    assert StackOrderOfSources(g, 1, 1) == [];
  }

  lemma DiamondMiddleOnce()
    ensures OnceOrder(Diamond(), 1, [0, 2]) == [1, 0, 2]
  {
    var g := Diamond();
    var c0 := [1, 0, 2];
    DiamondLeafOnce(c0);
    assert OnceOrderOfSource(g, 1, 0, c0) == c0;
    assert OnceOrderOfSources(g, 1, 1, c0) == c0;
  }

  /** Pushing one entry per path leaves `d.o` on the stack twice. */
  lemma DiamondStackHasDuplicate()
    ensures StackOrder(Diamond(), 2) == [0, 1, 0, 2] && !Distinct(StackOrder(Diamond(), 2))
  {
    var g := Diamond();
    DiamondLeafStack();
    DiamondMiddleStack();
    assert StackOrderOfSource(g, 2, 1) == [0, 1];
    assert StackOrderOfSource(g, 2, 0) == [0];
    assert StackOrderOfSources(g, 2, 2) == [];
    assert StackOrderOfSources(g, 2, 1) == [0, 1];
    var so := StackOrder(g, 2);
    assert so == [0, 1, 0, 2];
    assert so[0] == so[2];
  }

  /** The deduplicating variant keeps one entry per target of the same arena. */
  lemma DiamondOnceOrder()
    ensures OnceOrder(Diamond(), 2, []) == [1, 0, 2]
  {
    var g := Diamond();
    DiamondLeafOnce([2]);
    DiamondMiddleOnce();
    assert OnceOrderOfSource(g, 2, 0, [2]) == [0, 2];
    assert OnceOrderOfSource(g, 2, 1, [0, 2]) == [1, 0, 2];
    assert OnceOrderOfSources(g, 2, 2, [1, 0, 2]) == [1, 0, 2];
    assert OnceOrderOfSources(g, 2, 1, [0, 2]) == [1, 0, 2];
  }

  /** Two chains `a1.o <- a.o` and `b1.o <- b.o` joined by `app`. */
  function TwoChains(): (g: seq<Target>)
    ensures ValidGraph(g) && |g| == 5
  {
    [Target("a1.o", ["cc"], [FileSource("a1.c", true)]),
     Target("b1.o", ["cc"], [FileSource("b1.c", true)]),
     Target("a.o", ["cc"], [TargetSource(0, true)]),
     Target("b.o", ["cc"], [TargetSource(1, true)]),
     Target("app", ["cc"], [TargetSource(2, true), TargetSource(3, true)])]
  }

  /** `a1.o` and `b1.o` have no target source: the set-up pushes them unless they are on the stack already. */
  lemma TwoChainsLeafOnce(t: nat, c: seq<nat>)
    requires t < 2
    ensures OnceOrder(TwoChains(), t, c) == (if t in c then c else [t] + c)
  {
    var g := TwoChains();
    var c0 := if t in c then c else [t] + c;
    assert OnceOrderOfSource(g, t, 0, c0) == c0;
    assert OnceOrderOfSources(g, t, 1, c0) == c0;
  }

  /** The set-up of `a.o` below `app` pushes `a.o`, then `a1.o`. */
  lemma TwoChainsLeftOnce()
    ensures OnceOrder(TwoChains(), 2, [4]) == [0, 2, 4]
  {
    var g := TwoChains();
    TwoChainsLeafOnce(0, [2, 4]);
    assert OnceOrderOfSource(g, 2, 0, [2, 4]) == [0, 2, 4];
    assert OnceOrderOfSources(g, 2, 1, [0, 2, 4]) == [0, 2, 4];
  }

  /** The set-up of `b.o` above that pushes `b.o`, then `b1.o`. */
  lemma TwoChainsRightOnce()
    ensures OnceOrder(TwoChains(), 3, [0, 2, 4]) == [1, 3, 0, 2, 4]
  {
    var g := TwoChains();
    TwoChainsLeafOnce(1, [3, 0, 2, 4]);
    assert OnceOrderOfSource(g, 3, 0, [3, 0, 2, 4]) == [1, 3, 0, 2, 4];
    assert OnceOrderOfSources(g, 3, 1, [1, 3, 0, 2, 4]) == [1, 3, 0, 2, 4];
  }

  /** The corrected set-up of `app`: `b1.o` on top, `app` at the bottom. */
  lemma TwoChainsOnce()
    ensures OnceOrder(TwoChains(), 4, []) == [1, 3, 0, 2, 4]
  {
    var g := TwoChains();
    TwoChainsLeftOnce();
    TwoChainsRightOnce();
    assert OnceOrderOfSource(g, 4, 0, [4]) == [0, 2, 4];
    assert OnceOrderOfSource(g, 4, 1, [0, 2, 4]) == [1, 3, 0, 2, 4];
    assert OnceOrderOfSources(g, 4, 2, [1, 3, 0, 2, 4]) == [1, 3, 0, 2, 4];
    assert OnceOrderOfSources(g, 4, 1, [0, 2, 4]) == [1, 3, 0, 2, 4];
  }

  /** The set-up as written of `app`: the same stack, since no target is shared. */
  lemma TwoChainsStack()
    ensures StackOrder(TwoChains(), 4) == [1, 3, 0, 2, 4]
  {
    var g := TwoChains();
    assert StackOrder(g, 0) == [0] && StackOrder(g, 1) == [1] by {
      assert StackOrderOfSource(g, 0, 0) == [] && StackOrderOfSource(g, 1, 0) == [];
    }
    assert StackOrder(g, 2) == [0, 2] by {
      assert StackOrderOfSources(g, 2, 0) == StackOrderOfSources(g, 2, 1) + StackOrder(g, 0);
    }
    assert StackOrder(g, 3) == [1, 3] by {
      assert StackOrderOfSources(g, 3, 0) == StackOrderOfSources(g, 3, 1) + StackOrder(g, 1);
    }
    assert StackOrderOfSources(g, 4, 1) == StackOrder(g, 3);
  }

  /**
   * Later states of the run with `a1.o` lost: with `b.o` built first, none of
   * `b.o`, `a.o`, `app` is ready; once `b1.o` is built too, `b.o` is ready and
   * `a.o`, `app` still wait.
   */
  lemma TwoChainsWaiting()
    ensures FirstReadyIndex(TwoChains(), [false, false, false, true, false], [3, 2, 4]) == 3
    ensures FirstReadyIndex(TwoChains(), [false, true, false, true, false], [3, 2, 4]) == 0
    ensures FirstReadyIndex(TwoChains(), [false, true, false, true, false], [2, 4]) == 2
  {
    var g := TwoChains();
    assert g[3].sources[0] == TargetSource(1, true);
    assert g[2].sources[0] == TargetSource(0, true);
    assert g[4].sources[0] == TargetSource(2, true);
    FirstReadyIndexNone(g, [false, false, false, true, false], [3, 2, 4]);
    FirstReadyIndexNone(g, [false, true, false, true, false], [2, 4]);
  }

  /** In the first state nothing is built: `a1.o` has only a file source and is ready, `b.o` waits for `b1.o`. */
  lemma TwoChainsReadiness()
    ensures var built := [false, false, false, false, false];
      Ready(TwoChains(), built, 0) && !Ready(TwoChains(), built, 3)
  {
    var g := TwoChains();
    assert g[3].sources[0] == TargetSource(1, true);
  }

  /** Of the items `b.o`, `a1.o`, `a.o`, `app` the first ready one is `a1.o`, at position 1. */
  lemma TwoChainsFirstReady()
    ensures var g, built, xs := TwoChains(), [false, false, false, false, false], [3, 0, 2, 4];
      FirstReadyIndex(g, built, xs) == 1 && !Ready(g, built, xs[0])
  {
    TwoChainsReadiness();
    FirstReadySecond(TwoChains(), [false, false, false, false, false], [3, 0, 2, 4]);
  }

  /**
   * After `b1.o` has been taken from the head (and is still compiling), the
   * first ready item is `a1.o` at position 1, but the item before it, `b.o`,
   * is what FindBuildableAsWritten hands back, and `b.o` is not ready.
   */
  lemma PredecessorIsNotReady()
    ensures var g, built, xs := TwoChains(), [false, false, false, false, false], [3, 0, 2, 4];
      && FirstReadyIndex(g, built, xs) == 1
      && !Ready(g, built, xs[0])
      && OnceOrder(g, 4, []) == [1, 3, 0, 2, 4]
      && xs == Without(OnceOrder(g, 4, []), 0)
  {
    TwoChainsFirstReady();
    TwoChainsOnce();
    WithoutFirst([1, 3, 0, 2, 4]);
  }

  /** With nothing built, `b1.o` has only a file source and is ready. */
  lemma TwoChainsLeafReady()
    ensures Ready(TwoChains(), [false, false, false, false, false], 1)
  {
    assert TwoChains()[1].sources == [FileSource("b1.c", true)];
  }

  /** The arena of TwoChains with nothing built and the corrected set-up of `app` on a new stack. */
  method TwoChainsWorklist() returns (arena: Arena, sk: TargetStack)
    ensures fresh(arena) && arena.Valid() && arena.targets == TwoChains()
    ensures arena.isBuilt == [false, false, false, false, false]
    ensures sk.Valid() && fresh(sk.Repr) && arena !in sk.Repr && sk.Contents() == [1, 3, 0, 2, 4]
  {
    arena := new Arena(TwoChains());
    assert arena.isBuilt == [false, false, false, false, false];
    sk := new TargetStack();
    SetupTargetStackOnce(arena.targets, 4, sk);
    TwoChainsOnce();
  }

  /** A ready head is what the corrected search takes. */
  method TakeReadyHead(arena: Arena, sk: TargetStack) returns (first: Option<nat>)
    requires sk.Valid() && arena !in sk.Repr && OnArena(arena, sk.Contents()) && sk.Contents() != []
    requires Ready(arena.targets, arena.isBuilt, sk.Contents()[0])
    modifies sk.Repr
    ensures sk.Valid() && sk.Repr == old(sk.Repr)
    ensures first == Some(old(sk.Contents())[0]) && sk.Contents() == old(sk.Contents())[1..]
  {
    WithoutFirst(sk.Contents());
    first := sk.FindBuildable(arena);
  }

  /** With the head waiting and the next item ready, the search as written returns the head. */
  method TakeSecondAsWritten(arena: Arena, sk: TargetStack) returns (r: Option<nat>)
    requires sk.Valid() && OnArena(arena, sk.Contents()) && |sk.Contents()| >= 2
    requires !Ready(arena.targets, arena.isBuilt, sk.Contents()[0])
    requires Ready(arena.targets, arena.isBuilt, sk.Contents()[1])
    modifies sk.Repr
    ensures r == Some(old(sk.Contents())[0])
  {
    FirstReadySecond(arena.targets, arena.isBuilt, sk.Contents());
    r := sk.FindBuildableAsWritten(arena);
  }

  /**
   * The same run on the linked stack: `b1.o` is taken from the head and,
   * while it compiles, cbuild_find_buildable_target as written hands back
   * `b.o`, which is not ready.
   */
  method PredecessorReturned() returns (first: Option<nat>, r: Option<nat>)
    ensures first == Some(1)
    ensures r == Some(3) && !Ready(TwoChains(), [false, false, false, false, false], 3)
  {
    var arena, sk := TwoChainsWorklist();
    TwoChainsLeafReady();
    first := TakeReadyHead(arena, sk);
    TwoChainsReadiness();
    r := TakeSecondAsWritten(arena, sk);
  }
}
