/**
 * cbuild_target_map: the table from child pid to the target that child is
 * building.  It is a fixed array of `capacity` slots with open addressing and
 * linear probing from `pid % capacity`; a slot whose pid is 0 is free.
 *
 * Insertion probes for a free slot.  Lookup and removal probe for the slot
 * holding the pid and do not stop at free slots, so they find the pid
 * wherever it lies and need no tombstones.
 */
module ProcessTable {
  import opened Wrappers

  /** cbuild_target_map_item; `target == None` is the NULL pointer. */
  datatype Slot = Slot(pid: int, target: Option<nat>)

  /** A zeroed slot, as left by `calloc` and by removal. */
  const Free := Slot(0, None)

  /** The number of occupied slots. */
  function Occupied(s: seq<Slot>): (n: nat)
    ensures n <= |s|
  {
    if s == [] then 0 else Occupied(s[..|s| - 1]) + (if s[|s| - 1].pid != 0 then 1 else 0)
  }

  /** A table that is not entirely occupied has a free slot. */
  lemma {:induction false} FreeSlotExists(s: seq<Slot>)
    requires Occupied(s) < |s|
    ensures exists i :: 0 <= i < |s| && s[i].pid == 0
  {
    var last := s[|s| - 1];
    if last.pid != 0 {
      FreeSlotExists(s[..|s| - 1]);
      var i :| 0 <= i < |s| - 1 && s[..|s| - 1][i].pid == 0;
      assert s[i].pid == 0;
    } else {
      assert s[|s| - 1].pid == 0;
    }
  }

  /** Overwriting one slot changes the count by the difference of the two slots. */
  lemma {:induction false} OccupiedUpdate(s: seq<Slot>, i: nat, x: Slot)
    requires i < |s|
    ensures Occupied(s[i := x]) + (if s[i].pid != 0 then 1 else 0)
         == Occupied(s) + (if x.pid != 0 then 1 else 0)
    decreases |s|
  {
    var s' := s[i := x];
    if i < |s| - 1 {
      assert s'[..|s| - 1] == s[..|s| - 1][i := x];
      OccupiedUpdate(s[..|s| - 1], i, x);
    } else {
      assert s'[..|s| - 1] == s[..|s| - 1];
    }
  }

  /** A zeroed table has no occupied slot. */
  lemma {:induction false} OccupiedNone(s: seq<Slot>)
    requires forall i :: 0 <= i < |s| ==> s[i].pid == 0
    ensures Occupied(s) == 0
  {
    if s != [] {
      OccupiedNone(s[..|s| - 1]);
    }
  }

  /** `(i + 1) % m` for an index `i` of the table. */
  lemma NextIndex(i: int, m: int)
    requires 0 <= i < m
    ensures (i + 1) % m == if i + 1 == m then 0 else i + 1
  {
  }

  /** The `k`-th slot probed from `home`, wrapping round once. */
  function Probe(home: nat, k: nat, m: nat): (i: nat)
    requires home < m && k < m
    ensures i < m
  {
    if home + k < m then home + k else home + k - m
  }

  /** Every slot is probed within the first `m` steps. */
  function Distance(home: nat, j: nat, m: nat): (d: nat)
    requires home < m && j < m
    ensures d < m && Probe(home, d, m) == j
  {
    if home <= j then j - home else j + m - home
  }

  /**
   * The table invariant on the slot array: free slots hold NULL, occupied
   * slots hold positive pids, pairwise distinct, and `c` maps each of them to
   * its target.
   */
  ghost predicate TableInv(s: seq<Slot>, c: map<int, nat>) {
    && SlotsWellFormed(s)
    && SlotsMapped(s, c)
    && KeysStored(s, c)
    && PidsDistinct(s)
    && |c| == Occupied(s)
  }

  ghost predicate SlotsWellFormed(s: seq<Slot>) {
    forall i :: 0 <= i < |s| ==> s[i].pid >= 0 && (s[i].pid == 0 <==> s[i].target.None?)
  }

  ghost predicate SlotsMapped(s: seq<Slot>, c: map<int, nat>) {
    forall i :: 0 <= i < |s| && s[i].target.Some? ==> s[i].pid in c && c[s[i].pid] == s[i].target.value
  }

  ghost predicate KeysStored(s: seq<Slot>, c: map<int, nat>) {
    forall p :: p in c ==> p > 0 && exists i :: 0 <= i < |s| && s[i].pid == p
  }

  ghost predicate PidsDistinct(s: seq<Slot>) {
    forall i, j :: 0 <= i < j < |s| && s[i].pid != 0 ==> s[i].pid != s[j].pid
  }

  lemma PutWellFormed(s: seq<Slot>, i: nat, x: Slot)
    requires SlotsWellFormed(s) && i < |s| && x.pid > 0 && x.target.Some?
    ensures SlotsWellFormed(s[i := x])
  {
  }

  lemma PutMapped(s: seq<Slot>, c: map<int, nat>, i: nat, pid: int, target: nat)
    requires SlotsMapped(s, c) && i < |s| && pid !in c
    ensures SlotsMapped(s[i := Slot(pid, Some(target))], c[pid := target])
  {
    var s' := s[i := Slot(pid, Some(target))];
    forall j | 0 <= j < |s'| && s'[j].target.Some?
      ensures s'[j].pid in c[pid := target] && c[pid := target][s'[j].pid] == s'[j].target.value
    {
      if j != i {
        assert s'[j] == s[j];
      }
    }
  }

  lemma PutStored(s: seq<Slot>, c: map<int, nat>, i: nat, pid: int, target: nat)
    requires KeysStored(s, c) && SlotsWellFormed(s) && i < |s| && s[i].pid == 0 && pid > 0
    ensures KeysStored(s[i := Slot(pid, Some(target))], c[pid := target])
  {
    var s' := s[i := Slot(pid, Some(target))];
    var c' := c[pid := target];
    forall p | p in c'
      ensures p > 0 && exists j :: 0 <= j < |s'| && s'[j].pid == p
    {
      if p != pid {
        var j :| 0 <= j < |s| && s[j].pid == p;
        assert s'[j].pid == p;
      } else {
        assert s'[i].pid == p;
      }
    }
  }

  lemma PutDistinct(s: seq<Slot>, c: map<int, nat>, i: nat, pid: int, target: nat)
    requires PidsDistinct(s) && SlotsWellFormed(s) && SlotsMapped(s, c) && i < |s| && s[i].pid == 0 && pid !in c
    ensures PidsDistinct(s[i := Slot(pid, Some(target))])
  {
    var s' := s[i := Slot(pid, Some(target))];
    forall a, b | 0 <= a < b < |s'| && s'[a].pid != 0
      ensures s'[a].pid != s'[b].pid
    {
      if a == i {
        assert s'[b] == s[b];
      } else if b == i {
        assert s'[a] == s[a];
      } else {
        assert s'[a] == s[a] && s'[b] == s[b];
      }
    }
  }

  /** Filling a free slot with a new pid adds exactly that entry. */
  lemma TableInvPut(s: seq<Slot>, c: map<int, nat>, i: nat, pid: int, target: nat)
    requires TableInv(s, c) && i < |s| && s[i].pid == 0 && pid > 0 && pid !in c
    ensures TableInv(s[i := Slot(pid, Some(target))], c[pid := target])
  {
    OccupiedUpdate(s, i, Slot(pid, Some(target)));
    PutWellFormed(s, i, Slot(pid, Some(target)));
    PutMapped(s, c, i, pid, target);
    PutStored(s, c, i, pid, target);
    PutDistinct(s, c, i, pid, target);
  }

  lemma ClearWellFormed(s: seq<Slot>, i: nat)
    requires SlotsWellFormed(s) && i < |s|
    ensures SlotsWellFormed(s[i := Free])
  {
  }

  lemma ClearMapped(s: seq<Slot>, c: map<int, nat>, i: nat)
    requires SlotsMapped(s, c) && SlotsWellFormed(s) && PidsDistinct(s) && i < |s| && s[i].pid != 0
    ensures SlotsMapped(s[i := Free], c - {s[i].pid})
  {
    var s' := s[i := Free];
    forall j | 0 <= j < |s'| && s'[j].target.Some?
      ensures s'[j].pid in c - {s[i].pid} && (c - {s[i].pid})[s'[j].pid] == s'[j].target.value
    {
      assert j != i && s'[j] == s[j];
      if j < i {
        assert s[j].pid != s[i].pid;
      } else {
        assert s[i].pid != s[j].pid;
      }
    }
  }

  lemma ClearStored(s: seq<Slot>, c: map<int, nat>, i: nat)
    requires KeysStored(s, c) && i < |s|
    ensures KeysStored(s[i := Free], c - {s[i].pid})
  {
    var s' := s[i := Free];
    forall q | q in c - {s[i].pid}
      ensures q > 0 && exists j :: 0 <= j < |s'| && s'[j].pid == q
    {
      var j :| 0 <= j < |s| && s[j].pid == q;
      assert s'[j].pid == q;
    }
  }

  lemma ClearDistinct(s: seq<Slot>, i: nat)
    requires PidsDistinct(s) && i < |s|
    ensures PidsDistinct(s[i := Free])
  {
    var s' := s[i := Free];
    forall a, b | 0 <= a < b < |s'| && s'[a].pid != 0
      ensures s'[a].pid != s'[b].pid
    {
      if a != i && b != i {
        assert s'[a] == s[a] && s'[b] == s[b];
      }
    }
  }

  lemma MapRemoveCard(c: map<int, nat>, p: int)
    requires p in c
    ensures |c - {p}| == |c| - 1
  {
    assert c.Keys == (c - {p}).Keys + {p};
  }

  /** Zeroing an occupied slot removes exactly its entry. */
  lemma TableInvClear(s: seq<Slot>, c: map<int, nat>, i: nat)
    requires TableInv(s, c) && i < |s| && s[i].pid != 0
    ensures TableInv(s[i := Free], c - {s[i].pid})
  {
    OccupiedUpdate(s, i, Free);
    MapRemoveCard(c, s[i].pid);
    ClearWellFormed(s, i);
    ClearMapped(s, c, i);
    ClearStored(s, c, i);
    ClearDistinct(s, i);
  }

  class TargetMap {
    var items: array<Slot>
    var size: nat
    var capacity: nat
    /** The pids the table holds and their targets. */
    ghost var contents: map<int, nat>

    ghost predicate Valid()
      reads this, items
    {
      items.Length == capacity && TableInv(items[..], contents)
    }

    /** The size field counts the entries, which the corrected operations maintain. */
    ghost predicate Counted()
      reads this
    {
      size == |contents|
    }

    /** cbuild_target_map_init on the zero-initialised map: `calloc` zeroes every slot. */
    constructor (capacity: nat)
      ensures Valid() && Counted() && fresh(items)
      ensures this.capacity == capacity && size == 0 && contents == map[]
      ensures forall i :: 0 <= i < items.Length ==> items[i] == Free
    {
      this.capacity := capacity;
      items := new Slot[capacity](_ => Free);
      size := 0;
      contents := map[];
      new;
      OccupiedNone(items[..]);
    }

    /** The probing loop of cbuild_target_map_insert: the first free slot from `pid % capacity`. */
    method ProbeFree(pid: int) returns (i: nat, ghost k: nat)
      requires Valid() && pid > 0 && Occupied(items[..]) < capacity
      ensures k < capacity && i == Probe(pid % capacity, k, capacity) && items[i].pid == 0
      ensures forall k' :: 0 <= k' < k ==> items[Probe(pid % capacity, k', capacity)].pid != 0
    {
      FreeSlotExists(items[..]);
      ghost var free :| 0 <= free < items.Length && items[free].pid == 0;
      i := pid % capacity;
      ghost var home := i;
      ghost var dist := Distance(home, free, capacity);
      k := 0;
      while items[i].pid != 0
        invariant 0 <= k <= dist && i == Probe(home, k, capacity)
        invariant forall k' :: 0 <= k' < k ==> items[Probe(home, k', capacity)].pid != 0
        decreases dist - k
      {
        NextIndex(i, capacity);
        i := (i + 1) % capacity;
        k := k + 1;
      }
    }

    /** The slot writes of cbuild_target_map_insert, at the slot the probe found. */
    method Place(pid: int, target: nat) returns (ghost k: nat)
      requires Valid() && pid > 0 && pid !in contents && Occupied(items[..]) < capacity
      modifies this, items
      ensures Valid() && items == old(items) && capacity == old(capacity) && size == old(size)
      ensures contents == old(contents)[pid := target]
      ensures k < capacity && old(items[Probe(pid % capacity, k, capacity)]).pid == 0
      ensures forall k' :: 0 <= k' < k ==> old(items[Probe(pid % capacity, k', capacity)]).pid != 0
      ensures items[..] == old(items[..])[Probe(pid % capacity, k, capacity) := Slot(pid, Some(target))]
    {
      var i;
      i, k := ProbeFree(pid);
      TableInvPut(items[..], contents, i, pid, target);
      items[i] := Slot(pid, Some(target));
      contents := contents[pid := target];
    }

    /**
     * cbuild_target_map_insert with the entry count kept: the "Map is full"
     * assertion then holds exactly when a free slot remains.
     */
    method Insert(pid: int, target: nat) returns (ghost k: nat)
      requires Valid() && Counted() && size != capacity
      requires pid > 0 && pid !in contents
      modifies this, items
      ensures Valid() && Counted() && items == old(items) && capacity == old(capacity)
      ensures contents == old(contents)[pid := target] && size == old(size) + 1
      ensures k < capacity && old(items[Probe(pid % capacity, k, capacity)]).pid == 0
      ensures forall k' :: 0 <= k' < k ==> old(items[Probe(pid % capacity, k', capacity)]).pid != 0
      ensures items[..] == old(items[..])[Probe(pid % capacity, k, capacity) := Slot(pid, Some(target))]
    {
      k := Place(pid, target);
      size := size + 1;
    }

    /**
     * cbuild_target_map_insert as written: `size` is never incremented, so
     * the guard `size != capacity` only rules out a zero capacity and the
     * probe runs forever once every slot is taken.  The model requires the
     * free slot that termination needs.
     */
    method InsertAsWritten(pid: int, target: nat) returns (ghost k: nat)
      requires Valid() && size != capacity && pid > 0 && pid !in contents
      requires Occupied(items[..]) < capacity
      modifies this, items
      ensures Valid() && items == old(items) && capacity == old(capacity) && size == old(size)
      ensures contents == old(contents)[pid := target]
      ensures k < capacity
      ensures items[..] == old(items[..])[Probe(pid % capacity, k, capacity) := Slot(pid, Some(target))]
    {
      k := Place(pid, target);
    }

    /** The slot holding `pid`, found by probing from `pid % capacity`. */
    method Find(pid: int) returns (i: nat)
      requires Valid() && pid in contents
      ensures i < items.Length && items[i].pid == pid
    {
      ghost var at :| 0 <= at < items.Length && items[at].pid == pid;
      i := pid % capacity;
      ghost var home := i;
      ghost var dist := Distance(home, at, capacity);
      ghost var k := 0;
      while items[i].pid != pid
        invariant 0 <= k <= dist && i == Probe(home, k, capacity)
        decreases dist - k
      {
        NextIndex(i, capacity);
        i := (i + 1) % capacity;
        k := k + 1;
      }
    }

    /**
     * cbuild_target_map_get.  The "Map is full" assertion is dropped: with
     * `size` counting entries it would fire on a full table, which the
     * scheduler reaches whenever `nb_process` children run.
     */
    method Get(pid: int) returns (target: nat)
      requires Valid() && pid in contents
      ensures target == contents[pid]
    {
      var i := Find(pid);
      target := items[i].target.value;
    }

    /** The slot writes of cbuild_target_map_remove: only the slot that held `pid` is zeroed. */
    method Clear(pid: int) returns (ghost i: nat)
      requires Valid() && pid in contents
      modifies this, items
      ensures Valid() && items == old(items) && capacity == old(capacity) && size == old(size)
      ensures contents == old(contents) - {pid}
      ensures i < items.Length && old(items[i]).pid == pid
      ensures items[..] == old(items[..])[i := Free]
    {
      var j := Find(pid);
      i := j;
      TableInvClear(items[..], contents, j);
      items[j] := Free;
      contents := contents - {pid};
    }

    /** cbuild_target_map_remove with the entry count kept, the count of the corrected insertion. */
    method Remove(pid: int) returns (ghost i: nat)
      requires Valid() && Counted() && pid in contents
      modifies this, items
      ensures Valid() && Counted() && items == old(items) && capacity == old(capacity)
      ensures contents == old(contents) - {pid} && size == old(size) - 1
      ensures i < items.Length && old(items[i]).pid == pid
      ensures items[..] == old(items[..])[i := Free]
    {
      i := Clear(pid);
      size := size - 1;
    }

    /**
     * cbuild_target_map_remove as written: the "Map is full" assertion is the
     * precondition on `size`, which is left as it is.
     */
    method RemoveAsWritten(pid: int) returns (ghost i: nat)
      requires Valid() && size != capacity && pid in contents
      modifies this, items
      ensures Valid() && items == old(items) && capacity == old(capacity) && size == old(size)
      ensures contents == old(contents) - {pid}
      ensures i < items.Length && old(items[i]).pid == pid
      ensures items[..] == old(items[..])[i := Free]
    {
      i := Clear(pid);
    }
  }

  /**
   * With `size` never incremented, one insertion into a one-slot table fills
   * it while the "Map is full" guard still reads `0 != 1`: the next insertion
   * passes the guard and finds no free slot.
   */
  method FullTablePassesGuard() returns (guardPasses: bool, freeSlots: nat)
    ensures guardPasses && freeSlots == 0
  {
    var m := new TargetMap(1);
    var k := m.InsertAsWritten(5, 0);
    assert m.items[..] == [Slot(5, Some(0))];
    assert Occupied(m.items[..]) == 1 by {
      assert m.items[..][..0] == [];
    }
    guardPasses := m.size != m.capacity;
    freeSlots := m.capacity - Occupied(m.items[..]);
  }
}
