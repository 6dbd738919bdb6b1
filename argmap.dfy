/**
 * The argument registry of cargparse: a hash map from argument names to the
 * parse function and the variable it writes.  Collisions are chained: every
 * bucket is a singly linked list with the newest item first, modelled as the
 * sequence of its items from the head.
 */
module ArgMap {
  import opened Wrappers
  import opened StrView

  /** 2^64: `size_t` arithmetic is modulo this. */
  const WORD: nat := 0x1_0000_0000_0000_0000

  /** Bitwise exclusive or of two naturals, one binary digit at a time. */
  function Xor(a: nat, b: nat): nat
    decreases a + b
  {
    if a == 0 then b
    else if b == 0 then a
    else 2 * Xor(a / 2, b / 2) + (a + b) % 2
  }

  /**
   * A byte of a name converted to `size_t` in `hash ^ c` and `hash + c`.
   * `char` is signed here (as on x86), so bytes 128..255 are negative and
   * sign-extend to the top of the 64-bit range.
   */
  function Widen(c: CChar): nat {
    if c as int < 128 then c as int else c as int - 256 + WORD
  }

  /** One round of cargparse_hash_str_view's loop: `(hash ^ c) + c`, wrapping at 2^64. */
  function Step(h: nat, c: CChar): nat {
    (Xor(h, Widen(c)) + Widen(c)) % WORD
  }

  /** The loop of cargparse_hash_str_view from accumulator `h`. */
  function HashFrom(h: nat, s: CStr): nat
    decreases |s|
  {
    if s == [] then h else HashFrom(Step(h, s[0]), s[1..])
  }

  /** cargparse_hash_str_view */
  function Hash(v: StrView): nat {
    HashFrom(0, Text(v))
  }

  lemma HashFromStep(h: nat, s: CStr, i: nat)
    requires i < |s|
    ensures HashFrom(h, s[i..]) == HashFrom(Step(h, s[i]), s[i + 1..])
  {
    assert s[i..][0] == s[i] && s[i..][1..] == s[i + 1..];
  }

  /** cargparse_hash_str_view, byte by byte. */
  method HashStrView(v: StrView) returns (h: nat)
    ensures h == Hash(v)
  {
    ghost var t := Text(v);
    h := 0;
    var i := 0;
    while i < v.size
      invariant 0 <= i <= v.size == |t|
      invariant HashFrom(h, t[i..]) == HashFrom(0, t)
    {
      var c := v.base[v.start + i];
      assert c == t[i];
      HashFromStep(h, t, i);
      h := Step(h, c);
      i := i + 1;
    }
    assert t[i..] == [];
  }

  /** The bucket of a name: `hash % capacity`. */
  function Bucket(v: StrView, capacity: nat): (h: nat)
    requires capacity > 0
    ensures h < capacity
  {
    Hash(v) % capacity
  }

  /** Equal names land in the same bucket, so a lookup searches the chain a registration went to. */
  lemma BucketOfEqual(v1: StrView, v2: StrView, capacity: nat)
    requires capacity > 0 && ViewEq(v1, v2)
    ensures Bucket(v1, capacity) == Bucket(v2, capacity)
  {
    ViewEqIff(v1, v2);
  }

  /** The four parse functions the ARGUMENT macro registers, one per argument type. */
  datatype Parser = StrVecParser | BoolParser | CstrParser | IntParser

  /** cargparse_arg_map_item without its `next` link; `data` identifies the variable the parser writes. */
  datatype Item = Item(name: StrView, parse: Parser, data: nat, needsValue: bool)

  /** The item cargparse_register_arg allocates: only the bool parser takes no value. */
  function NewItem(name: StrView, parse: Parser, data: nat): (it: Item)
    ensures it.name == name && it.parse == parse && it.data == data
    ensures it.needsValue <==> parse != BoolParser
  {
    Item(name, parse, data, parse != BoolParser)
  }

  /** The walk of cargparse_arg_map_item_get along one chain: the first item whose name is equal. */
  function Lookup(chain: seq<Item>, name: StrView): (r: Option<Item>)
    ensures r.None? <==> forall k :: 0 <= k < |chain| ==> !ViewEq(name, chain[k].name)
    ensures r.Some? ==> r.value in chain && ViewEq(name, r.value.name)
  {
    if chain == [] then None
    else if ViewEq(name, chain[0].name) then Some(chain[0])
    else
      var r := Lookup(chain[1..], name);
      assert forall k :: 1 <= k < |chain| ==> chain[k] == chain[1..][k - 1];
      r
  }

  /** The walk stops at the first equal name. */
  lemma {:induction false} LookupFirst(chain: seq<Item>, name: StrView, i: nat)
    requires i < |chain| && ViewEq(name, chain[i].name)
    requires forall k :: 0 <= k < i ==> !ViewEq(name, chain[k].name)
    ensures Lookup(chain, name) == Some(chain[i])
  {
    if i > 0 {
      LookupFirst(chain[1..], name, i - 1);
    }
  }

  /** The `while` loop of cargparse_arg_map_item_get: follow `next` until the name is equal or the chain ends. */
  method FindInChain(chain: seq<Item>, name: StrView) returns (r: Option<Item>)
    ensures r == Lookup(chain, name)
  {
    var i := 0;
    while i < |chain| && !ViewEq(name, chain[i].name)
      invariant 0 <= i <= |chain|
      invariant forall k :: 0 <= k < i ==> !ViewEq(name, chain[k].name)
    {
      i := i + 1;
    }
    if i < |chain| {
      LookupFirst(chain, name, i);
      r := Some(chain[i]);
    } else {
      r := None;
    }
  }

  /** The position of the most recent registration with an equal name, or -1. */
  function LastIndex(regs: seq<Item>, name: StrView): (r: int)
    ensures -1 <= r < |regs|
    ensures r >= 0 ==> ViewEq(name, regs[r].name)
  {
    if regs == [] then -1
    else if ViewEq(name, regs[|regs| - 1].name) then |regs| - 1
    else
      var init := regs[..|regs| - 1];
      var r := LastIndex(init, name);
      assert r >= 0 ==> regs[r] == init[r];
      r
  }

  /** No registration after the one LastIndex finds has an equal name. */
  lemma {:induction false} LastIndexIsLast(regs: seq<Item>, name: StrView)
    ensures forall j :: LastIndex(regs, name) < j < |regs| ==> !ViewEq(name, regs[j].name)
  {
    if regs != [] && !ViewEq(name, regs[|regs| - 1].name) {
      var init := regs[..|regs| - 1];
      LastIndexIsLast(init, name);
      assert forall j :: 0 <= j < |init| ==> regs[j] == init[j];
    }
  }

  /** The most recently registered item with an equal name (NULL, None, when there is none). */
  function LastMatch(regs: seq<Item>, name: StrView): Option<Item> {
    var k := LastIndex(regs, name);
    if k < 0 then None else Some(regs[k])
  }

  /** None exactly when no registration has an equal name; otherwise the item is registered under an equal name. */
  lemma LastMatchSpec(regs: seq<Item>, name: StrView)
    ensures LastMatch(regs, name).None? <==> forall j :: 0 <= j < |regs| ==> !ViewEq(name, regs[j].name)
    ensures LastMatch(regs, name).Some? ==>
              LastMatch(regs, name).value in regs && ViewEq(name, LastMatch(regs, name).value.name)
  {
    LastIndexIsLast(regs, name);
  }

  /** The chain of bucket `b` after registering `regs` in order: newest first. */
  function Chain(regs: seq<Item>, b: nat, capacity: nat): seq<Item>
    requires capacity > 0
  {
    if regs == [] then []
    else
      var last := regs[|regs| - 1];
      (if Bucket(last.name, capacity) == b then [last] else []) + Chain(regs[..|regs| - 1], b, capacity)
  }

  lemma ChainSnoc(regs: seq<Item>, it: Item, b: nat, capacity: nat)
    requires capacity > 0
    ensures Chain(regs + [it], b, capacity)
            == (if Bucket(it.name, capacity) == b then [it] else []) + Chain(regs, b, capacity)
  {
    assert (regs + [it])[..|regs|] == regs;
  }

  lemma LookupCons(x: Item, c: seq<Item>, name: StrView)
    ensures Lookup([x] + c, name) == if ViewEq(name, x.name) then Some(x) else Lookup(c, name)
  {
    assert ([x] + c)[0] == x && ([x] + c)[1..] == c;
  }

  lemma LastMatchSnoc(init: seq<Item>, x: Item, name: StrView)
    ensures LastMatch(init + [x], name) == if ViewEq(name, x.name) then Some(x) else LastMatch(init, name)
  {
    var regs := init + [x];
    assert regs[..|init|] == init;
    if !ViewEq(name, x.name) {
      assert LastIndex(regs, name) == LastIndex(init, name);
      var k := LastIndex(init, name);
      if k >= 0 {
        assert regs[k] == init[k];
      }
    }
  }

  /** Looking a name up in its bucket finds the last registration of that name. */
  lemma {:induction false} LookupChain(regs: seq<Item>, name: StrView, capacity: nat)
    requires capacity > 0
    ensures Lookup(Chain(regs, Bucket(name, capacity), capacity), name) == LastMatch(regs, name)
  {
    if regs != [] {
      var b := Bucket(name, capacity);
      var last := regs[|regs| - 1];
      var init := regs[..|regs| - 1];
      assert regs == init + [last];
      LookupChain(init, name, capacity);
      ChainSnoc(init, last, b, capacity);
      LastMatchSnoc(init, last, name);
      if Bucket(last.name, capacity) == b {
        LookupCons(last, Chain(init, b, capacity), name);
      } else {
        assert [] + Chain(init, b, capacity) == Chain(init, b, capacity);
        if ViewEq(name, last.name) {
          BucketOfEqual(name, last.name, capacity);
        }
      }
    }
  }

  /** cargparse_arg_map: the bucket array and its length. */
  class ArgMap {
    var items: array<seq<Item>>
    var capacity: nat
    /** Every registration so far, oldest first. */
    ghost var registered: seq<Item>

    ghost predicate Valid()
      reads this, items
    {
      && capacity == items.Length > 0
      && forall b :: 0 <= b < items.Length ==> items[b] == Chain(registered, b, capacity)
    }

    /** The empty map cargparse_setup_args allocates: ten buckets. */
    constructor ()
      ensures Valid() && fresh(items) && capacity == 10 && registered == []
      ensures forall b :: 0 <= b < items.Length ==> items[b] == []
    {
      items := new seq<Item>[10](_ => []);
      capacity := 10;
      registered := [];
    }

    /** cargparse_register_arg: the new item goes to the head of its bucket's chain. */
    method Register(arg: StrView, parse: Parser, data: nat) returns (r: int)
      requires Valid()
      modifies this, items
      ensures Valid() && r == 0
      ensures items == old(items) && capacity == old(capacity)
      ensures registered == old(registered) + [NewItem(arg, parse, data)]
      ensures var h := Bucket(arg, capacity);
              items[..] == old(items[..])[h := [NewItem(arg, parse, data)] + old(items[h])]
    {
      var item := NewItem(arg, parse, data);
      var hash := HashStrView(arg);
      var h := hash % capacity;
      ghost var regs := registered;
      registered := registered + [item];
      if items[h] == [] {
        items[h] := [item];
      } else {
        items[h] := [item] + items[h];
      }
      forall b | 0 <= b < items.Length
        ensures items[b] == Chain(registered, b, capacity)
      {
        ChainSnoc(regs, item, b, capacity);
      }
      r := 0;
    }

    /** cargparse_arg_map_item_get: NULL (None) when no registered name is equal. */
    method ItemGet(name: StrView) returns (r: Option<Item>)
      requires Valid()
      ensures r == LastMatch(registered, name)
    {
      var hash := HashStrView(name);
      var h := hash % capacity;
      if items[h] == [] {
        LookupChain(registered, name, capacity);
        return None;
      }
      r := FindInChain(items[h], name);
      LookupChain(registered, name, capacity);
    }
  }
}
