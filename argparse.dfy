/**
 * The command-line driver of cargparse.  `cargparse_parse_args` walks the
 * arguments once: options are handed to their parse functions (possibly
 * consuming the next argument as a value), other arguments are moved down to
 * the front of `argv` in place, and `--` ends option processing.
 *
 * The specification functions below follow the same steps on values: `St`
 * holds the variables and the arguments not yet shifted (`(*argv)[0 ..
 * *argc]`).  The methods, on the caller's argument buffer, are proved to
 * leave exactly what these functions compute.
 */
module ArgParse {
  import opened Wrappers
  import opened StrView
  import opened ArgMap
  import opened ValueParsers

  /** Argument pointers; None is NULL. */
  type Argv = seq<Option<CStr>>

  /** The variables, and the arguments `*argc`/`*argv` still designate. */
  datatype St = St(vals: Store, rest: Argv)

  /** cargparse_shift_args on values. */
  function Shift(rest: Argv): (r: (Option<CStr>, Argv))
    ensures |r.1| <= |rest|
    ensures r.0.Some? ==> |r.1| < |rest|
  {
    if rest == [] then (None, rest) else (rest[0], rest[1..])
  }

  /** `*argc` and `*argv`: `argv` points `pos` entries into the caller's buffer `buf`. */
  class Cursor {
    const buf: array<Option<CStr>>
    var pos: nat
    var argc: nat

    ghost predicate Valid()
      reads this
    {
      pos + argc <= buf.Length
    }

    /** The arguments not yet shifted. */
    ghost function Remaining(): Argv
      reads this, buf
      requires Valid()
    {
      buf[pos..pos + argc]
    }

    /** `main`'s `argc` and `argv`: buffer entry `argc` is the NULL that ends the vector. */
    constructor (buf: array<Option<CStr>>, argc: nat)
      requires argc < buf.Length
      ensures this.buf == buf && pos == 0 && this.argc == argc && Valid()
    {
      this.buf := buf;
      pos := 0;
      this.argc := argc;
    }

    /** cargparse_shift_args */
    method ShiftArgs() returns (r: Option<CStr>)
      requires Valid()
      modifies this
      ensures Valid()
      ensures old(argc) == 0 ==> r == None && pos == old(pos) && argc == 0
      ensures old(argc) > 0 ==> r == buf[old(pos)] && pos == old(pos) + 1 && argc == old(argc) - 1
      ensures (r, Remaining()) == Shift(old(Remaining()))
    {
      if argc == 0 {
        return None;
      }
      r := buf[pos];
      assert buf[pos + 1..pos + argc] == buf[pos..pos + argc][1..];
      argc := argc - 1;
      pos := pos + 1;
    }

    /**
     * `final` kept arguments do not reach into the ones not yet read; with
     * none left to read, the count may run ahead (it starts at 1 even when
     * there is no program name).
     */
    ghost predicate Below(final: nat)
      reads this
    {
      final <= pos || argc == 0
    }

    /** `argv_begin[final_argc++] = arg`: kept arguments are written below the ones not yet read. */
    method Keep(final: nat, arg: Option<CStr>) returns (next: nat)
      requires Valid() && final < pos
      modifies buf
      ensures next == final + 1
      ensures buf[..next] == old(buf[..final]) + [arg]
      ensures Remaining() == old(Remaining())
    {
      buf[final] := arg;
      next := final + 1;
    }

    /** The second loop of cargparse_parse_args: the arguments up to the first NULL are kept as they come. */
    method CopyRemaining(final: nat) returns (next: nat)
      requires Valid() && Below(final) && final <= buf.Length
      modifies this, buf
      ensures Valid() && pos + argc == old(pos + argc) && (next <= pos || next == final)
      ensures buf[..next] == old(buf[..final]) + UntilNull(old(Remaining()))
    {
      next := final;
      ghost var b := buf[..final];
      ghost var rest := Remaining();
      ghost var after: Argv := [];
      while true
        invariant Valid() && pos + argc == old(pos + argc) && Below(next) && (next <= pos || next == final)
        invariant next <= buf.Length && buf[..next] == b + after
        invariant after + UntilNull(Remaining()) == UntilNull(rest)
        decreases argc
      {
        ghost var r0 := Remaining();
        var arg := ShiftArgs();
        if arg.None? {
          CopyEnd(after, r0, rest);
          break;
        }
        CopyStep(after, r0, Remaining(), arg, rest);
        next := Keep(next, arg);
        assert buf[..next] == (b + after) + [arg];
        after := after + [arg];
      }
    }

    /**
     * The end of cargparse_parse_args: the second loop, the closing NULL, and
     * `*argc`, `*argv` designating the `final` arguments kept so far and those copied.
     */
    method Close(final: nat)
      requires Valid() && Below(final) && pos + argc < buf.Length && final < buf.Length
      modifies this, buf
      ensures Valid() && pos == 0 && argc == final + |UntilNull(old(Remaining()))| < buf.Length
      ensures buf[..argc] == old(buf[..final]) + UntilNull(old(Remaining()))
      ensures buf[argc] == None
    {
      var next := CopyRemaining(final);
      ghost var kept := buf[..next];
      buf[next] := None;
      assert buf[..next] == kept;
      argc := next;
      pos := 0;
    }
  }

  /** The call through an item's `parse_function` pointer: what it returns and the variables after. */
  function Apply(p: Parser, arg: Option<CStr>, vals: Store, id: nat): (Error, Store) {
    match p
    case BoolParser => (NoError, vals[id := BoolV(!BoolOf(vals, id))])
    case CstrParser => if arg.None? then (MissingValue, vals) else (NoError, vals[id := CstrV(arg)])
    case IntParser =>
      if arg.None? then (MissingValue, vals)
      else (IntArgAsWritten(arg.value).err, vals[id := IntV(IntArgAsWritten(arg.value).value)])
    case StrVecParser => if arg.None? then (MissingValue, vals) else (NoError, vals[id := VecV(VecArg(arg.value))])
  }

  /** An int item given an empty value, as in `--count=`, is set to 0 without error. */
  lemma EmptyIntValueStored(vals: Store, id: nat)
    ensures Apply(IntParser, Some([]), vals, id) == (NoError, vals[id := IntV(0)])
  {
    EmptyIntAccepted();
  }

  /** `arg_item->parse_function(arg, arg_item->data)` */
  method Invoke(item: Item, arg: Option<CStr>, g: Globals) returns (e: Error)
    modifies g
    ensures (e, g.vals) == Apply(item.parse, arg, old(g.vals), item.data)
  {
    match item.parse {
      case BoolParser => e := ParseBoolArg(arg, g, item.data);
      case CstrParser => e := ParseCstrArg(arg, g, item.data);
      case IntParser => e := ParseIntArg(arg, g, item.data);
      case StrVecParser => e := ParseStrVecArg(arg, g, item.data);
    }
  }

  /** The first offset at or after `i` holding `c`, or the terminating NUL's offset (`strchr` and the name scan). */
  function Find(s: CStr, c: CChar, i: nat): (j: nat)
    requires i <= |s|
    ensures i <= j <= |s|
    ensures forall k :: i <= k < j ==> s[k] != c
    ensures j < |s| ==> s[j] == c
    decreases |s| - i
  {
    if i < |s| && s[i] != c then Find(s, c, i + 1) else i
  }

  /**
   * What cargparse_get_arg_name returns and leaves in `*is_equal_arg`, given
   * its value `isEqualArg` before the call; it is left alone when the string
   * does not start with '-'.
   */
  function ArgName(s: CStr, isEqualArg: bool): (r: (StrView, bool))
    ensures At(s, 0) != '-' ==> r.0 == View(s, 1, 0) && r.1 == isEqualArg
    ensures At(s, 0) == '-' ==>
              var start := if At(s, 1) == '-' then 2 else 1;
              && r.0.base == s && r.0.start == start && start + r.0.size <= |s|
              && (forall c :: c in Text(r.0) ==> c != '=')
              && (r.1 <==> start + r.0.size < |s|)
              && (r.1 ==> s[start + r.0.size] == '=')
  {
    if At(s, 0) != '-' then (View(s, 1, 0), isEqualArg)
    else
      var start := if At(s, 1) == '-' then 2 else 1;
      var stop := Find(s, '=', start);
      (View(s, start, stop - start), At(s, stop) == '=')
  }

  /** cargparse_get_arg_name: the name runs to the first '=' or the end. */
  method GetArgName(s: CStr, isEqualArg: bool) returns (name: StrView, isEq: bool)
    ensures (name, isEq) == ArgName(s, isEqualArg)
  {
    if At(s, 0) != '-' {
      return View(s, 1, 0), isEqualArg;
    }
    var start := 1;
    if At(s, 1) == '-' {
      start := 2;
    }
    var size := 0;
    while At(s, start + size) != '\0' && At(s, start + size) != '='
      invariant start + size <= |s|
      invariant Find(s, '=', start) == Find(s, '=', start + size)
      decreases |s| - size
    {
      size := size + 1;
    }
    isEq := At(s, start + size) == '=';
    name := View(s, start, size);
  }

  const HELP: CStr := "help"

  /** `strncmp(name.str, "help", name.size) == 0` holds exactly for the prefixes of "help", the empty one included. */
  lemma HelpPrefix(name: StrView)
    requires name.start + name.size <= |name.base|
    ensures StrnEq(Tail(name), HELP, name.size) <==> name.size <= 4 && Text(name) == HELP[..name.size]
  {
    assert Tail(name)[..name.size] == Text(name);
    StrnEqPrefix(Tail(name), HELP, name.size);
  }

  /** In `--name=value`, the first '=' of the whole argument is the one that ends the name. */
  lemma FirstEqualEndsName(arg: CStr)
    requires At(arg, 0) == '-' && At(arg, 1) == '-'
    ensures Find(arg, '=', 0) == Find(arg, '=', 2)
  {
  }

  /** A parse function's call and the arguments left: its error and the state after. */
  function Dispatch(item: Item, a: Option<CStr>, vals: Store, rest: Argv): (Error, St) {
    var (e, v) := Apply(item.parse, a, vals, item.data);
    (e, St(v, rest))
  }

  /** cargparse_parse_small_arg from the `k`-th byte of `arg0`; `arg` is the value of its `arg` variable. */
  function SmallSpec(regs: seq<Item>, arg0: CStr, k: nat, arg: Option<CStr>, st: St): (r: (Error, St))
    requires 1 <= k <= |arg0|
    ensures |r.1.rest| <= |st.rest|
    decreases |arg0| - k
  {
    if At(arg0, k) == '\0' then (NoError, st)
    else
      match LastMatch(regs, View(arg0, k, 1))
      case None => (UnknownArg, st)
      case Some(item) =>
        var (a, rest) := if item.needsValue then Shift(st.rest) else (arg, st.rest);
        var (e, st1) := Dispatch(item, a, st.vals, rest);
        if e != NoError then (e, st1)
        else
          var r := SmallSpec(regs, arg0, k + 1, a, st1);
          r
  }

  /** One letter of a group of short arguments that names a registered item. */
  lemma SmallStep(regs: seq<Item>, arg0: CStr, k: nat, arg: Option<CStr>, st: St,
                  item: Item, a: Option<CStr>, rest: Argv, e: Error, st1: St)
    requires 1 <= k < |arg0|
    requires LastMatch(regs, View(arg0, k, 1)) == Some(item)
    requires (a, rest) == if item.needsValue then Shift(st.rest) else (arg, st.rest)
    requires (e, st1) == Dispatch(item, a, st.vals, rest)
    ensures SmallSpec(regs, arg0, k, arg, st)
            == if e != NoError then (e, st1) else SmallSpec(regs, arg0, k + 1, a, st1)
  {
  }

  /** The value a long argument gets: the next argument, the text after '=', or the argument itself (a flag). */
  function LongValue(arg: CStr, isEq: bool, needsValue: bool, rest: Argv): (r: (Option<CStr>, Argv))
    requires Find(arg, '=', 0) < |arg| || !isEq
    ensures |r.1| <= |rest|
  {
    if !isEq && needsValue then Shift(rest)
    else if isEq then (Some(arg[Find(arg, '=', 0) + 1..]), rest)
    else (Some(arg), rest)
  }

  /** cargparse_parse_argument for an argument starting with "--". */
  function LongSpec(regs: seq<Item>, arg: CStr, st: St): (r: (Error, St))
    requires At(arg, 0) == '-' && At(arg, 1) == '-'
    ensures |r.1.rest| <= |st.rest|
  {
    var (name, isEq) := ArgName(arg, false);
    if StrnEq(Tail(name), HELP, name.size) then (PrintHelp, st)
    else
      match LastMatch(regs, name)
      case None => (UnknownArg, st)
      case Some(item) =>
        FirstEqualEndsName(arg);
        var (a, rest) := LongValue(arg, isEq, item.needsValue, st.rest);
        Dispatch(item, a, st.vals, rest)
  }

  /** cargparse_parse_argument on values. */
  function ArgumentSpec(regs: seq<Item>, arg: CStr, st: St): (r: (Error, St))
    requires At(arg, 0) == '-'
    ensures |r.1.rest| <= |st.rest|
  {
    if At(arg, 1) != '-' then SmallSpec(regs, arg, 1, Some(arg), st)
    else LongSpec(regs, arg, st)
  }

  /** One iteration of cargparse_parse_small_arg's loop, at the `k`-th byte of `arg0`; `next` is `arg` afterwards. */
  method SmallLetter(arg0: CStr, k: nat, arg: Option<CStr>, cur: Cursor, m: ArgMap, g: Globals)
    returns (e: Error, next: Option<CStr>)
    requires 1 <= k < |arg0| && At(arg0, k) != '\0' && m.Valid() && cur.Valid()
    modifies cur, g
    ensures cur.Valid() && cur.pos + cur.argc == old(cur.pos + cur.argc)
    ensures e != NoError ==>
              (e, St(g.vals, cur.Remaining())) == SmallSpec(m.registered, arg0, k, arg, St(old(g.vals), old(cur.Remaining())))
    ensures e == NoError ==>
              SmallSpec(m.registered, arg0, k + 1, next, St(g.vals, cur.Remaining()))
              == SmallSpec(m.registered, arg0, k, arg, St(old(g.vals), old(cur.Remaining())))
  {
    ghost var st0 := St(g.vals, cur.Remaining());
    var item := m.ItemGet(View(arg0, k, 1));
    if item.None? {
      return UnknownArg, arg;
    }
    next := arg;
    if item.value.needsValue {
      next := cur.ShiftArgs();
    }
    ghost var rest := cur.Remaining();
    e := Invoke(item.value, next, g);
    SmallStep(m.registered, arg0, k, arg, st0, item.value, next, rest, e, St(g.vals, rest));
  }

  /** cargparse_parse_small_arg: every byte after the '-' is a one-letter argument name. */
  method ParseSmallArg(arg: CStr, cur: Cursor, m: ArgMap, g: Globals) returns (e: Error)
    requires |arg| >= 1 && m.Valid() && cur.Valid()
    modifies cur, g
    ensures cur.Valid() && cur.pos + cur.argc == old(cur.pos + cur.argc)
    ensures (e, St(g.vals, cur.Remaining())) == SmallSpec(m.registered, arg, 1, Some(arg), St(old(g.vals), old(cur.Remaining())))
  {
    ghost var goal := SmallSpec(m.registered, arg, 1, Some(arg), St(g.vals, cur.Remaining()));
    var k := 1;
    var a := Some(arg);
    while At(arg, k) != '\0'
      invariant 1 <= k <= |arg|
      invariant cur.Valid() && cur.pos + cur.argc == old(cur.pos + cur.argc)
      invariant SmallSpec(m.registered, arg, k, a, St(g.vals, cur.Remaining())) == goal
      decreases |arg| - k
    {
      e, a := SmallLetter(arg, k, a, cur, m, g);
      if e != NoError {
        return e;
      }
      k := k + 1;
    }
    e := NoError;
  }

  /** cargparse_parse_argument */
  method ParseArgument(arg: CStr, cur: Cursor, m: ArgMap, g: Globals) returns (e: Error)
    requires At(arg, 0) == '-' && m.Valid() && cur.Valid()
    modifies cur, g
    ensures cur.Valid() && cur.pos + cur.argc == old(cur.pos + cur.argc)
    ensures (e, St(g.vals, cur.Remaining())) == ArgumentSpec(m.registered, arg, St(old(g.vals), old(cur.Remaining())))
  {
    if At(arg, 1) != '-' {
      e := ParseSmallArg(arg, cur, m, g);
    } else {
      e := ParseLongArg(arg, cur, m, g);
    }
  }

  /** The part of cargparse_parse_argument for an argument starting with "--". */
  method ParseLongArg(arg: CStr, cur: Cursor, m: ArgMap, g: Globals) returns (e: Error)
    requires At(arg, 0) == '-' && At(arg, 1) == '-' && m.Valid() && cur.Valid()
    modifies cur, g
    ensures cur.Valid() && cur.pos + cur.argc == old(cur.pos + cur.argc)
    ensures (e, St(g.vals, cur.Remaining())) == LongSpec(m.registered, arg, St(old(g.vals), old(cur.Remaining())))
  {
    ghost var st0 := St(g.vals, cur.Remaining());
    var name, isEq := GetArgName(arg, false);
    if StrnEq(Tail(name), HELP, name.size) {
      return PrintHelp;
    }
    var item := m.ItemGet(name);
    if item.None? {
      return UnknownArg;
    }
    FirstEqualEndsName(arg);
    var a := LongArgValue(arg, isEq, item.value.needsValue, cur);
    assert LongSpec(m.registered, arg, st0) == Dispatch(item.value, a, st0.vals, cur.Remaining());
    e := Invoke(item.value, a, g);
  }

  /** The value cargparse_parse_argument passes to a long argument's parse function. */
  method LongArgValue(arg: CStr, isEq: bool, needsValue: bool, cur: Cursor) returns (a: Option<CStr>)
    requires cur.Valid() && (Find(arg, '=', 0) < |arg| || !isEq)
    modifies cur
    ensures cur.Valid() && cur.pos + cur.argc == old(cur.pos + cur.argc)
    ensures (a, cur.Remaining()) == LongValue(arg, isEq, needsValue, old(cur.Remaining()))
  {
    a := Some(arg);
    if !isEq && needsValue {
      a := cur.ShiftArgs();
    } else if isEq {
      a := Some(arg[Find(arg, '=', 0) + 1..]);
    }
  }

  /** What cargparse_parse_args leaves: the arguments it keeps, or the error `cargparse_print_help` exits with. */
  datatype Outcome = Parsed(before: Argv, after: Argv, vals: Store) | Failed(err: Error, arg: CStr, vals: Store)

  /** The second loop of cargparse_parse_args: everything after `--` is kept. */
  function CopyRest(st: St, before: Argv, after: Argv): Outcome
    decreases |st.rest|
  {
    var (a, rest) := Shift(st.rest);
    if a.None? then Parsed(before, after, st.vals)
    else CopyRest(St(st.vals, rest), before, after + [a])
  }

  /** The first loop of cargparse_parse_args: options are parsed, other arguments kept. */
  function Scan(regs: seq<Item>, st: St, before: Argv): Outcome
    decreases |st.rest|
  {
    var (a, rest) := Shift(st.rest);
    var st1 := St(st.vals, rest);
    if a.None? || a.value == "--" then CopyRest(st1, before, [])
    else if At(a.value, 0) != '-' then Scan(regs, st1, before + [a])
    else
      var (e, st2) := ArgumentSpec(regs, a.value, st1);
      if e != NoError then Failed(e, a.value, st2.vals)
      else Scan(regs, st2, before)
  }

  lemma ScanStop(regs: seq<Item>, st: St, before: Argv)
    requires var a := Shift(st.rest).0; a.None? || a.value == "--"
    ensures Scan(regs, st, before) == CopyRest(St(st.vals, Shift(st.rest).1), before, [])
  {
  }

  lemma ScanKeep(regs: seq<Item>, st: St, before: Argv)
    requires var a := Shift(st.rest).0; a.Some? && a.value != "--" && At(a.value, 0) != '-'
    ensures Scan(regs, st, before) == Scan(regs, St(st.vals, Shift(st.rest).1), before + [Shift(st.rest).0])
  {
  }

  lemma ScanOption(regs: seq<Item>, st: St, before: Argv, e: Error, st2: St)
    requires var a := Shift(st.rest).0; a.Some? && a.value != "--" && At(a.value, 0) == '-'
    requires (e, st2) == ArgumentSpec(regs, Shift(st.rest).0.value, St(st.vals, Shift(st.rest).1))
    ensures Scan(regs, st, before)
            == if e != NoError then Failed(e, Shift(st.rest).0.value, st2.vals) else Scan(regs, st2, before)
  {
  }

  /** The second loop keeps everything up to the first NULL. */
  lemma {:induction false} CopyRestKeepsAll(st: St, before: Argv, after: Argv)
    ensures CopyRest(st, before, after) == Parsed(before, after + UntilNull(st.rest), st.vals)
    decreases |st.rest|
  {
    if st.rest != [] && st.rest[0].Some? {
      CopyRestKeepsAll(St(st.vals, st.rest[1..]), before, after + [st.rest[0]]);
      assert after + [st.rest[0]] + UntilNull(st.rest[1..]) == after + UntilNull(st.rest);
    }
  }

  /** cargparse_parse_args on the arguments after the program name. */
  function ParseArgsSpec(regs: seq<Item>, args: Argv, vals: Store): Outcome {
    Scan(regs, St(vals, args), [])
  }

  /** How cargparse_parse_args ends: it returns 0, or `cargparse_print_help` exits the process. */
  datatype Ending = Returned(code: int) | Exited(status: int, err: Error, wrongArg: CStr)

  /** `exit(error == CARGPARSE_PRINT_HELP ? 0 : 1)` */
  function ExitStatus(err: Error): int {
    if err == PrintHelp then 0 else 1
  }

  /** The program name, kept in front of the other arguments: none when there are no arguments at all. */
  function Head(argv: Argv): Argv {
    if argv == [] then [] else [argv[0]]
  }

  /** The arguments before the first NULL. */
  function UntilNull(rest: Argv): Argv {
    if rest == [] || rest[0].None? then [] else [rest[0]] + UntilNull(rest[1..])
  }

  /** Keeping one more non-NULL argument. */
  lemma CopyStep(after: Argv, r0: Argv, r1: Argv, arg: Option<CStr>, rest: Argv)
    requires (arg, r1) == Shift(r0) && arg.Some? && after + UntilNull(r0) == UntilNull(rest)
    ensures (after + [arg]) + UntilNull(r1) == UntilNull(rest)
  {
    assert UntilNull(r0) == [arg] + UntilNull(r1);
  }

  /** The NULL ends the copy: everything up to it has been kept. */
  lemma CopyEnd(after: Argv, r0: Argv, rest: Argv)
    requires Shift(r0).0.None? && after + UntilNull(r0) == UntilNull(rest)
    ensures after == UntilNull(rest)
  {
    assert UntilNull(r0) == [];
  }

  /** The arguments after the program name, which the first `cargparse_shift_args` skips. */
  function Args(argv: Argv): Argv {
    if argv == [] then [] else argv[1..]
  }

  /** An argument the first loop keeps in place: present, not "--", and not starting with '-'. */
  predicate Operand(a: Option<CStr>) {
    a.Some? && a.value != "--" && At(a.value, 0) != '-'
  }

  lemma {:induction false} UntilNullPrefix(rest: Argv)
    ensures |UntilNull(rest)| <= |rest| && UntilNull(rest) == rest[..|UntilNull(rest)|]
    ensures forall k :: 0 <= k < |UntilNull(rest)| ==> UntilNull(rest)[k].Some?
    ensures |UntilNull(rest)| < |rest| ==> rest[|UntilNull(rest)|].None?
  {
    if rest != [] && rest[0].Some? {
      UntilNullPrefix(rest[1..]);
    }
  }

  /** The first loop keeps no more than it reads, and keeps only operands. */
  lemma {:induction false} ScanKeepsOperands(regs: seq<Item>, st: St, before: Argv)
    requires forall k :: 0 <= k < |before| ==> Operand(before[k])
    ensures var o := Scan(regs, st, before);
            o.Parsed? ==>
              && |o.before| + |o.after| <= |before| + |st.rest|
              && forall k :: 0 <= k < |o.before| ==> Operand(o.before[k])
    decreases |st.rest|
  {
    var (a, rest) := Shift(st.rest);
    if a.None? || a.value == "--" {
      CopyRestKeepsAll(St(st.vals, rest), before, []);
      UntilNullPrefix(rest);
    } else if At(a.value, 0) != '-' {
      ScanKeepsOperands(regs, St(st.vals, rest), before + [a]);
    } else {
      var (e, st2) := ArgumentSpec(regs, a.value, St(st.vals, rest));
      if e == NoError {
        ScanKeepsOperands(regs, st2, before);
      }
    }
  }

  /** Without options, every argument is kept in order and no variable changes. */
  lemma {:induction false} ScanOperands(regs: seq<Item>, st: St, before: Argv)
    requires forall k :: 0 <= k < |st.rest| ==> Operand(st.rest[k])
    ensures Scan(regs, st, before) == Parsed(before + st.rest, [], st.vals)
    decreases |st.rest|
  {
    if st.rest != [] {
      var rest := st.rest[1..];
      ScanOperands(regs, St(st.vals, rest), before + [st.rest[0]]);
      assert before + [st.rest[0]] + rest == before + st.rest;
    } else {
      assert before + st.rest == before;
    }
  }

  /** After "--" nothing is parsed: everything up to the first NULL is kept as it stands. */
  lemma DoubleDashStops(regs: seq<Item>, vals: Store, before: Argv, rest: Argv)
    ensures Scan(regs, St(vals, [Some("--")] + rest), before) == Parsed(before, UntilNull(rest), vals)
  {
    assert ([Some("--")] + rest)[1..] == rest;
    CopyRestKeepsAll(St(vals, rest), before, []);
  }

  /** The first position at or after `i` holding `c` is the one the scan stops at. */
  lemma {:induction false} FindAt(s: CStr, c: CChar, i: nat, j: nat)
    requires i <= j <= |s| && (j == |s| || s[j] == c)
    requires forall k :: i <= k < j ==> s[k] != c
    ensures Find(s, c, i) == j
    decreases j - i
  {
    if i < j {
      FindAt(s, c, i + 1, j);
    }
  }

  /** The name of `--name` or `--name=value` is `name`, and the value (if any) is what follows the first '='. */
  lemma LongName(name: CStr, tail: CStr)
    requires forall k :: 0 <= k < |name| ==> name[k] != '='
    requires tail == [] || tail[0] == '='
    ensures var arg := "--" + name + tail;
            ArgName(arg, false) == (View(arg, 2, |name|), tail != [])
            && Find(arg, '=', 0) == 2 + |name|
            && Text(View(arg, 2, |name|)) == name
  {
    var arg := "--" + name + tail;
    FindAt(arg, '=', 2, 2 + |name|);
    FindAt(arg, '=', 0, 2 + |name|);
    assert arg[2..2 + |name|] == name;
  }

  /** A name is taken for "help" exactly when it is a prefix of "help", the empty name included. */
  predicate HelpLike(name: CStr) {
    |name| <= 4 && name == HELP[..|name|]
  }

  /** `--h`, `--he`, `--hel`, `--help` (with or without `=value`) ask for help, registered or not. */
  lemma LongHelp(regs: seq<Item>, name: CStr, tail: CStr, st: St)
    requires HelpLike(name) && (tail == [] || tail[0] == '=')
    ensures ArgumentSpec(regs, "--" + name + tail, st) == (PrintHelp, st)
  {
    forall k | 0 <= k < |name| ensures name[k] != '=' {
      assert name[k] == HELP[k];
    }
    LongName(name, tail);
    HelpPrefix(View("--" + name + tail, 2, |name|));
  }

  /** A long name that is not registered is an unknown argument, and nothing is consumed. */
  lemma LongUnknown(regs: seq<Item>, name: CStr, tail: CStr, st: St)
    requires forall k :: 0 <= k < |name| ==> name[k] != '='
    requires tail == [] || tail[0] == '='
    requires !HelpLike(name)
    requires forall j :: 0 <= j < |regs| ==> Text(regs[j].name) != name
    ensures ArgumentSpec(regs, "--" + name + tail, st) == (UnknownArg, st)
  {
    var arg := "--" + name + tail;
    var v := View(arg, 2, |name|);
    LongName(name, tail);
    HelpPrefix(v);
    forall j | 0 <= j < |regs| ensures !ViewEq(v, regs[j].name) {
      ViewEqIff(v, regs[j].name);
    }
    LastMatchSpec(regs, v);
  }

  /** `--name=value` for a registered name: the parser gets the text after '=' and nothing is shifted. */
  lemma LongWithValue(regs: seq<Item>, name: CStr, value: CStr, st: St)
    requires forall k :: 0 <= k < |name| ==> name[k] != '='
    requires !HelpLike(name)
    ensures var arg := "--" + name + "=" + value;
            var found := LastMatch(regs, View(arg, 2, |name|));
            found.Some? ==> ArgumentSpec(regs, arg, st) == Dispatch(found.value, Some(value), st.vals, st.rest)
  {
    var arg := "--" + name + "=" + value;
    assert arg == "--" + name + ("=" + value);
    LongName(name, "=" + value);
    HelpPrefix(View(arg, 2, |name|));
    assert arg[2 + |name| + 1..] == value;
  }

  /** `--name` for a registered name: a parser that needs a value takes the next argument, a flag gets the argument itself. */
  lemma LongSeparate(regs: seq<Item>, name: CStr, st: St)
    requires forall k :: 0 <= k < |name| ==> name[k] != '='
    requires !HelpLike(name)
    ensures var arg := "--" + name;
            var found := LastMatch(regs, View(arg, 2, |name|));
            found.Some? ==>
              ArgumentSpec(regs, arg, st)
              == if found.value.needsValue then Dispatch(found.value, Shift(st.rest).0, st.vals, Shift(st.rest).1)
                 else Dispatch(found.value, Some(arg), st.vals, st.rest)
  {
    var arg := "--" + name;
    assert arg == "--" + name + [];
    LongName(name, []);
    HelpPrefix(View(arg, 2, |name|));
  }

  /** A single short option `-x` behaves like the one call of its parser, shifting first when it needs a value. */
  lemma ShortSingle(regs: seq<Item>, x: CChar, st: St)
    requires x != '-' && x != '\0'
    ensures var arg: CStr := ['-', x];
            var found := LastMatch(regs, View(arg, 1, 1));
            && (found.None? ==> ArgumentSpec(regs, arg, st) == (UnknownArg, st))
            && (found.Some? ==>
                  ArgumentSpec(regs, arg, st)
                  == if found.value.needsValue then Dispatch(found.value, Shift(st.rest).0, st.vals, Shift(st.rest).1)
                     else Dispatch(found.value, Some(arg), st.vals, st.rest))
  {
    var arg: CStr := ['-', x];
    assert At(arg, 0) == '-' && At(arg, 1) == x && At(arg, 2) == '\0';
    assert ArgumentSpec(regs, arg, st) == SmallSpec(regs, arg, 1, Some(arg), st);
    var found := LastMatch(regs, View(arg, 1, 1));
    if found.Some? {
      var item := found.value;
      var (a, rest) := if item.needsValue then Shift(st.rest) else (Some(arg), st.rest);
      var (e, st1) := Dispatch(item, a, st.vals, rest);
      assert SmallSpec(regs, arg, 2, a, st1) == (NoError, st1);
      SmallStep(regs, arg, 1, Some(arg), st, item, a, rest, e, st1);
    }
  }

  /** An error stops the first loop: the outcome names the argument being parsed. */
  lemma OptionError(regs: seq<Item>, vals: Store, arg: CStr, rest: Argv, before: Argv)
    requires At(arg, 0) == '-' && arg != "--"
    requires ArgumentSpec(regs, arg, St(vals, rest)).0 != NoError
    ensures var (e, st2) := ArgumentSpec(regs, arg, St(vals, rest));
            Scan(regs, St(vals, [Some(arg)] + rest), before) == Failed(e, arg, st2.vals)
  {
    assert ([Some(arg)] + rest)[1..] == rest;
  }

  /** cargparse_parse_args keeps the program name and then no more arguments than there were. */
  lemma ParsedFits(regs: seq<Item>, argv: Argv, vals: Store)
    ensures var o := ParseArgsSpec(regs, Args(argv), vals);
            o.Parsed? ==>
              && |Head(argv)| + |o.before| + |o.after| <= |argv|
              && forall k :: 0 <= k < |o.before| ==> Operand(o.before[k])
  {
    ScanKeepsOperands(regs, St(vals, Args(argv)), []);
  }

  /** As written, `final_argc` starts at 1 whatever `argc` is: the count stored and the index of the closing NULL. */
  function CountAsWritten(o: Outcome): nat
    requires o.Parsed?
  {
    1 + |o.before| + |o.after|
  }

  /**
   * With `argc == 0` the vector is its NULL alone, yet the count as written is
   * 1: the closing NULL is stored one past the end and `*argc` claims a
   * program name that is not there.
   */
  lemma EmptyArgvOverrun(regs: seq<Item>, vals: Store)
    ensures var buf: Argv := [None];
            var o := ParseArgsSpec(regs, Args(buf[..0]), vals);
            o == Parsed([], [], vals) && CountAsWritten(o) == |buf|
  {
    var buf: Argv := [None];
    assert buf[..0] == [];
  }

  /**
   * The first loop of cargparse_parse_args: options are parsed and other
   * arguments kept, up to "--" or the first NULL.  `failed` is the error and
   * the argument `cargparse_print_help` is called with.
   */
  method ScanOptions(cur: Cursor, m: ArgMap, g: Globals, final: nat)
      returns (next: nat, ghost kept: Argv, failed: Option<(Error, CStr)>)
    requires m.Valid() && cur.Valid() && cur.Below(final) && final <= cur.buf.Length
    modifies cur, cur.buf, g
    ensures cur.Valid() && cur.pos + cur.argc == old(cur.pos + cur.argc)
    ensures cur.Below(next) && (next <= cur.pos || next == final)
    ensures var o := Scan(m.registered, St(old(g.vals), old(cur.Remaining())), []);
            && (failed.Some? ==> o == Failed(failed.value.0, failed.value.1, g.vals))
            && (failed.None? ==> o == CopyRest(St(g.vals, cur.Remaining()), kept, [])
                                 && cur.buf[..next] == old(cur.buf[..final]) + kept)
  {
    ghost var goal := Scan(m.registered, St(g.vals, cur.Remaining()), []);
    ghost var b := cur.buf[..final];
    next := final;
    kept := [];
    while true
      invariant cur.Valid() && cur.pos + cur.argc == old(cur.pos + cur.argc)
      invariant cur.Below(next) && (next <= cur.pos || next == final)
      invariant next <= cur.buf.Length && cur.buf[..next] == b + kept
      invariant Scan(m.registered, St(g.vals, cur.Remaining()), kept) == goal
      decreases cur.argc
    {
      var done;
      next, kept, done, failed := ScanOne(cur, m, g, next, kept, b);
      if done {
        return;
      }
    }
  }

  /**
   * One iteration of the first loop of cargparse_parse_args.  `done` when the
   * loop ends here (`failed` then says whether it was by an error); otherwise
   * the scan goes on from the new state.
   */
  method ScanOne(cur: Cursor, m: ArgMap, g: Globals, next: nat, ghost kept: Argv, ghost b: Argv)
      returns (next1: nat, ghost kept1: Argv, done: bool, failed: Option<(Error, CStr)>)
    requires m.Valid() && cur.Valid() && cur.Below(next) && next <= cur.buf.Length
    requires cur.buf[..next] == b + kept
    modifies cur, cur.buf, g
    ensures cur.Valid() && cur.pos + cur.argc == old(cur.pos + cur.argc)
    ensures cur.Below(next1) && (next1 <= cur.pos || next1 == next)
    ensures next1 <= cur.buf.Length && cur.buf[..next1] == b + kept1
    ensures failed.Some? ==> done
    ensures !done ==> cur.argc < old(cur.argc)
    ensures var o := Scan(m.registered, St(old(g.vals), old(cur.Remaining())), kept);
            && (failed.Some? ==> o == Failed(failed.value.0, failed.value.1, g.vals))
            && (done && failed.None? ==> o == CopyRest(St(g.vals, cur.Remaining()), kept1, []))
            && (!done ==> o == Scan(m.registered, St(g.vals, cur.Remaining()), kept1))
  {
    ghost var st := St(g.vals, cur.Remaining());
    next1, kept1, done, failed := next, kept, false, None;
    var arg := cur.ShiftArgs();
    if arg.None? || arg.value == "--" {
      ScanStop(m.registered, st, kept);
      done := true;
    } else if At(arg.value, 0) != '-' {
      ScanKeep(m.registered, st, kept);
      next1 := cur.Keep(next, arg);
      kept1 := kept + [arg];
    } else {
      var e := ParseArgument(arg.value, cur, m, g);
      ScanOption(m.registered, st, kept, e, St(g.vals, cur.Remaining()));
      if e != NoError {
        done, failed := true, Some((e, arg.value));
      }
    }
  }

  /**
   * cargparse_parse_args on the caller's `argc` and `argv`: `cur` designates
   * the whole vector and `cur.buf[cur.argc]` is its NULL.  The count of kept
   * arguments starts from 1 whatever `argc` is, so entry 0 is kept as the
   * program name, and with `argc == 0` the closing NULL goes to entry 1 (see
   * EmptyArgvOverrun): the buffer must have that entry.  An error ends in
   * `cargparse_print_help`, which exits.
   */
  method ParseArgs(cur: Cursor, m: ArgMap, g: Globals) returns (r: Ending)
    requires m.Valid() && cur.pos == 0 && cur.argc < cur.buf.Length && 2 <= cur.buf.Length
    modifies cur, cur.buf, g
    ensures var argv := old(cur.buf[..cur.argc]);
            var o := ParseArgsSpec(m.registered, Args(argv), old(g.vals));
            && g.vals == o.vals
            && (o.Failed? ==> r == Exited(ExitStatus(o.err), o.err, o.arg))
            && (o.Parsed? ==>
                  && r == Returned(0) && cur.pos == 0
                  && cur.argc == CountAsWritten(o) < cur.buf.Length
                  && cur.buf[..cur.argc] == [old(cur.buf[0])] + o.before + o.after
                  && cur.buf[cur.argc] == None)
  {
    ghost var argv := cur.buf[..cur.argc];
    ghost var goal := ParseArgsSpec(m.registered, Args(argv), g.vals);
    ghost var name := cur.buf[0];
    var final := 1;
    var program := cur.ShiftArgs();
    assert cur.Remaining() == Args(argv) && cur.buf[..final] == [name];
    ghost var kept: Argv;
    var failed;
    final, kept, failed := ScanOptions(cur, m, g, final);
    if failed.Some? {
      return Exited(ExitStatus(failed.value.0), failed.value.0, failed.value.1);
    }
    ghost var rest := cur.Remaining();
    CopyRestKeepsAll(St(g.vals, rest), kept, []);
    assert goal == Parsed(kept, UntilNull(rest), g.vals);
    cur.Close(final);
    assert cur.buf[..cur.argc] == [name] + kept + UntilNull(rest);
    return Returned(0);
  }
}
