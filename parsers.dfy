/**
 * The typed value parsers of cargparse.  Each parse function takes the
 * argument string (NULL when no value was available) and writes the
 * variable its item points at.  Here a variable is named by a number and
 * the store of all of them is a map; a variable of static storage that was
 * never written holds zero, so an absent bool reads as false.
 */
module ValueParsers {
  import opened Wrappers
  import opened StrView
  import Memory

  /** cargparse_error */
  datatype Error = NoError | UnknownArg | WrongValueType | MissingValue | PrintHelp

  /** The values the four argument types hold; a string vector is held by its elements. */
  datatype Value = BoolV(b: bool) | IntV(i: int) | CstrV(s: Option<CStr>) | VecV(strs: seq<Option<CStr>>)

  type Store = map<nat, Value>

  /** The current value of a bool variable. */
  function BoolOf(vals: Store, id: nat): bool {
    id in vals && vals[id].BoolV? && vals[id].b
  }

  /** cargparse_str_vector */
  class StrVec {
    var strs: array?<Option<CStr>>
    var size: nat
    var capacity: nat

    ghost predicate Valid()
      reads this
    {
      && (strs == null ==> capacity == 0 && size == 0)
      && (strs != null ==> 0 < capacity == strs.Length && size <= capacity)
    }

    /** The strings stored so far. */
    function Elements(): seq<Option<CStr>>
      reads this, strs
      requires Valid()
    {
      if strs == null then [] else strs[..size]
    }

    /** The zero-initialised vector `{ 0 }`. */
    constructor ()
      ensures Valid() && strs == null && Elements() == []
    {
      strs := null;
      size, capacity := 0, 0;
    }

    /** cargparse_str_vector_add_str: 8 slots on first use, twice as many whenever full. */
    method AddStr(s: Option<CStr>)
      requires Valid()
      modifies this, strs
      ensures Valid() && strs != null
      ensures Elements() == old(Elements()) + [s]
      ensures capacity == if old(capacity) == 0 then 8
                          else if old(size) == old(capacity) then 2 * old(capacity)
                          else old(capacity)
      ensures strs == old(strs) || fresh(strs)
    {
      if capacity == 0 && strs == null {
        strs := new Option<CStr>[8](_ => None);
        capacity := 8;
      }
      if size == capacity {
        strs := Memory.Realloc(strs, capacity * 2, None);
        capacity := capacity * 2;
      }
      strs[size] := s;
      size := size + 1;
    }

    /** cargparse_str_vector_get: the caller must pass an index below `size`. */
    function Get(index: nat): (r: Option<CStr>)
      reads this, strs
      requires Valid() && index < size
      ensures r == Elements()[index]
    {
      strs[index]
    }
  }

  /** The variables the ARGUMENT declarations create, each named by its number. */
  class Globals {
    var vals: Store

    constructor (init: Store)
      ensures vals == init
    {
      vals := init;
    }
  }

  /** cargparse_parse_bool_arg: flips the variable; the argument is ignored. */
  method ParseBoolArg(arg: Option<CStr>, g: Globals, data: nat) returns (e: Error)
    modifies g
    ensures e == NoError && g.vals == old(g.vals)[data := BoolV(!BoolOf(old(g.vals), data))]
  {
    g.vals := g.vals[data := BoolV(!BoolOf(g.vals, data))];
    e := NoError;
  }

  /** cargparse_parse_cstr_arg: stores the argument pointer itself. */
  method ParseCstrArg(arg: Option<CStr>, g: Globals, data: nat) returns (e: Error)
    modifies g
    ensures arg.None? ==> e == MissingValue && g.vals == old(g.vals)
    ensures arg.Some? ==> e == NoError && g.vals == old(g.vals)[data := CstrV(arg)]
  {
    if arg.None? {
      return MissingValue;
    }
    g.vals := g.vals[data := CstrV(arg)];
    e := NoError;
  }

  // ---------------------------------------------------------------- strtol

  const LONG_MIN: int := -0x8000_0000_0000_0000
  const LONG_MAX: int := 0x7FFF_FFFF_FFFF_FFFF

  /** `isspace` in the C locale. */
  predicate IsSpace(c: char) {
    c == ' ' || 9 <= c as int <= 13
  }

  predicate IsDigit(c: char) {
    '0' as int <= c as int <= '9' as int
  }

  /** The end of the run of white space starting at `i`. */
  function SpaceEnd(s: CStr, i: nat): (j: nat)
    requires i <= |s|
    ensures i <= j <= |s|
    ensures forall k :: i <= k < j ==> IsSpace(s[k])
    ensures j < |s| ==> !IsSpace(s[j])
    decreases |s| - i
  {
    if i < |s| && IsSpace(s[i]) then SpaceEnd(s, i + 1) else i
  }

  /** The end of the run of decimal digits starting at `i`. */
  function DigitEnd(s: CStr, i: nat): (j: nat)
    requires i <= |s|
    ensures i <= j <= |s|
    ensures forall k :: i <= k < j ==> IsDigit(s[k])
    ensures j < |s| ==> !IsDigit(s[j])
    decreases |s| - i
  {
    if i < |s| && IsDigit(s[i]) then DigitEnd(s, i + 1) else i
  }

  /** The number a string of decimal digits denotes, most significant first. */
  function Decimal(ds: seq<char>): nat
    requires forall k :: 0 <= k < |ds| ==> IsDigit(ds[k])
  {
    if ds == [] then 0
    else
      var c := ds[|ds| - 1];
      assert IsDigit(c);
      10 * Decimal(ds[..|ds| - 1]) + (c as int - '0' as int)
  }

  /** What `strtol(s, &end, 10)` returns and how far `end` gets. */
  datatype Conversion = Conversion(value: int, end: nat)

  function Clamp(lo: int, v: int, hi: int): int {
    if v < lo then lo else if v > hi then hi else v
  }

  /**
   * `strtol` in base 10: white space, an optional sign, then the longest run of
   * digits.  Without digits nothing is converted and `end` stays at the start;
   * out of range values saturate (ERANGE) while `end` still passes every digit.
   */
  function StrToL(s: CStr): (r: Conversion)
    ensures r.end <= |s|
    ensures LONG_MIN <= r.value <= LONG_MAX
  {
    var w := SpaceEnd(s, 0);
    var d0 := if w < |s| && (s[w] == '-' || s[w] == '+') then w + 1 else w;
    var d1 := DigitEnd(s, d0);
    if d1 == d0 then Conversion(0, 0)
    else
      var n: int := Decimal(s[d0..d1]);
      Conversion(Clamp(LONG_MIN, if d0 > w && s[w] == '-' then -n else n, LONG_MAX), d1)
  }

  /** The `(int)` cast from `long`: two's complement truncation to 32 bits. */
  function ToInt32(v: int): (r: int)
    ensures -0x8000_0000 <= r < 0x8000_0000
    ensures -0x8000_0000 <= v < 0x8000_0000 ==> r == v
  {
    (v + 0x8000_0000) % 0x1_0000_0000 - 0x8000_0000
  }

  /** The outcome of cargparse_parse_int_arg on a present argument: the error and the value written. */
  datatype IntResult = IntResult(err: Error, value: int)

  /**
   * cargparse_parse_int_arg as written: the value is written whatever the
   * outcome, and the only check is that `*endptr` is the terminating NUL.
   */
  function IntArgAsWritten(a: CStr): (r: IntResult)
    ensures r.value == ToInt32(StrToL(a).value)
    ensures r.err == WrongValueType <==> StrToL(a).end < |a|
    ensures r.err == NoError || r.err == WrongValueType
  {
    var c := StrToL(a);
    IntResult(if c.end == |a| then NoError else WrongValueType, ToInt32(c.value))
  }

  /** The empty string converts nothing, yet the check above accepts it as 0. */
  lemma EmptyIntAccepted()
    ensures StrToL([]).end == 0
    ensures IntArgAsWritten([]) == IntResult(NoError, 0)
  {
  }

  /**
   * cargparse_parse_int_arg with the conversion check it evidently intends:
   * an argument is a number only if `strtol` converted something and stopped
   * at the end of the string.
   */
  function IntArg(a: CStr): (r: IntResult)
    ensures r.value == ToInt32(StrToL(a).value)
    ensures r.err == WrongValueType <==> StrToL(a).end < |a| || a == []
    ensures r.err == NoError || r.err == WrongValueType
  {
    var c := StrToL(a);
    IntResult(if c.end == |a| && c.end > 0 then NoError else WrongValueType, ToInt32(c.value))
  }

  /** The two versions differ only on the empty argument. */
  lemma IntArgFixesOnlyEmpty(a: CStr)
    ensures a != [] ==> IntArg(a) == IntArgAsWritten(a)
    ensures IntArg([]).err == WrongValueType
  {
  }

  /** The decimal digits of a natural number, without leading zeros. */
  function Digits(n: nat): (r: CStr)
    ensures |r| > 0 && forall k :: 0 <= k < |r| ==> IsDigit(r[k])
  {
    var d := [(('0' as int) + n % 10) as char];
    if n < 10 then d else Digits(n / 10) + d
  }

  /** The decimal numeral of an integer, as `printf("%d")` writes it. */
  function Numeral(n: int): CStr {
    if n < 0 then ['-'] + Digits(-n) else Digits(n)
  }

  lemma {:induction false} DecimalOfDigits(n: nat)
    ensures Decimal(Digits(n)) == n
  {
    var ds := Digits(n);
    if n >= 10 {
      DecimalOfDigits(n / 10);
      assert ds[..|ds| - 1] == Digits(n / 10);
    }
  }

  lemma DigitEndOfDigits(s: CStr, i: nat)
    requires i <= |s| && forall k :: i <= k < |s| ==> IsDigit(s[k])
    ensures DigitEnd(s, i) == |s|
  {
  }

  /** Every `int` written as a numeral parses back to itself without error. */
  lemma IntArgOfNumeral(n: int)
    requires -0x8000_0000 <= n < 0x8000_0000
    ensures IntArgAsWritten(Numeral(n)) == IntResult(NoError, n)
    ensures IntArg(Numeral(n)) == IntResult(NoError, n)
  {
    var s := Numeral(n);
    var m := if n < 0 then -n else n;
    var d0 := if n < 0 then 1 else 0;
    assert s[d0..|s|] == Digits(m);
    assert !IsSpace(s[0]);
    DigitEndOfDigits(s, d0);
    DecimalOfDigits(m);
    assert SpaceEnd(s, 0) == 0;
    assert n >= 0 ==> s[0] != '-' && s[0] != '+';
    assert DigitEnd(s, d0) == |s| > d0;
    assert Decimal(s[d0..|s|]) == m;
    assert StrToL(s) == Conversion(n, |s|);
  }

  /** Each string as a non-NULL pointer. */
  function Somes(ts: seq<CStr>): (r: seq<Option<CStr>>)
    ensures |r| == |ts| && forall k :: 0 <= k < |ts| ==> r[k] == Some(ts[k])
  {
    if ts == [] then [] else Somes(ts[..|ts| - 1]) + [Some(ts[|ts| - 1])]
  }

  /** The strings cargparse_parse_str_vec_arg stores: the first `strtok` result even when it is NULL, then the rest. */
  function VecArg(a: CStr): (r: seq<Option<CStr>>)
    ensures |r| >= 1
    ensures Tokens(a, 0, [',']) == [] ==> r == [None]
    ensures Tokens(a, 0, [',']) != [] ==> r == Somes(Tokens(a, 0, [',']))
  {
    var ts := Tokens(a, 0, [',']);
    if ts == [] then [None] else Somes(ts)
  }

  /** Values joined by commas come back one by one. */
  lemma VecArgOfJoin(words: seq<CStr>)
    requires words != [] && forall w :: w in words ==> |w| > 0 && ',' !in w
    ensures |VecArg(Join(words, ','))| == |words|
    ensures forall k :: 0 <= k < |words| ==> VecArg(Join(words, ','))[k] == Some(words[k])
  {
    TokensOfJoin(words, ',');
  }

  lemma Reassociate(done: seq<CStr>, t: CStr, rest: seq<CStr>)
    ensures done + ([t] + rest) == (done + [t]) + rest
  {
  }

  /** cargparse_parse_int_arg, as written: an empty value is accepted as 0. */
  method ParseIntArg(arg: Option<CStr>, g: Globals, data: nat) returns (e: Error)
    modifies g
    ensures arg.None? ==> e == MissingValue && g.vals == old(g.vals)
    ensures arg.Some? ==> e == IntArgAsWritten(arg.value).err
                          && g.vals == old(g.vals)[data := IntV(IntArgAsWritten(arg.value).value)]
  {
    if arg.None? {
      return MissingValue;
    }
    var c := StrToL(arg.value);
    g.vals := g.vals[data := IntV(ToInt32(c.value))];
    e := if c.end == |arg.value| then NoError else WrongValueType;
  }

  /** The `strtok` loop of cargparse_parse_str_vec_arg, filling a new vector. */
  method TokenVector(s: CStr) returns (vector: StrVec)
    ensures fresh(vector) && vector.Valid() && (vector.strs == null || fresh(vector.strs))
    ensures vector.Elements() == VecArg(s)
  {
    vector := new StrVec();
    var tok, pos := CstrSplit(s, 0, [',']);
    if tok.None? {
      vector.AddStr(None);
      assert vector.Elements() == [None];
    } else {
      ghost var done := [Text(tok.value)];
      vector.AddStr(Some(Text(tok.value)));
      assert vector.Elements() == Somes(done);
      while true
        invariant vector.Valid() && fresh(vector) && (vector.strs == null || fresh(vector.strs))
        invariant pos <= |s|
        invariant vector.Elements() == Somes(done)
        invariant Tokens(s, 0, [',']) == done + Tokens(s, pos, [','])
        decreases |s| - pos
      {
        ghost var rest := Tokens(s, pos, [',']);
        tok, pos := CstrSplit(s, pos, [',']);
        if tok.None? {
          assert done + rest == done;
          break;
        }
        var t := Text(tok.value);
        vector.AddStr(Some(t));
        Reassociate(done, t, Tokens(s, pos, [',']));
        assert (done + [t])[..|done|] == done;
        done := done + [t];
      }
      assert Tokens(s, 0, [',']) == done;
    }
  }

  /**
   * cargparse_parse_str_vec_arg: `strtok` cuts the argument at commas the way
   * cargparse_cstr_split does; the first token goes into the vector even when
   * there is none (a NULL), the others while they last.
   */
  method ParseStrVecArg(arg: Option<CStr>, g: Globals, data: nat) returns (e: Error)
    modifies g
    ensures arg.None? ==> e == MissingValue && g.vals == old(g.vals)
    ensures arg.Some? ==> e == NoError && g.vals == old(g.vals)[data := VecV(VecArg(arg.value))]
  {
    if arg.None? {
      return MissingValue;
    }
    var vector := TokenVector(arg.value);
    g.vals := g.vals[data := VecV(vector.Elements())];
    e := NoError;
  }
}
