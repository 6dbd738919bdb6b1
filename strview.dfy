/**
 * The character data of cargparse.  A C string is the sequence of its bytes
 * before the terminating NUL; a string view (`cargparse_str_view`) is a
 * pointer into such a string together with a byte count, and need not end at
 * a NUL.  View equality is `strncmp` over the view size, and
 * `cargparse_cstr_split` cuts a string into the maximal runs of bytes that
 * are not delimiters.
 */
module StrView {
  import opened Wrappers

  /** A byte of a C string other than its terminating NUL. */
  type CChar = c: char | 0 < c as int < 256 witness 'a'

  /** The bytes of a C string before its terminating NUL. */
  type CStr = seq<CChar>

  /** The byte at offset `i` of a C string: its terminating NUL at offset `|s|`. */
  function At(s: CStr, i: nat): char {
    if i < |s| then s[i] else '\0'
  }

  /**
   * `size` bytes starting at offset `start` of the C string `base`.  A view of
   * size 0 may sit one past the terminating NUL: `cargparse_get_arg_name`
   * builds `str + 1` even when `str` is empty.
   */
  datatype RawView = View(base: CStr, start: nat, size: nat)

  type StrView = v: RawView | v.start + v.size <= |v.base| || (v.size == 0 && v.start == |v.base| + 1)
    witness View([], 0, 0)

  /** The bytes a view designates. */
  function Text(v: StrView): CStr {
    if v.size == 0 then [] else v.base[v.start..v.start + v.size]
  }

  /** The C string that starts where the view starts. */
  function Tail(v: StrView): CStr {
    if v.start <= |v.base| then v.base[v.start..] else []
  }

  /** `strncmp(a, b, n) == 0`: the first `n` bytes agree, stopping early at a common NUL. */
  function StrnEq(a: CStr, b: CStr, n: nat): bool
    decreases n
  {
    if n == 0 then true
    else if At(a, 0) != At(b, 0) then false
    else if a == [] then true
    else StrnEq(a[1..], b[1..], n - 1)
  }

  /**
   * When `a` has at least `n` bytes, `strncmp(a, b, n) == 0` holds exactly when
   * `b` has at least `n` bytes too and both start with the same `n` bytes.
   */
  lemma {:induction false} StrnEqPrefix(a: CStr, b: CStr, n: nat)
    requires n <= |a|
    ensures StrnEq(a, b, n) <==> n <= |b| && a[..n] == b[..n]
    decreases n
  {
    if n > 0 {
      if At(b, 0) == a[0] {
        assert b != [];
        StrnEqPrefix(a[1..], b[1..], n - 1);
        if n <= |b| && a[..n] != b[..n] {
          var k :| 0 <= k < n && a[k] != b[k];
          assert k > 0 && a[1..][k - 1] != b[1..][k - 1];
        }
        if n <= |b| && a[..n] == b[..n] {
          assert a[1..][..n - 1] == a[..n][1..] && b[1..][..n - 1] == b[..n][1..];
        }
      } else if n <= |b| {
        assert a[..n][0] != b[..n][0];
      }
    }
  }

  /** cargparse_str_view_eq */
  function ViewEq(v1: StrView, v2: StrView): bool {
    v1.size == v2.size && StrnEq(Tail(v1), Tail(v2), v1.size)
  }

  /** Two views are equal exactly when their sizes agree and so do the bytes they designate. */
  lemma ViewEqIff(v1: StrView, v2: StrView)
    ensures ViewEq(v1, v2) <==> v1.size == v2.size && Text(v1) == Text(v2)
  {
    if v1.size == v2.size && v1.size > 0 {
      var n := v1.size;
      assert Tail(v1)[..n] == Text(v1);
      assert Tail(v2)[..n] == Text(v2);
      StrnEqPrefix(Tail(v1), Tail(v2), n);
    }
  }

  lemma ViewEqReflexive(v: StrView)
    ensures ViewEq(v, v)
  {
    ViewEqIff(v, v);
  }

  lemma ViewEqSymmetric(v1: StrView, v2: StrView)
    ensures ViewEq(v1, v2) == ViewEq(v2, v1)
  {
    ViewEqIff(v1, v2);
    ViewEqIff(v2, v1);
  }

  lemma ViewEqTransitive(v1: StrView, v2: StrView, v3: StrView)
    requires ViewEq(v1, v2) && ViewEq(v2, v3)
    ensures ViewEq(v1, v3)
  {
    ViewEqIff(v1, v2);
    ViewEqIff(v2, v3);
    ViewEqIff(v1, v3);
  }

  /** cargparse_str_view_from_cstr: the whole string, its size given by `strlen`. */
  function FromCstr(s: CStr): (r: StrView)
    ensures Text(r) == s && r.size == |s| && Tail(r) == s
  {
    View(s, 0, |s|)
  }

  /** The first offset at or after `i` whose byte is not a delimiter. */
  function SkipDelims(s: CStr, i: nat, delim: seq<CChar>): (j: nat)
    requires i <= |s|
    ensures i <= j <= |s|
    ensures forall k :: i <= k < j ==> s[k] in delim
    ensures j < |s| ==> s[j] !in delim
    decreases |s| - i
  {
    if i < |s| && s[i] in delim then SkipDelims(s, i + 1, delim) else i
  }

  /** The first offset at or after `i` whose byte is a delimiter. */
  function RunEnd(s: CStr, i: nat, delim: seq<CChar>): (j: nat)
    requires i <= |s|
    ensures i <= j <= |s|
    ensures forall k :: i <= k < j ==> s[k] !in delim
    ensures j < |s| ==> s[j] in delim
    decreases |s| - i
  {
    if i < |s| && s[i] !in delim then RunEnd(s, i + 1, delim) else i
  }

  /** The bytes of `s` that are not delimiters, in order. */
  function Strip(s: CStr, delim: seq<CChar>): CStr {
    if s == [] then [] else (if s[0] in delim then [] else [s[0]]) + Strip(s[1..], delim)
  }

  function Flatten(ts: seq<CStr>): CStr {
    if ts == [] then [] else ts[0] + Flatten(ts[1..])
  }

  lemma {:induction false} StripAppend(a: CStr, b: CStr, delim: seq<CChar>)
    ensures Strip(a + b, delim) == Strip(a, delim) + Strip(b, delim)
  {
    if a != [] {
      assert (a + b)[1..] == a[1..] + b;
      StripAppend(a[1..], b, delim);
    } else {
      assert a + b == b;
    }
  }

  lemma {:induction false} StripAll(s: CStr, delim: seq<CChar>)
    requires forall k :: 0 <= k < |s| ==> s[k] in delim
    ensures Strip(s, delim) == []
  {
    if s != [] {
      StripAll(s[1..], delim);
    }
  }

  lemma {:induction false} StripNone(s: CStr, delim: seq<CChar>)
    requires forall k :: 0 <= k < |s| ==> s[k] !in delim
    ensures Strip(s, delim) == s
  {
    if s != [] {
      StripNone(s[1..], delim);
    }
  }

  /**
   * The successive results of `cargparse_cstr_split` from offset `i` (and of
   * `strtok`, which cuts the same way): non-empty and free of delimiters.
   */
  function Tokens(s: CStr, i: nat, delim: seq<CChar>): seq<CStr>
    requires i <= |s|
    decreases |s| - i
  {
    var j := SkipDelims(s, i, delim);
    if j == |s| then []
    else
      var e := RunEnd(s, j, delim);
      [s[j..e]] + Tokens(s, e, delim)
  }

  /** Every token is non-empty and holds no delimiter. */
  lemma {:induction false} TokensShape(s: CStr, i: nat, delim: seq<CChar>)
    requires i <= |s|
    ensures forall k :: 0 <= k < |Tokens(s, i, delim)| ==>
              |Tokens(s, i, delim)[k]| > 0 && forall c :: c in Tokens(s, i, delim)[k] ==> c !in delim
    decreases |s| - i
  {
    var j := SkipDelims(s, i, delim);
    if j < |s| {
      var e := RunEnd(s, j, delim);
      TokensShape(s, e, delim);
      var t := s[j..e];
      assert forall c :: c in t ==> c !in delim by {
        forall c | c in t ensures c !in delim {
          var k :| 0 <= k < |t| && t[k] == c;
          assert s[j + k] == c;
        }
      }
    }
  }

  /** Together the tokens are exactly the non-delimiter bytes of the rest of the string. */
  lemma {:induction false} TokensCover(s: CStr, i: nat, delim: seq<CChar>)
    requires i <= |s|
    ensures Flatten(Tokens(s, i, delim)) == Strip(s[i..], delim)
    decreases |s| - i
  {
    var j := SkipDelims(s, i, delim);
    if j == |s| {
      StripAll(s[i..], delim);
    } else {
      var e := RunEnd(s, j, delim);
      TokensCover(s, e, delim);
      StripSkipRun(s, i, j, e, delim);
      var rest := Tokens(s, e, delim);
      assert Tokens(s, i, delim) == [s[j..e]] + rest;
      assert ([s[j..e]] + rest)[1..] == rest;
    }
  }

  /** A run of delimiters followed by a run of other bytes, then the rest. */
  lemma StripSkipRun(s: CStr, i: nat, j: nat, e: nat, delim: seq<CChar>)
    requires i <= j <= e <= |s|
    requires forall k :: i <= k < j ==> s[k] in delim
    requires forall k :: j <= k < e ==> s[k] !in delim
    ensures Strip(s[i..], delim) == s[j..e] + Strip(s[e..], delim)
  {
    assert s[i..] == s[i..j] + s[j..e] + s[e..];
    StripAppend(s[i..j] + s[j..e], s[e..], delim);
    StripAppend(s[i..j], s[j..e], delim);
    StripAll(s[i..j], delim);
    StripNone(s[j..e], delim);
  }

  /** cargparse_cstr_split: `ptr` is the offset `*ptr` points at and `next` its new value. */
  method CstrSplit(s: CStr, ptr: nat, delim: seq<CChar>) returns (sv: Option<StrView>, next: nat)
    requires ptr <= |s|
    ensures var j := SkipDelims(s, ptr, delim);
            if j == |s| then sv == None && next == |s|
            else sv == Some(View(s, j, RunEnd(s, j, delim) - j)) && next == RunEnd(s, j, delim)
    ensures sv.Some? ==> Text(sv.value) == Tokens(s, ptr, delim)[0]
                         && Tokens(s, ptr, delim) == [Text(sv.value)] + Tokens(s, next, delim)
    ensures sv.None? <==> Tokens(s, ptr, delim) == []
  {
    next := ptr;
    while next < |s| && s[next] in delim
      invariant ptr <= next <= |s|
      invariant SkipDelims(s, ptr, delim) == SkipDelims(s, next, delim)
      decreases |s| - next
    {
      next := next + 1;
    }
    if next == |s| {
      return None, next;
    }
    var start := next;
    var size := 0;
    while next < |s| && s[next] !in delim
      invariant start <= next <= |s| && size == next - start
      invariant RunEnd(s, start, delim) == RunEnd(s, next, delim)
      decreases |s| - next
    {
      next := next + 1;
      size := size + 1;
    }
    sv := Some(View(s, start, size));
  }

  /** The words written one after another with a single delimiter between neighbours. */
  function Join(words: seq<CStr>, d: CChar): CStr {
    if words == [] then []
    else if |words| == 1 then words[0]
    else words[0] + [d] + Join(words[1..], d)
  }

  /** Splitting undoes joining, for non-empty words that hold no delimiter. */
  lemma TokensOfJoin(words: seq<CStr>, d: CChar)
    requires forall w :: w in words ==> |w| > 0 && d !in w
    ensures Tokens(Join(words, d), 0, [d]) == words
  {
    assert Words(words, d) by {
      forall k | 0 <= k < |words| ensures |words[k]| > 0 && d !in words[k] {
        assert words[k] in words;
      }
    }
    JoinAtOfJoin(Join(words, d), 0, words, d);
    TokensOfJoinAt(Join(words, d), 0, words, d);
  }

  /** Non-empty words that hold no delimiter `d`. */
  ghost predicate Words(words: seq<CStr>, d: CChar) {
    forall k :: 0 <= k < |words| ==> |words[k]| > 0 && d !in words[k]
  }

  /** `words` joined by `d` occupy `s` from offset `i` to its end. */
  ghost predicate JoinAt(s: CStr, i: nat, words: seq<CStr>, d: CChar)
    decreases |words|
  {
    if words == [] then i == |s|
    else
      var e := i + |words[0]|;
      && e <= |s| && s[i..e] == words[0]
      && if |words| == 1 then e == |s| else e < |s| && s[e] == d && JoinAt(s, e + 1, words[1..], d)
  }

  lemma {:induction false} JoinAtOfJoin(s: CStr, i: nat, words: seq<CStr>, d: CChar)
    requires i <= |s| && s[i..] == Join(words, d) && Words(words, d)
    ensures JoinAt(s, i, words, d)
    decreases |words|
  {
    if words == [] {
      assert |s[i..]| == 0;
    } else {
      JoinHead(s, i, words, d);
      if |words| > 1 {
        WordsTail(words, d);
        JoinAtOfJoin(s, i + |words[0]| + 1, words[1..], d);
      }
    }
  }

  lemma {:induction false} TokensOfJoinAt(s: CStr, i: nat, words: seq<CStr>, d: CChar)
    requires i <= |s| && JoinAt(s, i, words, d) && Words(words, d)
    ensures Tokens(s, i, [d]) == words
    decreases |words|
  {
    if words != [] {
      var w := words[0];
      if |words| == 1 {
        TokensLast(s, i, w, d);
        assert [w] == words;
      } else {
        WordsTail(words, d);
        TokensOfJoinAt(s, i + |w| + 1, words[1..], d);
        TokensCons(s, i, w, d, words[1..]);
        assert [w] + words[1..] == words;
      }
    }
  }

  /** A word followed by the delimiter and then the tokens `t`. */
  lemma TokensCons(s: CStr, i: nat, w: CStr, d: CChar, t: seq<CStr>)
    requires i + |w| < |s| && s[i..i + |w|] == w && |w| > 0 && d !in w && s[i + |w|] == d
    requires Tokens(s, i + |w| + 1, [d]) == t
    ensures Tokens(s, i, [d]) == [w] + t
  {
    TokensOfWord(s, i, w, d);
    TokensSkipOne(s, i + |w|, [d]);
  }

  /** A word that runs to the end of `s` is its last token. */
  lemma TokensLast(s: CStr, i: nat, w: CStr, d: CChar)
    requires i + |w| == |s| && s[i..i + |w|] == w && |w| > 0 && d !in w
    ensures Tokens(s, i, [d]) == [w]
  {
    TokensOfWord(s, i, w, d);
    assert Tokens(s, |s|, [d]) == [];
  }

  lemma WordsTail(words: seq<CStr>, d: CChar)
    requires words != [] && Words(words, d)
    ensures Words(words[1..], d)
  {
    forall k | 0 <= k < |words| - 1 ensures |words[1..][k]| > 0 && d !in words[1..][k] {
      assert words[1..][k] == words[k + 1];
    }
  }

  /** The first word of a join, and what follows it. */
  lemma JoinHead(s: CStr, i: nat, words: seq<CStr>, d: CChar)
    requires i <= |s| && s[i..] == Join(words, d) && words != [] && Words(words, d)
    ensures var e := i + |words[0]|;
            && e <= |s| && s[i..e] == words[0]
            && (|words| == 1 ==> e == |s|)
            && (|words| > 1 ==> e < |s| && s[e] == d && s[e + 1..] == Join(words[1..], d))
  {
    var w := words[0];
    var e := i + |w|;
    if |words| > 1 {
      assert Join(words, d) == w + [d] + Join(words[1..], d);
      assert s[e + 1..] == Join(words, d)[|w| + 1..];
    }
    assert s[i..e] == Join(words, d)[..|w|];
  }

  /** A word of `s` at offset `i`, ended by the delimiter or the end, is its next token. */
  lemma TokensOfWord(s: CStr, i: nat, w: CStr, d: CChar)
    requires i + |w| <= |s| && s[i..i + |w|] == w && |w| > 0 && d !in w
    requires i + |w| < |s| ==> s[i + |w|] == d
    ensures Tokens(s, i, [d]) == [w] + Tokens(s, i + |w|, [d])
  {
    assert s[i] == w[0];
    assert forall c :: c in w ==> c !in [d];
    RunEndOfWord(s, i, w, [d]);
    TokensStep(s, i, i + |w|, [d]);
  }

  /** A token starting right at offset `i` and ending at `e`. */
  lemma TokensStep(s: CStr, i: nat, e: nat, delim: seq<CChar>)
    requires i < |s| && s[i] !in delim && e == RunEnd(s, i, delim)
    ensures Tokens(s, i, delim) == [s[i..e]] + Tokens(s, e, delim)
  {
    assert SkipDelims(s, i, delim) == i;
  }

  lemma RunEndOfWord(s: CStr, i: nat, w: CStr, delim: seq<CChar>)
    requires i + |w| <= |s| && s[i..i + |w|] == w && (forall c :: c in w ==> c !in delim)
    requires i + |w| < |s| ==> s[i + |w|] in delim
    ensures RunEnd(s, i, delim) == i + |w|
  {
  }

  /** A delimiter at offset `e` starts no token. */
  lemma TokensSkipOne(s: CStr, e: nat, delim: seq<CChar>)
    requires e < |s| && s[e] in delim
    ensures Tokens(s, e, delim) == Tokens(s, e + 1, delim)
  {
    assert SkipDelims(s, e, delim) == SkipDelims(s, e + 1, delim);
  }
}
