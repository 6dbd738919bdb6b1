/**
 * The growable buffers of cbuild: the string builder (a character buffer
 * whose capacity starts at 8 and doubles when full) and the string vector
 * (the same growth policy over an array of possibly-NULL string pointers).
 * A `seq<char>` passed as a C string stands for the memory the pointer
 * designates; only the part before its first NUL is the string.
 */
module CStrings {
  import opened Wrappers
  import Memory

  /** Largest value of `size_t`; decrementing a zero `size` wraps to it. */
  const SIZE_MAX: nat := 0xFFFF_FFFF_FFFF_FFFF

  /** The C string that a character buffer denotes: everything before the first NUL. */
  function CPrefix(s: seq<char>): (r: seq<char>)
    ensures '\0' !in r
  {
    if s == [] || s[0] == '\0' then [] else [s[0]] + CPrefix(s[1..])
  }

  /** The C string is a prefix of the buffer, ended by its first NUL or by the end of the buffer. */
  lemma {:induction false} CPrefixIsPrefix(s: seq<char>)
    ensures CPrefix(s) <= s
    ensures |CPrefix(s)| < |s| ==> s[|CPrefix(s)|] == '\0'
  {
    if s != [] && s[0] != '\0' {
      CPrefixIsPrefix(s[1..]);
    }
  }

  /** A NUL-free prefix followed by NUL or the end is the C string the buffer denotes. */
  lemma {:induction false} CPrefixAt(s: seq<char>, i: nat)
    requires i <= |s| && '\0' !in s[..i]
    requires i == |s| || s[i] == '\0'
    ensures CPrefix(s) == s[..i]
  {
    if i > 0 {
      assert s[0] in s[..i];
      assert s[1..][..i - 1] == s[1..i];
      assert forall c :: c in s[1..i] ==> c in s[..i];
      CPrefixAt(s[1..], i - 1);
    }
  }

  /** A string without NUL is its own C string. */
  lemma CPrefixOfCString(s: seq<char>)
    requires '\0' !in s
    ensures CPrefix(s) == s
  {
    CPrefixAt(s, |s|);
  }

  /** cbuild_str_builder */
  class StrBuilder {
    var str: array?<char>
    var size: nat
    var capacity: nat

    ghost predicate Valid()
      reads this
    {
      str != null ==> 0 < capacity == str.Length && size <= capacity
    }

    /** The characters appended so far. */
    function Contents(): seq<char>
      reads this, str
      requires Valid()
    {
      if str == null then [] else str[..size]
    }

    /** The zero-initialised builder `{ 0 }`. */
    constructor ()
      ensures Valid() && str == null && size == 0 && capacity == 0
      ensures Contents() == []
    {
      str := null;
      size, capacity := 0, 0;
    }

    /** cbuild_str_builder_append_char */
    method AppendChar(c: char)
      requires Valid()
      modifies this, str
      ensures Valid() && str != null
      ensures Contents() == old(Contents()) + [c]
      ensures capacity == if old(str) == null then 8
                          else if old(size) == old(capacity) then 2 * old(capacity)
                          else old(capacity)
      ensures old(str) != null && old(size) < old(capacity) ==> str == old(str)
      ensures str != old(str) ==> fresh(str)
    {
      if str == null {
        capacity := 8;
        str := new char[8](_ => '\0');
        size := 0;
      }
      if size == capacity {
        capacity := capacity * 2;
        str := Memory.Realloc(str, capacity, '\0');
      }
      str[size] := c;
      size := size + 1;
    }

    /** cbuild_str_builder_append_cstr: appends the characters before the first NUL. */
    method AppendCstr(cstr: seq<char>)
      requires Valid()
      modifies this, str
      ensures Valid()
      ensures Contents() == old(Contents()) + CPrefix(cstr)
      ensures str == old(str) || fresh(str)
    {
      var i := 0;
      while i < |cstr| && cstr[i] != '\0'
        invariant 0 <= i <= |cstr|
        invariant '\0' !in cstr[..i]
        invariant Valid()
        invariant str == old(str) || fresh(str)
        invariant Contents() == old(Contents()) + cstr[..i]
      {
        assert cstr[..i + 1] == cstr[..i] + [cstr[i]];
        AppendChar(cstr[i]);
        i := i + 1;
      }
      CPrefixAt(cstr, i);
    }

    /**
     * cbuild_str_builder_to_cstr: terminates the buffer with NUL, hands it
     * out and resets the builder to the empty state.
     */
    method ToCstr() returns (res: array<char>)
      requires Valid()
      modifies this, str
      ensures Valid() && str == null && size == 0 && capacity == 0
      ensures |old(Contents())| < res.Length
      ensures res[..|old(Contents())| + 1] == old(Contents()) + ['\0']
      ensures old(str) != null && old(size) < old(capacity) ==> res == old(str)
    {
      AppendChar('\0');
      res := str;
      capacity := 0;
      size := 0;
      str := null;
    }
  }

  /** One element of the joined string: nothing for NULL, otherwise the separator then the string. */
  function Piece(x: Option<seq<char>>, sep: seq<char>): seq<char> {
    match x
    case None => []
    case Some(s) => CPrefix(sep) + CPrefix(s)
  }

  /** The pieces of the elements after the first, in order. */
  function JoinRest(xs: seq<Option<seq<char>>>, sep: seq<char>): seq<char> {
    if xs == [] then [] else JoinRest(xs[..|xs| - 1], sep) + Piece(xs[|xs| - 1], sep)
  }

  lemma JoinRestSnoc(xs: seq<Option<seq<char>>>, x: Option<seq<char>>, sep: seq<char>)
    ensures JoinRest(xs + [x], sep) == JoinRest(xs, sep) + Piece(x, sep)
  {
    assert (xs + [x])[..|xs|] == xs;
  }

  /** What cbuild_str_vector_join builds: the first string, then `sep` and each later non-NULL string. */
  function JoinSpec(xs: seq<Option<seq<char>>>, sep: seq<char>): seq<char>
    requires |xs| >= 1 && xs[0].Some?
  {
    CPrefix(xs[0].value) + JoinRest(xs[1..], sep)
  }

  /** Joining one more element of the vector adds exactly that element's piece. */
  lemma JoinSpecSnoc(xs: seq<Option<seq<char>>>, i: nat, sep: seq<char>)
    requires 1 <= i < |xs| && xs[0].Some?
    ensures JoinSpec(xs[..i + 1], sep) == JoinSpec(xs[..i], sep) + Piece(xs[i], sep)
  {
    assert xs[..i + 1][1..] == xs[..i][1..] + [xs[i]];
    JoinRestSnoc(xs[..i][1..], xs[i], sep);
  }

  /** The usual join of words with a separator, defined from the front. */
  function Joined(words: seq<seq<char>>, sep: seq<char>): seq<char>
    requires |words| >= 1
  {
    if |words| == 1 then words[0] else words[0] + sep + Joined(words[1..], sep)
  }

  function Wrap(words: seq<seq<char>>): (r: seq<Option<seq<char>>>)
    ensures |r| == |words| && forall i :: 0 <= i < |words| ==> r[i] == Some(words[i])
  {
    seq(|words|, i requires 0 <= i < |words| => Some(words[i]))
  }

  /** The pieces after a leading word, each prefixed by the separator, defined from the front. */
  function Interleaved(words: seq<seq<char>>, sep: seq<char>): seq<char> {
    if words == [] then [] else sep + words[0] + Interleaved(words[1..], sep)
  }

  lemma {:induction false} InterleavedSnoc(words: seq<seq<char>>, w: seq<char>, sep: seq<char>)
    ensures Interleaved(words + [w], sep) == Interleaved(words, sep) + sep + w
  {
    if words != [] {
      assert (words + [w])[1..] == words[1..] + [w];
      InterleavedSnoc(words[1..], w, sep);
    } else {
      assert [w][1..] == [];
    }
  }

  /** Interleaved, read from the back. */
  lemma InterleavedLast(words: seq<seq<char>>, sep: seq<char>)
    requires words != []
    ensures Interleaved(words, sep) == Interleaved(words[..|words| - 1], sep) + (sep + words[|words| - 1])
  {
    var init, w := words[..|words| - 1], words[|words| - 1];
    assert init + [w] == words;
    InterleavedSnoc(init, w, sep);
  }

  lemma WrapInit(words: seq<seq<char>>)
    requires words != []
    ensures Wrap(words)[..|words| - 1] == Wrap(words[..|words| - 1])
  {
  }

  lemma {:induction false} JoinRestIsInterleaved(words: seq<seq<char>>, sep: seq<char>)
    requires '\0' !in sep && forall i :: 0 <= i < |words| ==> '\0' !in words[i]
    ensures JoinRest(Wrap(words), sep) == Interleaved(words, sep)
  {
    if words != [] {
      var n := |words|;
      var init, w := words[..n - 1], words[n - 1];
      var xs := Wrap(words);
      assert forall i :: 0 <= i < |init| ==> '\0' !in init[i] by {
        forall i | 0 <= i < |init| ensures '\0' !in init[i] { assert init[i] == words[i]; }
      }
      JoinRestIsInterleaved(init, sep);
      WrapInit(words);
      CPrefixOfCString(sep);
      CPrefixOfCString(w);
      assert Piece(xs[n - 1], sep) == sep + w;
      assert JoinRest(xs, sep) == JoinRest(Wrap(init), sep) + (sep + w);
      InterleavedLast(words, sep);
    }
  }

  lemma {:induction false} JoinedIsInterleaved(words: seq<seq<char>>, sep: seq<char>)
    requires |words| >= 1
    ensures Joined(words, sep) == words[0] + Interleaved(words[1..], sep)
  {
    if |words| > 1 {
      JoinedIsInterleaved(words[1..], sep);
      assert words[1..][1..] == words[2..];
    }
  }

  /**
   * For NUL-free strings, the join of a vector of non-NULL strings is the
   * usual separator join, and a trailing NULL (the argv terminator) adds nothing.
   */
  lemma JoinOfWords(words: seq<seq<char>>, sep: seq<char>)
    requires |words| >= 1
    requires '\0' !in sep && forall i :: 0 <= i < |words| ==> '\0' !in words[i]
    ensures JoinSpec(Wrap(words), sep) == Joined(words, sep)
    ensures JoinSpec(Wrap(words) + [None], sep) == Joined(words, sep)
  {
    var xs := Wrap(words);
    assert xs[1..] == Wrap(words[1..]);
    JoinRestIsInterleaved(words[1..], sep);
    CPrefixOfCString(words[0]);
    JoinedIsInterleaved(words, sep);
    assert (xs + [None])[1..] == xs[1..] + [None];
    assert (xs[1..] + [None])[..|xs[1..]|] == xs[1..];
  }

  /** cbuild_str_vector */
  class StrVector {
    var strs: array?<Option<seq<char>>>
    var size: nat
    var capacity: nat

    ghost predicate Valid()
      reads this
    {
      strs != null ==> 0 < capacity == strs.Length && size <= capacity
    }

    /** The pointers stored so far, NULL entries included. */
    function Elements(): seq<Option<seq<char>>>
      reads this, strs
      requires Valid()
    {
      if strs == null then [] else strs[..size]
    }

    /** The zero-initialised vector `{ 0 }`. */
    constructor ()
      ensures Valid() && strs == null && size == 0 && capacity == 0
      ensures Elements() == []
    {
      strs := null;
      size, capacity := 0, 0;
    }

    /** cbuild_str_vector_add_str */
    method AddStr(s: Option<seq<char>>)
      requires Valid()
      modifies this, strs
      ensures Valid() && strs != null
      ensures Elements() == old(Elements()) + [s]
      ensures capacity == if old(strs) == null then 8
                          else if old(size) == old(capacity) then 2 * old(capacity)
                          else old(capacity)
      ensures strs == old(strs) || fresh(strs)
    {
      if strs == null {
        capacity := 8;
        strs := new Option<seq<char>>[8](_ => None);
        size := 0;
      }
      if size == capacity {
        capacity := capacity * 2;
        strs := Memory.Realloc(strs, capacity, None);
      }
      strs[size] := s;
      size := size + 1;
    }

    /** cbuild_str_vector_add_strs: the macro passes at least one string, then a NULL that ends the list. */
    method AddStrs(ss: seq<seq<char>>)
      requires Valid() && |ss| >= 1
      modifies this, strs
      ensures Valid() && strs != null
      ensures Elements() == old(Elements()) + Wrap(ss)
      ensures strs == old(strs) || fresh(strs)
    {
      AddStr(Some(ss[0]));
      var i := 1;
      while i < |ss|
        invariant 1 <= i <= |ss|
        invariant Valid() && strs != null
        invariant strs == old(strs) || fresh(strs)
        invariant Elements() == old(Elements()) + Wrap(ss[..i])
      {
        assert Wrap(ss[..i + 1]) == Wrap(ss[..i]) + [Some(ss[i])];
        AddStr(Some(ss[i]));
        i := i + 1;
      }
      assert ss[..i] == ss;
    }

    /**
     * cbuild_str_vector_pop_back: an unchecked `size--`.  On a vector that was
     * never allocated the size wraps to SIZE_MAX, which is harmless because the
     * next add_str resets it; on an allocated empty vector it would be undefined.
     */
    method PopBack()
      requires Valid() && (strs != null ==> size > 0)
      modifies this`size
      ensures Valid()
      ensures strs != null ==> Elements() == old(Elements())[..old(size) - 1]
      ensures strs == null ==> size == if old(size) == 0 then SIZE_MAX else old(size) - 1
    {
      size := if size == 0 then SIZE_MAX else size - 1;
    }

    /** cbuild_str_vector_join */
    method Join(sep: seq<char>) returns (res: array<char>)
      requires Valid() && strs != null && size >= 1 && strs[0].Some?
      ensures |JoinSpec(Elements(), sep)| < res.Length
      ensures res[..|JoinSpec(Elements(), sep)| + 1] == JoinSpec(Elements(), sep) + ['\0']
    {
      res := JoinElements(strs[..size], sep);
    }
  }

  /** One iteration of the join loop: a NULL entry is skipped, any other adds the separator and the string. */
  method AppendPiece(sb: StrBuilder, x: Option<seq<char>>, sep: seq<char>)
    requires sb.Valid()
    modifies sb, sb.str
    ensures sb.Valid() && (sb.str == old(sb.str) || fresh(sb.str))
    ensures sb.Contents() == old(sb.Contents()) + Piece(x, sep)
  {
    if x != None {
      sb.AppendCstr(sep);
      sb.AppendCstr(x.value);
    }
  }

  /** The loop of cbuild_str_vector_join over a snapshot of the vector's elements. */
  method JoinElements(elems: seq<Option<seq<char>>>, sep: seq<char>) returns (res: array<char>)
    requires |elems| >= 1 && elems[0].Some?
    ensures |JoinSpec(elems, sep)| < res.Length
    ensures res[..|JoinSpec(elems, sep)| + 1] == JoinSpec(elems, sep) + ['\0']
  {
    var sb := new StrBuilder();
    sb.AppendCstr(elems[0].value);
    var i := 1;
    while i < |elems|
      invariant 1 <= i <= |elems|
      invariant fresh(sb) && sb.Valid() && (sb.str == null || fresh(sb.str))
      invariant sb.Contents() == JoinSpec(elems[..i], sep)
    {
      AppendElement(sb, elems, i, sep);
      i := i + 1;
    }
    assert elems[..i] == elems;
    ghost var joined := sb.Contents();
    assert joined == JoinSpec(elems, sep);
    res := sb.ToCstr();
    assert |joined| < res.Length && res[..|joined| + 1] == joined + ['\0'];
  }

  /** One iteration of the join loop, on the `i`-th element. */
  method AppendElement(sb: StrBuilder, elems: seq<Option<seq<char>>>, i: nat, sep: seq<char>)
    requires 1 <= i < |elems| && elems[0].Some?
    requires sb.Valid() && sb.Contents() == JoinSpec(elems[..i], sep)
    modifies sb, sb.str
    ensures sb.Valid() && (sb.str == old(sb.str) || fresh(sb.str))
    ensures sb.Contents() == JoinSpec(elems[..i + 1], sep)
  {
    JoinSpecSnoc(elems, i, sep);
    AppendPiece(sb, elems[i], sep);
  }
}
