/**
 * cbuild_command: an argument vector that is kept NULL-terminated, as
 * `execvp` expects.  Adding arguments pops the terminator, pushes the
 * arguments and pushes a fresh terminator.
 */
module Commands {
  import opened Wrappers
  import opened CStrings

  /** The strings of a vector all of whose entries are non-NULL. */
  function Unwrap(xs: seq<Option<seq<char>>>): (r: seq<seq<char>>)
    requires forall i :: 0 <= i < |xs| ==> xs[i].Some?
    ensures |r| == |xs| && Wrap(r) == xs
  {
    var r := seq(|xs|, i requires 0 <= i < |xs| => xs[i].value);
    assert Wrap(r) == xs;
    r
  }

  class Command {
    const argv: StrVector

    /** Either never written (the `{ 0 }` command) or non-NULL arguments followed by one NULL. */
    ghost predicate Valid()
      reads this, argv, argv.strs
    {
      && argv.Valid()
      && (argv.strs != null ==>
            && argv.size >= 1
            && argv.strs[argv.size - 1].None?
            && forall i :: 0 <= i < argv.size - 1 ==> argv.strs[i].Some?)
    }

    /** The arguments in front of the terminator. */
    function Args(): seq<seq<char>>
      reads this, argv, argv.strs
      requires Valid()
    {
      if argv.strs == null then [] else Unwrap(argv.strs[..argv.size - 1])
    }

    /** The zero-initialised command `{ 0 }`. */
    constructor ()
      ensures Valid() && fresh(argv) && argv.strs == null && Args() == []
    {
      argv := new StrVector();
    }

    /** The vector is NULL-terminated and its non-NULL prefix is Args(). */
    lemma NullTerminated()
      requires Valid() && argv.strs != null
      ensures argv.Elements() == Wrap(Args()) + [None]
    {
      assert argv.Elements() == argv.strs[..argv.size - 1] + [None];
    }

    /** cbuild_command_add_arg */
    method AddArg(arg: seq<char>)
      requires Valid()
      modifies argv, argv.strs
      ensures Valid() && argv.strs != null
      ensures Args() == old(Args()) + [arg]
      ensures argv.strs == old(argv.strs) || fresh(argv.strs)
    {
      ghost var before := Args();
      ghost var kept := if argv.strs == null then [] else argv.strs[..argv.size - 1];
      assert kept == Wrap(before);
      argv.PopBack();
      assert argv.Elements() == kept;
      argv.AddStr(Some(arg));
      argv.AddStr(None);
      WrapAppend(before, [arg]);
      Terminated(before + [arg]);
    }

    /** cbuild_command_add_args: at least one argument, the list ending at the macro's NULL. */
    method AddArgs(args: seq<seq<char>>)
      requires Valid() && |args| >= 1
      modifies argv, argv.strs
      ensures Valid() && argv.strs != null
      ensures Args() == old(Args()) + args
      ensures argv.strs == old(argv.strs) || fresh(argv.strs)
    {
      ghost var before := Args();
      ghost var kept := if argv.strs == null then [] else argv.strs[..argv.size - 1];
      assert kept == Wrap(before);
      argv.PopBack();
      assert argv.Elements() == kept;
      argv.AddStrs(args);
      argv.AddStr(None);
      WrapAppend(before, args);
      Terminated(before + args);
    }

    /** A vector holding `ws` then NULL is a valid command whose arguments are `ws`. */
    lemma Terminated(ws: seq<seq<char>>)
      requires argv.Valid() && argv.strs != null && argv.Elements() == Wrap(ws) + [None]
      ensures Valid() && Args() == ws
    {
      var n := argv.size - 1;
      assert argv.strs[..n] == Wrap(ws);
      forall i | 0 <= i < n
        ensures argv.strs[i].Some?
      {
        assert argv.strs[i] == Wrap(ws)[i];
      }
      UnwrapWrap(ws);
    }
  }

  lemma WrapAppend(a: seq<seq<char>>, b: seq<seq<char>>)
    ensures Wrap(a + b) == Wrap(a) + Wrap(b)
  {
  }

  lemma UnwrapWrap(ws: seq<seq<char>>)
    ensures Unwrap(Wrap(ws)) == ws
  {
  }
}
