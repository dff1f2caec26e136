/** Where a place in a group of short options goes. It is a place in one argument, but the parser keeps
  it when it meets a letter that is no option, and may then read a later argument beyond its end.
 */
module ArgumentPlaces {
  import opened Options
  import opened G = ArgumentGrammar
  import opened ArgumentSpelling

  /** The source reads beyond the end of an argument exactly when the place carried over lies beyond
      that end and some option has a short name to compare with. */
  lemma {:induction false} OverrunExactly(g: Graph, named: seq<nat>, arg: string, index: nat)
    requires forall k :: 0 <= k < |named| ==> named[k] < |g.named|
    ensures ReadFrom(g, named, arg, index).Overrun? <==>
            !IsLong(arg) && index >= |arg| && exists k :: 0 <= k < |named| && g.named[named[k]].shortName != '\0'
  {
    if named != [] {
      OverrunExactly(g, named[1..], arg, index);
      assert forall k :: 0 <= k < |named[1..]| ==> named[1..][k] == named[k + 1];
      assert forall k :: 0 < k < |named| ==> named[k] == named[1..][k - 1];
    }
  }

  // -------------------------------------------------------------- two arguments

  /** The letter is a flag of the command. */
  predicate FlagLetter(g: Graph, c: nat, ch: char)
    requires g.WellFormed() && c < |g.cmds|
  {
    Letter(g, c, ch).ShortOption? && !TakesValue(g, Letter(g, c, ch).n)
  }

  /** After the first letter of a group, this one is an option of the command. */
  predicate GroupLetter(g: Graph, c: nat, ch: char)
    requires g.WellFormed() && c < |g.cmds|
  {
    Read(g, c, ['-', 'a', ch], 1).ShortOption?
  }

  predicate AllFlags(g: Graph, c: nat, letters: string)
    requires g.WellFormed() && c < |g.cmds|
  {
    forall i :: 0 <= i < |letters| ==> FlagLetter(g, c, letters[i])
  }

  /** The state after these flags, None when one of them is in conflict. */
  function AfterFlags(g: Graph, st: State, c: nat, letters: string): Option<State>
    requires g.WellFormed() && c < |g.cmds| && AllFlags(g, c, letters)
    decreases |letters|
  {
    if letters == [] then Some(st)
    else
      assert FlagLetter(g, c, letters[0]);
      var n := Letter(g, c, letters[0]).n;
      if InConflict(g, st, Named(n)) then None
      else AfterFlags(g, StoreNamed(g, st, n, g.named[n].constVal), c, letters[1..])
  }

  /** The parser gets through flags that are not in conflict. */
  lemma {:induction false} ThroughFlags(g: Graph, st: State, c: nat, arg: string, post: seq<string>, used: nat,
                                        index: nat, m: nat)
    requires g.WellFormed() && c < |g.cmds|
    requires IsDash(arg) && !IsLong(arg) && index <= m && m + 1 < |arg|
    requires AllFlags(g, c, arg[index + 1..m + 1]) && AfterFlags(g, st, c, arg[index + 1..m + 1]).Some?
    ensures ParseArgs(g, st, c, [arg] + post, used, index) ==
            ParseArgs(g, AfterFlags(g, st, c, arg[index + 1..m + 1]).value, c, [arg] + post, used, m)
    decreases m - index
  {
    hide Letter, InConflict, StoreNamed, Next, FlagLetter;
    if index < m {
      var letters := arg[index + 1..m + 1];
      assert letters[0] == arg[index + 1] && letters[1..] == arg[index + 2..m + 1];
      FlagTurn(g, st, c, arg, index, post, used);
      var n := Letter(g, c, letters[0]).n;
      assert Rest([arg] + post, 0) == [arg] + post;
      ThroughFlags(g, StoreNamed(g, st, n, g.named[n].constVal), c, arg, post, used, index + 1, m);
    }
  }

  lemma FlagTurn(g: Graph, st: State, c: nat, arg: string, index: nat, post: seq<string>, used: nat)
    requires g.WellFormed() && c < |g.cmds|
    requires IsDash(arg) && !IsLong(arg) && index + 2 < |arg| && FlagLetter(g, c, arg[index + 1])
    ensures Letter(g, c, arg[index + 1]).ShortOption?
    ensures var n := Letter(g, c, arg[index + 1]).n;
            !InConflict(g, st, Named(n)) ==>
              Next(g, st, c, [arg] + post, used, index) ==
              Go(StoreNamed(g, st, n, g.named[n].constVal), 0, used, index + 1)
  {
    hide Letter, InConflict, StoreNamed, Next;
    LetterTurn(g, st, c, arg, index, post, used);
  }

  /** A last argument is read beyond its end exactly when it is so at once. */
  lemma {:induction false} LastArgument(g: Graph, st: State, c: nat, b: string, used: nat, index: nat)
    requires g.WellFormed() && c < |g.cmds|
    ensures ParseArgs(g, st, c, [b], used, index).status == PastEnd <==> Read(g, c, b, index).Overrun?
    decreases |b| - index
  {
    hide ReadFrom, InConflict, FindCommand, StoreNamed, IndexOf;
    assert [b][1..] == [];
    match Next(g, st, c, [b], used, index)
    case Stop(_) =>
    case Descend(sub) => assert ParseArgs(g, st, sub, [], 0, 0).status == Parsed;
    case Go(next, k, used', index') =>
      if k > 0 {
        assert Rest([b], k) == [];
      } else {
        assert Rest([b], 0) == [b];
        OverrunExactly(g, g.cmds[c].named, b, index');
        LastArgument(g, next, c, b, used', index');
      }
  }

  /** An option with this letter has a short name. */
  lemma {:induction false} HasShortName(g: Graph, named: seq<nat>, arg: string, index: nat)
    requires forall k :: 0 <= k < |named| ==> named[k] < |g.named|
    requires ReadFrom(g, named, arg, index).ShortOption?
    ensures arg[index + 1] != '\0'
    ensures exists k :: 0 <= k < |named| && g.named[named[k]].shortName != '\0'
  {
    var option := g.named[named[0]];
    if option.shortName == '\0' || option.shortName != arg[index + 1] {
      HasShortName(g, named[1..], arg, index);
      var k :| 0 <= k < |named[1..]| && g.named[named[1..][k]].shortName != '\0';
      assert named[k + 1] == named[1..][k];
    }
  }

  lemma NoGroupLetter(g: Graph, c: nat, arg: string, index: nat)
    requires g.WellFormed() && c < |g.cmds|
    requires IsDash(arg) && !IsLong(arg) && index + 1 < |arg|
    ensures Read(g, c, arg, index).ShortOption? <==> GroupLetter(g, c, arg[index + 1])
    ensures Read(g, c, arg, index).ShortOption? || Read(g, c, arg, index).NoOption?
  {
    hide ReadFrom;
    LetterAnywhere(g, g.cmds[c].named, arg, index, ['-', 'a', arg[index + 1]], 1);
    OverrunExactly(g, g.cmds[c].named, arg, index);
  }

  /** A group of flags that ends in a letter which is no option, and then one more argument with a dash.
      When the positional arguments have been filled, that argument is read beyond its end exactly when it
      is at most as long as there are flags; before that, never, because it is skipped or taken. */
  lemma TwoArguments(g: Graph, st: State, c: nat, flags: string, x: char, tail: string, b: string, used: nat)
    requires g.WellFormed() && c < |g.cmds|
    requires flags != [] && AllFlags(g, c, flags) && AfterFlags(g, st, c, flags).Some?
    requires !GroupLetter(g, c, x)
    requires FindCommand(g, g.cmds[c].cmds, ['-'] + flags + [x] + tail) == |g.cmds[c].cmds|
    requires IsDash(b)
    ensures ParseArgs(g, st, c, [['-'] + flags + [x] + tail, b], used, 0).status == PastEnd <==>
            used >= |g.cmds[c].positional| && !IsLong(b) && |b| <= |flags|
  {
    hide ParseArgs, ReadFrom, Letter, AfterFlags, GroupLetter, FindCommand;
    var arg, m := ['-'] + flags + [x] + tail, |flags|;
    assert arg[1..m + 1] == flags && arg[m + 1] == x;
    assert FlagLetter(g, c, flags[0]) && flags[0] != '-';
    assert [arg, b] == [arg] + [b];
    ThroughFlags(g, st, c, arg, [b], used, 0, m);
    var st' := AfterFlags(g, st, c, flags).value;
    NoGroupLetter(g, c, arg, m);
    if used >= |g.cmds[c].positional| {
      PastGroup(g, st', c, arg, b, used, m);
      LastArgument(g, st', c, b, used, m);
      LetterInGroup(g, c, arg, 0);
      HasShortName(g, g.cmds[c].named, arg, 0);
      OverrunExactly(g, g.cmds[c].named, b, m);
    } else {
      TakenGroup(g, st', c, arg, b, used, m);
    }
  }

  lemma PastGroup(g: Graph, st: State, c: nat, arg: string, b: string, used: nat, index: nat)
    requires g.WellFormed() && c < |g.cmds| && used >= |g.cmds[c].positional|
    requires Read(g, c, arg, index).NoOption? && FindCommand(g, g.cmds[c].cmds, arg) == |g.cmds[c].cmds|
    ensures ParseArgs(g, st, c, [arg] + [b], used, index) == ParseArgs(g, st, c, [b], used, index)
  {
    hide Read, FindCommand;
    RestOf(arg, [b]);
  }

  /** A positional argument takes the group, and what comes next is at least skipped. */
  lemma TakenGroup(g: Graph, st: State, c: nat, arg: string, b: string, used: nat, index: nat)
    requires g.WellFormed() && c < |g.cmds| && used < |g.cmds[c].positional|
    requires Read(g, c, arg, index).NoOption? && FindCommand(g, g.cmds[c].cmds, arg) == |g.cmds[c].cmds|
    ensures ParseArgs(g, st, c, [arg] + [b], used, index).status != PastEnd
  {
    hide Read, FindCommand, InConflict;
    var turn := Next(g, st, c, [arg] + [b], used, index);
    assert turn.Go? ==> turn.args >= 2 && Rest([arg] + [b], turn.args) == [];
  }

  lemma {:induction false} FirstPlace(g: Graph, named: seq<nat>, arg: string)
    requires forall k :: 0 <= k < |named| ==> named[k] < |g.named|
    requires arg != []
    ensures !ReadFrom(g, named, arg, 0).Overrun?
  {
    if named != [] {
      FirstPlace(g, named[1..], arg);
    }
  }

  const START := State(map[], map[], map[])

  lemma FlagFirst(g: Graph, c: nat, ch: char)
    requires g.WellFormed() && c < |g.cmds| && FlagLetter(g, c, ch)
    ensures ch != '\0' && AllFlags(g, c, [ch]) && AfterFlags(g, START, c, [ch]).Some?
  {
    hide ReadFrom;
    HasShortName(g, g.cmds[c].named, ['-', ch], 0);
    assert AfterFlags(g, StoreNamed(g, START, Letter(g, c, ch).n, g.named[Letter(g, c, ch).n].constVal), c, []).Some?;
  }

  // ----------------------------------------------------------- whole command lines

  /** The argument is no group of short options of the command, or all its letters are declared. */
  predicate WholeGroup(g: Graph, c: nat, arg: string)
    requires g.WellFormed() && c < |g.cmds|
  {
    IsDash(arg) && !IsLong(arg) && Read(g, c, arg, 0).ShortOption? ==> Declared(g, c, arg[1..])
  }

  predicate WholeGroups(g: Graph, args: seq<string>)
    requires g.WellFormed()
  {
    forall i, c: int :: 0 <= i < |args| && 0 <= c < |g.cmds| ==> WholeGroup(g, c, args[i])
  }

  /** The place in the group is the start, or the letters from there on are declared. */
  predicate InGroup(g: Graph, c: nat, args: seq<string>, index: nat)
    requires g.WellFormed() && c < |g.cmds|
  {
    index == 0 ||
    (args != [] && IsDash(args[0]) && !IsLong(args[0]) && index + 1 < |args[0]| &&
     Declared(g, c, args[0][index + 1..]))
  }

  lemma RestOfWhole(g: Graph, args: seq<string>, k: nat)
    requires g.WellFormed() && WholeGroups(g, args)
    ensures WholeGroups(g, Rest(args, k))
  {
    hide WholeGroup;
  }

  /** The letter at this place is declared, and so are the letters after it unless it is the last
      or takes a value. */
  lemma GroupTurn(g: Graph, st: State, c: nat, args: seq<string>, used: nat, index: nat)
    requires g.WellFormed() && c < |g.cmds| && args != []
    requires WholeGroup(g, c, args[0]) && InGroup(g, c, args, index)
    ensures var turn := Next(g, st, c, args, used, index);
            turn != Stop(PastEnd) &&
            (turn.Go? ==> InGroup(g, c, Rest(args, turn.args), turn.index))
  {
    hide ReadFrom, InConflict, FindCommand, StoreNamed, ParsePositional, IndexOf;
    var arg := args[0];
    if arg != [] {
      FirstPlace(g, g.cmds[c].named, arg);
    }
    if IsDash(arg) && !IsLong(arg) && Read(g, c, arg, index).ShortOption? {
      var letters := arg[index + 1..];
      assert Declared(g, c, letters);
      assert letters[1..] == arg[index + 2..];
      LetterInGroup(g, c, arg, index);
      assert Rest(args, 0) == args;
    } else if index > 0 {
      LetterInGroup(g, c, arg, index);
    }
  }

  /** When no group of short options is declared in part only, parsing never reads beyond the end
      of an argument. */
  lemma {:induction false} StaysInside(g: Graph, st: State, c: nat, args: seq<string>, used: nat, index: nat)
    requires g.WellFormed() && c < |g.cmds|
    requires WholeGroups(g, args) && InGroup(g, c, args, index)
    ensures ParseArgs(g, st, c, args, used, index).status != PastEnd
    decreases |args|, LettersLeft(args, index)
  {
    hide WholeGroup, Next, InGroup;
    if args != [] {
      GroupTurn(g, st, c, args, used, index);
      match Next(g, st, c, args, used, index)
      case Stop(_) =>
      case Descend(sub) =>
        RestOfWhole(g, args, 1);
        assert args[1..] == Rest(args, 1);
        AtStart(g, sub, args[1..]);
        StaysInside(g, st, sub, args[1..], 0, 0);
      case Go(next, k, used', index') =>
        RestOfWhole(g, args, k);
        StaysInside(g, next, c, Rest(args, k), used', index');
    }
  }

  lemma AtStart(g: Graph, c: nat, args: seq<string>)
    requires g.WellFormed() && c < |g.cmds|
    ensures InGroup(g, c, args, 0)
  {
  }

  /** One flag 'a', and a command that knows it. */
  const FLAG_A := NamedArg("", 'a', false, "", None, false, None)
  const EXAMPLE := Graph([FLAG_A], [], [CommandArg("tool", [], [0], [], None)], [])

  /** "-ab -": the letter b is not declared, so the place in the group survives its argument, and the next
      argument is read beyond its end. */
  lemma StalePlace()
    ensures EXAMPLE.WellFormed()
    ensures ParseCommand(EXAMPLE, START, 0, ["-ab", "-"]).status == PastEnd
  {
    var g := EXAMPLE;
    assert Letter(g, 0, 'a') == ShortOption(0);
    assert ReadFrom(g, g.cmds[0].named, "-ab", 1) == ReadFrom(g, [], "-ab", 1);
    assert !GroupLetter(g, 0, 'b');
    FlagFirst(g, 0, 'a');
    assert ['-'] + "a" + ['b'] + "" == "-ab";
    TwoArguments(g, START, 0, "a", 'b', "", "-", 0);
  }
}
