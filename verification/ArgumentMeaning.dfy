/** What the arguments of a command line do, in terms of the option, argument or command that they name:
  which one it is, what it stores, what it counts, and when it throws.
 */
module ArgumentMeaning {
  import opened G = ArgumentGrammar
  import opened ArgumentSpelling

  // ------------------------------------------------------------- which option is read

  /** The argument names this option: "--name" or "--name=..." for a long name, or the letter at the place
      for a short one. */
  predicate NamedBy(g: Graph, n: nat, arg: string, index: nat) {
    n < |g.named| &&
    if IsLong(arg) then
      var name := g.named[n].longName;
      name != [] && '=' !in name && (arg == Long(name) || Long(name) + "=" <= arg)
    else g.named[n].shortName != '\0' && index + 1 < |arg| && arg[index + 1] == g.named[n].shortName
  }

  lemma LongNameIs(arg: string, name: string)
    requires IsLong(arg)
    ensures LongName(arg) == name <==> '=' !in name && (arg == Long(name) || Long(name) + "=" <= arg)
  {
    var option := arg[2..];
    var eq := IndexOf(option, '=');
    assert arg == ['-', '-'] + option;
    if LongName(arg) == name {
      assert forall k :: 0 <= k < |name| ==> name[k] == option[k];
      if eq < |option| {
        assert option[..eq + 1] == name + "=";
      } else {
        assert option[..eq] == option;
      }
    }
    if '=' !in name && arg == Long(name) {
      assert option == name && option[..|name|] == name;
      IndexIn(option, '=', |name|);
    }
    if '=' !in name && Long(name) + "=" <= arg {
      assert option[..|name|] == arg[2..2 + |name|] == name && option[|name|] == arg[2 + |name|] == '=';
      IndexIn(option, '=', |name|);
    }
  }

  /** The options of a command are searched in order, and the first that the argument names is read. */
  predicate FirstNamed(g: Graph, named: seq<nat>, arg: string, index: nat, i: int) {
    0 <= i < |named| && NamedBy(g, named[i], arg, index) && forall j :: 0 <= j < i ==> !NamedBy(g, named[j], arg, index)
  }

  lemma {:induction false} ReadExactly(g: Graph, named: seq<nat>, arg: string, index: nat)
    requires forall k :: 0 <= k < |named| ==> named[k] < |g.named|
    ensures var r := ReadFrom(g, named, arg, index);
            && (r.LongOption? || r.ShortOption? ==>
                  exists i :: FirstNamed(g, named, arg, index, i) && named[i] == r.n)
            && (r.NoOption? ==> forall i :: 0 <= i < |named| ==> !NamedBy(g, named[i], arg, index))
            && (r.LongOption? ==> IsLong(arg)) && (r.ShortOption? ==> !IsLong(arg))
  {
    hide LongName;
    if named != [] {
      ReadExactly(g, named[1..], arg, index);
      if IsLong(arg) {
        LongNameIs(arg, g.named[named[0]].longName);
      }
      var r := ReadFrom(g, named, arg, index);
      if NamedBy(g, named[0], arg, index) {
        assert FirstNamed(g, named, arg, index, 0);
      } else if r.LongOption? || r.ShortOption? {
        var i :| FirstNamed(g, named[1..], arg, index, i) && named[1..][i] == r.n;
        assert FirstNamed(g, named, arg, index, i + 1);
      } else if r.NoOption? {
        assert forall i :: 0 < i < |named| ==> named[i] == named[1..][i - 1];
      }
    }
  }

  // ------------------------------------------------------------------ what options do

  /** Nothing but the count of this argument has changed in the counts, and that by one. */
  ghost predicate CountsOnce(st: State, st': State, arg: Arg) {
    forall other :: st'.Count(other) == st.Count(other) + (if other == arg then 1 else 0)
  }

  /** The option has stored this value, if it stores values, has been counted, and has done nothing else. */
  ghost predicate Sets(g: Graph, st: State, st': State, n: nat, value: string)
    requires n < |g.named|
  {
    && CountsOnce(st, st', Named(n)) && st'.lists == st.lists
    && st'.values == (if g.named[n].storeValue && g.named[n].value.Some?
                      then st.values[g.named[n].value.value := value] else st.values)
  }

  lemma Stored(g: Graph, st: State, n: nat, value: string)
    requires n < |g.named|
    ensures Sets(g, st, StoreNamed(g, st, n, value), n, value)
  {
  }

  /** "--name VALUE" with an option that takes a value: VALUE is stored, and the rest is read after it. */
  lemma ValueOption(g: Graph, st: State, c: nat, n: nat, name: string, value: string, post: seq<string>, used: nat,
                    index: nat)
      returns (st': State)
    requires g.WellFormed() && c < |g.cmds| && '=' !in name && Read(g, c, Long(name), index) == LongOption(n)
    requires g.named[n].hasArg && !InConflict(g, st, Named(n))
    ensures Sets(g, st, st', n, value)
    ensures ParseArgs(g, st, c, [Long(name), value] + post, used, index) == ParseArgs(g, st', c, post, used, index)
  {
    hide Read, InConflict, StoreNamed, Long, IndexOf;
    LongReads(g, c, name, "", index, index);
    st' := StoreNamed(g, st, n, value);
    Stored(g, st, n, value);
    var args := [Long(name), value] + post;
    assert args[0] == Long(name) && args[1] == value && Rest(args, 2) == post;
  }

  /** "--name" with a flag: the constant of the flag is stored, and the rest is read after it. */
  lemma FlagOption(g: Graph, st: State, c: nat, n: nat, name: string, post: seq<string>, used: nat, index: nat)
      returns (st': State)
    requires g.WellFormed() && c < |g.cmds| && '=' !in name && Read(g, c, Long(name), index) == LongOption(n)
    requires !g.named[n].hasArg && !InConflict(g, st, Named(n))
    ensures Sets(g, st, st', n, g.named[n].constVal)
    ensures ParseArgs(g, st, c, [Long(name)] + post, used, index) == ParseArgs(g, st', c, post, used, index)
  {
    hide StoreNamed, ParseArgs;
    st' := StoreNamed(g, st, n, g.named[n].constVal);
    Stored(g, st, n, g.named[n].constVal);
    FlagReads(g, st, c, n, name, post, used, index);
  }

  /** When an option throws, and that nothing has changed then: in conflict; without the value that it takes;
      with a value that it does not take. */
  lemma OptionThrows(g: Graph, st: State, c: nat, n: nat, name: string, value: string, post: seq<string>, used: nat,
                     index: nat)
    requires g.WellFormed() && c < |g.cmds| && '=' !in name && Read(g, c, Long(name), index) == LongOption(n)
    ensures InConflict(g, st, Named(n)) ==>
              && ParseArgs(g, st, c, [Long(name)] + post, used, index) == Result(st, Thrown(Conflict))
              && ParseArgs(g, st, c, [LongWith(name, value)] + post, used, index) == Result(st, Thrown(Conflict))
    ensures !InConflict(g, st, Named(n)) && g.named[n].hasArg ==>
              ParseArgs(g, st, c, [Long(name)], used, index) == Result(st, Thrown(NotEnoughArguments))
    ensures !InConflict(g, st, Named(n)) && !g.named[n].hasArg ==>
              ParseArgs(g, st, c, [LongWith(name, value)] + post, used, index) == Result(st, Thrown(UnexpectedValue))
  {
    hide Read, InConflict, StoreNamed, Long, LongWith, IndexOf;
    LongReads(g, c, name, value, index, index);
    assert ([Long(name)] + post)[0] == Long(name);
  }

  // ------------------------------------------------------- what positional arguments do

  /** The first places of the list hold these values, and the places after them what they held. */
  predicate Placed(list: seq<string>, list': seq<string>, values: seq<string>) {
    && |list'| == (if |list| < |values| then |values| else |list|)
    && forall i :: 0 <= i < |list'| ==> list'[i] == if i < |values| then values[i] else list[i]
  }

  /** The positional argument has stored these values, if it stores values, has been counted, and has done
      nothing else. */
  ghost predicate Takes(g: Graph, st: State, st': State, p: nat, values: seq<string>)
    requires p < |g.positional|
  {
    && CountsOnce(st, st', Positional(p)) && st'.values == st.values
    && (forall l :: l != g.positional[p].values ==> st'.List(l) == st.List(l))
    && (var l := g.positional[p].values;
        if g.positional[p].storeValue then Placed(st.List(l), st'.List(l), values) else st'.List(l) == st.List(l))
  }

  lemma Taken(g: Graph, st: State, p: nat, args: seq<string>)
    requires g.WellFormed() && p < |g.positional| && args != [] && ParsePositional(g, st, p, args).Consumed?
    ensures var step := ParsePositional(g, st, p, args); Takes(g, st, step.state, p, args[..step.args])
  {
    hide InConflict;
  }

  /** How many arguments a positional argument takes of those that are left, and when it throws. */
  lemma PositionalExactly(g: Graph, st: State, p: nat, args: seq<string>)
    requires g.WellFormed() && p < |g.positional| && args != []
    ensures var nargs, step := g.positional[p].nargs, ParsePositional(g, st, p, args);
            && (InConflict(g, st, Positional(p)) ==> step == Threw(Conflict))
            && (!InConflict(g, st, Positional(p)) && |args| < nargs ==> step == Threw(NotEnoughArguments))
            && (!InConflict(g, st, Positional(p)) && nargs <= |args| ==>
                  step.Consumed? && step.args == if nargs > 0 then nargs else if nargs == 0 then 1 else |args|)
  {
    hide InConflict;
  }

  /** An argument that names neither an option nor a sub-command goes to the next positional argument; one
      more is skipped. Without a positional argument left it is skipped itself. */
  lemma PositionalArguments(g: Graph, st: State, c: nat, args: seq<string>, used: nat, index: nat)
      returns (st': State, k: nat)
    requires g.WellFormed() && c < |g.cmds| && args != [] && Read(g, c, args[0], index).NoOption?
    requires forall i :: 0 <= i < |g.cmds[c].cmds| ==> g.cmds[g.cmds[c].cmds[i]].name != args[0]
    requires used < |g.cmds[c].positional| ==> ParsePositional(g, st, g.cmds[c].positional[used], args).Consumed?
    ensures if used < |g.cmds[c].positional| then
              && 0 < k <= |args| && Takes(g, st, st', g.cmds[c].positional[used], args[..k])
              && k == ParsePositional(g, st, g.cmds[c].positional[used], args).args
              && ParseArgs(g, st, c, args, used, index) == ParseArgs(g, st', c, Rest(args, k + 1), used + 1, index)
            else
              st' == st && ParseArgs(g, st, c, args, used, index) == ParseArgs(g, st, c, args[1..], used, index)
  {
    hide Read, InConflict, ParsePositional, Takes, ParseArgs, Next, FindCommand;
    if used < |g.cmds[c].positional| {
      var p := g.cmds[c].positional[used];
      PositionalGoes(g, st, c, args, used, index);
      Taken(g, st, p, args);
      PositionalExactly(g, st, p, args);
      var step := ParsePositional(g, st, p, args);
      st', k := step.state, step.args;
    } else {
      NothingGoes(g, st, c, args, used, index);
      st', k := st, 0;
    }
  }

  lemma PositionalGoes(g: Graph, st: State, c: nat, args: seq<string>, used: nat, index: nat)
    requires g.WellFormed() && c < |g.cmds| && args != [] && Read(g, c, args[0], index).NoOption?
    requires forall i :: 0 <= i < |g.cmds[c].cmds| ==> g.cmds[g.cmds[c].cmds[i]].name != args[0]
    requires used < |g.cmds[c].positional|
    requires ParsePositional(g, st, g.cmds[c].positional[used], args).Consumed?
    ensures var step := ParsePositional(g, st, g.cmds[c].positional[used], args);
            ParseArgs(g, st, c, args, used, index) ==
            ParseArgs(g, step.state, c, Rest(args, step.args + 1), used + 1, index)
  {
    hide Read, InConflict, ParsePositional, FindCommand;
    assert FindCommand(g, g.cmds[c].cmds, args[0]) == |g.cmds[c].cmds|;
  }

  lemma NothingGoes(g: Graph, st: State, c: nat, args: seq<string>, used: nat, index: nat)
    requires g.WellFormed() && c < |g.cmds| && args != [] && Read(g, c, args[0], index).NoOption?
    requires forall i :: 0 <= i < |g.cmds[c].cmds| ==> g.cmds[g.cmds[c].cmds[i]].name != args[0]
    requires used >= |g.cmds[c].positional|
    ensures ParseArgs(g, st, c, args, used, index) == ParseArgs(g, st, c, args[1..], used, index)
  {
    hide Read, InConflict, ParsePositional, FindCommand;
    assert FindCommand(g, g.cmds[c].cmds, args[0]) == |g.cmds[c].cmds|;
    assert Rest(args, 1) == args[1..];
  }

  // ------------------------------------------------------------------ what commands do

  /** The name of a sub-command: the first one with that name reads the rest, unless the command is in
      conflict. */
  lemma SubCommand(g: Graph, st: State, c: nat, i: nat, post: seq<string>, used: nat, index: nat)
    requires g.WellFormed() && c < |g.cmds| && i < |g.cmds[c].cmds|
    requires forall j :: 0 <= j < i ==> g.cmds[g.cmds[c].cmds[j]].name != g.cmds[g.cmds[c].cmds[i]].name
    requires Read(g, c, g.cmds[g.cmds[c].cmds[i]].name, index).NoOption?
    ensures var sub := g.cmds[c].cmds[i];
            ParseArgs(g, st, c, [g.cmds[sub].name] + post, used, index) ==
            if InConflict(g, st, Command(c)) then Result(st, Thrown(Conflict)) else ParseCommand(g, st, sub, post)
  {
    hide Read, InConflict;
    var sub := g.cmds[c].cmds[i];
    assert FindCommand(g, g.cmds[c].cmds, g.cmds[sub].name) == i;
    assert ([g.cmds[sub].name] + post)[1..] == post;
  }

  /** A command that has been parsed is counted once, after all it has read; one that has not is not. */
  lemma CommandCounted(g: Graph, st: State, c: nat, args: seq<string>)
    requires g.WellFormed() && c < |g.cmds|
    ensures var inner, r := ParseArgs(g, st, c, args, 0, 0), ParseCommand(g, st, c, args);
            && r.status == inner.status
            && r.state.values == inner.state.values && r.state.lists == inner.state.lists
            && (if r.status.Parsed? then CountsOnce(inner.state, r.state, Command(c)) else r == inner)
  {
  }
}
