/** What holds in every state that parsing goes through: of the options and positional arguments
  of a conflict group at most one has been parsed, and no parse count ever goes down.
 */
module ArgumentConflicts {
  import opened Options
  import opened G = ArgumentGrammar

  // ----------------------------------------------------------- states on the way

  /** The states before every turn of a command and its sub-commands, and the last one. */
  function Trace(g: Graph, st: State, c: nat, args: seq<string>, used: nat, index: nat): seq<State>
    requires g.WellFormed() && c < |g.cmds|
    decreases |args|, 0, LettersLeft(args, index)
  {
    if args == [] then [st]
    else
      match Next(g, st, c, args, used, index)
      case Stop(_) => [st]
      case Descend(sub) => [st] + CommandTrace(g, st, sub, args[1..])
      case Go(next, k, used', index') => [st] + Trace(g, next, c, Rest(args, k), used', index')
  }

  function CommandTrace(g: Graph, st: State, c: nat, args: seq<string>): seq<State>
    requires g.WellFormed() && c < |g.cmds|
    decreases |args|, 1, 0
  {
    Trace(g, st, c, args, 0, 0) + [ParseCommand(g, st, c, args).state]
  }

  /** The trace of a command ends with the state that parsing it leaves. */
  lemma {:induction false} TraceEnds(g: Graph, st: State, c: nat, args: seq<string>, used: nat, index: nat)
    requires g.WellFormed() && c < |g.cmds|
    ensures Trace(g, st, c, args, used, index) != []
    ensures Trace(g, st, c, args, used, index)[0] == st
    ensures var t := Trace(g, st, c, args, used, index); t[|t| - 1] == ParseArgs(g, st, c, args, used, index).state
    decreases |args|, 0, LettersLeft(args, index)
  {
    hide Next;
    if args != [] {
      match Next(g, st, c, args, used, index)
      case Stop(_) =>
      case Descend(_) =>
      case Go(next, k, used', index') => TraceEnds(g, next, c, Rest(args, k), used', index');
    }
  }

  // ------------------------------------------------------------ conflict groups

  /** All members of the group are options or positional arguments that point back to it. */
  predicate Exclusive(g: Graph, group: nat)
    requires g.WellFormed()
  {
    group < |g.groups| &&
    forall i :: 0 <= i < |g.groups[group]| ==>
      !g.groups[group][i].Command? && g.Conflicts(g.groups[group][i]) == Some(group)
  }

  predicate Twice(st: State, a: Arg, b: Arg) {
    st.Count(a) > 0 && st.Count(b) > 0
  }

  predicate AtMostOne(st: State, members: seq<Arg>) {
    forall i, j :: 0 <= i < |members| && 0 <= j < |members| && Twice(st, members[i], members[j]) ==>
      members[i] == members[j]
  }

  /** Counting an argument whose group was looked at. */
  lemma CountingKeeps(g: Graph, st: State, st': State, arg: Arg, group: nat)
    requires g.WellFormed() && Exclusive(g, group) && AtMostOne(st, g.groups[group])
    requires !InConflict(g, st, arg)
    requires st'.counts == st.Counted(arg).counts
    ensures AtMostOne(st', g.groups[group])
  {
    var members := g.groups[group];
    if arg in members {
      assert g.Conflicts(arg) == Some(group);
      assert forall i :: 0 <= i < |members| && members[i] != arg ==> st.Count(members[i]) == 0;
    }
    assert forall other :: other != arg ==> st'.Count(other) == st.Count(other);
  }

  lemma CommandKeeps(g: Graph, st: State, c: nat, group: nat)
    requires g.WellFormed() && Exclusive(g, group) && AtMostOne(st, g.groups[group])
    ensures AtMostOne(st.Counted(Command(c)), g.groups[group])
  {
    assert forall other :: other != Command(c) ==> st.Counted(Command(c)).Count(other) == st.Count(other);
  }

  lemma LongKeeps(g: Graph, st: State, n: nat, option: string, args: seq<string>, group: nat)
    requires g.WellFormed() && n < |g.named| && args != []
    requires Exclusive(g, group) && AtMostOne(st, g.groups[group])
    ensures var r := ParseLong(g, st, n, option, args); r.Consumed? ==> AtMostOne(r.state, g.groups[group])
  {
    hide InConflict, Exclusive, AtMostOne;
    var r := ParseLong(g, st, n, option, args);
    if r.Consumed? {
      CountingKeeps(g, st, r.state, Named(n), group);
    }
  }

  lemma ShortKeeps(g: Graph, st: State, n: nat, option: string, args: seq<string>, group: nat)
    requires g.WellFormed() && n < |g.named| && option != [] && args != []
    requires Exclusive(g, group) && AtMostOne(st, g.groups[group])
    ensures var r := ParseShort(g, st, n, option, args); r.Consumed? ==> AtMostOne(r.state, g.groups[group])
  {
    hide InConflict, Exclusive, AtMostOne;
    var r := ParseShort(g, st, n, option, args);
    if r.Consumed? {
      CountingKeeps(g, st, r.state, Named(n), group);
    }
  }

  lemma PositionalKeeps(g: Graph, st: State, p: nat, args: seq<string>, group: nat)
    requires g.WellFormed() && p < |g.positional| && args != []
    requires Exclusive(g, group) && AtMostOne(st, g.groups[group])
    ensures var r := ParsePositional(g, st, p, args); r.Consumed? ==> AtMostOne(r.state, g.groups[group])
  {
    hide InConflict, Exclusive, AtMostOne;
    var r := ParsePositional(g, st, p, args);
    if r.Consumed? {
      CountingKeeps(g, st, r.state, Positional(p), group);
    }
  }

  lemma TurnKeeps(g: Graph, st: State, c: nat, args: seq<string>, used: nat, index: nat, group: nat)
    requires g.WellFormed() && c < |g.cmds| && args != []
    requires Exclusive(g, group) && AtMostOne(st, g.groups[group])
    ensures var turn := Next(g, st, c, args, used, index);
            turn.Go? ==> AtMostOne(turn.state, g.groups[group])
  {
    hide Read, InConflict, Exclusive, AtMostOne, FindCommand, ParseLong, ParseShort, ParsePositional;
    match Read(g, c, args[0], index)
    case LongOption(n) => LongKeeps(g, st, n, args[0][2..], args, group);
    case ShortOption(n) => ShortKeeps(g, st, n, args[0][index + 1..], args, group);
    case NoOption =>
      if used < |g.cmds[c].positional| {
        PositionalKeeps(g, st, g.cmds[c].positional[used], args, group);
      }
    case Overrun =>
  }

  lemma {:induction false} TraceKeeps(g: Graph, st: State, c: nat, args: seq<string>, used: nat, index: nat,
                                      group: nat, k: nat)
    requires g.WellFormed() && c < |g.cmds|
    requires Exclusive(g, group) && AtMostOne(st, g.groups[group])
    requires k < |Trace(g, st, c, args, used, index)|
    ensures AtMostOne(Trace(g, st, c, args, used, index)[k], g.groups[group])
    decreases |args|, 0, LettersLeft(args, index)
  {
    hide Next, Exclusive, AtMostOne;
    if k > 0 {
      TurnKeeps(g, st, c, args, used, index, group);
      match Next(g, st, c, args, used, index)
      case Descend(sub) => CommandTraceKeeps(g, st, sub, args[1..], group, k - 1);
      case Go(next, n, used', index') => TraceKeeps(g, next, c, Rest(args, n), used', index', group, k - 1);
    }
  }

  lemma {:induction false} CommandTraceKeeps(g: Graph, st: State, c: nat, args: seq<string>, group: nat, k: nat)
    requires g.WellFormed() && c < |g.cmds|
    requires Exclusive(g, group) && AtMostOne(st, g.groups[group])
    requires k < |CommandTrace(g, st, c, args)|
    ensures AtMostOne(CommandTrace(g, st, c, args)[k], g.groups[group])
    decreases |args|, 1, 0
  {
    hide Exclusive, AtMostOne;
    var t := Trace(g, st, c, args, 0, 0);
    TraceEnds(g, st, c, args, 0, 0);
    TraceKeeps(g, st, c, args, 0, 0, group, if k < |t| then k else |t| - 1);
    if k == |t| {
      CommandKeeps(g, ParseArgs(g, st, c, args, 0, 0).state, c, group);
    }
  }

  /** A command line that starts with nothing parsed never has two arguments of an exclusive group
      parsed, in any state on the way, whatever sub-commands it goes through. */
  lemma OneOfEachGroup(g: Graph, c: nat, args: seq<string>, group: nat)
    requires g.WellFormed() && c < |g.cmds| && Exclusive(g, group)
    ensures forall k :: 0 <= k < |CommandTrace(g, State(map[], map[], map[]), c, args)| ==>
              AtMostOne(CommandTrace(g, State(map[], map[], map[]), c, args)[k], g.groups[group])
  {
    var start := State(map[], map[], map[]);
    assert AtMostOne(start, g.groups[group]);
    forall k | 0 <= k < |CommandTrace(g, start, c, args)|
      ensures AtMostOne(CommandTrace(g, start, c, args)[k], g.groups[group])
    {
      CommandTraceKeeps(g, start, c, args, group, k);
    }
  }

  // ------------------------------------------------------------- counts only grow

  lemma TurnCounts(g: Graph, st: State, c: nat, args: seq<string>, used: nat, index: nat, arg: Arg)
    requires g.WellFormed() && c < |g.cmds| && args != []
    ensures var turn := Next(g, st, c, args, used, index); turn.Go? ==> turn.state.Count(arg) >= st.Count(arg)
  {
    hide Read, InConflict, FindCommand;
  }

  /** No parse count ever goes down. */
  lemma {:induction false} CountsGrow(g: Graph, st: State, c: nat, args: seq<string>, used: nat, index: nat, arg: Arg)
    requires g.WellFormed() && c < |g.cmds|
    ensures ParseArgs(g, st, c, args, used, index).state.Count(arg) >= st.Count(arg)
    decreases |args|, LettersLeft(args, index)
  {
    hide Next;
    if args != [] {
      TurnCounts(g, st, c, args, used, index, arg);
      match Next(g, st, c, args, used, index)
      case Stop(_) =>
      case Descend(sub) => CountsGrow(g, st, sub, args[1..], 0, 0, arg);
      case Go(next, k, used', index') => CountsGrow(g, next, c, Rest(args, k), used', index', arg);
    }
  }
}
