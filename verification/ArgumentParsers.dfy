/** The argument parser of argument_parser.cpp as an object: it owns all arguments, and its methods
  count and store what they read. Each method is proved to do what the function of the same name
  in ArgumentGrammar says, and to end for every command line and every graph of commands.
 */
module ArgumentParsers {
  import opened Options
  import opened G = ArgumentGrammar

  class ArgumentParser {
    const graph: Graph
    var counts: map<Arg, nat>
    var values: map<nat, string>
    var lists: map<nat, seq<string>>

    constructor (graph: Graph)
      ensures this.graph == graph && Current() == State(map[], map[], map[])
    {
      this.graph := graph;
      counts, values, lists := map[], map[], map[];
    }

    function Current(): State
      reads this
    {
      State(counts, values, lists)
    }

    method HasConflict(arg: Arg) returns (found: bool)
      requires graph.WellFormed()
      ensures found <==> InConflict(graph, Current(), arg)
    {
      var conflicts := graph.Conflicts(arg);
      if conflicts.None? {
        return false;
      }
      var group := graph.groups[conflicts.value];
      for i := 0 to |group|
        invariant forall k :: 0 <= k < i ==> group[k] == arg || Current().Count(group[k]) == 0
      {
        if group[i] != arg && Current().Count(group[i]) > 0 {
          return true;
        }
      }
      found := false;
    }

    method Count(arg: Arg)
      modifies this`counts
      ensures Current() == old(Current()).Counted(arg)
    {
      counts := counts[arg := (if arg in counts then counts[arg] else 0) + 1];
    }

    method StoreNamed(n: nat, value: string)
      requires n < |graph.named|
      modifies this
      ensures Current() == G.StoreNamed(graph, old(Current()), n, value)
    {
      if graph.named[n].storeValue && graph.named[n].value.Some? {
        values := values[graph.named[n].value.value := value];
      }
      Count(Named(n));
    }

    method ParseLong(n: nat, option: string, args: seq<string>) returns (error: Option<Error>, consumed: nat)
      requires graph.WellFormed() && n < |graph.named| && args != []
      modifies this
      ensures match G.ParseLong(graph, old(Current()), n, option, args)
              case Threw(e) => error == Some(e) && Current() == old(Current())
              case Consumed(st, k) => error == None && consumed == k && Current() == st
      ensures error == None ==> consumed <= |args|
    {
      consumed := 0;
      var conflict := HasConflict(Named(n));
      if conflict {
        return Some(Conflict), 0;
      }
      var eq := G.IndexOf(option, '=');
      var argValue;
      if graph.named[n].hasArg {
        if eq < |option| {
          argValue, consumed := option[eq + 1..], 1;
        } else {
          if |args| < 2 {
            return Some(NotEnoughArguments), 0;
          }
          argValue, consumed := args[1], 2;
        }
      } else {
        if eq < |option| {
          return Some(UnexpectedValue), 0;
        }
        argValue, consumed := graph.named[n].constVal, 1;
      }
      StoreNamed(n, argValue);
      error := None;
    }

    method ParseShort(n: nat, option: string, args: seq<string>) returns (error: Option<Error>, consumed: nat)
      requires graph.WellFormed() && n < |graph.named| && option != [] && args != []
      modifies this
      ensures match G.ParseShort(graph, old(Current()), n, option, args)
              case Threw(e) => error == Some(e) && Current() == old(Current())
              case Consumed(st, k) => error == None && consumed == k && Current() == st
      ensures error == None ==> consumed <= |args|
    {
      consumed := 0;
      var conflict := HasConflict(Named(n));
      if conflict {
        return Some(Conflict), 0;
      }
      var argValue;
      if graph.named[n].hasArg {
        if |option| > 1 {
          argValue, consumed := option[1..], 1;
        } else {
          if |args| < 2 {
            return Some(NotEnoughArguments), 0;
          }
          argValue, consumed := args[1], 2;
        }
      } else {
        argValue, consumed := graph.named[n].constVal, if |option| == 1 then 1 else 0;
      }
      StoreNamed(n, argValue);
      error := None;
    }

    method ParsePositional(p: nat, args: seq<string>) returns (error: Option<Error>, consumed: nat)
      requires graph.WellFormed() && p < |graph.positional| && args != []
      modifies this
      ensures match G.ParsePositional(graph, old(Current()), p, args)
              case Threw(e) => error == Some(e) && Current() == old(Current())
              case Consumed(st, k) => error == None && consumed == k && Current() == st
    {
      var arg := graph.positional[p];
      consumed := 0;
      var conflict := HasConflict(Positional(p));
      if conflict {
        return Some(Conflict), 0;
      }
      if |args| < arg.nargs {
        return Some(NotEnoughArguments), 0;
      }
      consumed := PositionalCount(arg.nargs, |args|);
      if arg.storeValue {
        SetValues(arg.values, args, consumed);
      }
      Count(Positional(p));
      error := None;
    }

    /** Stores the first `count` arguments into a list of values that may be shorter or longer. */
    method SetValues(l: nat, args: seq<string>, count: nat)
      requires count <= |args|
      modifies this`lists
      ensures lists == old(lists)[l := Filled(args, old(Current()).List(l), count)]
    {
      hide Filled;
      ghost var before := Current().List(l);
      var list := if l in lists then lists[l] else [];
      NonePlaced(args, list);
      for i := 0 to count
        invariant lists == old(lists) && list == Filled(args, before, i)
      {
        OnePlaced(args, before, i);
        if |list| <= i {
          list := list + [args[i]];
        } else {
          list := list[i := args[i]];
        }
      }
      lists := lists[l := list];
    }

    method FindOption(c: nat, arg: string, index: nat) returns (r: Reading)
      requires graph.WellFormed() && c < |graph.cmds|
      ensures r == Read(graph, c, arg, index)
    {
      var named := graph.cmds[c].named;
      if !IsDash(arg) {
        return NoOption;
      }
      var long := IsLong(arg);
      var i := 0;
      while i < |named|
        invariant i <= |named|
        invariant Read(graph, c, arg, index) == ReadFrom(graph, named[i..], arg, index)
      {
        var option := graph.named[named[i]];
        assert named[i..][0] == named[i] && named[i..][1..] == named[i + 1..];
        if long {
          if option.longName != [] && option.longName == LongName(arg) {
            return LongOption(named[i]);
          }
        } else if option.shortName != '\0' {
          if index + 1 > |arg| {
            return Overrun;
          }
          if index + 1 < |arg| && option.shortName == arg[index + 1] {
            return ShortOption(named[i]);
          }
        }
        i := i + 1;
      }
      r := NoOption;
    }

    method FindSubcommand(c: nat, name: string) returns (i: nat)
      requires graph.WellFormed() && c < |graph.cmds|
      ensures i == FindCommand(graph, graph.cmds[c].cmds, name)
    {
      var cmds := graph.cmds[c].cmds;
      i := 0;
      while i < |cmds|
        invariant i <= |cmds|
        invariant FindCommand(graph, cmds, name) == i + FindCommand(graph, cmds[i..], name)
      {
        assert cmds[i..][0] == cmds[i] && cmds[i..][1..] == cmds[i + 1..];
        if graph.cmds[cmds[i]].name == name {
          return;
        }
        i := i + 1;
      }
    }

    /** Parses the arguments of a command; argv[0] is the name it was called by. Every index into
        argv is in range, and the place in argv never passes argc + 1. */
    method ParseCommand(c: nat, argv: seq<string>) returns (status: Status)
      requires graph.WellFormed() && c < |graph.cmds| && argv != []
      modifies this
      ensures Result(Current(), status) == G.ParseCommand(graph, old(Current()), c, argv[1..])
      decreases |argv|
    {
      hide Graph.WellFormed, ParseArgs, Next, LettersLeft, Rest, Read;
      hide G.ParseLong, G.ParseShort, G.ParsePositional, InConflict, FindCommand;
      References(graph, c);
      var usedValues := 0;
      var shortOptionIdx := 0;
      var i := 1;
      ghost var whole := ParseArgs(graph, Current(), c, argv[1..], 0, 0);
      RestEnds(argv, 1);
      while i < |argv|
        invariant 1 <= i <= |argv| + 1
        invariant whole == ParseArgs(graph, Current(), c, Rest(argv, i), usedValues, shortOptionIdx)
        decreases |argv| + 1 - i, LettersLeft(Rest(argv, i), shortOptionIdx)
      {
        OneTurn(graph, Current(), c, argv, i, usedValues, shortOptionIdx);
        NextByReading(graph, Current(), c, argv[i..], usedValues, shortOptionIdx);
        var reading := FindOption(c, argv[i], shortOptionIdx);
        match reading {
          case Overrun => return PastEnd;
          case LongOption(n) =>
            var error, consumed := ParseLong(n, argv[i][2..], argv[i..]);
            if error.Some? {
              return Thrown(error.value);
            }
            i := i + consumed;
          case ShortOption(n) =>
            var error, consumed := ParseShort(n, argv[i][shortOptionIdx + 1..], argv[i..]);
            if error.Some? {
              return Thrown(error.value);
            }
            if consumed > 0 {
              i := i + consumed;
              shortOptionIdx := 0;
            } else {
              shortOptionIdx := shortOptionIdx + 1;
            }
          case NoOption =>
            var sub := FindSubcommand(c, argv[i]);
            if sub < |graph.cmds[c].cmds| {
              var conflict := HasConflict(Command(c));
              if conflict {
                return Thrown(Conflict);
              }
              status := ParseCommand(graph.cmds[c].cmds[sub], argv[i..]);
              if !status.Parsed? {
                return;
              }
              Count(Command(c));
              return;
            }
            if usedValues < |graph.cmds[c].positional| {
              var error, consumed := ParsePositional(graph.cmds[c].positional[usedValues], argv[i..]);
              if error.Some? {
                return Thrown(error.value);
              }
              i := i + consumed;
              usedValues := usedValues + 1;
            }
            i := i + 1;
        }
      }
      RestEnds(argv, i);
      AtEnd(graph, Current(), c, usedValues, shortOptionIdx);
      Count(Command(c));
      status := Parsed;
    }
  }

  /** One turn of the loop at place i of argv. */
  lemma OneTurn(g: Graph, st: State, c: nat, argv: seq<string>, i: nat, used: nat, index: nat)
    requires g.WellFormed() && c < |g.cmds| && 1 <= i < |argv|
    ensures ParseArgs(g, st, c, Rest(argv, i), used, index) ==
            match Next(g, st, c, argv[i..], used, index)
            case Stop(status) => Result(st, status)
            case Descend(sub) => G.ParseCommand(g, st, sub, argv[i..][1..])
            case Go(next, k, used', index') => ParseArgs(g, next, c, Rest(argv, i + k), used', index')
    ensures index + 1 < |argv[i]| ==> LettersLeft(Rest(argv, i), index + 1) < LettersLeft(Rest(argv, i), index)
  {
    hide Next;
    assert forall k: nat :: Rest(argv[i..], k) == Rest(argv, i + k);
  }

  lemma AtEnd(g: Graph, st: State, c: nat, used: nat, index: nat)
    requires g.WellFormed() && c < |g.cmds|
    ensures ParseArgs(g, st, c, [], used, index) == Result(st, Parsed)
  {
  }

  lemma NonePlaced(args: seq<string>, list: seq<string>)
    ensures Filled(args, list, 0) == list
  {
  }

  lemma OnePlaced(args: seq<string>, list: seq<string>, i: nat)
    requires i < |args|
    ensures var filled := Filled(args, list, i);
            Filled(args, list, i + 1) == if |filled| <= i then filled + [args[i]] else filled[i := args[i]]
  {
  }

  /** What a turn does, by how its first argument is read. */
  lemma NextByReading(g: Graph, st: State, c: nat, args: seq<string>, used: nat, index: nat)
    requires g.WellFormed() && c < |g.cmds| && args != []
    ensures var r, turn := Read(g, c, args[0], index), Next(g, st, c, args, used, index);
            && (r.Overrun? ==> turn == Stop(PastEnd))
            && (r.LongOption? ==> turn == LongTurn(G.ParseLong(g, st, r.n, args[0][2..], args), used, index))
            && (r.ShortOption? ==>
                  turn == ShortTurn(G.ParseShort(g, st, r.n, args[0][index + 1..], args), used, index))
            && (r.NoOption? ==> turn == OtherTurn(g, st, c, args, used, index))
  {
    hide Read, G.ParseLong, G.ParseShort, G.ParsePositional, InConflict, FindCommand;
  }

  lemma References(g: Graph, c: nat)
    requires g.WellFormed() && c < |g.cmds|
    ensures forall k :: 0 <= k < |g.cmds[c].cmds| ==> g.cmds[c].cmds[k] < |g.cmds|
    ensures forall k :: 0 <= k < |g.cmds[c].positional| ==> g.cmds[c].positional[k] < |g.positional|
  {
  }

  lemma RestEnds(argv: seq<string>, i: nat)
    ensures Rest(argv, i) == if i <= |argv| then argv[i..] else []
  {
  }
}
