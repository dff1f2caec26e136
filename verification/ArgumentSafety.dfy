/** For which grammars the place in a group of short options is never carried beyond the end of another
  argument, whatever the command line.
 */
module ArgumentSafety {
  import opened G = ArgumentGrammar
  import opened ArgumentConflicts
  import opened ArgumentSpelling
  import opened ArgumentPlaces

  // ----------------------------------------------------------------- the condition

  /** The argument is in conflict when these have been parsed. */
  predicate Clash(g: Graph, parsed: set<Arg>, arg: Arg)
    requires g.WellFormed()
  {
    var group := g.Conflicts(arg);
    group.Some? && exists i :: 0 <= i < |g.groups[group.value]| &&
                     g.groups[group.value][i] != arg && g.groups[group.value][i] in parsed
  }

  /** The first u positional arguments of a command. */
  function First(g: Graph, c: nat, u: nat): set<Arg>
    requires c < |g.cmds| && u <= |g.cmds[c].positional|
  {
    set j | 0 <= j < u :: Positional(g.cmds[c].positional[j])
  }

  function Nargs(g: Graph, c: nat, j: nat): int
    requires g.WellFormed() && c < |g.cmds| && j < |g.cmds[c].positional|
  {
    g.positional[g.cmds[c].positional[j]].nargs
  }

  /** The first u positional arguments can be filled, and leave something to be read. */
  predicate Fillable(g: Graph, c: nat, u: nat)
    requires g.WellFormed() && c < |g.cmds| && u <= |g.cmds[c].positional|
  {
    forall j :: 0 <= j < u ==>
      Nargs(g, c, j) >= 0 && !Clash(g, First(g, c, j), Positional(g.cmds[c].positional[j]))
  }

  /** A group of a flag and a letter that is no option comes after u positional arguments, and is not in
      conflict; if it is then taken for the next positional argument, that one leaves something as well. */
  predicate Carries(g: Graph, c: nat, ch: char, x: char, u: nat)
    requires g.WellFormed() && c < |g.cmds|
  {
    && FlagLetter(g, c, ch) && x != '\0' && !GroupLetter(g, c, x)
    && u <= |g.cmds[c].positional| && Fillable(g, c, u)
    && (var flag := Named(Letter(g, c, ch).n);
        && !Clash(g, First(g, c, u), flag)
        && (u < |g.cmds[c].positional| ==>
              Nargs(g, c, u) >= 0 && !Clash(g, First(g, c, u) + {flag}, Positional(g.cmds[c].positional[u]))))
  }

  ghost predicate SafeCommand(g: Graph, c: nat)
    requires g.WellFormed() && c < |g.cmds|
  {
    forall ch, x, u: nat :: !Carries(g, c, ch, x, u)
  }

  ghost predicate SafeGrammar(g: Graph)
    requires g.WellFormed()
  {
    forall c: nat :: c < |g.cmds| ==> SafeCommand(g, c)
  }

  /** C strings. */
  predicate CStrings(args: seq<string>) {
    forall i :: 0 <= i < |args| ==> '\0' !in args[i]
  }

  predicate AllCounted(st: State, parsed: set<Arg>) {
    forall arg :: arg in parsed ==> st.Count(arg) > 0
  }

  ghost predicate OnlyCounted(st: State, parsed: set<Arg>) {
    forall arg :: st.Count(arg) > 0 ==> arg in parsed
  }

  lemma ClashIsConflict(g: Graph, st: State, parsed: set<Arg>, arg: Arg)
    requires g.WellFormed()
    ensures AllCounted(st, parsed) && Clash(g, parsed, arg) ==> InConflict(g, st, arg)
    ensures OnlyCounted(st, parsed) && InConflict(g, st, arg) ==> Clash(g, parsed, arg)
  {
  }

  // ------------------------------------------------------- safe grammars stay inside

  /** The positional arguments filled so far have been counted, and a place in a group comes after a flag
      that has been counted. */
  predicate Place(g: Graph, st: State, c: nat, args: seq<string>, used: nat, index: nat)
    requires g.WellFormed() && c < |g.cmds|
  {
    args != [] ==>
      && used <= |g.cmds[c].positional| && Fillable(g, c, used) && AllCounted(st, First(g, c, used))
      && (index > 0 ==> AfterFlag(g, st, c, args[0], used, index))
  }

  predicate AfterFlag(g: Graph, st: State, c: nat, arg: string, used: nat, index: nat)
    requires g.WellFormed() && c < |g.cmds| && used <= |g.cmds[c].positional|
  {
    && IsDash(arg) && !IsLong(arg) && index + 1 < |arg| && FlagLetter(g, c, arg[1])
    && (var flag := Named(Letter(g, c, arg[1]).n); st.Count(flag) > 0 && !Clash(g, First(g, c, used), flag))
  }

  lemma CountedStays(g: Graph, st: State, c: nat, args: seq<string>, used: nat, index: nat, parsed: set<Arg>)
    requires g.WellFormed() && c < |g.cmds| && args != [] && AllCounted(st, parsed)
    ensures var turn := Next(g, st, c, args, used, index); turn.Go? ==> AllCounted(turn.state, parsed)
  {
    hide Next;
    forall arg | arg in parsed && Next(g, st, c, args, used, index).Go?
      ensures Next(g, st, c, args, used, index).state.Count(arg) > 0
    {
      TurnCounts(g, st, c, args, used, index, arg);
    }
  }

  /** A turn that reads a long option. */
  lemma LongPlace(g: Graph, st: State, c: nat, args: seq<string>, used: nat, index: nat)
    requires g.WellFormed() && c < |g.cmds| && args != [] && Place(g, st, c, args, used, index)
    requires Read(g, c, args[0], index).LongOption?
    ensures var turn := Next(g, st, c, args, used, index);
            && turn != Stop(PastEnd)
            && (turn.Go? ==> Place(g, turn.state, c, Rest(args, turn.args), turn.used, turn.index))
  {
    hide Read, InConflict, StoreNamed, Fillable, First, Clash, IndexOf, AllCounted;
    CountedStays(g, st, c, args, used, index, First(g, c, used));
  }

  /** A turn that reads a short option. */
  lemma ShortPlace(g: Graph, st: State, c: nat, args: seq<string>, used: nat, index: nat)
    requires g.WellFormed() && c < |g.cmds| && args != [] && Place(g, st, c, args, used, index)
    requires Read(g, c, args[0], index).ShortOption?
    ensures var turn := Next(g, st, c, args, used, index);
            && turn != Stop(PastEnd)
            && (turn.Go? ==> Place(g, turn.state, c, Rest(args, turn.args), turn.used, turn.index))
  {
    hide ReadFrom, Letter, InConflict, Fillable, First, Clash, AllCounted;
    var arg := args[0];
    CountedStays(g, st, c, args, used, index, First(g, c, used));
    assert Rest(args, 0) == args;
    if index == 0 {
      LetterInGroup(g, c, arg, 0);
      ClashIsConflict(g, st, First(g, c, used), Named(Letter(g, c, arg[1]).n));
    } else {
      TurnCounts(g, st, c, args, used, index, Named(Letter(g, c, arg[1]).n));
    }
  }

  /** A positional argument that was taken, with something left after it. */
  lemma TakenPlace(g: Graph, st: State, c: nat, args: seq<string>, used: nat)
    requires g.WellFormed() && c < |g.cmds| && args != [] && used < |g.cmds[c].positional|
    requires Fillable(g, c, used) && AllCounted(st, First(g, c, used))
    requires ParsePositional(g, st, g.cmds[c].positional[used], args).Consumed?
    ensures var step := ParsePositional(g, st, g.cmds[c].positional[used], args);
            Place(g, step.state, c, Rest(args, step.args + 1), used + 1, 0)
    ensures var step := ParsePositional(g, st, g.cmds[c].positional[used], args);
            Rest(args, step.args + 1) != [] ==> Nargs(g, c, used) >= 0
    ensures !InConflict(g, st, Positional(g.cmds[c].positional[used]))
  {
    hide InConflict, Clash;
    var p := g.cmds[c].positional[used];
    ClashIsConflict(g, st, First(g, c, used), Positional(p));
    assert First(g, c, used + 1) == First(g, c, used) + {Positional(p)};
  }

  /** A turn that reads no option: a place in a group would be carried over. */
  lemma OtherPlace(g: Graph, st: State, c: nat, args: seq<string>, used: nat, index: nat)
    requires g.WellFormed() && c < |g.cmds| && args != [] && Place(g, st, c, args, used, index)
    requires SafeCommand(g, c) && '\0' !in args[0] && Read(g, c, args[0], index).NoOption?
    ensures var turn := Next(g, st, c, args, used, index);
            && turn != Stop(PastEnd)
            && (turn.Go? ==> Place(g, turn.state, c, Rest(args, turn.args), turn.used, turn.index))
  {
    hide Read, FindCommand, InConflict, Fillable, First, Clash, AllCounted, ParsePositional, Letter, GroupLetter;
    var turn := Next(g, st, c, args, used, index);
    if turn.Go? {
      if used < |g.cmds[c].positional| {
        TakenPlace(g, st, c, args, used);
      }
      if index > 0 && Rest(args, turn.args) != [] {
        CarriesHere(g, st, c, args[0], used, index);
      }
    }
  }

  /** What makes the place be carried over is what the condition is about. */
  lemma CarriesHere(g: Graph, st: State, c: nat, arg: string, used: nat, index: nat)
    requires g.WellFormed() && c < |g.cmds| && used <= |g.cmds[c].positional|
    requires Fillable(g, c, used) && AllCounted(st, First(g, c, used))
    requires index > 0 && AfterFlag(g, st, c, arg, used, index) && '\0' !in arg
    requires Read(g, c, arg, index).NoOption?
    requires used < |g.cmds[c].positional| ==>
               Nargs(g, c, used) >= 0 && !InConflict(g, st, Positional(g.cmds[c].positional[used]))
    ensures Carries(g, c, arg[1], arg[index + 1], used)
  {
    hide ReadFrom, InConflict, Fillable, First, Clash, Letter, GroupLetter;
    NoGroupLetter(g, c, arg, index);
    assert arg[index + 1] in arg;
    if used < |g.cmds[c].positional| {
      var flag := Named(Letter(g, c, arg[1]).n);
      ClashIsConflict(g, st, First(g, c, used) + {flag}, Positional(g.cmds[c].positional[used]));
    }
  }

  lemma SafeTurn(g: Graph, st: State, c: nat, args: seq<string>, used: nat, index: nat)
    requires g.WellFormed() && c < |g.cmds| && args != [] && Place(g, st, c, args, used, index)
    requires SafeCommand(g, c) && '\0' !in args[0]
    ensures var turn := Next(g, st, c, args, used, index);
            && turn != Stop(PastEnd)
            && (turn.Go? ==> Place(g, turn.state, c, Rest(args, turn.args), turn.used, turn.index))
  {
    hide Next, Place, SafeCommand, ReadFrom;
    match Read(g, c, args[0], index)
    case LongOption(_) => LongPlace(g, st, c, args, used, index);
    case ShortOption(_) => ShortPlace(g, st, c, args, used, index);
    case NoOption => OtherPlace(g, st, c, args, used, index);
    case Overrun => NoOverrun(g, st, c, args, used, index);
  }

  lemma NoOverrun(g: Graph, st: State, c: nat, args: seq<string>, used: nat, index: nat)
    requires g.WellFormed() && c < |g.cmds| && args != [] && Place(g, st, c, args, used, index)
    ensures !Read(g, c, args[0], index).Overrun?
  {
    hide ReadFrom;
    OverrunExactly(g, g.cmds[c].named, args[0], index);
  }

  lemma {:induction false} SafeStaysInside(g: Graph, st: State, c: nat, args: seq<string>, used: nat, index: nat)
    requires g.WellFormed() && c < |g.cmds|
    requires SafeGrammar(g) && CStrings(args) && Place(g, st, c, args, used, index)
    ensures ParseArgs(g, st, c, args, used, index).status != PastEnd
    decreases |args|, LettersLeft(args, index)
  {
    hide SafeCommand, Place, Next;
    if args != [] {
      SafeTurn(g, st, c, args, used, index);
      match Next(g, st, c, args, used, index)
      case Stop(_) =>
      case Descend(sub) =>
        NothingFilled(g, st, sub, args[1..]);
        SafeStaysInside(g, st, sub, args[1..], 0, 0);
      case Go(next, k, used', index') => SafeStaysInside(g, next, c, Rest(args, k), used', index');
    }
  }

  lemma NothingFilled(g: Graph, st: State, c: nat, args: seq<string>)
    requires g.WellFormed() && c < |g.cmds|
    ensures Place(g, st, c, args, 0, 0)
  {
  }

  // ------------------------------------------------- other grammars have a bad line

  function LongestName(g: Graph, cmds: seq<nat>): (n: nat)
    requires forall k :: 0 <= k < |cmds| ==> cmds[k] < |g.cmds|
    ensures forall k :: 0 <= k < |cmds| ==> |g.cmds[cmds[k]].name| <= n
  {
    if cmds == [] then 0
    else
      var n := LongestName(g, cmds[1..]);
      assert forall k :: 0 < k < |cmds| ==> cmds[k] == cmds[1..][k - 1];
      if |g.cmds[cmds[0]].name| > n then |g.cmds[cmds[0]].name| else n
  }

  lemma {:induction false} TooLongForACommand(g: Graph, cmds: seq<nat>, name: string)
    requires forall k :: 0 <= k < |cmds| ==> cmds[k] < |g.cmds|
    requires |name| > LongestName(g, cmds)
    ensures FindCommand(g, cmds, name) == |cmds|
  {
    if cmds != [] {
      TooLongForACommand(g, cmds[1..], name);
    }
  }

  /** A word that is neither an option nor the name of a sub-command. */
  function Filler(g: Graph, c: nat): (r: string)
    requires g.WellFormed() && c < |g.cmds|
    ensures r != [] && r[0] == 'a' && '\0' !in r && |r| > LongestName(g, g.cmds[c].cmds)
  {
    seq(LongestName(g, g.cmds[c].cmds) + 1, _ => 'a')
  }

  lemma FillerIsNothing(g: Graph, c: nat, index: nat)
    requires g.WellFormed() && c < |g.cmds|
    ensures Read(g, c, Filler(g, c), index).NoOption?
    ensures FindCommand(g, g.cmds[c].cmds, Filler(g, c)) == |g.cmds[c].cmds|
  {
    TooLongForACommand(g, g.cmds[c].cmds, Filler(g, c));
  }

  function Copies(s: string, n: nat): (r: seq<string>)
    ensures |r| == n && forall i :: 0 <= i < n ==> r[i] == s
  {
    seq(n, _ => s)
  }

  /** A positional argument takes what it needs, one more argument is skipped, and the rest is left. */
  lemma PositionalTurn(g: Graph, st: State, c: nat, own: seq<string>, post: seq<string>, used: nat, index: nat)
    requires g.WellFormed() && c < |g.cmds| && used < |g.cmds[c].positional| && Nargs(g, c, used) >= 0
    requires |own| == PositionalCount(Nargs(g, c, used), 0) + 1
    requires Read(g, c, own[0], index).NoOption?
    requires FindCommand(g, g.cmds[c].cmds, own[0]) == |g.cmds[c].cmds|
    requires !InConflict(g, st, Positional(g.cmds[c].positional[used]))
    ensures var step := ParsePositional(g, st, g.cmds[c].positional[used], own);
            && step.Consumed?
            && step.state.counts == st.Counted(Positional(g.cmds[c].positional[used])).counts
            && ParseArgs(g, st, c, own + post, used, index) == ParseArgs(g, step.state, c, post, used + 1, index)
  {
    hide Read, FindCommand, InConflict;
    var p := g.cmds[c].positional[used];
    var k := |own| - 1;
    assert own[..k] == (own + post)[..k] && (own + post)[0] == own[0];
    SamePositional(g, st, p, own, own + post, k);
    assert Rest(own + post, k + 1) == post;
  }

  lemma OnlyOneMore(st: State, st': State, parsed: set<Arg>, arg: Arg)
    requires OnlyCounted(st, parsed) && st'.counts == st.Counted(arg).counts
    ensures OnlyCounted(st', parsed + {arg})
  {
    forall other | st'.Count(other) > 0 && other != arg ensures other in parsed {
      assert st'.Count(other) == st.Count(other);
    }
  }

  /** What fills the j-th positional argument, and one argument that is skipped. */
  function Own(g: Graph, c: nat, j: nat): (r: seq<string>)
    requires g.WellFormed() && c < |g.cmds| && j < |g.cmds[c].positional| && Nargs(g, c, j) >= 0
    ensures |r| == PositionalCount(Nargs(g, c, j), 0) + 1 && r[0] == Filler(g, c) && CStrings(r)
  {
    Copies(Filler(g, c), PositionalCount(Nargs(g, c, j), 0) + 1)
  }

  /** The j-th positional argument can be filled after those before it. */
  predicate CanFill(g: Graph, st: State, c: nat, j: nat)
    requires g.WellFormed() && c < |g.cmds|
  {
    j < |g.cmds[c].positional| && Nargs(g, c, j) >= 0 && !InConflict(g, st, Positional(g.cmds[c].positional[j]))
  }

  lemma FillOne(g: Graph, st: State, c: nat, j: nat, post: seq<string>) returns (st': State)
    requires g.WellFormed() && c < |g.cmds| && CanFill(g, st, c, j) && OnlyCounted(st, First(g, c, j))
    ensures OnlyCounted(st', First(g, c, j + 1))
    ensures st' == Filled(g, st, c, j)
    ensures ParseArgs(g, st, c, Own(g, c, j) + post, j, 0) == ParseArgs(g, st', c, post, j + 1, 0)
    ensures CStrings(post) ==> CStrings(Own(g, c, j) + post)
  {
    hide Read, FindCommand, InConflict, ParsePositional, ParseArgs, OnlyCounted, Own;
    var arg := Positional(g.cmds[c].positional[j]);
    FillerIsNothing(g, c, 0);
    PositionalTurn(g, st, c, Own(g, c, j), post, j, 0);
    st' := Filled(g, st, c, j);
    OnlyOneMore(st, st', First(g, c, j), arg);
    assert First(g, c, j + 1) == First(g, c, j) + {arg};
  }

  function Filled(g: Graph, st: State, c: nat, j: nat): State
    requires g.WellFormed() && c < |g.cmds| && CanFill(g, st, c, j)
  {
    var step := ParsePositional(g, st, g.cmds[c].positional[j], Own(g, c, j));
    if step.Consumed? then step.state else st
  }

  lemma NextCanFill(g: Graph, st: State, c: nat, j: nat, u: nat)
    requires g.WellFormed() && c < |g.cmds| && j < u <= |g.cmds[c].positional|
    requires Fillable(g, c, u) && OnlyCounted(st, First(g, c, j))
    ensures CanFill(g, st, c, j)
  {
    hide Clash, InConflict, OnlyCounted, First;
    ClashIsConflict(g, st, First(g, c, j), Positional(g.cmds[c].positional[j]));
  }

  /** Arguments that fill the positional arguments from the j-th up to the u-th one. */
  lemma {:induction false} Fill(g: Graph, st: State, c: nat, j: nat, u: nat, post: seq<string>)
      returns (args: seq<string>, st': State)
    requires g.WellFormed() && c < |g.cmds| && j <= u <= |g.cmds[c].positional|
    requires Fillable(g, c, u) && OnlyCounted(st, First(g, c, j)) && CStrings(post)
    ensures CStrings(args) && OnlyCounted(st', First(g, c, u))
    ensures ParseArgs(g, st, c, args, j, 0) == ParseArgs(g, st', c, post, u, 0)
    decreases u - j
  {
    hide Graph.WellFormed, ParseArgs, OnlyCounted, Fillable, First, CStrings, CanFill, Own, Filled;
    if j == u {
      return post, st;
    }
    NextCanFill(g, st, c, j, u);
    var next := FillOne(g, st, c, j, post);
    var more;
    more, st' := Fill(g, next, c, j + 1, u, post);
    var _ := FillOne(g, st, c, j, more);
    CanFillParts(g, st, c, j);
    args := Own(g, c, j) + more;
  }

  lemma CanFillParts(g: Graph, st: State, c: nat, j: nat)
    requires g.WellFormed() && c < |g.cmds| && CanFill(g, st, c, j)
    ensures j < |g.cmds[c].positional| && Nargs(g, c, j) >= 0
  {
  }

  /** The group, then what the next positional argument still takes, then a dash by itself. */
  function BadGroup(g: Graph, c: nat, ch: char, x: char, u: nat): (r: seq<string>)
    requires g.WellFormed() && c < |g.cmds| && Carries(g, c, ch, x, u)
  {
    [['-', ch, x] + Filler(g, c)] +
    Copies(Filler(g, c), if u < |g.cmds[c].positional| then PositionalCount(Nargs(g, c, u), 0) else 0) + ["-"]
  }

  lemma BadGroupIsBad(g: Graph, st: State, c: nat, ch: char, x: char, u: nat)
    requires g.WellFormed() && c < |g.cmds| && Carries(g, c, ch, x, u) && OnlyCounted(st, First(g, c, u))
    ensures ParseArgs(g, st, c, BadGroup(g, c, ch, x, u), u, 0).status == PastEnd
  {
    hide Letter, GroupLetter, Clash, Read, FindCommand, InConflict, StoreNamed, ParseArgs, OnlyCounted, ParsePositional;
    var n := Letter(g, c, ch).n;
    var args := BadGroup(g, c, ch, x, u);
    var arg := ['-', ch, x] + Filler(g, c);
    TooLongForACommand(g, g.cmds[c].cmds, arg);
    LetterIsLetter(g, c, ch);
    ClashIsConflict(g, st, First(g, c, u), Named(n));
    var st' := StoreNamed(g, st, n, g.named[n].constVal);
    StoreCounts(g, st, n, g.named[n].constVal);
    OnlyOneMore(st, st', First(g, c, u), Named(n));
    NoGroupLetter(g, c, arg, 1);
    if u == |g.cmds[c].positional| {
      assert args == [arg] + ["-"];
      FlagStep(g, st, c, arg, ["-"], u);
      PastGroup(g, st', c, arg, "-", u, 1);
      DashEnds(g, st', c, ch, u);
    } else {
      var p := g.cmds[c].positional[u];
      var own := [arg] + Copies(Filler(g, c), PositionalCount(Nargs(g, c, u), 0));
      assert args == own + ["-"] == [arg] + args[1..];
      FlagStep(g, st, c, arg, args[1..], u);
      ClashIsConflict(g, st', First(g, c, u) + {Named(n)}, Positional(p));
      PositionalTurn(g, st', c, own, ["-"], u, 1);
      DashEnds(g, ParsePositional(g, st', p, own).state, c, ch, u + 1);
    }
  }

  lemma BadGroupIsC(g: Graph, c: nat, ch: char, x: char, u: nat)
    requires g.WellFormed() && c < |g.cmds| && Carries(g, c, ch, x, u)
    ensures CStrings(BadGroup(g, c, ch, x, u))
  {
    hide Letter, GroupLetter, Clash, Fillable;
    LetterIsLetter(g, c, ch);
  }

  lemma LetterIsLetter(g: Graph, c: nat, ch: char)
    requires g.WellFormed() && c < |g.cmds| && Letter(g, c, ch).ShortOption?
    ensures ch != '\0' && ch != '-'
    ensures exists k :: 0 <= k < |g.cmds[c].named| && g.named[g.cmds[c].named[k]].shortName != '\0'
  {
    hide ReadFrom;
    HasShortName(g, g.cmds[c].named, ['-', ch], 0);
  }

  lemma StoreCounts(g: Graph, st: State, n: nat, value: string)
    requires n < |g.named|
    ensures StoreNamed(g, st, n, value).counts == st.Counted(Named(n)).counts
  {
  }

  /** Reading the flag of the group. */
  lemma FlagStep(g: Graph, st: State, c: nat, arg: string, post: seq<string>, used: nat)
    requires g.WellFormed() && c < |g.cmds|
    requires IsDash(arg) && !IsLong(arg) && |arg| > 2 && FlagLetter(g, c, arg[1])
    requires !InConflict(g, st, Named(Letter(g, c, arg[1]).n))
    ensures var n := Letter(g, c, arg[1]).n;
            ParseArgs(g, st, c, [arg] + post, used, 0) ==
            ParseArgs(g, StoreNamed(g, st, n, g.named[n].constVal), c, [arg] + post, used, 1)
  {
    hide Letter, InConflict, StoreNamed, Next;
    FlagTurn(g, st, c, arg, 0, post, used);
    assert Rest([arg] + post, 0) == [arg] + post;
  }

  lemma DashEnds(g: Graph, st: State, c: nat, ch: char, used: nat)
    requires g.WellFormed() && c < |g.cmds| && Letter(g, c, ch).ShortOption?
    ensures ParseArgs(g, st, c, ["-"], used, 1).status == PastEnd
  {
    hide ReadFrom, Letter, ParseArgs;
    LetterIsLetter(g, c, ch);
    OverrunExactly(g, g.cmds[c].named, "-", 1);
    LastArgument(g, st, c, "-", used, 1);
  }

  // -------------------------------------------------------------------- both ways

  /** A command that is not safe has a command line that is read beyond the end of an argument, from the
      start. */
  lemma UnsafeLine(g: Graph, c: nat) returns (args: seq<string>)
    requires g.WellFormed() && c < |g.cmds| && !SafeCommand(g, c)
    ensures CStrings(args) && ParseCommand(g, START, c, args).status == PastEnd
  {
    var ch, x, u: nat :| Carries(g, c, ch, x, u);
    hide FlagLetter, GroupLetter, Clash, ParseArgs, Fillable;
    assert First(g, c, 0) == {};
    BadGroupIsC(g, c, ch, x, u);
    var st';
    args, st' := Fill(g, START, c, 0, u, BadGroup(g, c, ch, x, u));
    BadGroupIsBad(g, st', c, ch, x, u);
  }

  /** The grammars in which no command line is ever read beyond the end of an argument are exactly the safe
      ones, from every state, and also just from the start. */
  lemma SafeExactly(g: Graph)
    requires g.WellFormed()
    ensures SafeGrammar(g) <==>
      forall st, c: nat, args :: c < |g.cmds| && CStrings(args) ==> ParseCommand(g, st, c, args).status != PastEnd
    ensures SafeGrammar(g) <==>
      forall c: nat, args :: c < |g.cmds| && CStrings(args) ==> ParseCommand(g, START, c, args).status != PastEnd
  {
    hide SafeCommand, Place, ParseArgs;
    if SafeGrammar(g) {
      forall st, c: nat, args | c < |g.cmds| && CStrings(args)
        ensures ParseCommand(g, st, c, args).status != PastEnd
      {
        NothingFilled(g, st, c, args);
        SafeStaysInside(g, st, c, args, 0, 0);
      }
    } else {
      var c: nat :| c < |g.cmds| && !SafeCommand(g, c);
      var args := UnsafeLine(g, c);
    }
  }

  /** Where no positional argument has conflicts, a command is safe exactly when it has no flag with a short
      name, or declares every letter, or its first positional argument takes all that is left. */
  lemma SafeWithoutConflicts(g: Graph, c: nat)
    requires g.WellFormed() && c < |g.cmds|
    requires forall p :: 0 <= p < |g.positional| ==> g.positional[p].conflicts.None?
    ensures SafeCommand(g, c) <==>
      || (forall ch :: !FlagLetter(g, c, ch))
      || (forall x :: x != '\0' ==> GroupLetter(g, c, x))
      || (g.cmds[c].positional != [] && Nargs(g, c, 0) < 0)
  {
    hide FlagLetter, GroupLetter;
    if ch, x :| FlagLetter(g, c, ch) && x != '\0' && !GroupLetter(g, c, x) {
      if g.cmds[c].positional == [] || Nargs(g, c, 0) >= 0 {
        assert Carries(g, c, ch, x, 0);
      }
    }
  }
}
