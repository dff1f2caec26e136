/** What parsing a command line means in argument_parser.cpp, as functions on values. The arguments
  are owned by the parser and refer to each other by index, so the graph of commands may be
  cyclic; parsing is a function of the arguments that are still to be read.

  Hooks are modelled as doing nothing, and options as accepting any string. Where the source
  would read a short-option letter beyond the end of its argument, the outcome is `PastEnd`.
 */
module ArgumentGrammar {
  import opened Options

  /** A reference to an argument of the parser. */
  datatype Arg = Named(n: nat) | Positional(p: nat) | Command(c: nat)

  /** An option: `value` is the linked option that stores what is given. '\0' is no short name. */
  datatype NamedArg = NamedArg(longName: string, shortName: char, hasArg: bool, constVal: string,
                               value: Option<nat>, storeValue: bool, conflicts: Option<nat>)

  datatype PositionalArg = PositionalArg(nargs: int, values: nat, storeValue: bool, conflicts: Option<nat>)

  datatype CommandArg = CommandArg(name: string, cmds: seq<nat>, named: seq<nat>, positional: seq<nat>,
                                   conflicts: Option<nat>)

  const OPTIONAL := 0

  datatype Graph = Graph(named: seq<NamedArg>, positional: seq<PositionalArg>, cmds: seq<CommandArg>,
                         groups: seq<seq<Arg>>)
  {
    predicate GroupExists(conflicts: Option<nat>) {
      conflicts.Some? ==> conflicts.value < |groups|
    }

    /** Every reference leads to an argument or a group. */
    predicate WellFormed() {
      && (forall i :: 0 <= i < |named| ==> GroupExists(named[i].conflicts))
      && (forall i :: 0 <= i < |positional| ==> GroupExists(positional[i].conflicts))
      && (forall i :: 0 <= i < |cmds| ==>
            && GroupExists(cmds[i].conflicts)
            && (forall k :: 0 <= k < |cmds[i].cmds| ==> cmds[i].cmds[k] < |cmds|)
            && (forall k :: 0 <= k < |cmds[i].named| ==> cmds[i].named[k] < |named|)
            && (forall k :: 0 <= k < |cmds[i].positional| ==> cmds[i].positional[k] < |positional|))
    }

    function Conflicts(arg: Arg): (r: Option<nat>)
      requires WellFormed()
      ensures GroupExists(r)
    {
      match arg
      case Named(n) => if n < |named| then named[n].conflicts else None
      case Positional(p) => if p < |positional| then positional[p].conflicts else None
      case Command(c) => if c < |cmds| then cmds[c].conflicts else None
    }
  }

  /** What parsing changes: the parse counts, the linked options and the lists of values. */
  datatype State = State(counts: map<Arg, nat>, values: map<nat, string>, lists: map<nat, seq<string>>) {
    function Count(arg: Arg): nat {
      if arg in counts then counts[arg] else 0
    }

    function Counted(arg: Arg): State {
      this.(counts := counts[arg := Count(arg) + 1])
    }

    function List(l: nat): seq<string> {
      if l in lists then lists[l] else []
    }
  }

  datatype Error = Conflict | NotEnoughArguments | UnexpectedValue

  datatype Status = Parsed | Thrown(error: Error) | PastEnd

  datatype Result = Result(state: State, status: Status)

  /** The outcome of one argument: the number of consumed arguments, unless it threw. */
  datatype Step = Consumed(state: State, args: nat) | Threw(error: Error)

  // ---------------------------------------------------------- single arguments

  predicate OtherParsed(st: State, group: seq<Arg>, arg: Arg) {
    exists i :: 0 <= i < |group| && group[i] != arg && st.Count(group[i]) > 0
  }

  /** Another member of the argument's conflict group has been parsed. */
  predicate InConflict(g: Graph, st: State, arg: Arg)
    requires g.WellFormed()
  {
    var group := g.Conflicts(arg);
    group.Some? && OtherParsed(st, g.groups[group.value], arg)
  }

  function IndexOf(s: string, ch: char): (i: nat)
    ensures i <= |s| && (i < |s| ==> s[i] == ch) && forall j :: 0 <= j < i ==> s[j] != ch
  {
    if s == [] || s[0] == ch then 0 else 1 + IndexOf(s[1..], ch)
  }

  function StoreNamed(g: Graph, st: State, n: nat, value: string): State
    requires n < |g.named|
  {
    var stored := if g.named[n].storeValue && g.named[n].value.Some?
                  then st.(values := st.values[g.named[n].value.value := value]) else st;
    stored.Counted(Named(n))
  }

  /** `option` is the argument without its dashes, `args` the arguments from this one on. */
  function ParseLong(g: Graph, st: State, n: nat, option: string, args: seq<string>): Step
    requires g.WellFormed() && n < |g.named| && args != []
  {
    var eq := IndexOf(option, '=');
    if InConflict(g, st, Named(n)) then Threw(Conflict)
    else if g.named[n].hasArg then
      if eq < |option| then Consumed(StoreNamed(g, st, n, option[eq + 1..]), 1)
      else if |args| < 2 then Threw(NotEnoughArguments)
      else Consumed(StoreNamed(g, st, n, args[1]), 2)
    else if eq < |option| then Threw(UnexpectedValue)
    else Consumed(StoreNamed(g, st, n, g.named[n].constVal), 1)
  }

  /** `option` starts with the letter of the option; what follows it in the same argument is its
      value if it takes one, else further options. */
  function ParseShort(g: Graph, st: State, n: nat, option: string, args: seq<string>): Step
    requires g.WellFormed() && n < |g.named| && option != [] && args != []
  {
    if InConflict(g, st, Named(n)) then Threw(Conflict)
    else if g.named[n].hasArg then
      if |option| > 1 then Consumed(StoreNamed(g, st, n, option[1..]), 1)
      else if |args| < 2 then Threw(NotEnoughArguments)
      else Consumed(StoreNamed(g, st, n, args[1]), 2)
    else Consumed(StoreNamed(g, st, n, g.named[n].constVal), if |option| == 1 then 1 else 0)
  }

  function PositionalCount(nargs: int, argc: nat): nat {
    if nargs > 0 then nargs else if nargs == OPTIONAL then 1 else argc
  }

  /** A list of values with its first places taken by the first arguments. */
  function Filled(args: seq<string>, list: seq<string>, count: nat): seq<string>
    requires count <= |args|
  {
    args[..count] + (if count < |list| then list[count..] else [])
  }

  function ParsePositional(g: Graph, st: State, p: nat, args: seq<string>): (r: Step)
    requires g.WellFormed() && p < |g.positional| && args != []
    ensures r.Consumed? ==> r.args <= |args|
  {
    var arg := g.positional[p];
    var count := PositionalCount(arg.nargs, |args|);
    if InConflict(g, st, Positional(p)) then Threw(Conflict)
    else if |args| < arg.nargs then Threw(NotEnoughArguments)
    else
      var filled := Filled(args, st.List(arg.values), count);
      var stored := if arg.storeValue then st.(lists := st.lists[arg.values := filled]) else st;
      Consumed(stored.Counted(Positional(p)), count)
  }

  // ------------------------------------------------------------------ matching

  /** The first command with this name, or the number of commands. */
  function FindCommand(g: Graph, cmds: seq<nat>, name: string): (i: nat)
    requires forall k :: 0 <= k < |cmds| ==> cmds[k] < |g.cmds|
    ensures i <= |cmds| && (i < |cmds| ==> g.cmds[cmds[i]].name == name)
    ensures forall j :: 0 <= j < i ==> g.cmds[cmds[j]].name != name
  {
    if cmds == [] || g.cmds[cmds[0]].name == name then 0 else 1 + FindCommand(g, cmds[1..], name)
  }

  predicate IsDash(arg: string) {
    arg != [] && arg[0] == '-'
  }

  predicate IsLong(arg: string) {
    |arg| >= 2 && arg[0] == '-' && arg[1] == '-'
  }

  /** The name that a long option is compared with: what precedes the first '='. */
  function LongName(arg: string): string
    requires IsLong(arg)
  {
    arg[2..][..IndexOf(arg[2..], '=')]
  }

  /** How an argument is read at this index into its letters. */
  datatype Reading = LongOption(n: nat) | ShortOption(n: nat) | NoOption | Overrun

  /** The first of these options that the argument names. Looking for a short option reads a letter
      as soon as some option has a short name. */
  function ReadFrom(g: Graph, named: seq<nat>, arg: string, index: nat): (r: Reading)
    requires forall k :: 0 <= k < |named| ==> named[k] < |g.named|
    ensures r.LongOption? || r.ShortOption? ==> r.n < |g.named|
    ensures r.LongOption? ==> IsLong(arg)
    ensures r.ShortOption? ==> !IsLong(arg) && index + 1 < |arg|
  {
    if named == [] then NoOption
    else
      var option := g.named[named[0]];
      if IsLong(arg) then
        if option.longName != [] && option.longName == LongName(arg) then LongOption(named[0])
        else ReadFrom(g, named[1..], arg, index)
      else if option.shortName == '\0' then ReadFrom(g, named[1..], arg, index)
      else if index + 1 > |arg| then Overrun
      else if index + 1 < |arg| && option.shortName == arg[index + 1] then ShortOption(named[0])
      else ReadFrom(g, named[1..], arg, index)
  }

  function Read(g: Graph, c: nat, arg: string, index: nat): (r: Reading)
    requires g.WellFormed() && c < |g.cmds|
    ensures r.LongOption? || r.ShortOption? ==> r.n < |g.named|
    ensures r.LongOption? ==> IsLong(arg)
    ensures r.ShortOption? ==> !IsLong(arg) && index + 1 < |arg|
  {
    if IsDash(arg) then ReadFrom(g, g.cmds[c].named, arg, index) else NoOption
  }

  // ------------------------------------------------------------------ commands

  function LettersLeft(args: seq<string>, index: nat): nat {
    if args != [] && index <= |args[0]| then |args[0]| - index else 0
  }

  /** What is left after the first k arguments. */
  function Rest(args: seq<string>, k: nat): seq<string> {
    if k < |args| then args[k..] else []
  }

  /** One turn of the loop of a command: it stops, leaves the rest to a sub-command, or goes on
      after some arguments. */
  datatype Turn = Stop(status: Status) | Descend(c: nat) | Go(state: State, args: nat, used: nat, index: nat)

  /** `used` is the number of positional arguments already filled, `index` the place in a group of
      short options. It outlives its argument when a letter is not an option. */
  function Next(g: Graph, st: State, c: nat, args: seq<string>, used: nat, index: nat): (r: Turn)
    requires g.WellFormed() && c < |g.cmds| && args != []
    ensures r.Descend? ==> r.c < |g.cmds|
    ensures r.Go? ==> r.args > 0 || (r.index == index + 1 && index + 1 < |args[0]|)
  {
    match Read(g, c, args[0], index)
    case Overrun => Stop(PastEnd)
    case LongOption(n) => LongTurn(ParseLong(g, st, n, args[0][2..], args), used, index)
    case ShortOption(n) => ShortTurn(ParseShort(g, st, n, args[0][index + 1..], args), used, index)
    case NoOption => OtherTurn(g, st, c, args, used, index)
  }

  function LongTurn(step: Step, used: nat, index: nat): Turn {
    match step
    case Threw(error) => Stop(Thrown(error))
    case Consumed(next, k) => Go(next, k, used, index)
  }

  function ShortTurn(step: Step, used: nat, index: nat): Turn {
    match step
    case Threw(error) => Stop(Thrown(error))
    case Consumed(next, k) => Go(next, k, used, if k > 0 then 0 else index + 1)
  }

  /** An argument that names no option: a sub-command, or else a positional argument, or else nothing. */
  function OtherTurn(g: Graph, st: State, c: nat, args: seq<string>, used: nat, index: nat): (r: Turn)
    requires g.WellFormed() && c < |g.cmds| && args != []
    ensures r.Descend? ==> r.c < |g.cmds|
    ensures r.Go? ==> r.args > 0
  {
    var cmds := g.cmds[c].cmds;
    var sub := FindCommand(g, cmds, args[0]);
    if sub < |cmds| then
      if InConflict(g, st, Command(c)) then Stop(Thrown(Conflict)) else Descend(cmds[sub])
    else if used < |g.cmds[c].positional| then
      match ParsePositional(g, st, g.cmds[c].positional[used], args)
      case Threw(error) => Stop(Thrown(error))
      case Consumed(next, k) => Go(next, k + 1, used + 1, index) // one more argument is skipped
    else Go(st, 1, used, index)
  }

  /** The loop of a command; `args` are the arguments still to be read. */
  function ParseArgs(g: Graph, st: State, c: nat, args: seq<string>, used: nat, index: nat): Result
    requires g.WellFormed() && c < |g.cmds|
    decreases |args|, 0, LettersLeft(args, index)
  {
    if args == [] then Result(st, Parsed)
    else
      match Next(g, st, c, args, used, index)
      case Stop(status) => Result(st, status)
      case Descend(sub) => ParseCommand(g, st, sub, args[1..])
      case Go(next, k, used', index') => ParseArgs(g, next, c, Rest(args, k), used', index')
  }

  /** A command reads the arguments after its name. */
  function ParseCommand(g: Graph, st: State, c: nat, args: seq<string>): Result
    requires g.WellFormed() && c < |g.cmds|
    decreases |args|, 1, 0
  {
    var r := ParseArgs(g, st, c, args, 0, 0);
    if r.status.Parsed? then r.(state := r.state.Counted(Command(c))) else r
  }
}
