/** How options are spelled does not matter: "-abc" reads like "-a -b -c", "-xVALUE" like
  "-x VALUE" and "--name=VALUE" like "--name VALUE", with the same values, counts and errors.
 */
module ArgumentSpelling {
  import opened G = ArgumentGrammar
  import opened ArgumentConflicts

  predicate TakesValue(g: Graph, n: nat) {
    n < |g.named| && g.named[n].hasArg
  }

  /** How a command reads a single letter after one dash. */
  function Letter(g: Graph, c: nat, ch: char): (r: Reading)
    requires g.WellFormed() && c < |g.cmds|
    ensures r.ShortOption? ==> ch != '-' && r.n < |g.named|
  {
    Read(g, c, ['-', ch], 0)
  }

  /** Every letter that is read as an option is declared: all of them up to the first one that
      takes a value. */
  predicate Declared(g: Graph, c: nat, letters: string)
    requires g.WellFormed() && c < |g.cmds|
  {
    letters == [] ||
    (var r := Letter(g, c, letters[0]);
     r.ShortOption? && (TakesValue(g, r.n) || Declared(g, c, letters[1..])))
  }

  /** A group of short options with each option on its own. */
  function Spell(g: Graph, c: nat, letters: string): (r: seq<string>)
    requires g.WellFormed() && c < |g.cmds| && Declared(g, c, letters)
    ensures letters != [] ==> r != [] && r[0] == ['-', letters[0]]
  {
    if letters == [] then []
    else if TakesValue(g, Letter(g, c, letters[0]).n) then
      if |letters| == 1 then [['-', letters[0]]] else [['-', letters[0]], letters[1..]]
    else [['-', letters[0]]] + Spell(g, c, letters[1..])
  }

  /** The last option of the group takes the next argument as its value. */
  predicate TakesNext(g: Graph, c: nat, letters: string)
    requires g.WellFormed() && c < |g.cmds| && Declared(g, c, letters)
  {
    letters != [] &&
    if TakesValue(g, Letter(g, c, letters[0]).n) then |letters| == 1 else TakesNext(g, c, letters[1..])
  }

  /** Reading on gives the same whatever has been read before. */
  ghost predicate Agree(g: Graph, c: nat, used: nat, a: seq<string>, b: seq<string>)
    requires g.WellFormed() && c < |g.cmds|
  {
    forall st :: ParseArgs(g, st, c, a, used, 0) == ParseArgs(g, st, c, b, used, 0)
  }

  /** The same value, if any, and then agreement. */
  ghost predicate AgreeAfterValue(g: Graph, c: nat, used: nat, a: seq<string>, b: seq<string>)
    requires g.WellFormed() && c < |g.cmds|
  {
    if a == [] then b == [] else b != [] && a[0] == b[0] && Agree(g, c, used, a[1..], b[1..])
  }

  ghost predicate AgreeAfter(g: Graph, c: nat, used: nat, letters: string, a: seq<string>, b: seq<string>)
    requires g.WellFormed() && c < |g.cmds| && Declared(g, c, letters)
  {
    if TakesNext(g, c, letters) then AgreeAfterValue(g, c, used, a, b) else Agree(g, c, used, a, b)
  }

  // ------------------------------------------------------------ one argument

  /** A letter reads the same at every place in a group. */
  lemma {:induction false} LetterAnywhere(g: Graph, named: seq<nat>, arg: string, index: nat, arg': string, index': nat)
    requires forall k :: 0 <= k < |named| ==> named[k] < |g.named|
    requires !IsLong(arg) && index + 1 < |arg| && !IsLong(arg') && index' + 1 < |arg'|
    requires arg[index + 1] == arg'[index' + 1]
    ensures ReadFrom(g, named, arg, index) == ReadFrom(g, named, arg', index')
  {
    if named != [] {
      LetterAnywhere(g, named[1..], arg, index, arg', index');
    }
  }

  lemma LetterInGroup(g: Graph, c: nat, arg: string, index: nat)
    requires g.WellFormed() && c < |g.cmds|
    requires IsDash(arg) && !IsLong(arg) && index + 1 < |arg| && arg[index + 1] != '-'
    ensures Read(g, c, arg, index) == Letter(g, c, arg[index + 1])
  {
    LetterAnywhere(g, g.cmds[c].named, arg, index, ['-', arg[index + 1]], 0);
  }

  /** The turn that reads the letter at this place of a group. */
  lemma LetterTurn(g: Graph, st: State, c: nat, arg: string, index: nat, post: seq<string>, used: nat)
    requires g.WellFormed() && c < |g.cmds|
    requires IsDash(arg) && !IsLong(arg) && index + 1 < |arg|
    requires Letter(g, c, arg[index + 1]).ShortOption?
    ensures Next(g, st, c, [arg] + post, used, index) ==
            match ParseShort(g, st, Letter(g, c, arg[index + 1]).n, arg[index + 1..], [arg] + post)
            case Threw(error) => Stop(Thrown(error))
            case Consumed(next, k) => Go(next, k, used, if k > 0 then 0 else index + 1)
  {
    hide Letter, ParseShort;
    LetterInGroup(g, c, arg, index);
  }

  lemma RestOf(x: string, post: seq<string>)
    ensures Rest([x] + post, 1) == post
    ensures post != [] ==> Rest([x] + post, 2) == post[1..]
    ensures post == [] ==> Rest([x] + post, 2) == []
    ensures forall y :: Rest([x, y] + post, 2) == post
  {
  }

  /** A letter on its own is the first of a group of one. */
  lemma SingleTurn(g: Graph, st: State, c: nat, ch: char, post: seq<string>, used: nat)
    requires g.WellFormed() && c < |g.cmds| && Letter(g, c, ch).ShortOption?
    ensures Next(g, st, c, [['-', ch]] + post, used, 0) ==
            match ParseShort(g, st, Letter(g, c, ch).n, [ch], [['-', ch]] + post)
            case Threw(error) => Stop(Thrown(error))
            case Consumed(next, k) => Go(next, k, used, if k > 0 then 0 else 1)
  {
    hide Letter, ParseShort;
    LetterTurn(g, st, c, ['-', ch], 0, post, used);
    assert ['-', ch][1..] == [ch];
  }

  predicate AtLetter(g: Graph, c: nat, arg: string, index: nat)
    requires g.WellFormed() && c < |g.cmds|
  {
    IsDash(arg) && !IsLong(arg) && index + 1 < |arg| && Letter(g, c, arg[index + 1]).ShortOption?
  }

  /** The option takes a value, and it follows in the same argument. */
  lemma ValueFollows(g: Graph, st: State, c: nat, arg: string, index: nat, post: seq<string>, post': seq<string>,
                     used: nat)
    requires g.WellFormed() && c < |g.cmds| && AtLetter(g, c, arg, index)
    requires TakesValue(g, Letter(g, c, arg[index + 1]).n) && index + 2 < |arg|
    requires Agree(g, c, used, post, post')
    ensures ParseArgs(g, st, c, [arg] + post, used, index) ==
            ParseArgs(g, st, c, [['-', arg[index + 1]], arg[index + 2..]] + post', used, 0)
  {
    hide Letter, InConflict, StoreNamed, Next;
    var ch := arg[index + 1];
    var tail := [arg[index + 2..]] + post';
    LetterTurn(g, st, c, arg, index, post, used);
    SingleTurn(g, st, c, ch, tail, used);
    assert [['-', ch]] + tail == [['-', ch], arg[index + 2..]] + post';
    assert arg[index + 1..][1..] == arg[index + 2..];
    RestOf(arg, post);
    RestOf(['-', ch], post');
  }

  /** The option takes the next argument as its value, or there is none. */
  lemma ValueIsNext(g: Graph, st: State, c: nat, arg: string, index: nat, post: seq<string>, post': seq<string>,
                    used: nat)
    requires g.WellFormed() && c < |g.cmds| && AtLetter(g, c, arg, index)
    requires TakesValue(g, Letter(g, c, arg[index + 1]).n) && index + 2 == |arg|
    requires AgreeAfterValue(g, c, used, post, post')
    ensures ParseArgs(g, st, c, [arg] + post, used, index) ==
            ParseArgs(g, st, c, [['-', arg[index + 1]]] + post', used, 0)
  {
    hide Letter, InConflict, StoreNamed, Next;
    var ch := arg[index + 1];
    LetterTurn(g, st, c, arg, index, post, used);
    SingleTurn(g, st, c, ch, post', used);
    RestOf(arg, post);
    RestOf(['-', ch], post');
  }

  /** The last option of the group is a flag. */
  lemma LastFlag(g: Graph, st: State, c: nat, arg: string, index: nat, post: seq<string>, post': seq<string>, used: nat)
    requires g.WellFormed() && c < |g.cmds| && AtLetter(g, c, arg, index)
    requires !TakesValue(g, Letter(g, c, arg[index + 1]).n) && index + 2 == |arg|
    requires Agree(g, c, used, post, post')
    ensures ParseArgs(g, st, c, [arg] + post, used, index) ==
            ParseArgs(g, st, c, [['-', arg[index + 1]]] + post', used, 0)
  {
    hide Letter, InConflict, StoreNamed, Next;
    var ch := arg[index + 1];
    LetterTurn(g, st, c, arg, index, post, used);
    SingleTurn(g, st, c, ch, post', used);
    RestOf(arg, post);
    RestOf(['-', ch], post');
  }

  /** A flag with more options after it: both spellings go on with the rest of the group. */
  lemma FlagInGroup(g: Graph, st: State, c: nat, arg: string, index: nat, post: seq<string>, more: seq<string>,
                    used: nat)
    requires g.WellFormed() && c < |g.cmds| && AtLetter(g, c, arg, index)
    requires !TakesValue(g, Letter(g, c, arg[index + 1]).n) && index + 2 < |arg|
    requires forall st' :: ParseArgs(g, st', c, [arg] + post, used, index + 1) == ParseArgs(g, st', c, more, used, 0)
    ensures ParseArgs(g, st, c, [arg] + post, used, index) ==
            ParseArgs(g, st, c, [['-', arg[index + 1]]] + more, used, 0)
  {
    hide Letter, InConflict, StoreNamed, Next;
    var ch := arg[index + 1];
    LetterTurn(g, st, c, arg, index, post, used);
    SingleTurn(g, st, c, ch, more, used);
    assert Rest([arg] + post, 0) == [arg] + post;
    RestOf(['-', ch], more);
  }

  /** From any place in a group on, the rest of it reads like its options on their own. */
  lemma {:induction false} GroupReads(g: Graph, st: State, c: nat, arg: string, index: nat, post: seq<string>,
                                      post': seq<string>, used: nat)
    requires g.WellFormed() && c < |g.cmds|
    requires IsDash(arg) && !IsLong(arg) && index + 1 < |arg| && Declared(g, c, arg[index + 1..])
    requires AgreeAfter(g, c, used, arg[index + 1..], post, post')
    ensures ParseArgs(g, st, c, [arg] + post, used, index) ==
            ParseArgs(g, st, c, Spell(g, c, arg[index + 1..]) + post', used, 0)
    decreases |arg| - index
  {
    hide Letter, ParseArgs;
    var letters := arg[index + 1..];
    assert letters[1..] == arg[index + 2..] && letters[0] == arg[index + 1];
    if TakesValue(g, Letter(g, c, letters[0]).n) {
      if |letters| == 1 {
        ValueIsNext(g, st, c, arg, index, post, post', used);
      } else {
        ValueFollows(g, st, c, arg, index, post, post', used);
      }
    } else if |letters| == 1 {
      assert !TakesNext(g, c, letters[1..]) && Spell(g, c, letters[1..]) == [];
      LastFlag(g, st, c, arg, index, post, post', used);
      assert Spell(g, c, letters) == [['-', letters[0]]];
    } else {
      var more := Spell(g, c, letters[1..]) + post';
      forall st' ensures ParseArgs(g, st', c, [arg] + post, used, index + 1) == ParseArgs(g, st', c, more, used, 0) {
        GroupReads(g, st', c, arg, index + 1, post, post', used);
      }
      FlagInGroup(g, st, c, arg, index, post, more, used);
      assert [['-', letters[0]]] + more == Spell(g, c, letters) + post';
    }
  }

  /** A group of declared short options reads like its options on their own, wherever it stands:
      same values, counts and errors, and the same reading of what follows. */
  lemma GroupSpelling(g: Graph, st: State, c: nat, letters: string, post: seq<string>, used: nat)
    requires g.WellFormed() && c < |g.cmds| && letters != [] && Declared(g, c, letters)
    ensures ParseArgs(g, st, c, [['-'] + letters] + post, used, 0) ==
            ParseArgs(g, st, c, Spell(g, c, letters) + post, used, 0)
  {
    var arg := ['-'] + letters;
    assert arg[1..] == letters;
    GroupReads(g, st, c, arg, 0, post, post, used);
  }

  /** "-xVALUE" reads like "-x VALUE". */
  lemma ShortValueSpelling(g: Graph, st: State, c: nat, ch: char, value: string, post: seq<string>, used: nat)
    requires g.WellFormed() && c < |g.cmds| && value != []
    requires Letter(g, c, ch).ShortOption? && TakesValue(g, Letter(g, c, ch).n)
    ensures ParseArgs(g, st, c, [['-', ch] + value] + post, used, 0) ==
            ParseArgs(g, st, c, [['-', ch], value] + post, used, 0)
  {
    var arg := ['-', ch] + value;
    assert arg[2..] == value;
    ValueFollows(g, st, c, arg, 0, post, post, used);
  }

  // -------------------------------------------------------------- long options

  lemma {:induction false} LongNameDecides(g: Graph, named: seq<nat>, a: string, b: string, i: nat, j: nat)
    requires forall k :: 0 <= k < |named| ==> named[k] < |g.named|
    requires IsLong(a) && IsLong(b) && LongName(a) == LongName(b)
    ensures ReadFrom(g, named, a, i) == ReadFrom(g, named, b, j)
  {
    if named != [] {
      LongNameDecides(g, named[1..], a, b, i, j);
    }
  }

  lemma {:induction false} IndexIn(s: string, ch: char, i: nat)
    requires i <= |s| && (i < |s| ==> s[i] == ch) && ch !in s[..i]
    ensures IndexOf(s, ch) == i
  {
    if s != [] && i > 0 {
      assert s[1..][..i - 1] == s[..i][1..];
      assert s[0] == s[..i][0];
      IndexIn(s[1..], ch, i - 1);
    }
  }

  /** "--name" and "--name=VALUE" as arguments. */
  function Long(name: string): string {
    ['-', '-'] + name
  }

  function LongWith(name: string, value: string): string {
    Long(name) + ['='] + value
  }

  lemma LongReads(g: Graph, c: nat, name: string, value: string, i: nat, j: nat)
    requires g.WellFormed() && c < |g.cmds| && '=' !in name
    ensures Read(g, c, LongWith(name, value), i) == Read(g, c, Long(name), j)
    ensures IndexOf(Long(name)[2..], '=') == |Long(name)[2..]| == |name|
    ensures IndexOf(LongWith(name, value)[2..], '=') == |name| < |LongWith(name, value)[2..]|
    ensures LongWith(name, value)[2..][|name| + 1..] == value
  {
    var a, b := LongWith(name, value), Long(name);
    assert b[2..] == name && name[..|name|] == name;
    assert a[2..] == name + (['='] + value) && a[2..][..|name|] == name;
    IndexIn(name, '=', |name|);
    IndexIn(a[2..], '=', |name|);
    LongNameDecides(g, g.cmds[c].named, a, b, i, j);
  }

  lemma LongAgree(g: Graph, st: State, c: nat, name: string, value: string, post: seq<string>, post': seq<string>,
                  used: nat, index: nat)
    requires g.WellFormed() && c < |g.cmds| && '=' !in name
    requires Read(g, c, Long(name), index).LongOption? && TakesValue(g, Read(g, c, Long(name), index).n)
    requires forall st' :: ParseArgs(g, st', c, post, used, index) == ParseArgs(g, st', c, post', used, index)
    ensures ParseArgs(g, st, c, [LongWith(name, value)] + post, used, index) ==
            ParseArgs(g, st, c, [Long(name), value] + post', used, index)
  {
    hide Read, InConflict, StoreNamed, LongWith, Long, IndexOf;
    LongReads(g, c, name, value, index, index);
    var a, b := [LongWith(name, value)] + post, [Long(name), value] + post';
    RestOf(LongWith(name, value), post);
    RestOf(Long(name), post');
    assert b[0] == Long(name) && b[1] == value && Rest(b, 2) == post';
  }

  /** "--name=VALUE" reads like "--name VALUE" when the option takes a value. */
  lemma LongSpelling(g: Graph, st: State, c: nat, name: string, value: string, post: seq<string>, used: nat, index: nat)
    requires g.WellFormed() && c < |g.cmds| && '=' !in name
    requires Read(g, c, Long(name), index).LongOption? && TakesValue(g, Read(g, c, Long(name), index).n)
    ensures ParseArgs(g, st, c, [LongWith(name, value)] + post, used, index) ==
            ParseArgs(g, st, c, [Long(name), value] + post, used, index)
  {
    LongAgree(g, st, c, name, value, post, post, used, index);
  }

  // --------------------------------------------------------- whole command lines

  /** A command line with every option on its own, as far as its groups are declared. Values and
      positional arguments stay as they are. */
  function ExpandAll(g: Graph, c: nat, args: seq<string>, used: nat): (r: seq<string>)
    requires g.WellFormed() && c < |g.cmds|
    ensures r == [] <==> args == []
    decreases |args|
  {
    if args == [] then []
    else
      var arg, rest := args[0], args[1..];
      match Read(g, c, arg, 0)
      case Overrun => args
      case LongOption(n) =>
        var eq := IndexOf(arg[2..], '=');
        if !g.named[n].hasArg then [arg] + ExpandAll(g, c, rest, used)
        else if eq < |arg[2..]| then
          [Long(arg[2..][..eq]), arg[2..][eq + 1..]] + ExpandAll(g, c, rest, used)
        else [arg] + ExpandAfterValue(g, c, rest, used)
      case ShortOption(_) =>
        var letters := arg[1..];
        if !Declared(g, c, letters) then args
        else if TakesNext(g, c, letters) then Spell(g, c, letters) + ExpandAfterValue(g, c, rest, used)
        else Spell(g, c, letters) + ExpandAll(g, c, rest, used)
      case NoOption =>
        var sub := FindCommand(g, g.cmds[c].cmds, arg);
        if sub < |g.cmds[c].cmds| then [arg] + ExpandAll(g, g.cmds[c].cmds[sub], rest, 0)
        else if used < |g.cmds[c].positional| then
          var nargs := g.positional[g.cmds[c].positional[used]].nargs;
          var k := PositionalCount(nargs, |args|) + 1;
          if k <= |args| then args[..k] + ExpandAll(g, c, args[k..], used + 1) else args
        else [arg] + ExpandAll(g, c, rest, used)
  }

  function ExpandAfterValue(g: Graph, c: nat, args: seq<string>, used: nat): (r: seq<string>)
    requires g.WellFormed() && c < |g.cmds|
    ensures r == [] <==> args == []
    decreases |args|, 0
  {
    if args == [] then [] else [args[0]] + ExpandAll(g, c, args[1..], used)
  }

  // Agreement of a command line with its expansion, by the way its first argument is read.

  lemma FlagAgrees(g: Graph, st: State, c: nat, arg: string, post: seq<string>, post': seq<string>, used: nat)
    requires g.WellFormed() && c < |g.cmds| && Read(g, c, arg, 0).LongOption?
    requires !TakesValue(g, Read(g, c, arg, 0).n) && Agree(g, c, used, post, post')
    ensures ParseArgs(g, st, c, [arg] + post, used, 0) == ParseArgs(g, st, c, [arg] + post', used, 0)
  {
    hide Read, InConflict, StoreNamed, IndexOf;
    RestOf(arg, post);
    RestOf(arg, post');
  }

  lemma LongValueAgrees(g: Graph, st: State, c: nat, arg: string, post: seq<string>, post': seq<string>, used: nat)
    requires g.WellFormed() && c < |g.cmds| && Read(g, c, arg, 0).LongOption?
    requires TakesValue(g, Read(g, c, arg, 0).n) && IndexOf(arg[2..], '=') == |arg[2..]|
    requires AgreeAfterValue(g, c, used, post, post')
    ensures ParseArgs(g, st, c, [arg] + post, used, 0) == ParseArgs(g, st, c, [arg] + post', used, 0)
  {
    hide Read, InConflict, StoreNamed, IndexOf;
    RestOf(arg, post);
    RestOf(arg, post');
  }

  lemma SkippedAgrees(g: Graph, st: State, c: nat, arg: string, post: seq<string>, post': seq<string>, used: nat)
    requires g.WellFormed() && c < |g.cmds| && Read(g, c, arg, 0).NoOption?
    requires FindCommand(g, g.cmds[c].cmds, arg) == |g.cmds[c].cmds| && used >= |g.cmds[c].positional|
    requires Agree(g, c, used, post, post')
    ensures ParseArgs(g, st, c, [arg] + post, used, 0) == ParseArgs(g, st, c, [arg] + post', used, 0)
  {
    hide Read, FindCommand, InConflict;
    RestOf(arg, post);
    RestOf(arg, post');
  }

  lemma CommandAgrees(g: Graph, st: State, c: nat, arg: string, post: seq<string>, post': seq<string>, used: nat)
    requires g.WellFormed() && c < |g.cmds| && Read(g, c, arg, 0).NoOption?
    requires FindCommand(g, g.cmds[c].cmds, arg) < |g.cmds[c].cmds|
    requires Agree(g, g.cmds[c].cmds[FindCommand(g, g.cmds[c].cmds, arg)], 0, post, post')
    ensures ParseArgs(g, st, c, [arg] + post, used, 0) == ParseArgs(g, st, c, [arg] + post', used, 0)
  {
    hide Read, FindCommand, InConflict;
    assert ([arg] + post)[1..] == post && ([arg] + post')[1..] == post';
    var sub := g.cmds[c].cmds[FindCommand(g, g.cmds[c].cmds, arg)];
    assert ParseArgs(g, st, sub, post, 0, 0) == ParseArgs(g, st, sub, post', 0, 0);
    assert ParseCommand(g, st, sub, post) == ParseCommand(g, st, sub, post');
  }

  /** A positional argument looks at no more arguments than it takes. */
  lemma SamePositional(g: Graph, st: State, p: nat, a: seq<string>, b: seq<string>, k: nat)
    requires g.WellFormed() && p < |g.positional| && a != [] && b != []
    requires k == PositionalCount(g.positional[p].nargs, |a|) && k < |a| && k < |b| && a[..k] == b[..k]
    ensures ParsePositional(g, st, p, a) == ParsePositional(g, st, p, b)
    ensures ParsePositional(g, st, p, a).Consumed? ==> ParsePositional(g, st, p, a).args == k
  {
    hide InConflict;
  }

  lemma PositionalAgrees(g: Graph, st: State, c: nat, args: seq<string>, k: nat, post': seq<string>, used: nat)
    requires g.WellFormed() && c < |g.cmds| && 0 < k <= |args|
    requires Read(g, c, args[0], 0).NoOption?
    requires FindCommand(g, g.cmds[c].cmds, args[0]) == |g.cmds[c].cmds| && used < |g.cmds[c].positional|
    requires k == PositionalCount(g.positional[g.cmds[c].positional[used]].nargs, |args|) + 1
    requires Agree(g, c, used + 1, args[k..], post')
    ensures ParseArgs(g, st, c, args, used, 0) == ParseArgs(g, st, c, args[..k] + post', used, 0)
  {
    hide Read, FindCommand, InConflict, ParsePositional;
    var args' := args[..k] + post';
    assert args'[0] == args[0] && args[..k - 1] == args'[..k - 1];
    SamePositional(g, st, g.cmds[c].positional[used], args, args', k - 1);
    assert Rest(args, k) == args[k..] && Rest(args', k) == post';
  }

  lemma AgreeLong(g: Graph, c: nat, args: seq<string>, used: nat)
    requires g.WellFormed() && c < |g.cmds| && args != [] && Read(g, c, args[0], 0).LongOption?
    requires Agree(g, c, used, args[1..], ExpandAll(g, c, args[1..], used))
    requires AgreeAfterValue(g, c, used, args[1..], ExpandAfterValue(g, c, args[1..], used))
    ensures Agree(g, c, used, args, ExpandAll(g, c, args, used))
  {
    hide Read, ParseArgs, IndexOf, Long, LongWith;
    var arg, rest := args[0], args[1..];
    var option, eq := arg[2..], IndexOf(arg[2..], '=');
    var n := Read(g, c, arg, 0).n;
    assert args == [arg] + rest;
    forall st
      ensures ParseArgs(g, st, c, args, used, 0) == ParseArgs(g, st, c, ExpandAll(g, c, args, used), used, 0)
    {
      if !TakesValue(g, n) {
        FlagAgrees(g, st, c, arg, rest, ExpandAll(g, c, rest, used), used);
      } else if eq < |option| {
        EqualsAgrees(g, st, c, arg, rest, ExpandAll(g, c, rest, used), used);
      } else {
        LongValueAgrees(g, st, c, arg, rest, ExpandAfterValue(g, c, rest, used), used);
      }
    }
  }

  lemma EqualsAgrees(g: Graph, st: State, c: nat, arg: string, post: seq<string>, post': seq<string>, used: nat)
    requires g.WellFormed() && c < |g.cmds| && Read(g, c, arg, 0).LongOption?
    requires TakesValue(g, Read(g, c, arg, 0).n) && IndexOf(arg[2..], '=') < |arg[2..]|
    requires Agree(g, c, used, post, post')
    ensures var option, eq := arg[2..], IndexOf(arg[2..], '=');
            ParseArgs(g, st, c, [arg] + post, used, 0) ==
            ParseArgs(g, st, c, [Long(option[..eq]), option[eq + 1..]] + post', used, 0)
  {
    hide Read, ParseArgs;
    var option, eq := arg[2..], IndexOf(arg[2..], '=');
    var name, value := option[..eq], option[eq + 1..];
    assert arg == LongWith(name, value);
    LongReads(g, c, name, value, 0, 0);
    LongAgree(g, st, c, name, value, post, post', used, 0);
  }

  lemma AgreeShort(g: Graph, c: nat, args: seq<string>, used: nat)
    requires g.WellFormed() && c < |g.cmds| && args != [] && Read(g, c, args[0], 0).ShortOption?
    requires Agree(g, c, used, args[1..], ExpandAll(g, c, args[1..], used))
    requires AgreeAfterValue(g, c, used, args[1..], ExpandAfterValue(g, c, args[1..], used))
    ensures Agree(g, c, used, args, ExpandAll(g, c, args, used))
  {
    var arg, rest := args[0], args[1..];
    var letters := arg[1..];
    assert IsDash(arg) by {
      hide ReadFrom;
    }
    hide Read, ParseArgs, Letter, Spell;
    assert args == [arg] + rest;
    forall st ensures ParseArgs(g, st, c, args, used, 0) == ParseArgs(g, st, c, ExpandAll(g, c, args, used), used, 0) {
      if Declared(g, c, letters) {
        if TakesNext(g, c, letters) {
          GroupReads(g, st, c, arg, 0, rest, ExpandAfterValue(g, c, rest, used), used);
        } else {
          GroupReads(g, st, c, arg, 0, rest, ExpandAll(g, c, rest, used), used);
        }
      }
    }
  }

  lemma AgreeOther(g: Graph, c: nat, args: seq<string>, used: nat)
    requires g.WellFormed() && c < |g.cmds| && args != [] && Read(g, c, args[0], 0).NoOption?
    requires forall sub: nat, u: nat, k: nat :: sub < |g.cmds| && 0 < k <= |args| ==>
               Agree(g, sub, u, args[k..], ExpandAll(g, sub, args[k..], u))
    ensures Agree(g, c, used, args, ExpandAll(g, c, args, used))
  {
    hide Read, ParseArgs, FindCommand;
    var arg, rest := args[0], args[1..];
    assert args == [arg] + rest;
    var sub := FindCommand(g, g.cmds[c].cmds, arg);
    forall st ensures ParseArgs(g, st, c, args, used, 0) == ParseArgs(g, st, c, ExpandAll(g, c, args, used), used, 0) {
      if sub < |g.cmds[c].cmds| {
        CommandAgrees(g, st, c, arg, rest, ExpandAll(g, g.cmds[c].cmds[sub], rest, 0), used);
      } else if used < |g.cmds[c].positional| {
        var k := PositionalCount(g.positional[g.cmds[c].positional[used]].nargs, |args|) + 1;
        if k <= |args| {
          PositionalAgrees(g, st, c, args, k, ExpandAll(g, c, args[k..], used + 1), used);
        }
      } else {
        SkippedAgrees(g, st, c, arg, rest, ExpandAll(g, c, rest, used), used);
      }
    }
  }

  lemma {:induction false} ExpandAllAgrees(g: Graph, c: nat, args: seq<string>, used: nat)
    requires g.WellFormed() && c < |g.cmds|
    ensures Agree(g, c, used, args, ExpandAll(g, c, args, used))
    decreases |args|
  {
    if args != [] {
      forall sub: nat, u: nat, k: nat | sub < |g.cmds| && 0 < k <= |args|
        ensures Agree(g, sub, u, args[k..], ExpandAll(g, sub, args[k..], u))
      {
        ExpandAllAgrees(g, sub, args[k..], u);
      }
      if |args| > 1 {
        assert args[1..][1..] == args[2..];
      }
      match Read(g, c, args[0], 0)
      case LongOption(_) => AgreeLong(g, c, args, used);
      case ShortOption(_) => AgreeShort(g, c, args, used);
      case NoOption => AgreeOther(g, c, args, used);
      case Overrun =>
    }
  }

  /** A command reads its arguments as it reads them with every declared option on its own: the
      same values, counts and outcome, down into sub-commands. */
  lemma SpellingDoesNotMatter(g: Graph, st: State, c: nat, args: seq<string>)
    requires g.WellFormed() && c < |g.cmds|
    ensures ParseCommand(g, st, c, ExpandAll(g, c, args, 0)) == ParseCommand(g, st, c, args)
  {
    ExpandAllAgrees(g, c, args, 0);
  }

  /** "--name=VALUE" reads like "--name VALUE" exactly when the option takes a value, or is in
      conflict: a flag refuses a value after '=' and leaves one in the next argument alone. */
  lemma LongSpellingExactly(g: Graph, st: State, c: nat, name: string, value: string, post: seq<string>, used: nat,
                            index: nat)
    requires g.WellFormed() && c < |g.cmds| && '=' !in name && Read(g, c, Long(name), index).LongOption?
    ensures ParseArgs(g, st, c, [LongWith(name, value)] + post, used, index) ==
            ParseArgs(g, st, c, [Long(name), value] + post, used, index) <==>
            var n := Read(g, c, Long(name), index).n; TakesValue(g, n) || InConflict(g, st, Named(n))
  {
    hide Read, InConflict, LongWith, Long, IndexOf;
    var n := Read(g, c, Long(name), index).n;
    LongReads(g, c, name, value, index, index);
    var tail := [value] + post;
    assert [Long(name), value] + post == [Long(name)] + tail;
    if TakesValue(g, n) {
      LongSpelling(g, st, c, name, value, post, used, index);
    } else if !InConflict(g, st, Named(n)) {
      FlagReads(g, st, c, n, name, tail, used, index);
      CountsGrow(g, StoreNamed(g, st, n, g.named[n].constVal), c, tail, used, index, Named(n));
    }
  }

  lemma FlagReads(g: Graph, st: State, c: nat, n: nat, name: string, post: seq<string>, used: nat, index: nat)
    requires g.WellFormed() && c < |g.cmds| && '=' !in name && Read(g, c, Long(name), index) == LongOption(n)
    requires !TakesValue(g, n) && !InConflict(g, st, Named(n))
    ensures ParseArgs(g, st, c, [Long(name)] + post, used, index) ==
            ParseArgs(g, StoreNamed(g, st, n, g.named[n].constVal), c, post, used, index)
  {
    hide Read, InConflict, StoreNamed, Long, IndexOf;
    LongReads(g, c, name, "", index, index);
    RestOf(Long(name), post);
  }

  /** The two names of an option read alike. */
  lemma LongOrShort(g: Graph, st: State, c: nat, n: nat, name: string, ch: char, post: seq<string>, used: nat)
    requires g.WellFormed() && c < |g.cmds| && '=' !in name
    requires Read(g, c, Long(name), 0) == LongOption(n) && Letter(g, c, ch) == ShortOption(n)
    ensures ParseArgs(g, st, c, [Long(name)] + post, used, 0) == ParseArgs(g, st, c, [['-', ch]] + post, used, 0)
  {
    hide Read, Letter, InConflict, StoreNamed, IndexOf, Long;
    LongReads(g, c, name, "", 0, 0);
    SingleTurn(g, st, c, ch, post, used);
    RestOf(Long(name), post);
    RestOf(['-', ch], post);
  }

  /** The argument after the values of a positional argument is not read: it makes no difference. */
  lemma SkippedArgument(g: Graph, st: State, c: nat, values: seq<string>, x: string, y: string, post: seq<string>,
                        used: nat)
    requires g.WellFormed() && c < |g.cmds| && values != []
    requires Read(g, c, values[0], 0).NoOption?
    requires FindCommand(g, g.cmds[c].cmds, values[0]) == |g.cmds[c].cmds| && used < |g.cmds[c].positional|
    requires var nargs := g.positional[g.cmds[c].positional[used]].nargs;
             nargs >= OPTIONAL && |values| == PositionalCount(nargs, 0)
    ensures ParseArgs(g, st, c, values + [x] + post, used, 0) == ParseArgs(g, st, c, values + [y] + post, used, 0)
  {
    hide Read, FindCommand, InConflict, ParsePositional;
    var k := |values|;
    var a, b := values + [x] + post, values + [y] + post;
    assert a[0] == b[0] == values[0] && a[..k] == b[..k] == values;
    SamePositional(g, st, g.cmds[c].positional[used], a, b, k);
    assert Rest(a, k + 1) == Rest(b, k + 1);
  }
}
