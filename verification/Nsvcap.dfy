/** Module specifications, nsvcap.cpp: name:stream:version:context:arch/profile in 16 forms, each a
  regular expression. The table of forms is given as in the source; what an expression matches is
  a relation between a string and the six captured groups.
 */
module Nsvcaps {
  import opened Options

  // ------------------------------------------------------------ regular expressions

  datatype Class = NameClass | VersionClass | ContextClass

  /** A character, an optional character, a group of one or more characters or an empty group, and
      what comes next. */
  datatype Regex =
    | End
    | Char(ch: char, next: Regex)
    | Maybe(ch: char, next: Regex)
    | Group(class_: Class, next: Regex)
    | NoGroup(next: Regex)

  predicate IsLetter(ch: char) { 'a' <= ch <= 'z' || 'A' <= ch <= 'Z' }

  predicate IsDigit(ch: char) { '0' <= ch <= '9' }

  predicate IsGlob(ch: char) { ch in "][*?!" }

  predicate InClass(ch: char, class_: Class) {
    IsGlob(ch) || IsDigit(ch) || ch == '-' ||
    match class_
    case NameClass => IsLetter(ch) || ch in "+._"
    case VersionClass => false
    case ContextClass => 'a' <= ch <= 'f'
  }

  predicate AllIn(s: string, class_: Class) {
    forall i :: 0 <= i < |s| ==> InClass(s[i], class_)
  }

  /** The whole string matches, with these groups. */
  predicate Matches(re: Regex, s: string, groups: seq<string>) {
    if re.End? then s == [] && groups == []
    else
      match re
      case Char(ch, _) => s != [] && s[0] == ch && Matches(re.next, s[1..], groups)
      case Maybe(ch, _) =>
        (s != [] && s[0] == ch && Matches(re.next, s[1..], groups)) || Matches(re.next, s, groups)
      case Group(class_, _) =>
        groups != [] && groups[0] != [] && AllIn(groups[0], class_) && groups[0] <= s &&
        Matches(re.next, s[|groups[0]|..], groups[1..])
      case NoGroup(_) => groups != [] && groups[0] == [] && Matches(re.next, s, groups[1..])
  }

  // ------------------------------------------------------------------- the forms

  function Name(next: Regex): Regex { Group(NameClass, next) }

  function Stream(next: Regex): Regex { Name(next) }

  function Version(next: Regex): Regex { Group(VersionClass, next) }

  function Context(next: Regex): Regex { Group(ContextClass, next) }

  function Arch(next: Regex): Regex { Name(next) }

  function Profile(next: Regex): Regex { Name(next) }

  function C(next: Regex): Regex { Char(':', next) }

  function CC(next: Regex): Regex { Char(':', Char(':', next)) }

  function No(next: Regex): Regex { NoGroup(next) }

  function WithProfile(): Regex { Char('/', Profile(End)) }

  function NoProfile(): Regex { Maybe('/', No(End)) }

  /** The forms by their number. */
  function FormRegex(form: int): Regex
    requires 1 <= form <= 16
  {
    match form
    case 1 => Name(C(Stream(C(Version(C(Context(C(Maybe(':', Arch(WithProfile()))))))))))
    case 2 => Name(C(Stream(C(Version(C(Context(C(Maybe(':', Arch(NoProfile()))))))))))
    case 3 => Name(C(Stream(C(Version(No(CC(Arch(WithProfile()))))))))
    case 4 => Name(C(Stream(C(Version(No(CC(Arch(NoProfile()))))))))
    case 5 => Name(C(Stream(No(No(CC(Arch(WithProfile())))))))
    case 6 => Name(C(Stream(No(No(CC(Arch(NoProfile())))))))
    case 7 => Name(C(Stream(C(Version(C(Context(No(WithProfile()))))))))
    case 8 => Name(C(Stream(C(Version(No(No(WithProfile())))))))
    case 9 => Name(C(Stream(C(Version(C(Context(No(NoProfile()))))))))
    case 10 => Name(C(Stream(C(Version(No(No(NoProfile())))))))
    case 11 => Name(C(Stream(No(No(No(WithProfile()))))))
    case 12 => Name(C(Stream(No(No(No(NoProfile()))))))
    case 13 => Name(No(No(No(CC(Arch(WithProfile()))))))
    case 14 => Name(No(No(No(CC(Arch(NoProfile()))))))
    case 15 => Name(No(No(No(No(WithProfile())))))
    case _ => Name(No(No(No(No(NoProfile())))))
  }

  // ------------------------------------------------------- one way to match a form

  predicate IsSeparator(ch: char) { ch == ':' || ch == '/' }

  /** What this expression matches is empty or starts with a separator. */
  predicate StartsApart(re: Regex) {
    match re
    case End => true
    case Char(ch, _) => IsSeparator(ch)
    case Maybe(ch, _) => IsSeparator(ch) && StartsApart(re.next)
    case Group(_, _) => false
    case NoGroup(_) => StartsApart(re.next)
  }

  /** What this expression matches is empty or starts with no separator. */
  predicate StartsWord(re: Regex) {
    re.End? || re.Group? || (re.NoGroup? && StartsWord(re.next))
  }

  /** Reading from left to right never has a choice. */
  predicate Separable(re: Regex) {
    !re.End? ==>
      && Separable(re.next)
      && (match re
          case Char(ch, _) => IsSeparator(ch)
          case Maybe(ch, _) => IsSeparator(ch) && StartsWord(re.next)
          case Group(_, _) => StartsApart(re.next)
          case NoGroup(_) => true)
  }

  lemma {:induction false} ApartMatches(re: Regex, s: string, groups: seq<string>)
    requires StartsApart(re) && Matches(re, s, groups)
    ensures s == [] || IsSeparator(s[0])
  {
    if !re.End? {
      match re
      case Char(_, _) =>
      case Maybe(ch, _) => if Matches(re.next, s, groups) { ApartMatches(re.next, s, groups); }
      case NoGroup(_) => ApartMatches(re.next, s, groups[1..]);
    }
  }

  lemma {:induction false} WordMatches(re: Regex, s: string, groups: seq<string>)
    requires StartsWord(re) && Matches(re, s, groups)
    ensures s == [] || !IsSeparator(s[0])
  {
    if !re.End? {
      match re
      case Group(class_, _) => assert InClass(groups[0][0], class_);
      case NoGroup(_) => WordMatches(re.next, s, groups[1..]);
    }
  }

  /** The length of the longest prefix without separator. */
  function WordLength(s: string): (n: nat)
    ensures n <= |s| && (n < |s| ==> IsSeparator(s[n]))
    ensures forall i :: 0 <= i < n ==> !IsSeparator(s[i])
  {
    if s == [] || IsSeparator(s[0]) then 0 else 1 + WordLength(s[1..])
  }

  /** A group of a match is the longest word there. */
  lemma GroupIsWord(re: Regex, s: string, groups: seq<string>)
    requires !re.End? && re.Group? && Separable(re) && Matches(re, s, groups)
    ensures groups != [] && groups[0] == s[..WordLength(s)] && WordLength(s) > 0
  {
    var n := |groups[0]|;
    ApartMatches(re.next, s[n..], groups[1..]);
    assert forall i :: 0 <= i < n ==> InClass(groups[0][i], re.class_) && groups[0][i] == s[i];
    assert WordLength(s) == n;
  }

  /** Matching from left to right, as far as it goes. */
  function Match(re: Regex, s: string): (r: Option<seq<string>>) {
    if re.End? then if s == [] then Some([]) else None
    else
      match re
      case Char(ch, _) => if s != [] && s[0] == ch then Match(re.next, s[1..]) else None
      case Maybe(ch, _) => Match(re.next, if s != [] && s[0] == ch then s[1..] else s)
      case Group(class_, _) =>
        var n := WordLength(s);
        if n > 0 && AllIn(s[..n], class_) then Prepend(s[..n], Match(re.next, s[n..])) else None
      case NoGroup(_) => Prepend([], Match(re.next, s))
  }

  function Prepend(group: string, groups: Option<seq<string>>): Option<seq<string>> {
    if groups.Some? then Some([group] + groups.value) else None
  }

  /** Reading from left to right finds the groups of a match, and they are the only ones. */
  lemma {:induction false} MatchIsExact(re: Regex, s: string, groups: seq<string>)
    requires Separable(re)
    ensures Match(re, s) == Some(groups) <==> Matches(re, s, groups)
    decreases re, 1
  {
    if !re.End? {
      match re
      case Char(ch, _) => if s != [] && s[0] == ch { MatchIsExact(re.next, s[1..], groups); }
      case Maybe(ch, _) => MatchMaybe(re, s, groups);
      case Group(_, _) => MatchGroup(re, s, groups);
      case NoGroup(_) =>
        if groups != [] && groups[0] == [] {
          MatchIsExact(re.next, s, groups[1..]);
          assert groups == [[]] + groups[1..];
        }
    }
  }

  lemma {:induction false} MatchMaybe(re: Regex, s: string, groups: seq<string>)
    requires Separable(re) && !re.End? && re.Maybe?
    ensures Match(re, s) == Some(groups) <==> Matches(re, s, groups)
    decreases re, 0
  {
    if s != [] && s[0] == re.ch {
      MatchIsExact(re.next, s[1..], groups);
      if Matches(re.next, s, groups) {
        WordMatches(re.next, s, groups);
      }
    } else {
      MatchIsExact(re.next, s, groups);
    }
  }

  lemma {:induction false} MatchGroup(re: Regex, s: string, groups: seq<string>)
    requires Separable(re) && !re.End? && re.Group?
    ensures Match(re, s) == Some(groups) <==> Matches(re, s, groups)
    decreases re, 0
  {
    hide WordLength;
    var n := WordLength(s);
    if Matches(re, s, groups) {
      GroupIsWord(re, s, groups);
      MatchIsExact(re.next, s[n..], groups[1..]);
      assert groups == [s[..n]] + groups[1..];
    } else if Match(re, s) == Some(groups) {
      MatchIsExact(re.next, s[n..], groups[1..]);
    }
  }

  // ------------------------------------------------------------------ round trip

  /** These groups with the separators of the expression between them, with or without the optional
      second ':' and the optional '/'. */
  function Text(re: Regex, groups: seq<string>, colon: bool, slash: bool): string
    requires Fit(re, groups)
  {
    match re
    case End => ""
    case Char(ch, next) => [ch] + Text(next, groups, colon, slash)
    case Maybe(ch, next) => Optional(ch, colon, slash) + Text(next, groups, colon, slash)
    case Group(_, next) => groups[0] + Text(next, groups[1..], colon, slash)
    case NoGroup(next) => Text(next, groups[1..], colon, slash)
  }

  /** The optional separator, when it is there. */
  function Optional(ch: char, colon: bool, slash: bool): string {
    if (if ch == ':' then colon else slash) then [ch] else ""
  }

  /** As many groups as the expression has, each of its class, and empty ones where it has none. */
  predicate Fit(re: Regex, groups: seq<string>) {
    if re.End? then groups == []
    else
      match re
      case Char(_, _) => Fit(re.next, groups)
      case Maybe(_, _) => Fit(re.next, groups)
      case Group(class_, _) => groups != [] && groups[0] != [] && AllIn(groups[0], class_) && Fit(re.next, groups[1..])
      case NoGroup(_) => groups != [] && groups[0] == [] && Fit(re.next, groups[1..])
  }

  /** A string with every word replaced by 'w'. */
  function Skeleton(s: string): string
    decreases |s|
  {
    if s == [] then []
    else if IsSeparator(s[0]) then [s[0]] + Skeleton(s[1..])
    else ['w'] + Skeleton(s[WordLength(s)..])
  }

  /** The skeleton of what the expression matches, with or without the optional separators. */
  function Shape(re: Regex, colon: bool, slash: bool): string {
    match re
    case End => ""
    case Char(ch, next) => [ch] + Shape(next, colon, slash)
    case Maybe(ch, next) => Optional(ch, colon, slash) + Shape(next, colon, slash)
    case Group(_, next) => ['w'] + Shape(next, colon, slash)
    case NoGroup(next) => Shape(next, colon, slash)
  }

  /** The shapes of the forms, written out. */
  function FormShape(form: int, colon: bool, slash: bool): string
    requires 1 <= form <= 16
  {
    match form
    case 1 => if colon then "w:w:w:w::w/w" else "w:w:w:w:w/w"
    case 2 =>
      if colon then if slash then "w:w:w:w::w/" else "w:w:w:w::w"
      else if slash then "w:w:w:w:w/" else "w:w:w:w:w"
    case 3 => "w:w:w::w/w"
    case 4 => if slash then "w:w:w::w/" else "w:w:w::w"
    case 5 => "w:w::w/w"
    case 6 => if slash then "w:w::w/" else "w:w::w"
    case 7 => "w:w:w:w/w"
    case 8 => "w:w:w/w"
    case 9 => if slash then "w:w:w:w/" else "w:w:w:w"
    case 10 => if slash then "w:w:w/" else "w:w:w"
    case 11 => "w:w/w"
    case 12 => if slash then "w:w/" else "w:w"
    case 13 => "w::w/w"
    case 14 => if slash then "w::w/" else "w::w"
    case 15 => "w/w"
    case _ => if slash then "w/" else "w"
  }

  lemma Steps(colon: bool, slash: bool)
    ensures forall next {:trigger Name(next)} :: Shape(Name(next), colon, slash) == "w" + Shape(next, colon, slash)
    ensures forall next {:trigger Version(next)} ::
              Shape(Version(next), colon, slash) == "w" + Shape(next, colon, slash)
    ensures forall next {:trigger Context(next)} ::
              Shape(Context(next), colon, slash) == "w" + Shape(next, colon, slash)
    ensures forall next {:trigger C(next)} :: Shape(C(next), colon, slash) == ":" + Shape(next, colon, slash)
    ensures forall next {:trigger CC(next)} :: Shape(CC(next), colon, slash) == "::" + Shape(next, colon, slash)
    ensures forall next {:trigger No(next)} :: Shape(No(next), colon, slash) == Shape(next, colon, slash)
    ensures forall next {:trigger Maybe(':', next)} ::
              Shape(Maybe(':', next), colon, slash) == (if colon then ":" else "") + Shape(next, colon, slash)
    ensures Shape(WithProfile(), colon, slash) == "/w"
    ensures Shape(NoProfile(), colon, slash) == if slash then "/" else ""
  {
  }

  lemma ShapesOf1(colon: bool, slash: bool)
    ensures Shape(FormRegex(1), colon, slash) == FormShape(1, colon, slash)
  {
    hide Shape, Name, Version, Context, C, CC, No, WithProfile, NoProfile;
    Steps(colon, slash);
  }

  lemma ShapesOf2(colon: bool, slash: bool)
    ensures Shape(FormRegex(2), colon, slash) == FormShape(2, colon, slash)
  {
    hide Shape, Name, Version, Context, C, CC, No, WithProfile, NoProfile;
    Steps(colon, slash);
  }

  lemma ShapesOf3(colon: bool, slash: bool)
    ensures Shape(FormRegex(3), colon, slash) == FormShape(3, colon, slash)
  {
    hide Shape, Name, Version, Context, C, CC, No, WithProfile, NoProfile;
    Steps(colon, slash);
  }

  lemma ShapesOf4(colon: bool, slash: bool)
    ensures Shape(FormRegex(4), colon, slash) == FormShape(4, colon, slash)
  {
    hide Shape, Name, Version, Context, C, CC, No, WithProfile, NoProfile;
    Steps(colon, slash);
  }

  lemma Shapes5To6(form: int, colon: bool, slash: bool)
    requires 5 <= form <= 6
    ensures Shape(FormRegex(form), colon, slash) == FormShape(form, colon, slash)
  {
    hide Shape, Name, Version, Context, C, CC, No, WithProfile, NoProfile;
    Steps(colon, slash);
  }

  lemma Shapes7To8(form: int, colon: bool, slash: bool)
    requires 7 <= form <= 8
    ensures Shape(FormRegex(form), colon, slash) == FormShape(form, colon, slash)
  {
    hide Shape, Name, Version, Context, C, CC, No, WithProfile, NoProfile;
    Steps(colon, slash);
  }

  lemma Shapes9To12(form: int, colon: bool, slash: bool)
    requires 9 <= form <= 12
    ensures Shape(FormRegex(form), colon, slash) == FormShape(form, colon, slash)
  {
    hide Shape, Name, Version, Context, C, CC, No, WithProfile, NoProfile;
    Steps(colon, slash);
  }

  lemma Shapes13To16(form: int, colon: bool, slash: bool)
    requires 13 <= form <= 16
    ensures Shape(FormRegex(form), colon, slash) == FormShape(form, colon, slash)
  {
    hide Shape, Name, Version, Context, C, CC, No, WithProfile, NoProfile;
    Steps(colon, slash);
  }

  lemma ShapeOfForm(form: int, colon: bool, slash: bool)
    requires 1 <= form <= 16
    ensures Shape(FormRegex(form), colon, slash) == FormShape(form, colon, slash)
  {
    hide *;
    if form == 1 {
      ShapesOf1(colon, slash);
    } else if form == 2 {
      ShapesOf2(colon, slash);
    } else if form == 3 {
      ShapesOf3(colon, slash);
    } else if form == 4 {
      ShapesOf4(colon, slash);
    } else if form <= 6 {
      Shapes5To6(form, colon, slash);
    } else if form <= 8 {
      Shapes7To8(form, colon, slash);
    } else if form <= 12 {
      Shapes9To12(form, colon, slash);
    } else {
      Shapes13To16(form, colon, slash);
    }
  }

  lemma FormShapesDiffer(f: int, colon: bool, slash: bool, f': int, colon': bool, slash': bool)
    requires 1 <= f <= 16 && 1 <= f' <= 16
    requires FormShape(f, colon, slash) == FormShape(f', colon', slash')
    ensures f == f'
  {
  }

  // --------------------------------------------------------------- what is matched

  /** The expression has an optional ':', or else an optional '/'. */
  predicate HasOptional(re: Regex, colon: bool) {
    match re
    case End => false
    case Maybe(ch, next) => (ch == ':') == colon || HasOptional(next, colon)
    case _ => HasOptional(re.next, colon)
  }

  /** There is at most one optional separator of each kind. */
  predicate OptionalOnce(re: Regex) {
    match re
    case End => true
    case Maybe(ch, next) => !HasOptional(next, ch == ':') && OptionalOnce(next)
    case _ => OptionalOnce(re.next)
  }

  lemma {:induction false} OptionalAbsent(re: Regex, groups: seq<string>, colon: bool, slash: bool, colon': bool,
                                          slash': bool)
    requires Fit(re, groups)
    requires colon == colon' || !HasOptional(re, true)
    requires slash == slash' || !HasOptional(re, false)
    ensures Text(re, groups, colon, slash) == Text(re, groups, colon', slash')
    ensures Shape(re, colon, slash) == Shape(re, colon', slash')
  {
    match re
    case End =>
    case Char(_, next) => OptionalAbsent(next, groups, colon, slash, colon', slash');
    case Maybe(_, next) => OptionalAbsent(next, groups, colon, slash, colon', slash');
    case Group(_, next) => OptionalAbsent(next, groups[1..], colon, slash, colon', slash');
    case NoGroup(next) => OptionalAbsent(next, groups[1..], colon, slash, colon', slash');
  }

  /** A match is the text of its groups, and its skeleton is the shape of the expression. */
  lemma {:induction false} MatchIsText(re: Regex, s: string, groups: seq<string>) returns (colon: bool, slash: bool)
    requires Separable(re) && OptionalOnce(re) && Matches(re, s, groups)
    ensures Fit(re, groups) && s == Text(re, groups, colon, slash)
    ensures Skeleton(s) == Shape(re, colon, slash)
    decreases re, 1
  {
    match re
    case End => colon, slash := false, false;
    case Char(_, next) => colon, slash := MatchIsText(next, s[1..], groups);
    case Maybe(ch, next) => colon, slash := OptionalIsText(re, s, groups);
    case Group(_, next) =>
      GroupIsWord(re, s, groups);
      var n := WordLength(s);
      assert s == s[..n] + s[n..];
      colon, slash := MatchIsText(next, s[n..], groups[1..]);
    case NoGroup(next) => colon, slash := MatchIsText(next, s, groups[1..]);
  }

  lemma {:induction false} OptionalIsText(re: Regex, s: string, groups: seq<string>) returns (colon: bool, slash: bool)
    requires re.Maybe? && Separable(re) && OptionalOnce(re) && Matches(re, s, groups)
    ensures Fit(re, groups) && s == Text(re, groups, colon, slash)
    ensures Skeleton(s) == Shape(re, colon, slash)
    decreases re, 0
  {
    var there := !Matches(re.next, s, groups);
    var c, h := MatchIsText(re.next, if there then s[1..] else s, groups);
    colon := if re.ch == ':' then there else c;
    slash := if re.ch == ':' then h else there;
    OptionalAbsent(re.next, groups, c, h, colon, slash);
  }

  lemma {:induction false} TextMatches(re: Regex, groups: seq<string>, colon: bool, slash: bool)
    requires Fit(re, groups)
    ensures Matches(re, Text(re, groups, colon, slash), groups)
  {
    match re
    case End =>
    case Char(ch, next) =>
      TextMatches(next, groups, colon, slash);
      assert Text(re, groups, colon, slash)[1..] == Text(next, groups, colon, slash);
    case Maybe(ch, next) =>
      TextMatches(next, groups, colon, slash);
      if Optional(ch, colon, slash) == [ch] {
        assert Text(re, groups, colon, slash)[1..] == Text(next, groups, colon, slash);
      } else {
        assert Text(re, groups, colon, slash) == Text(next, groups, colon, slash);
      }
    case Group(_, next) =>
      TextMatches(next, groups[1..], colon, slash);
      assert Text(re, groups, colon, slash)[|groups[0]|..] == Text(next, groups[1..], colon, slash);
    case NoGroup(next) => TextMatches(next, groups[1..], colon, slash);
  }

  lemma Separable1To2(form: int)
    requires 1 <= form <= 2
    ensures Separable(FormRegex(form)) && OptionalOnce(FormRegex(form))
  {
  }

  lemma Separable3To4(form: int)
    requires 3 <= form <= 4
    ensures Separable(FormRegex(form)) && OptionalOnce(FormRegex(form))
  {
  }

  lemma Separable5To8(form: int)
    requires 5 <= form <= 8
    ensures Separable(FormRegex(form)) && OptionalOnce(FormRegex(form))
  {
  }

  lemma Separable9To12(form: int)
    requires 9 <= form <= 12
    ensures Separable(FormRegex(form)) && OptionalOnce(FormRegex(form))
  {
  }

  lemma Separable13To16(form: int)
    requires 13 <= form <= 16
    ensures Separable(FormRegex(form)) && OptionalOnce(FormRegex(form))
  {
  }

  lemma FormsAreSeparable(form: int)
    requires 1 <= form <= 16
    ensures Separable(FormRegex(form)) && OptionalOnce(FormRegex(form))
  {
    hide *;
    if form <= 2 {
      Separable1To2(form);
    } else if form <= 4 {
      Separable3To4(form);
    } else if form <= 8 {
      Separable5To8(form);
    } else if form <= 12 {
      Separable9To12(form);
    } else {
      Separable13To16(form);
    }
  }

  /** A string matches a form with some groups exactly when it is these groups, put together with
      the separators of the form, with or without the optional ones. */
  lemma RoundTrip(form: int, s: string, groups: seq<string>)
    requires 1 <= form <= 16
    ensures var re := FormRegex(form);
            Matches(re, s, groups) <==> Fit(re, groups) && exists colon, slash :: s == Text(re, groups, colon, slash)
  {
    hide FormRegex, Matches, Text, Fit, Separable, OptionalOnce;
    var re := FormRegex(form);
    FormsAreSeparable(form);
    if Matches(re, s, groups) {
      var colon, slash := MatchIsText(re, s, groups);
    }
    if Fit(re, groups) {
      forall colon, slash | s == Text(re, groups, colon, slash)
        ensures Matches(re, s, groups)
      {
        TextMatches(re, groups, colon, slash);
      }
    }
  }

  /** No string matches two forms, or one form in two ways. */
  lemma AtMostOneForm(s: string, form: int, groups: seq<string>, form': int, groups': seq<string>)
    requires 1 <= form <= 16 && 1 <= form' <= 16
    requires Matches(FormRegex(form), s, groups) && Matches(FormRegex(form'), s, groups')
    ensures form == form' && groups == groups'
  {
    hide FormRegex, Matches, Text, Fit, Separable, OptionalOnce, Shape, Skeleton, FormShape, Match;
    FormsAreSeparable(form);
    FormsAreSeparable(form');
    var colon, slash := MatchIsText(FormRegex(form), s, groups);
    var colon', slash' := MatchIsText(FormRegex(form'), s, groups');
    ShapeOfForm(form, colon, slash);
    ShapeOfForm(form', colon', slash');
    FormShapesDiffer(form, colon, slash, form', colon', slash');
    MatchIsExact(FormRegex(form), s, groups);
    MatchIsExact(FormRegex(form), s, groups');
  }

  // ----------------------------------------------------------------- what forms mean

  /** The forms by the letters in their names: name, stream, version, context, arch, profile. */
  const FORM_NAMES: seq<string> := ["NSVCAP", "NSVCA", "NSVAP", "NSVA", "NSAP", "NSA", "NSVCP", "NSVP",
                                    "NSVC", "NSV", "NSP", "NS", "NAP", "NA", "NP", "N"]

  /** The form has the field with this letter. */
  predicate Has(form: int, letter: char)
    requires 1 <= form <= 16
  {
    letter in FORM_NAMES[form - 1]
  }

  const LOWERCASE := "abcdefghijklmnopqrstuvwxyz"
  const UPPERCASE := "ABCDEFGHIJKLMNOPQRSTUVWXYZ"
  const DIGITS := "0123456789"
  const GLOB := "][*?!"
  const NAME_CHARS := GLOB + LOWERCASE + UPPERCASE + DIGITS + "+._-"
  const VERSION_CHARS := GLOB + DIGITS + "-"
  const CONTEXT_CHARS := GLOB + DIGITS + "abcdef" + "-"

  predicate Only(field: string, chars: string) {
    forall i :: 0 <= i < |field| ==> field[i] in chars
  }

  /** A field is there exactly when the form has it, and then it has only these characters. */
  predicate FieldFits(form: int, letter: char, field: string, chars: string)
    requires 1 <= form <= 16
  {
    (field != "" <==> Has(form, letter)) && Only(field, chars)
  }

  predicate FieldsFit(form: int, name: string, stream: string, version: string, context: string, arch: string,
                      profile: string)
    requires 1 <= form <= 16
  {
    && FieldFits(form, 'N', name, NAME_CHARS) && FieldFits(form, 'S', stream, NAME_CHARS)
    && FieldFits(form, 'V', version, VERSION_CHARS) && FieldFits(form, 'C', context, CONTEXT_CHARS)
    && FieldFits(form, 'A', arch, NAME_CHARS) && FieldFits(form, 'P', profile, NAME_CHARS)
  }

  function With(there: bool, separator: string, field: string, rest: string): string {
    if there then separator + (field + rest) else rest
  }

  /** name:stream:version:context::arch/profile, as far as the form has the fields. After a context one ':'
      before the arch is enough, and a '/' at the end is ignored. */
  function Spelled(form: int, name: string, stream: string, version: string, context: string, arch: string,
                   profile: string, colon: bool, slash: bool): string
    requires 1 <= form <= 16
  {
    name +
    With(Has(form, 'S'), ":", stream,
      With(Has(form, 'V'), ":", version,
        With(Has(form, 'C'), ":", context,
          With(Has(form, 'A'), if Has(form, 'C') && !colon then ":" else "::", arch,
            With(Has(form, 'P'), "/", profile, if !Has(form, 'P') && slash then "/" else "")))))
  }

  lemma Letters(ch: char)
    ensures 'a' <= ch <= 'z' <==> ch in LOWERCASE
    ensures 'A' <= ch <= 'Z' <==> ch in UPPERCASE
  {
  }

  lemma NameChars(ch: char)
    ensures InClass(ch, NameClass) <==> ch in NAME_CHARS
  {
    hide LOWERCASE, UPPERCASE;
    Letters(ch);
  }

  lemma VersionChars(ch: char)
    ensures InClass(ch, VersionClass) <==> ch in VERSION_CHARS
  {
  }

  lemma ContextChars(ch: char)
    ensures InClass(ch, ContextClass) <==> ch in CONTEXT_CHARS
  {
  }

  function Chars(class_: Class): string {
    match class_
    case NameClass => NAME_CHARS
    case VersionClass => VERSION_CHARS
    case ContextClass => CONTEXT_CHARS
  }

  /** The classes of characters, written out. */
  lemma ClassMeans(s: string, class_: Class)
    ensures AllIn(s, class_) <==> Only(s, Chars(class_))
  {
    hide InClass, NAME_CHARS, VERSION_CHARS, CONTEXT_CHARS;
    forall i | 0 <= i < |s| ensures InClass(s[i], class_) <==> s[i] in Chars(class_) {
      match class_
      case NameClass => NameChars(s[i]);
      case VersionClass => VersionChars(s[i]);
      case ContextClass => ContextChars(s[i]);
    }
  }

  /** Text and Fit by the position of the next group. */
  function TextAt(re: Regex, groups: seq<string>, i: nat, colon: bool, slash: bool): string {
    match re
    case End => ""
    case Char(ch, next) => [ch] + TextAt(next, groups, i, colon, slash)
    case Maybe(ch, next) => Optional(ch, colon, slash) + TextAt(next, groups, i, colon, slash)
    case Group(_, next) => (if i < |groups| then groups[i] else "") + TextAt(next, groups, i + 1, colon, slash)
    case NoGroup(next) => TextAt(next, groups, i + 1, colon, slash)
  }

  predicate FitAt(re: Regex, groups: seq<string>, i: nat) {
    match re
    case End => i == |groups|
    case Char(_, next) => FitAt(next, groups, i)
    case Maybe(_, next) => FitAt(next, groups, i)
    case Group(class_, next) =>
      i < |groups| && groups[i] != [] && AllIn(groups[i], class_) && FitAt(next, groups, i + 1)
    case NoGroup(next) => i < |groups| && groups[i] == [] && FitAt(next, groups, i + 1)
  }

  lemma {:induction false} AtPosition(re: Regex, groups: seq<string>, i: nat, colon: bool, slash: bool)
    requires i <= |groups|
    ensures Fit(re, groups[i..]) <==> FitAt(re, groups, i)
    ensures Fit(re, groups[i..]) ==> Text(re, groups[i..], colon, slash) == TextAt(re, groups, i, colon, slash)
  {
    match re
    case End =>
    case Char(_, next) => AtPosition(next, groups, i, colon, slash);
    case Maybe(_, next) => AtPosition(next, groups, i, colon, slash);
    case Group(_, next) =>
      if i < |groups| {
        AtPosition(next, groups, i + 1, colon, slash);
        assert groups[i..][1..] == groups[i + 1..];
      }
    case NoGroup(next) =>
      if i < |groups| {
        AtPosition(next, groups, i + 1, colon, slash);
        assert groups[i..][1..] == groups[i + 1..];
      }
  }

  /** Which forms have which fields. */
  lemma FormFields(form: int)
    requires 1 <= form <= 16
    ensures Has(form, 'N')
    ensures Has(form, 'S') <==> form <= 12
    ensures Has(form, 'V') <==> form <= 4 || 7 <= form <= 10
    ensures Has(form, 'C') <==> form <= 2 || form == 7 || form == 9
    ensures Has(form, 'A') <==> form <= 6 || form == 13 || form == 14
    ensures Has(form, 'P') <==> form in {1, 3, 5, 7, 8, 11, 13, 15}
  {
  }

  lemma TextSteps(g: seq<string>, colon: bool, slash: bool)
    requires |g| == 6
    ensures forall next, i: nat {:trigger TextAt(Name(next), g, i, colon, slash)} :: i < 6 ==>
              TextAt(Name(next), g, i, colon, slash) == g[i] + TextAt(next, g, i + 1, colon, slash)
    ensures forall next, i: nat {:trigger TextAt(Version(next), g, i, colon, slash)} :: i < 6 ==>
              TextAt(Version(next), g, i, colon, slash) == g[i] + TextAt(next, g, i + 1, colon, slash)
    ensures forall next, i: nat {:trigger TextAt(Context(next), g, i, colon, slash)} :: i < 6 ==>
              TextAt(Context(next), g, i, colon, slash) == g[i] + TextAt(next, g, i + 1, colon, slash)
    ensures forall next, i: nat {:trigger TextAt(C(next), g, i, colon, slash)} ::
              TextAt(C(next), g, i, colon, slash) == ":" + TextAt(next, g, i, colon, slash)
    ensures forall next, i: nat {:trigger TextAt(CC(next), g, i, colon, slash)} ::
              TextAt(CC(next), g, i, colon, slash) == "::" + TextAt(next, g, i, colon, slash)
    ensures forall next, i: nat {:trigger TextAt(C(Maybe(':', next)), g, i, colon, slash)} ::
              TextAt(C(Maybe(':', next)), g, i, colon, slash) ==
              (if colon then "::" else ":") + TextAt(next, g, i, colon, slash)
    ensures forall next, i: nat {:trigger TextAt(No(next), g, i, colon, slash)} ::
              TextAt(No(next), g, i, colon, slash) == TextAt(next, g, i + 1, colon, slash)
    ensures TextAt(WithProfile(), g, 5, colon, slash) == "/" + (g[5] + "")
    ensures TextAt(NoProfile(), g, 5, colon, slash) == if slash then "/" else ""
  {
    forall next, i: nat
      ensures TextAt(CC(next), g, i, colon, slash) == "::" + TextAt(next, g, i, colon, slash)
      ensures TextAt(C(Maybe(':', next)), g, i, colon, slash) ==
              (if colon then "::" else ":") + TextAt(next, g, i, colon, slash)
    {
      TwoColons(next, g, i, colon, slash);
    }
    assert TextAt(Profile(End), g, 5, colon, slash) == g[5] + TextAt(End, g, 6, colon, slash);
    assert TextAt(No(End), g, 5, colon, slash) == TextAt(End, g, 6, colon, slash);
  }

  lemma TwoColons(next: Regex, g: seq<string>, i: nat, colon: bool, slash: bool)
    ensures TextAt(CC(next), g, i, colon, slash) == "::" + TextAt(next, g, i, colon, slash)
    ensures TextAt(C(Maybe(':', next)), g, i, colon, slash) ==
            (if colon then "::" else ":") + TextAt(next, g, i, colon, slash)
  {
    var x := TextAt(next, g, i, colon, slash);
    assert [':'] + ([':'] + x) == "::" + x && [':'] + ("" + x) == ":" + x;
    assert TextAt(Char(':', next), g, i, colon, slash) == [':'] + x;
    assert TextAt(Maybe(':', next), g, i, colon, slash) == Optional(':', colon, slash) + x;
  }

  lemma Text1To1(form: int, g: seq<string>, colon: bool, slash: bool)
    requires 1 <= form <= 1 && |g| == 6
    ensures TextAt(FormRegex(form), g, 0, colon, slash) ==
            Spelled(form, g[0], g[1], g[2], g[3], g[4], g[5], colon, slash)
  {
    hide TextAt, Has, Name, Version, Context, C, CC, No, WithProfile, NoProfile;
    TextSteps(g, colon, slash);
    FormFields(form);
  }

  lemma Text2To2(form: int, g: seq<string>, colon: bool, slash: bool)
    requires 2 <= form <= 2 && |g| == 6
    ensures TextAt(FormRegex(form), g, 0, colon, slash) ==
            Spelled(form, g[0], g[1], g[2], g[3], g[4], g[5], colon, slash)
  {
    hide TextAt, Has, Name, Version, Context, C, CC, No, WithProfile, NoProfile;
    TextSteps(g, colon, slash);
    FormFields(form);
  }

  lemma Text3To4(form: int, g: seq<string>, colon: bool, slash: bool)
    requires 3 <= form <= 4 && |g| == 6
    ensures TextAt(FormRegex(form), g, 0, colon, slash) ==
            Spelled(form, g[0], g[1], g[2], g[3], g[4], g[5], colon, slash)
  {
    hide TextAt, Has, Name, Version, Context, C, CC, No, WithProfile, NoProfile;
    TextSteps(g, colon, slash);
    FormFields(form);
  }

  lemma Text5To8(form: int, g: seq<string>, colon: bool, slash: bool)
    requires 5 <= form <= 8 && |g| == 6
    ensures TextAt(FormRegex(form), g, 0, colon, slash) ==
            Spelled(form, g[0], g[1], g[2], g[3], g[4], g[5], colon, slash)
  {
    hide TextAt, Has, Name, Version, Context, C, CC, No, WithProfile, NoProfile;
    TextSteps(g, colon, slash);
    FormFields(form);
  }

  lemma Text9To12(form: int, g: seq<string>, colon: bool, slash: bool)
    requires 9 <= form <= 12 && |g| == 6
    ensures TextAt(FormRegex(form), g, 0, colon, slash) ==
            Spelled(form, g[0], g[1], g[2], g[3], g[4], g[5], colon, slash)
  {
    hide TextAt, Has, Name, Version, Context, C, CC, No, WithProfile, NoProfile;
    TextSteps(g, colon, slash);
    FormFields(form);
  }

  lemma Text13To16(form: int, g: seq<string>, colon: bool, slash: bool)
    requires 13 <= form <= 16 && |g| == 6
    ensures TextAt(FormRegex(form), g, 0, colon, slash) ==
            Spelled(form, g[0], g[1], g[2], g[3], g[4], g[5], colon, slash)
  {
    hide TextAt, Has, Name, Version, Context, C, CC, No, WithProfile, NoProfile;
    TextSteps(g, colon, slash);
    FormFields(form);
  }

  lemma FormText(form: int, g: seq<string>, colon: bool, slash: bool)
    requires 1 <= form <= 16 && |g| == 6
    ensures TextAt(FormRegex(form), g, 0, colon, slash) ==
            Spelled(form, g[0], g[1], g[2], g[3], g[4], g[5], colon, slash)
  {
    hide *;
    if form <= 1 {
      Text1To1(form, g, colon, slash);
    } else if form <= 2 {
      Text2To2(form, g, colon, slash);
    } else if form <= 4 {
      Text3To4(form, g, colon, slash);
    } else if form <= 8 {
      Text5To8(form, g, colon, slash);
    } else if form <= 12 {
      Text9To12(form, g, colon, slash);
    } else {
      Text13To16(form, g, colon, slash);
    }
  }

  /** FieldsFit with the classes of the expressions. */
  predicate GroupsFit(form: int, g: seq<string>)
    requires 1 <= form <= 16
  {
    |g| == 6 &&
    GroupFits(form, 'N', g[0], NameClass) && GroupFits(form, 'S', g[1], NameClass) &&
    GroupFits(form, 'V', g[2], VersionClass) && GroupFits(form, 'C', g[3], ContextClass) &&
    GroupFits(form, 'A', g[4], NameClass) && GroupFits(form, 'P', g[5], NameClass)
  }

  predicate GroupFits(form: int, letter: char, group: string, class_: Class)
    requires 1 <= form <= 16
  {
    if Has(form, letter) then group != [] && AllIn(group, class_) else group == []
  }

  lemma FitSteps(g: seq<string>)
    ensures forall next, i: nat {:trigger FitAt(Name(next), g, i)} ::
              FitAt(Name(next), g, i) <==>
              i < |g| && g[i] != [] && AllIn(g[i], NameClass) && FitAt(next, g, i + 1)
    ensures forall next, i: nat {:trigger FitAt(Version(next), g, i)} ::
              FitAt(Version(next), g, i) <==>
              i < |g| && g[i] != [] && AllIn(g[i], VersionClass) && FitAt(next, g, i + 1)
    ensures forall next, i: nat {:trigger FitAt(Context(next), g, i)} ::
              FitAt(Context(next), g, i) <==>
              i < |g| && g[i] != [] && AllIn(g[i], ContextClass) && FitAt(next, g, i + 1)
    ensures forall next, i: nat {:trigger FitAt(C(next), g, i)} :: FitAt(C(next), g, i) <==> FitAt(next, g, i)
    ensures forall next, i: nat {:trigger FitAt(CC(next), g, i)} :: FitAt(CC(next), g, i) <==> FitAt(next, g, i)
    ensures forall next, i: nat {:trigger FitAt(Maybe(':', next), g, i)} ::
              FitAt(Maybe(':', next), g, i) <==> FitAt(next, g, i)
    ensures forall next, i: nat {:trigger FitAt(No(next), g, i)} ::
              FitAt(No(next), g, i) <==> i < |g| && g[i] == [] && FitAt(next, g, i + 1)
    ensures FitAt(WithProfile(), g, 5) <==> |g| == 6 && g[5] != [] && AllIn(g[5], NameClass)
    ensures FitAt(NoProfile(), g, 5) <==> |g| == 6 && g[5] == []
  {
    assert FitAt(End, g, 6) <==> |g| == 6;
    assert FitAt(Profile(End), g, 5) <==> 5 < |g| && g[5] != [] && AllIn(g[5], NameClass) && FitAt(End, g, 6);
    assert FitAt(No(End), g, 5) <==> 5 < |g| && g[5] == [] && FitAt(End, g, 6);
  }

  lemma Fit1To4(form: int, g: seq<string>)
    requires 1 <= form <= 4
    ensures FitAt(FormRegex(form), g, 0) <==> GroupsFit(form, g)
  {
    hide FitAt, Has, AllIn, Name, Version, Context, C, CC, No, WithProfile, NoProfile;
    FitSteps(g);
    FormFields(form);
  }

  lemma Fit5To8(form: int, g: seq<string>)
    requires 5 <= form <= 8
    ensures FitAt(FormRegex(form), g, 0) <==> GroupsFit(form, g)
  {
    hide FitAt, Has, AllIn, Name, Version, Context, C, CC, No, WithProfile, NoProfile;
    FitSteps(g);
    FormFields(form);
  }

  lemma Fit9To12(form: int, g: seq<string>)
    requires 9 <= form <= 12
    ensures FitAt(FormRegex(form), g, 0) <==> GroupsFit(form, g)
  {
    hide FitAt, Has, AllIn, Name, Version, Context, C, CC, No, WithProfile, NoProfile;
    FitSteps(g);
    FormFields(form);
  }

  lemma Fit13To16(form: int, g: seq<string>)
    requires 13 <= form <= 16
    ensures FitAt(FormRegex(form), g, 0) <==> GroupsFit(form, g)
  {
    hide FitAt, Has, AllIn, Name, Version, Context, C, CC, No, WithProfile, NoProfile;
    FitSteps(g);
    FormFields(form);
  }

  lemma FormFit(form: int, g: seq<string>)
    requires 1 <= form <= 16
    ensures FitAt(FormRegex(form), g, 0) <==> GroupsFit(form, g)
  {
    hide *;
    if form <= 4 {
      Fit1To4(form, g);
    } else if form <= 8 {
      Fit5To8(form, g);
    } else if form <= 12 {
      Fit9To12(form, g);
    } else {
      Fit13To16(form, g);
    }
  }

  lemma FieldFitsGroup(form: int, letter: char, field: string, class_: Class)
    requires 1 <= form <= 16
    ensures FieldFits(form, letter, field, Chars(class_)) <==> GroupFits(form, letter, field, class_)
  {
    hide Has, Only, AllIn, Chars;
    ClassMeans(field, class_);
    NothingOnly(Chars(class_));
  }

  lemma NothingOnly(chars: string)
    ensures Only("", chars)
  {
  }

  /** A string matches a form exactly when it spells fields that the form has, each of its own characters: the
      groups are the name, the stream, the version, the context, the architecture and the profile. */
  lemma FormMeans(form: int, s: string, g: seq<string>)
    requires 1 <= form <= 16
    ensures Matches(FormRegex(form), s, g) <==>
      && |g| == 6 && FieldsFit(form, g[0], g[1], g[2], g[3], g[4], g[5])
      && exists colon, slash :: s == Spelled(form, g[0], g[1], g[2], g[3], g[4], g[5], colon, slash)
  {
    hide FormRegex, Matches, Fit, Text, GroupsFit, FieldsFit, Spelled;
    var re := FormRegex(form);
    RoundTrip(form, s, g);
    FitMeans(form, g);
    if Fit(re, g) {
      SameTexts(form, s, g);
    }
  }

  lemma SameTexts(form: int, s: string, g: seq<string>)
    requires 1 <= form <= 16 && |g| == 6 && Fit(FormRegex(form), g)
    ensures (exists colon, slash :: s == Text(FormRegex(form), g, colon, slash)) <==>
      exists colon, slash :: s == Spelled(form, g[0], g[1], g[2], g[3], g[4], g[5], colon, slash)
  {
    hide *;
    var re := FormRegex(form);
    if colon, slash :| s == Text(re, g, colon, slash) {
      TextMeans(form, g, colon, slash);
    }
    if colon, slash :| s == Spelled(form, g[0], g[1], g[2], g[3], g[4], g[5], colon, slash) {
      TextMeans(form, g, colon, slash);
      assert s == Text(re, g, colon, slash);
    }
  }

  lemma FitMeans(form: int, g: seq<string>)
    requires 1 <= form <= 16
    ensures Fit(FormRegex(form), g) <==> |g| == 6 && FieldsFit(form, g[0], g[1], g[2], g[3], g[4], g[5])
  {
    hide FormRegex, Fit, FitAt, FieldFits, GroupFits, NAME_CHARS, VERSION_CHARS, CONTEXT_CHARS;
    assert g[0..] == g;
    AtPosition(FormRegex(form), g, 0, false, false);
    FormFit(form, g);
    if |g| == 6 {
      FieldFitsGroup(form, 'N', g[0], NameClass);
      FieldFitsGroup(form, 'S', g[1], NameClass);
      FieldFitsGroup(form, 'V', g[2], VersionClass);
      FieldFitsGroup(form, 'C', g[3], ContextClass);
      FieldFitsGroup(form, 'A', g[4], NameClass);
      FieldFitsGroup(form, 'P', g[5], NameClass);
    }
  }

  lemma TextMeans(form: int, g: seq<string>, colon: bool, slash: bool)
    requires 1 <= form <= 16 && |g| == 6 && Fit(FormRegex(form), g)
    ensures Text(FormRegex(form), g, colon, slash) ==
            Spelled(form, g[0], g[1], g[2], g[3], g[4], g[5], colon, slash)
  {
    hide *;
    assert g[0..] == g;
    AtPosition(FormRegex(form), g, 0, colon, slash);
    FormText(form, g, colon, slash);
  }

  // ---------------------------------------------------------------------- parsing

  function GroupCount(re: Regex): nat {
    match re
    case End => 0
    case Char(_, next) => GroupCount(next)
    case Maybe(_, next) => GroupCount(next)
    case Group(_, next) => 1 + GroupCount(next)
    case NoGroup(next) => 1 + GroupCount(next)
  }

  lemma {:induction false} FitCounts(re: Regex, s: string, groups: seq<string>)
    requires Matches(re, s, groups)
    ensures |groups| == GroupCount(re)
  {
    match re
    case End =>
    case Char(_, next) => FitCounts(next, s[1..], groups);
    case Maybe(_, next) =>
      if Matches(next, s, groups) {
        FitCounts(next, s, groups);
      } else {
        FitCounts(next, s[1..], groups);
      }
    case Group(_, next) => FitCounts(next, s[|groups[0]|..], groups[1..]);
    case NoGroup(next) => FitCounts(next, s, groups[1..]);
  }

  lemma CountSteps()
    ensures forall next {:trigger Name(next)} :: GroupCount(Name(next)) == 1 + GroupCount(next)
    ensures forall next {:trigger Version(next)} :: GroupCount(Version(next)) == 1 + GroupCount(next)
    ensures forall next {:trigger Context(next)} :: GroupCount(Context(next)) == 1 + GroupCount(next)
    ensures forall next {:trigger C(next)} :: GroupCount(C(next)) == GroupCount(next)
    ensures forall next {:trigger CC(next)} :: GroupCount(CC(next)) == GroupCount(next)
    ensures forall next {:trigger No(next)} :: GroupCount(No(next)) == 1 + GroupCount(next)
    ensures forall next {:trigger Maybe(':', next)} :: GroupCount(Maybe(':', next)) == GroupCount(next)
    ensures GroupCount(WithProfile()) == 1 && GroupCount(NoProfile()) == 1
  {
  }

  lemma SixCounted(form: int)
    requires 1 <= form <= 16
    ensures GroupCount(FormRegex(form)) == 6
  {
    hide GroupCount, Name, Version, Context, C, CC, No, WithProfile, NoProfile;
    CountSteps();
  }

  lemma SixGroups(form: int, s: string, groups: seq<string>)
    requires 1 <= form <= 16 && Matches(FormRegex(form), s, groups)
    ensures |groups| == 6 && groups[0] != []
  {
    hide Matches, FormRegex;
    FitCounts(FormRegex(form), s, groups);
    SixCounted(form);
    NameFirst(form, s, groups);
  }

  lemma NameFirst(form: int, s: string, groups: seq<string>)
    requires 1 <= form <= 16 && Matches(FormRegex(form), s, groups)
    ensures groups != [] && groups[0] != []
  {
    assert FormRegex(form).Group?;
  }

  class Nsvcap {
    var name: string
    var stream: string
    var version: string
    var context: string
    var arch: string
    var profile: string

    constructor ()
      ensures Fields() == ["", "", "", "", "", ""]
    {
      name, stream, version, context, arch, profile := "", "", "", "", "", "";
    }

    function Fields(): seq<string>
      reads this
    {
      [name, stream, version, context, arch, profile]
    }

    /** Takes the fields of a string that matches the form, and leaves them when it does not. */
    method Parse(s: string, form: int) returns (matched: bool)
      requires 1 <= form <= 16
      modifies this
      ensures matched <==> exists groups :: Matches(FormRegex(form), s, groups)
      ensures matched ==> Matches(FormRegex(form), s, Fields())
      ensures matched ==> FieldsFit(form, name, stream, version, context, arch, profile)
      ensures matched ==>
        exists colon, slash :: s == Spelled(form, name, stream, version, context, arch, profile, colon, slash)
      ensures !matched ==> Fields() == old(Fields())
    {
      hide FormRegex, Match, Matches, Separable, OptionalOnce, FieldsFit, Spelled;
      FormsAreSeparable(form);
      var groups := Match(FormRegex(form), s);
      forall g ensures Matches(FormRegex(form), s, g) <==> groups == Some(g) {
        MatchIsExact(FormRegex(form), s, g);
      }
      if groups.Some? {
        SixGroups(form, s, groups.value);
      }
      if groups.None? || groups.value[0] == [] {
        return false;
      }
      var g := groups.value;
      name, version, stream, context, arch, profile := g[0], g[2], g[1], g[3], g[4], g[5];
      assert Fields() == g;
      FormMeans(form, s, g);
      matched := true;
    }

    method Clear()
      modifies this
      ensures Fields() == ["", "", "", "", "", ""]
    {
      name, stream, version, context, arch, profile := "", "", "", "", "", "";
    }
  }

  /** A form that matches, with the fields. */
  datatype Found = Found(form: int, groups: seq<string>)

  predicate AreForms(forms: seq<int>) {
    forall i :: 0 <= i < |forms| ==> 1 <= forms[i] <= 16
  }

  /** What trying forms in this order finds. */
  function Possibilities(forms: seq<int>, s: string): seq<Found>
    requires AreForms(forms)
  {
    if forms == [] then []
    else
      var groups := Match(FormRegex(forms[0]), s);
      (if groups.Some? then [Found(forms[0], groups.value)] else []) + Possibilities(forms[1..], s)
  }

  predicate Distinct(forms: seq<int>) {
    forall i, j :: 0 <= i < j < |forms| ==> forms[i] != forms[j]
  }

  /** Trying different forms finds at most one, and finds it wherever it stands. */
  lemma {:induction false} FindsTheOne(forms: seq<int>, s: string, form: int, groups: seq<string>)
    requires AreForms(forms) && Distinct(forms)
    requires 1 <= form <= 16 && Matches(FormRegex(form), s, groups)
    ensures Possibilities(forms, s) == if form in forms then [Found(form, groups)] else []
  {
    hide FormRegex, Match, Matches, Separable, OptionalOnce;
    if forms != [] {
      FormsAreSeparable(forms[0]);
      var first := Match(FormRegex(forms[0]), s);
      if first.Some? {
        MatchIsExact(FormRegex(forms[0]), s, first.value);
        AtMostOneForm(s, form, groups, forms[0], first.value);
      }
      if forms[0] == form {
        MatchIsExact(FormRegex(form), s, groups);
      }
      FindsTheOne(forms[1..], s, form, groups);
    }
  }

  lemma {:induction false} FindsNone(forms: seq<int>, s: string)
    requires AreForms(forms)
    requires forall form, groups :: form in forms ==> !Matches(FormRegex(form), s, groups)
    ensures Possibilities(forms, s) == []
  {
    hide FormRegex, Match, Matches, Separable, OptionalOnce;
    if forms != [] {
      FormsAreSeparable(forms[0]);
      var first := Match(FormRegex(forms[0]), s);
      if first.Some? {
        MatchIsExact(FormRegex(forms[0]), s, first.value);
      }
      FindsNone(forms[1..], s);
    }
  }

  /** The order in which forms are tried makes no difference. */
  lemma OrderDoesNotMatter(a: seq<int>, b: seq<int>, s: string)
    requires AreForms(a) && AreForms(b) && Distinct(a) && Distinct(b)
    requires forall form :: form in a <==> form in b
    ensures Possibilities(a, s) == Possibilities(b, s) && |Possibilities(a, s)| <= 1
  {
    hide FormRegex, Matches, Possibilities;
    if form, groups :| form in a && Matches(FormRegex(form), s, groups) {
      FindsTheOne(a, s, form, groups);
      FindsTheOne(b, s, form, groups);
    } else {
      FindsNone(a, s);
      FindsNone(b, s);
    }
  }
}
