/** Substitution of variables in configuration text, config_parser.cpp. A text is a sequence of
  pieces, ordinary characters and references to variables; what the pieces are does not depend on
  the variables that are known. Substituting replaces the known references by their values, all in
  one pass from left to right, in place.
 */
module Substitution {

  /** A reference is "$name" or, with braces, "${name}". */
  datatype Piece = Character(ch: char) | Reference(name: string, braces: bool)

  function Raw(p: Piece): string {
    match p
    case Character(ch) => [ch]
    case Reference(name, braces) => if braces then "${" + name + "}" else "$" + name
  }

  predicate IsWord(ch: char) {
    'a' <= ch <= 'z' || 'A' <= ch <= 'Z' || '0' <= ch <= '9' || ch == '_'
  }

  /** The length of the longest word that s starts with. */
  function WordLength(s: string): (n: nat)
    ensures n <= |s| && (forall i :: 0 <= i < n ==> IsWord(s[i])) && (n < |s| ==> !IsWord(s[n]))
  {
    if s == [] || !IsWord(s[0]) then 0 else 1 + WordLength(s[1..])
  }

  /** The piece that the text starts with. A '$' alone at the end of the text and a "${" that is not
      closed after its word are ordinary characters. */
  function FirstPiece(s: string): (p: Piece)
    requires s != []
    ensures Raw(p) <= s
  {
    if s[0] != '$' || |s| == 1 then Character(s[0])
    else if s[1] != '{' then
      var n := WordLength(s[1..]);
      assert s[..1 + n] == "$" + s[1..1 + n];
      Reference(s[1..1 + n], false)
    else
      var n := WordLength(s[2..]);
      if 2 + n < |s| && s[2 + n] == '}' then
        assert s[..3 + n] == "${" + s[2..2 + n] + "}";
        Reference(s[2..2 + n], true)
      else Character(s[0])
  }

  function Pieces(s: string): seq<Piece>
    decreases |s|
  {
    if s == [] then [] else [FirstPiece(s)] + Pieces(s[|Raw(FirstPiece(s))|..])
  }

  type Variables = map<string, string>

  function Image(p: Piece, vars: Variables): string {
    if p.Reference? && p.name in vars then vars[p.name] else Raw(p)
  }

  function Images(ps: seq<Piece>, vars: Variables): string {
    if ps == [] then [] else Image(ps[0], vars) + Images(ps[1..], vars)
  }

  function Expand(s: string, vars: Variables): string {
    Images(Pieces(s), vars)
  }

  // ------------------------------------------------------------------ the pieces

  /** Reading the first piece. */
  lemma TakeFirst(s: string, vars: Variables)
    requires s != []
    ensures Expand(s, vars) == Image(FirstPiece(s), vars) + Expand(s[|Raw(FirstPiece(s))|..], vars)
  {
    assert Pieces(s)[1..] == Pieces(s[|Raw(FirstPiece(s))|..]);
  }

  lemma RawNotEmpty(p: Piece)
    ensures Raw(p) != []
  {
  }

  /** Whether these pieces are what a reader takes the text that they make up to be: names are words,
      a name without braces is as long as it can be, and a '$' is an ordinary character only where it
      cannot start a reference. */
  predicate Proper(ps: seq<Piece>) {
    ps != [] ==> ProperFirst(ps[0], JoinRaw(ps[1..])) && Proper(ps[1..])
  }

  predicate AllWord(s: string) {
    forall i :: 0 <= i < |s| ==> IsWord(s[i])
  }

  predicate ProperFirst(p: Piece, after: string) {
    match p
    case Reference(name, true) => AllWord(name)
    case Reference(name, false) =>
      AllWord(name) && (name + after != []) && (name + after)[0] != '{' && (after != [] ==> !IsWord(after[0]))
    case Character(ch) =>
      ch == '$' ==> after == [] || (after[0] == '{' && !ClosesWord(after[1..]))
  }

  /** A word and the closing brace. */
  predicate ClosesWord(s: string) {
    exists n :: 0 <= n < |s| && AllWord(s[..n]) && s[n] == '}'
  }

  function JoinRaw(ps: seq<Piece>): string {
    if ps == [] then [] else Raw(ps[0]) + JoinRaw(ps[1..])
  }

  /** There is exactly one way to read a text as proper pieces, and Pieces finds it. */
  lemma OneReading(s: string, ps: seq<Piece>)
    ensures JoinRaw(ps) == s && Proper(ps) <==> ps == Pieces(s)
  {
    PiecesAreProper(s);
    if Proper(ps) {
      ProperAreThePieces(ps);
    }
  }

  lemma OneMore(p: Piece, ps: seq<Piece>)
    ensures JoinRaw([p] + ps) == Raw(p) + JoinRaw(ps)
    ensures Proper([p] + ps) <==> ProperFirst(p, JoinRaw(ps)) && Proper(ps)
  {
    hide Raw, ProperFirst;
    assert ([p] + ps)[1..] == ps;
  }

  /** No text, no pieces. */
  lemma NoPieces()
    ensures Pieces("") == [] && JoinRaw([]) == "" && Proper([])
  {
  }

  lemma FirstAndRest(s: string)
    requires s != []
    ensures Pieces(s) == [FirstPiece(s)] + Pieces(s[|Raw(FirstPiece(s))|..])
    ensures s == Raw(FirstPiece(s)) + s[|Raw(FirstPiece(s))|..]
  {
    hide FirstPiece, Raw;
  }

  lemma {:induction false} PiecesAreProper(s: string)
    ensures JoinRaw(Pieces(s)) == s && Proper(Pieces(s))
    decreases |s|
  {
    hide *;
    NoPieces();
    if s != [] {
      var rest := s[|Raw(FirstPiece(s))|..];
      RawNotEmpty(FirstPiece(s));
      FirstAndRest(s);
      FirstIsProper(s);
      PiecesAreProper(rest);
      OneMore(FirstPiece(s), Pieces(rest));
    }
  }

  lemma {:induction false} ProperAreThePieces(ps: seq<Piece>)
    requires Proper(ps)
    ensures ps == Pieces(JoinRaw(ps))
  {
    hide *;
    NoPieces();
    if ps != [] {
      var p, rest := ps[0], ps[1..];
      assert ps == [p] + rest;
      OneMore(p, rest);
      ProperIsFirst(p, JoinRaw(rest));
      RawNotEmpty(p);
      ProperAreThePieces(rest);
      FirstAndRest(JoinRaw(ps));
      assert JoinRaw(ps)[|Raw(p)|..] == JoinRaw(rest);
    }
  }

  lemma FirstIsProper(s: string)
    requires s != []
    ensures ProperFirst(FirstPiece(s), s[|Raw(FirstPiece(s))|..])
  {
    hide WordLength;
    if s[0] == '$' && |s| > 1 && s[1] == '{' {
      WordEnds(s[2..]);
    }
  }

  lemma WordEnds(s: string)
    ensures ClosesWord(s) <==> WordLength(s) < |s| && s[WordLength(s)] == '}'
  {
    var n := WordLength(s);
    if n < |s| && s[n] == '}' {
      assert AllWord(s[..n]);
    }
    if i :| 0 <= i < |s| && AllWord(s[..i]) && s[i] == '}' {
      assert forall k :: 0 <= k < i ==> s[k] == s[..i][k];
      assert i == n;
    }
  }

  lemma ProperIsFirst(p: Piece, after: string)
    requires ProperFirst(p, after)
    ensures FirstPiece(Raw(p) + after) == p
  {
    match p
    case Character(ch) => CharacterIsFirst(ch, after);
    case Reference(name, true) => BracedIsFirst(name, after);
    case Reference(name, false) => PlainIsFirst(name, after);
  }

  lemma CharacterIsFirst(ch: char, after: string)
    requires ProperFirst(Character(ch), after)
    ensures FirstPiece([ch] + after) == Character(ch)
  {
    hide WordLength;
    var s := [ch] + after;
    if ch == '$' && after != [] {
      assert s[2..] == after[1..];
      WordEnds(s[2..]);
    }
  }

  lemma BracedIsFirst(name: string, after: string)
    requires AllWord(name)
    ensures FirstPiece("${" + name + "}" + after) == Reference(name, true)
  {
    hide WordLength;
    var s := "${" + name + "}" + after;
    assert s[2..] == name + (['}'] + after);
    LongestWord(s[2..], |name|);
    assert s[2 + |name|] == '}' && s[2..2 + |name|] == name;
  }

  lemma PlainIsFirst(name: string, after: string)
    requires ProperFirst(Reference(name, false), after)
    ensures FirstPiece("$" + name + after) == Reference(name, false)
  {
    hide WordLength;
    var s := "$" + name + after;
    assert s[1..] == name + after;
    LongestWord(s[1..], |name|);
    assert s[1..1 + |name|] == name;
  }

  lemma LongestWord(s: string, n: nat)
    requires n <= |s| && AllWord(s[..n]) && (n < |s| ==> !IsWord(s[n]))
    ensures WordLength(s) == n
  {
    assert forall i :: 0 <= i < n ==> s[i] == s[..n][i];
  }

  /** A text without references to known variables stays as it is. */
  lemma NothingKnown(s: string, vars: Variables)
    requires forall p :: p in Pieces(s) && p.Reference? ==> p.name !in vars
    ensures Expand(s, vars) == s
  {
    PiecesAreProper(s);
    ImagesAreRaw(Pieces(s), vars);
  }

  lemma {:induction false} ImagesAreRaw(ps: seq<Piece>, vars: Variables)
    requires forall p :: p in ps && p.Reference? ==> p.name !in vars
    ensures Images(ps, vars) == JoinRaw(ps)
  {
    if ps != [] {
      ImagesAreRaw(ps[1..], vars);
    }
  }

  /** A known reference is replaced by its value, which is not read again; what comes after is. */
  lemma KnownIsReplaced(name: string, braces: bool, after: string, vars: Variables)
    requires ProperFirst(Reference(name, braces), after) && name in vars
    ensures Expand(Raw(Reference(name, braces)) + after, vars) == vars[name] + Expand(after, vars)
  {
    hide Expand, FirstPiece, ProperFirst, Raw;
    var p := Reference(name, braces);
    ProperIsFirst(p, after);
    RawNotEmpty(p);
    TakeFirst(Raw(p) + after, vars);
    assert (Raw(p) + after)[|Raw(p)|..] == after;
  }

  /** An ordinary character, and a reference to an unknown variable, stays as it is. */
  lemma OthersStay(p: Piece, after: string, vars: Variables)
    requires ProperFirst(p, after) && (p.Reference? ==> p.name !in vars)
    ensures Expand(Raw(p) + after, vars) == Raw(p) + Expand(after, vars)
  {
    hide Expand, FirstPiece, ProperFirst, Raw;
    ProperIsFirst(p, after);
    RawNotEmpty(p);
    TakeFirst(Raw(p) + after, vars);
    assert (Raw(p) + after)[|Raw(p)|..] == after;
  }

  /** The characters of a name. */
  lemma WordCharacters(ch: char)
    ensures IsWord(ch) <==>
      ch in "abcdefghijklmnopqrstuvwxyz" || ch in "ABCDEFGHIJKLMNOPQRSTUVWXYZ" || ch in "0123456789" || ch == '_'
  {
  }

  // -------------------------------------------------------------------- in place

  /** The first '$' from `from` on, or the length of the text. */
  function FindDollar(s: string, from: nat): (i: nat)
    requires from <= |s|
    ensures from <= i <= |s| && (i < |s| ==> s[i] == '$') && '$' !in s[from..i]
    decreases |s| - from
  {
    if from == |s| || s[from] == '$' then from
    else
      var i := FindDollar(s, from + 1);
      assert s[from..i] == [s[from]] + s[from + 1..i];
      i
  }

  /** The characters before the next '$' stand for themselves. */
  lemma {:induction false} SkipTo(s: string, n: nat, vars: Variables)
    requires n <= |s| && '$' !in s[..n]
    ensures Expand(s, vars) == s[..n] + Expand(s[n..], vars)
  {
    hide Expand;
    if n > 0 {
      assert s[0] in s[..n];
      assert s[..n][1..] == s[1..][..n - 1];
      assert forall ch :: ch in s[..n][1..] ==> ch in s[..n];
      SkipTo(s[1..], n - 1, vars);
      assert s[1..][n - 1..] == s[n..];
      TakeFirst(s, vars);
    } else {
      assert s[0..] == s;
    }
  }

  /** What stands for itself up to some place does so up to the next '$'. */
  lemma Verbatim(s: string, k: nat, n: nat, vars: Variables)
    requires k <= n <= |s| && '$' !in s[k..n]
    requires Expand(s, vars) == s[..k] + Expand(s[k..], vars)
    ensures Expand(s, vars) == s[..n] + Expand(s[n..], vars)
  {
    hide Expand;
    assert s[k..][..n - k] == s[k..n] && s[k..][n - k..] == s[n..];
    SkipTo(s[k..], n - k, vars);
  }

  /** A '$' that starts no reference: it and the word after it stand for themselves. */
  lemma NoReference(s: string, k: nat, n: nat, vars: Variables)
    requires 1 <= k <= n <= |s| && s[0] == '$' && FirstPiece(s) == Character('$')
    requires forall i :: 1 <= i < k ==> IsWord(s[i]) || s[i] == '{'
    requires '$' !in s[k..n]
    ensures Expand(s, vars) == s[..n] + Expand(s[n..], vars)
  {
    hide Expand, FirstPiece;
    TakeFirst(s, vars);
    assert s[1..n] == s[1..k] + s[k..n];
    Verbatim(s, 1, n, vars);
  }

  /** A reference to an unknown variable. */
  lemma UnknownName(s: string, n: nat, vars: Variables)
    requires s != [] && FirstPiece(s).Reference? && FirstPiece(s).name !in vars
    requires |Raw(FirstPiece(s))| <= n <= |s| && '$' !in s[|Raw(FirstPiece(s))|..n]
    ensures Expand(s, vars) == s[..n] + Expand(s[n..], vars)
  {
    hide Expand, FirstPiece;
    TakeFirst(s, vars);
    Verbatim(s, |Raw(FirstPiece(s))|, n, vars);
  }

  lemma AllDone(text: string, vars: Variables, whole: string)
    requires whole == text[..|text|] + Expand(text[|text|..], vars)
    ensures whole == text
  {
    assert text[|text|..] == [];
  }

  /** What is done grows by the characters up to the next '$'. */
  lemma GoOn(text: string, start: nat, next: nat, vars: Variables, whole: string)
    requires start <= next <= |text|
    requires whole == text[..start] + Expand(text[start..], vars)
    requires Expand(text[start..], vars) == text[start..][..next - start] + Expand(text[start..][next - start..], vars)
    ensures whole == text[..next] + Expand(text[next..], vars)
  {
    hide Expand;
    assert text[start..][..next - start] == text[start..next] && text[start..][next - start..] == text[next..];
    assert text[..next] == text[..start] + text[start..next];
  }

  lemma ToNext(text: string, start: nat, next: nat, vars: Variables, whole: string)
    requires start <= next <= |text| && '$' !in text[start..next]
    requires whole == text[..start] + Expand(text[start..], vars)
    ensures whole == text[..next] + Expand(text[next..], vars)
  {
    hide Expand;
    assert text[start..][0..next - start] == text[start..next] && text[start..][0..] == text[start..];
    Verbatim(text[start..], 0, next - start, vars);
    GoOn(text, start, next, vars, whole);
  }

  /** What the loop takes for the piece at `start`. */
  lemma PieceAt(text: string, start: nat)
    requires start < |text| && text[start] == '$'
    ensures var p := FirstPiece(text[start..]);
            if start + 1 == |text| then p == Character('$')
            else if text[start + 1] != '{' then
              var past := start + 1 + WordLength(text[start + 1..]);
              p == Reference(text[start + 1..past], false)
            else if start + 2 == |text| then p == Character('$')
            else
              var past := start + 2 + WordLength(text[start + 2..]);
              if past < |text| && text[past] == '}' then p == Reference(text[start + 2..past], true)
              else p == Character('$')
  {
    hide WordLength, Raw;
    var s := text[start..];
    assert |s| > 1 ==> s[1] == text[start + 1] && s[1..] == text[start + 1..];
    if |s| > 1 && s[1] != '{' {
      assert s[1..1 + WordLength(s[1..])] == text[start + 1..start + 1 + WordLength(s[1..])];
    } else if |s| > 2 {
      var n := WordLength(s[2..]);
      assert s[2..] == text[start + 2..];
      assert s[2..2 + n] == text[start + 2..start + 2 + n];
      assert 2 + n < |s| ==> s[2 + n] == text[start + 2 + n];
    }
  }

  /** Where the loop finds a word after the '$' at `start`. */
  predicate Scanned(text: string, start: nat, bracket: bool, variable: nat, past: nat) {
    && start < variable <= past <= |text| && text[start] == '$'
    && (if bracket then variable == start + 2 && text[start + 1] == '{'
        else variable == start + 1 && (variable < |text| ==> text[variable] != '{'))
    && past == variable + WordLength(text[variable..])
  }

  predicate Complete(text: string, bracket: bool, variable: nat, past: nat) {
    if bracket then past < |text| && text[past] == '}' else variable < |text|
  }

  lemma PieceScanned(text: string, start: nat, bracket: bool, variable: nat, past: nat)
    requires Scanned(text, start, bracket, variable, past)
    ensures FirstPiece(text[start..]) ==
            if Complete(text, bracket, variable, past) then Reference(text[variable..past], bracket) else Character('$')
  {
    hide WordLength, FirstPiece;
    PieceAt(text, start);
  }

  lemma SkippedWord(text: string, start: nat, bracket: bool, variable: nat, past: nat, next: nat, vars: Variables)
    requires Scanned(text, start, bracket, variable, past) && !Complete(text, bracket, variable, past)
    requires past <= next <= |text| && '$' !in text[past..next]
    ensures Expand(text[start..], vars) == text[start..][..next - start] + Expand(text[start..][next - start..], vars)
  {
    hide Expand, FirstPiece, WordLength;
    PieceScanned(text, start, bracket, variable, past);
    var s := text[start..];
    assert s[past - start..next - start] == text[past..next];
    assert forall i :: variable <= i < past ==> text[i] == text[variable..][i - variable];
    assert forall i :: 1 <= i < past - start ==> s[i] == text[start + i];
    NoReference(s, past - start, next - start, vars);
  }

  /** The loop skips what is no reference to a known variable: the word at `variable`, and then
      everything up to the next '$'. */
  lemma Skipped(text: string, start: nat, bracket: bool, variable: nat, past: nat, next: nat, vars: Variables,
                whole: string)
    requires Scanned(text, start, bracket, variable, past)
    requires past <= next <= |text| && '$' !in text[past..next]
    requires next < |text| ==> text[next] == '$'
    requires Complete(text, bracket, variable, past) ==> text[variable..past] !in vars
    requires whole == text[..start] + Expand(text[start..], vars)
    ensures whole == text[..next] + Expand(text[next..], vars)
  {
    hide Expand, FirstPiece, WordLength;
    PieceScanned(text, start, bracket, variable, past);
    if Complete(text, bracket, variable, past) {
      var s, n := text[start..], |Raw(Reference(text[variable..past], bracket))|;
      assert n == (if bracket then past + 1 else past) - start;
      assert s[n..next - start] == text[past..next][n - (past - start)..];
      UnknownName(s, next - start, vars);
    } else {
      SkippedWord(text, start, bracket, variable, past, next, vars);
    }
    GoOn(text, start, next, vars, whole);
  }

  /** The loop puts a value in the place of a reference, and goes on after it. */
  lemma PutIn(text: string, start: nat, bracket: bool, variable: nat, past: nat, value: string, vars: Variables,
              whole: string)
    requires Scanned(text, start, bracket, variable, past) && Complete(text, bracket, variable, past)
    requires text[variable..past] in vars && value == vars[text[variable..past]]
    requires whole == text[..start] + Expand(text[start..], vars)
    ensures var replaced := text[..start] + value + text[if bracket then past + 1 else past..];
            whole == replaced[..start + |value|] + Expand(replaced[start + |value|..], vars)
  {
    hide Expand, FirstPiece, WordLength;
    PieceScanned(text, start, bracket, variable, past);
    TakeFirst(text[start..], vars);
    var end := if bracket then past + 1 else past;
    assert text[start..][end - start..] == text[end..];
    var replaced := text[..start] + value + text[end..];
    assert replaced[..start + |value|] == text[..start] + value;
    assert replaced[start + |value|..] == text[end..];
  }

  /** Substitutes in place: what is left of `start` is done, and a value that was put in is never
      looked at again. */
  method Substitute(input: string, vars: Variables) returns (text: string)
    ensures text == Expand(input, vars)
  {
    hide Expand, WordLength, FindDollar;
    ghost var whole := Expand(input, vars);
    text := input;
    var start: nat := FindDollar(text, 0);
    assert text[..start] == text[0..start];
    SkipTo(input, start, vars);
    while start < |text|
      invariant start <= |text|
      invariant start < |text| ==> text[start] == '$'
      invariant whole == text[..start] + Expand(text[start..], vars)
      decreases |text| - start
    {
      var variable := start + 1;
      if variable >= |text| {
        Skipped(text, start, false, variable, |text|, |text|, vars, whole);
        break;
      }
      var bracket := text[variable] == '{';
      if bracket {
        variable := variable + 1;
        if variable >= |text| {
          Skipped(text, start, bracket, variable, |text|, |text|, vars, whole);
          break;
        }
      }
      var pastVariable := variable + WordLength(text[variable..]);
      if bracket && pastVariable == |text| {
        Skipped(text, start, bracket, variable, |text|, |text|, vars, whole);
        break;
      }
      if bracket && text[pastVariable] != '}' {
        var next := FindDollar(text, pastVariable);
        Skipped(text, start, bracket, variable, pastVariable, next, vars, whole);
        start := next;
        continue;
      }
      var name := text[variable..pastVariable];
      if name in vars {
        PutIn(text, start, bracket, variable, pastVariable, vars[name], vars, whole);
        if bracket {
          pastVariable := pastVariable + 1;
        }
        text := text[..start] + vars[name] + text[pastVariable..];
        var from := start + |vars[name]|;
        start := FindDollar(text, from);
        ToNext(text, from, start, vars, whole);
      } else {
        var next := FindDollar(text, pastVariable);
        Skipped(text, start, bracket, variable, pastVariable, next, vars, whole);
        start := next;
      }
    }
    AllDone(text, vars, whole);
  }
}
