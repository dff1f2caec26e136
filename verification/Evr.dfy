/** EVR strings: Nevra::getEvr of nevra.cpp writes epoch:version-release, pool_split_evr and
  pool_get_epoch of hy-iutil.cpp take it apart again, in place in a buffer that ends with '\0'.
 */
module Evrs {
  import opened Options

  // -------------------------------------------------------------------- numbers

  predicate IsDigit(ch: char) { '0' <= ch <= '9' }

  predicate AllDigits(s: string) {
    forall i :: 0 <= i < |s| ==> IsDigit(s[i])
  }

  function Digit(n: int): char
    requires 0 <= n <= 9
  {
    "0123456789"[n]
  }

  function Decimal(n: nat): (s: string)
    ensures s != [] && AllDigits(s)
  {
    if n < 10 then [Digit(n)] else Decimal(n / 10) + [Digit(n % 10)]
  }

  /** std::to_string of an int. */
  function ToString(n: int): string {
    if n < 0 then "-" + Decimal(-n) else Decimal(n)
  }

  function DigitValue(ch: char): int
    requires IsDigit(ch)
  {
    ch as int - '0' as int
  }

  /** The value of decimal digits. */
  function Value(s: string): (n: nat)
    requires AllDigits(s)
  {
    if s == [] then 0 else 10 * Value(s[..|s| - 1]) + DigitValue(s[|s| - 1])
  }

  lemma {:induction false} DecimalValue(n: nat)
    ensures Value(Decimal(n)) == n
  {
    var s := Decimal(n);
    if n >= 10 {
      DecimalValue(n / 10);
      assert s[..|s| - 1] == Decimal(n / 10);
      DigitRoundTrip(n % 10);
    } else {
      assert s[..0] == [];
      DigitRoundTrip(n);
    }
  }

  lemma DigitRoundTrip(n: int)
    requires 0 <= n <= 9
    ensures IsDigit(Digit(n)) && DigitValue(Digit(n)) == n
  {
  }

  function DigitsLength(s: string): (n: nat)
    ensures n <= |s| && AllDigits(s[..n]) && (n < |s| ==> !IsDigit(s[n]))
  {
    if s == [] || !IsDigit(s[0]) then 0
    else
      var n := DigitsLength(s[1..]);
      assert forall i :: 0 < i < n + 1 ==> s[i] == s[1..][..n][i - 1];
      1 + n
  }

  predicate IsSpace(ch: char) {
    ch in " \t\n\U{0b}\U{0c}\r"
  }

  function SkipSpace(s: string): string {
    if s != [] && IsSpace(s[0]) then SkipSpace(s[1..]) else s
  }

  const LONG_MAX: int := 0x7fff_ffff_ffff_ffff

  function Saturated(n: int): int {
    if n > LONG_MAX then LONG_MAX else if n < -LONG_MAX - 1 then -LONG_MAX - 1 else n
  }

  /** The number that a string starts with, as strtol reads it in base ten, and whether it ends the
      string. */
  function Strtol(s: string): (int, bool) {
    var t := SkipSpace(s);
    var signed := t != [] && (t[0] == '-' || t[0] == '+');
    var u := if signed then t[1..] else t;
    var n := DigitsLength(u);
    if n == 0 then (0, s == [])
    else (Saturated(if signed && t[0] == '-' then 0 - Value(u[..n]) else Value(u[..n])), n == |u|)
  }

  /** Of digits alone strtol reads the value, up to the largest long. */
  lemma StrtolDigits(s: string)
    requires s != [] && AllDigits(s)
    ensures Strtol(s) == (if Value(s) > LONG_MAX then LONG_MAX else Value(s), true)
  {
    assert IsDigit(s[0]);
    assert DigitsLength(s) == |s|;
    assert s[..|s|] == s;
  }

  lemma StrtolDecimal(n: nat)
    requires n <= LONG_MAX
    ensures Strtol(Decimal(n)) == (n, true)
  {
    StrtolDigits(Decimal(n));
    DecimalValue(n);
  }

  lemma StrtolNegative(n: nat)
    requires n <= LONG_MAX + 1
    ensures Strtol("-" + Decimal(n)) == (0 - n, true)
  {
    var s := "-" + Decimal(n);
    var u := Decimal(n);
    assert s[1..] == u;
    assert DigitsLength(u) == |u|;
    assert u[..|u|] == u;
    DecimalValue(n);
  }

  // ----------------------------------------------------------------- the meaning

  /** The first of these two characters from `from` on, or the length of the string. */
  function FindEither(s: string, a: char, b: char, from: nat): (i: nat)
    requires from <= |s|
    ensures from <= i <= |s| && (i < |s| ==> s[i] == a || s[i] == b)
    ensures forall k :: from <= k < i ==> s[k] != a && s[k] != b
    decreases |s| - from
  {
    if from == |s| || s[from] == a || s[from] == b then from else FindEither(s, a, b, from + 1)
  }

  datatype Parts = Parts(epoch: Option<string>, version: string, release: Option<string>)

  /** A C string. */
  predicate NoNul(s: string) {
    '\0' !in s
  }

  /** What splitting relies on: the string is not empty, and a ':' that comes first, after the first
      character, has a '-' after it, at least one character on. */
  predicate WellFormed(s: string) {
    s != [] && NoNul(s) &&
    (var e := FindEither(s, ':', '-', 1);
     e < |s| && s[e] == ':' ==> e + 2 <= |s| && FindEither(s, '-', '-', e + 2) < |s|)
  }

  function Split(s: string): Parts
    requires WellFormed(s)
  {
    var e := FindEither(s, ':', '-', 1);
    if e == |s| then Parts(None, s, None)
    else if s[e] == '-' then Parts(None, s[..e], Some(s[e + 1..]))
    else
      var r := FindEither(s, '-', '-', e + 2);
      Parts(Some(s[..e]), s[e + 1..r], Some(s[r + 1..]))
  }

  const EPOCH_NOT_SET := -1

  function GetEvr(epoch: int, version: string, release: string): string {
    if epoch == EPOCH_NOT_SET then version + "-" + release
    else ToString(epoch) + ":" + version + "-" + release
  }

  lemma EitherAt(s: string, a: char, b: char, from: nat, i: nat)
    requires from <= i < |s| && (s[i] == a || s[i] == b)
    requires forall k :: from <= k < i ==> s[k] != a && s[k] != b
    ensures FindEither(s, a, b, from) == i
  {
  }

  predicate Plain(version: string) {
    version != [] && ':' !in version && '-' !in version
  }

  /** Splitting gives back the digits of the epoch, the version and the release. */
  lemma SplitGetEvr(epoch: int, version: string, release: string)
    requires Plain(version) && NoNul(version) && NoNul(release)
    ensures var s := GetEvr(epoch, version, release);
            && WellFormed(s)
            && Split(s) == Parts(if epoch == EPOCH_NOT_SET then None else Some(ToString(epoch)), version, Some(release))
  {
    hide ToString, WellFormed, Split;
    if epoch == EPOCH_NOT_SET {
      SplitWithout(version, release);
    } else {
      EpochPlain(epoch);
      SplitWith(ToString(epoch), version, release);
    }
  }

  /** The parts put together again are the string. */
  lemma SplitJoins(s: string)
    requires WellFormed(s)
    ensures var p := Split(s);
            s == (if p.epoch.Some? then p.epoch.value + ":" else "") + p.version +
                 (if p.release.Some? then "-" + p.release.value else "")
  {
    hide FindEither;
    var e := FindEither(s, ':', '-', 1);
    if e < |s| && s[e] == ':' {
      var r := FindEither(s, '-', '-', e + 2);
      assert s[e + 1..] == s[e + 1..r] + "-" + s[r + 1..];
      assert s == s[..e] + ":" + s[e + 1..];
    }
  }

  lemma SplitWithout(version: string, release: string)
    requires Plain(version) && NoNul(version) && NoNul(release)
    ensures var s := version + "-" + release; WellFormed(s) && Split(s) == Parts(None, version, Some(release))
  {
    hide FindEither;
    var s := version + "-" + release;
    assert forall k :: 0 <= k < |version| ==> s[k] == version[k] && version[k] in version;
    EitherAt(s, ':', '-', 1, |version|);
    assert s[..|version|] == version && s[|version| + 1..] == release;
  }

  lemma SplitWith(e: string, version: string, release: string)
    requires e != [] && NoNul(e) && forall k :: 1 <= k < |e| ==> IsDigit(e[k])
    requires Plain(version) && NoNul(version) && NoNul(release)
    ensures var s := e + ":" + version + "-" + release;
            WellFormed(s) && Split(s) == Parts(Some(e), version, Some(release))
  {
    hide FindEither;
    var s := e + ":" + version + "-" + release;
    var c, d := |e|, |e| + 1 + |version|;
    assert forall k :: 0 <= k < c ==> s[k] == e[k];
    EitherAt(s, ':', '-', 1, c);
    assert forall k :: c < k < d ==> s[k] == version[k - c - 1] && version[k - c - 1] in version;
    EitherAt(s, '-', '-', c + 2, d);
    assert s[..c] == e && s[c + 1..d] == version && s[d + 1..] == release;
  }

  lemma EpochPlain(epoch: int)
    ensures var e := ToString(epoch);
            e != [] && NoNul(e) && forall k :: 1 <= k < |e| ==> IsDigit(e[k])
    ensures ':' !in ToString(epoch)
  {
    var d := Decimal(if epoch < 0 then -epoch else epoch);
    assert forall k :: 0 <= k < |d| ==> IsDigit(d[k]);
  }

  // ----------------------------------------------------------------- the program

  /** The C string that starts at an index. */
  function CString(buffer: seq<char>, i: nat): string
    requires i <= |buffer|
    decreases |buffer| - i
  {
    if i == |buffer| || buffer[i] == '\0' then "" else [buffer[i]] + CString(buffer, i + 1)
  }

  lemma {:induction false} CStringAt(buffer: seq<char>, i: nat, end: nat)
    requires i <= end < |buffer| && buffer[end] == '\0' && '\0' !in buffer[i..end]
    ensures CString(buffer, i) == buffer[i..end]
    decreases end - i
  {
    if i < end {
      assert buffer[i] in buffer[i..end];
      assert buffer[i..end][1..] == buffer[i + 1..end];
      assert forall ch :: ch in buffer[i..end][1..] ==> ch in buffer[i..end];
      CStringAt(buffer, i + 1, end);
    }
  }

  /** An index into the buffer, or -1 for a null pointer. */
  predicate Points(buffer: array<char>, p: int) {
    0 <= p < buffer.Length
  }

  /** Splits in place: writes terminators into a copy of the string and returns where the parts start.
      Every index is inside the copy. */
  method SplitEvr(evrC: string) returns (evr: array<char>, epoch: int, version: int, release: int)
    requires WellFormed(evrC)
    ensures Points(evr, version) && (epoch == -1 || Points(evr, epoch)) && (release == -1 || Points(evr, release))
    ensures CString(evr[..], version) == Split(evrC).version
    ensures Pointed(evr[..], epoch) == Split(evrC).epoch
    ensures Pointed(evr[..], release) == Split(evrC).release
  {
    hide Split, CString, FindEither;
    var n := |evrC|;
    evr := new char[n + 1](i => if 0 <= i < n then evrC[i] else '\0');
    ghost var copy := evrC + ['\0'];
    assert evr[..] == copy;
    var e, v, r := 1, 0, 0;
    while evr[e] != ':' && evr[e] != '-' && evr[e] != '\0'
      invariant 1 <= e <= n
      invariant forall k :: 1 <= k < e ==> evrC[k] != ':' && evrC[k] != '-'
      decreases n - e
    {
      assert e < n;
      e := e + 1;
    }
    Separator(evrC, e);
    if evr[e] == '-' {
      evr[e] := '\0';
      v := 0;
      r := e + 1;
      SplitAtDash(evrC, e);
      assert evr[..] == copy[e := '\0'];
      e := -1;
    } else if evr[e] == '\0' {
      v := 0;
      e := -1;
      r := -1;
      SplitNowhere(evrC);
    } else {
      evr[e] := '\0';
      v := e + 1;
      ghost var colon := e;
      e := 0;
      r := v + 1;
      assert evr[..] == copy[colon := '\0'];
      while evr[r] != '-'
        invariant v + 1 <= r <= FindEither(evrC, '-', '-', v + 1) < n
        decreases n - r
      {
        r := r + 1;
      }
      EitherAt(evrC, '-', '-', v + 1, r);
      SplitAtColon(evrC, colon, r);
      evr[r] := '\0';
      assert evr[..] == copy[colon := '\0'][r := '\0'];
      r := r + 1;
    }
    epoch, version, release := e, v, r;
  }

  /** The string at an index, unless it is null. */
  function Pointed(buffer: seq<char>, p: int): Option<string>
    requires p == -1 || 0 <= p <= |buffer|
  {
    if p == -1 then None else Some(CString(buffer, p))
  }

  lemma SplitAtDash(s: string, e: nat)
    requires WellFormed(s) && FindEither(s, ':', '-', 1) == e < |s| && s[e] == '-'
    ensures var buffer := (s + ['\0'])[e := '\0'];
            Split(s) == Parts(None, CString(buffer, 0), Some(CString(buffer, e + 1)))
  {
    var buffer := (s + ['\0'])[e := '\0'];
    Terminated(s, buffer, 0, e);
    Terminated(s, buffer, e + 1, |s|);
    assert s[0..e] == s[..e] && s[e + 1..|s|] == s[e + 1..];
  }

  lemma SplitNowhere(s: string)
    requires WellFormed(s) && FindEither(s, ':', '-', 1) == |s|
    ensures Split(s) == Parts(None, CString(s + ['\0'], 0), None)
  {
    Terminated(s, s + ['\0'], 0, |s|);
  }

  lemma SplitAtColon(s: string, e: nat, r: nat)
    requires WellFormed(s) && FindEither(s, ':', '-', 1) == e < |s| && s[e] == ':'
    requires e + 2 <= |s| && FindEither(s, '-', '-', e + 2) == r < |s|
    ensures var buffer := (s + ['\0'])[e := '\0'][r := '\0'];
            Split(s) == Parts(Some(CString(buffer, 0)), CString(buffer, e + 1), Some(CString(buffer, r + 1)))
  {
    var buffer := (s + ['\0'])[e := '\0'][r := '\0'];
    Terminated(s, buffer, 0, e);
    Terminated(s, buffer, e + 1, r);
    Terminated(s, buffer, r + 1, |s|);
    assert s[0..e] == s[..e] && s[r + 1..|s|] == s[r + 1..];
  }

  lemma Separator(s: string, e: nat)
    requires s != [] && NoNul(s) && 1 <= e <= |s|
    requires forall k :: 1 <= k < e ==> s[k] != ':' && s[k] != '-'
    requires e < |s| ==> s[e] == ':' || s[e] == '-'
    ensures FindEither(s, ':', '-', 1) == e
  {
  }

  /** A part of the string that a terminator was written after. */
  lemma Terminated(s: string, buffer: seq<char>, i: nat, end: nat)
    requires NoNul(s) && |buffer| == |s| + 1 && i <= end <= |s| && buffer[end] == '\0'
    requires forall k :: i <= k < end ==> buffer[k] == s[k]
    ensures CString(buffer, i) == s[i..end]
  {
    assert buffer[i..end] == s[i..end];
    CStringAt(buffer, i, end);
  }

  /** What pool_get_epoch returns; it stops the program when the epoch is no positive number. */
  function Epoch(s: string): Option<int>
    requires WellFormed(s)
  {
    var parts := Split(s);
    if parts.epoch.None? then Some(0)
    else
      var (converted, end) := Strtol(parts.epoch.value);
      if converted > 0 && end then Some(converted) else None
  }

  method GetEpoch(evr: string) returns (epoch: Option<int>)
    requires WellFormed(evr)
    ensures epoch == Epoch(evr)
  {
    var buffer, e, v, r := SplitEvr(evr);
    var result := 0;
    if e != -1 {
      var (converted, end) := Strtol(CString(buffer[..], e));
      if !(converted > 0) || !end {
        return None;
      }
      result := converted;
    }
    epoch := Some(result);
  }

  /** Of any string with an epoch of digits: its value when that is positive, and else the program stops. */
  lemma EpochOfDigits(s: string)
    requires WellFormed(s) && Split(s).epoch.Some? && Split(s).epoch.value != [] && AllDigits(Split(s).epoch.value)
    ensures var n := Value(Split(s).epoch.value);
            Epoch(s) == if n == 0 then None else Some(if n > LONG_MAX then LONG_MAX else n)
  {
    hide Split, Strtol, WellFormed;
    StrtolDigits(Split(s).epoch.value);
  }

  /** The epoch comes back exactly when it is positive; no epoch comes back as 0, and for any other
      epoch, 0 among them, the program stops. Epochs are ints of 32 bits. */
  lemma EpochRoundTrip(epoch: int, version: string, release: string)
    requires Plain(version) && NoNul(version) && NoNul(release)
    requires -0x8000_0000 <= epoch <= 0x7fff_ffff
    ensures WellFormed(GetEvr(epoch, version, release))
    ensures Epoch(GetEvr(epoch, version, release)) ==
            if epoch > 0 then Some(epoch) else if epoch == EPOCH_NOT_SET then Some(0) else None
  {
    SplitGetEvr(epoch, version, release);
    if epoch >= 0 {
      StrtolDecimal(epoch);
    } else {
      StrtolNegative(-epoch);
    }
  }
}
