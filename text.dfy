/**
 * String helpers shared by the URL parser and the playlist rewriter: prefix tests,
 * breaking a string at the first separator, and splitting/joining on separators
 * (the shape of Foundation's `components(separatedBy:)` and `joined(separator:)`).
 */
module Text {

  predicate StartsWith(s: string, prefix: string)
  {
    |prefix| <= |s| && s[..|prefix|] == prefix
  }

  predicate EndsWith(s: string, suffix: string)
  {
    |suffix| <= |s| && s[|s| - |suffix|..] == suffix
  }

  /** No character of `s` satisfies `p`. */
  predicate NoneOf(s: string, p: char -> bool)
  {
    forall i :: 0 <= i < |s| ==> !p(s[i])
  }

  /** Every character of `s` satisfies `p`. */
  predicate AllOf(s: string, p: char -> bool)
  {
    forall i :: 0 <= i < |s| ==> p(s[i])
  }

  /**
   * Splits `s` before its first character that satisfies `stop`: the part before it
   * holds no such character and the rest is empty or starts with one.
   */
  function Break(s: string, stop: char -> bool): (r: (string, string))
    ensures r.0 + r.1 == s
    ensures NoneOf(r.0, stop)
    ensures r.1 != [] ==> stop(r.1[0])
  {
    if s == [] then ([], [])
    else if stop(s[0]) then ([], s)
    else
      var (a, b) := Break(s[1..], stop);
      assert [s[0]] + a + b == s;
      ([s[0]] + a, b)
  }

  /** There is only one such split, so Break can be computed from any candidate. */
  lemma {:induction false} BreakAt(a: string, b: string, stop: char -> bool)
    requires NoneOf(a, stop)
    requires b != [] ==> stop(b[0])
    ensures Break(a + b, stop) == (a, b)
  {
    if a == [] {
      assert a + b == b;
    } else {
      assert (a + b)[0] == a[0] && (a + b)[1..] == a[1..] + b;
      BreakAt(a[1..], b, stop);
      assert [a[0]] + a[1..] == a;
    }
  }

  lemma NoneOfSuffix(s: string, k: nat, p: char -> bool)
    requires NoneOf(s, p) && k <= |s|
    ensures NoneOf(s[k..], p)
  {
    forall i | 0 <= i < |s| - k ensures !p(s[k..][i]) {
      assert s[k..][i] == s[k + i];
    }
  }

  lemma AllOfSlice(s: string, i: nat, j: nat, p: char -> bool)
    requires AllOf(s, p) && i <= j <= |s|
    ensures AllOf(s[i..j], p)
  {
    forall k | 0 <= k < j - i ensures p(s[i..j][k]) {
      assert s[i..j][k] == s[i + k];
    }
  }

  lemma NoneOfAppend(a: string, b: string, p: char -> bool)
    requires NoneOf(a, p) && NoneOf(b, p)
    ensures NoneOf(a + b, p)
  {
    forall i | 0 <= i < |a + b| ensures !p((a + b)[i]) {
      if i >= |a| { assert (a + b)[i] == b[i - |a|]; }
    }
  }

  lemma AllOfAppend(a: string, b: string, p: char -> bool)
    requires AllOf(a, p) && AllOf(b, p)
    ensures AllOf(a + b, p)
  {
    forall i | 0 <= i < |a + b| ensures p((a + b)[i]) {
      if i >= |a| { assert (a + b)[i] == b[i - |a|]; }
    }
  }

  /** The pieces of `s` between the characters that satisfy `isSep`. */
  function Split(s: string, isSep: char -> bool): (r: seq<string>)
    ensures |r| >= 1
    decreases |s|
  {
    var (piece, rest) := Break(s, isSep);
    if rest == [] then [piece] else [piece] + Split(rest[1..], isSep)
  }

  /** The parts with `sep` between each two neighbours. */
  function Join(parts: seq<string>, sep: char): string
  {
    if |parts| == 0 then []
    else if |parts| == 1 then parts[0]
    else parts[0] + [sep] + Join(parts[1..], sep)
  }

  /** `s` with every separator character replaced by `sep`. */
  function Normalize(s: string, isSep: char -> bool, sep: char): string
  {
    if s == [] then [] else [if isSep(s[0]) then sep else s[0]] + Normalize(s[1..], isSep, sep)
  }

  /** The number of separator characters in `s`. */
  function CountOf(s: string, isSep: char -> bool): nat
  {
    if s == [] then 0 else (if isSep(s[0]) then 1 else 0) + CountOf(s[1..], isSep)
  }

  lemma {:induction false} CountOfAppend(a: string, b: string, isSep: char -> bool)
    ensures CountOf(a + b, isSep) == CountOf(a, isSep) + CountOf(b, isSep)
  {
    if a == [] {
      assert a + b == b;
    } else {
      assert (a + b)[1..] == a[1..] + b;
      CountOfAppend(a[1..], b, isSep);
    }
  }

  lemma {:induction false} CountOfNone(s: string, isSep: char -> bool)
    requires NoneOf(s, isSep)
    ensures CountOf(s, isSep) == 0
  {
    if s != [] {
      CountOfNone(s[1..], isSep);
    }
  }

  /** No piece of a split contains a separator. */
  lemma {:induction false} SplitPiecesClean(s: string, isSep: char -> bool)
    ensures forall k :: 0 <= k < |Split(s, isSep)| ==> NoneOf(Split(s, isSep)[k], isSep)
    decreases |s|
  {
    var (piece, rest) := Break(s, isSep);
    if rest != [] {
      SplitPiecesClean(rest[1..], isSep);
    }
  }

  /** A split has one piece more than the string has separators. */
  lemma {:induction false} SplitCount(s: string, isSep: char -> bool)
    ensures |Split(s, isSep)| == CountOf(s, isSep) + 1
    decreases |s|
  {
    var (piece, rest) := Break(s, isSep);
    CountOfNone(piece, isSep);
    CountOfAppend(piece, rest, isSep);
    if rest != [] {
      assert rest == [rest[0]] + rest[1..];
      CountOfAppend([rest[0]], rest[1..], isSep);
      SplitCount(rest[1..], isSep);
    }
  }

  lemma {:induction false} NormalizeAppend(a: string, b: string, isSep: char -> bool, sep: char)
    ensures Normalize(a + b, isSep, sep) == Normalize(a, isSep, sep) + Normalize(b, isSep, sep)
  {
    if a == [] {
      assert a + b == b;
    } else {
      assert (a + b)[1..] == a[1..] + b;
      NormalizeAppend(a[1..], b, isSep, sep);
    }
  }

  lemma {:induction false} NormalizeClean(s: string, isSep: char -> bool, sep: char)
    requires NoneOf(s, isSep)
    ensures Normalize(s, isSep, sep) == s
  {
    if s != [] {
      NormalizeClean(s[1..], isSep, sep);
    }
  }

  /** A string whose only separator character is `sep` itself is its own normalisation. */
  lemma {:induction false} NormalizeFixed(s: string, isSep: char -> bool, sep: char)
    requires forall i :: 0 <= i < |s| && isSep(s[i]) ==> s[i] == sep
    ensures Normalize(s, isSep, sep) == s
  {
    if s != [] {
      assert forall i :: 0 <= i < |s[1..]| ==> s[1..][i] == s[i + 1];
      NormalizeFixed(s[1..], isSep, sep);
    }
  }

  /**
   * Joining the pieces of a split gives the string back with every separator
   * replaced by `sep`: the line-separator normalisation of the playlist rewrite.
   */
  lemma {:induction false} JoinSplit(s: string, isSep: char -> bool, sep: char)
    requires isSep(sep)
    ensures Join(Split(s, isSep), sep) == Normalize(s, isSep, sep)
    decreases |s|
  {
    var (piece, rest) := Break(s, isSep);
    NormalizeClean(piece, isSep, sep);
    NormalizeAppend(piece, rest, isSep, sep);
    if rest != [] {
      JoinSplit(rest[1..], isSep, sep);
      assert rest == [rest[0]] + rest[1..];
      NormalizeAppend([rest[0]], rest[1..], isSep, sep);
      var tail := Split(rest[1..], isSep);
      assert Split(s, isSep) == [piece] + tail;
      assert ([piece] + tail)[1..] == tail;
    }
  }

  /** Splitting a join of separator-free parts gives the parts back. */
  lemma {:induction false} SplitJoin(parts: seq<string>, sep: char, isSep: char -> bool)
    requires |parts| >= 1 && isSep(sep)
    requires forall k :: 0 <= k < |parts| ==> NoneOf(parts[k], isSep)
    ensures Split(Join(parts, sep), isSep) == parts
  {
    if |parts| == 1 {
      BreakAt(parts[0], [], isSep);
      assert parts[0] + [] == parts[0];
    } else {
      var tail := Join(parts[1..], sep);
      assert parts[0] + [sep] + tail == parts[0] + ([sep] + tail);
      BreakAt(parts[0], [sep] + tail, isSep);
      assert ([sep] + tail)[1..] == tail;
      SplitJoin(parts[1..], sep, isSep);
      assert parts == [parts[0]] + parts[1..];
    }
  }
}
