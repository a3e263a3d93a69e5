/**
 * The `URI="([^"]*)"` pattern of the tag-line rewrite: finding the leftmost match, and
 * replacing every match, left to right and without overlap, by one replacement text
 * (`firstMatch(in:)` and `stringByReplacingMatches(in:withTemplate:)`).
 */
module UriAttribute {
  import opened Wrappers
  import opened Text

  predicate IsQuote(c: char) { c == '"' }

  /** The fixed part of the pattern in front of the captured value. */
  const Opening: string := "URI=\""

  /** The captured value when the pattern matches at the very front of `t`. */
  function MatchValue(t: string): (r: Option<string>)
    ensures r.Some? ==> NoneOf(r.value, IsQuote)
    ensures r.Some? ==> |Opening| + |r.value| < |t| && t[..|Opening|] == Opening
    ensures r.Some? ==> t[|Opening|..|Opening| + |r.value|] == r.value && t[|Opening| + |r.value|] == '"'
  {
    if !StartsWith(t, Opening) then None
    else
      var (value, rest) := Break(t[|Opening|..], IsQuote);
      if rest == [] then None
      else
        assert t[|Opening|..] == value + rest;
        assert t[|Opening|..][|value|] == rest[0];
        Some(value)
  }

  /** Where the match is: how much of it comes first. */
  function MatchLength(value: string): nat { |Opening| + |value| + 1 }

  /**
   * The leftmost match in `s`: its start and its captured value, or None when the pattern
   * matches nowhere.
   */
  function FindMatch(s: string): (r: Option<(nat, string)>)
    ensures r.Some? ==> r.value.0 < |s| && MatchValue(s[r.value.0..]) == Some(r.value.1)
    ensures r.Some? ==> forall j {:trigger MatchValue(s[j..])} :: 0 <= j < r.value.0 ==> MatchValue(s[j..]).None?
    ensures r.None? ==> forall j {:trigger MatchValue(s[j..])} :: 0 <= j <= |s| ==> MatchValue(s[j..]).None?
    decreases |s|
  {
    if s == [] then None
    else match MatchValue(s)
      case Some(v) => Some((0, v))
      case None =>
        match FindMatch(s[1..])
        case None =>
          assert forall j :: 1 <= j <= |s| ==> s[j..] == s[1..][j - 1..];
          None
        case Some((i, v)) =>
          assert forall j :: 1 <= j <= |s| ==> s[j..] == s[1..][j - 1..];
          Some((i + 1, v))
  }

  /** A line cut into the text between matches and the captured values of the matches. */
  datatype Piece = Text(text: string) | Uri(value: string)

  /** The line cut at every match, left to right. */
  function Scan(s: string): seq<Piece>
    decreases |s|
  {
    match FindMatch(s)
    case None => [Text(s)]
    case Some((i, v)) =>
      assert i + MatchLength(v) <= |s| by {
        assert |Opening| + |v| < |s[i..]|;
      }
      [Text(s[..i]), Uri(v)] + Scan(s[i + MatchLength(v)..])
  }

  /** The text the pieces were cut from. */
  function Original(pieces: seq<Piece>): string
  {
    if pieces == [] then []
    else
      (match pieces[0]
       case Text(t) => t
       case Uri(v) => Opening + v + "\"") + Original(pieces[1..])
  }

  /** The pieces with every match replaced by `repl`. */
  function Render(pieces: seq<Piece>, repl: string): string
  {
    if pieces == [] then []
    else
      (match pieces[0]
       case Text(t) => t
       case Uri(_) => repl) + Render(pieces[1..], repl)
  }

  /** `stringByReplacingMatches` with a literal replacement. */
  function ReplaceAll(s: string, repl: string): string
  {
    Render(Scan(s), repl)
  }

  lemma MatchText(t: string, v: string)
    requires MatchValue(t) == Some(v)
    ensures t[..MatchLength(v)] == Opening + v + "\""
  {
    var n := |Opening|;
    assert t[..MatchLength(v)] == t[..n] + t[n..n + |v|] + [t[n + |v|]];
  }

  lemma {:induction false} OriginalAppend(a: seq<Piece>, b: seq<Piece>)
    ensures Original(a + b) == Original(a) + Original(b)
  {
    if a == [] {
      assert a + b == b;
    } else {
      assert (a + b)[1..] == a[1..] + b;
      OriginalAppend(a[1..], b);
    }
  }

  lemma {:induction false} RenderAppend(a: seq<Piece>, b: seq<Piece>, repl: string)
    ensures Render(a + b, repl) == Render(a, repl) + Render(b, repl)
  {
    if a == [] {
      assert a + b == b;
    } else {
      assert (a + b)[1..] == a[1..] + b;
      RenderAppend(a[1..], b, repl);
    }
  }

  /** The pieces of a line that has a match: the text before it, the match, and the rest. */
  lemma ScanMatch(s: string, i: nat, v: string)
    requires FindMatch(s) == Some((i, v))
    ensures i + MatchLength(v) <= |s|
    ensures s == s[..i] + (Opening + v + "\"") + s[i + MatchLength(v)..]
    ensures Scan(s) == [Text(s[..i]), Uri(v)] + Scan(s[i + MatchLength(v)..])
  {
    MatchText(s[i..], v);
    SliceJoin(s, i, MatchLength(v));
  }

  lemma SliceJoin(s: string, i: nat, n: nat)
    requires i + n <= |s|
    ensures s[i..][..n] == s[i..i + n]
    ensures s == s[..i] + s[i..i + n] + s[i + n..]
  {
  }

  /** Cutting loses nothing: the pieces put back together give the line. */
  lemma {:induction false} ScanLossless(s: string)
    ensures Original(Scan(s)) == s
    decreases |s|
  {
    match FindMatch(s)
    case None =>
      assert Original([Text(s)]) == s + Original([]);
    case Some((i, v)) =>
      var rest := s[i + MatchLength(v)..];
      ScanMatch(s, i, v);
      ScanLossless(rest);
      OriginalAppend([Text(s[..i]), Uri(v)], Scan(rest));
      assert Original([Text(s[..i]), Uri(v)]) == s[..i] + (Opening + v + "\"") by {
        assert [Text(s[..i]), Uri(v)][1..] == [Uri(v)];
        assert Original([Uri(v)]) == (Opening + v + "\"") + Original([]);
      }
  }

  /** A line without a match is left as it is. */
  lemma ReplaceAllNoMatch(s: string, repl: string)
    requires FindMatch(s).None?
    ensures ReplaceAll(s, repl) == s
  {
    assert Render([Text(s)], repl) == s + Render([], repl);
  }

  /** The first captured value is the one `firstMatch` reports. */
  lemma ScanFirstMatch(s: string)
    requires FindMatch(s).Some?
    ensures |Scan(s)| >= 2 && Scan(s)[1] == Uri(FindMatch(s).value.1)
    ensures Scan(s)[0] == Text(s[..FindMatch(s).value.0])
  {
  }

  /** `s` holds `URI="` nowhere. */
  predicate NoOpening(s: string)
  {
    forall j :: 0 <= j <= |s| ==> !StartsWith(s[j..], Opening)
  }

  /**
   * Nothing in front of an attribute can start a match when it holds no `URI="`, whatever
   * quoted attributes it has: `#EXT-X-MEDIA:GROUP-ID="aac",URI="a.m3u8"` matches at `URI=`.
   */
  lemma {:induction false} NoMatchBefore(pre: string, v: string, post: string)
    requires NoOpening(pre) && NoneOf(v, IsQuote)
    ensures FindMatch(pre + Opening + v + "\"" + post) == Some((|pre|, v))
    decreases |pre|
  {
    var s := pre + Opening + v + "\"" + post;
    if pre == [] {
      assert s == Opening + (v + ("\"" + post));
      assert s[|Opening|..] == v + ("\"" + post);
      BreakAt(v, "\"" + post, IsQuote);
    } else {
      assert !StartsWith(s, Opening) by {
        if |pre| >= |Opening| {
          assert !StartsWith(pre[0..], Opening);
          assert s[..|Opening|] == pre[..|Opening|];
        } else {
          assert s[|pre|] == 'U';
          assert Opening[|pre|] != 'U';
        }
      }
      assert s[1..] == pre[1..] + Opening + v + "\"" + post;
      assert NoOpening(pre[1..]) by {
        forall j | 0 <= j <= |pre[1..]| ensures !StartsWith(pre[1..][j..], Opening) {
          assert pre[1..][j..] == pre[j + 1..];
        }
      }
      NoMatchBefore(pre[1..], v, post);
    }
  }

  /**
   * A tag line whose first match is the attribute `URI="v"`, with no match after it,
   * becomes the line with that attribute replaced and everything else unchanged.
   */
  lemma SingleAttributeRewrite(pre: string, v: string, post: string, repl: string)
    requires FindMatch(pre + Opening + v + "\"" + post) == Some((|pre|, v)) && FindMatch(post).None?
    ensures ReplaceAll(pre + Opening + v + "\"" + post, repl) == pre + repl + post
  {
    var s := pre + Opening + v + "\"" + post;
    ReplaceAllStep(s, repl, |pre|, v);
    assert s[..|pre|] == pre;
    assert s[|pre| + MatchLength(v)..] == post;
    ReplaceAllNoMatch(post, repl);
  }

  lemma RenderMatch(front: string, v: string, repl: string)
    ensures Render([Text(front), Uri(v)], repl) == front + repl
  {
    var p := [Text(front), Uri(v)];
    assert p[0] == Text(front) && p[1..] == [Uri(v)];
    assert Render([Uri(v)], repl) == repl by {
      assert [Uri(v)][1..] == [];
    }
  }

  lemma ReplaceAllSplit(s: string, repl: string, front: string, v: string, rest: string)
    requires Scan(s) == [Text(front), Uri(v)] + Scan(rest)
    ensures ReplaceAll(s, repl) == front + repl + ReplaceAll(rest, repl)
  {
    RenderMatch(front, v, repl);
    RenderAppend([Text(front), Uri(v)], Scan(rest), repl);
  }

  /** Replacing in a line with a match: the text before it, the replacement, and the rest replaced. */
  lemma ReplaceAllStep(s: string, repl: string, i: nat, v: string)
    requires FindMatch(s) == Some((i, v))
    ensures i + MatchLength(v) <= |s|
    ensures ReplaceAll(s, repl) == s[..i] + repl + ReplaceAll(s[i + MatchLength(v)..], repl)
  {
    ScanMatch(s, i, v);
    ReplaceAllSplit(s, repl, s[..i], v, s[i + MatchLength(v)..]);
  }

  /** Replacing with a text that has no `q` character adds none to a line that has none. */
  lemma {:induction false} ReplaceAllNoneOf(s: string, repl: string, q: char -> bool)
    requires NoneOf(s, q) && NoneOf(repl, q)
    ensures NoneOf(ReplaceAll(s, repl), q)
    decreases |s|
  {
    var m := FindMatch(s);
    if m.None? {
      ReplaceAllNoMatch(s, repl);
    } else {
      var i, v := m.value.0, m.value.1;
      ReplaceAllStep(s, repl, i, v);
      var front, rest := s[..i], s[i + MatchLength(v)..];
      assert NoneOf(ReplaceAll(rest, repl), q) by {
        NoneOfSuffix(s, i + MatchLength(v), q);
        ReplaceAllNoneOf(rest, repl, q);
      }
      assert NoneOf(front, q) by {
        forall k | 0 <= k < i ensures !q(front[k]) {
          assert front[k] == s[k];
        }
      }
      NoneOfAppend(front, repl, q);
      NoneOfAppend(front + repl, ReplaceAll(rest, repl), q);
    }
  }
}
