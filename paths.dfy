/**
 * Path algebra of Foundation's URL that the proxy relies on: `pathExtension`,
 * `deletingLastPathComponent`, and the dot-segment removal of `.standardized`
 * (section 5.2.4 of RFC 3986, applied to absolute paths).
 */
module Paths {
  import opened Text
  import opened Urls
  import PercentCoding

  // ----- last component and extension -----

  function StripTrailingSlashes(p: string): (r: string)
    ensures |r| <= |p| && r == p[..|r|]
    ensures r == [] || r[|r| - 1] != '/'
  {
    if p != [] && p[|p| - 1] == '/' then StripTrailingSlashes(p[..|p| - 1]) else p
  }

  predicate IsDot(c: char) { c == '.' }

  /** The part of `s` after its last `mark`, or all of `s` when there is none. */
  function AfterLast(s: string, mark: char -> bool): (r: string)
    ensures |r| <= |s| && r == s[|s| - |r|..]
    ensures NoneOf(r, mark)
    ensures |r| < |s| ==> mark(s[|s| - |r| - 1])
  {
    if s == [] then []
    else if mark(s[|s| - 1]) then []
    else
      var r := AfterLast(s[..|s| - 1], mark);
      AfterLastStep(s, r, mark);
      r + [s[|s| - 1]]
  }

  /** One more character that is not a mark extends the part after the last mark. */
  lemma AfterLastStep(s: string, r: string, mark: char -> bool)
    requires s != [] && !mark(s[|s| - 1])
    requires |r| <= |s| - 1 && r == s[..|s| - 1][|s| - 1 - |r|..] && NoneOf(r, mark)
    requires |r| < |s| - 1 ==> mark(s[|s| - |r| - 2])
    ensures r + [s[|s| - 1]] == s[|s| - (|r| + 1)..]
    ensures NoneOf(r + [s[|s| - 1]], mark)
  {
    var t := r + [s[|s| - 1]];
    assert t == s[|s| - (|r| + 1)..];
    forall i | 0 <= i < |t| ensures !mark(t[i]) {
      if i < |r| { assert t[i] == r[i]; }
    }
  }

  /** `lastPathComponent`: the final component, ignoring trailing slashes. */
  function LastPathComponent(p: string): (r: string)
    ensures NoneOf(r, IsSlash)
  {
    AfterLast(StripTrailingSlashes(p), IsSlash)
  }

  /**
   * `pathExtension`: what follows the last `.` of the final component, or nothing when
   * that component has no `.` with a character before it.
   */
  function PathExtension(p: string): (r: string)
    ensures NoneOf(r, IsDot) && NoneOf(r, IsSlash)
    ensures r != [] ==> |r| + 1 < |LastPathComponent(p)| && EndsWith(LastPathComponent(p), "." + r)
  {
    var comp := LastPathComponent(p);
    var ext := AfterLast(comp, IsDot);
    if |ext| + 1 < |comp| then
      ExtensionFacts(comp, ext);
      ext
    else []
  }

  lemma ExtensionFacts(comp: string, ext: string)
    requires NoneOf(comp, IsSlash) && |ext| + 1 < |comp|
    requires ext == comp[|comp| - |ext|..] && comp[|comp| - |ext| - 1] == '.'
    ensures NoneOf(ext, IsSlash) && EndsWith(comp, "." + ext)
  {
    var k := |comp| - |ext|;
    NoneOfSuffix(comp, k, IsSlash);
    var tail := comp[k - 1..];
    assert tail[0] == '.';
    assert tail[1..] == ext;
    assert tail == [tail[0]] + tail[1..];
  }

  /** AfterLast is determined by its contract: the suffix after a mark, holding no mark. */
  lemma {:induction false} AfterLastIs(a: string, b: string, mark: char -> bool)
    requires a == [] || mark(a[|a| - 1])
    requires NoneOf(b, mark)
    ensures AfterLast(a + b, mark) == b
    decreases |b|
  {
    var s := a + b;
    if b == [] {
      assert s == a;
      if a != [] {
        assert mark(s[|s| - 1]);
      }
    } else {
      var init, last := b[..|b| - 1], b[|b| - 1];
      assert s[..|s| - 1] == a + init && s[|s| - 1] == last;
      assert !mark(last);
      assert NoneOf(init, mark) by {
        forall i | 0 <= i < |init| ensures !mark(init[i]) { assert init[i] == b[i]; }
      }
      assert AfterLast(a + init, mark) == init by { AfterLastIs(a, init, mark); }
      assert AfterLast(s, mark) == AfterLast(a + init, mark) + [last];
      assert init + [last] == b;
    }
  }

  /**
   * The last component of `dir` + a slash-free name is that name, with or without
   * trailing slashes after it.
   */
  lemma LastPathComponentOf(dir: string, comp: string, trail: string)
    requires dir == [] || dir[|dir| - 1] == '/'
    requires |comp| > 0 && NoneOf(comp, IsSlash) && AllOf(trail, IsSlash)
    ensures LastPathComponent(dir + comp + trail) == comp
  {
    var p := dir + comp;
    assert p[|p| - 1] == comp[|comp| - 1];
    StripTrailingSlashesOf(p, trail);
    AfterLastIs(dir, comp, IsSlash);
  }

  /**
   * A path whose last component is `name.ext`, with no `.` in `ext`, has extension `ext`,
   * with or without trailing slashes after it.
   */
  lemma PathExtensionOf(dir: string, name: string, ext: string, trail: string)
    requires dir == [] || dir[|dir| - 1] == '/'
    requires |name| > 0 && NoneOf(name, IsSlash)
    requires |ext| > 0 && NoneOf(ext, IsDot) && NoneOf(ext, IsSlash)
    requires AllOf(trail, IsSlash)
    ensures PathExtension(dir + name + "." + ext + trail) == ext
  {
    var stem := name + ".";
    var comp := stem + ext;
    assert dir + name + "." + ext + trail == dir + comp + trail;
    assert NoneOf(comp, IsSlash) by {
      NoneOfAppend(name, ".", IsSlash);
      NoneOfAppend(stem, ext, IsSlash);
    }
    LastPathComponentOf(dir, comp, trail);
    assert AfterLast(comp, IsDot) == ext by {
      assert stem[|stem| - 1] == '.';
      AfterLastIs(stem, ext, IsDot);
    }
  }

  // ----- deletingLastPathComponent -----

  /**
   * The directory of a path (`deletingLastPathComponent`): trailing slashes are dropped,
   * then everything up to and including the last `/` is kept; a path with no other `/`
   * has the root as its directory.
   */
  function Directory(p: string): (r: string)
    ensures |r| > 0 && r[|r| - 1] == '/'
    ensures StartsWith(p, "/") ==> |r| <= |p| && r == p[..|r|]
    ensures var s := StripTrailingSlashes(p);
      StartsWith(s, "/") ==> |r| <= |s| && r == s[..|r|] && NoneOf(s[|r|..], IsSlash)
    ensures NoneOf(StripTrailingSlashes(p), IsSlash) ==> r == "/"
  {
    var s := StripTrailingSlashes(p);
    var last := AfterLast(s, IsSlash);
    if |last| == |s| then
      assert s != [] ==> s[0] == last[0];
      "/"
    else
      assert s[..|s| - |last|][|s| - |last| - 1] == '/';
      assert s[|s| - |last|..] == last;
      s[..|s| - |last|]
  }

  /** Trailing slashes after a text that does not end in one are all dropped. */
  lemma {:induction false} StripTrailingSlashesOf(s: string, trail: string)
    requires s != [] && s[|s| - 1] != '/' && AllOf(trail, IsSlash)
    ensures StripTrailingSlashes(s + trail) == s
    decreases |trail|
  {
    if trail == [] {
      assert s + trail == s;
    } else {
      var t := s + trail;
      assert t[|t| - 1] == '/';
      assert t[..|t| - 1] == s + trail[..|trail| - 1];
      AllOfSlice(trail, 0, |trail| - 1, IsSlash);
      StripTrailingSlashesOf(s, trail[..|trail| - 1]);
    }
  }

  /**
   * The directory of `dir` + a slash-free name, with or without trailing slashes, is `dir`:
   * only the last component is removed.
   */
  lemma DirectoryOf(dir: string, name: string, trail: string)
    requires dir != [] && dir[|dir| - 1] == '/'
    requires name != [] && NoneOf(name, IsSlash) && AllOf(trail, IsSlash)
    ensures Directory(dir + name + trail) == dir
  {
    var s := dir + name;
    assert s[|s| - 1] == name[|name| - 1];
    StripTrailingSlashesOf(s, trail);
    AfterLastIs(dir, name, IsSlash);
    assert s[..|s| - |name|] == dir;
  }

  // ----- dot segments -----

  predicate IsDotSegment(s: string) { s == "." || s == ".." }

  /** A path segment: valid path text with no `/`. */
  predicate ValidSegment(s: string) { ValidPath(s) && NoneOf(s, IsSlash) }

  predicate CleanSegments(segs: seq<string>)
  {
    forall k :: 0 <= k < |segs| ==> !IsDotSegment(segs[k]) && ValidSegment(segs[k])
  }

  /**
   * Consumes the segments left to right, keeping an output stack: `.` is dropped,
   * `..` drops the last kept segment (never above the root), and a final `.` or `..`
   * leaves a trailing slash.
   */
  function RemoveDots(segs: seq<string>, stack: seq<string>): seq<string>
  {
    if segs == [] then stack
    else if IsDotSegment(segs[0]) then
      var kept := if segs[0] == ".." && stack != [] then stack[..|stack| - 1] else stack;
      if |segs| == 1 then kept + [""] else RemoveDots(segs[1..], kept)
    else RemoveDots(segs[1..], stack + [segs[0]])
  }

  /** `.standardized` on a path: dot segments removed from an absolute path. */
  function RemoveDotSegments(p: string): string
  {
    if !StartsWith(p, "/") then p
    else "/" + Join(RemoveDots(Split(p[1..], IsSlash), []), '/')
  }

  /** The path has the leading `/` and no `.` or `..` segment. */
  predicate NoDotSegments(p: string)
  {
    StartsWith(p, "/") &&
    forall k :: 0 <= k < |Split(p[1..], IsSlash)| ==> !IsDotSegment(Split(p[1..], IsSlash)[k])
  }

  /** `.standardized` on a URL: its path with dot segments removed, the rest unchanged. */
  function Standardized(u: Url): Url
  {
    u.(path := RemoveDotSegments(u.path))
  }

  lemma {:induction false} RemoveDotsClean(segs: seq<string>, stack: seq<string>)
    requires forall k :: 0 <= k < |segs| ==> ValidSegment(segs[k])
    requires CleanSegments(stack)
    ensures CleanSegments(RemoveDots(segs, stack))
    ensures segs != [] ==> RemoveDots(segs, stack) != []
  {
    if segs != [] {
      if IsDotSegment(segs[0]) {
        var kept := if segs[0] == ".." && stack != [] then stack[..|stack| - 1] else stack;
        assert CleanSegments(kept);
        if |segs| > 1 {
          RemoveDotsClean(segs[1..], kept);
        } else {
          assert ValidSegment("");
          assert (kept + [""])[|kept|] == "";
        }
      } else {
        RemoveDotsClean(segs[1..], stack + [segs[0]]);
      }
    }
  }

  lemma {:induction false} RemoveDotsIdentity(segs: seq<string>, stack: seq<string>)
    requires forall k :: 0 <= k < |segs| ==> !IsDotSegment(segs[k])
    ensures RemoveDots(segs, stack) == stack + segs
  {
    if segs == [] {
      assert stack + segs == stack;
    } else {
      RemoveDotsIdentity(segs[1..], stack + [segs[0]]);
      assert stack + [segs[0]] + segs[1..] == stack + segs;
    }
  }

  lemma EscapesCompleteAppend(a: string, b: string)
    requires EscapesComplete(a) && EscapesComplete(b)
    ensures EscapesComplete(a + b)
  {
    var s := a + b;
    forall i | 0 <= i < |s| && s[i] == '%'
      ensures i + 2 < |s| && PercentCoding.IsHexDigit(s[i + 1]) && PercentCoding.IsHexDigit(s[i + 2])
    {
      if i < |a| {
        assert a[i] == '%';
      } else {
        assert b[i - |a|] == '%';
      }
    }
  }

  lemma EscapesCompleteSuffix(s: string, k: nat)
    requires EscapesComplete(s) && k <= |s|
    ensures EscapesComplete(s[k..])
  {
    var t := s[k..];
    forall i | 0 <= i < |t| && t[i] == '%'
      ensures i + 2 < |t| && PercentCoding.IsHexDigit(t[i + 1]) && PercentCoding.IsHexDigit(t[i + 2])
    {
      assert s[k + i] == '%';
    }
  }

  /** An escape cannot run past a character that is not a hexadecimal digit. */
  lemma EscapesCompletePrefix(a: string, b: string)
    requires EscapesComplete(a + b)
    requires b != [] ==> !PercentCoding.IsHexDigit(b[0])
    ensures EscapesComplete(a)
  {
    var s := a + b;
    forall i | 0 <= i < |a| && a[i] == '%'
      ensures i + 2 < |a| && PercentCoding.IsHexDigit(a[i + 1]) && PercentCoding.IsHexDigit(a[i + 2])
    {
      assert s[i] == '%';
      assert b != [] ==> s[|a|] == b[0];
      assert i + 1 < |a|;
      assert i + 2 < |a|;
      assert s[i + 1] == a[i + 1] && s[i + 2] == a[i + 2];
    }
  }

  /** Each segment of a valid path is a valid segment. */
  lemma {:induction false} SplitValidSegments(s: string)
    requires ValidPath(s)
    ensures forall k :: 0 <= k < |Split(s, IsSlash)| ==> ValidSegment(Split(s, IsSlash)[k])
    decreases |s|
  {
    var (piece, rest) := Break(s, IsSlash);
    AllOfSlice(s, 0, |piece|, IsPathChar);
    assert s[0..|piece|] == piece;
    EscapesCompletePrefix(piece, rest);
    SplitPiecesClean(s, IsSlash);
    if rest != [] {
      assert rest[1..] == s[|piece| + 1..];
      AllOfSlice(s, |piece| + 1, |s|, IsPathChar);
      EscapesCompleteSuffix(s, |piece| + 1);
      SplitValidSegments(rest[1..]);
    }
  }

  lemma {:induction false} JoinValidPath(parts: seq<string>)
    requires forall k :: 0 <= k < |parts| ==> ValidPath(parts[k])
    ensures ValidPath(Join(parts, '/'))
  {
    if |parts| > 1 {
      JoinValidPath(parts[1..]);
      var tail := Join(parts[1..], '/');
      AllOfAppend(parts[0], "/", IsPathChar);
      AllOfAppend(parts[0] + "/", tail, IsPathChar);
      EscapesCompleteAppend(parts[0], "/");
      EscapesCompleteAppend(parts[0] + "/", tail);
    }
  }

  /**
   * Removing dot segments from an absolute path leaves an absolute path with no dot
   * segment, and keeps a valid path valid.
   */
  lemma RemoveDotSegmentsClean(p: string)
    requires StartsWith(p, "/")
    ensures NoDotSegments(RemoveDotSegments(p))
    ensures ValidPath(p) ==> ValidPath(RemoveDotSegments(p))
  {
    var segs := Split(p[1..], IsSlash);
    SplitPiecesClean(p[1..], IsSlash);
    var out: seq<string>;
    if ValidPath(p) {
      AllOfSlice(p, 1, |p|, IsPathChar);
      EscapesCompleteSuffix(p, 1);
      SplitValidSegments(p[1..]);
      RemoveDotsClean(segs, []);
      out := RemoveDots(segs, []);
      JoinValidPath(out);
      AllOfAppend("/", Join(out, '/'), IsPathChar);
      EscapesCompleteAppend("/", Join(out, '/'));
    } else {
      RemoveDotsShape(segs, []);
      out := RemoveDots(segs, []);
    }
    var r := RemoveDotSegments(p);
    assert r[1..] == Join(out, '/');
    SplitJoin(out, '/', IsSlash);
  }

  /** Without the validity side: the stack holds no dot segment and no slash. */
  lemma {:induction false} RemoveDotsShape(segs: seq<string>, stack: seq<string>)
    requires forall k :: 0 <= k < |segs| ==> NoneOf(segs[k], IsSlash)
    requires forall k :: 0 <= k < |stack| ==> !IsDotSegment(stack[k]) && NoneOf(stack[k], IsSlash)
    requires segs != [] || stack != []
    ensures var out := RemoveDots(segs, stack);
      out != [] && forall k :: 0 <= k < |out| ==> !IsDotSegment(out[k]) && NoneOf(out[k], IsSlash)
  {
    if segs != [] {
      if IsDotSegment(segs[0]) {
        var kept := if segs[0] == ".." && stack != [] then stack[..|stack| - 1] else stack;
        if |segs| > 1 {
          RemoveDotsShape(segs[1..], kept);
        } else {
          assert (kept + [""])[|kept|] == "";
        }
      } else {
        RemoveDotsShape(segs[1..], stack + [segs[0]]);
      }
    }
  }

  /** A path without dot segments is left unchanged. */
  lemma RemoveDotSegmentsIdentity(p: string)
    requires NoDotSegments(p)
    ensures RemoveDotSegments(p) == p
  {
    var segs := Split(p[1..], IsSlash);
    RemoveDotsIdentity(segs, []);
    assert [] + segs == segs;
    JoinSplit(p[1..], IsSlash, '/');
    NormalizeFixed(p[1..], IsSlash, '/');
    assert "/" + p[1..] == p;
  }

  /** Standardising twice is standardising once. */
  lemma RemoveDotSegmentsIdempotent(p: string)
    ensures RemoveDotSegments(RemoveDotSegments(p)) == RemoveDotSegments(p)
  {
    if StartsWith(p, "/") {
      RemoveDotSegmentsClean(p);
      RemoveDotSegmentsIdentity(RemoveDotSegments(p));
    }
  }

  predicate NoSlashes(segs: seq<string>)
  {
    forall k :: 0 <= k < |segs| ==> NoneOf(segs[k], IsSlash)
  }

  predicate NoDots(segs: seq<string>)
  {
    forall k :: 0 <= k < |segs| ==> !IsDotSegment(segs[k])
  }

  /** Segments without dots in front are moved onto the stack unchanged. */
  lemma {:induction false} RemoveDotsPrefix(xs: seq<string>, rest: seq<string>, stack: seq<string>)
    requires NoDots(xs)
    ensures RemoveDots(xs + rest, stack) == RemoveDots(rest, stack + xs)
  {
    if xs != [] {
      assert (xs + rest)[0] == xs[0] && (xs + rest)[1..] == xs[1..] + rest;
      RemoveDotsPrefix(xs[1..], rest, stack + [xs[0]]);
      assert stack + [xs[0]] + xs[1..] == stack + xs;
    } else {
      assert xs + rest == rest && stack + xs == stack;
    }
  }

  /** `.standardized` on an absolute path acts on the segments after its leading `/`. */
  lemma RemoveDotSegmentsOfSegments(segs: seq<string>)
    requires |segs| >= 1 && NoSlashes(segs)
    ensures RemoveDotSegments("/" + Join(segs, '/')) == "/" + Join(RemoveDots(segs, []), '/')
  {
    var p := "/" + Join(segs, '/');
    assert p[1..] == Join(segs, '/');
    SplitJoin(segs, '/', IsSlash);
  }

  lemma NoSlashesAppend(a: seq<string>, b: seq<string>)
    requires NoSlashes(a) && NoSlashes(b)
    ensures NoSlashes(a + b)
  {
    forall k | 0 <= k < |a + b| ensures NoneOf((a + b)[k], IsSlash) {
      if k < |a| { assert (a + b)[k] == a[k]; } else { assert (a + b)[k] == b[k - |a|]; }
    }
  }

  lemma RemoveDotsUp(xs: seq<string>, s: string, ys: seq<string>)
    requires NoDots(xs) && !IsDotSegment(s) && ys != []
    ensures RemoveDots(xs + [s, ".."] + ys, []) == RemoveDots(xs + ys, [])
  {
    assert xs + [s, ".."] + ys == xs + ([s, ".."] + ys);
    RemoveDotsPrefix(xs, [s, ".."] + ys, []);
    RemoveDotsPrefix(xs, ys, []);
    var st := [] + xs;
    assert ([s, ".."] + ys)[0] == s && ([s, ".."] + ys)[1..] == [".."] + ys;
    assert RemoveDots([s, ".."] + ys, st) == RemoveDots([".."] + ys, st + [s]);
    assert ([".."] + ys)[0] == ".." && ([".."] + ys)[1..] == ys;
    assert (st + [s])[..|st + [s]| - 1] == st;
  }

  lemma RemoveDotsHere(xs: seq<string>, ys: seq<string>)
    requires NoDots(xs) && ys != []
    ensures RemoveDots(xs + ["."] + ys, []) == RemoveDots(xs + ys, [])
  {
    assert xs + ["."] + ys == xs + (["."] + ys);
    RemoveDotsPrefix(xs, ["."] + ys, []);
    RemoveDotsPrefix(xs, ys, []);
    assert (["."] + ys)[0] == "." && (["."] + ys)[1..] == ys;
  }

  /** A `..` segment removes the segment before it. */
  lemma RemoveDotSegmentsUp(xs: seq<string>, s: string, ys: seq<string>)
    requires NoSlashes(xs) && NoSlashes(ys) && NoneOf(s, IsSlash)
    requires NoDots(xs) && !IsDotSegment(s) && ys != []
    ensures RemoveDotSegments("/" + Join(xs + [s, ".."] + ys, '/')) == RemoveDotSegments("/" + Join(xs + ys, '/'))
  {
    assert NoSlashes([s, ".."]) by { assert [s, ".."][1] == ".."; }
    NoSlashesAppend(xs, [s, ".."]);
    NoSlashesAppend(xs + [s, ".."], ys);
    NoSlashesAppend(xs, ys);
    RemoveDotSegmentsOfSegments(xs + [s, ".."] + ys);
    RemoveDotSegmentsOfSegments(xs + ys);
    RemoveDotsUp(xs, s, ys);
  }

  /** A final `..` removes the segment before it and leaves a trailing slash. */
  lemma RemoveDotSegmentsUpLast(xs: seq<string>, s: string)
    requires NoSlashes(xs) && NoneOf(s, IsSlash)
    requires NoDots(xs) && !IsDotSegment(s)
    ensures RemoveDotSegments("/" + Join(xs + [s, ".."], '/')) == "/" + Join(xs + [""], '/')
  {
    assert NoSlashes([s, ".."]) by { assert [s, ".."][1] == ".."; }
    NoSlashesAppend(xs, [s, ".."]);
    RemoveDotSegmentsOfSegments(xs + [s, ".."]);
    RemoveDotsPrefix(xs, [s, ".."], []);
    var st := [] + xs;
    assert [s, ".."][0] == s && [s, ".."][1..] == [".."];
    assert RemoveDots([s, ".."], st) == RemoveDots([".."], st + [s]);
    assert (st + [s])[..|st + [s]| - 1] == xs;
  }

  /** A `..` right after the root is dropped: nothing goes above the root, and `/..` is `/`. */
  lemma RemoveDotSegmentsRootUp(ys: seq<string>)
    requires NoSlashes(ys)
    ensures RemoveDotSegments("/" + Join([".."] + ys, '/')) == RemoveDotSegments("/" + Join(ys, '/'))
  {
    assert NoSlashes([".."]);
    NoSlashesAppend([".."], ys);
    RemoveDotSegmentsOfSegments([".."] + ys);
    if ys == [] {
      assert [".."] + ys == [".."];
      assert NoSlashes([""]);
      RemoveDotSegmentsOfSegments([""]);
      assert Join([""], '/') == Join(ys, '/');
    } else {
      RemoveDotSegmentsOfSegments(ys);
      assert ([".."] + ys)[1..] == ys;
    }
  }

  /** A final `.` is dropped and leaves a trailing slash: `/a/.` gives `/a/`. */
  lemma RemoveDotSegmentsHereLast(xs: seq<string>)
    requires NoSlashes(xs) && NoDots(xs)
    ensures RemoveDotSegments("/" + Join(xs + ["."], '/')) == "/" + Join(xs + [""], '/')
  {
    assert NoSlashes(["."]);
    NoSlashesAppend(xs, ["."]);
    RemoveDotSegmentsOfSegments(xs + ["."]);
    RemoveDotsPrefix(xs, ["."], []);
    assert [] + xs == xs;
  }

  /** A `.` segment is dropped. */
  lemma RemoveDotSegmentsHere(xs: seq<string>, ys: seq<string>)
    requires NoSlashes(xs) && NoSlashes(ys) && NoDots(xs) && ys != []
    ensures RemoveDotSegments("/" + Join(xs + ["."] + ys, '/')) == RemoveDotSegments("/" + Join(xs + ys, '/'))
  {
    assert NoSlashes(["."]);
    NoSlashesAppend(xs, ["."]);
    NoSlashesAppend(xs + ["."], ys);
    NoSlashesAppend(xs, ys);
    RemoveDotSegmentsOfSegments(xs + ["."] + ys);
    RemoveDotSegmentsOfSegments(xs + ys);
    RemoveDotsHere(xs, ys);
  }

  /** Standardising a well-formed URL with a host and an absolute path keeps it well formed. */
  lemma StandardizedWellFormed(u: Url)
    requires WellFormed(u) && u.host.Some? && StartsWith(u.path, "/")
    ensures WellFormed(Standardized(u))
    ensures NoDotSegments(Standardized(u).path)
  {
    RemoveDotSegmentsClean(u.path);
  }
}
