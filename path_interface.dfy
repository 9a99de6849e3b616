/**
 * The contract of the Path interface: an immutable path value made of a
 * sequence of segments and an absolute flag. `normalize` and `withExtension`
 * return a new value; the other operations are queries. Because a datatype
 * value cannot be changed, the receiver of every operation is left as it was.
 */
module PathInterface {
  import opened Wrappers

  /** A URL path: its `/`-separated segments, and whether it starts with `/`. */
  datatype Path = Path(segments: seq<string>, absolute: bool)

  /** The LogicException `withExtension` throws when there is no basename. */
  datatype PathError = NoBasename

  predicate IsDotSegment(s: string) {
    s == "." || s == ".."
  }

  /** No segment is `.` or `..`. */
  predicate DotFree(segs: seq<string>) {
    forall i :: 0 <= i < |segs| ==> !IsDotSegment(segs[i])
  }

  /** The path ends on a separator, or on a dot segment that stands for one. */
  predicate EndsAsDirectory(segs: seq<string>) {
    |segs| > 0 && (segs[|segs| - 1] == "" || IsDotSegment(segs[|segs| - 1]))
  }

  // ---------------------------------------------------------------------------
  // normalize: dot-segment removal, on segments (after section 5.2.4 of RFC 3986)
  // ---------------------------------------------------------------------------

  /**
   * Moves `input` left to right onto `output`: `.` is dropped, `..` removes
   * the last output segment (and is dropped when there is none), anything
   * else is appended.
   */
  function RemoveDotSegments(input: seq<string>, output: seq<string>): (r: seq<string>)
    requires DotFree(output)
    ensures DotFree(r)
    ensures |r| <= |output| + |input|
    decreases |input|
  {
    if input == [] then output
    else if input[0] == "." then RemoveDotSegments(input[1..], output)
    else if input[0] == ".." then
      RemoveDotSegments(input[1..], if output == [] then [] else output[..|output| - 1])
    else RemoveDotSegments(input[1..], output + [input[0]])
  }

  /** Without dot segments in the input, removal only appends it. */
  lemma {:induction false} RemoveDotSegmentsOfDotFree(input: seq<string>, output: seq<string>)
    requires DotFree(output) && DotFree(input)
    ensures RemoveDotSegments(input, output) == output + input
    decreases |input|
  {
    if input != [] {
      assert !IsDotSegment(input[0]);
      RemoveDotSegmentsOfDotFree(input[1..], output + [input[0]]);
      assert output + [input[0]] + input[1..] == output + input;
    }
  }

  /** Removal works left to right: a prefix is finished before the rest starts. */
  lemma {:induction false} RemoveDotSegmentsAppend(a: seq<string>, b: seq<string>, output: seq<string>)
    requires DotFree(output)
    ensures RemoveDotSegments(a + b, output) == RemoveDotSegments(b, RemoveDotSegments(a, output))
    decreases |a|
  {
    if a != [] {
      assert (a + b)[0] == a[0] && (a + b)[1..] == a[1..] + b;
      var next := if a[0] == "." then output
        else if a[0] == ".." then (if output == [] then [] else output[..|output| - 1])
        else output + [a[0]];
      RemoveDotSegmentsAppend(a[1..], b, next);
    } else {
      assert a + b == b;
    }
  }

  /** A `.` segment anywhere is simply dropped. */
  lemma {:induction false} RemoveDotSegmentsDropsDot(a: seq<string>, b: seq<string>, output: seq<string>)
    requires DotFree(output)
    ensures RemoveDotSegments(a + ["."] + b, output) == RemoveDotSegments(a + b, output)
  {
    assert a + ["."] + b == a + (["."] + b);
    RemoveDotSegmentsAppend(a, ["."] + b, output);
    RemoveDotSegmentsAppend(a, b, output);
    assert (["."] + b)[1..] == b;
  }

  /** A `..` segment cancels the segment just before it. */
  lemma {:induction false} RemoveDotSegmentsCancelsParent(a: seq<string>, x: string, b: seq<string>, output: seq<string>)
    requires DotFree(output)
    requires !IsDotSegment(x)
    ensures RemoveDotSegments(a + [x, ".."] + b, output) == RemoveDotSegments(a + b, output)
  {
    assert a + [x, ".."] + b == a + ([x, ".."] + b);
    RemoveDotSegmentsAppend(a, [x, ".."] + b, output);
    RemoveDotSegmentsAppend(a, b, output);
    var done := RemoveDotSegments(a, output);
    assert ([x, ".."] + b)[0] == x && ([x, ".."] + b)[1..] == [".."] + b;
    assert RemoveDotSegments([x, ".."] + b, done) == RemoveDotSegments([".."] + b, done + [x]);
    assert ([".."] + b)[0] == ".." && ([".."] + b)[1..] == b;
    assert (done + [x])[..|done + [x]| - 1] == done;
  }

  /** A `..` with nothing before it is dropped: over-popping clamps. */
  lemma RemoveDotSegmentsClamps(b: seq<string>)
    ensures RemoveDotSegments([".."] + b, []) == RemoveDotSegments(b, [])
  {
    assert ([".."] + b)[1..] == b;
  }

  /** A last input segment that is not a dot segment is the last output segment. */
  lemma {:induction false} RemoveDotSegmentsKeepsLast(input: seq<string>, output: seq<string>)
    requires DotFree(output)
    requires |input| > 0 && !IsDotSegment(input[|input| - 1])
    ensures var r := RemoveDotSegments(input, output);
      |r| > 0 && r[|r| - 1] == input[|input| - 1]
    decreases |input|
  {
    if |input| > 1 {
      var next := if input[0] == "." then output
        else if input[0] == ".." then (if output == [] then [] else output[..|output| - 1])
        else output + [input[0]];
      assert RemoveDotSegments(input, output) == RemoveDotSegments(input[1..], next);
      RemoveDotSegmentsKeepsLast(input[1..], next);
    } else {
      assert RemoveDotSegments(input[1..], output + [input[0]]) == output + [input[0]];
    }
  }

  /**
   * `normalize()`: a new Path with the same absolute flag, no `.` or `..`
   * segment, a trailing separator kept where the input ended on one (or on a
   * dot segment), and nothing changed when there was nothing to remove.
   */
  function Normalize(p: Path): (r: Path)
    ensures r.absolute == p.absolute
    ensures DotFree(r.segments)
    ensures DotFree(p.segments) ==> r == p
    ensures EndsAsDirectory(p.segments) ==>
      |r.segments| > 0 && r.segments[|r.segments| - 1] == ""
  {
    var segs := p.segments;
    var kept := RemoveDotSegments(segs, []);
    if segs != [] && IsDotSegment(segs[|segs| - 1]) then
      Path(kept + [""], p.absolute)
    else
      RemoveDotSegmentsOfDotFreeIf(segs);
      RemoveDotSegmentsKeepsLastIf(segs);
      Path(kept, p.absolute)
  }

  lemma RemoveDotSegmentsOfDotFreeIf(segs: seq<string>)
    ensures DotFree(segs) ==> RemoveDotSegments(segs, []) == segs
  {
    if DotFree(segs) {
      RemoveDotSegmentsOfDotFree(segs, []);
    }
  }

  lemma RemoveDotSegmentsKeepsLastIf(segs: seq<string>)
    ensures |segs| > 0 && !IsDotSegment(segs[|segs| - 1]) ==>
      var r := RemoveDotSegments(segs, []); |r| > 0 && r[|r| - 1] == segs[|segs| - 1]
  {
    if |segs| > 0 && !IsDotSegment(segs[|segs| - 1]) {
      RemoveDotSegmentsKeepsLast(segs, []);
    }
  }

  /** Normalizing twice is normalizing once. */
  lemma NormalizeIdempotent(p: Path)
    ensures Normalize(Normalize(p)) == Normalize(p)
  {
  }

  // ---------------------------------------------------------------------------
  // Queries
  // ---------------------------------------------------------------------------

  /** `isAbsolute()`: the stored flag. */
  function IsAbsolute(p: Path): (r: bool)
    ensures r <==> p.absolute
  {
    p.absolute
  }

  /**
   * `getSegment($offset, $default)`: the segment at `offset` when there is
   * one, otherwise `default` unchanged (never a failure); `None` is PHP `null`.
   */
  function GetSegment(p: Path, offset: int, default: Option<string>): (r: Option<string>)
    ensures 0 <= offset < |p.segments| ==> r == Some(p.segments[offset])
    ensures !(0 <= offset < |p.segments|) ==> r == default
  {
    if 0 <= offset < |p.segments| then Some(p.segments[offset]) else default
  }

  /**
   * `getBasename()`: the last segment, which is empty both for a path
   * without segments and for one ending on a separator.
   */
  function GetBasename(p: Path): (r: string)
    ensures r == "" <==> p.segments == [] || p.segments[|p.segments| - 1] == ""
    ensures r != "" ==> GetSegment(p, |p.segments| - 1, None) == Some(r)
  {
    if p.segments == [] then "" else p.segments[|p.segments| - 1]
  }

  /** The position of the last `c` in `s`, or -1. */
  function LastIndexOf(s: string, c: char): (r: int)
    ensures -1 <= r < |s|
    ensures r >= 0 ==> s[r] == c
    ensures forall k :: r < k < |s| ==> s[k] != c
  {
    if s == [] then -1
    else if s[|s| - 1] == c then |s| - 1
    else LastIndexOf(s[..|s| - 1], c)
  }

  /**
   * The extension of a basename: what follows its last `.`, and empty when
   * there is no `.` or the only place it can split is the leading `.` of a
   * dotfile.
   */
  function Extension(basename: string): (e: string)
    ensures forall k :: 0 <= k < |e| ==> e[k] != '.'
    ensures e != "" ==>
      |e| + 1 < |basename| && basename[|basename| - |e| - 1] == '.' && e == basename[|basename| - |e|..]
    ensures e == "" ==>
      (forall k :: 0 < k < |basename| ==> basename[k] != '.') || basename[|basename| - 1] == '.'
  {
    var i := LastIndexOf(basename, '.');
    if i <= 0 then "" else basename[i + 1..]
  }

  /** The basename without its extension and the `.` before it. */
  function Stem(basename: string): (s: string)
    ensures basename == s + (if Extension(basename) == "" then "" else "." + Extension(basename))
    ensures basename != "" ==> s != ""
  {
    var e := Extension(basename);
    if e == "" then basename else basename[..|basename| - |e| - 1]
  }

  /** `getExtension()`: decided by the basename alone. */
  function GetExtension(p: Path): (e: string)
    ensures e == Extension(GetBasename(p))
    ensures e != "" ==> GetBasename(p) == Stem(GetBasename(p)) + "." + e
  {
    Extension(GetBasename(p))
  }

  /** Two paths with the same basename have the same extension. */
  lemma ExtensionFollowsBasename(p: Path, q: Path)
    requires GetBasename(p) == GetBasename(q)
    ensures GetExtension(p) == GetExtension(q)
  {
  }

  // ---------------------------------------------------------------------------
  // withExtension
  // ---------------------------------------------------------------------------

  /** The extension argument without its optional leading `.`. */
  function StripLeadingDot(ext: string): (r: string)
    ensures if |ext| > 0 && ext[0] == '.' then ext == "." + r else r == ext
  {
    if |ext| > 0 && ext[0] == '.' then ext[1..] else ext
  }

  /** The basename `withExtension(ext)` gives `basename`: the stem, then `.ext` unless `ext` is empty. */
  function WithExtensionBasename(basename: string, ext: string): string {
    var e := StripLeadingDot(ext);
    Stem(basename) + (if e == "" then "" else "." + e)
  }

  /**
   * `withExtension($ext)`: fails when the basename is empty; otherwise a new
   * Path whose last segment is the basename with its extension replaced, and
   * whose other segments and absolute flag are those of `p`.
   */
  function WithExtension(p: Path, ext: string): (r: Result<Path, PathError>)
    ensures r.Failure? <==> GetBasename(p) == ""
    ensures r.Success? ==>
      && r.value.absolute == p.absolute
      && |r.value.segments| == |p.segments|
      && r.value.segments[..|p.segments| - 1] == p.segments[..|p.segments| - 1]
      && GetBasename(r.value) == WithExtensionBasename(GetBasename(p), ext)
  {
    var basename := GetBasename(p);
    if basename == "" then Failure(NoBasename)
    else
      var n := |p.segments|;
      Success(Path(p.segments[..n - 1] + [WithExtensionBasename(basename, ext)], p.absolute))
  }

  /** The leading `.` of the argument is optional. */
  lemma WithExtensionDotOptional(p: Path, ext: string)
    requires ext == "" || ext[0] != '.'
    ensures WithExtension(p, "." + ext) == WithExtension(p, ext)
  {
    assert ("." + ext)[1..] == ext;
  }

  /** Appending `.e` to a non-empty stem gives a basename whose extension is `e` and whose stem is that stem. */
  lemma {:induction false} ExtensionOfAppended(stem: string, e: string)
    requires stem != "" && e != ""
    requires forall k :: 0 <= k < |e| ==> e[k] != '.'
    ensures Extension(stem + "." + e) == e
    ensures Stem(stem + "." + e) == stem
  {
    var b := stem + "." + e;
    assert b[|stem|] == '.';
    forall k | |stem| < k < |b|
      ensures b[k] != '.'
    {
      assert b[k] == e[k - |stem| - 1];
    }
    var i := LastIndexOf(b, '.');
    assert i == |stem|;
    assert b[i + 1..] == e;
    assert b[..|b| - |e| - 1] == stem;
  }

  /** A non-empty extension `withExtension` sets is the one `getExtension` then reads. */
  lemma WithExtensionSetsExtension(p: Path, ext: string)
    requires WithExtension(p, ext).Success?
    requires StripLeadingDot(ext) != ""
    requires forall k :: 0 <= k < |StripLeadingDot(ext)| ==> StripLeadingDot(ext)[k] != '.'
    ensures GetExtension(WithExtension(p, ext).value) == StripLeadingDot(ext)
  {
    ExtensionOfAppended(Stem(GetBasename(p)), StripLeadingDot(ext));
  }

  /** Setting the same non-empty extension again changes nothing. */
  lemma {:induction false} WithExtensionIdempotent(p: Path, ext: string)
    requires WithExtension(p, ext).Success?
    requires StripLeadingDot(ext) != ""
    requires forall k :: 0 <= k < |StripLeadingDot(ext)| ==> StripLeadingDot(ext)[k] != '.'
    ensures WithExtension(WithExtension(p, ext).value, ext) == WithExtension(p, ext)
  {
    var q := WithExtension(p, ext).value;
    var b := GetBasename(q);
    ExtensionOfAppended(Stem(GetBasename(p)), StripLeadingDot(ext));
    assert WithExtensionBasename(b, ext) == b;
    var n := |q.segments|;
    assert q.segments[..n - 1] + [b] == q.segments;
  }

  /** `withExtension` fails exactly on an empty basename and leaves the flag alone; so does `normalize`. */
  lemma AbsoluteFlagPreserved(p: Path, ext: string)
    ensures IsAbsolute(Normalize(p)) == IsAbsolute(p)
    ensures WithExtension(p, ext).Success? ==> IsAbsolute(WithExtension(p, ext).value) == IsAbsolute(p)
  {
  }

  // ---------------------------------------------------------------------------
  // Worked cases
  // ---------------------------------------------------------------------------

  /** `/a/b/../c`, `/../a` and `/a/./b` normalize to `/a/c`, `/a` and `/a/b`. */
  lemma NormalizeExamples()
    ensures Normalize(Path(["a", "b", "..", "c"], true)) == Path(["a", "c"], true)
    ensures Normalize(Path(["..", "a"], true)) == Path(["a"], true)
    ensures Normalize(Path(["a", ".", "b"], true)) == Path(["a", "b"], true)
    ensures Normalize(Path(["a", "b", ".."], true)) == Path(["a", ""], true)
    ensures Normalize(Path(["a", "..", "b"], false)) == Path(["b"], false)
    ensures Normalize(Path(["a", ".."], false)) == Path([""], false)
  {
  }

  /** Basenames and extensions of `/dir/`, `/dir/file.tar.gz` and `/dir/.hidden`. */
  lemma ExtensionExamples()
    ensures GetBasename(Path(["dir", ""], true)) == ""
    ensures GetExtension(Path(["dir", "file.tar.gz"], true)) == "gz"
    ensures GetExtension(Path(["dir", ".hidden"], true)) == ""
  {
    var name := "file.tar.gz";
    assert name[..10] == "file.tar.g" && name[..10][..9] == "file.tar.";
    assert LastIndexOf("file.tar.", '.') == 8;
    assert LastIndexOf(name, '.') == 8;
    assert name[9..] == "gz";
    assert Extension(name) == "gz";
    assert GetBasename(Path(["dir", name], true)) == name;
    var hidden := ".hidden";
    assert forall k :: 0 < k < |hidden| ==> hidden[k] != '.';
    assert hidden[|hidden| - 1] != '.';
    assert Extension(hidden) == "";
    assert GetBasename(Path(["dir", hidden], true)) == hidden;
  }

  /** `withExtension` on `/a/b`, `/a/b.txt` and `/a/`. */
  lemma WithExtensionExamples()
    ensures WithExtension(Path(["a", "b"], true), "txt") == Success(Path(["a", "b.txt"], true))
    ensures WithExtension(Path(["a", "b"], true), ".txt") == Success(Path(["a", "b.txt"], true))
    ensures WithExtension(Path(["a", "b.txt"], true), "") == Success(Path(["a", "b"], true))
    ensures WithExtension(Path(["a", ""], true), "txt") == Failure(NoBasename)
  {
    assert LastIndexOf("b", '.') == -1 by {
      assert "b"[..0] == "";
    }
    assert Stem("b") == "b";
    var name := "b.txt";
    assert name[..4] == "b.tx" && name[..4][..3] == "b.t" && name[..4][..3][..2] == "b.";
    assert LastIndexOf("b.", '.') == 1;
    assert LastIndexOf(name, '.') == 1;
    assert name[2..] == "txt" && name[..1] == "b";
    assert Stem(name) == "b";
    assert StripLeadingDot("txt") == "txt" && StripLeadingDot(".txt") == "txt";
    assert WithExtensionBasename("b", "txt") == "b.txt";
    assert WithExtensionBasename("b.txt", "") == "b";
    assert ["a", "b"][..1] + ["b.txt"] == ["a", "b.txt"];
    assert ["a", "b.txt"][..1] + ["b"] == ["a", "b"];
  }

  /** `getSegment` on `/a/b`. */
  lemma GetSegmentExamples()
    ensures GetSegment(Path(["a", "b"], true), 5, Some("fallback")) == Some("fallback")
    ensures GetSegment(Path(["a", "b"], true), 0, None) == Some("a")
    ensures GetSegment(Path(["a", "b"], true), -1, None) == None
  {
  }
}
