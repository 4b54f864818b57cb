/**
 realpath(3) without symbolic links, and the working directory the library mirrors.
 */
module Paths {
  import opened CStrings

  const PATH_MAX: nat := 1024

  // ---- components -------------------------------------------------------------

  /** The first slash at or after `i`, or the end. */
  function NextSlash(s: CString, i: nat): (k: nat)
    requires i <= |s|
    ensures i <= k <= |s| && '/' !in s[i..k]
    ensures k < |s| ==> s[k] == '/'
    decreases |s| - i
  {
    if i == |s| || s[i] == '/' then i else NextSlash(s, i + 1)
  }

  /** What lies between the slashes of `s`, from `i` on. */
  function Segments(s: CString, i: nat): seq<CString>
    requires i <= |s|
    decreases |s| - i
  {
    var k := NextSlash(s, i);
    [s[i..k]] + if k == |s| then [] else Segments(s, k + 1)
  }

  predicate IsComponent(c: CString) {
    c != [] && c != "."
  }

  function Components(segments: seq<CString>): seq<CString> {
    if segments == [] then []
    else (if IsComponent(segments[0]) then [segments[0]] else []) + Components(segments[1..])
  }

  /** A slash before every component. */
  function Joined(components: seq<CString>): CString {
    if components == [] then [] else ['/'] + components[0] + Joined(components[1..])
  }

  function Rooted(components: seq<CString>): CString {
    if components == [] then ['/'] else Joined(components)
  }

  /** The components of an absolute path. */
  function Parts(path: CString): seq<CString>
    requires path != []
  {
    Components(Segments(path, 1))
  }

  function Normal(path: CString): CString
    requires path != []
  {
    Rooted(Parts(path))
  }

  lemma {:induction false} JoinedAppend(a: seq<CString>, b: seq<CString>)
    ensures Joined(a + b) == Joined(a) + Joined(b)
  {
    if a == [] {
      assert a + b == b;
    } else {
      JoinedAppend(a[1..], b);
      assert (a + b)[1..] == a[1..] + b;
      Associates(['/'] + a[0], Joined(a[1..]), Joined(b));
    }
  }

  lemma Associates<T>(a: seq<T>, b: seq<T>, c: seq<T>)
    ensures a + (b + c) == (a + b) + c
  {
  }

  lemma ComponentsStep(segments: seq<CString>)
    ensures Components(segments) == if segments == [] then [] else
              (if IsComponent(segments[0]) then [segments[0]] else []) + Components(segments[1..])
  {
  }

  lemma {:induction false} ComponentsAppend(a: seq<CString>, b: seq<CString>)
    ensures Components(a + b) == Components(a) + Components(b)
  {
    hide *;
    ComponentsStep(a);
    ComponentsStep(a + b);
    if a == [] {
      assert a + b == b;
    } else {
      var head := if IsComponent(a[0]) then [a[0]] else [];
      ComponentsAppend(a[1..], b);
      assert (a + b)[1..] == a[1..] + b && (a + b)[0] == a[0];
      assert Components(a) == head + Components(a[1..]);
      assert Components(a + b) == head + (Components(a[1..]) + Components(b));
      Associates(head, Components(a[1..]), Components(b));
    }
  }

  /** A segment is dropped when it is empty or ".", and only then. */
  lemma {:induction false} ComponentsCounted(segments: seq<CString>, c: CString)
    ensures multiset(Components(segments))[c] == if c == [] || c == ['.'] then 0 else multiset(segments)[c]
  {
    if segments != [] {
      ComponentsCounted(segments[1..], c);
      assert segments == [segments[0]] + segments[1..];
      hide Components;
      ComponentsStep(segments);
    }
  }

  /** Strings with a slash between each two. */
  function Slashed(segments: seq<CString>): CString
    requires segments != []
  {
    if |segments| == 1 then segments[0] else segments[0] + ['/'] + Slashed(segments[1..])
  }

  /** The segments are the string, cut at every slash. */
  lemma {:induction false} SegmentsRejoin(s: CString, i: nat)
    requires i <= |s|
    ensures Segments(s, i) != [] && Slashed(Segments(s, i)) == s[i..]
    ensures forall c :: c in Segments(s, i) ==> '/' !in c
    decreases |s| - i
  {
    hide Segments, NextSlash;
    SegmentsUnfold(s, i);
    var k := NextSlash(s, i);
    if k == |s| {
      assert s[i..k] == s[i..];
      assert [s[i..k]] + [] == [s[i..k]];
    } else {
      SegmentsRejoin(s, k + 1);
      var rest := Segments(s, k + 1);
      assert ([s[i..k]] + rest)[1..] == rest;
      assert s[i..] == s[i..k] + ['/'] + s[k + 1..];
    }
  }

  // ---- the loop -----------------------------------------------------------

  /** The scan is at `i`, in the segment that starts at `b`; `done` are the components before it. */
  ghost predicate Scanning(s: CString, out: CString, i: nat, b: nat, done: seq<CString>) {
    && 1 <= b <= i <= |s| && i <= NextSlash(s, b)
    && Parts(s) == done + Components(Segments(s, b))
    && out == Joined(done) + ['/'] + (if s[b..NextSlash(s, b)] == "." then [] else s[b..i])
    && (s[b..NextSlash(s, b)] == "." ==> i == b + 1)
  }

  lemma SegmentsStep(s: CString, b: nat)
    requires b <= |s|
    ensures var k := NextSlash(s, b);
      Components(Segments(s, b))
      == (if IsComponent(s[b..k]) then [s[b..k]] else [])
         + (if k == |s| then [] else Components(Segments(s, k + 1)))
  {
    hide *;
    SegmentsUnfold(s, b);
    var k := NextSlash(s, b);
    var rest := if k == |s| then [] else Segments(s, k + 1);
    ComponentsStep([s[b..k]] + rest);
    ComponentsStep([]);
    assert ([s[b..k]] + rest)[1..] == rest;
  }

  lemma SegmentsUnfold(s: CString, i: nat)
    requires i <= |s|
    ensures var k := NextSlash(s, i);
      Segments(s, i) == [s[i..k]] + if k == |s| then [] else Segments(s, k + 1)
  {
  }

  lemma JoinedOne(done: seq<CString>, c: CString)
    ensures Joined(done + [c]) == Joined(done) + ['/'] + c
  {
    JoinedAppend(done, [c]);
    assert Joined([c]) == ['/'] + c;
  }

  lemma NextSlashIs(s: CString, b: nat, k: nat)
    requires b <= k <= |s| && '/' !in s[b..k] && (k < |s| ==> s[k] == '/')
    ensures NextSlash(s, b) == k
  {
  }

  /** The code's test for a "." component is exact. */
  lemma DotTest(s: CString, b: nat)
    requires b <= |s|
    ensures s[b..NextSlash(s, b)] == "."
       <==> At(s, b) == '.' && (At(s, b + 1) == '/' || At(s, b + 1) == '\0')
  {
    var k := NextSlash(s, b);
    if At(s, b) == '.' && (At(s, b + 1) == '/' || At(s, b + 1) == '\0') {
      assert s[b..b + 1] == ".";
      NextSlashIs(s, b, b + 1);
    }
    if s[b..k] == "." { assert s[b] == s[b..k][0] && k == b + 1; }
  }

  lemma ScanFirst(s: CString)
    requires s != [] && s[0] == '/'
    ensures Scanning(s, ['/'], if s[1..NextSlash(s, 1)] == "." then 2 else 1, 1, [])
  {
    assert s[1..1] == [];
    assert [] + ['/'] + [] == ['/'];
    assert [] + Components(Segments(s, 1)) == Parts(s);
  }

  lemma ScanChar(s: CString, out: CString, i: nat, b: nat, done: seq<CString>)
    requires Scanning(s, out, i, b, done) && i < |s| && s[i] != '/'
    ensures Scanning(s, out + [s[i]], i + 1, b, done)
  {
    hide Segments, Components, Joined;
    var k := NextSlash(s, b);
    assert s[b..k] == "." ==> k == b + 1;
    assert s[b..i + 1] == s[b..i] + [s[i]];
  }

  /** At a slash the segment is over: it counts, or it leaves only the slash before it. */
  lemma ScanSlash(s: CString, out: CString, i: nat, b: nat, done: seq<CString>) returns (more: seq<CString>)
    requires Scanning(s, out, i, b, done) && i < |s| && s[i] == '/'
    ensures out != [] && (out[|out| - 1] == '/' ==> more == done) && (out[|out| - 1] != '/' ==> out == Joined(more))
    ensures var next := if s[i + 1..NextSlash(s, i + 1)] == "." then i + 2 else i + 1;
      Scanning(s, if out[|out| - 1] == '/' then out else out + ['/'], next, i + 1, more)
  {
    hide Segments, Components;
    var k := NextSlash(s, b);
    assert k == i by { NextSlashIs(s, b, i); }
    var seg := s[b..i];
    SegmentsStep(s, b);
    more := if IsComponent(seg) then done + [seg] else done;
    if IsComponent(seg) {
      JoinedOne(done, seg);
      assert seg[|seg| - 1] in seg;
      assert done + ([seg] + Components(Segments(s, i + 1))) == done + [seg] + Components(Segments(s, i + 1));
    } else {
      assert [] + Components(Segments(s, i + 1)) == Components(Segments(s, i + 1));
    }
    assert s[i + 1..i + 1] == [];
  }

  /** The same for the first slash, in the terms of the code's test. */
  lemma ScanNext(s: CString, out: CString, i: nat, b: nat, done: seq<CString>) returns (more: seq<CString>)
    requires i < |s| && s[i] == '/'
    requires if i == 0 then out == [] && done == [] else Scanning(s, out, i, b, done)
    ensures i > 0 ==> out != []
    ensures
      var dot := At(s, i + 1) == '.' && (At(s, i + 2) == '/' || At(s, i + 2) == '\0');
      Scanning(s, if out != [] && out[|out| - 1] == '/' then out else out + ['/'], if dot then i + 2 else i + 1,
               i + 1, more)
  {
    hide Scanning, At;
    DotTest(s, i + 1);
    if i == 0 {
      ScanFirst(s);
      assert [] + ['/'] == ['/'];
      more := [];
    } else {
      more := ScanSlash(s, out, i, b, done);
    }
  }

  lemma ScanEnd(s: CString, out: CString, i: nat, b: nat, done: seq<CString>)
    requires Scanning(s, out, i, b, done) && i == |s|
    ensures out != []
    ensures Normal(s) == if |out| > 1 && out[|out| - 1] == '/' then out[..|out| - 1] else out
  {
    hide Segments, Components;
    var seg := s[b..i];
    SegmentsStep(s, b);
    if IsComponent(seg) {
      JoinedOne(done, seg);
      assert seg[|seg| - 1] in seg;
      assert Parts(s) == done + [seg];
    } else {
      assert out == Joined(done) + ['/'];
      assert Parts(s) == done;
    }
  }

  /** Collapses "//" and "/./" of an absolute path that fits its buffer. */
  method Normalise(tmp: CString) returns (r: CString)
    requires 0 < |tmp| < PATH_MAX && tmp[0] == '/'
    ensures r == Normal(tmp) && |r| <= |tmp|
  {
    hide Scanning, Normal;
    var out := new CChar[PATH_MAX](_ => '/');
    var o, i := 0, 0;
    ghost var b, done: seq<CString> := 0, [];
    while i < |tmp|
      invariant o <= i <= |tmp|
      invariant i == 0 ==> o == 0 && done == []
      invariant i > 0 ==> Scanning(tmp, out[..o], i, b, done)
    {
      ghost var was := out[..o];
      if tmp[i] == '/' {
        done := ScanNext(tmp, was, i, b, done);
        b := i + 1;
        if o == 0 || out[o - 1] != '/' {
          out[o] := '/';
          o := o + 1;
          assert out[..o] == was + ['/'] && (o == 1 ==> out[..o] == ['/']);
        }
        i := i + 1;
        if At(tmp, i) == '.' && (At(tmp, i + 1) == '/' || At(tmp, i + 1) == '\0') {
          i := i + 1;
        }
      } else {
        ScanChar(tmp, was, i, b, done);
        out[o] := tmp[i];
        o := o + 1;
        assert out[..o] == was + [tmp[i]];
        i := i + 1;
      }
    }
    ScanEnd(tmp, out[..o], i, b, done);
    if o > 1 && out[o - 1] == '/' {
      o := o - 1;
    }
    r := out[..o];
  }

  // ---- normal form ------------------------------------------------------------

  /** Slash-free components, as splitting gives them. */
  predicate IsNormal(components: seq<CString>) {
    forall c :: c in components ==> IsComponent(c) && '/' !in c
  }

  lemma {:induction false} ComponentsAreNormal(s: CString, i: nat)
    requires i <= |s|
    ensures IsNormal(Components(Segments(s, i)))
    ensures |Joined(Components(Segments(s, i)))| <= |s| - i + 1
    decreases |s| - i
  {
    hide *;
    SegmentsStep(s, i);
    var k := NextSlash(s, i);
    if k < |s| { ComponentsAreNormal(s, k + 1); }
    NormalMore(s[i..k], if k == |s| then [] else Components(Segments(s, k + 1)));
  }

  lemma NormalMore(c: CString, rest: seq<CString>)
    requires '/' !in c && (rest != [] ==> IsNormal(rest))
    ensures var all := (if IsComponent(c) then [c] else []) + rest;
      IsNormal(all) && |Joined(all)| <= 1 + |c| + if rest == [] then 0 else |Joined(rest)|
  {
    hide IsComponent;
    if IsComponent(c) {
      assert ([c] + rest)[1..] == rest;
    } else {
      assert [] + rest == rest;
    }
  }

  lemma {:induction false} PartsOfJoined(components: seq<CString>, before: CString)
    requires IsNormal(components) && components != []
    ensures var s := before + Joined(components);
      Components(Segments(s, |before| + 1)) == components
    decreases |components|
  {
    var c, rest := components[0], components[1..];
    assert c in components;
    assert Joined(components) == ['/'] + c + Joined(rest);
    assert IsComponent(c) && '/' !in c && IsNormal(rest);
    assert if rest == [] then Joined(rest) == [] else Joined(rest)[0] == '/';
    hide *;
    var next := before + ['/'] + c;
    Regroup(before, c, Joined(rest));
    FirstComponent(next, |before| + 1, Joined(rest));
    if rest == [] {
      assert [c] + [] == components;
    } else {
      PartsOfJoined(rest, next);
      assert [c] + rest == components;
    }
  }

  lemma Regroup(before: CString, c: CString, tail: CString)
    ensures before + (['/'] + c + tail) == (before + ['/'] + c) + tail
    ensures (before + ['/'] + c)[|before| + 1..] == c
  {
  }

  lemma FirstComponent(front: CString, b: nat, tail: CString)
    requires b <= |front| && '/' !in front[b..] && IsComponent(front[b..]) && (tail != [] ==> tail[0] == '/')
    ensures Components(Segments(front + tail, b))
      == [front[b..]] + if tail == [] then [] else Components(Segments(front + tail, |front| + 1))
  {
    hide *;
    FirstSegment(front, b, tail);
    SegmentsStep(front + tail, b);
  }

  lemma FirstSegment(front: CString, b: nat, tail: CString)
    requires b <= |front| && '/' !in front[b..] && (tail != [] ==> tail[0] == '/')
    ensures NextSlash(front + tail, b) == |front| && (front + tail)[b..|front|] == front[b..]
  {
    var s := front + tail;
    assert s[b..|front|] == front[b..];
    assert tail != [] ==> s[|front|] == tail[0];
    NextSlashIs(s, b, |front|);
  }

  lemma PartsOfRooted(components: seq<CString>)
    requires IsNormal(components)
    ensures Parts(Rooted(components)) == components
  {
    if components == [] {
      NextSlashIs(['/'], 1, 1);
      SegmentsStep(['/'], 1);
    } else {
      PartsOfJoined(components, []);
      assert [] + Joined(components) == Joined(components);
    }
  }

  /** A normalised path is one no further pass changes, and it never grows. */
  lemma NormalIsStable(path: CString)
    requires path != [] && path[0] == '/'
    ensures Normal(Normal(path)) == Normal(path)
    ensures 0 < |Normal(path)| <= |path| && Normal(path)[0] == '/'
  {
    ComponentsAreNormal(path, 1);
    PartsOfRooted(Parts(path));
  }

  lemma SegmentsCons(s: CString, i: nat, k: nat)
    requires i <= k <= |s| && '/' !in s[i..k] && (k < |s| ==> s[k] == '/')
    ensures Segments(s, i) == [s[i..k]] + if k == |s| then [] else Segments(s, k + 1)
  {
    NextSlashIs(s, i, k);
  }

  lemma {:induction false} SegmentsShift(before: CString, s: CString, i: nat)
    requires i <= |s|
    ensures Segments(before + s, |before| + i) == Segments(s, i)
    decreases |s| - i
  {
    hide Segments;
    var k := NextSlash(s, i);
    var whole := before + s;
    assert whole[|before| + i..|before| + k] == s[i..k];
    SegmentsCons(whole, |before| + i, |before| + k);
    SegmentsCons(s, i, k);
    if k < |s| { SegmentsShift(before, s, k + 1); }
  }

  lemma {:induction false} SegmentsConcat(a: CString, b: CString, i: nat)
    requires i <= |a|
    ensures Segments(a + ['/'] + b, i) == Segments(a, i) + Segments(b, 0)
    decreases |a| - i
  {
    hide Segments;
    var k := NextSlash(a, i);
    var whole := a + ['/'] + b;
    assert whole[i..k] == a[i..k];
    SegmentsCons(whole, i, k);
    SegmentsCons(a, i, k);
    if k < |a| {
      SegmentsConcat(a, b, k + 1);
    } else {
      SegmentsShift(a + ['/'], b, 0);
    }
  }

  /** The absolute path a relative one stands for. */
  function Under(cwd: CString, path: CString): CString {
    (if cwd == "/" then [] else cwd) + ['/'] + path
  }

  /** A relative path has the components of the working directory, then its own. */
  lemma PartsUnder(cwd: CString, path: CString)
    requires cwd != []
    ensures Parts(Under(cwd, path)) == Parts(cwd) + Components(Segments(path, 0))
  {
    if cwd == "/" {
      SegmentsShift(['/'], path, 0);
      assert [] + ['/'] + path == ['/'] + path;
      NextSlashIs(['/'], 1, 1);
      SegmentsStep(cwd, 1);
    } else {
      SegmentsConcat(cwd, path, 1);
      ComponentsAppend(Segments(cwd, 1), Segments(path, 0));
    }
  }

  // ---- the working directory --------------------------------------------------

  datatype Errno = ENOENT | ENAMETOOLONG | ENOMEM | ERANGE | EINVAL

  datatype PathResult = Resolved(path: CString) | Failed(error: Errno)

  predicate IsAbsolute(path: CString) {
    0 < |path| < PATH_MAX && path[0] == '/'
  }

  class WorkingDirectory {
    /** Empty until first used. */
    var cwd: CString
    /** $HOME; empty when it is not set. */
    const home: CString

    constructor (home: CString)
      ensures Valid() && cwd == [] && this.home == home
    {
      cwd := [];
      this.home := home;
    }

    /** Absolute and within its buffer, once it is set. */
    ghost predicate Valid()
      reads this
    {
      cwd == [] || IsAbsolute(cwd)
    }

    /** The directory in force. */
    function Current(): CString
      reads this
    {
      if cwd != [] then cwd else if IsAbsolute(home) then home else "/"
    }

    method Init()
      requires Valid()
      modifies this
      ensures Valid() && cwd == Current() == old(Current()) && cwd != []
    {
      if cwd != [] {
        return;
      }
      if home != [] && home[0] == '/' && |home| < PATH_MAX {
        cwd := home;
      } else {
        cwd := "/";
      }
    }

    /** The caller's buffer of `size` bytes, or a new one (with `allocate`). */
    method Getcwd(allocate: bool, size: nat, memory: bool) returns (r: PathResult)
      requires Valid()
      modifies this
      ensures Valid() && Current() == old(Current())
      ensures r == if allocate then
                     (if 0 < size < |Current()| + 1 then Failed(ERANGE)
                      else if !memory then Failed(ENOMEM) else Resolved(Current()))
                   else if size < |Current()| + 1 then Failed(if size == 0 then EINVAL else ERANGE)
                   else Resolved(Current())
    {
      Init();
      var need := |cwd| + 1;
      if allocate {
        var wanted := if size == 0 then need else size;
        if wanted < need {
          return Failed(ERANGE);
        }
        if !memory {
          return Failed(ENOMEM);
        }
      } else if size < need {
        return Failed(if size == 0 then EINVAL else ERANGE);
      }
      return Resolved(cwd);
    }

    /** Follows a chdir() the kernel accepted; a path too long for the buffer is not followed. */
    method Chdir(path: CString, accepted: bool)
      requires Valid()
      modifies this
      ensures Valid()
      ensures var target := if path != [] && path[0] == '/' then path else Under(old(Current()), path);
        Current() == if accepted && path != [] && |target| < PATH_MAX then target else old(Current())
    {
      if accepted && path != [] {
        Init();
        if path[0] == '/' {
          if |path| < PATH_MAX {
            cwd := path;
          }
        } else {
          var tmp := Under(cwd, path);
          if |tmp| < PATH_MAX {
            cwd := tmp;
          }
        }
      }
    }

    /** The caller's buffer, or a new one when `memory` allows it. */
    method Realpath(path: CString, ownBuffer: bool, memory: bool) returns (r: PathResult)
      requires Valid()
      modifies this
      ensures Valid() && Current() == old(Current())
      ensures var target := if path != [] && path[0] == '/' then path else Under(Current(), path);
        r == if path == [] then Failed(ENOENT)
             else if |target| >= PATH_MAX then Failed(ENAMETOOLONG)
             else if !ownBuffer && !memory then Failed(ENOMEM)
             else Resolved(Normal(target))
      ensures r.Resolved? ==> IsAbsolute(r.path) && Normal(r.path) == r.path
    {
      if path == [] {
        return Failed(ENOENT);
      }
      var tmp;
      if path[0] == '/' {
        if |path| >= PATH_MAX {
          return Failed(ENAMETOOLONG);
        }
        tmp := path;
      } else {
        Init();
        tmp := Under(cwd, path);
        if |tmp| >= PATH_MAX {
          return Failed(ENAMETOOLONG);
        }
      }
      NormalIsStable(tmp);
      var out := Normalise(tmp);
      if !ownBuffer && !memory {
        return Failed(ENOMEM);
      }
      return Resolved(out);
    }
  }
}
