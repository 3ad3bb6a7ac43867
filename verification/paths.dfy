/**
 POSIX path arithmetic used by the preprocessor and the locator:
 `os.path.join`, the components of a path, `os.path.abspath` (join with the
 working directory, then `normpath`), `os.path.relpath` against the
 filesystem root, and the per-user cache location that
 `translate_to_temp_path` maps every compiled file to.
 */
module Paths {
  import opened Strings

  /** `posixpath.join(a, b)`: an absolute `b` replaces `a`; otherwise a slash is inserted unless `a` is empty or ends with one. */
  function PathJoin(a: string, b: string): (r: string)
    ensures IsAbsolute(b) ==> r == b
    ensures !IsAbsolute(b) ==> r == a + b || r == a + "/" + b
    ensures !IsAbsolute(b) && (a == "" || a[|a| - 1] == '/') ==> r == a + b
    ensures !IsAbsolute(b) && a != "" && a[|a| - 1] != '/' ==> r == a + "/" + b
  {
    if IsAbsolute(b) then b
    else if a == "" || a[|a| - 1] == '/' then a + b
    else a + "/" + b
  }

  predicate IsAbsolute(p: string)
  {
    |p| > 0 && p[0] == '/'
  }

  /** Joining a fixed directory with relative names never makes two names collide. */
  lemma PathJoinCancel(a: string, x: string, y: string)
    requires !IsAbsolute(x) && !IsAbsolute(y)
    ensures PathJoin(a, x) == PathJoin(a, y) <==> x == y
  {
    if PathJoin(a, x) == PathJoin(a, y) {
      var p := if a == "" || a[|a| - 1] == '/' then a else a + "/";
      assert PathJoin(a, x) == p + x && PathJoin(a, y) == p + y;
      assert x == (p + x)[|p|..];
    }
  }

  /** Length of the leading run of non-slash characters. */
  function SegmentEnd(s: string): (k: nat)
    ensures k <= |s|
    ensures forall i :: 0 <= i < k ==> s[i] != '/'
    ensures k < |s| ==> s[k] == '/'
    decreases |s|
  {
    if s == "" || s[0] == '/' then 0 else 1 + SegmentEnd(s[1..])
  }

  /** A path component: non-empty and free of slashes. */
  predicate IsComponent(c: string)
  {
    c != "" && '/' !in c
  }

  /** The non-empty pieces of `s.split('/')`, as `normpath` and `relpath` collect them. */
  function Components(s: string): (cs: seq<string>)
    ensures forall i :: 0 <= i < |cs| ==> IsComponent(cs[i])
    decreases |s|
  {
    if s == "" then []
    else if s[0] == '/' then Components(s[1..])
    else
      var k := SegmentEnd(s);
      assert '/' !in s[..k];
      [s[..k]] + Components(s[k..])
  }

  /** The canonical absolute spelling of a component list: "/" for none, "/a/b" otherwise. */
  function AbsoluteOf(cs: seq<string>): string
  {
    "/" + Join("/", cs)
  }

  lemma SegmentOfComponent(c: string, rest: string)
    requires IsComponent(c)
    requires rest == "" || rest[0] == '/'
    ensures SegmentEnd(c + rest) == |c|
  {
    var k := SegmentEnd(c + rest);
    assert |c| < |c + rest| ==> (c + rest)[|c|] == '/';
    if k < |c| {
      assert false;
    } else if k > |c| {
      assert false;
    }
  }

  /** A leading slash contributes no component. */
  lemma ComponentsSkip(s: string)
    requires s != "" && s[0] == '/'
    ensures Components(s) == Components(s[1..])
  {
  }

  /** A leading segment is the first component. */
  lemma ComponentsTake(s: string, k: nat)
    requires s != "" && s[0] != '/' && k == SegmentEnd(s)
    ensures Components(s) == [s[..k]] + Components(s[k..])
  {
  }

  /** Splitting the canonical spelling of a component list gives the list back. */
  lemma {:induction false} ComponentsOfAbsolute(cs: seq<string>)
    requires forall i :: 0 <= i < |cs| ==> IsComponent(cs[i])
    ensures Components(AbsoluteOf(cs)) == cs
    decreases |cs|
  {
    AbsoluteSkip(cs);
    if |cs| == 1 {
      JoinTake(cs, "");
    } else if |cs| > 1 {
      var rest := AbsoluteOf(cs[1..]);
      JoinTake(cs, rest);
      ComponentsOfAbsolute(cs[1..]);
      assert cs == [cs[0]] + cs[1..];
    }
  }

  lemma AbsoluteSkip(cs: seq<string>)
    ensures Components(AbsoluteOf(cs)) == Components(Join("/", cs))
  {
    var s := AbsoluteOf(cs);
    assert s[1..] == Join("/", cs);
    ComponentsSkip(s);
  }

  /** The first component of a joined list, and what follows it. */
  lemma JoinTake(cs: seq<string>, rest: string)
    requires |cs| > 0 && IsComponent(cs[0])
    requires rest == if |cs| == 1 then "" else AbsoluteOf(cs[1..])
    ensures Components(Join("/", cs)) == [cs[0]] + Components(rest)
  {
    var body := Join("/", cs);
    assert body == cs[0] + rest;
    SegmentOfComponent(cs[0], rest);
    assert body[..|cs[0]|] == cs[0];
    assert body[|cs[0]|..] == rest;
    ComponentsTake(body, |cs[0]|);
  }

  /** A slash between two texts separates their components. */
  lemma {:induction false} ComponentsSlash(a: string, b: string)
    ensures Components(a + "/" + b) == Components(a) + Components(b)
    decreases |a|
  {
    if a == "" {
      SlashEmpty(a + "/" + b, b);
    } else if a[0] == '/' {
      ComponentsSlash(a[1..], b);
      SlashSkip(a, b, a + "/" + b);
    } else {
      var k := SegmentEnd(a);
      ComponentsSlash(a[k..], b);
      SlashTake(a, b, k, a + "/" + b);
    }
  }

  lemma SlashEmpty(s: string, b: string)
    requires s == "/" + b
    ensures Components(s) == Components("") + Components(b)
  {
    assert s[1..] == b;
    ComponentsSkip(s);
  }

  lemma SlashSkip(a: string, b: string, s: string)
    requires a != "" && a[0] == '/' && s == a + "/" + b
    requires Components(a[1..] + "/" + b) == Components(a[1..]) + Components(b)
    ensures Components(s) == Components(a) + Components(b)
  {
    SkipBoth(a, b, s);
    ComponentsSkip(a);
  }

  lemma SkipBoth(a: string, b: string, s: string)
    requires a != "" && a[0] == '/' && s == a + "/" + b
    ensures Components(s) == Components(a[1..] + "/" + b)
  {
    assert s[1..] == a[1..] + "/" + b;
    ComponentsSkip(s);
  }

  lemma SlashTake(a: string, b: string, k: nat, s: string)
    requires a != "" && a[0] != '/' && k == SegmentEnd(a) && s == a + "/" + b
    requires Components(a[k..] + "/" + b) == Components(a[k..]) + Components(b)
    ensures Components(s) == Components(a) + Components(b)
  {
    TakeBoth(a, b, k, s);
    ComponentsTake(a, k);
    AppendAssoc([a[..k]], Components(a[k..]), Components(b));
  }

  lemma TakeBoth(a: string, b: string, k: nat, s: string)
    requires a != "" && a[0] != '/' && k == SegmentEnd(a) && s == a + "/" + b
    ensures Components(s) == [a[..k]] + Components(a[k..] + "/" + b)
  {
    assert s == a + ("/" + b);
    SegmentPrefix(a, "/" + b, k);
    assert s[..k] == a[..k];
    assert s[k..] == a[k..] + "/" + b;
    ComponentsTake(s, k);
  }

  lemma SegmentPrefix(a: string, t: string, k: nat)
    requires a != "" && k == SegmentEnd(a)
    requires t != "" && t[0] == '/'
    ensures SegmentEnd(a + t) == k
  {
    var s := a + t;
    assert forall i :: 0 <= i < k ==> s[i] == a[i];
    assert k < |a| ==> s[k] == a[k];
    assert k == |a| ==> s[k] == t[0];
    assert forall i :: 0 <= i < k ==> s[i] != '/';
    assert s[k] == '/';
  }

  /** The components of a join: a relative tail extends the head, an absolute one replaces it. */
  lemma ComponentsOfJoin(a: string, b: string)
    ensures !IsAbsolute(b) ==> Components(PathJoin(a, b)) == Components(a) + Components(b)
    ensures IsAbsolute(b) ==> Components(PathJoin(a, b)) == Components(b)
  {
    if !IsAbsolute(b) {
      if a == "" {
        assert PathJoin(a, b) == b;
      } else if a[|a| - 1] == '/' {
        var h := a[..|a| - 1];
        assert a == h + "/" + "";
        assert PathJoin(a, b) == h + "/" + b;
        ComponentsSlash(h, "");
        ComponentsSlash(h, b);
      } else {
        ComponentsSlash(a, b);
      }
    }
  }

  // ---------------------------------------------------------------------
  // abspath: join with the working directory, then normpath.

  /** A name as a directory listing yields it: a component that is neither "." nor "..". */
  predicate IsPlain(c: string)
  {
    IsComponent(c) && c != "." && c != ".."
  }

  predicate AllPlain(cs: seq<string>)
  {
    forall i :: 0 <= i < |cs| ==> IsPlain(cs[i])
  }

  /**
   `posixpath.normpath` on an absolute path, component by component after
   `kept`: "." is dropped, ".." removes the last kept component (and is
   dropped at the root), anything else is kept.
   */
  function NormalizeFrom(kept: seq<string>, cs: seq<string>): (r: seq<string>)
    decreases |cs|
  {
    if |cs| == 0 then kept
    else if cs[0] == "." then NormalizeFrom(kept, cs[1..])
    else if cs[0] == ".." then NormalizeFrom(if |kept| == 0 then kept else kept[..|kept| - 1], cs[1..])
    else NormalizeFrom(kept + [cs[0]], cs[1..])
  }

  /** Normalizing components leaves only plain ones. */
  lemma {:induction false} NormalizePlainResult(kept: seq<string>, cs: seq<string>)
    requires AllPlain(kept)
    requires forall i :: 0 <= i < |cs| ==> IsComponent(cs[i])
    ensures AllPlain(NormalizeFrom(kept, cs))
    decreases |cs|
  {
    if |cs| > 0 {
      if cs[0] == "." {
        NormalizePlainResult(kept, cs[1..]);
      } else if cs[0] == ".." {
        NormalizePlainResult(if |kept| == 0 then kept else kept[..|kept| - 1], cs[1..]);
      } else {
        NormalizePlainResult(kept + [cs[0]], cs[1..]);
      }
    }
  }

  /** Normalization runs left to right: a path can be normalized piece by piece. */
  lemma {:induction false} NormalizeAppend(kept: seq<string>, xs: seq<string>, ys: seq<string>)
    ensures NormalizeFrom(kept, xs + ys) == NormalizeFrom(NormalizeFrom(kept, xs), ys)
    decreases |xs|
  {
    if |xs| == 0 {
      assert xs + ys == ys;
    } else {
      assert (xs + ys)[0] == xs[0] && (xs + ys)[1..] == xs[1..] + ys;
      var k' := if xs[0] == "." then kept
        else if xs[0] == ".." then (if |kept| == 0 then kept else kept[..|kept| - 1])
        else kept + [xs[0]];
      NormalizeAppend(k', xs[1..], ys);
    }
  }

  /** Plain components are kept as they are. */
  lemma {:induction false} NormalizeOfPlain(kept: seq<string>, cs: seq<string>)
    requires AllPlain(cs)
    ensures NormalizeFrom(kept, cs) == kept + cs
    decreases |cs|
  {
    if |cs| == 0 {
      assert kept + cs == kept;
    } else {
      NormalizeOfPlain(kept + [cs[0]], cs[1..]);
      assert kept + [cs[0]] + cs[1..] == kept + cs;
    }
  }

  /** The components of `os.path.abspath(path)` when the working directory is the absolute path `cwd`. */
  function AbsComponents(cwd: string, path: string): (cs: seq<string>)
    ensures AllPlain(cs)
  {
    var cs := Components(PathJoin(cwd, path));
    NormalizePlainResult([], cs);
    NormalizeFrom([], cs)
  }

  /**
   The one spelling whose leading slashes `posixpath.normpath` keeps as
   written: exactly two (a single one and three or more become "/").
   */
  predicate TwoSlashRoot(p: string)
  {
    |p| >= 2 && p[0] == '/' && p[1] == '/' && (|p| == 2 || p[2] != '/')
  }

  /**
   `os.path.abspath(path)`: the normalized components of the path joined
   onto the working directory, behind "//" when that joined path starts
   with exactly two slashes and behind "/" otherwise.
   */
  function Abspath(cwd: string, path: string): (r: string)
    ensures IsAbsolute(r)
    ensures Components(r) == AbsComponents(cwd, path)
    ensures TwoSlashRoot(r) <==> TwoSlashRoot(PathJoin(cwd, path))
  {
    var cs := AbsComponents(cwd, path);
    var single := AbsoluteOf(cs);
    ComponentsOfAbsolute(cs);
    JoinLead(cs);
    assert single[1..] == Join("/", cs);
    if TwoSlashRoot(PathJoin(cwd, path)) then
      ComponentsSkip("/" + single);
      assert ("/" + single)[1..] == single;
      "/" + single
    else single
  }

  /** A join of plain names does not start with a slash. */
  lemma JoinLead(cs: seq<string>)
    requires AllPlain(cs)
    ensures Join("/", cs) == "" || Join("/", cs)[0] != '/'
  {
    if |cs| > 1 {
      assert Join("/", cs) == cs[0] + "/" + Join("/", cs[1..]);
      assert Join("/", cs)[0] == cs[0][0];
    }
  }

  /** An absolute path names the same place from any working directory, and `abspath` is idempotent. */
  lemma AbspathIdempotent(cwd: string, path: string)
    ensures AbsComponents(cwd, Abspath(cwd, path)) == AbsComponents(cwd, path)
    ensures Abspath(cwd, Abspath(cwd, path)) == Abspath(cwd, path)
  {
    var cs := AbsComponents(cwd, path);
    NormalizeOfPlain([], cs);
    assert [] + cs == cs;
  }

  /** `abspath` keeps a leading "//" and collapses "///" and "/" alike to one slash. */
  lemma AbspathRoots(cwd: string, name: string)
    requires IsPlain(name)
    ensures Abspath(cwd, "//" + name) == "//" + name
    ensures Abspath(cwd, "/" + name) == "/" + name
    ensures Abspath(cwd, "///" + name) == "/" + name
  {
    var cs := [name];
    assert Join("/", cs) == name;
    NormalizeOfPlain([], cs);
    assert [] + cs == cs;
    ComponentsOfAbsolute(cs);
    ComponentsSkip("//" + name);
    assert ("//" + name)[1..] == "/" + name;
    ComponentsSkip("///" + name);
    assert ("///" + name)[1..] == "//" + name;
  }

  /** Resolving a relative tail against a directory and then the working directory adds its components at the end. */
  lemma ComponentsOfNestedJoin(cwd: string, dir: string, rel: string)
    requires !IsAbsolute(rel)
    ensures Components(PathJoin(cwd, PathJoin(dir, rel))) == Components(PathJoin(cwd, dir)) + Components(rel)
  {
    var j := PathJoin(dir, rel);
    JoinAbsoluteIff(dir, rel);
    ComponentsOfJoin(dir, rel);
    ComponentsOfJoin(cwd, dir);
    ComponentsOfJoin(cwd, j);
    if !IsAbsolute(dir) {
      AppendAssoc(Components(cwd), Components(dir), Components(rel));
    }
  }

  /** A join is absolute exactly when one of its parts is. */
  lemma JoinAbsoluteIff(a: string, b: string)
    ensures IsAbsolute(PathJoin(a, b)) <==> IsAbsolute(a) || IsAbsolute(b)
  {
    if !IsAbsolute(b) && a != "" {
      assert PathJoin(a, b)[0] == a[0];
    }
  }

  /** Appending plain names to a path appends them to its absolute components. */
  lemma AbsComponentsOfJoin(cwd: string, dir: string, rel: string)
    requires !IsAbsolute(rel) && AllPlain(Components(rel))
    ensures AbsComponents(cwd, PathJoin(dir, rel)) == AbsComponents(cwd, dir) + Components(rel)
  {
    ComponentsOfNestedJoin(cwd, dir, rel);
    NormalizeAppend([], Components(PathJoin(cwd, dir)), Components(rel));
    NormalizeOfPlain(AbsComponents(cwd, dir), Components(rel));
  }

  // ---------------------------------------------------------------------
  // relpath against the root, and the cache location.

  /** `os.path.relpath(path, os.path.abspath(os.sep))`: the absolute components joined, or "." for the root itself. */
  function RelativeToRoot(cwd: string, path: string): (r: string)
    ensures r != "" && !IsAbsolute(r)
  {
    var cs := AbsComponents(cwd, path);
    if cs == [] then "." else Join("/", cs)
  }

  /** `<tempdir>/shellpy/<user>`: the cache tree shared by every compiled file of one user. */
  function CacheRoot(tempdir: string, user: string): string
  {
    PathJoin(PathJoin(tempdir, "shellpy"), user)
  }

  /**
   `translate_to_temp_path(path)`: the absolute form of the path re-rooted
   under the per-user cache tree.
   */
  function TranslateToTemp(tempdir: string, user: string, cwd: string, path: string): (r: string)
    ensures CacheRoot(tempdir, user) <= r
    ensures r[|CacheRoot(tempdir, user)|..] in {RelativeToRoot(cwd, path), "/" + RelativeToRoot(cwd, path)}
  {
    var root := CacheRoot(tempdir, user);
    RelativeOfAbspath(cwd, path);
    var rel := RelativeToRoot(cwd, Abspath(cwd, path));
    JoinRest(root, rel);
    PathJoin(root, rel)
  }

  lemma RelativeOfAbspath(cwd: string, path: string)
    ensures RelativeToRoot(cwd, Abspath(cwd, path)) == RelativeToRoot(cwd, path)
  {
    AbspathIdempotent(cwd, path);
  }

  /** Joining a relative path keeps the first path as a prefix, followed by the second, with or without a separator. */
  lemma JoinRest(root: string, rel: string)
    requires !IsAbsolute(rel)
    ensures root <= PathJoin(root, rel)
    ensures PathJoin(root, rel)[|root|..] in {rel, "/" + rel}
  {
    assert (root + rel)[|root|..] == rel;
    assert (root + "/" + rel)[|root|..] == "/" + rel;
    assert root + "/" + rel == root + ("/" + rel);
  }

  lemma JoinNotDot(cs: seq<string>)
    requires |cs| > 0 && AllPlain(cs)
    ensures Join("/", cs) != "."
  {
    if |cs| > 1 {
      assert Join("/", cs) == cs[0] + "/" + Join("/", cs[1..]);
      assert |Join("/", cs)| > 1;
    }
  }

  lemma RelativeInjective(cwd: string, a: string, b: string)
    ensures RelativeToRoot(cwd, a) == RelativeToRoot(cwd, b) <==> AbsComponents(cwd, a) == AbsComponents(cwd, b)
  {
    var ca, cb := AbsComponents(cwd, a), AbsComponents(cwd, b);
    if RelativeToRoot(cwd, a) == RelativeToRoot(cwd, b) {
      if ca == [] && cb != [] {
        JoinNotDot(cb);
      } else if ca != [] && cb == [] {
        JoinNotDot(ca);
      } else if ca != [] && cb != [] {
        JoinInjective('/', ca, cb);
      }
    }
  }

  /**
   The cache location determines the source location: two paths share a
   cache path exactly when their absolute forms have the same components
   (so "//a" and "/a", which `abspath` spells differently, share one).
   */
  lemma TranslateInjective(tempdir: string, user: string, cwd: string, a: string, b: string)
    ensures TranslateToTemp(tempdir, user, cwd, a) == TranslateToTemp(tempdir, user, cwd, b)
      <==> Components(Abspath(cwd, a)) == Components(Abspath(cwd, b))
  {
    AbspathIdempotent(cwd, a);
    AbspathIdempotent(cwd, b);
    PathJoinCancel(CacheRoot(tempdir, user), RelativeToRoot(cwd, a), RelativeToRoot(cwd, b));
    RelativeInjective(cwd, a, b);
  }

  lemma {:induction false} JoinConcat(sep: string, xs: seq<string>, ys: seq<string>)
    requires |xs| > 0 && |ys| > 0
    ensures Join(sep, xs + ys) == Join(sep, xs) + sep + Join(sep, ys)
    decreases |xs|
  {
    if |xs| == 1 {
      assert (xs + ys)[0] == xs[0] && (xs + ys)[1..] == ys;
    } else {
      assert (xs + ys)[0] == xs[0] && (xs + ys)[1..] == xs[1..] + ys;
      JoinConcat(sep, xs[1..], ys);
    }
  }

  /** Below a directory other than the root, the relative path grows by the names added below it. */
  lemma RelativeBelow(cwd: string, dir: string, p: string, names: seq<string>)
    requires AbsComponents(cwd, p) == AbsComponents(cwd, dir) + names
    requires names != [] && AbsComponents(cwd, dir) != []
    ensures RelativeToRoot(cwd, p) == RelativeToRoot(cwd, dir) + "/" + Join("/", names)
  {
    JoinConcat("/", AbsComponents(cwd, dir), names);
  }

  /**
   Whatever lies below a directory (other than the root) is cached below
   that directory's cache path, under the same names.
   */
  lemma TranslateBelow(tempdir: string, user: string, cwd: string, dir: string, p: string, names: seq<string>)
    requires AbsComponents(cwd, p) == AbsComponents(cwd, dir) + names
    requires names != [] && AbsComponents(cwd, dir) != []
    ensures TranslateToTemp(tempdir, user, cwd, p) == TranslateToTemp(tempdir, user, cwd, dir) + "/" + Join("/", names)
  {
    var root := CacheRoot(tempdir, user);
    var head := RelativeToRoot(cwd, dir);
    var tail := Join("/", names);
    TranslateIsJoin(tempdir, user, cwd, dir);
    TranslateIsJoin(tempdir, user, cwd, p);
    RelativeBelow(cwd, dir, p, names);
    PathJoinExtend(root, head, tail);
  }

  /** Joining plain relative names onto a directory (other than the root) appends them to its cache path. */
  lemma TranslateNested(tempdir: string, user: string, cwd: string, dir: string, rel: string)
    requires !IsAbsolute(rel) && AllPlain(Components(rel)) && Components(rel) != []
    requires AbsComponents(cwd, dir) != []
    ensures TranslateToTemp(tempdir, user, cwd, PathJoin(dir, rel))
      == TranslateToTemp(tempdir, user, cwd, dir) + "/" + Join("/", Components(rel))
  {
    AbsComponentsOfJoin(cwd, dir, rel);
    TranslateBelow(tempdir, user, cwd, dir, PathJoin(dir, rel), Components(rel));
  }

  lemma PathJoinExtend(root: string, head: string, tail: string)
    requires head != "" && !IsAbsolute(head)
    ensures PathJoin(root, head + "/" + tail) == PathJoin(root, head) + "/" + tail
  {
    assert !IsAbsolute(head + "/" + tail);
  }

  /** The cache path is the relative path of the source joined onto the cache root. */
  lemma TranslateIsJoin(tempdir: string, user: string, cwd: string, path: string)
    ensures TranslateToTemp(tempdir, user, cwd, path) == PathJoin(CacheRoot(tempdir, user), RelativeToRoot(cwd, path))
  {
    AbspathIdempotent(cwd, path);
  }
}
