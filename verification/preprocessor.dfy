/**
 The shellpy compiler: `preprocess_file` turns one `.spy` script into a
 Python file in the per-user cache tree (a header template, then every
 source line through the two backtick passes), and `preprocess_module`
 compiles every `.spy` file of a package directory and returns where the
 compiled package lives.

 The filesystem is abstracted away: the text of the source and of the
 header templates, the working directory, the temporary directory, the
 user name, the umask and the directory walk are inputs.
 */
module Preprocessor {
  import opened Strings
  import opened Paths
  import opened Rewriter

  // ---------------------------------------------------------------------
  // spy_file_pattern = "(.*)\.spy$"

  /**
   `spy_file_pattern.match(name)`: anchored at the start, `.*` cannot cross
   a newline and `$` also matches just before a final newline.
   */
  predicate IsSpyName(name: string)
  {
    IsLine(name) && EndsWith(ChopNewline(name), ".spy")
  }

  /**
   `spy_file_pattern.sub(r"\1.py", path)`: the search tries every start
   position in turn; the first one from which the rest is a single line
   ending in ".spy" matches, and ".spy" becomes ".py" there. Nothing is
   left to match after it.
   */
  function RenameSpy(path: string): (r: string)
    decreases |path|
  {
    if path == "" then ""
    else if IsSpyName(path) then
      var c := ChopNewline(path);
      c[..|c| - 4] + ".py" + FinalNewline(path)
    else [path[0]] + RenameSpy(path[1..])
  }

  /** The closed form of the renaming: ".spy" at the end (before a final newline) becomes ".py"; anything else is kept. */
  function SpyToPy(path: string): string
  {
    Renamed(ChopNewline(path), FinalNewline(path))
  }

  /** A line body `c` and its final newline `f`, with a trailing ".spy" of the body turned into ".py". */
  function Renamed(c: string, f: string): string
  {
    if EndsWith(c, ".spy") then c[..|c| - 4] + ".py" + f else c + f
  }

  lemma RenamedCons(x: char, c: string, f: string)
    requires EndsWith([x] + c, ".spy") ==> |c| >= 4
    ensures Renamed([x] + c, f) == [x] + Renamed(c, f)
  {
    EndsWithCons(x, c, ".spy");
    if EndsWith([x] + c, ".spy") {
      ChopPrefix(x, c, 4);
    }
  }

  lemma ChopCons(s: string)
    requires |s| >= 2
    ensures ChopNewline(s) == [s[0]] + ChopNewline(s[1..])
    ensures FinalNewline(s) == FinalNewline(s[1..])
  {
    assert s[1..][|s[1..]| - 1] == s[|s| - 1];
    if EndsWithNewline(s) {
      assert s[..|s| - 1] == [s[0]] + s[1..][..|s[1..]| - 1];
    } else {
      assert s == [s[0]] + s[1..];
    }
  }

  lemma EndsWithCons(x: char, c: string, suffix: string)
    ensures EndsWith(c, suffix) ==> EndsWith([x] + c, suffix)
    ensures |suffix| <= |c| ==> (EndsWith([x] + c, suffix) <==> EndsWith(c, suffix))
  {
    var d := [x] + c;
    if |suffix| <= |c| {
      assert d[|d| - |suffix|..] == c[|c| - |suffix|..];
    }
  }

  /** The regular-expression search computes the closed form. */
  lemma {:induction false} RenameSpyClosedForm(path: string)
    ensures RenameSpy(path) == SpyToPy(path)
    decreases |path|
  {
    if path != "" && !IsSpyName(path) {
      RenameSpyClosedForm(path[1..]);
      if !IsLine(path) {
        ClosedFormStepNotLine(path);
      } else {
        ClosedFormStepNoSuffix(path);
      }
    }
  }

  /** A start position from which a newline still follows is skipped: the closed form commutes with dropping the first character. */
  lemma ClosedFormStepNotLine(path: string)
    requires !IsLine(path)
    ensures SpyToPy(path) == [path[0]] + SpyToPy(path[1..])
  {
    var i :| 0 <= i < |path| - 1 && path[i] == '\n';
    ChopCons(path);
    var c := ChopNewline(path);
    assert c[i] == '\n';
    if EndsWith(c, ".spy") {
      NewlineBeforeSuffix(c, i);
    }
    RenamedCons(path[0], ChopNewline(path[1..]), FinalNewline(path));
  }

  lemma NewlineBeforeSuffix(c: string, i: int)
    requires 0 <= i < |c| && c[i] == '\n' && EndsWith(c, ".spy")
    ensures i < |c| - 4
  {
    assert c[|c| - 4..] == ".spy";
    assert forall k :: |c| - 4 <= k < |c| ==> c[k] == c[|c| - 4..][k - (|c| - 4)];
  }

  lemma ChopPrefix(x: char, c: string, n: nat)
    requires n <= |c|
    ensures ([x] + c)[..|[x] + c| - n] == [x] + c[..|c| - n]
  {
  }

  /** A line that does not end in ".spy" has no suffix that does. */
  lemma ClosedFormStepNoSuffix(path: string)
    requires path != "" && IsLine(path) && !EndsWith(ChopNewline(path), ".spy")
    ensures SpyToPy(path) == [path[0]] + SpyToPy(path[1..])
  {
    if |path| >= 2 {
      NoSuffixStep(path);
    } else {
      NoSuffixSingle(path);
    }
  }

  lemma NoSuffixStep(path: string)
    requires |path| >= 2 && !EndsWith(ChopNewline(path), ".spy")
    ensures SpyToPy(path) == [path[0]] + SpyToPy(path[1..])
  {
    var x, c, f := path[0], ChopNewline(path[1..]), FinalNewline(path[1..]);
    ChopCons(path);
    assert ChopNewline(path) == [x] + c && FinalNewline(path) == f;
    RenamedCons(x, c, f);
  }

  lemma NoSuffixSingle(path: string)
    requires |path| == 1 && !EndsWith(ChopNewline(path), ".spy")
    ensures SpyToPy(path) == [path[0]] + SpyToPy(path[1..])
  {
    var t := path[1..];
    assert t == "";
    assert SpyToPy(t) == "";
    ChopNewlineSplit(path);
    assert SpyToPy(path) == path;
    assert path == [path[0]];
  }

  /** A newline-free path ending in ".spy" has exactly that suffix replaced by ".py". */
  lemma RenameSpySuffix(stem: string)
    requires '\n' !in stem
    ensures RenameSpy(stem + ".spy") == stem + ".py"
  {
    RenameSpyClosedForm(stem + ".spy");
    var p := stem + ".spy";
    assert !EndsWithNewline(p);
    assert p[|p| - 4..] == ".spy";
    assert p[..|p| - 4] == stem;
  }

  /** A newline-free path that does not end in ".spy" is left unchanged. */
  lemma RenameSpyOther(path: string)
    requires '\n' !in path && !EndsWith(path, ".spy")
    ensures RenameSpy(path) == path
  {
    RenameSpyClosedForm(path);
    assert forall i :: 0 <= i < |path| ==> path[i] != '\n';
  }

  /** Distinct newline-free ".spy" paths are renamed to distinct ".py" paths. */
  lemma RenameSpyInjective(a: string, b: string)
    requires '\n' !in a && '\n' !in b
    ensures RenameSpy(a + ".spy") == RenameSpy(b + ".spy") <==> a == b
  {
    RenameSpySuffix(a);
    RenameSpySuffix(b);
    if a + ".py" == b + ".py" {
      assert a == (a + ".py")[..|a|];
      assert b == (b + ".py")[..|b|];
    }
  }

  lemma RenamedAfter(pre: string, c: string, f: string)
    requires EndsWith(c, ".spy")
    ensures Renamed(pre + c, f) == pre + Renamed(c, f)
  {
    var u := pre + c;
    assert u[|u| - 4..] == c[|c| - 4..];
    assert u[..|u| - 4] == pre + c[..|c| - 4];
  }

  /** The renamed form of a file name is again a plain file name. */
  lemma RenamedNameIsPlain(name: string)
    requires IsSpyName(name) && '/' !in name
    ensures IsPlain(SpyToPy(name))
  {
    var c := ChopNewline(name);
    var f := FinalNewline(name);
    var stem := c[..|c| - 4];
    var renamed := stem + ".py" + f;
    assert SpyToPy(name) == renamed;
    assert forall i :: 0 <= i < |stem| ==> stem[i] == name[i];
    assert f == "" || f == "\n";
    assert '/' !in renamed;
    assert renamed[|stem|..|stem| + 3] == ".py";
  }

  /** Renaming a name inside a directory renames only the name. */
  lemma RenameSpyInDir(dir: string, name: string)
    requires IsSpyName(name) && '/' !in name
    ensures RenameSpy(PathJoin(dir, name)) == PathJoin(dir, RenameSpy(name))
    ensures IsPlain(RenameSpy(name))
  {
    RenameSpyClosedForm(name);
    RenamedNameIsPlain(name);
    var pre := if dir == "" || dir[|dir| - 1] == '/' then dir else dir + "/";
    assert name[0] != '/' by {
      assert name[0] in name;
    }
    assert PathJoin(dir, name) == pre + name;
    var r := SpyToPy(name);
    assert r[0] != '/' by {
      assert r[0] in r;
    }
    assert PathJoin(dir, r) == pre + r;
    RenameSpyClosedForm(pre + name);
    ChopAfter(pre, name);
    RenamedAfter(pre, ChopNewline(name), FinalNewline(name));
  }

  // ---------------------------------------------------------------------
  // Headers and the compiled text.

  /** The template `preprocess_file` puts in front of the compiled lines. */
  function HeaderName(isRootScript: bool): (name: string)
    ensures name == "header_root.tpl" <==> isRootScript
    ensures name == "header.tpl" <==> !isRootScript
  {
    if isRootScript then "header_root.tpl" else "header.tpl"
  }

  /** Every line of a list through both backtick passes, in order. */
  function RewriteAll(lines: seq<string>): (r: seq<string>)
    ensures |r| == |lines|
    ensures forall i :: 0 <= i < |lines| ==> r[i] == Rewrite(lines[i])
    decreases |lines|
  {
    if |lines| == 0 then [] else [Rewrite(lines[0])] + RewriteAll(lines[1..])
  }

  /** The compiled body: the source's `readlines()`, each rewritten, written back one after the other. */
  function CompileBody(source: string): string
  {
    Concat(RewriteAll(ReadLines(source)))
  }

  /** Rewriting keeps a `readlines` list well formed. */
  lemma RewriteAllWellFormed(lines: seq<string>)
    requires WellFormedLines(lines)
    ensures WellFormedLines(RewriteAll(lines))
    ensures forall i :: 0 <= i < |lines| ==> '`' !in RewriteAll(lines)[i]
    ensures NewlineTotal(RewriteAll(lines)) == NewlineTotal(lines)
  {
    var r := RewriteAll(lines);
    RewriteAllPointwise(lines, r);
    RewriteAllLines(lines, r);
    RewriteAllNewlines(lines, r);
  }

  lemma RewriteAllLines(lines: seq<string>, r: seq<string>)
    requires WellFormedLines(lines) && |r| == |lines|
    requires forall i :: 0 <= i < |lines| ==>
      && r[i] != "" && IsLine(r[i])
      && (EndsWithNewline(r[i]) <==> EndsWithNewline(lines[i]))
    ensures WellFormedLines(r)
  {
  }

  lemma RewriteAllNewlines(lines: seq<string>, r: seq<string>)
    requires r == RewriteAll(lines)
    requires forall i :: 0 <= i < |lines| ==> Count(r[i], '\n') == Count(lines[i], '\n')
    ensures NewlineTotal(r) == NewlineTotal(lines)
  {
    assert |r| == |lines|;
    NewlineTotalPointwise(r, lines);
  }

  /** What `RewriteLineShape` says of each line, for every line of a list at once. */
  lemma RewriteAllPointwise(lines: seq<string>, r: seq<string>)
    requires forall i :: 0 <= i < |lines| ==> IsLine(lines[i]) && lines[i] != ""
    requires |r| == |lines| && forall i :: 0 <= i < |lines| ==> r[i] == Rewrite(lines[i])
    ensures forall i :: 0 <= i < |lines| ==> r[i] != "" && IsLine(r[i])
    ensures forall i :: 0 <= i < |lines| ==> '`' !in r[i]
    ensures forall i :: 0 <= i < |lines| ==> (EndsWithNewline(r[i]) <==> EndsWithNewline(lines[i]))
    ensures forall i :: 0 <= i < |lines| ==> Count(r[i], '\n') == Count(lines[i], '\n')
  {
    forall i | 0 <= i < |lines|
      ensures r[i] != "" && IsLine(r[i]) && '`' !in r[i]
      ensures EndsWithNewline(r[i]) <==> EndsWithNewline(lines[i])
      ensures Count(r[i], '\n') == Count(lines[i], '\n')
    {
      RewrittenShape(lines[i], r[i]);
    }
  }

  lemma RewrittenShape(line: string, out: string)
    requires IsLine(line) && line != "" && out == Rewrite(line)
    ensures out != "" && IsLine(out) && '`' !in out
    ensures EndsWithNewline(out) <==> EndsWithNewline(line)
    ensures Count(out, '\n') == Count(line, '\n')
  {
    RewriteLineShape(line);
  }

  lemma {:induction false} NewlineTotalPointwise(xs: seq<string>, ys: seq<string>)
    requires |xs| == |ys|
    requires forall i :: 0 <= i < |xs| ==> Count(xs[i], '\n') == Count(ys[i], '\n')
    ensures NewlineTotal(xs) == NewlineTotal(ys)
    decreases |xs|
  {
    if |xs| > 0 {
      NewlineTotalPointwise(xs[1..], ys[1..]);
    }
  }

  /**
   The compiled body has one line per source line, each the rewrite of the
   source line at the same position; no backtick survives and no newline is
   added or lost.
   */
  lemma CompileBodyLines(source: string)
    ensures ReadLines(CompileBody(source)) == RewriteAll(ReadLines(source))
    ensures |ReadLines(CompileBody(source))| == |ReadLines(source)|
    ensures '`' !in CompileBody(source)
    ensures Count(CompileBody(source), '\n') == Count(source, '\n')
  {
    var lines := ReadLines(source);
    RewriteAllWellFormed(lines);
    ReadLinesOfConcat(RewriteAll(lines));
    NotInConcat(RewriteAll(lines), '`');
    CountOfConcat(RewriteAll(lines));
    CountOfConcat(lines);
  }

  /** A source without backticks compiles to itself. */
  lemma {:induction false} CompileBodyUnchanged(source: string)
    requires '`' !in source
    ensures CompileBody(source) == source
  {
    var lines := ReadLines(source);
    UnchangedLines(lines);
  }

  lemma {:induction false} UnchangedLines(lines: seq<string>)
    requires '`' !in Concat(lines)
    ensures Concat(RewriteAll(lines)) == Concat(lines)
    decreases |lines|
  {
    if |lines| > 0 {
      assert '`' !in lines[0] && '`' !in Concat(lines[1..]) by {
        assert Concat(lines) == lines[0] + Concat(lines[1..]);
      }
      RewriteUnchanged(lines[0]);
      UnchangedLines(lines[1..]);
    }
  }

  // ---------------------------------------------------------------------
  // File modes.

  /** `stat.S_IFREG`, the regular-file type bits of `st_mode`. */
  const RegularFile: bv32 := 0x8000
  /** `stat.S_IEXEC`: execute permission for the owner (0o100). */
  const OwnerExec: bv32 := 0x40
  /** 0o666: the permissions `open(path, 'w')` asks for when it creates a file. */
  const CreateMode: bv32 := 0x1B6
  /** 0o7777: the bits `chmod` takes from its argument. */
  const ChmodMask: bv32 := 0xFFF

  /** `st_mode` of a file just created by `open(path, 'w')` under `umask`. */
  function CreatedMode(umask: bv32): bv32
  {
    RegularFile | (CreateMode & !umask)
  }

  /** `mode | stat.S_IEXEC`. */
  function WithExecBit(mode: bv32): (r: bv32)
    ensures r & OwnerExec == OwnerExec
    ensures r & !OwnerExec == mode & !OwnerExec
  {
    mode | OwnerExec
  }

  lemma WithExecBitIdempotent(mode: bv32)
    ensures WithExecBit(WithExecBit(mode)) == WithExecBit(mode)
    ensures mode & OwnerExec == OwnerExec <==> WithExecBit(mode) == mode
  {
  }

  /**
   The permission bits of a compiled file after `os.chmod(out, st.st_mode | stat.S_IEXEC)`:
   the owner may execute it, read and write permissions are whatever the
   umask allows, and nobody else gains execute permission.
   */
  function CompiledMode(umask: bv32): (r: bv32)
    ensures r & OwnerExec == OwnerExec
    ensures r & CreateMode == CreateMode & !umask
    ensures r & 0x9 == 0
    ensures r & !(CreateMode | OwnerExec) == 0
  {
    WithExecBit(CreatedMode(umask)) & ChmodMask
  }

  // ---------------------------------------------------------------------
  // preprocess_file and preprocess_module.

  /**
   What the compiler needs from the machine it runs on: the working
   directory (absolute), `tempfile.gettempdir()`, `getpass.getuser()`, the
   process umask, and the text of a template next to the compiler.
   */
  datatype Env = Env(cwd: string, tempdir: string, user: string, umask: bv32, template: string -> string)

  /** One file written by the compiler. */
  datatype Output = Output(path: string, text: string, mode: bv32)

  /** The cache path of a source path, `translate_to_temp_path(path)`. */
  function CachePath(env: Env, path: string): (r: string)
    ensures CacheRoot(env.tempdir, env.user) <= r
  {
    TranslateToTemp(env.tempdir, env.user, env.cwd, path)
  }

  /** `preprocess_file(filepath, is_root_script)`, given the text of the source file. */
  function PreprocessFile(env: Env, filepath: string, isRootScript: bool, source: string): (out: Output)
    ensures out.path == CachePath(env, RenameSpy(filepath))
    ensures out.text == env.template(HeaderName(isRootScript)) + CompileBody(source)
    ensures '`' !in out.text[|env.template(HeaderName(isRootScript))|..]
    ensures out.mode & OwnerExec == OwnerExec
  {
    var header := env.template(HeaderName(isRootScript));
    var processed := [header] + RewriteAll(ReadLines(source));
    ConcatAppend([header], RewriteAll(ReadLines(source)));
    CompileBodyLines(source);
    assert Concat(processed) == header + CompileBody(source);
    assert (header + CompileBody(source))[|header|..] == CompileBody(source);
    Output(CachePath(env, RenameSpy(filepath)), Concat(processed), CompiledMode(env.umask))
  }

  /**
   With a header that ends its last line, the compiled file reads back as
   the header's lines followed by the rewritten source lines, one for one.
   */
  lemma PreprocessFileLayout(env: Env, filepath: string, isRootScript: bool, source: string)
    requires var h := env.template(HeaderName(isRootScript)); h == "" || EndsWithNewline(h)
    ensures ReadLines(PreprocessFile(env, filepath, isRootScript, source).text)
      == ReadLines(env.template(HeaderName(isRootScript))) + RewriteAll(ReadLines(source))
  {
    var h := env.template(HeaderName(isRootScript));
    var hs := ReadLines(h);
    var body := RewriteAll(ReadLines(source));
    RewriteAllWellFormed(ReadLines(source));
    if h != "" {
      LastLineEnds(h);
    }
    WellFormedAppend(hs, body);
    ConcatAppend([h], body);
    ConcatAppend(hs, body);
    assert PreprocessFile(env, filepath, isRootScript, source).text == Concat(hs + body);
    ReadLinesOfConcat(hs + body);
  }

  /**
   One triple of `os.walk(top)`: the directory, reached from `top` through
   the subdirectory names `below` (each joined on as `os.walk` does), and
   the names of the files in it.
   */
  datatype WalkEntry = WalkEntry(below: seq<string>, files: seq<string>)

  /** The directory path `os.walk` reports for an entry. */
  function WalkDir(top: string, below: seq<string>): string
    decreases |below|
  {
    if |below| == 0 then top else WalkDir(PathJoin(top, below[0]), below[1..])
  }

  /** The `.spy` files of one directory, as `os.path.join(path, file)`, in listing order. */
  function SpyFilesIn(dir: string, files: seq<string>): (r: seq<string>)
    ensures forall p :: p in r <==> exists j :: 0 <= j < |files| && IsSpyName(files[j]) && p == PathJoin(dir, files[j])
    decreases |files|
  {
    if |files| == 0 then []
    else
      var rest := SpyFilesIn(dir, files[1..]);
      assert forall j :: 1 <= j < |files| ==> files[j] == files[1..][j - 1];
      if IsSpyName(files[0]) then [PathJoin(dir, files[0])] + rest else rest
  }

  /** Every `.spy` file the walk reports, directory by directory. */
  function SpyFiles(top: string, walk: seq<WalkEntry>): (r: seq<string>)
    ensures forall p :: p in r <==> exists i :: 0 <= i < |walk| && p in SpyFilesIn(WalkDir(top, walk[i].below), walk[i].files)
    decreases |walk|
  {
    if |walk| == 0 then []
    else
      var rest := SpyFiles(top, walk[1..]);
      assert forall i :: 1 <= i < |walk| ==> walk[i] == walk[1..][i - 1];
      SpyFilesIn(WalkDir(top, walk[0].below), walk[0].files) + rest
  }

  /** The walked files `preprocess_module` compiles: exactly those whose name matches the pattern. */
  lemma SpyFilesExactly(top: string, walk: seq<WalkEntry>, p: string)
    ensures p in SpyFiles(top, walk) <==>
      exists i, j :: 0 <= i < |walk| && 0 <= j < |walk[i].files| && IsSpyName(walk[i].files[j])
        && p == PathJoin(WalkDir(top, walk[i].below), walk[i].files[j])
  {
  }

  /** `preprocess_file(path, is_root_script=False)` for each path, in order. */
  function CompileAll(env: Env, paths: seq<string>, read: string -> string): (r: seq<Output>)
    ensures |r| == |paths|
    ensures forall k :: 0 <= k < |paths| ==> r[k] == PreprocessFile(env, paths[k], false, read(paths[k]))
  {
    Each(p => PreprocessFile(env, p, false, read(p)), paths)
  }

  /** What `preprocess_module` writes, and the path it returns. */
  datatype ModuleOutput = ModuleOutput(written: seq<Output>, path: string)

  /** `preprocess_module(module_path)`, given the walk of the package and the text of each file. */
  function PreprocessModule(env: Env, modulePath: string, walk: seq<WalkEntry>, read: string -> string): (r: ModuleOutput)
    ensures |r.written| == |SpyFiles(modulePath, walk)|
    ensures forall k :: 0 <= k < |r.written| ==>
      r.written[k] == PreprocessFile(env, SpyFiles(modulePath, walk)[k], false, read(SpyFiles(modulePath, walk)[k]))
    ensures forall k :: 0 <= k < |r.written| ==> env.template("header.tpl") <= r.written[k].text
    ensures r.path == CachePath(env, modulePath)
  {
    ModuleOutput(CompileAll(env, SpyFiles(modulePath, walk), read), CachePath(env, modulePath))
  }

  /** Following plain names down from a directory appends them to its absolute components. */
  lemma WalkDirComponents(cwd: string, top: string, below: seq<string>)
    requires AllPlain(below)
    ensures AbsComponents(cwd, WalkDir(top, below)) == AbsComponents(cwd, top) + below
  {
    forall t, name | IsPlain(name)
      ensures AbsComponents(cwd, PathJoin(t, name)) == AbsComponents(cwd, t) + [name]
    {
      ComponentsOfPlain(name);
      AbsComponentsOfJoin(cwd, t, name);
    }
    WalkDirFold(x => AbsComponents(cwd, x), top, below);
  }

  /** Any view of a path that grows by one name per plain join grows by all the names a walk descends through. */
  lemma {:induction false} WalkDirFold(view: string -> seq<string>, top: string, below: seq<string>)
    requires AllPlain(below)
    requires forall t, name :: IsPlain(name) ==> view(PathJoin(t, name)) == view(t) + [name]
    ensures view(WalkDir(top, below)) == view(top) + below
    decreases |below|
  {
    if |below| == 0 {
      assert view(top) + below == view(top);
    } else {
      var name, rest := below[0], below[1..];
      assert AllPlain(rest);
      WalkDirFold(view, PathJoin(top, name), rest);
      assert below == [name] + rest;
      AppendAssoc(view(top), [name], rest);
    }
  }

  lemma ComponentsOfPlain(name: string)
    requires IsPlain(name)
    ensures Components(name) == [name] && !IsAbsolute(name)
  {
    assert name[0] != '/' by {
      assert name[0] in name;
    }
    SegmentOfComponent(name, "");
    assert name + "" == name;
  }

  /**
   The directory `preprocess_module` returns holds every file it compiled:
   a `.spy` file reached through plain directory names lands below the
   returned path under the same names, with ".spy" turned into ".py". (The
   package directory is not the filesystem root.)
   */
  lemma ModuleHoldsItsFiles(env: Env, modulePath: string, below: seq<string>, name: string, source: string)
    requires AllPlain(below) && IsSpyName(name) && '/' !in name
    requires AbsComponents(env.cwd, modulePath) != []
    ensures PreprocessFile(env, PathJoin(WalkDir(modulePath, below), name), false, source).path
      == CachePath(env, modulePath) + "/" + Join("/", below + [RenameSpy(name)])
  {
    var dir := WalkDir(modulePath, below);
    RenameSpyInDir(dir, name);
    var renamed := RenameSpy(name);
    ComponentsOfPlain(renamed);
    WalkDirComponents(env.cwd, modulePath, below);
    AbsComponentsOfJoin(env.cwd, dir, renamed);
    var p := PathJoin(dir, renamed);
    assert AbsComponents(env.cwd, p) == AbsComponents(env.cwd, modulePath) + (below + [renamed]);
    TranslateBelow(env.tempdir, env.user, env.cwd, modulePath, p, below + [renamed]);
  }
}
