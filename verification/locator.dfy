/**
 Finding shellpy sources on the Python search path. The filesystem is the
 set of paths that exist (`os.path.exists`); `sys.path` is the ordered
 list of roots.
 */
module Locator {
  import opened Strings
  import opened Paths

  const SpyExtension: string := ".spy"
  const PackageInit: string := "__init__.spy"

  /** The path `locate_spy_file` tries under one root. */
  function FileCandidate(root: string, name: string): string
  {
    PathJoin(root, name + SpyExtension)
  }

  /** The path `locate_spy_module` tries under one root. */
  function ModuleCandidate(root: string, name: string): string
  {
    PathJoin(root, name)
  }

  /** Whether a root holds the shellpy file. */
  predicate HasFile(fs: set<string>, root: string, name: string)
  {
    FileCandidate(root, name) in fs
  }

  /** Whether a root holds a shellpy package: the directory exists and holds `__init__.spy`. */
  predicate HasModule(fs: set<string>, root: string, name: string)
  {
    ModuleCandidate(root, name) in fs && PathJoin(ModuleCandidate(root, name), PackageInit) in fs
  }

  /** `locate_spy_file(file_name)`: the first root, in order, holding the file. */
  function LocateSpyFile(searchPath: seq<string>, fs: set<string>, name: string): (r: Option<string>)
    ensures r == None <==> forall i :: 0 <= i < |searchPath| ==> !HasFile(fs, searchPath[i], name)
    ensures r != None ==> r.value in fs
    ensures r != None ==> exists i :: 0 <= i < |searchPath| && r.value == FileCandidate(searchPath[i], name)
    decreases |searchPath|
  {
    if |searchPath| == 0 then None
    else if HasFile(fs, searchPath[0], name) then Some(FileCandidate(searchPath[0], name))
    else
      var r := LocateSpyFile(searchPath[1..], fs, name);
      assert forall i :: 1 <= i < |searchPath| ==> searchPath[i] == searchPath[1..][i - 1];
      r
  }

  /** `locate_spy_module(module_name)`: the first root, in order, holding the package. */
  function LocateSpyModule(searchPath: seq<string>, fs: set<string>, name: string): (r: Option<string>)
    ensures r == None <==> forall i :: 0 <= i < |searchPath| ==> !HasModule(fs, searchPath[i], name)
    ensures r != None ==> r.value in fs && PathJoin(r.value, PackageInit) in fs
    ensures r != None ==> exists i :: 0 <= i < |searchPath| && r.value == ModuleCandidate(searchPath[i], name)
    decreases |searchPath|
  {
    if |searchPath| == 0 then None
    else if HasModule(fs, searchPath[0], name) then Some(ModuleCandidate(searchPath[0], name))
    else
      var r := LocateSpyModule(searchPath[1..], fs, name);
      assert forall i :: 1 <= i < |searchPath| ==> searchPath[i] == searchPath[1..][i - 1];
      r
  }

  /** The first root that holds the file wins: every earlier root lacks it. */
  lemma {:induction false} LocateSpyFileFirst(searchPath: seq<string>, fs: set<string>, name: string, k: nat)
    requires k < |searchPath| && HasFile(fs, searchPath[k], name)
    requires forall i :: 0 <= i < k ==> !HasFile(fs, searchPath[i], name)
    ensures LocateSpyFile(searchPath, fs, name) == Some(FileCandidate(searchPath[k], name))
    decreases k
  {
    if k > 0 {
      assert !HasFile(fs, searchPath[0], name);
      var rest := searchPath[1..];
      assert forall i :: 0 <= i < k - 1 ==> rest[i] == searchPath[i + 1];
      LocateSpyFileFirst(rest, fs, name, k - 1);
    }
  }

  /** The first root that holds the package wins; roots with the directory but no `__init__.spy` are passed over. */
  lemma {:induction false} LocateSpyModuleFirst(searchPath: seq<string>, fs: set<string>, name: string, k: nat)
    requires k < |searchPath| && HasModule(fs, searchPath[k], name)
    requires forall i :: 0 <= i < k ==> !HasModule(fs, searchPath[i], name)
    ensures LocateSpyModule(searchPath, fs, name) == Some(ModuleCandidate(searchPath[k], name))
    decreases k
  {
    if k > 0 {
      assert !HasModule(fs, searchPath[0], name);
      var rest := searchPath[1..];
      assert forall i :: 0 <= i < k - 1 ==> rest[i] == searchPath[i + 1];
      LocateSpyModuleFirst(rest, fs, name, k - 1);
    }
  }

  /** The same search written as a loop over `sys.path`, as the source does. */
  method FindSpyFile(searchPath: seq<string>, fs: set<string>, name: string) returns (r: Option<string>)
    ensures r == LocateSpyFile(searchPath, fs, name)
  {
    var i := 0;
    while i < |searchPath|
      invariant 0 <= i <= |searchPath|
      invariant forall j :: 0 <= j < i ==> !HasFile(fs, searchPath[j], name)
    {
      var candidate := FileCandidate(searchPath[i], name);
      if candidate in fs {
        LocateSpyFileFirst(searchPath, fs, name, i);
        return Some(candidate);
      }
      i := i + 1;
    }
    return None;
  }

  method FindSpyModule(searchPath: seq<string>, fs: set<string>, name: string) returns (r: Option<string>)
    ensures r == LocateSpyModule(searchPath, fs, name)
  {
    var i := 0;
    while i < |searchPath|
      invariant 0 <= i <= |searchPath|
      invariant forall j :: 0 <= j < i ==> !HasModule(fs, searchPath[j], name)
    {
      var candidate := ModuleCandidate(searchPath[i], name);
      if candidate in fs && PathJoin(candidate, PackageInit) in fs {
        LocateSpyModuleFirst(searchPath, fs, name, i);
        return Some(candidate);
      }
      i := i + 1;
    }
    return None;
  }

  /** A root that does not hold the file is passed over: the answer is the rest of the search. */
  lemma LocateSpyFileSkips(searchPath: seq<string>, fs: set<string>, name: string)
    requires |searchPath| > 0 && FileCandidate(searchPath[0], name) !in fs
    ensures LocateSpyFile(searchPath, fs, name) == LocateSpyFile(searchPath[1..], fs, name)
  {
  }

  /**
   A root whose directory of that name is missing, or exists without
   `__init__.spy`, is passed over: the answer is the rest of the search.
   */
  lemma LocateSpyModuleSkips(searchPath: seq<string>, fs: set<string>, name: string)
    requires |searchPath| > 0
    requires ModuleCandidate(searchPath[0], name) !in fs || PathJoin(ModuleCandidate(searchPath[0], name), PackageInit) !in fs
    ensures LocateSpyModule(searchPath, fs, name) == LocateSpyModule(searchPath[1..], fs, name)
  {
  }

  /** The candidate paths of the two-root example below. */
  lemma ExampleCandidates()
    ensures ModuleCandidate("/a", "m") == "/a/m" && ModuleCandidate("/b", "m") == "/b/m"
    ensures FileCandidate("/a", "m") == "/a/m.spy" && FileCandidate("/b", "m") == "/b/m.spy"
  {
  }

  lemma ExampleInits()
    ensures PathJoin("/a/m", PackageInit) == "/a/m/__init__.spy"
    ensures PathJoin("/b/m", PackageInit) == "/b/m/__init__.spy"
  {
  }

  /**
   A directory `m` without `__init__.spy` under the first root does not stop
   the search; the package under the second root is found.
   */
  lemma SkipScenario(searchPath: seq<string>, fs: set<string>)
    requires searchPath == ["/a", "/b"]
    requires fs == {"/a/m", "/b/m", "/b/m/__init__.spy"}
    ensures LocateSpyModule(searchPath, fs, "m") == Some("/b/m")
  {
    ExampleCandidates();
    ExampleInits();
    assert !HasModule(fs, "/a", "m");
    assert HasModule(fs, "/b", "m");
    LocateSpyModuleFirst(searchPath, fs, "m", 1);
  }

  /** Neither root of the example holds `m.spy`, so the file search finds nothing. */
  lemma NoFileScenario(searchPath: seq<string>, fs: set<string>)
    requires searchPath == ["/a", "/b"]
    requires fs == {"/a/m", "/b/m", "/b/m/__init__.spy"}
    ensures LocateSpyFile(searchPath, fs, "m") == None
  {
    ExampleCandidates();
    assert !HasFile(fs, "/a", "m") && !HasFile(fs, "/b", "m");
  }
}
