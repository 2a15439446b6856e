/** How the managed adapter finds the native library: the platform's file name and
    runtime identifier, the ordered list of candidate paths, the walk up to the
    repository root and first-success loading. The file system and the loader are
    oracles passed in as functions. */
module LibraryLocator {
  import opened Wrappers
  import Text

  const LibraryBaseName: string := "jf_native_abi"
  const SolutionFileName: string := "Jellyfin.sln"

  datatype Os = Windows | MacOS | Linux | OtherOs
  datatype Architecture = X64 | Arm64 | X86 | Arm | OtherArchitecture
  datatype Platform = Platform(os: Os, architecture: Architecture)

  predicate EndsWith(s: string, suffix: string) {
    |suffix| <= |s| && s[|s| - |suffix|..] == suffix
  }

  /** The shared-library file name the platform's loader expects. */
  function PlatformLibraryFileName(os: Os): (name: string)
    ensures os == Windows ==> name == LibraryBaseName + ".dll"
    ensures os == MacOS ==> name == "lib" + LibraryBaseName + ".dylib"
    ensures os != Windows && os != MacOS ==> name == "lib" + LibraryBaseName + ".so"
  {
    match os
    case Windows => LibraryBaseName + ".dll"
    case MacOS => "lib" + LibraryBaseName + ".dylib"
    case _ => "lib" + LibraryBaseName + ".so"
  }

  function ArchitectureName(a: Architecture): string {
    match a
    case X64 => "x64"
    case Arm64 => "arm64"
    case _ => ""
  }

  function OsPrefix(os: Os): string {
    match os
    case Windows => "win-"
    case MacOS => "osx-"
    case Linux => "linux-"
    case OtherOs => ""
  }

  /** `{win|osx|linux}-{x64|arm64}`, or empty for any other architecture or OS. */
  function RuntimeIdentifier(p: Platform): (rid: string)
    ensures rid == [] <==> ArchitectureName(p.architecture) == [] || p.os == OtherOs
    ensures rid != [] ==> rid == OsPrefix(p.os) + ArchitectureName(p.architecture)
  {
    var arch := ArchitectureName(p.architecture);
    if arch == [] then []
    else match p.os
      case Windows => "win-" + arch
      case MacOS => "osx-" + arch
      case Linux => "linux-" + arch
      case OtherOs => []
  }

  /** Distinct platforms give distinct runtime identifiers; only the two supported
      architectures on the three named systems give one at all. */
  lemma RuntimeIdentifierInjective(p: Platform, q: Platform)
    requires RuntimeIdentifier(p) != [] && RuntimeIdentifier(p) == RuntimeIdentifier(q)
    ensures p == q
  {
    var r := RuntimeIdentifier(p);
    assert r == OsPrefix(p.os) + ArchitectureName(p.architecture);
    assert r == OsPrefix(q.os) + ArchitectureName(q.architecture);
    assert r[0] == OsPrefix(p.os)[0] == OsPrefix(q.os)[0];
    assert p.os == q.os;
    var n := |OsPrefix(p.os)|;
    assert r[n..] == ArchitectureName(p.architecture) == ArchitectureName(q.architecture);
    assert r[n] == ArchitectureName(p.architecture)[0];
  }

  /** The three file names differ, so a library built for one system is never picked
      up by name on another. */
  lemma PlatformLibraryFileNamesDistinct(os: Os, other: Os)
    ensures os != other && (os == Windows || os == MacOS || other == Windows || other == MacOS) ==>
      PlatformLibraryFileName(os) != PlatformLibraryFileName(other)
  {
    var a := PlatformLibraryFileName(os);
    var b := PlatformLibraryFileName(other);
    if os != other && (os == Windows || other == Windows) {
      assert a[0] != b[0];
    } else if os != other && (os == MacOS || other == MacOS) {
      assert |a| != |b|;
    }
  }

  /** `Path.Combine` of two parts with `/` as the separator: an empty second part
      leaves the first, a rooted second part replaces it, and a separator is added
      unless the first already ends with one. */
  function Combine(a: string, b: string): string {
    if b == [] then a
    else if b[0] == '/' || a == [] then b
    else if a[|a| - 1] == '/' then a + b
    else a + "/" + b
  }

  /** The combined path ends with its last part. */
  lemma CombineEndsWith(a: string, b: string)
    ensures EndsWith(Combine(a, b), b)
  {
    var r := Combine(a, b);
    assert r[|r| - |b|..] == b;
  }

  /** An absolute directory, as the names of its components from the root. */
  type Dir = seq<string>

  function Join(d: Dir): string
    decreases |d|
  {
    if |d| == 0 then [] else if |d| == 1 then d[0] else d[0] + "/" + Join(d[1..])
  }

  /** `DirectoryInfo.FullName`: the root is `/`. */
  function FullName(d: Dir): (s: string)
    ensures s != [] && s[0] == '/'
  {
    "/" + Join(d)
  }

  /** `DirectoryInfo.Parent`: none for the root. */
  function Parent(d: Dir): (p: Option<Dir>)
    ensures d == [] <==> p.None?
    ensures p.Some? ==> p.value == d[..|d| - 1]
  {
    if d == [] then None else Some(d[..|d| - 1])
  }

  predicate HasSolution(d: Dir, fileExists: string -> bool) {
    fileExists(Combine(FullName(d), SolutionFileName))
  }

  /** The ancestor of `start` that keeps its first `j` components holds the solution
      file. */
  predicate RootAt(start: Dir, fileExists: string -> bool, j: nat)
    requires j <= |start|
  {
    HasSolution(start[..j], fileExists)
  }

  /** The length of the longest prefix of `start` no longer than `k` that holds the
      solution file. */
  function Nearest(start: Dir, fileExists: string -> bool, k: nat): (r: Option<nat>)
    requires k <= |start|
    ensures r.Some? ==> r.value <= k && RootAt(start, fileExists, r.value)
  {
    if RootAt(start, fileExists, k) then Some(k)
    else if k == 0 then None
    else Nearest(start, fileExists, k - 1)
  }

  /** `Nearest` finds no ancestor exactly when none holds the solution file. */
  lemma {:induction false} NearestNone(start: Dir, fileExists: string -> bool, k: nat)
    requires k <= |start|
    ensures Nearest(start, fileExists, k).None? <==> forall j :: 0 <= j <= k ==> !RootAt(start, fileExists, j)
    decreases k
  {
    if !RootAt(start, fileExists, k) && k > 0 {
      NearestNone(start, fileExists, k - 1);
    }
  }

  /** `Nearest` finds the nearest ancestor holding the solution file. */
  lemma {:induction false} NearestIsNearest(start: Dir, fileExists: string -> bool, k: nat)
    requires k <= |start| && Nearest(start, fileExists, k).Some?
    ensures forall j :: Nearest(start, fileExists, k).value < j <= k ==> !RootAt(start, fileExists, j)
    decreases k
  {
    if !RootAt(start, fileExists, k) {
      NearestIsNearest(start, fileExists, k - 1);
    }
  }

  /** What `FindRepositoryRoot` returns for a start directory. */
  function RepositoryRoot(start: Dir, fileExists: string -> bool): (root: Option<string>)
    ensures root.Some? ==> root.value != [] && root.value[0] == '/'
    ensures root.Some? ==> fileExists(Combine(root.value, SolutionFileName))
  {
    match Nearest(start, fileExists, |start|)
    case Some(n) => Some(FullName(start[..n]))
    case None => None
  }

  /** `FindRepositoryRoot`: walk from the start directory up through its parents and
      return the first one holding the solution file. */
  method FindRepositoryRoot(start: Dir, fileExists: string -> bool) returns (root: Option<string>)
    ensures root == RepositoryRoot(start, fileExists)
  {
    var directory: Option<Dir> := Some(start);
    ghost var k: nat := |start|;
    while directory.Some?
      invariant directory.Some? ==> (k <= |start| && directory.value == start[..k]
        && Nearest(start, fileExists, |start|) == Nearest(start, fileExists, k))
      invariant directory.None? ==> Nearest(start, fileExists, |start|).None?
      decreases if directory.Some? then |directory.value| + 1 else 0
    {
      if fileExists(Combine(FullName(directory.value), SolutionFileName)) {
        return Some(FullName(directory.value));
      }
      directory := Parent(directory.value);
      if directory.Some? {
        k := k - 1;
        assert directory.value == start[..k];
      }
    }
    return None;
  }

  /** The repository root is the nearest ancestor of the start directory, itself
      included, that holds the solution file; there is none exactly when no ancestor
      holds it. */
  lemma RepositoryRootIsNearest(start: Dir, fileExists: string -> bool)
    ensures RepositoryRoot(start, fileExists).None? <==>
      forall j :: 0 <= j <= |start| ==> !RootAt(start, fileExists, j)
    ensures RepositoryRoot(start, fileExists).Some? ==>
      exists n :: (0 <= n <= |start| && RepositoryRoot(start, fileExists) == Some(FullName(start[..n]))
        && RootAt(start, fileExists, n)
        && forall j :: n < j <= |start| ==> !RootAt(start, fileExists, j))
  {
    NearestNone(start, fileExists, |start|);
    if Nearest(start, fileExists, |start|).Some? {
      NearestIsNearest(start, fileExists, |start|);
      var n := Nearest(start, fileExists, |start|).value;
      assert RepositoryRoot(start, fileExists) == Some(FullName(start[..n]));
    }
  }

  /** What the process sees of its surroundings: the platform, `AppContext.BaseDirectory`,
      `JELLYFIN_NATIVE_LIBRARY_PATH`, and `Directory.Exists` / `File.Exists`. */
  datatype Host = Host(
    platform: Platform,
    baseDirectory: Dir,
    libraryPathOverride: Option<string>,
    directoryExists: string -> bool,
    fileExists: string -> bool)

  /** The override: a directory gets the file name appended, anything else is used
      as it is; a missing or blank one gives no candidate. */
  function OverrideCandidates(h: Host, fileName: string): (c: seq<string>)
    ensures |c| <= 1 && (c == [] <==> Text.IsNullOrWhiteSpace(h.libraryPathOverride))
    ensures c != [] && h.directoryExists(h.libraryPathOverride.value) ==> EndsWith(c[0], fileName)
    ensures c != [] && !h.directoryExists(h.libraryPathOverride.value) ==> c[0] == h.libraryPathOverride.value
  {
    if Text.IsNullOrWhiteSpace(h.libraryPathOverride) then []
    else if h.directoryExists(h.libraryPathOverride.value) then
      CombineEndsWith(h.libraryPathOverride.value, fileName);
      [Combine(h.libraryPathOverride.value, fileName)]
    else [h.libraryPathOverride.value]
  }

  predicate HasOverride(h: Host) {
    !Text.IsNullOrWhiteSpace(h.libraryPathOverride)
  }

  predicate HasRoot(h: Host) {
    var root := RepositoryRoot(h.baseDirectory, h.fileExists);
    root.Some? && root.value != []
  }

  /** The directories searched after the override, in order: the base directory, its
      runtime directory when there is a runtime identifier, and, when a repository root
      is found, its release build directory and its runtime directory. */
  function SearchDirectories(h: Host): (d: seq<string>)
    ensures 1 <= |d| <= 4 && d[0] == FullName(h.baseDirectory)
  {
    var rid := RuntimeIdentifier(h.platform);
    var baseDir := FullName(h.baseDirectory);
    var root := RepositoryRoot(h.baseDirectory, h.fileExists);
    [baseDir]
    + (if rid != [] then [Combine(Combine(Combine(baseDir, "runtimes"), rid), "native")] else [])
    + (if root.Some? && root.value != [] then
         [Combine(Combine(Combine(Combine(root.value, "native"), "jellyfin-native"), "target"), "release")]
         + (if rid != [] then
              [Combine(Combine(Combine(Combine(Combine(root.value, "src"), "Jellyfin.NativeInterop"), "runtimes"), rid), "native")]
            else [])
       else [])
  }

  /** `GetCandidatePaths`, in the order it yields them: the override, then the
      platform's file name in each search directory. */
  function CandidatePaths(h: Host): (c: seq<string>)
    ensures var fileName := PlatformLibraryFileName(h.platform.os);
      |c| == |OverrideCandidates(h, fileName)| + |SearchDirectories(h)|
      && c[Indicator(HasOverride(h))] == Combine(FullName(h.baseDirectory), fileName)
  {
    var fileName := PlatformLibraryFileName(h.platform.os);
    var dirs := SearchDirectories(h);
    OverrideCandidates(h, fileName) + seq(|dirs|, i requires 0 <= i < |dirs| => Combine(dirs[i], fileName))
  }

  function Indicator(b: bool): nat {
    if b then 1 else 0
  }

  /** One candidate for the override, one for the base directory, one for the runtime
      directory when there is a runtime identifier, and one or two more under the
      repository root when one is found: never fewer than one nor more than six. */
  lemma CandidateCount(h: Host)
    ensures var rid := RuntimeIdentifier(h.platform) != [];
      |CandidatePaths(h)| == Indicator(HasOverride(h)) + 1 + Indicator(rid) + Indicator(HasRoot(h)) * (1 + Indicator(rid))
    ensures 1 <= |CandidatePaths(h)| <= 6
  {
  }

  /** The candidates are the override, then the platform's file name in each search
      directory, in order. */
  lemma CandidatesFollowDirectories(h: Host)
    ensures var c := CandidatePaths(h);
      var fileName := PlatformLibraryFileName(h.platform.os);
      var o := Indicator(HasOverride(h));
      var dirs := SearchDirectories(h);
      |c| == o + |dirs|
      && (HasOverride(h) ==> c[0] == OverrideCandidates(h, fileName)[0])
      && forall i :: 0 <= i < |dirs| ==> c[o + i] == Combine(dirs[i], fileName)
  {
    var fileName := PlatformLibraryFileName(h.platform.os);
    JoinedCandidates(OverrideCandidates(h, fileName), SearchDirectories(h), fileName);
  }

  lemma JoinedCandidates(o: seq<string>, dirs: seq<string>, fileName: string)
    ensures var c := o + seq(|dirs|, i requires 0 <= i < |dirs| => Combine(dirs[i], fileName));
      |c| == |o| + |dirs| && (o != [] ==> c[0] == o[0])
      && forall i :: 0 <= i < |dirs| ==> c[|o| + i] == Combine(dirs[i], fileName)
  {
  }

  /** The base directory comes first, then its runtime directory, then the
      repository's release build, then the repository's runtime directory. */
  lemma SearchDirectoryOrder(h: Host)
    ensures var d := SearchDirectories(h);
      var rid := RuntimeIdentifier(h.platform);
      var baseDir := FullName(h.baseDirectory);
      var r := Indicator(rid != []);
      |d| == 1 + r + Indicator(HasRoot(h)) * (1 + r)
      && d[0] == baseDir
      && (rid != [] ==> d[1] == Combine(Combine(Combine(baseDir, "runtimes"), rid), "native"))
      && (HasRoot(h) ==>
            (var root := RepositoryRoot(h.baseDirectory, h.fileExists).value;
             d[1 + r] == Combine(Combine(Combine(Combine(root, "native"), "jellyfin-native"), "target"), "release")
             && (rid != [] ==>
                   d[3] == Combine(Combine(Combine(Combine(Combine(root, "src"), "Jellyfin.NativeInterop"), "runtimes"), rid), "native"))))
  {
  }

  /** Every candidate names the platform's file, except an override that is not a
      directory, which is taken as the full path. */
  lemma CandidatesEndWithFileName(h: Host)
    ensures var c := CandidatePaths(h);
      var fileName := PlatformLibraryFileName(h.platform.os);
      forall i :: 0 <= i < |c| ==>
        EndsWith(c[i], fileName)
        || (i == 0 && HasOverride(h) && !h.directoryExists(h.libraryPathOverride.value) && c[i] == h.libraryPathOverride.value)
  {
    var fileName := PlatformLibraryFileName(h.platform.os);
    var dirs := SearchDirectories(h);
    forall i | 0 <= i < |dirs| ensures EndsWith(Combine(dirs[i], fileName), fileName) {
      CombineEndsWith(dirs[i], fileName);
    }
  }

  /** The index of the first candidate that loads. */
  function FirstLoaded(candidates: seq<string>, tryLoad: string -> Option<nat>, i: nat): (r: Option<nat>)
    requires i <= |candidates|
    ensures r.Some? ==> i <= r.value < |candidates| && tryLoad(candidates[r.value]).Some?
    decreases |candidates| - i
  {
    if i == |candidates| then None
    else if tryLoad(candidates[i]).Some? then Some(i)
    else FirstLoaded(candidates, tryLoad, i + 1)
  }

  /** `FirstLoaded` picks the first candidate at or after `i` that loads, and picks
      none exactly when none of them loads. */
  lemma {:induction false} FirstLoadedIsFirst(candidates: seq<string>, tryLoad: string -> Option<nat>, i: nat)
    requires i <= |candidates|
    ensures FirstLoaded(candidates, tryLoad, i).None? <==>
      forall j :: i <= j < |candidates| ==> tryLoad(candidates[j]).None?
    ensures FirstLoaded(candidates, tryLoad, i).Some? ==>
      var n := FirstLoaded(candidates, tryLoad, i).value;
      i <= n < |candidates| && tryLoad(candidates[n]).Some?
      && forall j :: i <= j < n ==> tryLoad(candidates[j]).None?
    decreases |candidates| - i
  {
    if i < |candidates| && tryLoad(candidates[i]).None? {
      FirstLoadedIsFirst(candidates, tryLoad, i + 1);
    }
  }

  /** The handle `ResolveLibrary` returns (0 is `nint.Zero`): none for another
      library's name, else that of the first candidate that loads, else the result of
      the default search. */
  function Resolution(libraryName: string, candidates: seq<string>, tryLoad: string -> Option<nat>,
                      defaultSearch: Option<nat>): (handle: nat)
    ensures handle != 0 ==> libraryName == LibraryBaseName
    ensures handle != 0 ==>
      (exists j :: 0 <= j < |candidates| && tryLoad(candidates[j]) == Some(handle)) || defaultSearch == Some(handle)
  {
    if libraryName != LibraryBaseName then 0
    else match FirstHandle(candidates, tryLoad)
      case Some(handle) => handle
      case None => defaultSearch.GetOr(0)
  }

  /** The handle of the first candidate that loads, if any does. */
  function FirstHandle(candidates: seq<string>, tryLoad: string -> Option<nat>): Option<nat> {
    match FirstLoaded(candidates, tryLoad, 0)
    case Some(i) => tryLoad(candidates[i])
    case None => None
  }

  /** The `foreach` loop of `ResolveLibrary`: try each candidate in turn and stop at the
      first that loads. */
  method LoadFirstCandidate(candidates: seq<string>, tryLoad: string -> Option<nat>) returns (loaded: Option<nat>)
    ensures loaded == FirstHandle(candidates, tryLoad)
  {
    var i := 0;
    while i < |candidates|
      invariant 0 <= i <= |candidates|
      invariant FirstLoaded(candidates, tryLoad, 0) == FirstLoaded(candidates, tryLoad, i)
    {
      loaded := tryLoad(candidates[i]);
      if loaded.Some? {
        return;
      }
      i := i + 1;
    }
    return None;
  }

  /** `ResolveLibrary`: `tryLoad` is `NativeLibrary.TryLoad` on a path, `defaultSearch`
      is the outcome of the loader's own search for the bare name. */
  method ResolveLibrary(libraryName: string, h: Host, tryLoad: string -> Option<nat>, defaultSearch: Option<nat>)
    returns (handle: nat)
    ensures handle == Resolution(libraryName, CandidatePaths(h), tryLoad, defaultSearch)
  {
    if libraryName != LibraryBaseName {
      return 0;
    }
    var loaded := LoadFirstCandidate(CandidatePaths(h), tryLoad);
    if loaded.Some? {
      return loaded.value;
    }
    return defaultSearch.GetOr(0);
  }

  /** Only the native library's own name is resolved; for it, the first candidate
      that loads wins, and the default search is used only when none loads. */
  lemma ResolutionIsFirstSuccess(libraryName: string, candidates: seq<string>, tryLoad: string -> Option<nat>,
                                 defaultSearch: Option<nat>)
    ensures libraryName != LibraryBaseName ==> Resolution(libraryName, candidates, tryLoad, defaultSearch) == 0
    ensures libraryName == LibraryBaseName && (forall j :: 0 <= j < |candidates| ==> tryLoad(candidates[j]).None?) ==>
      Resolution(libraryName, candidates, tryLoad, defaultSearch) == defaultSearch.GetOr(0)
    ensures forall n :: (0 <= n < |candidates| && libraryName == LibraryBaseName && tryLoad(candidates[n]).Some?
                         && (forall j :: 0 <= j < n ==> tryLoad(candidates[j]).None?)) ==>
      Resolution(libraryName, candidates, tryLoad, defaultSearch) == tryLoad(candidates[n]).value
  {
    FirstLoadedIsFirst(candidates, tryLoad, 0);
    forall n | 0 <= n < |candidates| && libraryName == LibraryBaseName && tryLoad(candidates[n]).Some?
      && (forall j :: 0 <= j < n ==> tryLoad(candidates[j]).None?)
      ensures Resolution(libraryName, candidates, tryLoad, defaultSearch) == tryLoad(candidates[n]).value
    {
      var m := FirstLoaded(candidates, tryLoad, 0).value;
      assert !(m < n) && !(n < m);
    }
  }
}
