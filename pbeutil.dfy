/**
 * Output path helpers of pbeApp/pbeutil.cpp: the PV-name to path mapping
 * and the directory-prefix walk of createDirs.
 *
 * The separator set `pvseps` (":-{}" unless overridden from the
 * environment) and the platform path separator are parameters.
 */
module PbeUtil {
  import opened Wrappers
  import opened SeqSearch

  /** The built-in separator set of pbeApp/pbeutil.cpp:18. */
  const DefaultPvSeps: string := ":-{}"
  /** OSI_PATH_SEPARATOR on POSIX hosts. */
  const PosixPathSep: char := '/'

  /** One character of the PV name as it appears in the path. */
  function MapSep(c: char, pvseps: string, pathsep: char): char
  {
    if c in pvseps then pathsep else c
  }

  /** The file-name part of a PV's output path, character by character. */
  function PathName(pvname: string, pvseps: string, pathsep: char): string
  {
    if pvname == [] then [] else [MapSep(pvname[0], pvseps, pathsep)] + PathName(pvname[1..], pvseps, pathsep)
  }

  /** The mapping keeps the length; a separator becomes the path separator, any other character stays. */
  lemma {:induction false} PathNameAt(pvname: string, pvseps: string, pathsep: char, i: nat)
    requires i < |pvname|
    ensures |PathName(pvname, pvseps, pathsep)| == |pvname|
    ensures pvname[i] in pvseps ==> PathName(pvname, pvseps, pathsep)[i] == pathsep
    ensures pvname[i] !in pvseps ==> PathName(pvname, pvseps, pathsep)[i] == pvname[i]
  {
    if i > 0 {
      PathNameAt(pvname[1..], pvseps, pathsep, i - 1);
    } else if |pvname| > 1 {
      PathNameAt(pvname[1..], pvseps, pathsep, 0);
    }
  }

  /** PathName is the unique string of the same length that maps each position with MapSep. */
  lemma PathNameCharacterized(pvname: string, pvseps: string, pathsep: char, r: string)
    requires |r| == |pvname|
    requires forall i :: 0 <= i < |r| ==> r[i] == MapSep(pvname[i], pvseps, pathsep)
    ensures r == PathName(pvname, pvseps, pathsep)
  {
    if pvname == [] {
      assert r == [];
    } else {
      PathNameAt(pvname, pvseps, pathsep, 0);
      forall i | 0 <= i < |r|
        ensures PathName(pvname, pvseps, pathsep)[i] == r[i]
      {
        PathNameAt(pvname, pvseps, pathsep, i);
      }
    }
  }

  /** With a path separator outside the separator set, no separator is left in the result. */
  lemma PathNameNoSeparators(pvname: string, pvseps: string, pathsep: char)
    requires pathsep !in pvseps
    ensures forall i :: 0 <= i < |PathName(pvname, pvseps, pathsep)| ==> PathName(pvname, pvseps, pathsep)[i] !in pvseps
  {
    forall i | 0 <= i < |PathName(pvname, pvseps, pathsep)|
      ensures PathName(pvname, pvseps, pathsep)[i] !in pvseps
    {
      if |pvname| > 0 {
        PathNameAt(pvname, pvseps, pathsep, 0);
        PathNameAt(pvname, pvseps, pathsep, i);
      }
    }
  }

  /** ...and mapping a second time changes nothing. */
  lemma PathNameIdempotent(pvname: string, pvseps: string, pathsep: char)
    requires pathsep !in pvseps
    ensures PathName(PathName(pvname, pvseps, pathsep), pvseps, pathsep) == PathName(pvname, pvseps, pathsep)
  {
    var once := PathName(pvname, pvseps, pathsep);
    PathNameNoSeparators(pvname, pvseps, pathsep);
    forall i | 0 <= i < |once|
      ensures once[i] == MapSep(once[i], pvseps, pathsep)
    {
    }
    PathNameCharacterized(once, pvseps, pathsep, once);
  }

  /** The case of pbeApp/testconvert.py:124-125. */
  lemma PathNameStringExample()
    ensures PathName("a:string:pv", DefaultPvSeps, PosixPathSep) == "a/string/pv"
  {
    PathNameCharacterized("a:string:pv", DefaultPvSeps, PosixPathSep, "a/string/pv");
  }

  /** The case of pbeApp/testconvert.py:134-135. */
  lemma PathNamePvCounterExample()
    ensures PathName("pv-counter", DefaultPvSeps, PosixPathSep) == "pv/counter"
  {
    PathNameCharacterized("pv-counter", DefaultPvSeps, PosixPathSep, "pv/counter");
  }

  /**
   * pvpathname (pbeApp/pbeutil.cpp:24-37): find_first_of steps through the
   * name from position p, overwriting each separator found with the path
   * separator.
   */
  method PvPathName(pvname: string, pvseps: string, pathsep: char) returns (fname: string)
    ensures fname == PathName(pvname, pvseps, pathsep)
  {
    fname := pvname;
    var p, s := 0, |fname|;
    while true
      invariant p <= s == |fname| == |pvname|
      invariant forall i :: 0 <= i < p ==> fname[i] == MapSep(pvname[i], pvseps, pathsep)
      invariant forall i :: p <= i < s ==> fname[i] == pvname[i]
      decreases s - p
    {
      var found := FindFirstOf(fname, pvseps, p);
      if found.None? {
        break;
      }
      fname := fname[found.value := pathsep];
      p := found.value + 1;
      if p == s {
        break;
      }
    }
    PathNameCharacterized(pvname, pvseps, pathsep, fname);
  }

  /** The directories createDirs asks for: path[0..p) for each separator position p >= from, in order. */
  function DirPrefixes(path: string, pathsep: char, from: nat): seq<string>
    decreases |path| - from
  {
    if from >= |path| then []
    else if path[from] == pathsep then [path[..from]] + DirPrefixes(path, pathsep, from + 1)
    else DirPrefixes(path, pathsep, from + 1)
  }

  /**
   * Every attempted directory is a proper prefix of the path that ends just
   * before a separator, shortest first; every separator at or after `from`
   * yields one.
   */
  lemma {:induction false} DirPrefixesShape(path: string, pathsep: char, from: nat)
    ensures var ds := DirPrefixes(path, pathsep, from);
      && (forall k :: 0 <= k < |ds| ==> from <= |ds[k]| < |path| && ds[k] == path[..|ds[k]|] && path[|ds[k]|] == pathsep)
      && (forall k, m :: 0 <= k < m < |ds| ==> |ds[k]| < |ds[m]|)
      && (forall p :: from <= p < |path| && path[p] == pathsep ==> path[..p] in ds)
    decreases |path| - from
  {
    if from < |path| {
      DirPrefixesShape(path, pathsep, from + 1);
      var rest := DirPrefixes(path, pathsep, from + 1);
      assert forall k :: 0 <= k < |rest| ==> from + 1 <= |rest[k]| < |path| && rest[k] == path[..|rest[k]|] && path[|rest[k]|] == pathsep;
      if path[from] == pathsep {
        var ds := [path[..from]] + rest;
        assert |path[..from]| == from && ds[0] == path[..from];
        forall k | 0 <= k < |ds|
          ensures from <= |ds[k]| < |path| && ds[k] == path[..|ds[k]|] && path[|ds[k]|] == pathsep
        {
          if k > 0 {
            assert ds[k] == rest[k - 1];
          }
        }
        forall k, m | 0 <= k < m < |ds|
          ensures |ds[k]| < |ds[m]|
        {
          assert ds[m] == rest[m - 1];
          if k > 0 {
            assert ds[k] == rest[k - 1];
          }
        }
      }
    }
  }

  /** A path without a separator creates nothing; the last component is never created. */
  lemma DirPrefixesNoSeparator(path: string, pathsep: char)
    ensures DirPrefixes(path, pathsep, 0) == [] <==> pathsep !in path
    ensures path !in DirPrefixes(path, pathsep, 0)
  {
    DirPrefixesShape(path, pathsep, 0);
    var ds := DirPrefixes(path, pathsep, 0);
    if pathsep in path {
      var p :| 0 <= p < |path| && path[p] == pathsep;
      assert path[..p] in ds;
    }
    if pathsep !in path {
      DirPrefixesSkip(path, pathsep, 0, |path|);
    }
  }

  /** No separator in [from, to): the prefixes from `from` on are those from `to` on. */
  lemma {:induction false} DirPrefixesSkip(path: string, pathsep: char, from: nat, to: nat)
    requires from <= to <= |path|
    requires forall j :: from <= j < to ==> path[j] != pathsep
    ensures DirPrefixes(path, pathsep, from) == DirPrefixes(path, pathsep, to)
    decreases |path| - from
  {
    if from < to {
      DirPrefixesSkip(path, pathsep, from + 1, to);
    }
  }

  /** From `from`, the first separator at `q` contributes path[0..q), then the walk resumes after it. */
  lemma DirPrefixesStep(path: string, pathsep: char, from: nat, q: nat)
    requires from <= q < |path| && path[q] == pathsep
    requires forall j :: from <= j < q ==> path[j] != pathsep
    ensures DirPrefixes(path, pathsep, from) == [path[..q]] + DirPrefixes(path, pathsep, q + 1)
  {
    DirPrefixesSkip(path, pathsep, from, q);
  }

  /** The result of mkdir(2) on one prefix; errno EEXIST means the directory already exists. */
  datatype MkdirOutcome = Made | Failed(errno: int)

  const EEXIST: int := 17

  /** What createDirs reports: "Create directory <dir>" on stderr, or perror("mkdir") with the errno. */
  datatype DirMessage = CreateDirectory(dir: string) | MkdirError(errno: int)

  /**
   * The report of one mkdir call in createDirs (pbeApp/pbeutil.cpp:47-55):
   * at most one message, and none exactly when the directory already existed.
   */
  function MessageFor(dir: string, outcome: MkdirOutcome): (r: seq<DirMessage>)
    ensures |r| <= 1
    ensures r == [] <==> outcome == Failed(EEXIST)
    ensures r != [] ==> (r[0].CreateDirectory? <==> outcome.Made?)
  {
    match outcome
    case Made => [CreateDirectory(dir)]
    case Failed(e) => if e == EEXIST then [] else [MkdirError(e)]
  }

  /** The messages for a sequence of attempts, in order. */
  function Messages(dirs: seq<string>, mkdir: string -> MkdirOutcome): seq<DirMessage>
  {
    if dirs == [] then []
    else Messages(dirs[..|dirs| - 1], mkdir) + MessageFor(dirs[|dirs| - 1], mkdir(dirs[|dirs| - 1]))
  }

  lemma MessagesSnoc(dirs: seq<string>, dir: string, mkdir: string -> MkdirOutcome)
    ensures Messages(dirs + [dir], mkdir) == Messages(dirs, mkdir) + MessageFor(dir, mkdir(dir))
  {
    assert (dirs + [dir])[..|dirs|] == dirs;
  }

  /** An EEXIST failure is silent; any other failure is reported with its errno, and a created directory is announced. */
  lemma {:induction false} MessagesReport(dirs: seq<string>, mkdir: string -> MkdirOutcome)
    ensures forall m :: m in Messages(dirs, mkdir) ==> m != MkdirError(EEXIST)
    ensures forall d :: d in dirs && mkdir(d) == Made ==> CreateDirectory(d) in Messages(dirs, mkdir)
    ensures forall d :: d in dirs && mkdir(d).Failed? && mkdir(d).errno != EEXIST ==> MkdirError(mkdir(d).errno) in Messages(dirs, mkdir)
  {
    if dirs != [] {
      var init := dirs[..|dirs| - 1];
      MessagesReport(init, mkdir);
      assert forall d :: d in dirs ==> d in init || d == dirs[|dirs| - 1];
    }
  }

  /**
   * createDirs (pbeApp/pbeutil.cpp:39-57): mkdir is tried on every prefix
   * that ends before a path separator, shortest first; a failure is reported
   * (or ignored, for EEXIST) and the walk goes on. mkdir is an external
   * call whose outcome per directory is the parameter `mkdir`.
   */
  method CreateDirs(path: string, pathsep: char, mkdir: string -> MkdirOutcome)
    returns (attempts: seq<string>, messages: seq<DirMessage>)
    ensures attempts == DirPrefixes(path, pathsep, 0)
    ensures messages == Messages(attempts, mkdir)
  {
    attempts, messages := [], [];
    var p := 0;
    while true
      invariant p <= |path|
      invariant attempts + DirPrefixes(path, pathsep, p) == DirPrefixes(path, pathsep, 0)
      invariant messages == Messages(attempts, mkdir)
      decreases |path| - p
    {
      var found := FindFirstOf(path, [pathsep], p);
      if found.None? {
        DirPrefixesSkip(path, pathsep, p, |path|);
        break;
      }
      var q := found.value;
      DirPrefixesStep(path, pathsep, p, q);
      var part := path[..q];
      p := q + 1;
      var outcome := mkdir(part);
      messages := messages + MessageFor(part, outcome);
      MessagesSnoc(attempts, part, mkdir);
      assert (attempts + [part]) + DirPrefixes(path, pathsep, p) == attempts + ([part] + DirPrefixes(path, pathsep, p));
      attempts := attempts + [part];
    }
    assert attempts + [] == attempts;
  }
}
