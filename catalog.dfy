/** The two catalog clients. The response of each catalog endpoint is given as
    a sequence (the network fetch and the JSON decoding are outside the
    model); the same sequence answers the refetch made by the fallback. */
module Catalog {
  import opened Base
  import opened Text
  import opened Fallback

  /** One entry of `GET /addon/{id}/files` (CurseForge). */
  datatype CurseForgeFile = CurseForgeFile(id: int, gameVersion: seq<string>, downloadUrl: string)

  /** One entry of `GET /mod/{slug}/version` (Modrinth). */
  datatype ModrinthFile = ModrinthFile(url: string)
  datatype ModrinthVersion = ModrinthVersion(id: string, gameVersions: seq<string>, files: seq<ModrinthFile>)

  // ---------------------------------------------------------------------
  // Array.prototype.find

  /** The index of the first element satisfying `p`: where `find` stops. */
  function FirstIndex<T>(s: seq<T>, p: T -> bool): (r: Option<nat>)
    ensures r.Some? ==> r.value < |s| && p(s[r.value]) && forall j :: 0 <= j < r.value ==> !p(s[j])
    ensures r.None? ==> forall j :: 0 <= j < |s| ==> !p(s[j])
  {
    if s == [] then None
    else if p(s[0]) then Some(0)
    else match FirstIndex(s[1..], p)
      case None => None
      case Some(i) => Some(i + 1)
  }

  /** `s.find(p)`: the first element satisfying `p`, if any; `undefined`
      exactly when no element satisfies it. */
  function Find<T>(s: seq<T>, p: T -> bool): (r: Option<T>)
    ensures r.Some? ==> r.value in s && p(r.value)
    ensures r.Some? ==>
      exists i :: 0 <= i < |s| && s[i] == r.value && p(s[i]) && forall j :: 0 <= j < i ==> !p(s[j])
    ensures r.None? <==> forall j :: 0 <= j < |s| ==> !p(s[j])
  {
    match FirstIndex(s, p)
    case None => None
    case Some(i) => Some(s[i])
  }

  lemma FindCons<T>(x: T, t: seq<T>, p: T -> bool)
    ensures Find([x] + t, p) == if p(x) then Some(x) else Find(t, p)
  {
    assert ([x] + t)[0] == x;
    assert ([x] + t)[1..] == t;
  }

  // ---------------------------------------------------------------------
  // CurseForge: files.sort((a, b) => b.id - a.id)

  predicate IdsDescending(s: seq<CurseForgeFile>) {
    forall i, j :: 0 <= i < j < |s| ==> s[i].id >= s[j].id
  }

  /** Puts `f` in front of the first entry whose id is not larger, so that
      entries of equal id keep their order (the sort is stable). */
  function Insert(f: CurseForgeFile, sorted: seq<CurseForgeFile>): (r: seq<CurseForgeFile>)
    ensures |r| == |sorted| + 1
  {
    if sorted == [] || f.id >= sorted[0].id then [f] + sorted
    else [sorted[0]] + Insert(f, sorted[1..])
  }

  /** What the comparator `b.id - a.id` makes of the fetched list: ids in
      descending order, and (JavaScript's sort being stable) files of equal
      id in the order the catalog returned them. */
  function SortedByIdDesc(files: seq<CurseForgeFile>): (r: seq<CurseForgeFile>)
    ensures |r| == |files|
  {
    if files == [] then [] else Insert(files[0], SortedByIdDesc(files[1..]))
  }

  lemma {:induction false} InsertIsPermutation(f: CurseForgeFile, t: seq<CurseForgeFile>)
    ensures multiset(Insert(f, t)) == multiset(t) + multiset{f}
  {
    if t != [] && f.id < t[0].id {
      InsertIsPermutation(f, t[1..]);
      assert t == [t[0]] + t[1..];
    }
  }

  predicate IdsAtMost(s: seq<CurseForgeFile>, bound: int) {
    forall m :: 0 <= m < |s| ==> s[m].id <= bound
  }

  lemma {:induction false} InsertKeepsBound(f: CurseForgeFile, t: seq<CurseForgeFile>, bound: int)
    requires IdsAtMost(t, bound) && f.id <= bound
    ensures IdsAtMost(Insert(f, t), bound)
  {
    if t != [] && f.id < t[0].id {
      InsertKeepsBound(f, t[1..], bound);
      var r := Insert(f, t[1..]);
      assert Insert(f, t) == [t[0]] + r;
    }
  }

  lemma {:induction false} InsertKeepsDescending(f: CurseForgeFile, t: seq<CurseForgeFile>)
    requires IdsDescending(t)
    ensures IdsDescending(Insert(f, t))
  {
    if t != [] && f.id < t[0].id {
      var rest := t[1..];
      InsertKeepsDescending(f, rest);
      InsertKeepsBound(f, rest, t[0].id);
      var r := Insert(f, rest);
      var whole := [t[0]] + r;
      assert Insert(f, t) == whole;
      forall i, j | 0 <= i < j < |whole| ensures whole[i].id >= whole[j].id {
        assert whole[j] == r[j - 1];
        if i > 0 {
          assert whole[i] == r[i - 1];
        }
      }
    }
  }

  /** The sort is a permutation of the fetched list, ordered by descending id. */
  lemma {:induction false} SortedByIdDescIsSortedPermutation(files: seq<CurseForgeFile>)
    ensures multiset(SortedByIdDesc(files)) == multiset(files)
    ensures IdsDescending(SortedByIdDesc(files))
  {
    if files != [] {
      SortedByIdDescIsSortedPermutation(files[1..]);
      InsertIsPermutation(files[0], SortedByIdDesc(files[1..]));
      InsertKeepsDescending(files[0], SortedByIdDesc(files[1..]));
      assert files == [files[0]] + files[1..];
    }
  }

  /** The entries of id `x`, in their order. */
  function WithId(s: seq<CurseForgeFile>, x: int): seq<CurseForgeFile>
  {
    if s == [] then [] else (if s[0].id == x then [s[0]] else []) + WithId(s[1..], x)
  }

  lemma {:induction false} InsertWithId(f: CurseForgeFile, t: seq<CurseForgeFile>, x: int)
    ensures WithId(Insert(f, t), x) == (if f.id == x then [f] else []) + WithId(t, x)
  {
    if t != [] && f.id < t[0].id {
      InsertWithId(f, t[1..], x);
      assert Insert(f, t)[1..] == Insert(f, t[1..]);
      if t[0].id == x {
        assert f.id != x;
      }
    } else if t != [] {
      assert Insert(f, t)[1..] == t;
    }
  }

  /** The sort is stable: the files of any one id come out in the order the
      catalog returned them. */
  lemma {:induction false} SortedByIdDescIsStable(files: seq<CurseForgeFile>, x: int)
    ensures WithId(SortedByIdDesc(files), x) == WithId(files, x)
  {
    if files != [] {
      SortedByIdDescIsStable(files[1..], x);
      InsertWithId(files[0], SortedByIdDesc(files[1..]), x);
    }
  }

  /** Inserting stops at the first entry whose id is not larger than `f`'s. */
  lemma {:induction false} InsertAt(f: CurseForgeFile, t: seq<CurseForgeFile>, k: nat)
    requires k <= |t|
    requires forall m :: 0 <= m < k ==> f.id < t[m].id
    requires k == |t| || f.id >= t[k].id
    ensures Insert(f, t) == t[..k] + [f] + t[k..]
  {
    if k == 0 {
      assert t[..0] + [f] + t[0..] == [f] + t;
    } else {
      InsertAt(f, t[1..], k - 1);
      InsertPastFirst(f, t, k);
    }
  }

  lemma InsertPastFirst(f: CurseForgeFile, t: seq<CurseForgeFile>, k: nat)
    requires 0 < k <= |t| && f.id < t[0].id
    requires Insert(f, t[1..]) == t[1..][..k - 1] + [f] + t[1..][k - 1..]
    ensures Insert(f, t) == t[..k] + [f] + t[k..]
  {
    var tail := t[1..];
    assert tail[..k - 1] == t[1..k] && tail[k - 1..] == t[k..];
    assert [t[0]] + (t[1..k] + [f] + t[k..]) == t[..k] + [f] + t[k..];
  }

  /** The array after the shifting loop, read as a sequence: entries before
      the gap shifted left by one, `f` in the gap, the rest untouched. */
  lemma {:induction false} ShiftedIsInsert(s: seq<CurseForgeFile>, i: nat, j: nat, f: CurseForgeFile, t: seq<CurseForgeFile>)
    requires i <= j < |s| && |t| == |s| - i - 1
    requires forall m :: i <= m < j ==> s[m] == t[m - i]
    requires s[j] == f
    requires forall m :: j < m < |s| ==> s[m] == t[m - i - 1]
    requires forall m :: 0 <= m < j - i ==> f.id < t[m].id
    requires j == |s| - 1 || f.id >= t[j - i].id
    ensures s[i..] == Insert(f, t)
  {
    InsertAt(f, t, j - i);
    var inserted := t[..j - i] + [f] + t[j - i..];
    forall m | i <= m < |s| ensures s[m] == inserted[m - i] {
      if m < j {
        assert inserted[m - i] == t[m - i];
      } else if m > j {
        assert inserted[m - i] == t[m - i - 1];
      }
    }
    assert s[i..] == inserted;
  }

  method InsertIntoSortedSuffix(a: array<CurseForgeFile>, i: nat)
    requires i < a.Length
    modifies a
    ensures a[..i] == old(a[..i])
    ensures a[i..] == Insert(old(a[i]), old(a[i + 1..]))
  {
    var x := a[i];
    ghost var t := a[i + 1..];
    ghost var prefix := a[..i];
    var j := i;
    while j + 1 < a.Length && x.id < a[j + 1].id
      invariant i <= j < a.Length
      invariant a[..i] == prefix
      invariant forall m :: i <= m < j ==> a[m] == t[m - i]
      invariant forall m :: j < m < a.Length ==> a[m] == t[m - i - 1]
      invariant forall m :: 0 <= m < j - i ==> x.id < t[m].id
    {
      a[j] := a[j + 1];
      j := j + 1;
    }
    a[j] := x;
    ShiftedIsInsert(a[..], i, j, x, t);
    assert a[..][i..] == a[i..];
  }

  /** The sort as the source runs it: in place, on the array the JSON decoder
      produced. Each step inserts one more entry, from the right, into the
      sorted suffix. */
  method SortByIdDescending(a: array<CurseForgeFile>)
    modifies a
    ensures a[..] == SortedByIdDesc(old(a[..]))
  {
    ghost var orig := a[..];
    var i := a.Length;
    while i > 0
      invariant 0 <= i <= a.Length
      invariant a[..i] == orig[..i]
      invariant a[i..] == SortedByIdDesc(orig[i..])
    {
      i := i - 1;
      assert a[i] == orig[i];
      assert orig[i..] == [orig[i]] + orig[i + 1..];
      InsertIntoSortedSuffix(a, i);
    }
    assert a[0..] == a[..];
  }

  // ---------------------------------------------------------------------
  // CurseForge: the lookup

  function MatchesVersion(version: string): CurseForgeFile -> bool {
    (f: CurseForgeFile) => version in f.gameVersion
  }

  /** Reference definition of the file the CurseForge lookup picks, by one
      scan of the fetched list: a matching file replaces the best one of the
      rest unless that one has a larger id. */
  function BestMatch(files: seq<CurseForgeFile>, version: string): Option<CurseForgeFile>
  {
    if files == [] then None
    else
      var rest := BestMatch(files[1..], version);
      if version in files[0].gameVersion && (rest.None? || files[0].id >= rest.value.id) then Some(files[0])
      else rest
  }

  /** The best match is a file of largest id among those listing the version,
      and the earliest such file in the fetched list; there is none exactly
      when no file lists the version. */
  lemma {:induction false} BestMatchIsLatestEarliest(files: seq<CurseForgeFile>, version: string)
    ensures BestMatch(files, version).None? <==> forall j :: 0 <= j < |files| ==> version !in files[j].gameVersion
    ensures BestMatch(files, version).Some? ==>
      exists k :: 0 <= k < |files| && files[k] == BestMatch(files, version).value && IsLatestEarliest(files, version, k)
  {
    if files != [] {
      var tail := files[1..];
      BestMatchIsLatestEarliest(tail, version);
      var rest := BestMatch(tail, version);
      assert forall j :: 1 <= j < |files| ==> files[j] == tail[j - 1];
      if version in files[0].gameVersion && (rest.None? || files[0].id >= rest.value.id) {
        if rest.Some? {
          var k :| 0 <= k < |tail| && tail[k] == rest.value && IsLatestEarliest(tail, version, k);
          assert forall j :: 1 <= j < |files| && version in files[j].gameVersion ==> files[j].id <= rest.value.id;
        }
        assert IsLatestEarliest(files, version, 0);
      } else if rest.Some? {
        var k :| 0 <= k < |tail| && tail[k] == rest.value && IsLatestEarliest(tail, version, k);
        assert IsLatestEarliest(files, version, k + 1);
      }
    }
  }

  /** `files[k]` lists the version, no file listing it has a larger id, and
      every earlier file listing it has a smaller id. */
  predicate IsLatestEarliest(files: seq<CurseForgeFile>, version: string, k: nat)
    requires k < |files|
  {
    && version in files[k].gameVersion
    && (forall j :: 0 <= j < |files| && version in files[j].gameVersion ==> files[j].id <= files[k].id)
    && (forall j :: 0 <= j < k && version in files[j].gameVersion ==> files[j].id < files[k].id)
  }

  /** The first match in the sorted list after inserting `f`. */
  lemma {:induction false} FindAfterInsert(f: CurseForgeFile, t: seq<CurseForgeFile>, version: string)
    requires IdsDescending(t)
    ensures Find(Insert(f, t), MatchesVersion(version)) ==
      var rest := Find(t, MatchesVersion(version));
      if version in f.gameVersion && (rest.None? || f.id >= rest.value.id) then Some(f) else rest
  {
    var p := MatchesVersion(version);
    if t == [] || f.id >= t[0].id {
      FindCons(f, t, p);
    } else {
      FindCons(t[0], Insert(f, t[1..]), p);
      FindCons(t[0], t[1..], p);
      assert t == [t[0]] + t[1..];
      FindAfterInsert(f, t[1..], version);
    }
  }

  /** Sorting by descending id and taking the first match picks the best
      match: the matching file of largest id, earliest among equal ids. */
  lemma {:induction false} FindInSortedIsBestMatch(files: seq<CurseForgeFile>, version: string)
    ensures Find(SortedByIdDesc(files), MatchesVersion(version)) == BestMatch(files, version)
  {
    if files != [] {
      FindInSortedIsBestMatch(files[1..], version);
      SortedByIdDescIsSortedPermutation(files[1..]);
      FindAfterInsert(files[0], SortedByIdDesc(files[1..]), version);
    }
  }

  /** One lookup at one version: lines 80-83. It misses exactly when no file
      lists the version, never throws, and otherwise hits with the download
      URL of the matching file of largest id, earliest among equal ids. */
  function ProbeCurseForge(files: seq<CurseForgeFile>, version: string): (r: Probe)
    ensures r.Miss? <==> forall j :: 0 <= j < |files| ==> version !in files[j].gameVersion
    ensures !r.Fail?
    ensures r.Hit? ==>
      exists k :: 0 <= k < |files| && IsLatestEarliest(files, version, k) && r.url == files[k].downloadUrl
  {
    FindInSortedIsBestMatch(files, version);
    BestMatchIsLatestEarliest(files, version);
    match Find(SortedByIdDesc(files), MatchesVersion(version))
    case Some(f) => Hit(f.downloadUrl)
    case None => Miss
  }

  /** `getUrlFromCurseforgeForVersionAndMod` on the fetched file list: the
      download URL of the latest file listing the exact version or, when none
      does and the version has three parts or more, its major.minor
      truncation; it fails only with "unknown mod". */
  function CurseForgeUrl(files: seq<CurseForgeFile>, version: string): (r: Result<string>)
    ensures r.Err? ==> r.error == UnknownMod
    ensures r.Ok? ==>
      exists k :: 0 <= k < |files| && r.value == files[k].downloadUrl &&
        (IsLatestEarliest(files, version, k) ||
         (|Split(version, '.')| >= 3 && IsLatestEarliest(files, MajorMinor(version), k)))
  {
    Search(v => ProbeCurseForge(files, v), version)
  }

  /** Picking the file: when some file lists the exact version, the result is
      the download URL of the matching file of largest id (the earliest in the
      fetched list among equal ids), and no truncated version is tried. */
  lemma CurseForgeUrlPicksLatestFile(files: seq<CurseForgeFile>, version: string, k: nat)
    requires k < |files| && IsLatestEarliest(files, version, k)
    ensures CurseForgeUrl(files, version) == Ok(files[k].downloadUrl)
  {
    FindInSortedIsBestMatch(files, version);
    BestMatchIsLatestEarliest(files, version);
    var best := BestMatch(files, version);
    var k' :| 0 <= k' < |files| && files[k'] == best.value && IsLatestEarliest(files, version, k');
    assert k' == k;
    SearchAtMostTwoProbes(v => ProbeCurseForge(files, v), version);
  }

  /** No file lists the exact version: a version of fewer than three parts
      fails with "unknown mod", a longer one is looked up again at its
      major.minor truncation. */
  lemma CurseForgeUrlFallsBack(files: seq<CurseForgeFile>, version: string)
    requires forall j :: 0 <= j < |files| ==> version !in files[j].gameVersion
    ensures |Split(version, '.')| < 3 ==> CurseForgeUrl(files, version) == Err(UnknownMod)
    ensures |Split(version, '.')| >= 3 ==>
      CurseForgeUrl(files, version) == CurseForgeUrl(files, MajorMinor(version))
  {
    FindInSortedIsBestMatch(files, version);
    BestMatchIsLatestEarliest(files, version);
  }

  /** The source function itself: fetch (here: read the given response into a
      fresh array), sort in place, find, and on a miss recurse at most once. */
  method GetCurseForgeUrl(version: string, mod: int, catalog: int -> seq<CurseForgeFile>) returns (r: Result<string>)
    ensures r == CurseForgeUrl(catalog(mod), version)
    decreases |Split(version, '.')|
  {
    var response := catalog(mod);
    var files := new CurseForgeFile[|response|](i requires 0 <= i < |response| => response[i]);
    assert files[..] == response;
    SortByIdDescending(files);
    var found := FirstIndex(files[..], MatchesVersion(version));
    if found.Some? {
      return Ok(files[found.value].downloadUrl);
    }
    var splitVersion := Split(version, '.');
    if |splitVersion| < 3 {
      return Err(UnknownMod);
    }
    var majorVersion := MajorMinor(version);
    r := GetCurseForgeUrl(majorVersion, mod, catalog);
  }

  // ---------------------------------------------------------------------
  // Modrinth

  function SupportsVersion(version: string): ModrinthVersion -> bool {
    (v: ModrinthVersion) => version in v.gameVersions
  }

  /** One lookup at one version: lines 96-98. It misses exactly when no
      entry lists the version; otherwise the earliest entry listing it
      decides, and reading `files[0].url` of an entry without files throws. */
  function ProbeModrinth(versions: seq<ModrinthVersion>, version: string): (r: Probe)
    ensures r.Miss? <==> forall j :: 0 <= j < |versions| ==> version !in versions[j].gameVersions
    ensures !r.Miss? ==>
      exists k :: 0 <= k < |versions| && version in versions[k].gameVersions &&
        (forall j :: 0 <= j < k ==> version !in versions[j].gameVersions) &&
        r == (if versions[k].files == [] then Fail(NoFileInVersion) else Hit(versions[k].files[0].url))
  {
    match FirstIndex(versions, SupportsVersion(version))
    case None => Miss
    case Some(i) =>
      if versions[i].files == [] then Fail(NoFileInVersion) else Hit(versions[i].files[0].url)
  }

  /** `getUrlFromModrinthForVersionAndMod` on the fetched version list: the
      first file URL of an entry that lists the exact version or, when none
      does and the version has three parts or more, its major.minor
      truncation. */
  function ModrinthUrl(versions: seq<ModrinthVersion>, version: string): (r: Result<string>)
    ensures r.Ok? ==>
      exists k :: 0 <= k < |versions| && versions[k].files != [] && r.value == versions[k].files[0].url &&
        (version in versions[k].gameVersions ||
         (|Split(version, '.')| >= 3 && MajorMinor(version) in versions[k].gameVersions))
    ensures r == Err(NoFileInVersion) ==>
      exists k :: 0 <= k < |versions| && versions[k].files == [] &&
        (version in versions[k].gameVersions ||
         (|Split(version, '.')| >= 3 && MajorMinor(version) in versions[k].gameVersions))
  {
    Search(v => ProbeModrinth(versions, v), version)
  }

  /** Picking the version: the earliest entry, in the order the catalog
      returned them, that lists the exact version decides the result, which is
      the URL of its first file; no truncated version is tried. */
  lemma ModrinthUrlPicksEarliestVersion(versions: seq<ModrinthVersion>, version: string, k: nat)
    requires k < |versions| && version in versions[k].gameVersions
    requires forall j :: 0 <= j < k ==> version !in versions[j].gameVersions
    ensures ModrinthUrl(versions, version) ==
      if versions[k].files == [] then Err(NoFileInVersion) else Ok(versions[k].files[0].url)
  {
  }

  /** No version lists the exact version: fail or retry at major.minor. */
  lemma ModrinthUrlFallsBack(versions: seq<ModrinthVersion>, version: string)
    requires forall j :: 0 <= j < |versions| ==> version !in versions[j].gameVersions
    ensures |Split(version, '.')| < 3 ==> ModrinthUrl(versions, version) == Err(UnknownMod)
    ensures |Split(version, '.')| >= 3 ==>
      ModrinthUrl(versions, version) == ModrinthUrl(versions, MajorMinor(version))
  {
  }
}
