/**
 * The file and directory views of the Django backend (backend/files/views.py): the query
 * parameters that narrow the directory and file listings, and the `versions` action that
 * walks a file's version history back to its first version and then forward again.
 *
 * Tables are sequences of rows in the order the database returns them. Turning a query
 * parameter into a key is the key field's own conversion, passed in as `asKey`; `None`
 * stands for a text the field refuses, on which the request fails.
 */
module FileViews {

  import opened Wrappers

  // ---------------------------------------------------------------------------
  // Rows

  datatype Directory = Directory(id: int, projectId: int, parentId: Option<int>)

  datatype File = File(id: int, projectId: int, directoryId: Option<int>, isLatest: bool, previousVersion: Option<int>)

  /** A listing, or the name of the query parameter whose value the key field refused. */
  datatype Query<T> = Ok(value: T) | Rejected(param: string)

  // ---------------------------------------------------------------------------
  // Filtering

  /** `queryset.filter(...)`: the rows that pass, in their order. */
  function Filter<T(!new)>(rows: seq<T>, keep: T -> bool): (r: seq<T>)
    ensures |r| <= |rows|
    ensures forall x :: x in r <==> x in rows && keep(x)
  {
    if rows == [] then []
    else if keep(rows[0]) then [rows[0]] + Filter(rows[1..], keep)
    else Filter(rows[1..], keep)
  }

  /** Filtering twice is filtering once by both conditions: chained filters are conjunctive. */
  lemma {:induction false} FilterTwice<T(!new)>(rows: seq<T>, first: T -> bool, second: T -> bool, both: T -> bool)
    requires forall x :: both(x) == (first(x) && second(x))
    ensures Filter(Filter(rows, first), second) == Filter(rows, both)
  {
    if rows != [] {
      FilterTwice(rows[1..], first, second, both);
      if first(rows[0]) {
        assert Filter(rows, first) == [rows[0]] + Filter(rows[1..], first);
        assert ([rows[0]] + Filter(rows[1..], first))[1..] == Filter(rows[1..], first);
      }
    }
  }

  /** A filter keeps the order of the rows: it distributes over concatenation. */
  lemma {:induction false} FilterAppend<T(!new)>(a: seq<T>, b: seq<T>, keep: T -> bool)
    ensures Filter(a + b, keep) == Filter(a, keep) + Filter(b, keep)
  {
    if a == [] {
      assert a + b == b;
    } else {
      assert (a + b)[1..] == a[1..] + b;
      FilterAppend(a[1..], b, keep);
    }
  }

  /** What one query parameter asks of a nullable key column. */
  datatype Selector = Anything | Missing | Equals(key: int) {
    predicate Selects(column: Option<int>) {
      match this
      case Anything => true
      case Missing => column.None?
      case Equals(key) => column == Some(key)
    }
  }

  /** `project`: a non-empty value selects that project; anything else selects every project. */
  function ProjectSelector(param: Option<string>, asKey: string -> Option<int>): (r: Query<Selector>)
    ensures r.Rejected? <==> Given(param) && asKey(param.value).None?
    ensures r.Ok? && Given(param) ==> r.value == Equals(asKey(param.value).value)
    ensures !Given(param) ==> r == Ok(Anything)
  {
    if Given(param) then
      match asKey(param.value)
      case None => Rejected("project")
      case Some(key) => Ok(Equals(key))
    else Ok(Anything)
  }

  /** `parent` or `directory`: the text `null` selects rows without one; other non-empty values select that key. */
  function NullableSelector(name: string, param: Option<string>, asKey: string -> Option<int>): (r: Query<Selector>)
    ensures r.Rejected? <==> Given(param) && param.value != "null" && asKey(param.value).None?
    ensures r.Rejected? ==> r.param == name
    ensures param == Some("null") ==> r == Ok(Missing)
    ensures r.Ok? && Given(param) && param.value != "null" ==> r.value == Equals(asKey(param.value).value)
    ensures !Given(param) ==> r == Ok(Anything)
  {
    if Given(param) && param.value != "null" then
      match asKey(param.value)
      case None => Rejected(name)
      case Some(key) => Ok(Equals(key))
    else if param == Some("null") then Ok(Missing)
    else Ok(Anything)
  }

  /** What the `project` selector keeps, in terms of the parameter. */
  lemma ProjectSelects(param: Option<string>, asKey: string -> Option<int>, id: int)
    requires ProjectSelector(param, asKey).Ok?
    ensures ProjectSelector(param, asKey).value.Selects(Some(id)) <==> (Given(param) ==> asKey(param.value) == Some(id))
  {
  }

  /** What a nullable selector keeps, in terms of the parameter. */
  lemma NullableSelects(name: string, param: Option<string>, asKey: string -> Option<int>, column: Option<int>)
    requires NullableSelector(name, param, asKey).Ok?
    ensures NullableSelector(name, param, asKey).value.Selects(column) <==>
      && (param == Some("null") ==> column.None?)
      && (Given(param) && param.value != "null" ==> column == asKey(param.value))
  {
  }

  // ---------------------------------------------------------------------------
  // Directory listing

  predicate DirectoryWanted(d: Directory, project: Selector, parent: Selector) {
    project.Selects(Some(d.projectId)) && parent.Selects(d.parentId)
  }

  /** `DirectoryViewSet.get_queryset`. */
  function DirectoryQuery(dirs: seq<Directory>, project: Option<string>, parent: Option<string>,
                          asKey: string -> Option<int>): (r: Query<seq<Directory>>)
    ensures r.Rejected? <==> ProjectSelector(project, asKey).Rejected? || NullableSelector("parent", parent, asKey).Rejected?
    ensures r.Ok? ==>
      var p := ProjectSelector(project, asKey).value;
      var q := NullableSelector("parent", parent, asKey).value;
      r.value == Filter(dirs, d => DirectoryWanted(d, p, q))
  {
    match ProjectSelector(project, asKey)
    case Rejected(name) => Rejected(name)
    case Ok(p) =>
      match NullableSelector("parent", parent, asKey)
      case Rejected(name) => Rejected(name)
      case Ok(q) =>
        var byProject := Filter(dirs, (d: Directory) => p.Selects(Some(d.projectId)));
        var byParent := Filter(byProject, (d: Directory) => q.Selects(d.parentId));
        FilterTwice(dirs, (d: Directory) => p.Selects(Some(d.projectId)), (d: Directory) => q.Selects(d.parentId),
                    d => DirectoryWanted(d, p, q));
        Ok(byParent)
  }

  /** Filters whose conditions agree on every row give the same rows. */
  lemma {:induction false} FilterSameCondition<T(!new)>(rows: seq<T>, keep: T -> bool, keep2: T -> bool)
    requires forall x :: keep(x) == keep2(x)
    ensures Filter(rows, keep) == Filter(rows, keep2)
  {
    if rows != [] {
      FilterSameCondition(rows[1..], keep, keep2);
    }
  }

  /** The directory listing in terms of the query parameters alone. */
  lemma DirectoryQueryMeaning(dirs: seq<Directory>, project: Option<string>, parent: Option<string>,
                              asKey: string -> Option<int>, d: Directory)
    requires DirectoryQuery(dirs, project, parent, asKey).Ok?
    ensures d in DirectoryQuery(dirs, project, parent, asKey).value <==>
      && d in dirs
      && (Given(project) ==> asKey(project.value) == Some(d.projectId))
      && (parent == Some("null") ==> d.parentId.None?)
      && (Given(parent) && parent.value != "null" ==> d.parentId == asKey(parent.value))
  {
    ProjectSelects(project, asKey, d.projectId);
    NullableSelects("parent", parent, asKey, d.parentId);
  }

  // ---------------------------------------------------------------------------
  // File listing

  /** ASCII lower-casing, which is all that matters when the result is compared with `true`. */
  function Lower(s: string): (r: string)
    ensures |r| == |s|
    ensures forall i :: 0 <= i < |s| ==> r[i] == if 'A' <= s[i] <= 'Z' then (s[i] as int + 32) as char else s[i]
  {
    if s == [] then []
    else [if 'A' <= s[0] <= 'Z' then (s[0] as int + 32) as char else s[0]] + Lower(s[1..])
  }

  /** `latest_only` asks for the latest versions only: absent, or any casing of `true`. */
  predicate LatestOnly(param: Option<string>) {
    Lower(param.GetOr("true")) == "true"
  }

  lemma LatestOnlyCases()
    ensures LatestOnly(None) && LatestOnly(Some("TRUE")) && LatestOnly(Some("True"))
    ensures !LatestOnly(Some("")) && !LatestOnly(Some("false")) && !LatestOnly(Some("1"))
  {
    assert Lower("TRUE") == "true";
    assert Lower("True") == "true";
    assert Lower("false")[0] == 'f';
    assert Lower("1")[0] == '1';
  }

  predicate FileWanted(f: File, project: Selector, directory: Selector, latestOnly: bool) {
    project.Selects(Some(f.projectId)) && directory.Selects(f.directoryId) && (latestOnly ==> f.isLatest)
  }

  /** The rows of `files` a file listing with these selectors keeps, in their order. */
  function FileFilter(files: seq<File>, project: Selector, directory: Selector, latestOnly: bool): (r: seq<File>)
    ensures forall f :: f in r <==> f in files && FileWanted(f, project, directory, latestOnly)
  {
    Filter(files, f => FileWanted(f, project, directory, latestOnly))
  }

  /** `FileViewSet.get_queryset`. */
  function FileQuery(files: seq<File>, project: Option<string>, directory: Option<string>,
                     latestOnly: Option<string>, asKey: string -> Option<int>): (r: Query<seq<File>>)
    ensures r.Rejected? <==> ProjectSelector(project, asKey).Rejected? || NullableSelector("directory", directory, asKey).Rejected?
    ensures r.Ok? ==>
      r.value == FileFilter(files, ProjectSelector(project, asKey).value,
                            NullableSelector("directory", directory, asKey).value, LatestOnly(latestOnly))
  {
    match ProjectSelector(project, asKey)
    case Rejected(name) => Rejected(name)
    case Ok(p) =>
      match NullableSelector("directory", directory, asKey)
      case Rejected(name) => Rejected(name)
      case Ok(q) =>
        var latest := LatestOnly(latestOnly);
        var byProject := Filter(files, (f: File) => p.Selects(Some(f.projectId)));
        var byDirectory := Filter(byProject, (f: File) => q.Selects(f.directoryId));
        var byLatest := if latest then Filter(byDirectory, (f: File) => f.isLatest) else byDirectory;
        var both := (f: File) => p.Selects(Some(f.projectId)) && q.Selects(f.directoryId);
        FilterTwice(files, (f: File) => p.Selects(Some(f.projectId)), (f: File) => q.Selects(f.directoryId), both);
        if latest then
          FilterTwice(files, both, (f: File) => f.isLatest, f => FileWanted(f, p, q, latest));
          Ok(byLatest)
        else
          FilterSameCondition(files, both, f => FileWanted(f, p, q, latest));
          Ok(byLatest)
  }

  /** The file listing in terms of the query parameters alone. */
  lemma FileQueryMeaning(files: seq<File>, project: Option<string>, directory: Option<string>,
                         latestOnly: Option<string>, asKey: string -> Option<int>, f: File)
    requires FileQuery(files, project, directory, latestOnly, asKey).Ok?
    ensures f in FileQuery(files, project, directory, latestOnly, asKey).value <==>
      && f in files
      && (Given(project) ==> asKey(project.value) == Some(f.projectId))
      && (directory == Some("null") ==> f.directoryId.None?)
      && (Given(directory) && directory.value != "null" ==> f.directoryId == asKey(directory.value))
      && (LatestOnly(latestOnly) ==> f.isLatest)
  {
    ProjectSelects(project, asKey, f.projectId);
    NullableSelects("directory", directory, asKey, f.directoryId);
  }

  /** Without parameters that narrow it, the file listing is the whole table. */
  lemma FileQueryUnnarrowed(files: seq<File>, asKey: string -> Option<int>)
    ensures FileQuery(files, None, None, Some("false"), asKey) == Ok(files)
  {
    LatestOnlyCases();
    FileFilterEverything(files);
  }

  lemma {:induction false} FileFilterEverything(files: seq<File>)
    ensures FileFilter(files, Anything, Anything, false) == files
  {
    if files != [] {
      FileFilterEverything(files[1..]);
    }
  }

  /** Asking for the latest versions only narrows the file listing. */
  lemma LatestOnlyNarrows(files: seq<File>, project: Option<string>, directory: Option<string>,
                          asKey: string -> Option<int>, f: File)
    requires FileQuery(files, project, directory, None, asKey).Ok?
    ensures f in FileQuery(files, project, directory, None, asKey).value ==>
      f in FileQuery(files, project, directory, Some("false"), asKey).value
  {
    LatestOnlyCases();
    FileQueryMeaning(files, project, directory, None, asKey, f);
    FileQueryMeaning(files, project, directory, Some("false"), asKey, f);
  }

  /** Asking for one directory narrows the file listing. */
  lemma DirectoryNarrows(files: seq<File>, project: Option<string>, directory: Option<string>,
                         asKey: string -> Option<int>, f: File)
    requires FileQuery(files, project, directory, Some("false"), asKey).Ok?
    ensures f in FileQuery(files, project, directory, Some("false"), asKey).value ==>
      f in FileQuery(files, project, None, Some("false"), asKey).value
  {
    FileQueryMeaning(files, project, directory, Some("false"), asKey, f);
    FileQueryMeaning(files, project, None, Some("false"), asKey, f);
  }

  // ---------------------------------------------------------------------------
  // Version history

  /** The table's primary key: no two rows share an id. */
  predicate WellFormedTable(files: seq<File>) {
    forall i, j :: 0 <= i < j < |files| ==> files[i].id != files[j].id
  }

  function FileWithId(files: seq<File>, id: int): (r: Option<File>)
    ensures r.Some? ==> r.value in files && r.value.id == id
    ensures r.None? ==> forall f :: f in files ==> f.id != id
  {
    if files == [] then None
    else if files[0].id == id then Some(files[0])
    else FileWithId(files[1..], id)
  }

  /** `f.previous_version`. */
  function Predecessor(files: seq<File>, f: File): (r: Option<File>)
    ensures r.Some? ==> r.value in files && f.previousVersion == Some(r.value.id)
    ensures r.None? && f.previousVersion.Some? ==> forall g :: g in files ==> g.id != f.previousVersion.value
  {
    if f.previousVersion.None? then None else FileWithId(files, f.previousVersion.value)
  }

  /** The index of the first row naming `f` as its previous version, or -1 when none does. */
  function SuccessorIndex(files: seq<File>, f: File): (i: int)
    ensures -1 <= i < |files|
    ensures i >= 0 ==> files[i].previousVersion == Some(f.id)
    ensures i >= 0 ==> forall j :: 0 <= j < i ==> files[j].previousVersion != Some(f.id)
    ensures i == -1 ==> forall j :: 0 <= j < |files| ==> files[j].previousVersion != Some(f.id)
  {
    if files == [] then -1
    else if files[0].previousVersion == Some(f.id) then 0
    else
      var k := SuccessorIndex(files[1..], f);
      if k < 0 then -1 else k + 1
  }

  /** `File.objects.filter(previous_version=f).first()`: the earliest such row, or `None` when there is none. */
  function Successor(files: seq<File>, f: File): (r: Option<File>)
    ensures r.None? ==> forall g :: g in files ==> g.previousVersion != Some(f.id)
    ensures r.Some? ==> r.value in files && r.value.previousVersion == Some(f.id)
    ensures r.Some? ==> SuccessorIndex(files, f) >= 0 && r.value == files[SuccessorIndex(files, f)]
  {
    if files == [] then None
    else if files[0].previousVersion == Some(f.id) then Some(files[0])
    else Successor(files[1..], f)
  }

  /** The file `k` steps back along `previous_version` from `f`. */
  function Ancestor(files: seq<File>, f: File, k: nat): (r: Option<File>)
    ensures f in files && r.Some? ==> r.value in files
  {
    if k == 0 then Some(f)
    else match Ancestor(files, f, k - 1)
      case None => None
      case Some(g) => Predecessor(files, g)
  }

  /** Every step before one that exists exists too, and has a previous version. */
  lemma {:induction false} AncestorPrefix(files: seq<File>, f: File, k: nat, j: nat)
    requires k < j && Ancestor(files, f, j).Some?
    ensures Ancestor(files, f, k).Some? && Ancestor(files, f, k).value.previousVersion.Some?
    decreases j
  {
    assert Ancestor(files, f, j - 1).Some?;
    if k < j - 1 {
      AncestorPrefix(files, f, k, j - 1);
    }
  }

  /** Once a step repeats an earlier one, the walk repeats with that period. */
  lemma {:induction false} AncestorPeriodic(files: seq<File>, f: File, i: nat, j: nat, n: nat)
    requires i < j && Ancestor(files, f, i).Some? && Ancestor(files, f, i) == Ancestor(files, f, j)
    requires n >= i
    ensures Ancestor(files, f, n + (j - i)) == Ancestor(files, f, n)
    decreases n
  {
    if n > i {
      AncestorPeriodic(files, f, i, j, n - 1);
      assert n + (j - i) - 1 == (n - 1) + (j - i);
    }
  }

  /**
   * A walk back that meets a file it has already met never reaches a first version:
   * every step exists and has a previous version, so the loop does not end.
   */
  lemma {:induction false} RepeatedAncestorNeverEnds(files: seq<File>, f: File, i: nat, j: nat, n: nat)
    requires i < j && Ancestor(files, f, i).Some? && Ancestor(files, f, i) == Ancestor(files, f, j)
    ensures Ancestor(files, f, n).Some? && Ancestor(files, f, n).value.previousVersion.Some?
    decreases n
  {
    if n < j {
      AncestorPrefix(files, f, n, j);
    } else {
      RepeatedAncestorNeverEnds(files, f, i, j, n - (j - i));
      AncestorPeriodic(files, f, i, j, n - (j - i));
    }
  }

  /**
   * A version list as `versions` builds it: it starts at a first version, each entry is the
   * first successor of the one before it, and the last entry has no successor.
   */
  predicate IsVersionChain(files: seq<File>, chain: seq<File>) {
    && chain != []
    && chain[0].previousVersion.None?
    && (forall k :: 0 <= k < |chain| ==> chain[k] in files)
    && (forall k {:trigger Successor(files, chain[k])} :: 0 <= k < |chain| - 1 ==> Successor(files, chain[k]) == Some(chain[k + 1]))
    && Successor(files, chain[|chain| - 1]).None?
  }

  /** The list is determined by its first version. */
  lemma {:induction false} VersionChainUnique(files: seq<File>, chain: seq<File>, chain2: seq<File>)
    requires IsVersionChain(files, chain) && IsVersionChain(files, chain2) && chain[0] == chain2[0]
    ensures chain == chain2
  {
    var k: nat := 0;
    while k < |chain| - 1 && k < |chain2| - 1
      invariant 0 <= k < |chain| && k < |chain2|
      invariant forall i :: 0 <= i <= k ==> chain[i] == chain2[i]
    {
      assert Successor(files, chain[k]) == Some(chain[k + 1]);
      k := k + 1;
    }
    ChainsEndTogether(files, chain, chain2, k);
  }

  /** Two version lists that agree up to the end of one of them end there together. */
  lemma ChainsEndTogether(files: seq<File>, chain: seq<File>, chain2: seq<File>, k: nat)
    requires IsVersionChain(files, chain) && IsVersionChain(files, chain2)
    requires k < |chain| && k < |chain2| && chain[k] == chain2[k]
    requires k == |chain| - 1 || k == |chain2| - 1
    ensures |chain| == |chain2|
  {
  }

  /** No row lists a version twice. */
  predicate DistinctIds(chain: seq<File>) {
    forall a, b :: 0 <= a < b < |chain| ==> chain[a].id != chain[b].id
  }

  function IdsOf(files: seq<File>): set<int> {
    set f | f in files :: f.id
  }

  /** The next successor is new to a version list built so far: the walk forward cannot loop. */
  lemma SuccessorIsNew(files: seq<File>, chain: seq<File>, next: File)
    requires WellFormedTable(files) && chain != [] && DistinctIds(chain)
    requires chain[0].previousVersion.None?
    requires forall k :: 0 <= k < |chain| ==> chain[k] in files
    requires forall k :: 0 <= k < |chain| - 1 ==> Successor(files, chain[k]) == Some(chain[k + 1])
    requires Successor(files, chain[|chain| - 1]) == Some(next)
    ensures forall k :: 0 <= k < |chain| ==> chain[k].id != next.id
  {
    forall k | 0 <= k < |chain| ensures chain[k].id != next.id {
      if k > 0 {
        assert chain[k].previousVersion == Some(chain[k - 1].id);
        assert chain[k - 1].id != chain[|chain| - 1].id;
      }
      DistinctRowsDistinctIds(files, chain[k], next);
    }
  }

  lemma DistinctRowsDistinctIds(files: seq<File>, f: File, g: File)
    requires WellFormedTable(files) && f in files && g in files && f != g
    ensures f.id != g.id
  {
    var i :| 0 <= i < |files| && files[i] == f;
    var j :| 0 <= j < |files| && files[j] == g;
  }

  lemma ShrinkUnseen(all: set<int>, seen: set<int>, x: int)
    requires x in all && x !in seen
    ensures |all - (seen + {x})| < |all - seen|
  {
    assert all - seen == (all - (seen + {x})) + {x};
  }

  lemma SameIdSameRow(files: seq<File>, f: File, g: File)
    requires WellFormedTable(files) && f in files && g in files && f.id == g.id
    ensures f == g
  {
    var i :| 0 <= i < |files| && files[i] == f;
    var j :| 0 <= j < |files| && files[j] == g;
  }

  /** Once the walk back repeats a file, no step of it ever reaches a first version. */
  lemma RepeatedWalkEndless(files: seq<File>, f: File, i: nat, j: nat)
    requires i < j && Ancestor(files, f, i).Some? && Ancestor(files, f, i) == Ancestor(files, f, j)
    ensures forall n: nat :: Ancestor(files, f, n).Some? && Ancestor(files, f, n).value.previousVersion.Some?
  {
    forall n: nat
      ensures Ancestor(files, f, n).Some? && Ancestor(files, f, n).value.previousVersion.Some?
    {
      RepeatedAncestorNeverEnds(files, f, i, j, n);
    }
  }

  lemma IdsOfAppend(rows: seq<File>, f: File)
    ensures IdsOf(rows + [f]) == IdsOf(rows) + {f.id}
  {
    assert forall g :: g in rows + [f] <==> g in rows || g == f;
  }

  lemma IdsOfWithin(rows: seq<File>, files: seq<File>)
    requires forall k :: 0 <= k < |rows| ==> rows[k] in files
    ensures IdsOf(rows) <= IdsOf(files)
  {
    forall id | id in IdsOf(rows) ensures id in IdsOf(files) {
      var g :| g in rows && g.id == id;
    }
  }

  /** How the walk back along `previous_version` ends. */
  datatype WalkEnd =
    | FirstVersion  // a file without a previous version was reached
    | Cycle         // the walk came round to a file it had met: the loop never ends
    | Dangling      // a `previous_version` names no row: the lookup raises

  /**
   * The first loop of `versions`: follow `previous_version` from `file` until a file has none.
   * A walk that comes round to a file it has met would never end; `Cycle` reports that.
   */
  method WalkBack(files: seq<File>, file: File) returns (first: File, steps: nat, end: WalkEnd)
    requires WellFormedTable(files) && file in files
    ensures end != Cycle ==> Ancestor(files, file, steps) == Some(first)
    ensures end == FirstVersion ==> first.previousVersion.None?
    ensures end == Dangling ==> Ancestor(files, file, steps + 1).None?
    ensures end == Dangling ==> first.previousVersion.Some? && FileWithId(files, first.previousVersion.value).None?
    ensures end == Cycle ==>
      forall n: nat :: Ancestor(files, file, n).Some? && Ancestor(files, file, n).value.previousVersion.Some?
  {
    first, steps, end := file, 0, FirstVersion;
    var walked := [file];
    ghost var i: nat, j: nat := 0, 0;  // two steps that meet the same file, once a cycle is found
    while first.previousVersion.Some? && end == FirstVersion
      invariant |walked| == steps + 1 && walked[steps] == first
      invariant forall k :: 0 <= k <= steps ==> Ancestor(files, file, k) == Some(walked[k])
      invariant forall k :: 0 <= k <= steps ==> walked[k] in files
      invariant end == Dangling ==> Ancestor(files, file, steps + 1).None?
      invariant end == Dangling ==> first.previousVersion.Some? && FileWithId(files, first.previousVersion.value).None?
      invariant end == Cycle ==> i < j && Ancestor(files, file, i).Some? && Ancestor(files, file, i) == Ancestor(files, file, j)
      decreases |IdsOf(files) - IdsOf(walked)|, if end == FirstVersion then 1 else 0
    {
      var p := Predecessor(files, first);
      assert Ancestor(files, file, steps + 1) == p;
      if p.None? {
        end := Dangling;
      } else if p.value.id in IdsOf(walked) {
        i := BackStepRepeats(files, file, walked, p.value);
        j := steps + 1;
        end := Cycle;
      } else {
        BackStepShrinks(files, walked, p.value);
        BackStepExtends(files, file, walked, p.value);
        first := p.value;
        steps := steps + 1;
        walked := walked + [p.value];
      }
    }
    if end == Cycle {
      RepeatedWalkEndless(files, file, i, j);
    }
  }

  /** The files met so far, with the next one appended, are still the first steps of the walk. */
  lemma BackStepExtends(files: seq<File>, file: File, walked: seq<File>, prev: File)
    requires forall k :: 0 <= k < |walked| ==> Ancestor(files, file, k) == Some(walked[k])
    requires Ancestor(files, file, |walked|) == Some(prev)
    ensures forall k :: 0 <= k <= |walked| ==> Ancestor(files, file, k) == Some((walked + [prev])[k])
  {
  }

  /** A step back to an id met before lands on the very file met before. */
  lemma BackStepRepeats(files: seq<File>, file: File, walked: seq<File>, prev: File) returns (k: nat)
    requires WellFormedTable(files) && prev in files && prev.id in IdsOf(walked)
    requires forall k :: 0 <= k < |walked| ==> walked[k] in files
    ensures k < |walked| && walked[k] == prev
  {
    var f :| f in walked && f.id == prev.id;
    var i :| 0 <= i < |walked| && walked[i] == f;
    SameIdSameRow(files, f, prev);
    k := i;
  }

  /** A step to a new id leaves fewer ids of the table unmet. */
  lemma BackStepShrinks(files: seq<File>, walked: seq<File>, next: File)
    requires next in files && next.id !in IdsOf(walked)
    requires forall k :: 0 <= k < |walked| ==> walked[k] in files
    ensures |IdsOf(files) - IdsOf(walked + [next])| < |IdsOf(files) - IdsOf(walked)|
  {
    IdsOfWithin(walked, files);
    IdsOfAppend(walked, next);
    ShrinkUnseen(IdsOf(files), IdsOf(walked), next.id);
  }

  /** The second loop of `versions`: from a first version, append first successors until there is none. */
  method WalkForward(files: seq<File>, first: File) returns (allVersions: seq<File>)
    requires WellFormedTable(files) && first in files && first.previousVersion.None?
    ensures IsVersionChain(files, allVersions) && allVersions[0] == first
    ensures DistinctIds(allVersions)
  {
    allVersions := [first];
    var current := first;
    while Successor(files, current).Some?
      invariant allVersions != [] && allVersions[0] == first && current == allVersions[|allVersions| - 1]
      invariant forall k :: 0 <= k < |allVersions| ==> allVersions[k] in files
      invariant forall k :: 0 <= k < |allVersions| - 1 ==> Successor(files, allVersions[k]) == Some(allVersions[k + 1])
      invariant DistinctIds(allVersions)
      decreases |IdsOf(files) - IdsOf(allVersions)|
    {
      var next := Successor(files, current).value;
      ForwardStep(files, allVersions, next);
      allVersions := allVersions + [next];
      current := next;
    }
  }

  /** Appending the next successor keeps a version list under construction well built, and shortens what is left. */
  lemma ForwardStep(files: seq<File>, chain: seq<File>, next: File)
    requires WellFormedTable(files) && chain != [] && DistinctIds(chain)
    requires chain[0].previousVersion.None?
    requires forall k :: 0 <= k < |chain| ==> chain[k] in files
    requires forall k :: 0 <= k < |chain| - 1 ==> Successor(files, chain[k]) == Some(chain[k + 1])
    requires Successor(files, chain[|chain| - 1]) == Some(next)
    ensures |IdsOf(files) - IdsOf(chain + [next])| < |IdsOf(files) - IdsOf(chain)|
    ensures DistinctIds(chain + [next])
    ensures forall k :: 0 <= k < |chain + [next]| ==> (chain + [next])[k] in files
    ensures forall k :: 0 <= k < |chain| ==> Successor(files, (chain + [next])[k]) == Some((chain + [next])[k + 1])
  {
    SuccessorIsNew(files, chain, next);
    IdsOfMember(chain, next.id);
    BackStepShrinks(files, chain, next);
    AppendNewId(chain, next);
    ChainExtends(files, chain, next);
  }

  /** The successor links of a list under construction, with the next successor appended. */
  lemma ChainExtends(files: seq<File>, chain: seq<File>, next: File)
    requires chain != []
    requires forall k :: 0 <= k < |chain| ==> chain[k] in files
    requires forall k :: 0 <= k < |chain| - 1 ==> Successor(files, chain[k]) == Some(chain[k + 1])
    requires Successor(files, chain[|chain| - 1]) == Some(next)
    ensures forall k :: 0 <= k < |chain + [next]| ==> (chain + [next])[k] in files
    ensures forall k :: 0 <= k < |chain| ==> Successor(files, (chain + [next])[k]) == Some((chain + [next])[k + 1])
  {
    var c := chain + [next];
    forall k | 0 <= k < |chain| ensures Successor(files, c[k]) == Some(c[k + 1]) {
      assert c[k] == chain[k];
      if k + 1 < |chain| {
        assert c[k + 1] == chain[k + 1];
      } else {
        assert c[k + 1] == next;
      }
    }
  }

  /** Appending a row with a new id keeps the ids distinct. */
  lemma AppendNewId(chain: seq<File>, next: File)
    requires DistinctIds(chain)
    requires forall k :: 0 <= k < |chain| ==> chain[k].id != next.id
    ensures DistinctIds(chain + [next])
  {
    var c := chain + [next];
    forall a, b | 0 <= a < b < |c| ensures c[a].id != c[b].id {
      assert c[a] == chain[a];
      if b < |chain| {
        assert c[b] == chain[b];
      }
    }
  }

  /** The ids of a list are the ids at its positions. */
  lemma IdsOfMember(rows: seq<File>, id: int)
    ensures id in IdsOf(rows) <==> exists k :: 0 <= k < |rows| && rows[k].id == id
  {
    if id in IdsOf(rows) {
      var f :| f in rows && f.id == id;
      var k :| 0 <= k < |rows| && rows[k] == f;
    }
  }

  /** The answer of the `versions` action. */
  datatype VersionsReply =
    | BadParam(param: string)
    | NotFound
    | NeverAnswers(file: File)
    | BrokenLink(file: File, depth: nat)
    | Versions(chain: seq<File>, file: File, rootDistance: nat)

  /** The file `versions` is asked about: the row with the key among the rows the listing leaves. */
  function RequestedFile(files: seq<File>, project: Option<string>, directory: Option<string>,
                         latestOnly: Option<string>, pk: string, asKey: string -> Option<int>): (r: Option<File>)
    ensures r.Some? ==> r.value in files && Some(r.value.id) == asKey(pk)
    ensures r.Some? ==> FileQuery(files, project, directory, latestOnly, asKey).Ok? && r.value in FileQuery(files, project, directory, latestOnly, asKey).value
  {
    var visible := FileQuery(files, project, directory, latestOnly, asKey);
    if visible.Rejected? || asKey(pk).None? then None else FileWithId(visible.value, asKey(pk).value)
  }

  /**
   * The walk back from `file` breaks at step `depth`: the row `depth - 1` steps back names a
   * previous version that no row of the table has.
   */
  predicate MissingPrevious(files: seq<File>, file: File, depth: nat) {
    && depth >= 1 && Ancestor(files, file, depth - 1).Some?
    && Ancestor(files, file, depth - 1).value.previousVersion.Some?
    && FileWithId(files, Ancestor(files, file, depth - 1).value.previousVersion.value).None?
  }

  /**
   * The history of one file, as `versions` builds it once the file is found: the walk goes
   * back to a file without a previous version and then forward, taking the first successor
   * each time.
   */
  method History(files: seq<File>, file: File) returns (r: VersionsReply)
    requires WellFormedTable(files) && file in files
    ensures !r.BadParam? && !r.NotFound? && r.file == file
    ensures r.Versions? ==>
      && IsVersionChain(files, r.chain)
      && DistinctIds(r.chain)
      && Ancestor(files, file, r.rootDistance) == Some(r.chain[0])
    ensures r.NeverAnswers? ==>
      forall n: nat :: Ancestor(files, file, n).Some? && Ancestor(files, file, n).value.previousVersion.Some?
    ensures r.BrokenLink? ==> Ancestor(files, file, r.depth).None?
    ensures r.BrokenLink? ==> MissingPrevious(files, file, r.depth)
  {
    var first, steps, end := WalkBack(files, file);
    if end == Cycle {
      return NeverAnswers(file);
    } else if end == Dangling {
      return BrokenLink(file, steps + 1);
    }
    var allVersions := WalkForward(files, first);
    r := Versions(allVersions, file, steps);
  }

  /**
   * `FileViewSet.versions`. The requested file is looked up among the rows the listing's
   * parameters leave (the latest versions only, unless `latest_only` says otherwise), and
   * its history is built.
   */
  method VersionsOf(files: seq<File>, project: Option<string>, directory: Option<string>,
                    latestOnly: Option<string>, pk: string, asKey: string -> Option<int>)
    returns (r: VersionsReply)
    requires WellFormedTable(files)
    ensures r.BadParam? <==> FileQuery(files, project, directory, latestOnly, asKey).Rejected?
    ensures r.NotFound? <==>
      FileQuery(files, project, directory, latestOnly, asKey).Ok? && RequestedFile(files, project, directory, latestOnly, pk, asKey).None?
    ensures !r.BadParam? && !r.NotFound? ==> RequestedFile(files, project, directory, latestOnly, pk, asKey) == Some(r.file)
    ensures r.Versions? ==>
      && IsVersionChain(files, r.chain)
      && DistinctIds(r.chain)
      && Ancestor(files, r.file, r.rootDistance) == Some(r.chain[0])
    ensures r.NeverAnswers? ==>
      forall n: nat :: Ancestor(files, r.file, n).Some? && Ancestor(files, r.file, n).value.previousVersion.Some?
    ensures r.BrokenLink? ==> Ancestor(files, r.file, r.depth).None?
    ensures r.BrokenLink? ==> MissingPrevious(files, r.file, r.depth)
  {
    var visible := FileQuery(files, project, directory, latestOnly, asKey);
    if visible.Rejected? {
      return BadParam(visible.param);
    }
    var found := RequestedFile(files, project, directory, latestOnly, pk, asKey);
    if found.None? {
      return NotFound;
    }
    var file := found.value;
    r := History(files, file);
    assert r.file == file;
  }

  /** No two rows name the same previous version: the history has no branches. */
  predicate LinearHistory(files: seq<File>) {
    forall i, j :: 0 <= i < j < |files| && files[i].previousVersion.Some? ==> files[i].previousVersion != files[j].previousVersion
  }

  /**
   * Without branches in the history, the requested file is in its own version list, at the
   * position of its distance from the first version.
   */
  lemma RequestedFileListed(files: seq<File>, chain: seq<File>, file: File, m: nat)
    requires WellFormedTable(files) && LinearHistory(files) && file in files
    requires IsVersionChain(files, chain) && Ancestor(files, file, m) == Some(chain[0])
    ensures m < |chain| && chain[m] == file
  {
    ListedFrom(files, chain, file, m, 0);
  }

  /** From entry `k`, `m - k` steps back from the requested file, the list reaches it. */
  lemma {:induction false} ListedFrom(files: seq<File>, chain: seq<File>, file: File, m: nat, k: nat)
    requires WellFormedTable(files) && LinearHistory(files) && file in files
    requires IsVersionChain(files, chain) && Ancestor(files, file, m) == Some(chain[0])
    requires k <= m && k < |chain| && Ancestor(files, file, m - k) == Some(chain[k])
    ensures m < |chain| && chain[m] == file
    decreases m - k
  {
    if k < m {
      ListedStep(files, chain, file, m, k);
      ListedFrom(files, chain, file, m, k + 1);
    }
  }

  /** One step of the argument: the file one step nearer the requested one is the next entry. */
  lemma ListedStep(files: seq<File>, chain: seq<File>, file: File, m: nat, k: nat)
    requires WellFormedTable(files) && LinearHistory(files) && file in files
    requires IsVersionChain(files, chain)
    requires k < m && k < |chain| && Ancestor(files, file, m) == Some(chain[0])
    requires Ancestor(files, file, m - k) == Some(chain[k])
    ensures k + 1 < |chain| && Ancestor(files, file, m - k - 1) == Some(chain[k + 1])
  {
    AncestorPrefix(files, file, m - k - 1, m);
    var g := Ancestor(files, file, m - k - 1).value;
    assert Predecessor(files, g) == Some(chain[k]);
    assert g in files && g.previousVersion == Some(chain[k].id);
    var s := Successor(files, chain[k]);
    OnlySuccessor(files, chain[k], s.value, g);
  }

  lemma OnlySuccessor(files: seq<File>, f: File, s: File, g: File)
    requires LinearHistory(files) && s in files && g in files
    requires s.previousVersion == Some(f.id) && g.previousVersion == Some(f.id)
    ensures s == g
  {
    var i :| 0 <= i < |files| && files[i] == s;
    var j :| 0 <= j < |files| && files[j] == g;
  }

  /**
   * With a branch in the history the requested file can be missing from its own list:
   * versions 2 and 3 both follow version 1, and the list for version 3 is versions 1 and 2.
   */
  lemma BranchedHistoryOmitsRequest()
    ensures var v1 := File(1, 7, None, false, None);
      var v2 := File(2, 7, None, true, Some(1));
      var v3 := File(3, 7, None, true, Some(1));
      var files := [v1, v2, v3];
      && WellFormedTable(files)
      && Ancestor(files, v3, 1) == Some(v1)
      && IsVersionChain(files, [v1, v2])
      && v3 !in [v1, v2]
  {
    var v1 := File(1, 7, None, false, None);
    var v2 := File(2, 7, None, true, Some(1));
    var v3 := File(3, 7, None, true, Some(1));
    var files := [v1, v2, v3];
    assert Predecessor(files, v3) == Some(v1);
    assert Successor(files, v1) == Some(v2);
    assert Successor(files, v2).None?;
  }
}
