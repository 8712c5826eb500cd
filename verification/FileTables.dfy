/**
  Opening and closing files and directories (modules/fs/fdtable.c, fs_posix.c, fs.c and littlefs_fs.c): the
  file-descriptor table, the POSIX descriptors and the LittleFS pools are taken in turn and given back
  together. An API call is one atomic step; what LittleFS itself answers is a parameter.
*/
module FileTables {

  const ENOMEM: int := 12
  const EBADF: int := 9
  const ENFILE: int := 23
  const EMFILE: int := 24
  const NULL: int := -1

  /** struct fd_entry; `obj` is the index of a descriptor or NULL. */
  datatype FdEntry = FdEntry(used: bool, obj: int, vtable: bool)

  const FREE_FD: FdEntry := FdEntry(false, NULL, false)

  /** struct posix_fs_desc; `handle` is filep or dirp, the index of a pool entry or NULL. */
  datatype Desc = Desc(used: bool, isDir: bool, mounted: bool, handle: int)

  /** The contents of all tables. */
  datatype Tables = Tables(fds: seq<FdEntry>, descs: seq<Desc>, files: seq<bool>, dirs: seq<bool>)

  // ----- What keeps the tables together -----

  /** Which descriptor each used fd points at. */
  ghost function FdMap(t: Tables): map<int, int> {
    map f | 0 <= f < |t.fds| && t.fds[f].used :: t.fds[f].obj
  }

  /** Which pool entry each open descriptor of a kind holds. */
  ghost function HandleMap(t: Tables, isDir: bool): map<int, int> {
    map d | 0 <= d < |t.descs| && t.descs[d].used && t.descs[d].isDir == isDir :: t.descs[d].handle
  }

  /** The entries of a pool that are in use. */
  ghost function Used(pool: seq<bool>): set<int> {
    set p | 0 <= p < |pool| && pool[p]
  }

  ghost function Image(m: map<int, int>): set<int> {
    set x | x in m :: m[x]
  }

  ghost predicate OneToOne(m: map<int, int>, s: set<int>) {
    (forall x, y :: x in m && y in m && m[x] == m[y] ==> x == y) && Image(m) == s
  }

  /** Used fds are finalised, open descriptors are mounted, and free fds are wiped. */
  ghost predicate Tidy(t: Tables) {
    && (forall f :: 0 <= f < |t.fds| ==> if t.fds[f].used then t.fds[f].vtable else t.fds[f] == FREE_FD)
    && (forall d :: 0 <= d < |t.descs| && t.descs[d].used ==> t.descs[d].mounted)
  }

  /**
    The used fds, the open files and the used entries of the file pool are in one-to-one correspondence
    through obj and filep; so are the open directories and the used entries of the directory pool.
  */
  ghost predicate Corresponds(t: Tables) {
    && Tidy(t) && OneToOne(FdMap(t), HandleMap(t, false).Keys)
    && OneToOne(HandleMap(t, false), Used(t.files)) && OneToOne(HandleMap(t, true), Used(t.dirs))
  }

  /** Nothing is open, nothing is taken. */
  ghost predicate Empty(t: Tables) {
    && (forall f :: 0 <= f < |t.fds| ==> t.fds[f] == FREE_FD) && (forall d :: 0 <= d < |t.descs| ==> !t.descs[d].used)
    && (forall p :: 0 <= p < |t.files| ==> !t.files[p]) && (forall p :: 0 <= p < |t.dirs| ==> !t.dirs[p])
  }

  lemma EmptyCorresponds(t: Tables)
    requires Empty(t)
    ensures Corresponds(t)
  {
    assert FdMap(t) == map[] && HandleMap(t, false) == map[] && HandleMap(t, true) == map[];
    assert Used(t.files) == {} && Used(t.dirs) == {};
  }

  lemma AddPair(m: map<int, int>, s: set<int>, x: int, y: int)
    requires OneToOne(m, s) && x !in m && y !in s
    ensures OneToOne(m[x := y], s + {y})
  {
    var n := m[x := y];
    assert forall z :: z in m ==> n[z] == m[z] && m[z] in Image(m);
    assert Image(n) == Image(m) + {y} by {
      assert n[x] == y;
    }
  }

  lemma RemovePair(m: map<int, int>, s: set<int>, x: int)
    requires OneToOne(m, s) && x in m
    ensures m[x] in s && OneToOne(m - {x}, s - {m[x]})
  {
    var n := m - {x};
    assert forall z :: z in n ==> n[z] == m[z];
    assert Image(n) == Image(m) - {m[x]} by {
      forall v | v in Image(m) && v != m[x]
        ensures v in Image(n)
      {
        var z :| z in m && m[z] == v;
        assert z in n;
      }
    }
  }

  // ----- What the calls do -----

  /** Nothing that is in use has changed, and nothing else has come into use. */
  ghost predicate Untouched(t: Tables, t': Tables) {
    && t'.fds == t.fds && t'.files == t.files && t'.dirs == t.dirs && |t'.descs| == |t.descs|
    && forall d :: 0 <= d < |t.descs| ==>
         t'.descs[d].used == t.descs[d].used && (t.descs[d].used ==> t'.descs[d] == t.descs[d])
  }

  function FdFlags(t: Tables): (r: seq<bool>)
    ensures |r| == |t.fds| && forall i :: 0 <= i < |r| ==> r[i] == t.fds[i].used
  {
    seq(|t.fds|, i requires 0 <= i < |t.fds| => t.fds[i].used)
  }

  function DescFlags(t: Tables): (r: seq<bool>)
    ensures |r| == |t.descs| && forall i :: 0 <= i < |r| ==> r[i] == t.descs[i].used
  {
    seq(|t.descs|, i requires 0 <= i < |t.descs| => t.descs[i].used)
  }

  /** r is the lowest free index, or NULL when every entry is used. */
  ghost predicate LowestFree(used: seq<bool>, r: int) {
    if r == NULL then forall i :: 0 <= i < |used| ==> used[i]
    else 0 <= r < |used| && !used[r] && forall i :: 0 <= i < r ==> used[i]
  }

  ghost function Lowest(used: seq<bool>): (r: int)
    ensures LowestFree(used, r)
  {
    if used == [] then NULL
    else if !used[0] then 0
    else
      var r := Lowest(used[1..]);
      assert forall i :: 1 <= i < |used| ==> used[i] == used[1..][i - 1];
      if r == NULL then NULL else r + 1
  }

  lemma LowestIsUnique(used: seq<bool>, r: int)
    requires LowestFree(used, r)
    ensures r == Lowest(used)
  {
  }

  /** A call of open: precheck is what the checks before LittleFS say, backend what LittleFS answers. */
  ghost predicate OpenStep(t: Tables, t': Tables, precheck: int, backend: int, fd: int, errno: int) {
    var f, d, p := Lowest(FdFlags(t)), Lowest(DescFlags(t)), Lowest(t.files);
    if f == NULL then fd == -1 && errno == ENFILE && Untouched(t, t')
    else if d == NULL then fd == -1 && errno == EMFILE && Untouched(t, t')
    else if precheck < 0 then fd == -1 && errno == -precheck && Untouched(t, t')
    else if p == NULL then fd == -1 && errno == ENOMEM && Untouched(t, t')
    else if backend < 0 then fd == -1 && errno == -backend && Untouched(t, t')
    else
      && fd == f
      && t' == t.(fds := t.fds[f := FdEntry(true, d, true)], descs := t.descs[d := Desc(true, false, true, p)],
                  files := t.files[p := true])
  }

  /** A call of close on any number; backend is what LittleFS answers. */
  ghost predicate CloseStep(t: Tables, t': Tables, fd: int, backend: int, rc: int) {
    if fd !in FdMap(t) then t' == t && rc == -1
    else
      var d := FdMap(t)[fd];
      d in HandleMap(t, false) ==>
      var p := HandleMap(t, false)[d];
      && rc == backend && |t'.descs| == |t.descs|
      && t'.fds == t.fds[fd := FREE_FD] && 0 <= p < |t.files| && t'.files == t.files[p := false] && t'.dirs == t.dirs
      && !t'.descs[d].used && forall e :: 0 <= e < |t.descs| && e != d ==> t'.descs[e] == t.descs[e]
  }

  // ----- The calls keep the correspondence -----

  lemma UntouchedKeeps(t: Tables, t': Tables)
    requires Corresponds(t) && Untouched(t, t')
    ensures Corresponds(t')
  {
    assert FdMap(t') == FdMap(t);
    assert HandleMap(t', false) == HandleMap(t, false) && HandleMap(t', true) == HandleMap(t, true);
  }

  /** Every call of open keeps the correspondence; a failed one takes nothing, a successful one the lowest free fd. */
  lemma OpenKeeps(t: Tables, t': Tables, precheck: int, backend: int, fd: int, errno: int)
    requires Corresponds(t) && OpenStep(t, t', precheck, backend, fd, errno)
    ensures Corresponds(t')
    ensures fd == -1 ==> Untouched(t, t')
    ensures fd != -1 ==> LowestFree(FdFlags(t), fd) && FdMap(t').Keys == FdMap(t).Keys + {fd}
  {
    hide Corresponds, Lowest;
    if fd == -1 {
      UntouchedKeeps(t, t');
    } else {
      OpenedKeeps(t, t', fd, Lowest(DescFlags(t)), Lowest(t.files));
    }
  }

  lemma OpenedKeeps(t: Tables, t': Tables, f: int, d: int, p: int)
    requires Corresponds(t) && 0 <= f < |t.fds| && !t.fds[f].used && 0 <= d < |t.descs| && !t.descs[d].used
    requires 0 <= p < |t.files| && !t.files[p]
    requires t' == t.(fds := t.fds[f := FdEntry(true, d, true)], descs := t.descs[d := Desc(true, false, true, p)],
                      files := t.files[p := true])
    ensures Corresponds(t') && FdMap(t').Keys == FdMap(t).Keys + {f}
  {
    hide OneToOne, FdMap, HandleMap, Used;
    OpenedMaps(t, t', f, d, p);
    AddPair(FdMap(t), HandleMap(t, false).Keys, f, d);
    AddPair(HandleMap(t, false), Used(t.files), d, p);
    assert HandleMap(t', false).Keys == HandleMap(t, false).Keys + {d};
  }

  lemma OpenedMaps(t: Tables, t': Tables, f: int, d: int, p: int)
    requires 0 <= f < |t.fds| && !t.fds[f].used && 0 <= d < |t.descs| && !t.descs[d].used
    requires 0 <= p < |t.files| && !t.files[p]
    requires t' == t.(fds := t.fds[f := FdEntry(true, d, true)], descs := t.descs[d := Desc(true, false, true, p)],
                      files := t.files[p := true])
    ensures f !in FdMap(t) && FdMap(t') == FdMap(t)[f := d]
    ensures d !in HandleMap(t, false) && HandleMap(t', false) == HandleMap(t, false)[d := p]
    ensures HandleMap(t', true) == HandleMap(t, true)
    ensures p !in Used(t.files) && Used(t'.files) == Used(t.files) + {p}
  {
  }

  /** Every call of close keeps the correspondence, and whatever LittleFS answers, nothing leaks. */
  lemma CloseKeeps(t: Tables, t': Tables, fd: int, backend: int, rc: int)
    requires Corresponds(t) && CloseStep(t, t', fd, backend, rc)
    ensures Corresponds(t') && FdMap(t').Keys == FdMap(t).Keys - {fd}
  {
    if fd in FdMap(t) {
      var d := FdMap(t)[fd];
      ClosedKeeps(t, t', fd, d);
    }
  }

  lemma ClosedKeeps(t: Tables, t': Tables, fd: int, d: int)
    requires Corresponds(t) && fd in FdMap(t) && d == FdMap(t)[fd] && d in HandleMap(t, false)
    requires |t'.descs| == |t.descs| && !t'.descs[d].used && t'.fds == t.fds[fd := FREE_FD] && t'.dirs == t.dirs
    requires forall e :: 0 <= e < |t.descs| && e != d ==> t'.descs[e] == t.descs[e]
    requires 0 <= t.descs[d].handle < |t.files| && t'.files == t.files[t.descs[d].handle := false]
    ensures Corresponds(t') && FdMap(t').Keys == FdMap(t).Keys - {fd}
  {
    hide OneToOne;
    RemovePair(FdMap(t), HandleMap(t, false).Keys, fd);
    RemovePair(HandleMap(t, false), Used(t.files), d);
    assert FdMap(t') == FdMap(t) - {fd};
    assert HandleMap(t', false) == HandleMap(t, false) - {d} && HandleMap(t', true) == HandleMap(t, true);
    assert Used(t'.files) == Used(t.files) - {HandleMap(t, false)[d]};
    assert HandleMap(t', false).Keys == HandleMap(t, false).Keys - {d};
  }

  // ----- Directories -----

  /** A call of opendir; stream is the descriptor that it returns. */
  ghost predicate OpenDirStep(t: Tables, t': Tables, precheck: int, backend: int, stream: int, errno: int) {
    var d, p := Lowest(DescFlags(t)), Lowest(t.dirs);
    if d == NULL then stream == NULL && errno == EMFILE && Untouched(t, t')
    else if precheck < 0 then stream == NULL && errno == -precheck && Untouched(t, t')
    else if p == NULL then stream == NULL && errno == ENOMEM && Untouched(t, t')
    else if backend < 0 then stream == NULL && errno == -backend && Untouched(t, t')
    else stream == d && t' == t.(descs := t.descs[d := Desc(true, true, true, p)], dirs := t.dirs[p := true])
  }

  /** A stream that was closed without an error and whose descriptor is still free. */
  ghost predicate IsClosed(t: Tables, stream: int) {
    0 <= stream < |t.descs| && !t.descs[stream].used && !t.descs[stream].mounted
  }

  /** A stream whose close failed: its descriptor is free and still refers to the directory entry given back. */
  ghost predicate IsStale(t: Tables, stream: int) {
    && 0 <= stream < |t.descs| && !t.descs[stream].used && t.descs[stream].mounted && t.descs[stream].isDir
    && 0 <= t.descs[stream].handle < |t.dirs|
  }

  /** What closing leaves in the descriptor: nothing, or everything when LittleFS fails. */
  function ClosedDesc(d: Desc, backend: int): Desc {
    if backend < 0 then d.(used := false) else d.(used := false, mounted := false, handle := NULL)
  }

  /** A call of closedir on NULL, on an open stream, or on one that was closed with or without an error. */
  ghost predicate CloseDirStep(t: Tables, t': Tables, stream: int, backend: int, errno: int) {
    if stream == NULL then t' == t && errno == EBADF
    else if IsClosed(t, stream) then Untouched(t, t') && errno == 0
    else
      && (stream in HandleMap(t, true) || IsStale(t, stream))
      && var d := t.descs[stream];
      && errno == (if backend < 0 then -backend else 0) && 0 <= d.handle < |t.dirs|
      && t' == t.(descs := t.descs[stream := ClosedDesc(d, backend)], dirs := t.dirs[d.handle := false])
  }

  /** A second close that gives back the directory entry of another stream. */
  ghost predicate TakesAnothers(t: Tables, stream: int) {
    IsStale(t, stream) && t.dirs[t.descs[stream].handle]
  }

  lemma OpenDirKeeps(t: Tables, t': Tables, precheck: int, backend: int, stream: int, errno: int)
    requires Corresponds(t) && OpenDirStep(t, t', precheck, backend, stream, errno)
    ensures Corresponds(t') && (stream == NULL ==> Untouched(t, t'))
  {
    hide Corresponds, Lowest;
    if stream == NULL {
      UntouchedKeeps(t, t');
    } else {
      DirOpenedKeeps(t, t', stream, Lowest(t.dirs));
    }
  }

  lemma DirOpenedKeeps(t: Tables, t': Tables, d: int, p: int)
    requires Corresponds(t) && 0 <= d < |t.descs| && !t.descs[d].used && 0 <= p < |t.dirs| && !t.dirs[p]
    requires t' == t.(descs := t.descs[d := Desc(true, true, true, p)], dirs := t.dirs[p := true])
    ensures Corresponds(t')
  {
    hide OneToOne;
    assert HandleMap(t', true) == HandleMap(t, true)[d := p] && HandleMap(t', false) == HandleMap(t, false);
    assert Used(t'.dirs) == Used(t.dirs) + {p} && FdMap(t') == FdMap(t);
    AddPair(HandleMap(t, true), Used(t.dirs), d, p);
  }

  /** A call of closedir keeps the correspondence exactly when it does not give back another stream's entry. */
  lemma CloseDirKeeps(t: Tables, t': Tables, stream: int, backend: int, errno: int)
    requires Corresponds(t) && CloseDirStep(t, t', stream, backend, errno)
    ensures Corresponds(t') <==> !TakesAnothers(t, stream)
  {
    hide Corresponds;
    if stream != NULL && !IsClosed(t, stream) {
      if IsStale(t, stream) {
        StaleClosed(t, t', stream, backend);
      } else {
        StreamClosed(t, t', stream, backend);
      }
    } else if stream != NULL {
      UntouchedKeeps(t, t');
    }
  }

  lemma StreamClosed(t: Tables, t': Tables, stream: int, backend: int)
    requires Corresponds(t) && stream in HandleMap(t, true) && 0 <= t.descs[stream].handle < |t.dirs|
    requires var d := t.descs[stream];
      t' == t.(descs := t.descs[stream := ClosedDesc(d, backend)], dirs := t.dirs[d.handle := false])
    ensures Corresponds(t')
  {
    hide OneToOne;
    RemovePair(HandleMap(t, true), Used(t.dirs), stream);
    assert HandleMap(t', true) == HandleMap(t, true) - {stream} && HandleMap(t', false) == HandleMap(t, false);
    assert Used(t'.dirs) == Used(t.dirs) - {HandleMap(t, true)[stream]} && FdMap(t') == FdMap(t);
  }

  lemma StaleClosed(t: Tables, t': Tables, stream: int, backend: int)
    requires Corresponds(t) && IsStale(t, stream)
    requires var d := t.descs[stream];
      t' == t.(descs := t.descs[stream := ClosedDesc(d, backend)], dirs := t.dirs[d.handle := false])
    ensures Corresponds(t') <==> !t.dirs[t.descs[stream].handle]
  {
    hide OneToOne;
    var p := t.descs[stream].handle;
    assert HandleMap(t', true) == HandleMap(t, true) && HandleMap(t', false) == HandleMap(t, false);
    assert FdMap(t') == FdMap(t);
    if t.dirs[p] {
      assert p in Used(t.dirs) && p !in Used(t'.dirs);
      OnlyOneImage(HandleMap(t, true), Used(t.dirs), Used(t'.dirs), p);
    } else {
      assert t'.dirs == t.dirs;
    }
  }

  lemma OnlyOneImage(m: map<int, int>, s: set<int>, u: set<int>, p: int)
    requires OneToOne(m, s) && p in s && p !in u
    ensures !OneToOne(m, u)
  {
  }

  // ----- What the callers see -----

  /** The entry is free and all before it are used. */
  ghost predicate FirstFree(used: seq<bool>, i: int) {
    0 <= i < |used| && !used[i] && forall j :: 0 <= j < i ==> used[j]
  }

  ghost predicate AllUsed(used: seq<bool>) {
    forall i :: 0 <= i < |used| ==> used[i]
  }

  /**
    The outcomes of open, in the order of their causes: 23 (ENFILE) without a free fd, 24 (EMFILE) without a free
    descriptor, the error of the checks, 12 (ENOMEM) without a free pool entry, LittleFS's error; and otherwise the
    lowest free fd, which leads to the lowest free descriptor, and that to the lowest free pool entry.
  */
  lemma OpenOutcome(t: Tables, t': Tables, precheck: int, backend: int, fd: int, errno: int)
    requires OpenStep(t, t', precheck, backend, fd, errno)
    ensures var noFd, noDesc, noFile := AllUsed(FdFlags(t)), AllUsed(DescFlags(t)), AllUsed(t.files);
      if noFd || noDesc || precheck < 0 || noFile || backend < 0 then
        && fd == -1 && Untouched(t, t')
        && errno == (if noFd then 23 else if noDesc then 24 else if precheck < 0 then -precheck
                     else if noFile then 12 else -backend)
      else
        && FirstFree(FdFlags(t), fd) && fd < |t'.fds| && t'.fds[fd].used
        && var d := t'.fds[fd].obj;
        && FirstFree(DescFlags(t), d) && d < |t'.descs| && t'.descs[d].used && !t'.descs[d].isDir
        && FirstFree(t.files, t'.descs[d].handle) && t'.files == t.files[t'.descs[d].handle := true]
  {
    hide Lowest;
  }

  /** The outcomes of opendir: 24, the error of the checks, 12, LittleFS's error, or the lowest free descriptor. */
  lemma OpenDirOutcome(t: Tables, t': Tables, precheck: int, backend: int, stream: int, errno: int)
    requires OpenDirStep(t, t', precheck, backend, stream, errno)
    ensures var noDesc, noDir := AllUsed(DescFlags(t)), AllUsed(t.dirs);
      if noDesc || precheck < 0 || noDir || backend < 0 then
        && stream == -1 && Untouched(t, t')
        && errno == (if noDesc then 24 else if precheck < 0 then -precheck else if noDir then 12 else -backend)
      else
        && FirstFree(DescFlags(t), stream) && stream < |t'.descs| && t'.descs[stream].used && t'.descs[stream].isDir
        && FirstFree(t.dirs, t'.descs[stream].handle) && t'.dirs == t.dirs[t'.descs[stream].handle := true]
        && t'.fds == t.fds && t'.files == t.files
  {
    hide Lowest;
  }

  /** The outcomes of close: -1 and no change for a number that is no used fd, and otherwise LittleFS's answer. */
  lemma CloseOutcome(t: Tables, t': Tables, fd: int, backend: int, rc: int)
    requires Corresponds(t) && CloseStep(t, t', fd, backend, rc)
    ensures if 0 <= fd < |t.fds| && t.fds[fd].used then
              && rc == backend && |t'.fds| == |t.fds| && !t'.fds[fd].used
              && (forall f :: 0 <= f < |t.fds| && f != fd ==> t'.fds[f] == t.fds[f])
              && 0 <= t.fds[fd].obj < |t.descs| && 0 <= t.descs[t.fds[fd].obj].handle < |t.files|
              && t'.files == t.files[t.descs[t.fds[fd].obj].handle := false]
              && |t'.descs| == |t.descs| && !t'.descs[t.fds[fd].obj].used
            else rc == -1 && t' == t
  {
    if 0 <= fd < |t.fds| && t.fds[fd].used {
      OpenFacts(t, fd);
      assert FdMap(t)[fd] == t.fds[fd].obj;
    }
  }

  // ----- Runs -----

  datatype Call =
    | Open(precheck: int, backend: int, fd: int, errno: int)
    | Close(fd: int, backend: int, rc: int)
    | OpenDir(precheck: int, backend: int, stream: int, errno: int)
    | CloseDir(stream: int, backend: int, errno: int)

  ghost predicate Step(t: Tables, c: Call, t': Tables) {
    match c
    case Open(precheck, backend, fd, errno) => OpenStep(t, t', precheck, backend, fd, errno)
    case Close(fd, backend, rc) => CloseStep(t, t', fd, backend, rc)
    case OpenDir(precheck, backend, stream, errno) => OpenDirStep(t, t', precheck, backend, stream, errno)
    case CloseDir(stream, backend, errno) => CloseDirStep(t, t', stream, backend, errno)
  }

  ghost predicate FreesAnothers(t: Tables, c: Call) {
    c.CloseDir? && c.stream != NULL && TakesAnothers(t, c.stream)
  }

  lemma StepKeeps(t: Tables, c: Call, t': Tables)
    requires Corresponds(t) && Step(t, c, t')
    ensures Corresponds(t') <==> !FreesAnothers(t, c)
  {
    hide Corresponds, OpenStep, OpenDirStep, CloseStep, CloseDirStep;
    match c
    case Open(precheck, backend, fd, errno) => OpenKeeps(t, t', precheck, backend, fd, errno);
    case Close(fd, backend, rc) => CloseKeeps(t, t', fd, backend, rc);
    case OpenDir(precheck, backend, stream, errno) => OpenDirKeeps(t, t', precheck, backend, stream, errno);
    case CloseDir(stream, backend, errno) => CloseDirKeeps(t, t', stream, backend, errno);
  }

  /** A run from empty tables: states with a call between each two. */
  ghost predicate IsRun(states: seq<Tables>, calls: seq<Call>) {
    && |states| == |calls| + 1 && Empty(states[0]) && (forall d <- states[0].descs :: !d.mounted)
    && forall i :: 0 <= i < |calls| ==> Step(states[i], calls[i], states[i + 1])
  }

  /**
    In every state that open, close, opendir and closedir can reach, failing calls included, the tables
    correspond, as long as no closedir is repeated after it failed and its entry was taken by another stream.
  */
  lemma {:induction false} EveryRunCorresponds(states: seq<Tables>, calls: seq<Call>, i: nat)
    requires IsRun(states, calls) && i < |states|
    requires forall j :: 0 <= j < i ==> !FreesAnothers(states[j], calls[j])
    ensures Corresponds(states[i])
  {
    hide Corresponds, Step, Empty, FreesAnothers;
    if i == 0 {
      EmptyCorresponds(states[0]);
    } else {
      EveryRunCorresponds(states, calls, i - 1);
      StepKeeps(states[i - 1], calls[i - 1], states[i]);
    }
  }

  /** And exactly as long: over every run, the tables correspond throughout if and only if no such call is made. */
  lemma CorrespondsIffNoneFreed(states: seq<Tables>, calls: seq<Call>)
    requires IsRun(states, calls)
    ensures (forall i :: 0 <= i < |states| ==> Corresponds(states[i]))
      <==> (forall i :: 0 <= i < |calls| ==> !FreesAnothers(states[i], calls[i]))
  {
    hide Corresponds, Step, Empty, FreesAnothers;
    if forall i :: 0 <= i < |calls| ==> !FreesAnothers(states[i], calls[i]) {
      forall i | 0 <= i < |states|
        ensures Corresponds(states[i])
      {
        EveryRunCorresponds(states, calls, i);
      }
    } else {
      var i :| 0 <= i < |calls| && FreesAnothers(states[i], calls[i]);
      if Corresponds(states[i]) {
        StepKeeps(states[i], calls[i], states[i + 1]);
      }
    }
  }

  /**
    It happens: with a file open in front of it, a directory is opened and its close fails; the file is closed,
    and the next directory takes the lower descriptor and the same directory entry. Closing the first one again
    gives that entry back, although the second stream is open.
  */
  lemma RetriedCloseBreaks() returns (states: seq<Tables>, calls: seq<Call>)
    ensures IsRun(states, calls) && |calls| > 0 && FreesAnothers(states[|calls| - 1], calls[|calls| - 1])
    ensures !Corresponds(states[|calls|])
  {
    hide Step, Corresponds, FreesAnothers;
    states := [AllFree(), FileOpen(), BothOpen(), CloseFailed(), FileClosed(), Reopened(), Broken()];
    calls := [Open(0, 0, 0, 0), OpenDir(0, 0, 1, 0), CloseDir(1, -5, 5), Close(0, 0, 0), OpenDir(0, 0, 0, 0),
              CloseDir(1, 0, 0)];
    OpensStep();
    FailsStep();
    ClosesStep();
    ReopensStep();
    RetriesStep();
    assert IsRun(states, calls);
    AllRight(states, calls, 5);
    StepKeeps(states[5], calls[5], states[6]);
  }

  const CLEAN := Desc(false, false, false, NULL)
  const OPEN_FILE := Desc(true, false, true, 0)
  const OPEN_DIR := Desc(true, true, true, 0)
  const STALE := Desc(false, true, true, 0)

  function AllFree(): Tables {
    Tables([FREE_FD], [CLEAN, CLEAN], [false], [false])
  }

  function FileOpen(): Tables {
    Tables([FdEntry(true, 0, true)], [OPEN_FILE, CLEAN], [true], [false])
  }

  function BothOpen(): Tables {
    Tables([FdEntry(true, 0, true)], [OPEN_FILE, OPEN_DIR], [true], [true])
  }

  function CloseFailed(): Tables {
    Tables([FdEntry(true, 0, true)], [OPEN_FILE, STALE], [true], [false])
  }

  function FileClosed(): Tables {
    Tables([FREE_FD], [CLEAN, STALE], [false], [false])
  }

  function Reopened(): Tables {
    Tables([FREE_FD], [OPEN_DIR, STALE], [false], [true])
  }

  function Broken(): Tables {
    Tables([FREE_FD], [OPEN_DIR, CLEAN.(isDir := true)], [false], [false])
  }

  lemma OpensStep()
    ensures Step(AllFree(), Open(0, 0, 0, 0), FileOpen()) && Step(FileOpen(), OpenDir(0, 0, 1, 0), BothOpen())
  {
    hide Lowest;
    LowestIsUnique(FdFlags(AllFree()), 0);
    LowestIsUnique(DescFlags(AllFree()), 0);
    LowestIsUnique(AllFree().files, 0);
    LowestIsUnique(DescFlags(FileOpen()), 1);
    LowestIsUnique(FileOpen().dirs, 0);
  }

  lemma FailsStep()
    ensures Step(BothOpen(), CloseDir(1, -5, 5), CloseFailed())
  {
    assert HandleMap(BothOpen(), true)[1] == 0;
  }

  lemma ClosesStep()
    ensures Step(CloseFailed(), Close(0, 0, 0), FileClosed())
  {
    assert FdMap(CloseFailed())[0] == 0 && HandleMap(CloseFailed(), false)[0] == 0;
  }

  lemma ReopensStep()
    ensures Step(FileClosed(), OpenDir(0, 0, 0, 0), Reopened())
  {
    hide Lowest;
    LowestIsUnique(DescFlags(FileClosed()), 0);
    LowestIsUnique(FileClosed().dirs, 0);
  }

  lemma RetriesStep()
    ensures Step(Reopened(), CloseDir(1, 0, 0), Broken()) && FreesAnothers(Reopened(), CloseDir(1, 0, 0))
  {
  }

  lemma AllRight(states: seq<Tables>, calls: seq<Call>, n: nat)
    requires IsRun(states, calls) && n < |calls|
    requires forall j :: 0 <= j < n ==> calls[j].CloseDir? ==> !IsStale(states[j], calls[j].stream)
    ensures Corresponds(states[n])
  {
    hide Step, Corresponds;
    EveryRunCorresponds(states, calls, n);
  }

  ghost function KeysBelow(m: map<int, int>, n: nat): set<int> {
    set x | 0 <= x < n && x in m
  }

  ghost function ImageBelow(m: map<int, int>, n: nat): set<int> {
    set x | 0 <= x < n && x in m :: m[x]
  }

  lemma {:induction false} SameSizeBelow(m: map<int, int>, s: set<int>, n: nat)
    requires OneToOne(m, s)
    ensures |KeysBelow(m, n)| == |ImageBelow(m, n)|
  {
    hide KeysBelow, ImageBelow, OneToOne;
    if n == 0 {
      NoneBelow(m);
    } else {
      SameSizeBelow(m, s, n - 1);
      KeysBelowNext(m, n);
      ImageBelowNext(m, n);
      NewImage(m, s, n);
    }
  }

  lemma NoneBelow(m: map<int, int>)
    ensures KeysBelow(m, 0) == {} && ImageBelow(m, 0) == {}
  {
  }

  lemma NewImage(m: map<int, int>, s: set<int>, n: nat)
    requires OneToOne(m, s) && n > 0
    ensures n - 1 !in KeysBelow(m, n - 1) && (n - 1 in m ==> m[n - 1] !in ImageBelow(m, n - 1))
  {
  }

  lemma KeysBelowNext(m: map<int, int>, n: nat)
    requires n > 0
    ensures KeysBelow(m, n) == KeysBelow(m, n - 1) + (if n - 1 in m then {n - 1} else {})
  {
  }

  lemma ImageBelowNext(m: map<int, int>, n: nat)
    requires n > 0
    ensures ImageBelow(m, n) == ImageBelow(m, n - 1) + (if n - 1 in m then {m[n - 1]} else {})
  {
  }

  /** There are as many fds in use as open files and as used pool entries: no entry can leak. */
  lemma NothingLeaks(t: Tables)
    requires Corresponds(t)
    ensures |FdMap(t).Keys| == |HandleMap(t, false).Keys| == |Used(t.files)|
    ensures |HandleMap(t, true).Keys| == |Used(t.dirs)|
    ensures FdMap(t) == map[] && HandleMap(t, true) == map[] ==> Empty(t)
  {
    var f, h, g := FdMap(t), HandleMap(t, false), HandleMap(t, true);
    SameSizeBelow(f, h.Keys, |t.fds|);
    SameSizeBelow(h, Used(t.files), |t.descs|);
    SameSizeBelow(g, Used(t.dirs), |t.descs|);
    assert f.Keys == KeysBelow(f, |t.fds|) && Image(f) == ImageBelow(f, |t.fds|);
    assert h.Keys == KeysBelow(h, |t.descs|) && Image(h) == ImageBelow(h, |t.descs|);
    assert g.Keys == KeysBelow(g, |t.descs|) && Image(g) == ImageBelow(g, |t.descs|);
    if FdMap(t) == map[] && HandleMap(t, true) == map[] {
      EmptyMaps(t);
    }
  }

  lemma EmptyMaps(t: Tables)
    requires Corresponds(t) && FdMap(t) == map[] && HandleMap(t, true) == map[]
    ensures Empty(t)
  {
    assert HandleMap(t, false).Keys == Image(FdMap(t)) == {};
    assert HandleMap(t, false) == map[];
    forall f | 0 <= f < |t.fds|
      ensures t.fds[f] == FREE_FD
    {
      assert t.fds[f].used <==> f in FdMap(t);
    }
    forall d | 0 <= d < |t.descs|
      ensures !t.descs[d].used
    {
      var e := t.descs[d];
      assert d in HandleMap(t, true) <==> e.used && e.isDir;
      assert d in HandleMap(t, false) <==> e.used && !e.isDir;
    }
    assert Used(t.files) == {} == Used(t.dirs);
    forall p | 0 <= p < |t.files|
      ensures !t.files[p]
    {
      assert t.files[p] <==> p in Used(t.files);
    }
    forall p | 0 <= p < |t.dirs|
      ensures !t.dirs[p]
    {
      assert t.dirs[p] <==> p in Used(t.dirs);
    }
  }

  // ----- The tables in memory -----

  lemma WipedFd(t: Tables, f: int)
    requires Corresponds(t) && 0 <= f < |t.fds| && !t.fds[f].used
    ensures t.fds[f] == FREE_FD
  {
  }

  lemma OpenFacts(t: Tables, fd: int)
    requires Corresponds(t) && 0 <= fd < |t.fds| && t.fds[fd].used
    ensures fd in FdMap(t) && t.fds[fd].obj in HandleMap(t, false)
    ensures 0 <= t.descs[t.fds[fd].obj].handle < |t.files| && t.descs[t.fds[fd].obj].mounted && t.fds[fd].vtable
  {
    var d := t.fds[fd].obj;
    assert d in Image(FdMap(t)) by { assert FdMap(t)[fd] == d; }
    assert t.descs[d].handle in Image(HandleMap(t, false)) by { assert HandleMap(t, false)[d] == t.descs[d].handle; }
  }

  lemma DirFacts(t: Tables, stream: int)
    requires Corresponds(t) && stream in HandleMap(t, true)
    ensures 0 <= t.descs[stream].handle < |t.dirs|
  {
    assert HandleMap(t, true)[stream] in Image(HandleMap(t, true));
  }

  class FileStack {
    const fds: array<FdEntry>
    const descs: array<Desc>
    const files: array<bool>
    const dirs: array<bool>

    ghost function T(): Tables
      reads fds, descs, files, dirs
    {
      Tables(fds[..], descs[..], files[..], dirs[..])
    }

    ghost predicate Valid()
      reads fds, descs, files, dirs
    {
      files != dirs && Corresponds(T())
    }

    constructor (maxFds: nat, maxOpenFiles: nat, numFiles: nat, numDirs: nat)
      ensures Valid() && Empty(T()) && fresh(fds) && fresh(descs) && fresh(files) && fresh(dirs)
      ensures fds.Length == maxFds && descs.Length == maxOpenFiles && files.Length == numFiles && dirs.Length == numDirs
    {
      fds := new FdEntry[maxFds](_ => FREE_FD);
      descs := new Desc[maxOpenFiles](_ => Desc(false, false, false, NULL));
      files := new bool[numFiles](_ => false);
      dirs := new bool[numDirs](_ => false);
      new;
      EmptyCorresponds(T());
    }

    /** _find_fd_entry and z_reserve_fd. */
    method ReserveFd() returns (fd: int)
      modifies fds
      ensures fd == Lowest(old(FdFlags(T())))
      ensures fds[..] == if fd == NULL then old(fds[..]) else old(fds[..])[fd := FdEntry(true, NULL, false)]
    {
      hide Lowest;
      fd := 0;
      while fd < fds.Length
        invariant 0 <= fd <= fds.Length && forall i :: 0 <= i < fd ==> fds[i].used
        invariant fds[..] == old(fds[..])
      {
        if !fds[fd].used {
          LowestIsUnique(FdFlags(T()), fd);
          fds[fd] := FdEntry(true, NULL, false);
          return;
        }
        fd := fd + 1;
      }
      fd := NULL;
      LowestIsUnique(FdFlags(T()), fd);
    }

    /** posix_fs_alloc_obj. */
    method AllocDesc(isDir: bool) returns (d: int)
      modifies descs
      ensures d == Lowest(old(DescFlags(T())))
      ensures descs[..] == if d == NULL then old(descs[..])
                           else old(descs[..])[d := old(descs[..])[d].(used := true, isDir := isDir)]
    {
      hide Lowest;
      d := 0;
      while d < descs.Length
        invariant 0 <= d <= descs.Length && forall i :: 0 <= i < d ==> descs[i].used
        invariant descs[..] == old(descs[..])
      {
        if !descs[d].used {
          LowestIsUnique(DescFlags(T()), d);
          descs[d] := descs[d].(used := true, isDir := isDir);
          return;
        }
        d := d + 1;
      }
      d := NULL;
      LowestIsUnique(DescFlags(T()), d);
    }

    /** alloc_lfs_file_data and alloc_lfs_dir_data. */
    method AllocPool(pool: array<bool>) returns (p: int)
      modifies pool
      ensures p == Lowest(old(pool[..]))
      ensures pool[..] == if p == NULL then old(pool[..]) else old(pool[..])[p := true]
    {
      hide Lowest;
      p := 0;
      while p < pool.Length
        invariant 0 <= p <= pool.Length && forall i :: 0 <= i < p ==> pool[i]
        invariant pool[..] == old(pool[..])
      {
        if !pool[p] {
          LowestIsUnique(pool[..], p);
          pool[p] := true;
          return;
        }
        p := p + 1;
      }
      p := NULL;
      LowestIsUnique(pool[..], p);
    }

    /** littlefs_open or littlefs_opendir on descriptor d. */
    method LittlefsOpen(d: int, pool: array<bool>, backend: int) returns (rc: int)
      requires 0 <= d < descs.Length
      modifies pool, descs
      ensures var p := Lowest(old(pool[..]));
              && rc == (if p == NULL then -ENOMEM else backend)
              && pool[..] == (if rc < 0 then old(pool[..]) else old(pool[..])[p := true])
              && descs[..] == old(descs[..])[d := old(descs[..])[d].(handle := p)]
    {
      hide Lowest;
      var p := AllocPool(pool);
      descs[d] := descs[d].(handle := p);
      if p == NULL {
        rc := -ENOMEM;
      } else {
        rc := backend;
        if rc < 0 {
          pool[p] := false;
          assert pool[..] == old(pool[..]);
        }
      }
    }

    /** vfs_open or vfs_opendir on a wiped descriptor; precheck stands for what fails before LittleFS. */
    method VfsOpen(d: int, pool: array<bool>, precheck: int, backend: int) returns (rc: int)
      requires 0 <= d < descs.Length
      modifies pool, descs
      ensures var p := Lowest(old(pool[..]));
              && rc == (if precheck < 0 then precheck else if p == NULL then -ENOMEM else backend)
              && pool[..] == (if rc < 0 then old(pool[..]) else old(pool[..])[p := true])
              && descs[..] == old(descs[..])[d := descs[d]] && descs[d].used == old(descs[d].used)
              && (rc >= 0 ==> descs[d] == old(descs[d]).(mounted := true, handle := p))
              && (!old(descs[d]).mounted ==> (descs[d].mounted <==> rc >= 0))
    {
      hide Lowest;
      if precheck < 0 {
        return precheck;
      }
      descs[d] := descs[d].(mounted := true);
      rc := LittlefsOpen(d, pool, backend);
      if rc < 0 {
        descs[d] := descs[d].(mounted := false);
      }
    }

    /** _open. */
    method Open(precheck: int, backend: int) returns (fd: int, errno: int)
      requires Valid()
      modifies fds, descs, files
      ensures Valid() && OpenStep(old(T()), T(), precheck, backend, fd, errno)
    {
      hide Lowest, Corresponds;
      ghost var t := T();
      errno := 0;
      fd := ReserveFd();
      if fd < 0 {
        errno := ENFILE;
        assert Untouched(t, T());
      } else {
        ghost var f := fd;
        WipedFd(t, f);
        var d := AllocDesc(false);
        if d == NULL {
          fds[fd] := FREE_FD;
          errno, fd := EMFILE, -1;
          assert fds[..] == t.fds;
        } else {
          descs[d] := descs[d].(mounted := false, handle := NULL);
          var rc := VfsOpen(d, files, precheck, backend);
          if rc < 0 {
            descs[d] := descs[d].(used := false);
            fds[fd] := FREE_FD;
            errno, fd := -rc, -1;
            assert fds[..] == t.fds;
          } else {
            fds[fd] := FdEntry(true, d, true);
          }
        }
      }
      OpenKeeps(t, T(), precheck, backend, fd, errno);
    }

    /** _close. */
    method Close(fd: int, backend: int) returns (rc: int)
      requires Valid()
      modifies fds, descs, files
      ensures Valid() && CloseStep(old(T()), T(), fd, backend, rc)
    {
      hide Lowest;
      ghost var t := T();
      if fd < 0 || fd >= fds.Length || !fds[fd].used {
        return -1;
      }
      OpenFacts(t, fd);
      hide Corresponds;
      var d := fds[fd].obj;
      rc := backend;
      files[descs[d].handle] := false;
      if rc >= 0 {
        descs[d] := descs[d].(mounted := false);
      }
      descs[d] := descs[d].(used := false);
      fds[fd] := FREE_FD;
      CloseKeeps(t, T(), fd, backend, rc);
    }

    /** opendir. */
    method OpenDir(precheck: int, backend: int) returns (stream: int, errno: int)
      requires Valid()
      modifies descs, dirs
      ensures Valid() && OpenDirStep(old(T()), T(), precheck, backend, stream, errno)
    {
      hide Lowest, Corresponds;
      ghost var t := T();
      errno := 0;
      stream := AllocDesc(true);
      if stream == NULL {
        errno := EMFILE;
      } else {
        descs[stream] := descs[stream].(mounted := false, handle := NULL);
        var rc := VfsOpen(stream, dirs, precheck, backend);
        if rc < 0 {
          descs[stream] := descs[stream].(used := false);
          errno, stream := -rc, NULL;
        }
      }
      OpenDirKeeps(t, T(), precheck, backend, stream, errno);
    }

    /**
      closedir, on NULL, on a stream that opendir returned, or on one that was closed with or without an error.
      The tables stay in order unless it gives back the directory entry of another stream.
    */
    method CloseDir(stream: int, backend: int) returns (errno: int)
      requires Valid()
      requires stream == NULL || stream in HandleMap(T(), true) || IsClosed(T(), stream) || IsStale(T(), stream)
      modifies descs, dirs
      ensures CloseDirStep(old(T()), T(), stream, backend, errno)
      ensures Valid() <==> !TakesAnothers(old(T()), stream)
    {
      ghost var t := T();
      if stream == NULL {
        return EBADF;
      }
      if !descs[stream].mounted {
        descs[stream] := descs[stream].(handle := NULL, used := false);
        CloseDirKeeps(t, T(), stream, backend, 0);
        return 0;
      }
      if descs[stream].used {
        DirFacts(t, stream);
      }
      hide Corresponds;
      dirs[descs[stream].handle] := false;
      if backend >= 0 {
        descs[stream] := descs[stream].(mounted := false, handle := NULL);
      }
      descs[stream] := descs[stream].(used := false);
      errno := if backend < 0 then -backend else 0;
      CloseDirKeeps(t, T(), stream, backend, errno);
    }
  }
}
