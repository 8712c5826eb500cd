/**
  The mount list of the virtual file system (modules/fs/fs.c) and the stripping of a mount point from a
  path (strip_prefix in modules/fs/littlefs_fs.c).
*/
module Mounts {
  import opened Basics

  const EBUSY: int := 16
  const EINVAL: int := 22

  /** struct fs_mount_t: the object's identity and its mount point. */
  datatype Mount = Mount(id: nat, path: string)

  /** The mount point is the whole name or ends at one of the name's path components. */
  predicate Covers(path: string, name: string) {
    path <= name && (|path| == |name| || name[|path|] == '/')
  }

  /** In other words: the name is the mount point, or continues it with a slash. */
  lemma CoversIffContinues(path: string, name: string)
    ensures Covers(path, name) <==> name == path || exists rest :: name == path + "/" + rest
  {
    if Covers(path, name) && |path| < |name| {
      assert name == path + "/" + name[|path| + 1..];
    }
    if rest :| name == path + "/" + rest {
      assert name[..|path|] == path;
    }
  }

  /** An admissible mount point: absolute, and not the root itself. */
  predicate Mountable(path: string) {
    |path| > 1 && path[0] == '/'
  }

  ghost predicate Valid(ms: seq<Mount>) {
    && (forall i :: 0 <= i < |ms| ==> Mountable(ms[i].path))
    && (forall i, j :: 0 <= i < |ms| && 0 <= j < |ms| && i != j ==> ms[i].path != ms[j].path && ms[i].id != ms[j].id)
  }

  /** r is the longest mount point that covers the name, or there is none. */
  ghost predicate Resolves(ms: seq<Mount>, name: string, r: Option<Mount>) {
    match r
    case None => forall m :: m in ms ==> !Covers(m.path, name)
    case Some(b) =>
      && b in ms && Covers(b.path, name)
      && forall m :: m in ms && Covers(m.path, name) ==> |m.path| <= |b.path|
  }

  /** Two mount points of the same length that cover the same name are equal. */
  lemma CoversSameLength(p: string, q: string, name: string)
    requires Covers(p, name) && Covers(q, name) && |p| == |q|
    ensures p == q
  {
    assert p == name[..|p|] == q;
  }

  /** The resolution is unique, whatever the order in which the mounts were made. */
  lemma ResolutionIsUnique(ms: seq<Mount>, ns: seq<Mount>, name: string, r: Option<Mount>, s: Option<Mount>)
    requires Valid(ms) && (forall m :: m in ms <==> m in ns) && Resolves(ms, name, r) && Resolves(ns, name, s)
    ensures r == s
  {
    if r.Some? && s.Some? {
      CoversSameLength(r.value.path, s.value.path, name);
    }
  }

  /** The file system receives "/" for the mount point itself, and otherwise the rest of the path. */
  function StripPrefix(path: string, m: Mount): (r: string)
    requires Covers(m.path, path)
    ensures |r| > 0 && r[0] == '/'
    ensures path == m.path ==> r == "/"
    ensures path != m.path ==> m.path + r == path
  {
    var rest := path[|m.path|..];
    if rest == "" then
      assert path == m.path;
      "/"
    else
      assert m.path + rest == path && rest[0] == path[|m.path|];
      rest
  }

  /** Different files below one mount point stay different. */
  lemma StripIsInjective(p: string, q: string, m: Mount)
    requires Covers(m.path, p) && Covers(m.path, q) && StripPrefix(p, m) == StripPrefix(q, m)
    ensures p == q || {p, q} == {m.path, m.path + "/"}
  {
    if p == m.path && q != m.path {
      assert q == m.path + "/";
    } else if q == m.path && p != m.path {
      assert p == m.path + "/";
    }
  }

  /** A new mount takes over exactly the names that it covers more closely than the mounts before it. */
  lemma MountShadows(ms: seq<Mount>, m: Mount, name: string, r: Option<Mount>, s: Option<Mount>)
    requires Valid(ms + [m]) && Resolves(ms, name, r) && Resolves(ms + [m], name, s)
    ensures s == if Covers(m.path, name) && (r.None? || |r.value.path| < |m.path|) then Some(m) else r
  {
    var ns := ms + [m];
    var expected := if Covers(m.path, name) && (r.None? || |r.value.path| < |m.path|) then Some(m) else r;
    assert forall x :: x in ns <==> x in ms || x == m;
    assert Resolves(ns, name, expected);
    ResolutionIsUnique(ns, ns, name, s, expected);
  }

  class Vfs {
    var mounts: seq<Mount>

    constructor ()
      ensures mounts == [] && Valid(mounts)
    {
      mounts := [];
    }

    /** fs_get_mnt_point. */
    method GetMountPoint(name: string) returns (r: Option<Mount>)
      requires Valid(mounts)
      ensures Resolves(mounts, name, r)
    {
      r := None;
      var longest := 0;
      for i := 0 to |mounts|
        invariant Resolves(mounts[..i], name, r)
        invariant longest == if r.None? then 0 else |r.value.path|
      {
        var m := mounts[i];
        var len := |m.path|;
        assert mounts[..i + 1] == mounts[..i] + [m];
        if len < longest || len > |name| {
          continue;
        }
        if len > 1 && len < |name| && name[len] != '/' {
          continue;
        }
        if name[..len] == m.path {
          r, longest := Some(m), len;
        }
      }
      assert mounts[..|mounts|] == mounts;
    }

    /** vfs_mount; `fsError` is negative when the type is not registered, `backend` what mounting it answers. */
    method DoMount(m: Mount, fsError: int, backend: int) returns (rc: int)
      requires Valid(mounts)
      modifies this
      ensures Valid(mounts)
      ensures var mounted := exists i :: 0 <= i < |old(mounts)| && old(mounts)[i].id == m.id;
              var taken := exists i :: 0 <= i < |old(mounts)| && old(mounts)[i].path == m.path;
              rc == if mounted then -16 else if |m.path| <= 1 || m.path[0] != '/' then -22 else if taken then -16
                    else if fsError < 0 then fsError else backend
      ensures mounts == if rc < 0 then old(mounts) else old(mounts) + [m]
    {
      for i := 0 to |mounts|
        invariant forall j :: 0 <= j < i ==> mounts[j].id != m.id
      {
        if mounts[i].id == m.id {
          return -EBUSY;
        }
      }
      var len := |m.path|;
      if len <= 1 || m.path[0] != '/' {
        return -EINVAL;
      }
      for i := 0 to |mounts|
        invariant forall j :: 0 <= j < i ==> mounts[j].path != m.path
      {
        if len != |mounts[i].path| {
          continue;
        }
        if m.path[..len] == mounts[i].path[..len] {
          assert m.path == mounts[i].path;
          return -EBUSY;
        }
      }
      if fsError < 0 {
        return fsError;
      }
      rc := backend;
      if rc >= 0 {
        mounts := mounts + [m];
      }
    }

    /** vfs_unmount. */
    method Unmount(m: Mount, backend: int) returns (rc: int)
      requires Valid(mounts)
      modifies this
      ensures Valid(mounts)
      ensures if m !in old(mounts) then rc == -22 && mounts == old(mounts)
              else rc == backend && (rc < 0 ==> mounts == old(mounts))
                   && (rc >= 0 ==> exists i :: 0 <= i < |old(mounts)| && old(mounts)[i] == m
                                            && mounts == old(mounts)[..i] + old(mounts)[i + 1..])
    {
      var i := 0;
      while i < |mounts| && mounts[i] != m
        invariant i <= |mounts| && m !in mounts[..i]
      {
        i := i + 1;
      }
      if i == |mounts| {
        return -EINVAL;
      }
      rc := backend;
      if rc >= 0 {
        mounts := mounts[..i] + mounts[i + 1..];
      }
    }
  }
}
