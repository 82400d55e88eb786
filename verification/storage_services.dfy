/** FileService::resolvePath and the services that change the tree: mkdir, rmdir, delete and rename. */
module StorageServices {
  import opened Bytes
  import opened Paths
  import opened FileSystem

  class FileService {
    const root: Path
    var fs: FS

    constructor (root: Path, fs: FS)
      ensures this.root == root && this.fs == fs
    {
      this.root, this.fs := root, fs;
    }

    /** Strips leading separators, joins with the root, normalises, and tests the string prefix. */
    method ResolvePath(relative: Str) returns (r: Option<Resolved>)
      ensures r == Resolve(fs, root, relative)
    {
      var sanitized := relative;
      while sanitized != [] && (sanitized[0] == SLASH || sanitized[0] == BACKSLASH)
        invariant Strip(sanitized) == Strip(relative)
        decreases |sanitized|
      {
        sanitized := sanitized[1..];
      }
      var resolved := WeaklyCanonical(fs, root + Split(sanitized));
      r := if PathText(root) <= FullText(resolved) then Some(resolved) else None;
    }
  }

  datatype Outcome = Outcome(fs: FS, ok: bool, message: Str)

  function Fail(fs: FS, message: string): Outcome {
    Outcome(fs, false, Ascii(message))
  }

  const TRAVERSAL := "Invalid path: Path traversal attack detected"
  const DELETE_ROOT := "Cannot delete the storage root directory"
  const RENAME_ROOT := "Cannot rename or overwrite the storage root directory"
  /** The text of an operating-system error, which depends on errno. */
  const OS_ERROR := "Filesystem error"

  /** The spellings of the root that are refused before resolution. */
  predicate NamesRoot(path: Str) {
    path == [] || path == SEP || path == DOT
  }

  function AtRoot(root: Path): Resolved {
    Resolved(root, false)
  }

  // ---- delete ----

  function Delete(fs: FS, root: Path, path: Str): Outcome {
    if NamesRoot(path) then Fail(fs, DELETE_ROOT) else
    match Resolve(fs, root, path)
    case None => Fail(fs, TRAVERSAL)
    case Some(r) =>
      if r == AtRoot(root) then Fail(fs, DELETE_ROOT)
      else if !Exists(fs, r) then Fail(fs, "File or directory not found")
      else if IsDirectory(fs, r) && HasChild(fs, r.comps) then Fail(fs, "Directory not empty")
      else
        var (fs', ok) := Remove(fs, r);
        if ok then Outcome(fs', true, Ascii("Deleted successfully"))
        else Fail(fs', "Permission denied or unable to delete")
  }

  /** The path names an existing childless entry other than the plain root. */
  ghost predicate RemovableAt(fs: FS, root: Path, path: Str) {
    !NamesRoot(path) && Resolve(fs, root, path).Some? &&
    var r := Resolve(fs, root, path).value;
    r != AtRoot(root) && Exists(fs, r) && !HasChild(fs, r.comps)
  }

  /** The disk without that one entry. */
  ghost function Without(fs: FS, root: Path, path: Str): FS
    requires Resolve(fs, root, path).Some?
  {
    fs.(tree := fs.tree - {Resolve(fs, root, path).value.comps})
  }

  // ---- rmdir ----

  function RemoveDir(fs: FS, root: Path, path: Str): Outcome {
    if NamesRoot(path) then Fail(fs, DELETE_ROOT) else
    match Resolve(fs, root, path)
    case None => Fail(fs, TRAVERSAL)
    case Some(r) =>
      if r == AtRoot(root) then Fail(fs, DELETE_ROOT)
      else if !Exists(fs, r) then Fail(fs, "Directory not found")
      else if !IsDirectory(fs, r) then Fail(fs, "Target is not a directory")
      else if HasChild(fs, r.comps) then Fail(fs, "Directory not empty")
      else
        var (fs', ok) := Remove(fs, r);
        if ok then Outcome(fs', true, Ascii("Directory removed"))
        else Fail(fs', "Unable to remove directory")
  }

  // ---- mkdir ----

  function MakeDir(fs: FS, root: Path, path: Str): Outcome {
    if NamesRoot(path) then Fail(fs, "Invalid directory path") else
    match Resolve(fs, root, path)
    case None => Fail(fs, TRAVERSAL)
    case Some(r) =>
      if r == AtRoot(root) then Fail(fs, "Cannot recreate root directory")
      else if Exists(fs, r) then Fail(fs, "Directory already exists")
      else
        var (fs', ok) := CreateDirectories(fs, r.comps);
        if ok then Outcome(fs', true, Ascii("Directory created"))
        else Fail(fs', OS_ERROR)
  }

  /** The path names a missing place with no file on the way to it. */
  ghost predicate CreatableAt(fs: FS, root: Path, path: Str) {
    !NamesRoot(path) && Resolve(fs, root, path).Some? &&
    var r := Resolve(fs, root, path).value;
    r != AtRoot(root) && r.comps !in fs.tree && forall k | 0 <= k <= |r.comps| :: !IsFile(fs, r.comps[..k])
  }

  /** fs' has p and all its prefixes as directories, and otherwise what fs has. */
  ghost predicate PrefixesAdded(fs: FS, fs': FS, p: Path) {
    && IsDir(fs', p) && fs'.data == fs.data && fs'.next == fs.next
    && (forall q :: q in fs'.tree <==> q in fs.tree || q <= p)
    && (forall q | q in fs'.tree :: fs'.tree[q] == if q in fs.tree then fs.tree[q] else Dir)
  }

  // ---- rename ----

  /** path::parent_path of a resolved path: a trailing separator is all it drops. */
  function ParentPath(r: Resolved): Resolved {
    if r.trailing then Resolved(r.comps, false) else Resolved(Parent(r.comps), false)
  }

  /** dst_canonical.rfind(src_canonical + "/", 0) == 0 */
  predicate IntoItself(src: Resolved, dst: Resolved) {
    FullText(src) + SEP <= FullText(dst)
  }

  function RenameResolved(fs: FS, root: Path, src: Resolved, dst: Resolved): Outcome {
    if src == AtRoot(root) || dst == AtRoot(root) then Fail(fs, RENAME_ROOT)
    else if !Exists(fs, src) then Fail(fs, "Source file or directory not found")
    else if Exists(fs, dst) then Fail(fs, "Destination already exists")
    else if !Exists(fs, ParentPath(dst)) then Fail(fs, "Destination parent directory does not exist")
    else if IsDirectory(fs, src) && IntoItself(src, dst) then
      Fail(fs, "Cannot move a directory into itself or its subdirectory")
    else
      var (fs', ok) := OsRename(fs, src, dst);
      if ok then Outcome(fs', true, Ascii("Renamed successfully")) else Fail(fs', OS_ERROR)
  }

  function Rename(fs: FS, root: Path, source: Str, destination: Str): Outcome {
    if source == [] || destination == [] then Fail(fs, "Source and destination paths cannot be empty")
    else if NamesRoot(source) || NamesRoot(destination) then Fail(fs, RENAME_ROOT) else
    match (Resolve(fs, root, source), Resolve(fs, root, destination))
    case (Some(src), Some(dst)) => RenameResolved(fs, root, src, dst)
    case _ => Fail(fs, TRAVERSAL)
  }

  /** When a rename goes through, in terms of the tree alone. */
  ghost predicate RenameAllowed(fs: FS, root: Path, source: Str, destination: Str) {
    && !NamesRoot(source) && !NamesRoot(destination)
    && Resolve(fs, root, source).Some? && Resolve(fs, root, destination).Some?
    && var src, dst := Resolve(fs, root, source).value, Resolve(fs, root, destination).value;
    && src != AtRoot(root) && dst != AtRoot(root) && !dst.trailing
    && Exists(fs, src)
    && CanMove(fs, src.comps, dst.comps)
  }

  /** The disk after the subtree move. */
  ghost function AfterMove(fs: FS, root: Path, source: Str, destination: Str): FS
    requires Resolve(fs, root, source).Some? && Resolve(fs, root, destination).Some?
  {
    fs.(tree := Moved(fs.tree, Resolve(fs, root, source).value.comps, Resolve(fs, root, destination).value.comps))
  }

  /** The outcome is the subtree move when a rename is allowed, and no change when it is not. */
  ghost predicate MovesOrLeaves(fs: FS, root: Path, source: Str, destination: Str, ok: bool, fs': FS) {
    && Valid(fs')
    && (ok <==> RenameAllowed(fs, root, source, destination))
    && fs' == if ok then AfterMove(fs, root, source, destination) else fs
  }

  // ---- what the services do to the tree ----

  /** Delete succeeds exactly on an existing childless entry behind the root, and removes that entry alone. */
  lemma DeleteRemovesOneChildlessEntry(fs: FS, root: Path, path: Str)
    requires Valid(fs) && GoodRoot(root)
    ensures var o := Delete(fs, root, path);
      && Valid(o.fs)
      && (o.ok <==> RemovableAt(fs, root, path))
      && (o.ok ==> o.fs == Without(fs, root, path) && |o.fs.tree| == |fs.tree| - 1)
      && (!o.ok ==> o.fs == fs)
  {
    hide Resolve, Valid, HasChild;
    if Resolve(fs, root, path).Some? {
      var r := Resolve(fs, root, path).value;
      AcceptedIsNoAncestor(fs, root, path);
      RemoveTakesOneEntry(fs, r);
    }
  }

  /** What remove does to an entry other than "/"; a file has no children, so the code need not ask for them. */
  lemma RemoveTakesOneEntry(fs: FS, r: Resolved)
    requires Valid(fs) && r.comps != []
    ensures var (fs', ok) := Remove(fs, r);
      && Valid(fs')
      && (ok <==> Exists(fs, r) && !HasChild(fs, r.comps))
      && (ok ==> fs' == fs.(tree := fs.tree - {r.comps}) && |fs'.tree| == |fs.tree| - 1)
      && (!ok ==> fs' == fs)
      && (HasChild(fs, r.comps) ==> !IsFile(fs, r.comps))
  {
    RemoveKeepsValid(fs, r);
    FilesHaveNoChildren(fs, r.comps);
    if r.comps in fs.tree {
      assert (fs.tree - {r.comps}).Keys == fs.tree.Keys - {r.comps};
    }
  }

  lemma FilesHaveNoChildren(fs: FS, p: Path)
    requires Rooted(fs)
    ensures IsFile(fs, p) ==> !HasChild(fs, p)
  {
    if HasChild(fs, p) {
      var q :| q in fs.tree && |q| == |p| + 1 && q[..|p|] == p;
      assert Parent(q) == p;
    }
  }

  /** rmdir is delete restricted to directories. */
  lemma RemoveDirIsDeleteOfDirectory(fs: FS, root: Path, path: Str)
    requires Valid(fs) && GoodRoot(root)
    ensures var o, d := RemoveDir(fs, root, path), Delete(fs, root, path);
      && (o.ok <==> d.ok && IsDirectory(fs, Resolve(fs, root, path).value))
      && o.fs == (if o.ok then d.fs else fs)
  {
    DeleteRemovesOneChildlessEntry(fs, root, path);
  }

  /** mkdir succeeds exactly when the target is missing and no file is in the way; it adds the missing prefixes. */
  lemma MakeDirAddsMissingPrefixes(fs: FS, root: Path, path: Str)
    requires Valid(fs) && GoodRoot(root)
    ensures var o := MakeDir(fs, root, path);
      && Valid(o.fs)
      && (o.ok <==> CreatableAt(fs, root, path))
      && (o.ok ==> PrefixesAdded(fs, o.fs, Resolve(fs, root, path).value.comps))
      && (!o.ok ==> o.fs == fs)
  {
    if !NamesRoot(path) && Resolve(fs, root, path).Some? {
      var p := Resolve(fs, root, path).value.comps;
      CreateDirectoriesAddsPrefixes(fs, p);
      assert p[..|p|] == p;
    }
  }

  /** Resolution of one spelling depends on the tree only through the trailing separator. */
  lemma AcceptanceIgnoresTree(fs: FS, fs': FS, root: Path, path: Str)
    requires GoodRoot(root)
    ensures Resolve(fs, root, path).Some? <==> Resolve(fs', root, path).Some?
    ensures Resolve(fs, root, path).Some? ==>
      Resolve(fs', root, path).value.comps == Resolve(fs, root, path).value.comps
  {
    ResolvedComponents(fs, root, path);
    ResolvedComponents(fs', root, path);
    var comps := Walk(root, Split(Strip(path)));
    TrailingIsIrrelevant(root, comps);
    assert PathText(comps) + [] == PathText(comps);
  }

  /** rmdir undoes an mkdir that had to create only one level. */
  lemma RemoveDirUndoesMakeDir(fs: FS, root: Path, path: Str)
    requires Valid(fs) && GoodRoot(root) && IsDir(fs, root)
    requires MakeDir(fs, root, path).ok
    requires IsDir(fs, Parent(Resolve(fs, root, path).value.comps))
    ensures RemoveDir(MakeDir(fs, root, path).fs, root, path).ok
    ensures RemoveDir(MakeDir(fs, root, path).fs, root, path).fs == fs
  {
    var fs' := MakeDir(fs, root, path).fs;
    MakeDirAddsMissingPrefixes(fs, root, path);
    AcceptanceIgnoresTree(fs, fs', root, path);
    var p := Resolve(fs, root, path).value.comps;
    AcceptedIsNoAncestor(fs, root, path);
    OneLevelAdded(fs, fs', p);
    DeleteRemovesOneChildlessEntry(fs', root, path);
    RemoveDirIsDeleteOfDirectory(fs', root, path);
  }

  lemma OneLevelAdded(fs: FS, fs': FS, p: Path)
    requires Valid(fs) && p != [] && p !in fs.tree && IsDir(fs, Parent(p))
    requires forall q :: q in fs'.tree <==> q in fs.tree || q <= p
    requires forall q | q in fs'.tree :: fs'.tree[q] == if q in fs.tree then fs.tree[q] else Dir
    ensures !HasChild(fs', p)
    ensures fs'.tree - {p} == fs.tree
  {
    forall q | q <= p && q != p
      ensures q in fs.tree
    {
      PrefixesExist(fs, Parent(p), |q|);
      assert Parent(p)[..|q|] == q;
    }
    forall q | q in fs.tree {
      NothingBelowMissing(fs, p, q);
    }
  }

  /** The guard's string test, on any two resolved paths. */
  lemma RenameGuardExact(src: Resolved, dst: Resolved)
    requires AllNames(src.comps) && AllNames(dst.comps) && src.comps != []
    requires dst.trailing ==> dst.comps != []
    ensures IntoItself(src, dst) <==>
            !src.trailing && (ProperPrefix(src.comps, dst.comps) || (src.comps == dst.comps && dst.trailing))
  {
    var v: Str := if dst.trailing then SEP else [];
    assert FullText(dst) == if dst.comps == [] then SEP else Text(dst.comps) + v;
    if src.trailing {
      var u := SEP + SEP;
      assert FullText(src) + SEP == Text(src.comps) + u;
      PrefixIsComponentwise(src.comps, u, dst.comps, v);
      var rest := dst.comps[if |src.comps| <= |dst.comps| then |src.comps| else 0..];
      assert rest != [] ==> (Text(rest) + v)[1] == rest[0][0];
    } else {
      assert FullText(src) + SEP == Text(src.comps) + SEP;
      SlashPrefixIsProperPrefix(src.comps, dst.comps, v);
    }
    assert dst.comps == [] ==> |FullText(src) + SEP| > |FullText(dst)|;
  }

  /** The guards and the kernel's own refusals, on resolved paths, add up to CanMove. */
  lemma GuardsLeaveMoves(fs: FS, src: Resolved, dst: Resolved)
    requires Valid(fs) && AllNames(src.comps) && AllNames(dst.comps) && src.comps != [] && dst.comps != []
    ensures Exists(fs, src) && !Exists(fs, dst) && Exists(fs, ParentPath(dst))
            && !(IsDirectory(fs, src) && IntoItself(src, dst)) && !OsRenameRefused(fs, src, dst)
        <==> Exists(fs, src) && !dst.trailing && CanMove(fs, src.comps, dst.comps)
  {
    RenameGuardExact(src, dst);
  }

  /**
   * What excludes cycles. Moving a directory to a free place leaves a rooted tree exactly when it is not a move into
   * itself. On such a move the string guard fires exactly when the source has no trailing separator; where it does
   * not, only the kernel's refusal is left.
   */
  lemma WhatExcludesCycles(fs: FS, src: Resolved, dst: Resolved)
    requires Valid(fs) && AllNames(src.comps) && AllNames(dst.comps) && src.comps != [] && dst.comps != []
    requires IsDirectory(fs, src) && dst.comps !in fs.tree && IsDir(fs, Parent(dst.comps))
    ensures Rooted(fs.(tree := Moved(fs.tree, src.comps, dst.comps))) <==> !ProperPrefix(src.comps, dst.comps)
    ensures ProperPrefix(src.comps, dst.comps) ==> (IntoItself(src, dst) <==> !src.trailing)
    ensures ProperPrefix(src.comps, dst.comps) ==> OsRenameRefused(fs, src, dst)
  {
    RenameGuardExact(src, dst);
    var a, b := src.comps, dst.comps;
    if ProperPrefix(a, b) {
      assert a <= Parent(b);
      var t := Moved(fs.tree, a, b);
      assert b + a[|a|..] == b;
      assert b in t;
      assert Parent(b) !in t;
    } else {
      MovedKeepsValid(fs, a, b);
    }
  }

  /**
   * A source that slips past the guard: "m/../d/", with m missing, resolves to the directory d with a trailing
   * separator. Moving it to "d/x" gets as far as rename(2), which refuses.
   */
  lemma OpenSourceSlipsPastGuard(fs: FS, root: Path, m: Str, d: Str, x: Str)
    requires Valid(fs) && GoodRoot(root) && IsDir(fs, root)
    requires PlainName(m) && PlainName(d) && PlainName(x)
    requires root + [m] !in fs.tree && IsDir(fs, root + [d]) && root + [d, x] !in fs.tree
    ensures var source, destination := m + SEP + (DOTDOT + SEP + (d + SEP)), d + SEP + x;
      var src, dst := Resolved(root + [d], true), Resolved(root + [d, x], false);
      && Resolve(fs, root, source) == Some(src) && Resolve(fs, root, destination) == Some(dst)
      && ProperPrefix(src.comps, dst.comps) && !IntoItself(src, dst)
      && Rename(fs, root, source, destination) == Fail(fs, OS_ERROR)
  {
    hide Resolve, Rename, RenameResolved, IntoItself, Valid, GoodRoot, ProperPrefix;
    OpenSourceResolves(fs, root, m, d);
    ChildResolves(fs, root, d, x);
    OpenSourceIsRefusedByTheKernel(fs, root, d, x);
    RenameOfLongPaths(fs, root, m + SEP + (DOTDOT + SEP + (d + SEP)), d + SEP + x);
  }

  lemma RenameOfLongPaths(fs: FS, root: Path, source: Str, destination: Str)
    requires |source| > 1 && |destination| > 1
    requires Resolve(fs, root, source).Some? && Resolve(fs, root, destination).Some?
    ensures Rename(fs, root, source, destination)
         == RenameResolved(fs, root, Resolve(fs, root, source).value, Resolve(fs, root, destination).value)
  {
    hide Resolve;
  }

  lemma OpenSourceIsRefusedByTheKernel(fs: FS, root: Path, d: Str, x: Str)
    requires Valid(fs) && GoodRoot(root) && IsName(d) && IsName(x)
    requires IsDir(fs, root + [d]) && root + [d, x] !in fs.tree
    ensures var src, dst := Resolved(root + [d], true), Resolved(root + [d, x], false);
      && ProperPrefix(src.comps, dst.comps) && !IntoItself(src, dst)
      && RenameResolved(fs, root, src, dst) == Fail(fs, OS_ERROR)
  {
    var src, dst := Resolved(root + [d], true), Resolved(root + [d, x], false);
    hide FullText, IntoItself, OsRenameRefused;
    assert dst.comps[..|root| + 1] == src.comps && Parent(dst.comps) == src.comps;
    assert src.comps[|root|] == d;
    RenameGuardExact(src, dst);
    assert OsRenameRefused(fs, src, dst) by { KernelRefusesCycles(fs, src, dst); }
  }

  lemma KernelRefusesCycles(fs: FS, src: Resolved, dst: Resolved)
    requires ProperPrefix(src.comps, dst.comps)
    ensures OsRenameRefused(fs, src, dst)
  {
  }

  /** A name that no leading separator or backslash is stripped from. */
  predicate PlainName(c: Str) {
    IsName(c) && c[0] != BACKSLASH
  }

  lemma MissingIsNotFollowed(fs: FS, root: Path, m: Str, cs: Path)
    requires IsName(m) && root + [m] !in fs.tree
    ensures Lookup(fs, root, [m] + cs) == None
  {
    var raw := [m] + cs;
    assert raw[1..] == cs;
    assert Lookup(fs, root + [m], cs) == None;
  }

  lemma OpenSourceResolves(fs: FS, root: Path, m: Str, d: Str)
    requires Valid(fs) && GoodRoot(root) && IsDir(fs, root) && PlainName(m) && PlainName(d) && root + [m] !in fs.tree
    ensures Resolve(fs, root, m + SEP + (DOTDOT + SEP + (d + SEP))) == Some(Resolved(root + [d], true))
  {
    hide Split, Strip, Walk, Resolve;
    OpenSourceParts(m, d);
    WalkOpen(root, d);
    ResolveViaMissing(fs, root, m, m + SEP + (DOTDOT + SEP + (d + SEP)), [d, []]);
  }

  lemma OpenSourceParts(m: Str, d: Str)
    requires PlainName(m) && PlainName(d)
    ensures Split(Strip(m + SEP + (DOTDOT + SEP + (d + SEP)))) == [m, DOTDOT] + [d, []]
  {
    var path := m + SEP + (DOTDOT + SEP + (d + SEP));
    StripPlain(m, SEP + (DOTDOT + SEP + (d + SEP)));
    Associate(m, SEP, DOTDOT + SEP + (d + SEP));
    hide Split, Strip;
    OpenNameParts(d);
    SplitComponent(DOTDOT, d + SEP);
    SplitComponent(m, DOTDOT + SEP + (d + SEP));
  }

  lemma OpenNameParts(d: Str)
    requires PlainName(d)
    ensures Split(d + SEP) == [d, []] && Strip(d + SEP) == d + SEP
  {
    StripPlain(d, SEP);
    assert d + SEP + [] == d + SEP;
    SplitComponent(d, []);
  }

  lemma StripPlain(c: Str, rest: Str)
    requires PlainName(c)
    ensures Strip(c + rest) == c + rest
  {
  }

  /** A path that goes through a missing directory and back is resolved by its text alone. */
  lemma ResolveViaMissing(fs: FS, root: Path, m: Str, path: Str, cs: Path)
    requires Rooted(fs) && GoodRoot(root) && IsDir(fs, root) && IsName(m) && root + [m] !in fs.tree
    requires Split(Strip(path)) == [m, DOTDOT] + cs && root <= Walk(root, cs)
    ensures Resolve(fs, root, path)
         == Some(Resolved(Walk(root, cs), EndsOpen(if cs == [] then DOTDOT else cs[|cs| - 1])))
  {
    hide Split, Strip, Walk, Resolve, Lookup, Rooted, EndsOpen;
    var raw := [m, DOTDOT] + cs;
    WalkThereAndBack(root, m, cs);
    Associate([m], [DOTDOT], cs);
    assert [m] + [DOTDOT] == [m, DOTDOT];
    MissingIsNotFollowed(fs, root, m, [DOTDOT] + cs);
    ResolveBehindRoot(fs, root, path, raw);
  }

  lemma ChildResolves(fs: FS, root: Path, d: Str, x: Str)
    requires Valid(fs) && GoodRoot(root) && IsDir(fs, root) && PlainName(d) && PlainName(x)
    ensures Resolve(fs, root, d + SEP + x) == Some(Resolved(root + [d, x], false))
  {
    var path := d + SEP + x;
    var cs := [d, x];
    SplitComponent(d, x);
    SplitComponent(x, []);
    assert Strip(path) == path && Split(path) == cs;
    WalkNames(root, cs);
    ResolveBehindRoot(fs, root, path, cs);
  }

  lemma NameResolves(fs: FS, root: Path, x: Str)
    requires Valid(fs) && GoodRoot(root) && IsDir(fs, root) && PlainName(x)
    ensures Resolve(fs, root, x) == Some(Resolved(root + [x], false))
  {
    SplitComponent(x, []);
    assert Strip(x) == x && Split(x) == [x];
    WalkNames(root, [x]);
    ResolveBehindRoot(fs, root, x, [x]);
  }

  /** Rename is exactly the subtree move where that is possible, and otherwise changes nothing. */
  lemma RenameIsSubtreeMove(fs: FS, root: Path, source: Str, destination: Str)
    requires Valid(fs) && GoodRoot(root)
    ensures Valid(Rename(fs, root, source, destination).fs)
    ensures Rename(fs, root, source, destination).ok <==> RenameAllowed(fs, root, source, destination)
    ensures Rename(fs, root, source, destination).ok ==>
      Rename(fs, root, source, destination).fs == AfterMove(fs, root, source, destination)
    ensures !Rename(fs, root, source, destination).ok ==> Rename(fs, root, source, destination).fs == fs
  {
    hide Moved, Resolve;
    var a, b := Resolve(fs, root, source), Resolve(fs, root, destination);
    if a.Some? && b.Some? {
      AcceptedIsNoAncestor(fs, root, source);
      AcceptedIsNoAncestor(fs, root, destination);
      ResolvedRenameIsMove(fs, root, a.value, b.value);
    }
  }

  lemma RenameMovesOrLeaves(fs: FS, root: Path, source: Str, destination: Str)
    ensures var o := Rename(fs, root, source, destination);
      Valid(fs) && GoodRoot(root) ==> MovesOrLeaves(fs, root, source, destination, o.ok, o.fs)
  {
    if Valid(fs) && GoodRoot(root) {
      RenameIsSubtreeMove(fs, root, source, destination);
    }
  }

  lemma ResolvedRenameIsMove(fs: FS, root: Path, src: Resolved, dst: Resolved)
    requires Valid(fs) && AllNames(src.comps) && AllNames(dst.comps) && src.comps != [] && dst.comps != []
    ensures var o := RenameResolved(fs, root, src, dst);
      && Valid(o.fs)
      && (o.ok <==> src != AtRoot(root) && dst != AtRoot(root) && !dst.trailing
                    && Exists(fs, src) && CanMove(fs, src.comps, dst.comps))
      && o.fs == (if o.ok then fs.(tree := Moved(fs.tree, src.comps, dst.comps)) else fs)
  {
    assert CanMove(fs, src.comps, dst.comps) ==> src.comps != dst.comps;
    hide Moved, OsRenameRefused, IntoItself, CanMove, Exists;
    GuardsLeaveMoves(fs, src, dst);
    if CanMove(fs, src.comps, dst.comps) {
      MovedKeepsValid(fs, src.comps, dst.comps);
    }
  }

  /** What the move means entry by entry: outside untouched, inside carried over one to one, nothing else. */
  lemma RenameEntryByEntry(fs: FS, root: Path, source: Str, destination: Str)
    requires Valid(fs) && GoodRoot(root) && Rename(fs, root, source, destination).ok
    ensures var fs' := Rename(fs, root, source, destination).fs;
      var src, dst := Resolve(fs, root, source).value.comps, Resolve(fs, root, destination).value.comps;
      && (forall p | p in fs.tree && !(src <= p) :: p in fs'.tree && fs'.tree[p] == fs.tree[p])
      && (forall q :: src + q in fs.tree <==> dst + q in fs'.tree)
      && (forall q | src + q in fs.tree :: fs'.tree[dst + q] == fs.tree[src + q])
      && (forall p | p in fs'.tree && !(dst <= p) :: p in fs.tree && !(src <= p))
      && |fs'.tree| == |fs.tree| && fs'.data == fs.data
      && dst !in fs.tree
  {
    hide Moved;
    RenameIsSubtreeMove(fs, root, source, destination);
    var src, dst := Resolve(fs, root, source).value.comps, Resolve(fs, root, destination).value.comps;
    MovedSameSize(fs, src, dst);
    forall p | !(dst <= p) { MovedOutside(fs, src, dst, p); }
    forall q { MovedInside(fs, src, dst, q); }
    forall p | p in fs.tree { NothingBelowMissing(fs, dst, p); }
  }

  /** The last component of a path as the client spelled it. */
  function LastPart(path: Str): Str {
    var cs := Split(Strip(path));
    cs[|cs| - 1]
  }

  /**
   * Renaming back restores the disk, and works exactly when the old spelling does not end in an empty, "." or ".."
   * part.
   */
  lemma RenameBack(fs: FS, root: Path, source: Str, destination: Str)
    requires Valid(fs) && GoodRoot(root) && IsDir(fs, root)
    requires Rename(fs, root, source, destination).ok
    ensures var fs' := Rename(fs, root, source, destination).fs;
      var back := Rename(fs', root, destination, source);
      && (back.ok <==> !EndsOpen(LastPart(source)))
      && back.fs == (if back.ok then fs else fs')
  {
    hide Moved;
    RenameIsSubtreeMove(fs, root, source, destination);
    var fs' := Rename(fs, root, source, destination).fs;
    RenameIsSubtreeMove(fs', root, destination, source);
    AcceptanceIgnoresTree(fs, fs', root, source);
    AcceptanceIgnoresTree(fs, fs', root, destination);
    var src, dst := Resolve(fs, root, source).value.comps, Resolve(fs, root, destination).value.comps;
    MoveBack(fs, src, dst);
    assert Exists(fs', Resolve(fs', root, destination).value) by {
      DestinationIsThere(fs, fs', root, source, destination);
    }
    SourceIsGone(fs, fs', root, source, destination);
    MissingIsOpenBySpelling(fs', root, source);
    ClosedSpellingStaysClosed(fs, root, source);
  }

  lemma SourceIsGone(fs: FS, fs': FS, root: Path, source: Str, destination: Str)
    requires Valid(fs) && GoodRoot(root) && RenameAllowed(fs, root, source, destination)
    requires fs' == AfterMove(fs, root, source, destination)
    ensures Resolve(fs, root, source).value.comps !in fs'.tree
  {
    hide Moved;
    var src, dst := Resolve(fs, root, source).value.comps, Resolve(fs, root, destination).value.comps;
    NothingBelowMissing(fs, dst, src);
    MovedOutside(fs, src, dst, src);
  }

  /** Whether a missing path resolves with a trailing separator can be read off its spelling. */
  lemma MissingIsOpenBySpelling(fs: FS, root: Path, path: Str)
    requires GoodRoot(root) && Resolve(fs, root, path).Some? && Resolve(fs, root, path).value.comps !in fs.tree
    ensures Resolve(fs, root, path).value.trailing <==> EndsOpen(LastPart(path))
  {
    hide Walk, Lookup, Split, Strip, PathText;
    ResolvedComponents(fs, root, path);
    AcceptedIsNoAncestor(fs, root, path);
    var cs := Split(Strip(path));
    var raw := root + cs;
    assert raw[|raw| - 1] == cs[|cs| - 1];
    if Lookup(fs, [], raw).Some? {
      LookupIsWalk(fs, [], raw);
    }
  }

  lemma ClosedSpellingStaysClosed(fs: FS, root: Path, path: Str)
    requires Resolve(fs, root, path).Some?
    ensures Resolve(fs, root, path).value.trailing ==> EndsOpen(LastPart(path))
  {
  }

  lemma SiblingsCanMove(fs: FS, root: Path, d: Str, e: Str)
    requires IsDir(fs, root) && root + [d] in fs.tree && root + [e] !in fs.tree
    ensures CanMove(fs, root + [d], root + [e])
  {
    assert Parent(root + [e]) == root;
    assert !ProperPrefix(root + [d], root + [e]);
  }

  /** "d/" can be renamed to "e", but "e" not back to "d/". */
  lemma OpenSpellingIsNotRenamedBack(fs: FS, root: Path, d: Str, e: Str)
    requires Valid(fs) && GoodRoot(root) && IsDir(fs, root) && PlainName(d) && PlainName(e)
    requires IsDir(fs, root + [d]) && root + [e] !in fs.tree
    ensures Rename(fs, root, d + SEP, e).ok
    ensures !Rename(Rename(fs, root, d + SEP, e).fs, root, e, d + SEP).ok
  {
    var path := d + SEP;
    var cs := [d, []];
    OpenNameParts(d);
    hide Split, Strip, Walk, Resolve, Rename, CanMove;
    WalkOpen(root, d);
    ResolveBehindRoot(fs, root, path, cs);
    NameResolves(fs, root, e);
    assert CanMove(fs, root + [d], root + [e]) by { SiblingsCanMove(fs, root, d, e); }
    RenameIsSubtreeMove(fs, root, path, e);
    RenameBack(fs, root, path, e);
  }

  lemma DestinationIsThere(fs: FS, fs': FS, root: Path, source: Str, destination: Str)
    requires Valid(fs) && GoodRoot(root) && RenameAllowed(fs, root, source, destination)
    requires fs'.tree == AfterMove(fs, root, source, destination).tree
    ensures Resolve(fs', root, destination).Some? && Exists(fs', Resolve(fs', root, destination).value)
  {
    var src, dst := Resolve(fs, root, source).value.comps, Resolve(fs, root, destination).value.comps;
    AcceptanceIgnoresTree(fs, fs', root, destination);
    MovedInside(fs, src, dst, []);
    assert dst + [] == dst && src + [] == src;
    MissingStaysClosed(fs, fs', root + Split(Strip(destination)));
  }

  /** A missing path that resolved without a trailing separator does so in every tree. */
  lemma MissingStaysClosed(fs: FS, fs': FS, raw: Path)
    requires raw != [] && !WeaklyCanonical(fs, raw).trailing && WeaklyCanonical(fs, raw).comps !in fs.tree
    requires WeaklyCanonical(fs, raw).comps != []
    ensures !WeaklyCanonical(fs', raw).trailing
  {
    if Lookup(fs, [], raw).Some? {
      LookupIsWalk(fs, [], raw);
    }
  }

  // ---- the storage root itself ----

  /** A spelling that resolves to the root with a trailing separator: not equal to root(), so no guard stops it. */
  predicate ResolvesToOpenRoot(fs: FS, root: Path, path: Str) {
    !NamesRoot(path) && Resolve(fs, root, path) == Some(Resolved(root, true))
  }

  /** A delete keeps the storage root exactly unless it is the empty root under such a spelling. */
  lemma DeleteKeepsRootExactly(fs: FS, root: Path, path: Str)
    requires Valid(fs) && GoodRoot(root) && IsDir(fs, root)
    ensures IsDir(Delete(fs, root, path).fs, root) <==> !(ResolvesToOpenRoot(fs, root, path) && !HasChild(fs, root))
    ensures IsDir(RemoveDir(fs, root, path).fs, root) <==> IsDir(Delete(fs, root, path).fs, root)
  {
    DeleteRemovesOneChildlessEntry(fs, root, path);
    RemoveDirIsDeleteOfDirectory(fs, root, path);
  }

  /** A rename keeps the storage root exactly unless its source is such a spelling. */
  lemma RenameKeepsRootExactly(fs: FS, root: Path, source: Str, destination: Str)
    requires Valid(fs) && GoodRoot(root) && IsDir(fs, root)
    requires Rename(fs, root, source, destination).ok
    ensures IsDir(Rename(fs, root, source, destination).fs, root) <==> !ResolvesToOpenRoot(fs, root, source)
  {
    hide Moved;
    RenameIsSubtreeMove(fs, root, source, destination);
    AcceptedIsNoAncestor(fs, root, source);
    var src, dst := Resolve(fs, root, source).value, Resolve(fs, root, destination).value.comps;
    NothingBelowMissing(fs, dst, root);
    MovedOutside(fs, src.comps, dst, root);
    assert src.comps <= root ==> src.comps == root || ProperPrefix(src.comps, root);
  }

  lemma OpenRootParts(missing: Str)
    requires PlainName(missing)
    ensures Split(Strip(missing + SEP + DOTDOT)) == [missing, DOTDOT] + []
  {
    StripPlain(missing, SEP + DOTDOT);
    Associate(missing, SEP, DOTDOT);
    hide Split, Strip;
    SplitComponent(missing, DOTDOT);
    SplitComponent(DOTDOT, []);
  }

  /** "missing/..", on a storage root with nothing in it, deletes the root. */
  lemma OpenRootIsDeleted(fs: FS, root: Path, missing: Str)
    requires Valid(fs) && GoodRoot(root) && IsDir(fs, root) && !HasChild(fs, root) && PlainName(missing)
    ensures Delete(fs, root, missing + SEP + DOTDOT).ok
    ensures root !in Delete(fs, root, missing + SEP + DOTDOT).fs.tree
  {
    var path := missing + SEP + DOTDOT;
    OpenRootParts(missing);
    assert root + [missing] in fs.tree ==> HasChild(fs, root) by {
      assert (root + [missing])[..|root|] == root;
    }
    assert Walk(root, []) == root;
    hide Split, Strip, Walk, Resolve, Delete, HasChild;
    ResolveViaMissing(fs, root, missing, path, []);
    DeleteRemovesOneChildlessEntry(fs, root, path);
  }

  // ---- what the services say ----

  /** exists() of a resolved path, on the tree: a file is not found behind a trailing separator. */
  ghost predicate Found(fs: FS, r: Resolved) {
    IsDir(fs, r.comps) || (IsFile(fs, r.comps) && !r.trailing)
  }

  /** The message of a delete names what stood in its way. */
  lemma DeleteSaysWhy(fs: FS, root: Path, path: Str)
    requires Valid(fs) && GoodRoot(root)
    ensures Delete(fs, root, path).message == Ascii(
      if path in {[], SEP, DOT} then "Cannot delete the storage root directory" else
      match Resolve(fs, root, path)
      case None => "Invalid path: Path traversal attack detected"
      case Some(r) =>
        if r == Resolved(root, false) then "Cannot delete the storage root directory"
        else if !Found(fs, r) then "File or directory not found"
        else if HasChild(fs, r.comps) then "Directory not empty"
        else "Deleted successfully")
  {
    if Resolve(fs, root, path).Some? {
      AcceptedIsNoAncestor(fs, root, path);
      FilesHaveNoChildren(fs, Resolve(fs, root, path).value.comps);
    }
    hide Resolve, HasChild, Valid;
  }

  lemma RemoveDirSaysWhy(fs: FS, root: Path, path: Str)
    requires Valid(fs) && GoodRoot(root)
    ensures RemoveDir(fs, root, path).message == Ascii(
      if path in {[], SEP, DOT} then "Cannot delete the storage root directory" else
      match Resolve(fs, root, path)
      case None => "Invalid path: Path traversal attack detected"
      case Some(r) =>
        if r == Resolved(root, false) then "Cannot delete the storage root directory"
        else if !Found(fs, r) then "Directory not found"
        else if IsFile(fs, r.comps) then "Target is not a directory"
        else if HasChild(fs, r.comps) then "Directory not empty"
        else "Directory removed")
  {
    if Resolve(fs, root, path).Some? {
      AcceptedIsNoAncestor(fs, root, path);
    }
    hide Resolve, HasChild, Valid;
  }

  lemma MakeDirSaysWhy(fs: FS, root: Path, path: Str)
    requires Valid(fs) && GoodRoot(root)
    ensures MakeDir(fs, root, path).message == Ascii(
      if path in {[], SEP, DOT} then "Invalid directory path" else
      match Resolve(fs, root, path)
      case None => "Invalid path: Path traversal attack detected"
      case Some(r) =>
        if r == Resolved(root, false) then "Cannot recreate root directory"
        else if Found(fs, r) then "Directory already exists"
        else if exists k | 0 <= k <= |r.comps| :: IsFile(fs, r.comps[..k]) then OS_ERROR
        else "Directory created")
  {
    hide Resolve, Valid;
  }

  lemma RenameSaysWhy(fs: FS, root: Path, source: Str, destination: Str)
    requires Valid(fs) && GoodRoot(root)
    ensures Rename(fs, root, source, destination).message == Ascii(
      if source == [] || destination == [] then "Source and destination paths cannot be empty"
      else if source in {SEP, DOT} || destination in {SEP, DOT} then
        "Cannot rename or overwrite the storage root directory"
      else
      match (Resolve(fs, root, source), Resolve(fs, root, destination))
      case (Some(src), Some(dst)) =>
        if src == Resolved(root, false) || dst == Resolved(root, false) then
          "Cannot rename or overwrite the storage root directory"
        else if !Found(fs, src) then "Source file or directory not found"
        else if Found(fs, dst) then "Destination already exists"
        else if RenameAllowed(fs, root, source, destination) then "Renamed successfully"
        else if !Found(fs, ParentPath(dst)) then "Destination parent directory does not exist"
        else if IsDir(fs, src.comps) && !src.trailing && ProperPrefix(src.comps, dst.comps) then
          "Cannot move a directory into itself or its subdirectory"
        else OS_ERROR
      case _ => "Invalid path: Path traversal attack detected")
  {
    hide Resolve, Valid, Found, CanMove;
    var a, b := Resolve(fs, root, source), Resolve(fs, root, destination);
    if a.Some? && b.Some? {
      AcceptedIsNoAncestor(fs, root, source);
      AcceptedIsNoAncestor(fs, root, destination);
      ResolvedRenameSaysWhy(fs, root, a.value, b.value);
    }
    hide RenameResolved, ParentPath;
  }

  lemma ResolvedRenameSaysWhy(fs: FS, root: Path, src: Resolved, dst: Resolved)
    requires Valid(fs) && AllNames(src.comps) && AllNames(dst.comps) && src.comps != [] && dst.comps != []
    ensures RenameResolved(fs, root, src, dst).message == Ascii(
      if src == Resolved(root, false) || dst == Resolved(root, false) then
        "Cannot rename or overwrite the storage root directory"
      else if !Found(fs, src) then "Source file or directory not found"
      else if Found(fs, dst) then "Destination already exists"
      else if !dst.trailing && Exists(fs, src) && CanMove(fs, src.comps, dst.comps) then "Renamed successfully"
      else if !Found(fs, ParentPath(dst)) then "Destination parent directory does not exist"
      else if IsDir(fs, src.comps) && !src.trailing && ProperPrefix(src.comps, dst.comps) then
        "Cannot move a directory into itself or its subdirectory"
      else OS_ERROR)
  {
    hide Valid, IntoItself, FullText, AllNames, Moved, CanMove, OsRenameRefused, Ascii;
    ResolvedRenameIsMove(fs, root, src, dst);
    GuardsLeaveMoves(fs, src, dst);
    RenameGuardExact(src, dst);
    FoundIsExists(fs, src);
    FoundIsExists(fs, dst);
    FoundIsExists(fs, ParentPath(dst));
    assert src.comps == dst.comps && dst.trailing && IsDir(fs, src.comps) ==> Found(fs, dst);
    hide Found, Exists;
  }

  lemma FoundIsExists(fs: FS, r: Resolved)
    ensures Found(fs, r) <==> Exists(fs, r)
  {
  }

  // ---- the services ----

  method DeletePath(files: FileService, path: Str) returns (ok: bool, message: Str)
    modifies files
    ensures Outcome(files.fs, ok, message) == Delete(old(files.fs), files.root, path)
    ensures Valid(old(files.fs)) && GoodRoot(files.root) ==>
      Valid(files.fs) && (ok <==> RemovableAt(old(files.fs), files.root, path))
    ensures Valid(old(files.fs)) && GoodRoot(files.root) ==>
      files.fs == if ok then Without(old(files.fs), files.root, path) else old(files.fs)
  {
    if Valid(files.fs) && GoodRoot(files.root) { DeleteRemovesOneChildlessEntry(files.fs, files.root, path); }
    if path == [] || path == SEP || path == DOT {
      return false, Ascii(DELETE_ROOT);
    }
    var resolved := files.ResolvePath(path);
    if resolved == None {
      return false, Ascii(TRAVERSAL);
    }
    var r := resolved.value;
    if r == Resolved(files.root, false) {
      return false, Ascii(DELETE_ROOT);
    }
    if !Exists(files.fs, r) {
      return false, Ascii("File or directory not found");
    }
    if IsDirectory(files.fs, r) {
      if HasChild(files.fs, r.comps) {
        return false, Ascii("Directory not empty");
      }
    }
    var (fs', removed) := Remove(files.fs, r);
    files.fs := fs';
    if !removed {
      return false, Ascii("Permission denied or unable to delete");
    }
    return true, Ascii("Deleted successfully");
  }

  method RemoveDirectory(files: FileService, path: Str) returns (ok: bool, message: Str)
    modifies files
    ensures Outcome(files.fs, ok, message) == RemoveDir(old(files.fs), files.root, path)
    ensures Valid(old(files.fs)) && GoodRoot(files.root) ==>
      && Valid(files.fs)
      && (ok <==> RemovableAt(old(files.fs), files.root, path)
                  && IsDirectory(old(files.fs), Resolve(old(files.fs), files.root, path).value))
    ensures Valid(old(files.fs)) && GoodRoot(files.root) ==>
      files.fs == if ok then Without(old(files.fs), files.root, path) else old(files.fs)
  {
    if Valid(files.fs) && GoodRoot(files.root) {
      DeleteRemovesOneChildlessEntry(files.fs, files.root, path);
      RemoveDirIsDeleteOfDirectory(files.fs, files.root, path);
    }
    if path == [] || path == SEP || path == DOT {
      return false, Ascii(DELETE_ROOT);
    }
    var resolved := files.ResolvePath(path);
    if resolved == None {
      return false, Ascii(TRAVERSAL);
    }
    var r := resolved.value;
    if r == Resolved(files.root, false) {
      return false, Ascii(DELETE_ROOT);
    }
    if !Exists(files.fs, r) {
      return false, Ascii("Directory not found");
    }
    if !IsDirectory(files.fs, r) {
      return false, Ascii("Target is not a directory");
    }
    if HasChild(files.fs, r.comps) {
      return false, Ascii("Directory not empty");
    }
    var (fs', removed) := Remove(files.fs, r);
    files.fs := fs';
    if !removed {
      return false, Ascii("Unable to remove directory");
    }
    return true, Ascii("Directory removed");
  }

  method CreateDirectory(files: FileService, path: Str) returns (ok: bool, message: Str)
    modifies files
    ensures Outcome(files.fs, ok, message) == MakeDir(old(files.fs), files.root, path)
    ensures Valid(old(files.fs)) && GoodRoot(files.root) ==>
      Valid(files.fs) && (ok <==> CreatableAt(old(files.fs), files.root, path))
    ensures Valid(old(files.fs)) && GoodRoot(files.root) ==>
      if ok then PrefixesAdded(old(files.fs), files.fs, Resolve(old(files.fs), files.root, path).value.comps)
      else files.fs == old(files.fs)
  {
    if Valid(files.fs) && GoodRoot(files.root) { MakeDirAddsMissingPrefixes(files.fs, files.root, path); }
    if path == [] || path == SEP || path == DOT {
      return false, Ascii("Invalid directory path");
    }
    var resolved := files.ResolvePath(path);
    if resolved == None {
      return false, Ascii(TRAVERSAL);
    }
    var r := resolved.value;
    if r == Resolved(files.root, false) {
      return false, Ascii("Cannot recreate root directory");
    }
    if Exists(files.fs, r) {
      return false, Ascii("Directory already exists");
    }
    var (fs', created) := CreateDirectories(files.fs, r.comps);
    files.fs := fs';
    if !created {
      return false, Ascii(OS_ERROR);
    }
    return true, Ascii("Directory created");
  }

  method RenamePath(files: FileService, source: Str, destination: Str) returns (ok: bool, message: Str)
    modifies files
    ensures Outcome(files.fs, ok, message) == Rename(old(files.fs), files.root, source, destination)
    ensures Valid(old(files.fs)) && GoodRoot(files.root) ==>
      MovesOrLeaves(old(files.fs), files.root, source, destination, ok, files.fs)
  {
    RenameMovesOrLeaves(files.fs, files.root, source, destination);
    hide Valid, GoodRoot, MovesOrLeaves, Moved, Resolve, OsRename, FullText, Exists, IsDirectory;
    if source == [] || destination == [] {
      return false, Ascii("Source and destination paths cannot be empty");
    }
    if source == SEP || source == DOT || destination == SEP || destination == DOT {
      return false, Ascii(RENAME_ROOT);
    }
    var srcPath := files.ResolvePath(source);
    var dstPath := files.ResolvePath(destination);
    if srcPath == None || dstPath == None {
      return false, Ascii(TRAVERSAL);
    }
    var src, dst := srcPath.value, dstPath.value;
    if src == Resolved(files.root, false) || dst == Resolved(files.root, false) {
      return false, Ascii(RENAME_ROOT);
    }
    if !Exists(files.fs, src) {
      return false, Ascii("Source file or directory not found");
    }
    if Exists(files.fs, dst) {
      return false, Ascii("Destination already exists");
    }
    if !Exists(files.fs, ParentPath(dst)) {
      return false, Ascii("Destination parent directory does not exist");
    }
    if IsDirectory(files.fs, src) {
      if FullText(src) + SEP <= FullText(dst) {
        return false, Ascii("Cannot move a directory into itself or its subdirectory");
      }
    }
    var (fs', renamed) := OsRename(files.fs, src, dst);
    files.fs := fs';
    if !renamed {
      return false, Ascii(OS_ERROR);
    }
    return true, Ascii("Renamed successfully");
  }
}
