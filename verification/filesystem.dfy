/**
 * The storage tree: absolute component paths to nodes, file nodes to inodes, inodes to contents.
 * exists, is_directory, remove, rename, create_directories and opening a file are primitives on it;
 * there are no symbolic or hard links.
 */
module FileSystem {
  import opened Bytes
  import opened Paths

  datatype Node = Dir | File(ino: nat)

  /** An unlinked inode stays in data: a stream that has it open can still write to it. */
  datatype FS = FS(tree: map<Path, Node>, data: map<nat, seq<byte>>, next: nat)

  /** A normalised absolute path, which ends in a separator when it is `trailing`. */
  datatype Resolved = Resolved(comps: Path, trailing: bool)

  function Parent(p: Path): Path {
    if p == [] then [] else p[..|p| - 1]
  }

  predicate IsDir(fs: FS, p: Path) {
    p in fs.tree && fs.tree[p].Dir?
  }

  predicate IsFile(fs: FS, p: Path) {
    p in fs.tree && fs.tree[p].File?
  }

  /** "/" is there, and every entry lies in an existing directory: no orphans, hence no cycles. */
  ghost predicate Rooted(fs: FS) {
    IsDir(fs, []) && forall p {:trigger Parent(p)} | p in fs.tree && p != [] :: IsDir(fs, Parent(p))
  }

  /** Each file has an inode of its own, and new inode numbers are new. */
  ghost predicate InodesValid(fs: FS) {
    && (forall p | p in fs.tree && fs.tree[p].File? :: fs.tree[p].ino in fs.data)
    && (forall p, q | p in fs.tree && q in fs.tree && fs.tree[p].File? && fs.tree[p] == fs.tree[q] :: p == q)
    && (forall i | i in fs.data :: i < fs.next)
  }

  ghost predicate Valid(fs: FS) {
    Rooted(fs) && InodesValid(fs)
  }

  lemma {:induction false} PrefixesExist(fs: FS, p: Path, k: nat)
    requires Rooted(fs) && p in fs.tree && k <= |p|
    ensures p[..k] in fs.tree && (k < |p| ==> IsDir(fs, p[..k]))
    decreases |p|
  {
    if k == |p| {
      assert p[..k] == p;
    } else {
      assert Parent(p)[..k] == p[..k];
      PrefixesExist(fs, Parent(p), k);
      if k == |p| - 1 {
        assert p[..k] == Parent(p);
      }
    }
  }

  // ---- primitives ----

  predicate Exists(fs: FS, r: Resolved) {
    r.comps in fs.tree && (r.trailing ==> fs.tree[r.comps].Dir?)
  }

  predicate IsDirectory(fs: FS, r: Resolved) {
    IsDir(fs, r.comps)
  }

  /** directory_iterator finds something. */
  predicate HasChild(fs: FS, p: Path) {
    exists q | q in fs.tree :: |q| == |p| + 1 && q[..|p|] == p
  }

  /** std::filesystem::remove: a file, or a directory with nothing in it. */
  function Remove(fs: FS, r: Resolved): (FS, bool) {
    if !Exists(fs, r) || r.comps == [] || HasChild(fs, r.comps) then (fs, false)
    else (fs.(tree := fs.tree - {r.comps}), true)
  }

  function Prefixes(p: Path): set<Path> {
    set k | 0 <= k <= |p| :: p[..k]
  }

  /** std::filesystem::create_directories: fails before creating anything when a file is in the way. */
  function CreateDirectories(fs: FS, p: Path): (FS, bool) {
    if exists k | 0 <= k <= |p| :: IsFile(fs, p[..k]) then (fs, false)
    else (fs.(tree := fs.tree + map q | q in Prefixes(p) :: Dir), true)
  }

  /** Opening dir/filename for writing with truncation; the inode the stream then writes to. */
  function OpenTrunc(fs: FS, dir: Path, filename: Str): (r: Option<(FS, nat)>) {
    var p := dir + [filename];
    if !IsDir(fs, dir) || filename == DOT || filename == DOTDOT || IsDir(fs, p) then None
    else if IsFile(fs, p) then
      var ino := fs.tree[p].ino;
      Some((fs.(data := fs.data[ino := []]), ino))
    else
      Some((FS(fs.tree[p := File(fs.next)], fs.data[fs.next := []], fs.next + 1), fs.next))
  }

  function Content(fs: FS, ino: nat): seq<byte> {
    if ino in fs.data then fs.data[ino] else []
  }

  function Zeros(n: nat): seq<byte> {
    seq(n, _ => 0)
  }

  /** bytes written over old content from position pos on, a gap filled with zeros. */
  function Overlay(before: seq<byte>, pos: nat, bytes: seq<byte>): seq<byte> {
    (if pos <= |before| then before[..pos] else before + Zeros(pos - |before|))
    + bytes
    + (if pos + |bytes| <= |before| then before[pos + |bytes|..] else [])
  }

  function WriteAt(fs: FS, ino: nat, pos: nat, bytes: seq<byte>): FS {
    fs.(data := fs.data[ino := Overlay(Content(fs, ino), pos, bytes)])
  }

  function NodeAt(tree: map<Path, Node>, p: Path): Node {
    if p in tree then tree[p] else Dir
  }

  function MovedKeys(tree: map<Path, Node>, src: Path, dst: Path): set<Path> {
    (set p | p in tree && !(src <= p) && !(dst <= p)) + (set p | p in tree && src <= p :: dst + p[|src|..])
  }

  /** The tree with everything at and below src now at and below dst, replacing what dst was. */
  function Moved(tree: map<Path, Node>, src: Path, dst: Path): map<Path, Node> {
    map p | p in MovedKeys(tree, src, dst) ::
      if dst <= p then NodeAt(tree, src + p[|dst|..]) else NodeAt(tree, p)
  }

  /** What rename(2) refuses: the error cases of POSIX that a tree without links can have. */
  predicate OsRenameRefused(fs: FS, src: Resolved, dst: Resolved) {
    || !Exists(fs, src) || src.comps == [] || dst.comps == []
    || !IsDir(fs, Parent(dst.comps))
    || ProperPrefix(src.comps, dst.comps)
    || (dst.trailing && IsFile(fs, src.comps))
    || (IsFile(fs, dst.comps) && (dst.trailing || IsDir(fs, src.comps)))
    || (IsDir(fs, dst.comps) && (IsFile(fs, src.comps) || HasChild(fs, dst.comps)))
  }

  /** std::filesystem::rename, which replaces a file or an empty directory at the destination. */
  function OsRename(fs: FS, src: Resolved, dst: Resolved): (FS, bool) {
    if OsRenameRefused(fs, src, dst) then (fs, false)
    else if src.comps == dst.comps then (fs, true)
    else (fs.(tree := Moved(fs.tree, src.comps, dst.comps)), true)
  }

  // ---- what the primitives keep ----

  lemma RemoveKeepsValid(fs: FS, r: Resolved)
    requires Valid(fs)
    ensures Valid(Remove(fs, r).0)
  {
    var (fs', ok) := Remove(fs, r);
    if ok {
      forall p | p in fs'.tree && p != []
        ensures IsDir(fs', Parent(p))
      {
        assert IsDir(fs, Parent(p));
        if Parent(p) == r.comps { assert false; }
      }
    }
  }

  lemma PrefixesArePrefixes(p: Path)
    ensures forall q :: q in Prefixes(p) <==> q <= p
  {
    forall q
      ensures q in Prefixes(p) <==> q <= p
    {
      if q <= p {
        assert q == p[..|q|];
      }
    }
  }

  /** Exactly the missing prefixes appear, as directories. */
  lemma CreateDirectoriesAddsPrefixes(fs: FS, p: Path)
    requires Valid(fs)
    ensures var (fs', ok) := CreateDirectories(fs, p);
      && Valid(fs')
      && (ok <==> forall k | 0 <= k <= |p| :: p[..k] in fs.tree ==> IsDir(fs, p[..k]))
      && (ok ==> IsDir(fs', p))
      && (ok ==> forall q :: q in fs'.tree <==> q in fs.tree || q <= p)
      && (ok ==> forall q | q in fs'.tree :: fs'.tree[q] == if q in fs.tree then fs.tree[q] else Dir)
      && fs'.data == fs.data && fs'.next == fs.next
  {
    var (fs', ok) := CreateDirectories(fs, p);
    PrefixesArePrefixes(p);
    assert ok <==> forall k | 0 <= k <= |p| :: p[..k] in fs.tree ==> IsDir(fs, p[..k]);
    if ok {
      assert forall q | q in Prefixes(p) && q in fs.tree :: fs.tree[q] == Dir by {
        forall q | q in Prefixes(p) && q in fs.tree
          ensures fs.tree[q] == Dir
        {
          assert q == p[..|q|];
        }
      }
      hide CreateDirectories, Prefixes;
      AddingPrefixesKeepsValid(fs, fs', p);
    }
  }

  lemma AddingPrefixesKeepsValid(fs: FS, fs': FS, p: Path)
    requires Valid(fs) && fs'.data == fs.data && fs'.next == fs.next
    requires forall q :: q in fs'.tree <==> q in fs.tree || q <= p
    requires forall q | q in fs'.tree :: fs'.tree[q] == if q in fs.tree then fs.tree[q] else Dir
    requires forall q | q <= p && q in fs.tree :: fs.tree[q] == Dir
    ensures Valid(fs')
  {
    forall q | q in fs'.tree && q != []
      ensures IsDir(fs', Parent(q))
    {
      if q <= p {
        assert Parent(q) <= p;
      } else {
        assert IsDir(fs, Parent(q));
      }
    }
  }

  lemma OpenTruncKeepsValid(fs: FS, dir: Path, filename: Str)
    requires Valid(fs) && OpenTrunc(fs, dir, filename).Some?
    ensures var (fs', ino) := OpenTrunc(fs, dir, filename).value;
      && Valid(fs')
      && fs'.tree == fs.tree[dir + [filename] := File(ino)]
      && fs'.data == fs.data[ino := []]
      && (ino in fs.data <==> IsFile(fs, dir + [filename]))
  {
    var (fs', ino) := OpenTrunc(fs, dir, filename).value;
    var p := dir + [filename];
    assert Parent(p) == dir;
    forall q | q in fs'.tree && q != []
      ensures IsDir(fs', Parent(q))
    {
      if q != p {
        assert IsDir(fs, Parent(q));
      }
    }
  }

  // ---- rename ----

  /** When moving src to dst is a move of one subtree to a free place. */
  ghost predicate CanMove(fs: FS, src: Path, dst: Path) {
    && src != [] && src in fs.tree
    && dst != [] && dst !in fs.tree && IsDir(fs, Parent(dst))
    && !ProperPrefix(src, dst)
  }

  lemma NothingBelowMissing(fs: FS, dst: Path, p: Path)
    requires Rooted(fs) && dst !in fs.tree && p in fs.tree
    ensures !(dst <= p)
  {
    assert dst <= p ==> p[..|dst|] == dst;
    if dst <= p {
      PrefixesExist(fs, p, |dst|);
    }
  }

  lemma MovedOutside(fs: FS, src: Path, dst: Path, p: Path)
    requires Rooted(fs) && CanMove(fs, src, dst)
    requires !(dst <= p)
    ensures p in Moved(fs.tree, src, dst) <==> p in fs.tree && !(src <= p)
    ensures p in Moved(fs.tree, src, dst) ==> Moved(fs.tree, src, dst)[p] == fs.tree[p]
  {
    forall q | q in fs.tree && src <= q
      ensures dst <= dst + q[|src|..]
    {
    }
  }

  lemma MovedInside(fs: FS, src: Path, dst: Path, q: Path)
    requires Rooted(fs) && CanMove(fs, src, dst)
    ensures dst + q in Moved(fs.tree, src, dst) <==> src + q in fs.tree
    ensures src + q in fs.tree ==> Moved(fs.tree, src, dst)[dst + q] == fs.tree[src + q]
  {
    var p := dst + q;
    assert p[|dst|..] == q;
    if src + q in fs.tree {
      assert (src + q)[|src|..] == q;
    }
    if p in MovedKeys(fs.tree, src, dst) {
      if s :| s in fs.tree && src <= s && p == dst + s[|src|..] {
        assert s == src + s[|src|..];
        assert s[|src|..] == q;
      }
    }
  }

  /** The subtree move keeps the tree rooted and the inodes apart. */
  lemma MovedKeepsValid(fs: FS, src: Path, dst: Path)
    requires Valid(fs) && CanMove(fs, src, dst)
    ensures Valid(fs.(tree := Moved(fs.tree, src, dst)))
  {
    hide Moved;
    var fs' := fs.(tree := Moved(fs.tree, src, dst));
    assert !(dst <= []) && !(src <= []);
    MovedOutside(fs, src, dst, []);
    forall p | p in fs'.tree && p != []
      ensures IsDir(fs', Parent(p))
    {
      MovedParent(fs, src, dst, p);
    }
    forall p, q | p in fs'.tree && q in fs'.tree && fs'.tree[p].File? && fs'.tree[p] == fs'.tree[q]
      ensures p == q && fs'.tree[p].ino in fs.data
    {
      var p0 := MovedFrom(fs, src, dst, p);
      var q0 := MovedFrom(fs, src, dst, q);
    }
  }

  /** Where an entry of the moved tree came from. */
  lemma MovedFrom(fs: FS, src: Path, dst: Path, p: Path) returns (p0: Path)
    requires Rooted(fs) && CanMove(fs, src, dst) && p in Moved(fs.tree, src, dst)
    ensures p0 in fs.tree && fs.tree[p0] == Moved(fs.tree, src, dst)[p]
    ensures p == if src <= p0 then dst + p0[|src|..] else p0
  {
    if dst <= p {
      var q := p[|dst|..];
      assert p == dst + q;
      MovedInside(fs, src, dst, q);
      p0 := src + q;
      assert p0[|src|..] == q;
    } else {
      MovedOutside(fs, src, dst, p);
      p0 := p;
    }
  }

  lemma MovedParent(fs: FS, src: Path, dst: Path, p: Path)
    requires Rooted(fs) && CanMove(fs, src, dst) && p in Moved(fs.tree, src, dst) && p != []
    ensures IsDir(fs.(tree := Moved(fs.tree, src, dst)), Parent(p))
  {
    hide Moved;
    if dst <= p && p != dst {
      var q := p[|dst|..];
      assert p == dst + q && q != [];
      MovedInside(fs, src, dst, q);
      assert Parent(src + q) == src + Parent(q) && Parent(p) == dst + Parent(q);
      MovedInside(fs, src, dst, Parent(q));
    } else {
      var up := Parent(p);
      assert !(dst <= up);
      MovedOutside(fs, src, dst, up);
      if p == dst {
        assert src <= up ==> ProperPrefix(src, dst);
      } else {
        MovedOutside(fs, src, dst, p);
        assert !(src <= up);
      }
    }
  }

  /** Moving back undoes the move. */
  lemma MoveBack(fs: FS, src: Path, dst: Path)
    requires Valid(fs) && CanMove(fs, src, dst)
    ensures CanMove(fs.(tree := Moved(fs.tree, src, dst)), dst, src)
    ensures Moved(Moved(fs.tree, src, dst), dst, src) == fs.tree
  {
    hide Moved;
    var fs' := fs.(tree := Moved(fs.tree, src, dst));
    MovedKeepsValid(fs, src, dst);
    MoveBackIsPossible(fs, src, dst);
    var t := Moved(fs'.tree, dst, src);
    forall p
      ensures p in t <==> p in fs.tree
      ensures p in t ==> t[p] == fs.tree[p]
    {
      if src <= p {
        var q := p[|src|..];
        assert p == src + q;
        MovedInside(fs', dst, src, q);
        MovedInside(fs, src, dst, q);
      } else {
        MovedOutside(fs', dst, src, p);
        if dst <= p {
          if p in fs.tree { NothingBelowMissing(fs, dst, p); }
        } else {
          MovedOutside(fs, src, dst, p);
        }
      }
    }
  }

  lemma MoveBackIsPossible(fs: FS, src: Path, dst: Path)
    requires Valid(fs) && CanMove(fs, src, dst)
    ensures CanMove(fs.(tree := Moved(fs.tree, src, dst)), dst, src)
  {
    hide Moved;
    var fs' := fs.(tree := Moved(fs.tree, src, dst));
    assert dst + [] == dst && src + [] == src;
    MovedInside(fs, src, dst, []);
    NothingBelowMissing(fs, dst, src);
    MovedOutside(fs, src, dst, src);
    var up := Parent(src);
    assert IsDir(fs, up);
    NothingBelowMissing(fs, dst, up);
    MovedOutside(fs, src, dst, up);
    assert !ProperPrefix(dst, src);
  }

  /** The move is a bijection on entries: none is lost, none is added. */
  lemma MovedSameSize(fs: FS, src: Path, dst: Path)
    requires Valid(fs) && CanMove(fs, src, dst)
    ensures |Moved(fs.tree, src, dst)| == |fs.tree|
  {
    hide Moved;
    MoveBack(fs, src, dst);
    MovedNotLarger(fs.tree, src, dst);
    MovedNotLarger(Moved(fs.tree, src, dst), dst, src);
  }

  lemma MovedNotLarger(tree: map<Path, Node>, src: Path, dst: Path)
    ensures |Moved(tree, src, dst)| <= |tree|
  {
    var outside := set p | p in tree && !(src <= p) && !(dst <= p);
    var inside := set p | p in tree && src <= p;
    var image := set p | p in inside :: dst + p[|src|..];
    MovedKeysSplit(tree, src, dst, outside, inside, image);
    hide Moved;
    ImageNotLarger(inside, image, |src|, dst);
    SizesAdd(outside, inside, image, tree.Keys);
    assert |Moved(tree, src, dst)| == |Moved(tree, src, dst).Keys|;
  }

  lemma MovedKeysSplit(tree: map<Path, Node>, src: Path, dst: Path, outside: set<Path>, inside: set<Path>,
                       image: set<Path>)
    requires outside == set p | p in tree && !(src <= p) && !(dst <= p)
    requires inside == set p | p in tree && src <= p
    requires image == set p | p in inside :: dst + p[|src|..]
    ensures Moved(tree, src, dst).Keys == outside + image
  {
  }

  lemma SizesAdd<T>(outside: set<T>, inside: set<T>, image: set<T>, all: set<T>)
    requires outside !! inside && outside + inside <= all && |image| <= |inside|
    ensures |outside + image| <= |all|
  {
    SubsetSize(outside + inside, all);
    assert |outside + image| <= |outside| + |image|;
  }

  lemma {:induction false} ImageNotLarger(s: set<Path>, image: set<Path>, n: nat, dst: Path)
    requires forall p | p in s :: n <= |p|
    requires image == set p | p in s :: dst + p[n..]
    ensures |image| <= |s|
    decreases s
  {
    if s == {} {
      assert image == {};
    } else {
      var x :| x in s;
      var rest := s - {x};
      var image' := set p | p in rest :: dst + p[n..];
      ImageNotLarger(rest, image', n, dst);
      assert image == image' + {dst + x[n..]};
    }
  }

  lemma {:induction false} SubsetSize<T>(a: set<T>, b: set<T>)
    requires a <= b
    ensures |a| <= |b|
  {
    assert |b| == |a| + |b - a| by { assert b == a + (b - a); }
  }

  // ---- path resolution ----

  /** Following components from a directory as the kernel does: each step needs a directory to start from. */
  function Lookup(fs: FS, at: Path, cs: Path): Option<Path>
    decreases |cs|
  {
    if cs == [] then (if at in fs.tree then Some(at) else None)
    else if !IsDir(fs, at) then None
    else Lookup(fs, Go(at, cs[0]), cs[1..])
  }

  /** A last component that leaves a lexically normalised path with a trailing separator. */
  predicate EndsOpen(c: Str) {
    c == [] || c == DOT || c == DOTDOT
  }

  /** weakly_canonical: canonical when the target exists, lexically normal otherwise. */
  function WeaklyCanonical(fs: FS, raw: Path): Resolved
    requires raw != []
  {
    match Lookup(fs, [], raw)
    case Some(p) => Resolved(p, false)
    case None =>
      var p := Walk([], raw);
      Resolved(p, p != [] && EndsOpen(raw[|raw| - 1]))
  }

  function FullText(r: Resolved): Str {
    PathText(r.comps) + if r.trailing then SEP else []
  }

  /** FileService::resolvePath; None is the traversal exception. */
  function Resolve(fs: FS, root: Path, relative: Str): Option<Resolved> {
    var r := WeaklyCanonical(fs, root + Split(Strip(relative)));
    if PathText(root) <= FullText(r) then Some(r) else None
  }

  /** A storage root: an absolute directory path other than "/". */
  predicate GoodRoot(root: Path) {
    root != [] && AllNames(root)
  }

  lemma {:induction false} LookupIsWalk(fs: FS, at: Path, cs: Path)
    requires Lookup(fs, at, cs).Some?
    ensures Lookup(fs, at, cs).value == Walk(at, cs) && Walk(at, cs) in fs.tree
    decreases |cs|
  {
    if cs != [] {
      LookupIsWalk(fs, Go(at, cs[0]), cs[1..]);
    }
  }

  /** Walking down an existing path changes nothing but the starting point. */
  lemma {:induction false} LookupThroughNames(fs: FS, at: Path, names: Path, cs: Path)
    requires Rooted(fs) && AllNames(names) && IsDir(fs, at + names)
    ensures Lookup(fs, at, names + cs) == Lookup(fs, at + names, cs)
    decreases |names|
  {
    if names == [] {
      assert at + names == at && names + cs == cs;
    } else {
      PrefixesExist(fs, at + names, |at|);
      assert (at + names)[..|at|] == at;
      assert (names + cs)[1..] == names[1..] + cs;
      assert at + [names[0]] + names[1..] == at + names;
      LookupThroughNames(fs, at + [names[0]], names[1..], cs);
    }
  }

  /** Existing or not, the resolved components are those of the lexical walk from the storage root. */
  lemma ResolvedComponents(fs: FS, root: Path, relative: Str)
    requires GoodRoot(root)
    ensures var r := WeaklyCanonical(fs, root + Split(Strip(relative)));
      && r.comps == Walk(root, Split(Strip(relative)))
      && AllNames(r.comps)
      && (r.trailing ==> r.comps != [])
  {
    var cs := Split(Strip(relative));
    var raw := root + cs;
    if Lookup(fs, [], raw).Some? {
      LookupIsWalk(fs, [], raw);
    }
    WalkAppend([], root, cs);
    WalkNames([], root);
    assert [] + root == root;
    SplitPieces(Strip(relative));
    WalkKeepsNames(root, cs);
  }

  /** An accepted path is textually behind the root, so never the root's ancestor. */
  lemma AcceptedIsNoAncestor(fs: FS, root: Path, relative: Str)
    requires GoodRoot(root) && Resolve(fs, root, relative).Some?
    ensures !ProperPrefix(Resolve(fs, root, relative).value.comps, root)
    ensures AllNames(Resolve(fs, root, relative).value.comps)
    ensures Text(root) <= FullText(Resolve(fs, root, relative).value)
    ensures Resolve(fs, root, relative).value.comps != []
  {
    ResolvedComponents(fs, root, relative);
    var r := Resolve(fs, root, relative).value;
    assert |Text(root)| > 1 && (r.comps == [] ==> FullText(r) == SEP);
    if ProperPrefix(r.comps, root) {
      SlashPrefixIsProperPrefix(r.comps, root, []);
      assert Text(root) + [] == Text(root);
      assert |FullText(r)| <= |Text(r.comps)| + 1 <= |Text(root)|;
      assert Text(root) == FullText(r) == Text(r.comps) + SEP;
      LastIsNoSlash(root);
    }
  }

  lemma TrailingIsIrrelevant(root: Path, comps: Path)
    requires GoodRoot(root)
    ensures Text(root) <= PathText(comps) + SEP <==> Text(root) <= PathText(comps)
  {
    var s := PathText(comps);
    LastIsNoSlash(root);
    if Text(root) <= s + SEP {
      assert |Text(root)| == |s| + 1 ==> Text(root) == s + SEP;
    }
  }

  /**
   * Which paths are accepted, by the components that the request names: those whose walk from the root shares all but
   * the last of the root's components, and whose next component begins with the root's name. Such a path is inside the
   * root exactly if that component is the root's name; all others are siblings whose name extends it, or lie in one.
   */
  lemma AcceptedExactly(fs: FS, root: Path, relative: Str)
    requires GoodRoot(root)
    ensures var cs, n := Walk(root, Split(Strip(relative))), |root| - 1;
      && (Resolve(fs, root, relative).Some? <==> n < |cs| && root[..n] == cs[..n] && root[n] <= cs[n])
      && (Resolve(fs, root, relative).Some? ==>
            && Resolve(fs, root, relative).value.comps == cs
            && (root <= cs <==> cs[n] == root[n]))
  {
    hide Walk, Split, Strip, Lookup, Text;
    var cs, n := Walk(root, Split(Strip(relative))), |root| - 1;
    ResolvedComponents(fs, root, relative);
    TrailingIsIrrelevant(root, cs);
    assert PathText(cs) + [] == PathText(cs);
    assert root == root[..n] + [root[n]];
    TextPrefixByComponents(root[..n], root[n], cs);
    if cs == [] {
      LongText(root);
    }
    if n < |cs| && root[..n] == cs[..n] {
      assert root == root[..n] + [root[n]];
      assert root <= cs <==> cs[n] == root[n];
    }
  }

  lemma LongText(root: Path)
    requires GoodRoot(root)
    ensures |Text(root)| > 1
  {
  }

  /** The string test is containment of components wherever the root's text ends at a boundary. */
  lemma AcceptedIsInsideExactlyAtBoundary(fs: FS, root: Path, relative: Str)
    requires GoodRoot(root) && Resolve(fs, root, relative).Some?
    ensures var r := Resolve(fs, root, relative).value;
      root <= r.comps <==> AtBoundary(FullText(r)[|Text(root)|..])
  {
    AcceptedIsNoAncestor(fs, root, relative);
    var r := Resolve(fs, root, relative).value;
    var v: Str := if r.trailing then SEP else [];
    assert FullText(r) == Text(r.comps) + v;
    BoundaryPrefixIsContainment(root, r.comps, v);
  }

  /** Resolution in an existing storage root, from the parts of the path. */
  lemma ResolveBehindRoot(fs: FS, root: Path, relative: Str, cs: Path)
    requires Rooted(fs) && GoodRoot(root) && IsDir(fs, root)
    requires Split(Strip(relative)) == cs && root <= Walk(root, cs)
    ensures Resolve(fs, root, relative)
         == Some(Resolved(Walk(root, cs), Lookup(fs, root, cs) == None && EndsOpen(cs[|cs| - 1])))
  {
    hide Split, Strip, Walk, Lookup;
    ResolvedComponents(fs, root, relative);
    assert [] + root == root;
    LookupThroughNames(fs, [], root, cs);
    assert (root + cs)[|root + cs| - 1] == cs[|cs| - 1];
    InsideIsAccepted(root, WeaklyCanonical(fs, root + cs));
    if Lookup(fs, root, cs).Some? {
      LookupIsWalk(fs, root, cs);
    }
    assert Walk(root, cs) != [];
  }

  /**
   * The prefix test compares characters: a sibling of the storage root whose name extends the root's name passes it,
   * with whatever is below it.
   */
  lemma SiblingIsAccepted(fs: FS, above: Path, name: Str, extra: Str)
    requires AllNames(above) && IsName(name) && extra != [] && SLASH !in extra
    ensures var r := Resolve(fs, above + [name], DOTDOT + SEP + (name + extra));
      r.Some? && r.value.comps == above + [name + extra] && !(above + [name] <= r.value.comps)
  {
    var root := above + [name];
    var sibling: Str := name + extra;
    var path := DOTDOT + SEP + sibling;
    SplitComponent(DOTDOT, sibling);
    SplitComponent(sibling, []);
    assert Strip(path) == path;
    var cs := [DOTDOT, sibling];
    assert [DOTDOT] + [sibling] == cs;
    WalkToSibling(above, name, sibling);
    assert root[|above|] == name && (above + [sibling])[|above|] == sibling;
    hide Split, Strip, Walk, Text;
    ResolvedComponents(fs, root, path);
    SiblingTexts(above, name, extra);
  }

  lemma WalkToSibling(above: Path, name: Str, sibling: Str)
    requires IsName(sibling)
    ensures Walk(above + [name], [DOTDOT, sibling]) == above + [sibling]
  {
    var cs := [DOTDOT, sibling];
    assert cs[1..] == [sibling] && [sibling][1..] == [];
    assert (above + [name])[..|above|] == above;
    assert Walk(above + [name], cs) == Walk(above, [sibling]);
  }

  lemma SiblingTexts(above: Path, name: Str, extra: Str)
    ensures Text(above + [name]) <= Text(above + [name + extra])
  {
    TextAppend(above, [name]);
    TextAppend(above, [name + extra]);
    assert Text([name]) == SEP + name + [] && Text([name + extra]) == SEP + (name + extra) + [];
    assert Text(above) + (SEP + (name + extra)) == Text(above) + (SEP + name) + extra;
  }

  lemma InsideIsAccepted(root: Path, r: Resolved)
    requires GoodRoot(root) && root <= r.comps && AllNames(r.comps)
    ensures PathText(root) <= FullText(r)
  {
    var v: Str := if r.trailing then SEP else [];
    BoundaryPrefixIsContainment(root, r.comps, v);
  }
}
