/** The desktop client's remote pane: its own path normaliser, and how it agrees with the server's. */
module RemoteBrowser {
  import opened Bytes
  import opened Paths
  import opened FileSystem

  /** The normal form of a path, as text. */
  function Normalize(path: Str): Str {
    PathText(Walk([], Split(path)))
  }

  /** p.posix.dirname of an absolute path without a trailing separator. */
  function Dirname(path: Str): Str
    requires path != [] && path[0] == SLASH
  {
    var i := LastSlash(path);
    if i == 0 then SEP else path[..i]
  }

  function LastSlash(path: Str): (i: nat)
    requires path != [] && path[0] == SLASH
    ensures i < |path| && path[i] == SLASH
  {
    var n := |path| - 1;
    if path[n] == SLASH then n else LastSlash(path[..n])
  }

  /** where((s) => s.isNotEmpty && s != '.') */
  function Kept(parts: Path): Path {
    if parts == [] then [] else
    (if parts[0] != [] && parts[0] != DOT then [parts[0]] else []) + Kept(parts[1..])
  }

  lemma {:induction false} WalkOfKept(at: Path, parts: Path)
    ensures Walk(at, Kept(parts)) == Walk(at, parts)
    decreases |parts|
  {
    if parts != [] {
      if parts[0] != [] && parts[0] != DOT {
        assert Kept(parts)[1..] == Kept(parts[1..]);
      } else {
        assert Kept(parts) == Kept(parts[1..]);
      }
      WalkOfKept(Go(at, parts[0]), parts[1..]);
    }
  }

  lemma {:induction false} KeptIsSolid(parts: Path)
    ensures forall c | c in Kept(parts) :: c != [] && c != DOT
  {
    if parts != [] {
      KeptIsSolid(parts[1..]);
    }
  }

  lemma WalkSnoc(at: Path, cs: Path, c: Str)
    ensures Walk(at, cs + [c]) == Go(Walk(at, cs), c)
  {
    WalkAppend(at, cs, [c]);
    assert [c][1..] == [];
  }

  /** navigateUp, n times over. */
  function UpTimes(at: Path, n: nat): Path {
    if n == 0 then at else UpTimes(Parent(at), n - 1)
  }

  lemma RootOnly(at: Path)
    requires AllNames(at)
    ensures PathText(at) != []
    ensures PathText(at) == SEP <==> at == []
  {
    if at != [] {
      assert |Text(at)| >= 2;
    }
  }

  /** From any directory "/" is reached in exactly as many steps up as the directory is deep, each dropping one name. */
  lemma {:induction false} DepthManyStepsUp(at: Path, n: nat)
    ensures UpTimes(at, n) == if n <= |at| then at[..|at| - n] else []
    ensures AllNames(at) ==> (PathText(UpTimes(at, n)) == SEP <==> n >= |at|)
    decreases n
  {
    if n == 0 {
      assert at[..|at|] == at;
    } else {
      DepthManyStepsUp(Parent(at), n - 1);
      if n <= |at| {
        assert Parent(at)[..|at| - n] == at[..|at| - n];
      }
    }
    if AllNames(at) {
      RootOnly(UpTimes(at, n));
    }
  }

  /** A normal form is absolute, and walking its parts leads where it says. */
  lemma NormalFormWalksToItself(cs: Path)
    requires AllNames(cs)
    ensures Walk([], Split(PathText(cs))) == cs
  {
    SplitOfPathText(cs);
    var parts := Split(PathText(cs));
    if cs == [] {
      WalkOfSlash([]);
    } else {
      assert parts[1..] == cs;
      WalkNames([], cs);
      assert [] + cs == cs;
    }
  }

  /** The normal form is absolute, made of proper names only, and its own normal form. */
  lemma NormalizeIsNormalForm(path: Str)
    ensures AllNames(Walk([], Split(path)))
    ensures Normalize(path) != [] && Normalize(path)[0] == SLASH
    ensures Normalize(Normalize(path)) == Normalize(path)
  {
    SplitPieces(path);
    WalkKeepsNames([], Split(path));
    NormalFormWalksToItself(Walk([], Split(path)));
  }

  lemma {:induction false} LastSlashBefore(prefix: Str, c: Str)
    requires SLASH !in c
    requires prefix == [] || prefix[0] == SLASH
    ensures LastSlash(prefix + SEP + c) == |prefix|
  {
    var s := prefix + SEP + c;
    if c == [] {
    } else {
      var n := |c| - 1;
      assert s[|s| - 1] == c[n];
      assert s[..|s| - 1] == prefix + SEP + c[..n];
      LastSlashBefore(prefix, c[..n]);
    }
  }

  lemma DirnameIsParent(at: Path)
    requires AllNames(at) && at != []
    ensures PathText(at)[0] == SLASH
    ensures Dirname(PathText(at)) == PathText(Parent(at))
  {
    var n := |at| - 1;
    TextAppend(at[..n], [at[n]]);
    assert at[..n] + [at[n]] == at;
    assert Text([at[n]]) == SEP + at[n];
    var prefix := Text(at[..n]);
    assert Text(at) == prefix + SEP + at[n];
    LastSlashBefore(prefix, at[n]);
    assert (prefix + SEP + at[n])[..|prefix|] == prefix;
    assert n > 0 ==> prefix != [];
  }

  // ---- the notifier ----

  lemma StackStep(parts: Path, i: nat)
    requires i < |parts| && forall c | c in parts :: c != [] && c != DOT
    ensures var at := Walk([], parts[..i]);
      Walk([], parts[..i + 1]) ==
        if parts[i] != DOTDOT then at + [parts[i]] else if at == [] then at else at[..|at| - 1]
  {
    hide Walk;
    WalkSnoc([], parts[..i], parts[i]);
    assert parts[..i + 1] == parts[..i] + [parts[i]];
    assert parts[i] in parts;
  }

  lemma StackText(stack: Path)
    ensures SEP + Join(stack) == PathText(stack)
  {
    if stack != [] {
      TextIsJoin(stack);
    } else {
      assert SEP + [] == SEP;
    }
  }

  class RemoteBrowserNotifier {
    var currentPath: Str
    /** The directory that currentPath names. */
    ghost var at: Path

    ghost predicate Valid()
      reads this
    {
      AllNames(at) && currentPath == PathText(at)
    }

    constructor ()
      ensures Valid() && at == []
    {
      currentPath, at := SEP, [];
    }

    /** Splits, drops empty and "." parts, and keeps a stack for "..". */
    method NormalizeRemotePath(path: Str) returns (r: Str)
      ensures r == Normalize(path)
    {
      if path == [] || path == SEP {
        WalkOfSlash([]);
        return SEP;
      }
      var parts := Kept(Split(path));
      var stack: Path := [];
      KeptIsSolid(Split(path));
      WalkOfKept([], Split(path));
      assert parts[..0] == [];
      hide Walk, Split, Kept, Join, PathText;
      for i := 0 to |parts|
        invariant stack == Walk([], parts[..i])
      {
        StackStep(parts, i);
        if parts[i] == DOTDOT {
          if stack != [] {
            stack := stack[..|stack| - 1];
          }
        } else {
          stack := stack + [parts[i]];
        }
      }
      assert parts[..|parts|] == parts;
      r := SEP + Join(stack);
      StackText(stack);
    }

    method LoadPath(path: Str)
      modifies this
      ensures Valid() && at == Walk([], Split(path))
    {
      var normalized := NormalizeRemotePath(path);
      currentPath := normalized;
      at := Walk([], Split(path));
      SplitPieces(path);
      WalkKeepsNames([], Split(path));
    }

    /** One level up; at "/" nothing happens. */
    method NavigateUp()
      requires Valid()
      modifies this
      ensures Valid() && at == Parent(old(at))
    {
      if currentPath == SEP || currentPath == [] {
        RootOnly(at);
        return;
      }
      DirnameIsParent(at);
      var parent := Dirname(currentPath);
      NormalFormWalksToItself(Parent(at));
      LoadPath(parent);
    }
  }

  // ---- agreement with the server ----

  lemma {:induction false} PiecesOf(s: Str, c: Str)
    requires c in Split(s)
    ensures forall x | x in c :: x in s
  {
    if s != [] {
      var r := Split(s[1..]);
      if c in r {
        PiecesOf(s[1..], c);
      } else if s[0] != SLASH {
        PiecesOf(s[1..], r[0]);
      }
    }
  }

  lemma {:induction false} WalkComesFrom(at: Path, cs: Path, c: Str)
    requires c in Walk(at, cs)
    ensures c in at || c in cs
    decreases |cs|
  {
    if cs != [] {
      WalkComesFrom(Go(at, cs[0]), cs[1..], c);
    }
  }

  lemma {:induction false} NoBackslashLeads(s: Str)
    requires BACKSLASH !in s
    ensures OnlySlashesLead(s)
  {
    if s != [] {
      NoBackslashLeads(s[1..]);
    }
  }

  /** The server accepts every client normal form, and resolves it inside the storage root. */
  lemma ServerAcceptsNormalForm(fs: FS, root: Path, path: Str)
    requires GoodRoot(root) && BACKSLASH !in path
    ensures Resolve(fs, root, Normalize(path)).Some?
    ensures Resolve(fs, root, Normalize(path)).value.comps == root + Walk([], Split(path))
  {
    var cs := Walk([], Split(path));
    var n := Normalize(path);
    NormalizeIsNormalForm(path);
    forall i | 0 <= i < |cs|
      ensures OnlySlashesLead(cs[i])
    {
      WalkComesFrom([], Split(path), cs[i]);
      PiecesOf(path, cs[i]);
      NoBackslashLeads(cs[i]);
    }
    StripOfPathText(cs);
    StripSkipsNothing(n, root);
    ResolvedComponents(fs, root, n);
    SplitOfPathText(cs);
    if cs == [] {
      WalkOfSlash(root);
      assert root + cs == root;
    } else {
      assert Split(n)[1..] == cs;
      WalkNames(root, cs);
    }
    InsideIsAccepted(root, WeaklyCanonical(fs, root + Split(Strip(n))));
  }

  /**
   * The two normalisers agree exactly on the paths that never climb above the root: only then does the server
   * take the raw path to the place it takes the client's normal form to.
   */
  lemma NormalisersAgreeExactly(fs: FS, root: Path, path: Str)
    requires GoodRoot(root) && BACKSLASH !in path
    ensures Resolve(fs, root, Normalize(path)).Some?
    ensures Resolve(fs, root, path).Some?
            && Resolve(fs, root, path).value.comps == Resolve(fs, root, Normalize(path)).value.comps
        <==> !Climbs(0, Split(path))
  {
    ServerAcceptsNormalForm(fs, root, path);
    NoBackslashLeads(path);
    StripSkipsNothing(path, root);
    ResolvedComponents(fs, root, path);
    ClampedWalk(root, [], Split(path));
    assert root + [] == root;
    if !Climbs(0, Split(path)) {
      InsideIsAccepted(root, WeaklyCanonical(fs, root + Split(Strip(path))));
    }
  }
}
