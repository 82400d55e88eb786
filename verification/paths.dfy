/** Path text and path components: splitting, walking, and what a string prefix says about components. */
module Paths {
  import opened Bytes

  type Path = seq<Str>

  const SLASH: byte := 47
  const BACKSLASH: byte := 92
  const SEP: Str := [47]
  const DOT: Str := [46]
  const DOTDOT: Str := [46, 46]

  /** A directory entry's name: what a component of a stored path can be. */
  predicate IsName(c: Str) {
    c != [] && c != DOT && c != DOTDOT && SLASH !in c
  }

  predicate AllNames(cs: Path) {
    forall i | 0 <= i < |cs| :: IsName(cs[i])
  }

  /** String.split('/') */
  function Split(s: Str): (r: Path)
    ensures |r| >= 1
  {
    if s == [] then [[]] else
    var r := Split(s[1..]);
    if s[0] == SLASH then [[]] + r else [[s[0]] + r[0]] + r[1..]
  }

  /** List.join('/') */
  function Join(cs: Path): Str {
    if cs == [] then [] else if |cs| == 1 then cs[0] else cs[0] + SEP + Join(cs[1..])
  }

  /** Each component behind a separator. */
  function Text(cs: Path): Str {
    if cs == [] then [] else SEP + cs[0] + Text(cs[1..])
  }

  /** The text of an absolute path. */
  function PathText(cs: Path): Str {
    if cs == [] then SEP else Text(cs)
  }

  /** One component of a path, taken from a directory. */
  function Go(at: Path, c: Str): Path {
    if c == [] || c == DOT then at
    else if c == DOTDOT then (if at == [] then at else at[..|at| - 1])
    else at + [c]
  }

  function Walk(at: Path, cs: Path): Path
    decreases |cs|
  {
    if cs == [] then at else Walk(Go(at, cs[0]), cs[1..])
  }

  /** Some prefix of cs leads above the directory that lies depth levels up. */
  predicate Climbs(depth: nat, cs: Path)
    decreases |cs|
  {
    cs != [] &&
    if cs[0] == [] || cs[0] == DOT then Climbs(depth, cs[1..])
    else if cs[0] == DOTDOT then depth == 0 || Climbs(depth - 1, cs[1..])
    else Climbs(depth + 1, cs[1..])
  }

  /** resolvePath's loop: every leading separator, of either kind, is erased. */
  function Strip(s: Str): Str {
    if s != [] && (s[0] == SLASH || s[0] == BACKSLASH) then Strip(s[1..]) else s
  }

  /** The first character behind the leading slashes is no backslash. */
  predicate OnlySlashesLead(s: Str) {
    s == [] || (if s[0] == SLASH then OnlySlashesLead(s[1..]) else s[0] != BACKSLASH)
  }

  // ---- splitting ----

  lemma {:induction false} SplitPieces(s: Str)
    ensures forall i | 0 <= i < |Split(s)| :: SLASH !in Split(s)[i]
  {
    if s != [] {
      SplitPieces(s[1..]);
    }
  }

  lemma {:induction false} SplitComponent(c: Str, rest: Str)
    requires SLASH !in c
    ensures Split(c + SEP + rest) == [c] + Split(rest)
    ensures Split(c) == [c]
  {
    if c == [] {
      assert c + SEP + rest == SEP + rest;
      assert (SEP + rest)[1..] == rest;
    } else {
      SplitComponent(c[1..], rest);
      var s := c + SEP + rest;
      assert s[1..] == c[1..] + SEP + rest && s[0] == c[0];
      assert [c[0]] + c[1..] == c;
    }
  }

  lemma {:induction false} SplitOfJoin(cs: Path)
    requires cs != [] && AllNames(cs)
    ensures Split(Join(cs)) == cs
  {
    hide Split;
    if |cs| == 1 {
      SplitComponent(cs[0], []);
      assert cs == [cs[0]];
    } else {
      SplitOfJoin(cs[1..]);
      SplitComponent(cs[0], Join(cs[1..]));
      assert cs == [cs[0]] + cs[1..];
    }
  }

  lemma {:induction false} TextIsJoin(cs: Path)
    requires cs != []
    ensures Text(cs) == SEP + Join(cs)
  {
    if |cs| == 1 {
      assert Text(cs) == SEP + cs[0] + Text([]);
    } else {
      TextIsJoin(cs[1..]);
      assert SEP + cs[0] + (SEP + Join(cs[1..])) == SEP + (cs[0] + SEP + Join(cs[1..]));
    }
  }

  lemma SplitOfPathText(cs: Path)
    requires AllNames(cs)
    ensures Split(PathText(cs)) == [[]] + (if cs == [] then [[]] else cs)
  {
    if cs == [] {
      assert SEP[1..] == [];
    } else {
      TextIsJoin(cs);
      SplitOfJoin(cs);
      assert (SEP + Join(cs))[1..] == Join(cs);
    }
  }

  // ---- walking ----

  lemma {:induction false} WalkAppend(at: Path, xs: Path, ys: Path)
    ensures Walk(at, xs + ys) == Walk(Walk(at, xs), ys)
    decreases |xs|
  {
    if xs == [] {
      assert xs + ys == ys;
    } else {
      assert (xs + ys)[1..] == xs[1..] + ys;
      WalkAppend(Go(at, xs[0]), xs[1..], ys);
    }
  }

  /** A name, and ".." behind it, lead nowhere. */
  lemma WalkThereAndBack(at: Path, c: Str, cs: Path)
    requires IsName(c)
    ensures Walk(at, [c, DOTDOT] + cs) == Walk(at, cs)
  {
    var raw := [c, DOTDOT] + cs;
    assert raw[1..] == [DOTDOT] + cs && ([DOTDOT] + cs)[1..] == cs;
    assert (at + [c])[..|at|] == at;
    assert Walk(at, raw) == Walk(at + [c], [DOTDOT] + cs) == Walk(at, cs);
  }

  /** A trailing separator leads nowhere. */
  lemma WalkOpen(at: Path, c: Str)
    requires IsName(c)
    ensures Walk(at, [c, []]) == at + [c]
  {
    var e: Str := [];
    var cs := [c, e];
    assert cs[1..] == [e] && [e][1..] == [];
    assert Walk(at, cs) == Walk(at + [c], [e]) == Walk(at + [c], []);
  }

  lemma {:induction false} WalkNames(at: Path, cs: Path)
    requires AllNames(cs)
    ensures Walk(at, cs) == at + cs
    decreases |cs|
  {
    if cs == [] {
      assert at + cs == at;
    } else {
      WalkNames(at + [cs[0]], cs[1..]);
      assert at + [cs[0]] + cs[1..] == at + cs;
    }
  }

  /** "/" splits into two empty parts, which lead nowhere. */
  lemma WalkOfSlash(at: Path)
    ensures Walk(at, Split(SEP)) == at
    ensures Walk(at, Split([])) == at
  {
    var e: Str := [];
    assert SEP[1..] == e;
    assert Split(SEP) == [e, e] && [e, e][1..] == [e] && [e][1..] == [];
    assert Walk(at, [e, e]) == Walk(at, [e]) == at;
  }

  lemma {:induction false} WalkKeepsNames(at: Path, cs: Path)
    requires AllNames(at) && forall i | 0 <= i < |cs| :: SLASH !in cs[i]
    ensures AllNames(Walk(at, cs))
    decreases |cs|
  {
    if cs != [] {
      WalkKeepsNames(Go(at, cs[0]), cs[1..]);
    }
  }

  /** What is stripped: all leading slashes and backslashes, and nothing behind them. */
  lemma {:induction false} StripExactly(s: Str) returns (k: nat)
    ensures k <= |s| && Strip(s) == s[k..]
    ensures forall i | 0 <= i < k :: s[i] == SLASH || s[i] == BACKSLASH
    ensures k < |s| ==> s[k] != SLASH && s[k] != BACKSLASH
  {
    k := 0;
    if s != [] && (s[0] == SLASH || s[0] == BACKSLASH) {
      k := StripExactly(s[1..]);
      assert s[1..][k..] == s[k + 1..];
      assert forall i | 1 <= i < k + 1 :: s[i] == s[1..][i - 1];
      k := k + 1;
    }
  }

  lemma {:induction false} StripSkipsNothing(s: Str, at: Path)
    requires OnlySlashesLead(s)
    ensures Walk(at, Split(Strip(s))) == Walk(at, Split(s))
  {
    if s != [] && s[0] == SLASH {
      StripSkipsNothing(s[1..], at);
      assert ([[]] + Split(s[1..]))[1..] == Split(s[1..]);
    }
  }

  lemma StripOfPathText(cs: Path)
    requires AllNames(cs) && forall i | 0 <= i < |cs| :: OnlySlashesLead(cs[i])
    ensures OnlySlashesLead(PathText(cs))
  {
    if cs != [] {
      assert Text(cs)[1..] == cs[0] + Text(cs[1..]);
    } else {
      assert SEP[1..] == [];
    }
  }

  /** A clamped walk from the empty path, and the same walk from inside base, stay together until one climbs. */
  lemma {:induction false} ClampedWalk(base: Path, at: Path, cs: Path)
    requires base != []
    ensures Walk(base + at, cs) == base + Walk(at, cs) <==> !Climbs(|at|, cs)
    decreases |cs|
  {
    if cs == [] {
    } else {
      var c, rest := cs[0], cs[1..];
      if c == DOTDOT && at == [] {
        assert base + at == base;
        WalkBehind(base[..|base| - 1], [], |base|, rest);
      } else {
        assert Go(base + at, c) == base + Go(at, c);
        ClampedWalk(base, Go(at, c), rest);
      }
    }
  }

  /** Once behind by some levels, a walk never catches up with the clamped one. */
  lemma {:induction false} WalkBehind(low: Path, high: Path, gap: nat, cs: Path)
    requires gap > 0 && |low| < gap + |high|
    ensures |Walk(low, cs)| < gap + |Walk(high, cs)|
    decreases |cs|
  {
    if cs != [] {
      WalkBehind(Go(low, cs[0]), Go(high, cs[0]), gap, cs[1..]);
    }
  }

  // ---- string prefixes and component prefixes ----

  /** u is nothing or begins at a separator. */
  predicate AtBoundary(u: Str) {
    u == [] || u[0] == SLASH
  }

  lemma FirstComponent(x: Str, u: Str, y: Str, v: Str)
    requires SLASH !in x && SLASH !in y
    requires AtBoundary(u) && AtBoundary(v) && u != []
    ensures x + u <= y + v <==> x == y && u <= v
  {
    if x + u <= y + v {
      var a, b := x + u, y + v;
      assert a[|x|] == SLASH && b[|x|] == a[|x|];
      assert forall i | 0 <= i < |x| :: a[i] == x[i] && a[i] == b[i] && a[i] != SLASH by {
        assert forall i | 0 <= i < |x| :: x[i] in x;
      }
      assert v != [] ==> b[|y|] == SLASH;
      if |x| < |y| { assert false; }
      if |x| > |y| { assert false; }
      assert x == a[..|x|] == b[..|x|] == y;
      assert u == a[|x|..] && v == b[|y|..];
    }
  }

  lemma TextAtBoundary(cs: Path, t: Str)
    requires AtBoundary(t)
    ensures AtBoundary(Text(cs) + t)
  {
    if cs == [] {
      assert Text(cs) + t == t;
    }
  }

  /** "b's text starts with a's text and a boundary" compares components. */
  lemma {:induction false} PrefixIsComponentwise(a: Path, u: Str, b: Path, v: Str)
    requires AllNames(a) && AllNames(b) && u != [] && AtBoundary(u) && (v == [] || v == SEP)
    ensures Text(a) + u <= Text(b) + v <==> |a| <= |b| && a == b[..|a|] && u <= Text(b[|a|..]) + v
    decreases |a|
  {
    if a == [] {
      assert Text(a) + u == u && b[0..] == b;
    } else if b == [] {
      assert |Text(a) + u| > 1 && |Text(b) + v| <= 1;
    } else {
      OneComponent(a, u, b, v);
      PrefixIsComponentwise(a[1..], u, b[1..], v);
      if |a| <= |b| {
        PrefixUncons(a, b);
        assert b[1..][|a| - 1..] == b[|a|..];
      }
    }
  }

  lemma OneComponent(a: Path, u: Str, b: Path, v: Str)
    requires a != [] && b != [] && AllNames(a) && AllNames(b) && u != [] && AtBoundary(u) && AtBoundary(v)
    ensures Text(a) + u <= Text(b) + v <==> a[0] == b[0] && Text(a[1..]) + u <= Text(b[1..]) + v
  {
    TextAtBoundary(a[1..], u);
    TextAtBoundary(b[1..], v);
    var x, y := Text(a[1..]) + u, Text(b[1..]) + v;
    FirstComponent(a[0], x, b[0], y);
    DropHead(a[0] + x, b[0] + y);
    Associate(SEP + a[0], Text(a[1..]), u);
    Associate(SEP, a[0], x);
    Associate(SEP + b[0], Text(b[1..]), v);
    Associate(SEP, b[0], y);
  }

  lemma PrefixUncons(a: Path, b: Path)
    requires 0 < |a| <= |b|
    ensures a == b[..|a|] <==> a[0] == b[0] && a[1..] == b[1..][..|a| - 1]
  {
    assert a == [a[0]] + a[1..] && b[..|a|] == [b[0]] + b[1..][..|a| - 1];
    if a == b[..|a|] { assert a[1..] == b[..|a|][1..] == b[1..][..|a| - 1]; }
  }

  lemma DropHead(a: Str, b: Str)
    ensures SEP + a <= SEP + b <==> a <= b
  {
    if SEP + a <= SEP + b {
      assert (SEP + a)[1..] == a && (SEP + b)[1..] == b;
    }
  }

  /** What holds no slash is a prefix of a component and what follows exactly if it is a prefix of the component. */
  lemma NameIsPrefixOfFirst(x: Str, y: Str, t: Str)
    requires SLASH !in x && AtBoundary(t)
    ensures x <= y + t <==> x <= y
  {
    assert forall i | 0 <= i < |x| :: x[i] in x;
    assert t != [] ==> (y + t)[|y|] == SLASH;
    assert x <= y + t ==> forall i | 0 <= i < |x| :: x[i] == (y + t)[i];
  }

  lemma FirstNamePrefix(x: Str, b: Path)
    requires SLASH !in x && AllNames(b)
    ensures SEP + x <= Text(b) <==> b != [] && x <= b[0]
  {
    if b != [] {
      var t := Text(b[1..]);
      TextAtBoundary(b[1..], []);
      assert t + [] == t;
      Associate(SEP, b[0], t);
      DropHead(x, b[0] + t);
      NameIsPrefixOfFirst(x, b[0], t);
    }
  }

  lemma NamesAround(a: Path, n: nat)
    requires AllNames(a) && n <= |a|
    ensures AllNames(a[..n]) && AllNames(a[n..]) && (n < |a| ==> SLASH !in a[n])
  {
  }

  lemma TextPrefixOfTwo(front: Path, last: Str, b: Path, t: Str)
    requires t == Text(front) + (SEP + last)
    requires AllNames(front) && SLASH !in last && AllNames(b) && (|front| <= |b| ==> AllNames(b[|front|..]))
    ensures var n := |front|;
      t <= Text(b) <==> n < |b| && front == b[..n] && last <= b[n]
  {
    hide Text, AllNames;
    var n := |front|;
    var u := SEP + last;
    assert Text(b) + [] == Text(b);
    PrefixIsComponentwise(front, u, b, []);
    if n <= |b| {
      var rest := b[n..];
      FirstNamePrefix(last, rest);
      assert Text(rest) + [] == Text(rest);
      assert rest != [] ==> rest[0] == b[n];
    }
  }

  lemma NoSlashIn(name: Str)
    requires IsName(name)
    ensures SLASH !in name
  {
  }

  lemma TextOfLast(front: Path, last: Str)
    ensures Text(front + [last]) == Text(front) + (SEP + last)
  {
    TextAppend(front, [last]);
    assert Text([last]) == SEP + last + Text([last][1..]) == SEP + last;
  }

  /** A character prefix of a path's text, in components: all but the last are equal, and the last is a prefix. */
  lemma TextPrefixByComponents(front: Path, last: Str, b: Path)
    requires AllNames(front) && IsName(last) && AllNames(b)
    ensures var n := |front|;
      Text(front + [last]) <= Text(b) <==> n < |b| && front == b[..n] && last <= b[n]
  {
    hide *;
    NoSlashIn(last);
    TextOfLast(front, last);
    if |front| <= |b| {
      NamesAround(b, |front|);
    }
    TextPrefixOfTwo(front, last, b, Text(front + [last]));
  }

  predicate ProperPrefix(a: Path, b: Path) {
    |a| < |b| && a == b[..|a|]
  }

  /**
   * "the destination's text starts with the source's text plus a slash": exactly when the source's components
   * are a proper prefix of the destination's, or the destination is the source with a trailing slash.
   */
  lemma SlashPrefixIsProperPrefix(a: Path, b: Path, v: Str)
    requires AllNames(a) && AllNames(b) && (v == [] || v == SEP)
    ensures Text(a) + SEP <= Text(b) + v <==> ProperPrefix(a, b) || (a == b && v == SEP)
  {
    PrefixIsComponentwise(a, SEP, b, v);
    if |a| <= |b| && a == b[..|a|] {
      if |a| == |b| {
        assert b[|a|..] == [] && Text([]) + v == v;
      } else {
        assert Text(b[|a|..])[0] == SLASH;
      }
    }
  }

  /** A character prefix that ends at a boundary of the longer text is containment of components. */
  lemma BoundaryPrefixIsContainment(a: Path, b: Path, v: Str)
    requires AllNames(a) && AllNames(b) && (v == [] || v == SEP)
    ensures Text(a) <= Text(b) + v && AtBoundary((Text(b) + v)[|Text(a)|..]) <==> |a| <= |b| && a == b[..|a|]
  {
    hide Text;
    var s := Text(b) + v;
    if Text(a) <= s && AtBoundary(s[|Text(a)|..]) {
      BoundaryPrefixContains(a, b, v, s[|Text(a)|..]);
    }
    if |a| <= |b| && a == b[..|a|] {
      var u := Text(b[|a|..]) + v;
      TextAppend(a, b[|a|..]);
      assert a + b[|a|..] == b;
      TextAtBoundary(b[|a|..], v);
      assert s == Text(a) + u;
      assert s[|Text(a)|..] == u;
    }
  }

  lemma BoundaryPrefixContains(a: Path, b: Path, v: Str, u: Str)
    requires AllNames(a) && AllNames(b) && (v == [] || v == SEP)
    requires Text(b) + v == Text(a) + u && AtBoundary(u)
    ensures |a| <= |b| && a == b[..|a|]
  {
    if u != [] {
      PrefixIsComponentwise(a, u, b, v);
    } else {
      assert Text(b) + v == Text(a);
      if v == SEP {
        if a != [] { LastIsNoSlash(a); }
        assert false;
      }
      assert Text(b) == Text(a) && Text(b) + SEP == Text(a) + SEP;
      PrefixIsComponentwise(a, SEP, b, SEP);
    }
  }

  lemma {:induction false} TextAppend(a: Path, b: Path)
    ensures Text(a + b) == Text(a) + Text(b)
  {
    if a == [] {
      assert a + b == b;
    } else {
      assert (a + b)[1..] == a[1..] + b;
      TextAppend(a[1..], b);
      assert SEP + a[0] + (Text(a[1..]) + Text(b)) == Text(a) + Text(b);
    }
  }

  /** The text of names never ends in a slash. */
  lemma {:induction false} LastIsNoSlash(a: Path)
    requires AllNames(a) && a != []
    ensures Text(a) != [] && Text(a)[|Text(a)| - 1] != SLASH
  {
    if |a| == 1 {
      assert Text(a) == SEP + a[0] + [];
    } else {
      LastIsNoSlash(a[1..]);
    }
  }

  lemma TextInjective(a: Path, b: Path)
    requires AllNames(a) && AllNames(b) && Text(a) == Text(b)
    ensures a == b
  {
    SlashPrefixIsProperPrefix(a, b, SEP);
    SlashPrefixIsProperPrefix(b, a, SEP);
    assert Text(a) + SEP <= Text(b) + SEP;
  }
}
