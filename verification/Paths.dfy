/** FTP paths, their cleaned form and the object keys they stand for. */
module Paths {
  import opened Bytes

  const ROOT: Bytes := [SLASH]
  const DOTDOT: Bytes := [DOT, DOT]

  // ---------------------------------------------------------------- white space

  // The UTF-8 encodings, one to three bytes long, of the code points with the
  // White_Space property.

  predicate Space1(a: Byte) {
    9 <= a <= 13 || a == 32
  }

  predicate Space2(a: Byte, b: Byte) {
    a == 0xC2 && (b == 0x85 || b == 0xA0)
  }

  predicate Space3(a: Byte, b: Byte, c: Byte) {
    || (a == 0xE1 && b == 0x9A && c == 0x80)
    || (a == 0xE2 && b == 0x80 && (0x80 <= c <= 0x8A || c == 0xA8 || c == 0xA9 || c == 0xAF))
    || (a == 0xE2 && b == 0x81 && c == 0x9F)
    || (a == 0xE3 && b == 0x80 && c == 0x80)
  }

  /** Length of the white-space rune a string starts with, or 0. */
  function LeadingSpace(s: Bytes): (n: nat)
    ensures n <= |s|
    ensures s != [] && s[0] == SLASH ==> n == 0
  {
    if |s| >= 1 && Space1(s[0]) then 1
    else if |s| >= 2 && Space2(s[0], s[1]) then 2
    else if |s| >= 3 && Space3(s[0], s[1], s[2]) then 3
    else 0
  }

  /** Length of the white-space rune a string ends with, or 0. */
  function TrailingSpace(s: Bytes): (n: nat)
    ensures n <= |s| && n <= 3
    ensures n > 0 ==> forall i :: |s| - n <= i < |s| ==> s[i] != SLASH
  {
    var k := |s|;
    if k >= 1 && Space1(s[k - 1]) then 1
    else if k >= 2 && Space2(s[k - 2], s[k - 1]) then 2
    else if k >= 3 && Space3(s[k - 3], s[k - 2], s[k - 1]) then 3
    else 0
  }

  predicate EndsInSpace(s: Bytes) {
    TrailingSpace(s) > 0
  }

  function TrimLeft(s: Bytes): Bytes
    decreases |s|
  {
    var n := LeadingSpace(s);
    if n == 0 then s else TrimLeft(s[n..])
  }

  function TrimRight(s: Bytes): (r: Bytes)
    ensures r <= s
    decreases |s|
  {
    var n := TrailingSpace(s);
    if n == 0 then s else TrimRight(s[..|s| - n])
  }

  function TrimSpace(s: Bytes): Bytes {
    TrimRight(TrimLeft(s))
  }

  // ---------------------------------------------------------------- segments

  predicate Slashless(s: Bytes) {
    SLASH !in s
  }

  /** Index of the first slash. */
  function FirstSlash(s: Bytes): (i: nat)
    requires !Slashless(s)
    ensures i < |s| && s[i] == SLASH && Slashless(s[..i])
  {
    if s[0] == SLASH then 0
    else
      var i := 1 + FirstSlash(s[1..]);
      assert s[..i] == [s[0]] + s[1..][..i - 1];
      i
  }

  function Split(s: Bytes): (segs: seq<Bytes>)
    ensures |segs| > 0
    ensures forall g :: g in segs ==> Slashless(g)
    decreases |s|
  {
    if Slashless(s) then [s]
    else
      var i := FirstSlash(s);
      [s[..i]] + Split(s[i + 1..])
  }

  function Join(segs: seq<Bytes>): Bytes
    requires |segs| > 0
  {
    if |segs| == 1 then segs[0] else segs[0] + [SLASH] + Join(segs[1..])
  }

  lemma {:induction false} JoinSplit(s: Bytes)
    ensures Join(Split(s)) == s
    decreases |s|
  {
    if !Slashless(s) {
      var i := FirstSlash(s);
      var rest := s[i + 1..];
      JoinSplit(rest);
      JoinCons(s[..i], Split(rest));
      assert s == s[..i] + [SLASH] + rest;
    }
  }

  lemma JoinCons(g: Bytes, segs: seq<Bytes>)
    requires |segs| > 0
    ensures Join([g] + segs) == g + [SLASH] + Join(segs)
  {
    assert ([g] + segs)[1..] == segs;
  }

  lemma SplitCons(g: Bytes, s: Bytes)
    requires Slashless(g)
    ensures Split(g + [SLASH] + s) == [g] + Split(s)
  {
    var t := g + [SLASH] + s;
    assert t[|g|] == SLASH;
    var i := FirstSlash(t);
    assert forall j | 0 <= j < |g| :: t[j] == g[j];
    assert t[..i] == g && t[i + 1..] == s;
  }

  lemma {:induction false} SplitJoin(segs: seq<Bytes>)
    requires |segs| > 0 && forall g :: g in segs ==> Slashless(g)
    ensures Split(Join(segs)) == segs
  {
    if |segs| > 1 {
      SplitJoin(segs[1..]);
      SplitCons(segs[0], Join(segs[1..]));
      assert segs == [segs[0]] + segs[1..];
    }
  }

  // ---------------------------------------------------------------- path.Clean

  /** A segment that survives lexical resolution. */
  predicate Normal(g: Bytes) {
    g != [] && g != [DOT] && g != DOTDOT && Slashless(g)
  }

  predicate AllNormal(segs: seq<Bytes>) {
    forall g :: g in segs ==> Normal(g)
  }

  /** Resolve segments against a stack, `..` at the root being dropped. */
  function Resolve(segs: seq<Bytes>, stack: seq<Bytes>): (r: seq<Bytes>)
    requires forall g :: g in segs ==> Slashless(g)
    requires AllNormal(stack)
    ensures AllNormal(r)
  {
    if segs == [] then stack
    else if segs[0] == [] || segs[0] == [DOT] then Resolve(segs[1..], stack)
    else if segs[0] == DOTDOT then
      Resolve(segs[1..], if stack == [] then [] else stack[..|stack| - 1])
    else Resolve(segs[1..], stack + [segs[0]])
  }

  function PathOf(segs: seq<Bytes>): Bytes {
    if segs == [] then ROOT else [SLASH] + Join(segs)
  }

  /** `path.Clean` on rooted paths. */
  function CleanRooted(p: Bytes): Bytes
    requires p != [] && p[0] == SLASH
  {
    PathOf(Resolve(Split(p), []))
  }

  function Rooted(p: Bytes): (r: Bytes)
    ensures r != [] && r[0] == SLASH
  {
    if p != [] && p[0] == SLASH then p else [SLASH] + p
  }

  function CleanFTPPath(p: Bytes): Bytes {
    var t := TrimSpace(p);
    if t == [] then ROOT else CleanRooted(Rooted(t))
  }

  /** The segments of a rooted path. */
  function Segs(p: Bytes): seq<Bytes>
    requires p != [] && p[0] == SLASH
  {
    if p == ROOT then [] else Split(p[1..])
  }

  /** The shape every cleaned path has. */
  predicate Cleaned(p: Bytes) {
    p != [] && p[0] == SLASH && AllNormal(Segs(p))
  }

  predicate WellFormedSegment(g: Bytes) {
    Normal(g) && !EndsInSpace(g)
  }

  predicate WellFormed(p: Bytes) {
    p != [] && p[0] == SLASH && forall g :: g in Segs(p) ==> WellFormedSegment(g)
  }

  /** A path that cleaning keeps. */
  predicate Settled(p: Bytes) {
    Cleaned(p) && !EndsInSpace(p)
  }

  lemma PathOfSegs(segs: seq<Bytes>)
    requires AllNormal(segs)
    ensures Segs(PathOf(segs)) == segs
    ensures Cleaned(PathOf(segs))
    ensures (PathOf(segs) == ROOT) == (segs == [])
  {
    if segs != [] {
      SplitJoin(segs);
      JoinNonEmpty(segs);
      assert PathOf(segs)[1..] == Join(segs);
    }
  }

  lemma JoinNonEmpty(segs: seq<Bytes>)
    requires segs != [] && AllNormal(segs)
    ensures Join(segs) != []
  {
    assert Normal(segs[0]);
  }

  lemma SegsOfPath(p: Bytes)
    requires Cleaned(p)
    ensures PathOf(Segs(p)) == p
  {
    if p != ROOT {
      JoinSplit(p[1..]);
      assert p == [SLASH] + p[1..];
    }
  }

  lemma {:induction false} ResolveNormal(segs: seq<Bytes>, tail: seq<Bytes>, stack: seq<Bytes>)
    requires AllNormal(segs) && AllNormal(stack)
    requires forall g :: g in tail ==> Slashless(g)
    ensures Resolve(segs + tail, stack) == Resolve(tail, stack + segs)
  {
    if segs == [] {
      assert stack + segs == stack && segs + tail == tail;
    } else {
      assert Normal(segs[0]);
      ResolveNormal(segs[1..], tail, stack + [segs[0]]);
      assert (segs + tail)[1..] == segs[1..] + tail;
      assert stack + [segs[0]] + segs[1..] == stack + segs;
    }
  }

  lemma CleanRootedTail(t: Bytes)
    ensures CleanRooted([SLASH] + t) == PathOf(Resolve(Split(t), []))
  {
    assert [SLASH] + t == [] + [SLASH] + t;
    SplitCons([], t);
    assert Split([SLASH] + t)[1..] == Split(t);
  }

  /** `path.Clean` keeps a path that is already in cleaned form. */
  lemma CleanRootedKeeps(p: Bytes)
    requires Cleaned(p)
    ensures CleanRooted(p) == p
  {
    assert p == [SLASH] + p[1..];
    CleanRootedTail(p[1..]);
    if p == ROOT {
      assert p[1..] == [];
      assert Split(p[1..])[1..] == [];
    } else {
      ResolveNormal(Segs(p), [], []);
      assert [] + Segs(p) == Segs(p) + [] == Segs(p);
    }
    SegsOfPath(p);
  }

  lemma CleanedShape(p: Bytes)
    ensures Cleaned(CleanFTPPath(p))
  {
    var t := TrimSpace(p);
    if t == [] {
      PathOfSegs([]);
    } else {
      PathOfSegs(Resolve(Split(Rooted(t)), []));
    }
  }

  // ---------------------------------------------------------------- length

  /** Bytes a list of segments takes when each is preceded by a slash. */
  function Weight(segs: seq<Bytes>): nat {
    if segs == [] then 0 else |segs[0]| + 1 + Weight(segs[1..])
  }

  lemma {:induction false} WeightSplit(s: Bytes)
    ensures Weight(Split(s)) == |s| + 1
    decreases |s|
  {
    if !Slashless(s) {
      var i := FirstSlash(s);
      WeightSplit(s[i + 1..]);
      assert Split(s)[1..] == Split(s[i + 1..]);
    }
  }

  lemma {:induction false} WeightJoin(segs: seq<Bytes>)
    requires segs != []
    ensures |Join(segs)| + 1 == Weight(segs)
  {
    if |segs| > 1 {
      WeightJoin(segs[1..]);
    }
  }

  lemma {:induction false} WeightAppend(a: seq<Bytes>, b: seq<Bytes>)
    ensures Weight(a + b) == Weight(a) + Weight(b)
  {
    if a == [] {
      assert a + b == b;
    } else {
      WeightAppend(a[1..], b);
      assert (a + b)[1..] == a[1..] + b;
    }
  }

  lemma WeightPop(stack: seq<Bytes>)
    requires stack != []
    ensures Weight(stack[..|stack| - 1]) <= Weight(stack)
  {
    WeightAppend(stack[..|stack| - 1], stack[|stack| - 1..]);
    assert stack == stack[..|stack| - 1] + stack[|stack| - 1..];
  }

  lemma {:induction false} ResolveShrinks(segs: seq<Bytes>, stack: seq<Bytes>)
    requires forall g :: g in segs ==> Slashless(g)
    requires AllNormal(stack)
    ensures Weight(Resolve(segs, stack)) <= Weight(segs) + Weight(stack)
  {
    hide Slashless;
    if segs == [] {
    } else if segs[0] == [] || segs[0] == [DOT] {
      ResolveShrinks(segs[1..], stack);
    } else if segs[0] == DOTDOT {
      if stack == [] {
        ResolveShrinks(segs[1..], []);
      } else {
        WeightPop(stack);
        ResolveShrinks(segs[1..], stack[..|stack| - 1]);
      }
    } else {
      assert Normal(segs[0]);
      ResolveShrinks(segs[1..], stack + [segs[0]]);
      WeightAppend(stack, [segs[0]]);
    }
  }

  lemma CleanRootedShrinks(p: Bytes)
    requires p != [] && p[0] == SLASH
    ensures |CleanRooted(p)| <= |p|
  {
    assert p == [] + [SLASH] + p[1..];
    SplitCons([], p[1..]);
    WeightSplit(p[1..]);
    assert Split(p)[1..] == Split(p[1..]);
    ResolveShrinks(Split(p[1..]), []);
    var r := Resolve(Split(p), []);
    if r != [] {
      WeightJoin(r);
    }
  }

  // ---------------------------------------------------------------- cleaning twice

  lemma TrimRightNoSpace(s: Bytes)
    ensures TrimRight(s) == s <==> !EndsInSpace(s)
  {
  }

  lemma TrimLeftRooted(p: Bytes)
    requires p != [] && p[0] == SLASH
    ensures TrimLeft(p) == p
  {
  }

  /** A second cleaning changes nothing exactly when the path, already clean,
      does not end in white space; otherwise it strictly shortens it. */
  lemma RecleanRooted(p: Bytes)
    requires Cleaned(p)
    ensures CleanFTPPath(p) == p <==> !EndsInSpace(p)
    ensures EndsInSpace(p) ==> |CleanFTPPath(p)| < |p|
  {
    hide CleanRooted, EndsInSpace;
    TrimLeftRooted(p);
    TrimRightNoSpace(p);
    if EndsInSpace(p) {
      var t := TrimRight(p);
      assert t == p[..|t|];
      TrimRightKeepsSlash(p);
      CleanRootedShrinks(t);
    } else {
      CleanRootedKeeps(p);
    }
  }

  lemma {:induction false} TrimRightKeepsSlash(p: Bytes)
    requires p != [] && p[0] == SLASH
    ensures TrimRight(p) != []
    decreases |p|
  {
    var n := TrailingSpace(p);
    if n > 0 {
      TrimRightKeepsSlash(p[..|p| - n]);
    }
  }

  /** Cleaning is not idempotent, and this is exactly when it is. */
  lemma CleanTwice(p: Bytes)
    ensures CleanFTPPath(CleanFTPPath(p)) == CleanFTPPath(p) <==> !EndsInSpace(CleanFTPPath(p))
  {
    CleanedShape(p);
    RecleanRooted(CleanFTPPath(p));
  }

  function CleanTimes(p: Bytes, n: nat): Bytes
    decreases n
  {
    if n == 0 then p else CleanTimes(CleanFTPPath(p), n - 1)
  }

  /** Repeated cleaning of any path settles, after one round and then at most as
      many more as the first result has bytes. */
  lemma CleanSettles(p: Bytes) returns (n: nat)
    ensures 1 <= n <= 1 + |CleanFTPPath(p)|
    ensures CleanFTPPath(CleanTimes(p, n)) == CleanTimes(p, n)
  {
    CleanedShape(p);
    n := SettleFrom(CleanFTPPath(p));
    n := n + 1;
  }

  lemma {:induction false} SettleFrom(p: Bytes) returns (n: nat)
    requires Cleaned(p)
    ensures n <= |p| && CleanFTPPath(CleanTimes(p, n)) == CleanTimes(p, n)
    decreases |p|
  {
    hide CleanFTPPath, Cleaned, EndsInSpace;
    var q := CleanFTPPath(p);
    RecleanRooted(p);
    CleanedShape(p);
    n := 0;
    if q != p {
      n := SettleFrom(q);
      assert CleanTimes(p, n + 1) == CleanTimes(q, n);
      n := n + 1;
    }
  }

  lemma TrimNothing(p: Bytes)
    requires p != [] && p[0] == SLASH && !EndsInSpace(p)
    ensures CleanFTPPath(p) == CleanRooted(p)
  {
    TrimLeftRooted(p);
    TrimRightNoSpace(p);
  }

  /** The witness: `/a /` cleans to `/a `, which cleans to `/a`. */
  lemma CleanNotIdempotent()
    ensures CleanFTPPath([SLASH, 97, 32, SLASH]) == [SLASH, 97, 32]
    ensures CleanFTPPath([SLASH, 97, 32]) == [SLASH, 97]
  {
    var p: Bytes, q: Bytes := [SLASH, 97, 32], [SLASH, 97];
    assert Cleaned(p) by {
      assert p[1..] == [97, 32];
    }
    CleanDropsTrailingSlash(p);
    assert p + [SLASH] == [SLASH, 97, 32, SLASH];
    assert Cleaned(q) by {
      assert q[1..] == [97];
    }
    CleanRootedKeeps(q);
    TrimOneSpace(q);
    assert p == q + [32];
  }

  lemma TrimOneSpace(q: Bytes)
    requires q != [] && q[0] == SLASH && !EndsInSpace(q)
    ensures TrimSpace(q + [32]) == q
  {
    var p := q + [32];
    TrimLeftRooted(p);
    assert p[..|p| - 1] == q;
    TrimRightNoSpace(q);
  }

  // ---------------------------------------------------------------- keys

  /** A root prefix as the view's constructor demands it: empty or ending in a slash. */
  predicate ValidRoot(root: Bytes) {
    root == [] || root[|root| - 1] == SLASH
  }

  function JoinRoot(root: Bytes, p: Bytes): Bytes {
    var clean := CleanFTPPath(p);
    if clean == ROOT || clean == [] then root else root + clean[1..]
  }

  /** A key as a directory prefix: empty or ending in a slash. */
  function AsDir(k: Bytes): (d: Bytes)
    ensures k <= d
    ensures d == [] || d[|d| - 1] == SLASH
  {
    if k == [] || k[|k| - 1] == SLASH then k else k + [SLASH]
  }

  function DirKey(root: Bytes, p: Bytes): Bytes {
    AsDir(JoinRoot(root, p))
  }

  /** Every key a path is mapped to starts with the root prefix. */
  lemma KeysUnderRoot(root: Bytes, p: Bytes)
    ensures root <= JoinRoot(root, p) <= DirKey(root, p) && root <= DirKey(root, p)
  {
    hide CleanFTPPath;
    var k := JoinRoot(root, p);
    assert root <= k;
    assert DirKey(root, p)[..|root|] == k[..|root|];
  }

  function TrimSuffixSlash(s: Bytes): Bytes {
    if s != [] && s[|s| - 1] == SLASH then s[..|s| - 1] else s
  }

  function TrimPrefix(s: Bytes, prefix: Bytes): Bytes {
    if prefix <= s then s[|prefix|..] else s
  }

  function RelativeName(prefix: Bytes, key: Bytes): Bytes {
    if key == prefix then [] else TrimPrefix(TrimSuffixSlash(key), prefix)
  }

  /** `path.Base` of a cleaned path. */
  function Base(p: Bytes): Bytes {
    if p == ROOT then ROOT else var segs := Split(p); segs[|segs| - 1]
  }

  lemma {:induction false} JoinLast(segs: seq<Bytes>)
    requires segs != []
    ensures var g := segs[|segs| - 1]; |g| <= |Join(segs)| && Join(segs)[|Join(segs)| - |g|..] == g
  {
    if |segs| > 1 {
      JoinLast(segs[1..]);
    }
  }

  lemma CleanedLastByte(c: Bytes)
    requires Cleaned(c) && c != ROOT
    ensures |c| > 1 && c[|c| - 1] != SLASH
  {
    var segs := Segs(c);
    var g := segs[|segs| - 1];
    assert Normal(g);
    JoinSplit(c[1..]);
    JoinLast(segs);
    assert c[|c| - 1] == c[1..][|c| - 2] == g[|g| - 1];
  }

  /** Two paths of any kind have the same key exactly when they clean to the same. */
  lemma SameKey(root: Bytes, p: Bytes, q: Bytes)
    ensures JoinRoot(root, p) == JoinRoot(root, q) <==> CleanFTPPath(p) == CleanFTPPath(q)
  {
    hide CleanFTPPath;
    var c, d := CleanFTPPath(p), CleanFTPPath(q);
    CleanedShape(p);
    CleanedShape(q);
    assert c == [SLASH] + c[1..] && d == [SLASH] + d[1..];
    assert JoinRoot(root, p)[|root|..] == c[1..] && JoinRoot(root, q)[|root|..] == d[1..];
  }

  /** For every path, the directory key is the file key and a slash, except that
      the root has the prefix itself. */
  lemma DirKeyShape(root: Bytes, p: Bytes)
    requires ValidRoot(root)
    ensures CleanFTPPath(p) == ROOT ==> JoinRoot(root, p) == root && DirKey(root, p) == root
    ensures CleanFTPPath(p) != ROOT ==>
              && root < JoinRoot(root, p)
              && JoinRoot(root, p)[|JoinRoot(root, p)| - 1] != SLASH
              && DirKey(root, p) == JoinRoot(root, p) + [SLASH]
  {
    hide CleanFTPPath, Cleaned;
    var c := CleanFTPPath(p);
    CleanedShape(p);
    KeysUnderRoot(root, p);
    if c != ROOT {
      CleanedLastByte(c);
      var k := JoinRoot(root, p);
      assert k[|k| - 1] == c[1..][|c| - 2];
    }
  }

  /** The key of a list of segments below a root prefix. */
  function KeyOf(root: Bytes, segs: seq<Bytes>): Bytes {
    if segs == [] then root else root + Join(segs)
  }

  lemma TrailingSpaceLast(p: Bytes, g: Bytes)
    requires |g| < |p| && p[|p| - |g|..] == g && p[|p| - |g| - 1] == SLASH
    ensures TrailingSpace(p) == TrailingSpace(g)
  {
    assert forall i | 0 <= i < |g| :: g[i] == p[|p| - |g| + i];
  }

  lemma EndsInSpaceLast(segs: seq<Bytes>)
    requires segs != [] && AllNormal(segs)
    ensures EndsInSpace(PathOf(segs)) <==> EndsInSpace(segs[|segs| - 1])
  {
    hide TrailingSpace;
    var g := segs[|segs| - 1];
    var p := PathOf(segs);
    JoinLast(segs);
    JoinBeforeLast(segs);
    assert p[|p| - |g|..] == g;
    TrailingSpaceLast(p, g);
  }

  lemma {:induction false} JoinBeforeLast(segs: seq<Bytes>)
    requires segs != []
    ensures var g := segs[|segs| - 1]; var p := [SLASH] + Join(segs); |g| < |p| && p[|p| - |g| - 1] == SLASH
  {
    if |segs| > 1 {
      JoinBeforeLast(segs[1..]);
      var g := segs[|segs| - 1];
      JoinLast(segs[1..]);
      var inner := [SLASH] + Join(segs[1..]);
      assert [SLASH] + Join(segs) == [SLASH] + segs[0] + inner;
    }
  }

  /** Cleaning keeps a settled path, and no other. */
  lemma SettledExactly(p: Bytes)
    ensures Settled(p) <==> CleanFTPPath(p) == p
  {
    hide CleanFTPPath, Cleaned, EndsInSpace;
    CleanedShape(p);
    if Cleaned(p) {
      RecleanRooted(p);
    }
  }

  lemma SettledFixed(p: Bytes)
    requires Settled(p)
    ensures CleanFTPPath(p) == p && AllNormal(Segs(p)) && PathOf(Segs(p)) == p
  {
    hide CleanFTPPath, EndsInSpace, PathOf;
    SettledExactly(p);
    SegsOfPath(p);
  }

  /** Well-formed paths are settled; a settled path may have white space at the end of
      a segment that is not the last. */
  lemma WellFormedSettled(p: Bytes)
    requires WellFormed(p)
    ensures Settled(p)
  {
    hide TrailingSpace, Split, Join;
    assert AllNormal(Segs(p));
    SegsOfPath(p);
    if p == ROOT {
      TrailingSpaceLast(p, []);
      assert TrailingSpace([]) == 0;
    } else {
      EndsInSpaceLast(Segs(p));
      assert WellFormedSegment(Segs(p)[|Segs(p)| - 1]);
    }
  }

  /** The keys of a settled path are read off its segments. */
  lemma SettledKeys(root: Bytes, p: Bytes)
    requires Settled(p) && ValidRoot(root)
    ensures CleanFTPPath(p) == p
    ensures JoinRoot(root, p) == KeyOf(root, Segs(p))
    ensures DirKey(root, p) == if p == ROOT then root else KeyOf(root, Segs(p)) + [SLASH]
  {
    SettledFixed(p);
    if p != ROOT {
      JoinSplit(p[1..]);
    }
    DirKeyShape(root, p);
  }

  lemma {:induction false} JoinInjective(a: seq<Bytes>, b: seq<Bytes>)
    requires a != [] && b != [] && AllNormal(a) && AllNormal(b) && Join(a) == Join(b)
    ensures a == b
  {
    SplitJoin(a);
    SplitJoin(b);
  }

  /** The path-to-key map is injective on settled paths. */
  lemma KeyInjective(root: Bytes, p: Bytes, q: Bytes)
    requires Settled(p) && Settled(q) && ValidRoot(root)
    ensures JoinRoot(root, p) == JoinRoot(root, q) <==> p == q
  {
    SettledKeys(root, p);
    SettledKeys(root, q);
    SegsOfPath(p);
    SegsOfPath(q);
    if JoinRoot(root, p) == JoinRoot(root, q) {
      var a, b := Segs(p), Segs(q);
      assert AllNormal(a) && AllNormal(b);
      if a != [] {
        JoinNonEmpty(a);
      }
      if b != [] {
        JoinNonEmpty(b);
      }
      assert a == [] <==> b == [];
      if a != [] {
        assert Join(a) == KeyOf(root, a)[|root|..] == KeyOf(root, b)[|root|..] == Join(b);
        JoinInjective(a, b);
      }
    }
  }

  lemma {:induction false} JoinExtends(a: seq<Bytes>, b: seq<Bytes>)
    requires a != [] && b != [] && AllNormal(a) && AllNormal(b)
    ensures a < b <==> Join(a) + [SLASH] <= Join(b)
  {
    if a < b {
      JoinExtendsOnly(a, b);
    }
    if Join(a) + [SLASH] <= Join(b) {
      var tail := Join(b)[|Join(a)| + 1..];
      assert Join(b) == Join(a) + [SLASH] + tail;
      SplitJoin(b);
      SplitTail(a, tail);
      assert b == a + Split(tail);
    }
  }

  lemma {:induction false} SplitTail(a: seq<Bytes>, tail: Bytes)
    requires a != [] && AllNormal(a)
    ensures Split(Join(a) + [SLASH] + tail) == a + Split(tail)
  {
    hide Split;
    assert Normal(a[0]);
    if |a| == 1 {
      SplitCons(a[0], tail);
    } else {
      SplitTail(a[1..], tail);
      JoinTail(a, tail);
      SplitCons(a[0], Join(a[1..]) + [SLASH] + tail);
      assert [a[0]] + (a[1..] + Split(tail)) == a + Split(tail);
    }
  }

  lemma JoinTail(a: seq<Bytes>, tail: Bytes)
    requires |a| > 1
    ensures Join(a) + [SLASH] + tail == a[0] + [SLASH] + (Join(a[1..]) + [SLASH] + tail)
  {
  }

  lemma {:induction false} JoinExtendsOnly(a: seq<Bytes>, b: seq<Bytes>)
    requires a != [] && a < b
    ensures Join(a) + [SLASH] <= Join(b)
  {
    assert a[0] == b[0];
    if |a| > 1 {
      assert a[1..] < b[1..];
      JoinExtendsOnly(a[1..], b[1..]);
      assert Join(a) + [SLASH] == a[0] + [SLASH] + (Join(a[1..]) + [SLASH]);
      PrefixCongruence(a[0] + [SLASH], Join(a[1..]) + [SLASH], Join(b[1..]));
    } else {
      assert Join(b) == (b[0] + [SLASH]) + Join(b[1..]);
    }
  }

  lemma PrefixCongruence(h: Bytes, x: Bytes, y: Bytes)
    requires x <= y
    ensures h + x <= h + y
  {
    assert y == x + y[|x|..];
    assert h + y == (h + x) + y[|x|..];
  }

  lemma PrefixUnder(h: Bytes, x: Bytes, y: Bytes)
    ensures h + x <= h + y <==> x <= y
  {
    if x <= y {
      PrefixCongruence(h, x, y);
    }
    if h + x <= h + y {
      assert (h + y)[|h|..] == y && (h + x)[|h|..] == x;
      assert y[..|x|] == (h + y)[|h|..|h| + |x|] == x;
    }
  }

  lemma SegmentOrder(a: seq<Bytes>, b: seq<Bytes>)
    requires AllNormal(a) && AllNormal(b) && a != [] && b != []
    ensures a < b <==> Join(a) + [SLASH] < Join(b)
  {
    JoinExtends(a, b);
    PathOfSegs(b);
    CleanedLastByte(PathOf(b));
    assert PathOf(b)[|PathOf(b)| - 1] == Join(b)[|Join(b)| - 1];
  }

  lemma KeySegmentOrder(root: Bytes, a: seq<Bytes>, b: seq<Bytes>)
    requires AllNormal(a) && AllNormal(b)
    ensures a < b <==> (if a == [] then root else KeyOf(root, a) + [SLASH]) < KeyOf(root, b)
  {
    hide Normal;
    if b != [] {
      JoinNonEmpty(b);
      if a != [] {
        hide Join;
        SegmentOrder(a, b);
        PrefixUnder(root, Join(a) + [SLASH], Join(b));
        assert KeyOf(root, a) + [SLASH] == root + (Join(a) + [SLASH]);
      }
    }
  }

  /** q lies strictly below p as a path exactly when q's key strictly extends
      p's directory key. */
  lemma KeyOrder(root: Bytes, p: Bytes, q: Bytes)
    requires Settled(p) && Settled(q) && ValidRoot(root)
    ensures Segs(p) < Segs(q) <==> DirKey(root, p) < JoinRoot(root, q)
  {
    hide CleanFTPPath, JoinRoot, DirKey, Split, Join, KeyOf;
    SettledKeys(root, p);
    SettledKeys(root, q);
    SettledFixed(p);
    SettledFixed(q);
    PathOfSegs(Segs(p));
    KeySegmentOrder(root, Segs(p), Segs(q));
  }

  // ---------------------------------------------------------------- what cleaning does, step by step

  /** A name below a directory. */
  function Child(d: Bytes, n: Bytes): Bytes {
    (if d == ROOT then [] else d) + [SLASH] + n
  }

  /** The path without its last segment; the root is its own parent. */
  function Parent(p: Bytes): Bytes
    requires p != [] && p[0] == SLASH
  {
    var segs := Segs(p);
    if segs == [] then ROOT else PathOf(segs[..|segs| - 1])
  }

  lemma {:induction false} JoinSnoc(a: seq<Bytes>, n: Bytes)
    requires a != []
    ensures Join(a + [n]) == Join(a) + [SLASH] + n
  {
    if |a| == 1 {
      assert (a + [n])[1..] == [n];
    } else {
      JoinSnoc(a[1..], n);
      assert (a + [n])[1..] == a[1..] + [n];
    }
  }

  lemma JoinSingle(n: Bytes)
    ensures Join([n]) == n
  {
  }

  lemma ChildOfPath(segs: seq<Bytes>, g: Bytes)
    requires AllNormal(segs)
    ensures PathOf(segs + [g]) == Child(PathOf(segs), g)
  {
    hide Join;
    PathOfSegs(segs);
    if segs == [] {
      assert segs + [g] == [g];
      JoinSingle(g);
    } else {
      JoinSnoc(segs, g);
      assert [SLASH] + (Join(segs) + [SLASH] + g) == [SLASH] + Join(segs) + [SLASH] + g;
    }
  }

  /** A cleaned path other than the root is its last name below its parent. */
  lemma LastName(p: Bytes)
    requires Cleaned(p) && p != ROOT
    ensures Cleaned(Parent(p)) && Normal(Base(p)) && p == Child(Parent(p), Base(p))
  {
    hide Split, Join, Normal;
    var segs := Segs(p);
    var front, g := segs[..|segs| - 1], segs[|segs| - 1];
    SegsOfPath(p);
    PathOfSegs(segs);
    PathOfSegs(front);
    assert front + [g] == segs;
    ChildOfPath(front, g);
    assert p == [] + [SLASH] + p[1..];
    assert Slashless([]);
    SplitCons([], p[1..]);
    assert Split(p) == [[]] + segs;
  }

  lemma ChildCleaned(d: Bytes, g: Bytes)
    requires Cleaned(d) && Normal(g)
    ensures Cleaned(Child(d, g)) && Child(d, g) != ROOT && Segs(Child(d, g)) == Segs(d) + [g]
  {
    hide Split, Join, Normal;
    SegsOfPath(d);
    PathOfSegs(Segs(d) + [g]);
    ChildOfPath(Segs(d), g);
  }

  /** The last name and the parent of a child are the name and the directory. */
  lemma ChildParts(d: Bytes, g: Bytes)
    requires Cleaned(d) && Normal(g)
    ensures Base(Child(d, g)) == g && Parent(Child(d, g)) == d
  {
    hide Split, Join, Normal;
    var p := Child(d, g);
    ChildCleaned(d, g);
    SegsOfPath(d);
    assert (Segs(d) + [g])[..|Segs(d)|] == Segs(d);
    assert p == [] + [SLASH] + p[1..];
    assert Slashless([]);
    SplitCons([], p[1..]);
    assert Split(p) == [[]] + (Segs(d) + [g]);
  }

  lemma {:induction false} ResolveAppend(a: seq<Bytes>, b: seq<Bytes>, stack: seq<Bytes>)
    requires (forall g :: g in a ==> Slashless(g)) && (forall g :: g in b ==> Slashless(g)) && AllNormal(stack)
    ensures Resolve(a + b, stack) == Resolve(b, Resolve(a, stack))
  {
    hide Slashless;
    if a == [] {
      assert a + b == b;
    } else {
      assert (a + b)[1..] == a[1..] + b && (a + b)[0] == a[0];
      if a[0] == [] || a[0] == [DOT] {
        ResolveAppend(a[1..], b, stack);
      } else if a[0] == DOTDOT {
        ResolveAppend(a[1..], b, if stack == [] then [] else stack[..|stack| - 1]);
      } else {
        assert Normal(a[0]);
        ResolveAppend(a[1..], b, stack + [a[0]]);
      }
    }
  }

  lemma SplitOne(g: Bytes)
    requires Slashless(g)
    ensures Split(g) == [g]
  {
  }

  lemma {:induction false} SplitAppend(a: Bytes, b: Bytes)
    ensures Split(a + [SLASH] + b) == Split(a) + Split(b)
    decreases |a|
  {
    hide Split;
    if Slashless(a) {
      SplitOne(a);
      SplitCons(a, b);
    } else {
      var i := FirstSlash(a);
      var rest := a[i + 1..];
      assert a == a[..i] + [SLASH] + rest;
      SplitAppend(rest, b);
      SplitCons(a[..i], rest);
      SplitCons(a[..i], rest + [SLASH] + b);
      assert a + [SLASH] + b == a[..i] + [SLASH] + (rest + [SLASH] + b);
      assert [a[..i]] + (Split(rest) + Split(b)) == [a[..i]] + Split(rest) + Split(b);
    }
  }

  lemma {:induction false} TrimLeftBefore(x: Bytes, t: Bytes)
    ensures TrimLeft(x + [SLASH] + t) == TrimLeft(x) + [SLASH] + t
    decreases |x|
  {
    var s := x + [SLASH] + t;
    LeadingBefore(x, t);
    var n := LeadingSpace(x);
    if n > 0 {
      TrimLeftBefore(x[n..], t);
      assert s[n..] == x[n..] + [SLASH] + t;
    }
  }

  lemma LeadingBefore(x: Bytes, t: Bytes)
    ensures LeadingSpace(x + [SLASH] + t) == LeadingSpace(x)
  {
    var s := x + [SLASH] + t;
    assert forall i | 0 <= i < |x| :: s[i] == x[i];
    assert s[|x|] == SLASH;
  }

  lemma {:induction false} TrimRightAfter(x: Bytes, t: Bytes)
    ensures TrimRight(x + [SLASH] + t) == x + [SLASH] + TrimRight(t)
    decreases |t|
  {
    hide TrailingSpace;
    var s := x + [SLASH] + t;
    assert s[|s| - |t|..] == t && s[|s| - |t| - 1] == SLASH;
    TrailingSpaceLast(s, t);
    var n := TrailingSpace(t);
    if n > 0 {
      TrimRightAfter(x, t[..|t| - n]);
      assert s[..|s| - n] == x + [SLASH] + t[..|t| - n];
    }
  }

  /** Cleaning is resolving the segments of what is left after trimming. */
  lemma CleanResolves(p: Bytes)
    ensures CleanFTPPath(p) == PathOf(Resolve(Split(TrimSpace(p)), []))
  {
    hide Join, TrimSpace;
    var t := TrimSpace(p);
    if t == [] {
      assert Split(t) == [[]];
      assert Resolve([[]], []) == Resolve([[]][1..], []);
    } else if t[0] != SLASH {
      CleanRootedTail(t);
    }
  }

  lemma CleanAtSlash(x: Bytes, t: Bytes)
    ensures CleanFTPPath(x + [SLASH] + t)
            == PathOf(Resolve(Split(TrimRight(t)), Resolve(Split(TrimLeft(x)), [])))
  {
    hide CleanFTPPath, TrimLeft, TrimRight, Split, Resolve, PathOf;
    CleanResolves(x + [SLASH] + t);
    TrimLeftBefore(x, t);
    TrimRightAfter(TrimLeft(x), t);
    SplitAppend(TrimLeft(x), TrimRight(t));
    ResolveAppend(Split(TrimLeft(x)), Split(TrimRight(t)), []);
  }

  lemma TrimRightEmpty()
    ensures TrimRight([]) == [] && Split([]) == [[]]
  {
  }

  lemma ResolveEmpty(stack: seq<Bytes>)
    requires AllNormal(stack)
    ensures Resolve([[]], stack) == stack
  {
    assert Resolve([[]], stack) == Resolve([[]][1..], stack);
  }

  /** The directory part of a path, up to a slash, is cleaned by resolving it alone. */
  lemma CleanDirectory(x: Bytes)
    ensures CleanFTPPath(x + [SLASH]) == PathOf(Resolve(Split(TrimLeft(x)), []))
  {
    hide CleanFTPPath, TrimLeft, TrimRight, Split, PathOf;
    CleanAtSlash(x, []);
    TrimRightEmpty();
    ResolveEmpty(Resolve(Split(TrimLeft(x)), []));
    assert x + [SLASH] + [] == x + [SLASH];
  }

  lemma ResolveCleaned(c: Bytes)
    requires Cleaned(c)
    ensures Resolve(Split(TrimLeft(c)), []) == Segs(c)
  {
    hide TrimLeft, Split, Normal;
    TrimLeftRooted(c);
    assert c == [] + [SLASH] + c[1..];
    assert Slashless([]);
    SplitCons([], c[1..]);
    assert ([[]] + Split(c[1..]))[1..] == Split(c[1..]);
    if c == ROOT {
      TrimRightEmpty();
      assert c[1..] == [];
      ResolveEmpty([]);
    } else {
      ResolveNormal(Segs(c), [], []);
      assert Segs(c) + [] == Segs(c) == [] + Segs(c);
    }
  }

  /** Cleaning composes, for all byte strings: cleaning the part before a slash first
      makes no difference to the whole. */
  lemma CleanComposes(x: Bytes, t: Bytes)
    ensures CleanFTPPath(x + [SLASH] + t) == CleanFTPPath(CleanFTPPath(x + [SLASH]) + [SLASH] + t)
  {
    hide CleanFTPPath, TrimLeft, TrimRight, Split, PathOf, Resolve, Cleaned, Segs;
    var c := CleanFTPPath(x + [SLASH]);
    var stack := Resolve(Split(TrimLeft(x)), []);
    CleanDirectory(x);
    CleanAtSlash(x, t);
    CleanAtSlash(c, t);
    PathOfSegs(stack);
    ResolveCleaned(c);
  }

  /** What following one segment from a cleaned path means. */
  function Follow(p: Bytes, g: Bytes): Bytes
    requires Cleaned(p)
  {
    if g == [] || g == [DOT] then p else if g == DOTDOT then Parent(p) else Child(p, g)
  }

  lemma ResolveOne(g: Bytes, stack: seq<Bytes>)
    requires Slashless(g) && AllNormal(stack)
    ensures Cleaned(PathOf(stack))
    ensures PathOf(Resolve([g], stack)) == Follow(PathOf(stack), g)
  {
    hide Split, Join, Slashless;
    PathOfSegs(stack);
    assert [g][1..] == [];
    if g != [] && g != [DOT] && g != DOTDOT {
      assert Normal(g);
      ChildOfPath(stack, g);
    }
  }

  /** Each segment of a path is followed in turn, whatever bytes it is made of: empty
      segments and `.` stay, `..` goes to the parent, any other goes to the child. */
  lemma CleanFollows(x: Bytes, g: Bytes)
    requires Slashless(g)
    ensures Cleaned(CleanFTPPath(x + [SLASH]))
    ensures CleanFTPPath(x + [SLASH] + g + [SLASH]) == Follow(CleanFTPPath(x + [SLASH]), g)
    ensures !EndsInSpace(g) ==> CleanFTPPath(x + [SLASH] + g) == Follow(CleanFTPPath(x + [SLASH]), g)
  {
    hide CleanFTPPath, TrimLeft, TrimRight, Split, PathOf, Resolve, Cleaned, Segs, Follow, EndsInSpace;
    var stack := Resolve(Split(TrimLeft(x)), []);
    CleanDirectory(x);
    ResolveOne(g, stack);
    SplitOne(g);
    CleanAtSlash(x, g);
    TrimRightNoSpace(g);
    CleanAtSlash(x, g + [SLASH]);
    TrimRightEmpty();
    TrimRightAfter(g, []);
    assert g + [SLASH] + [] == g + [SLASH];
    SplitAppend(g, []);
    ResolveAppend([g], [[]], stack);
    ResolveEmpty(Resolve([g], stack));
    assert x + [SLASH] + (g + [SLASH]) == x + [SLASH] + g + [SLASH];
  }

  /** `..` undoes a step to a child and stays at the root; `.` stays anywhere. */
  lemma CleanDots(p: Bytes, g: Bytes)
    requires Cleaned(p) && Normal(g)
    ensures CleanFTPPath(Child(p, g) + [SLASH, DOT, DOT]) == p
    ensures CleanFTPPath([SLASH, DOT, DOT]) == ROOT
    ensures CleanFTPPath(p + [SLASH, DOT]) == p
  {
    hide CleanFTPPath, Cleaned, Normal, Child, Segs, Parent;
    ChildCleaned(p, g);
    ChildParts(p, g);
    DotsSolid();
    CleanDropsTrailingSlash(Child(p, g));
    CleanFollows(Child(p, g), DOTDOT);
    assert Child(p, g) + [SLASH] + DOTDOT == Child(p, g) + [SLASH, DOT, DOT];
    CleanDropsTrailingSlash(p);
    CleanFollows(p, [DOT]);
    assert p + [SLASH] + [DOT] == p + [SLASH, DOT];
    CleanFollows([], DOTDOT);
    CleanRoot();
    assert [] + [SLASH] == [SLASH];
    assert [SLASH] + DOTDOT == [SLASH, DOT, DOT];
  }

  lemma DotsSolid()
    ensures Slashless(DOTDOT) && Slashless([DOT]) && !EndsInSpace(DOTDOT) && !EndsInSpace([DOT])
  {
  }

  lemma CleanRoot()
    ensures Cleaned(ROOT) && CleanFTPPath(ROOT) == ROOT && Parent(ROOT) == ROOT
  {
    assert Cleaned(ROOT);
    CleanDropsTrailingSlash(ROOT);
    SettledFixed(ROOT);
  }

  /** A slash after a cleaned path, the root included, is dropped, so white space
      before it survives the first cleaning and not the second. */
  lemma CleanDropsTrailingSlash(p: Bytes)
    requires Cleaned(p)
    ensures CleanFTPPath(p + [SLASH]) == p
  {
    hide CleanFTPPath, TrimLeft, Split, PathOf, Resolve, Segs;
    CleanDirectory(p);
    ResolveCleaned(p);
    SegsOfPath(p);
  }

  /** Going up from a cleaned path and on from there is going on from its parent. */
  lemma CleanUp(p: Bytes, t: Bytes)
    requires Cleaned(p)
    ensures CleanFTPPath(p + [SLASH, DOT, DOT, SLASH] + t) == CleanFTPPath(Parent(p) + [SLASH] + t)
  {
    hide CleanFTPPath, Cleaned, Segs, Parent;
    DotsSolid();
    CleanDropsTrailingSlash(p);
    CleanFollows(p, DOTDOT);
    CleanComposes(p + [SLASH] + DOTDOT, t);
    assert p + [SLASH] + DOTDOT + [SLASH] + t == p + [SLASH, DOT, DOT, SLASH] + t;
  }

  // ---------------------------------------------------------------- white space and relative paths

  /** The UTF-8 encoding of a code point. */
  function Utf8(cp: int): Bytes
    requires 0 <= cp < 0x110000
  {
    if cp < 0x80 then [cp]
    else if cp < 0x800 then [0xC0 + cp / 64, 0x80 + cp % 64]
    else if cp < 0x10000 then [0xE0 + cp / 4096, 0x80 + cp / 64 % 64, 0x80 + cp % 64]
    else [0xF0 + cp / 262144, 0x80 + cp / 4096 % 64, 0x80 + cp / 64 % 64, 0x80 + cp % 64]
  }

  /** The code points with the White_Space property. */
  predicate WhiteSpace(cp: int) {
    || 0x09 <= cp <= 0x0D || cp == 0x20 || cp == 0x85 || cp == 0xA0 || cp == 0x1680
    || 0x2000 <= cp <= 0x200A || cp == 0x2028 || cp == 0x2029 || cp == 0x202F || cp == 0x205F || cp == 0x3000
  }

  lemma TwoBytes(cp: int)
    requires 0x80 <= cp < 0x800
    ensures Space2(0xC0 + cp / 64, 0x80 + cp % 64) <==> WhiteSpace(cp)
  {
  }

  lemma ThreeBytes(cp: int)
    requires 0x800 <= cp < 0x10000
    ensures Space3(0xE0 + cp / 4096, 0x80 + cp / 64 % 64, 0x80 + cp % 64) <==> WhiteSpace(cp)
  {
    var a, b, c := cp / 4096, cp / 64 % 64, cp % 64;
    assert cp == 4096 * a + 64 * b + c;
  }

  /** A white-space rune at either end is recognized, and no other code point is. */
  lemma SpaceRunes(cp: int, s: Bytes)
    requires 0 <= cp < 0x110000
    ensures LeadingSpace(Utf8(cp) + s) == if WhiteSpace(cp) then |Utf8(cp)| else 0
    ensures TrailingSpace(s + Utf8(cp)) == if WhiteSpace(cp) then |Utf8(cp)| else 0
  {
    var u := Utf8(cp);
    var left, right := u + s, s + u;
    assert forall i | 0 <= i < |u| :: left[i] == u[i] && right[|s| + i] == u[i];
    if cp < 0x80 {
    } else if cp < 0x800 {
      TwoBytes(cp);
    } else if cp < 0x10000 {
      ThreeBytes(cp);
    }
  }

  lemma LeadingBeforeSpace(p: Bytes, cp: int)
    requires 0 <= cp < 0x110000 && WhiteSpace(cp) && p != []
    ensures LeadingSpace(p + Utf8(cp)) == LeadingSpace(p)
  {
    var w := Utf8(cp);
    var s := p + w;
    assert forall i | 0 <= i < |p| :: s[i] == p[i];
    assert s[|p|] == w[0];
    assert w[0] < 0x80 || w[0] >= 0xC0;
  }

  lemma {:induction false} TrimBeforeSpace(p: Bytes, cp: int)
    requires 0 <= cp < 0x110000 && WhiteSpace(cp)
    ensures TrimSpace(p + Utf8(cp)) == TrimSpace(p)
    decreases |p|
  {
    hide LeadingSpace, TrailingSpace;
    var w := Utf8(cp);
    SpaceRunes(cp, p);
    SpaceRunes(cp, []);
    hide Utf8, WhiteSpace;
    assert (p + w)[..|p|] == p;
    if p == [] {
      assert p + w == w + [] == w && w[|w|..] == [];
      TrimEmpty();
    } else {
      LeadingBeforeSpace(p, cp);
      var n := LeadingSpace(p);
      if n > 0 {
        TrimBeforeSpace(p[n..], cp);
        assert (p + w)[n..] == p[n..] + w;
      }
    }
  }

  lemma TrimEmpty()
    ensures TrimLeft([]) == [] == TrimRight([])
  {
  }

  /** White space around a path does not matter, for every white-space code point. */
  lemma CleanIgnoresSpace(cp: int, p: Bytes)
    requires 0 <= cp < 0x110000 && WhiteSpace(cp)
    ensures CleanFTPPath(Utf8(cp) + p) == CleanFTPPath(p) == CleanFTPPath(p + Utf8(cp))
  {
    hide LeadingSpace, CleanRooted, TrimRight;
    SpaceRunes(cp, p);
    TrimBeforeSpace(p, cp);
    var w := Utf8(cp);
    hide Utf8, WhiteSpace;
    assert (w + p)[|w|..] == p;
  }

  /** A relative path cleans like the same path below the root, unless it starts with
      white space, which is trimmed only where the path begins. */
  lemma CleanRelative(p: Bytes)
    requires LeadingSpace(p) == 0
    ensures CleanFTPPath([SLASH] + p) == CleanFTPPath(p)
  {
    hide CleanFTPPath, TrimRight, Split, PathOf, LeadingSpace;
    CleanResolves(p);
    CleanAtSlash([], p);
    TrimEmpty();
    TrimRightEmpty();
    ResolveEmpty([]);
    assert [] + [SLASH] + p == [SLASH] + p;
  }
}
