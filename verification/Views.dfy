/** What the file system operations mean when no store call fails: one-shot
    functions on the whole bucket, and the laws that relate them. */
module Views {
  import opened Bytes
  import opened Paths
  import opened Buckets

  datatype View = View(root: Bytes, dirMarker: bool, readOnly: bool)

  datatype Info = Info(name: Bytes, size: nat, isDir: bool)

  datatype Outcome = Outcome(result: Result<()>, objects: Objects)

  // ---------------------------------------------------------------- Stat

  datatype Kind = Missing | File(size: nat) | Dir

  /** What is at a key: a file hides a directory of the same name. */
  function KindAt(m: Objects, key: Bytes, dir: Bytes): Kind {
    if key == [] then Dir
    else if key in m then File(|m[key]|)
    else if KeysUnder(m, dir) != {} then Dir
    else Missing
  }

  function StatOf(v: View, m: Objects, name: Bytes): Result<Info> {
    var clean := CleanFTPPath(name);
    var key := JoinRoot(v.root, clean);
    if clean == ROOT || key == [] then Ok(Info(ROOT, 0, true))
    else
      match KindAt(m, key, DirKey(v.root, clean))
      case File(n) => Ok(Info(Base(clean), n, false))
      case Dir => Ok(Info(Base(clean), 0, true))
      case Missing => Err(NotExist)
  }

  lemma StatError(v: View, m: Objects, name: Bytes)
    ensures StatOf(v, m, name).Err? ==> StatOf(v, m, name) == Err(NotExist)
  {
    hide CleanFTPPath, JoinRoot, DirKey;
  }

  // ---------------------------------------------------------------- directories

  function MkdirOf(v: View, m: Objects, name: Bytes): Outcome {
    var clean := CleanFTPPath(name);
    var dir := DirKey(v.root, clean);
    if v.readOnly then Outcome(Err(ReadOnly), m)
    else if clean == ROOT then Outcome(Ok(()), m)
    else if JoinRoot(v.root, clean) in m || KeysUnder(m, dir) != {} then Outcome(Err(Exist), m)
    else Outcome(Ok(()), if v.dirMarker then m[dir := []] else m)
  }

  function MkdirAllOf(v: View, m: Objects, name: Bytes): Outcome {
    var clean := CleanFTPPath(name);
    if v.readOnly then Outcome(Err(ReadOnly), m)
    else if clean == ROOT || StatOf(v, m, clean).Ok? then Outcome(Ok(()), m)
    else MkdirOf(v, m, clean)
  }

  /** Removing a directory that is taken to be empty or not. */
  function RemoveDirIf(v: View, m: Objects, name: Bytes, empty: bool): Outcome {
    var clean := CleanFTPPath(name);
    var dir := DirKey(v.root, clean);
    if v.readOnly then Outcome(Err(ReadOnly), m)
    else if clean == ROOT then Outcome(Err(AccessDenied), m)
    else
      match StatOf(v, m, clean)
      case Err(e) => Outcome(Err(e), m)
      case Ok(info) =>
        if !info.isDir then Outcome(Err(NotDirectory), m)
        else if empty then Outcome(Ok(()), m - {dir})
        else Outcome(Err(NotEmpty), m)
  }

  function RemoveDirOf(v: View, m: Objects, name: Bytes): Outcome {
    var dir := DirKey(v.root, CleanFTPPath(name));
    RemoveDirIf(v, m, name, KeysUnder(m, dir) <= {dir})
  }

  function RemoveOf(v: View, m: Objects, name: Bytes): Outcome {
    var clean := CleanFTPPath(name);
    if v.readOnly then Outcome(Err(ReadOnly), m)
    else if clean == ROOT then Outcome(Err(AccessDenied), m)
    else
      match StatOf(v, m, clean)
      case Err(e) => Outcome(Err(e), m)
      case Ok(info) =>
        if info.isDir then RemoveDirOf(v, m, clean)
        else Outcome(Ok(()), m - {JoinRoot(v.root, clean)})
  }

  function RemoveAllOf(v: View, m: Objects, name: Bytes): Outcome {
    var clean := CleanFTPPath(name);
    if v.readOnly then Outcome(Err(ReadOnly), m)
    else if clean == ROOT then Outcome(Err(AccessDenied), m)
    else
      var stat := StatOf(v, m, clean);
      if stat.Ok? && !stat.value.isDir then Outcome(Ok(()), m - {JoinRoot(v.root, clean)})
      else Outcome(Ok(()), m - KeysUnder(m, DirKey(v.root, clean)))
  }

  // ---------------------------------------------------------------- Rename

  function Target(a: Bytes, b: Bytes, k: Bytes): Bytes
    requires a <= k
  {
    b + k[|a|..]
  }

  lemma TargetBack(a: Bytes, b: Bytes, k: Bytes)
    requires a <= k
    ensures b <= Target(a, b, k) && Target(b, a, Target(a, b, k)) == k
  {
    assert Target(a, b, k)[|b|..] == k[|a|..];
    assert k == a + k[|a|..];
  }

  function Targets(m: Objects, a: Bytes, b: Bytes): (ts: set<Bytes>)
    ensures forall t :: t in ts ==> b <= t && a <= Target(b, a, t) && Target(b, a, t) in m
  {
    var ts := set k | k in m && a <= k :: Target(a, b, k);
    assert forall t :: t in ts ==> b <= t && a <= Target(b, a, t) && Target(b, a, t) in m by {
      forall t | t in ts
        ensures b <= t && a <= Target(b, a, t) && Target(b, a, t) in m
      {
        var k :| k in m && a <= k && t == Target(a, b, k);
        TargetBack(a, b, k);
      }
    }
    ts
  }

  /** The bucket with every key under prefix a moved to prefix b. */
  function Moved(m: Objects, a: Bytes, b: Bytes): Objects {
    (map k | k in m && !(a <= k) :: m[k]) + (map t | t in Targets(m, a, b) :: m[Target(b, a, t)])
  }

  function RenameFileOf(m: Objects, from: Bytes, to: Bytes, toDir: Bytes): Outcome {
    if KeysUnder(m, toDir) != {} then Outcome(Err(IsDirectory), m)
    else if from !in m then Outcome(Err(NoSuchKey), m)
    else Outcome(Ok(()), m[to := m[from]] - {from})
  }

  function RenameDirOf(m: Objects, a: Bytes, b: Bytes): Outcome {
    if a == [] then Outcome(Err(AccessDenied), m)
    else if a <= b then Outcome(Err(Invalid), m)
    else if KeysUnder(m, b) != {} then Outcome(Err(NotEmpty), m)
    else Outcome(Ok(()), Moved(m, a, b))
  }

  function RenameOf(v: View, m: Objects, oldname: Bytes, newname: Bytes): Outcome {
    var oldClean, newClean := CleanFTPPath(oldname), CleanFTPPath(newname);
    if v.readOnly then Outcome(Err(ReadOnly), m)
    else if oldClean == newClean then Outcome(Ok(()), m)
    else if oldClean == ROOT || newClean == ROOT then Outcome(Err(AccessDenied), m)
    else
      match StatOf(v, m, oldClean)
      case Err(e) => Outcome(Err(e), m)
      case Ok(info) =>
        if info.isDir then RenameDirOf(m, DirKey(v.root, oldClean), DirKey(v.root, newClean))
        else RenameFileOf(m, JoinRoot(v.root, oldClean), JoinRoot(v.root, newClean), DirKey(v.root, newClean))
  }

  // ---------------------------------------------------------------- handles

  datatype Flags = Flags(writeOnly: bool, readWrite: bool, create: bool, append: bool, trunc: bool)

  datatype Handle = Upload(key: Bytes) | Download(key: Bytes)

  predicate WantsWrite(f: Flags) {
    f.writeOnly || f.readWrite || f.create || f.append || f.trunc
  }

  /** Which handle a path is opened with, and the key it works on. */
  function HandleOf(v: View, name: Bytes, flags: Flags): Result<Handle> {
    var clean := CleanFTPPath(name);
    if clean == ROOT then Err(IsDirectory)
    else if WantsWrite(flags) then
      if v.readOnly then Err(ReadOnly) else Ok(Upload(JoinRoot(v.root, clean)))
    else Ok(Download(JoinRoot(v.root, clean)))
  }

  /** On a settled path every flag but reading asks for an upload, which a read-only
      view refuses; the handle works on the key read off the path's segments. */
  lemma HandleExactly(v: View, p: Bytes, flags: Flags)
    requires ValidRoot(v.root) && Settled(p)
    ensures var key := KeyOf(v.root, Segs(p));
            HandleOf(v, p, flags) ==
            if p == ROOT then Err(IsDirectory)
            else if flags == Flags(false, false, false, false, false) then Ok(Download(key))
            else if v.readOnly then Err(ReadOnly)
            else Ok(Upload(key))
  {
    hide CleanFTPPath, JoinRoot, Settled, KeyOf, Segs;
    SettledKeys(v.root, p);
  }

  // ---------------------------------------------------------------- laws of moving

  /** The refusals of a directory rename leave two prefixes of which neither
      extends the other, as soon as there is anything to move. */
  lemma PrefixesIncomparable(m: Objects, a: Bytes, b: Bytes)
    requires RenameDirOf(m, a, b).result.Ok? && KeysUnder(m, a) != {}
    ensures !(a <= b) && !(b <= a)
  {
    var k :| k in KeysUnder(m, a);
    PrefixTransitive(b, a, k);
  }

  lemma MovedAt(m: Objects, a: Bytes, b: Bytes, k: Bytes)
    requires k in m && a <= k
    ensures Target(a, b, k) in Moved(m, a, b) && Moved(m, a, b)[Target(a, b, k)] == m[k]
  {
    TargetBack(a, b, k);
    assert Target(a, b, k) in Targets(m, a, b);
  }

  lemma NoneOutside(m: Objects, a: Bytes, b: Bytes)
    requires !(a <= b) && KeysUnder(m, b) == {}
    ensures forall t :: t in Targets(m, a, b) ==> !(a <= t)
  {
    forall t | t in Targets(m, a, b)
      ensures !(a <= t)
    {
      var k := Target(b, a, t);
      PrefixesComparable(a, b, t);
      PrefixTransitive(b, a, k);
      assert k !in KeysUnder(m, b);
    }
  }

  /** A directory rename that is not refused is exact: each key a+s has become b+s
      with the same body, every other key is unchanged, and no object is gained
      or lost. */
  lemma RenameDirExact(m: Objects, a: Bytes, b: Bytes)
    requires RenameDirOf(m, a, b).result.Ok?
    ensures var m' := RenameDirOf(m, a, b).objects;
            && (forall k :: k in m && a <= k ==> Target(a, b, k) in m' && m'[Target(a, b, k)] == m[k])
            && (forall t :: t in m' && b <= t ==> Target(b, a, t) in m)
            && KeysUnder(m', a) == {}
            && (forall k :: !(a <= k) && !(b <= k) ==> (k in m' <==> k in m))
            && (forall k :: !(a <= k) && !(b <= k) && k in m ==> m'[k] == m[k])
            && |m'| == |m|
  {
    var m' := Moved(m, a, b);
    forall k | k in m && a <= k
      ensures Target(a, b, k) in m' && m'[Target(a, b, k)] == m[k]
    {
      MovedAt(m, a, b, k);
    }
    NoneOutside(m, a, b);
    forall t | t in m' && b <= t
      ensures Target(b, a, t) in m
    {
      assert t in KeysUnder(m, b) || t in Targets(m, a, b);
    }
    MovedCount(m, a, b);
  }

  lemma {:induction false} ImageCount(s: set<Bytes>, a: Bytes, b: Bytes)
    requires forall k :: k in s ==> a <= k
    ensures |set k | k in s :: Target(a, b, k)| == |s|
  {
    var img := set k | k in s && a <= k :: Target(a, b, k);
    assert img == set k | k in s :: Target(a, b, k);
    if s != {} {
      var x :| x in s;
      var r := s - {x};
      ImageCount(r, a, b);
      var rest := set k | k in r && a <= k :: Target(a, b, k);
      assert rest == set k | k in r :: Target(a, b, k);
      TargetBack(a, b, x);
      assert Target(a, b, x) !in rest by {
        if Target(a, b, x) in rest {
          var k :| k in r && a <= k && Target(a, b, k) == Target(a, b, x);
          TargetBack(a, b, k);
        }
      }
      assert img == rest + {Target(a, b, x)};
    }
  }

  lemma MovedKeys(m: Objects, a: Bytes, b: Bytes)
    requires KeysUnder(m, b) == {}
    ensures Moved(m, a, b).Keys == (m.Keys - KeysUnder(m, a)) + Targets(m, a, b)
    ensures m.Keys !! Targets(m, a, b)
  {
    forall t | t in Targets(m, a, b)
      ensures t !in m
    {
      assert t !in KeysUnder(m, b);
    }
  }

  lemma TargetsCount(m: Objects, a: Bytes, b: Bytes)
    ensures |Targets(m, a, b)| == |KeysUnder(m, a)|
  {
    var s := KeysUnder(m, a);
    ImageCount(s, a, b);
    assert Targets(m, a, b) == set k | k in s :: Target(a, b, k);
  }

  lemma SwapCount(all: set<Bytes>, s: set<Bytes>, ts: set<Bytes>)
    requires s <= all && all !! ts && |s| == |ts|
    ensures |(all - s) + ts| == |all|
  {
    assert all == (all - s) + s;
    assert |all - s| + |s| == |all|;
    assert (all - s) !! ts;
  }

  lemma MovedCount(m: Objects, a: Bytes, b: Bytes)
    requires KeysUnder(m, b) == {}
    ensures |Moved(m, a, b)| == |m|
  {
    assert KeysUnder(m, a) <= m.Keys;
    hide Targets, Moved, KeysUnder;
    TargetsCount(m, a, b);
    MovedKeys(m, a, b);
    SwapCount(m.Keys, KeysUnder(m, a), Targets(m, a, b));
    assert |Moved(m, a, b).Keys| == |Moved(m, a, b)|;
  }

  lemma MovedBackAt(m: Objects, a: Bytes, b: Bytes, k: Bytes)
    requires !(a <= b) && KeysUnder(m, b) == {} && k in m
    ensures var m'' := Moved(Moved(m, a, b), b, a); k in m'' && m''[k] == m[k]
  {
    var m' := Moved(m, a, b);
    NoneOutside(m, a, b);
    if a <= k {
      MovedAt(m, a, b, k);
      TargetBack(a, b, k);
      MovedAt(m', b, a, Target(a, b, k));
    } else {
      assert k !in KeysUnder(m, b);
      hide KeysUnder;
      assert k in m' && m'[k] == m[k];
      assert k !in Targets(m', b, a);
    }
  }

  lemma MovedBackFrom(m: Objects, a: Bytes, b: Bytes, k: Bytes)
    requires KeysUnder(m, b) == {} && k in Moved(Moved(m, a, b), b, a)
    ensures k in m
  {
    var m' := Moved(m, a, b);
    if k in Targets(m', b, a) {
      var t := Target(a, b, k);
      TargetBack(a, b, k);
      assert t !in KeysUnder(m, b);
    }
  }

  /** Moving back restores the bucket exactly. */
  lemma MovedBack(m: Objects, a: Bytes, b: Bytes)
    requires !(a <= b) && KeysUnder(m, b) == {}
    ensures Moved(Moved(m, a, b), b, a) == m
  {
    var m' := Moved(m, a, b);
    var m'' := Moved(m', b, a);
    forall k | k in m
      ensures k in m'' && m''[k] == m[k]
    {
      MovedBackAt(m, a, b, k);
    }
    forall k | k in m''
      ensures k in m
    {
      MovedBackFrom(m, a, b, k);
    }
  }

  // ---------------------------------------------------------------- there and back

  /** A settled path other than the root, with its two keys. */
  predicate Names(v: View, p: Bytes, key: Bytes, dir: Bytes) {
    && Settled(p) && p != ROOT
    && key == JoinRoot(v.root, p) && dir == DirKey(v.root, p)
  }

  lemma NamesFacts(v: View, p: Bytes, key: Bytes, dir: Bytes)
    requires ValidRoot(v.root) && Names(v, p, key, dir)
    ensures CleanFTPPath(p) == p && key != [] && dir == key + [SLASH] && !(dir <= key)
  {
    hide CleanFTPPath, JoinRoot, DirKey, Settled;
    SettledFixed(p);
    DirKeyShape(v.root, p);
  }

  /** For settled names, a rename is decided by the two pairs of keys alone. */
  lemma RenameByKeys(v: View, m: Objects, p: Bytes, kp: Bytes, dp: Bytes, q: Bytes, kq: Bytes, dq: Bytes)
    requires ValidRoot(v.root) && !v.readOnly && p != q
    requires Names(v, p, kp, dp) && Names(v, q, kq, dq)
    ensures RenameOf(v, m, p, q) ==
            match KindAt(m, kp, dp)
            case File(_) => RenameFileOf(m, kp, kq, dq)
            case Dir => RenameDirOf(m, dp, dq)
            case Missing => Outcome(Err(NotExist), m)
  {
    hide CleanFTPPath, JoinRoot, DirKey, Settled, RenameDirOf, RenameFileOf, KindAt, Base;
    NamesFacts(v, p, kp, dp);
    NamesFacts(v, q, kq, dq);
  }

  lemma DistinctKeys(v: View, p: Bytes, kp: Bytes, dp: Bytes, q: Bytes, kq: Bytes, dq: Bytes)
    requires ValidRoot(v.root) && p != q && Names(v, p, kp, dp) && Names(v, q, kq, dq)
    ensures kp != kq && dp != dq
  {
    hide CleanFTPPath, JoinRoot, DirKey, Settled;
    KeyInjective(v.root, p, q);
    NamesFacts(v, p, kp, dp);
    NamesFacts(v, q, kq, dq);
    assert dp[..|dp| - 1] == kp && dq[..|dq| - 1] == kq;
  }

  /** Renaming a directory to q and back restores the bucket exactly when no
      object had q's own key; such an object makes q a file, and the way back
      moves that file instead. */
  lemma RenameRoundTrip(v: View, m: Objects, p: Bytes, q: Bytes)
    requires ValidRoot(v.root) && !v.readOnly && p != q
    requires Settled(p) && Settled(q) && p != ROOT && q != ROOT
    requires KindAt(m, JoinRoot(v.root, p), DirKey(v.root, p)) == Dir
    requires RenameOf(v, m, p, q).result.Ok?
    ensures RenameOf(v, RenameOf(v, m, p, q).objects, q, p) == Outcome(Ok(()), m)
            <==> JoinRoot(v.root, q) !in m
  {
    hide CleanFTPPath, JoinRoot, DirKey, Settled, RenameOf;
    var kp, dp, kq, dq := JoinRoot(v.root, p), DirKey(v.root, p), JoinRoot(v.root, q), DirKey(v.root, q);
    NamesFacts(v, p, kp, dp);
    NamesFacts(v, q, kq, dq);
    DistinctKeys(v, p, kp, dp, q, kq, dq);
    RenameByKeys(v, m, p, kp, dp, q, kq, dq);
    var m' := RenameOf(v, m, p, q).objects;
    RenameByKeys(v, m', q, kq, dq, p, kp, dp);
    KeyRoundTrip(m, kp, dp, kq, dq);
  }

  lemma DirKeyOrder(root: Bytes, p: Bytes, q: Bytes)
    requires ValidRoot(root) && Settled(p) && Settled(q) && p != ROOT && q != ROOT && p != q
    ensures DirKey(root, p) <= DirKey(root, q) <==> Segs(p) < Segs(q)
  {
    hide CleanFTPPath, JoinRoot, DirKey, Settled, Segs;
    var v := View(root, false, false);
    var kp, dp, kq, dq := JoinRoot(root, p), DirKey(root, p), JoinRoot(root, q), DirKey(root, q);
    NamesFacts(v, p, kp, dp);
    NamesFacts(v, q, kq, dq);
    DistinctKeys(v, p, kp, dp, q, kq, dq);
    KeyOrder(root, p, q);
    DirKeyShape(root, q);
    if dp <= dq {
      assert dp <= kq;
    }
    if dp < kq {
      PrefixTransitive(dp, kq, dq);
    }
  }

  /** What Rename answers on settled paths, told by Stat, by the order of the paths
      and by what lies below the new one: a directory is not moved into itself nor onto
      a directory that has anything in it, a file not onto any directory, and
      everything else succeeds. A refusal changes nothing. */
  lemma RenameAnswers(v: View, m: Objects, p: Bytes, q: Bytes)
    requires ValidRoot(v.root) && Settled(p) && Settled(q)
    ensures var occupied := KeysUnder(m, DirKey(v.root, q)) != {};
            RenameOf(v, m, p, q).result ==
            if v.readOnly then Err(ReadOnly)
            else if p == q then Ok(())
            else if p == ROOT || q == ROOT then Err(AccessDenied)
            else
              match StatOf(v, m, p)
              case Err(e) => Err(e)
              case Ok(info) =>
                if !info.isDir then (if occupied then Err(IsDirectory) else Ok(()))
                else if Segs(p) < Segs(q) then Err(Invalid)
                else if occupied then Err(NotEmpty)
                else Ok(())
    ensures RenameOf(v, m, p, q).result.Err? ==> RenameOf(v, m, p, q).objects == m
  {
    hide CleanFTPPath, JoinRoot, DirKey, Settled, Segs, KeysUnder, StatOf, RenameOf, Moved, KindAt;
    if v.readOnly || p == q || p == ROOT || q == ROOT {
      RenameAtOnce(v, m, p, q);
    } else {
      var kp, dp, kq, dq := JoinRoot(v.root, p), DirKey(v.root, p), JoinRoot(v.root, q), DirKey(v.root, q);
      NamesFacts(v, p, kp, dp);
      RenameByKeys(v, m, p, kp, dp, q, kq, dq);
      StatByKeys(v, m, p, kp, dp);
      DirKeyOrder(v.root, p, q);
      FileInside(m, kp, dp);
    }
  }

  lemma RenameAtOnce(v: View, m: Objects, p: Bytes, q: Bytes)
    requires Settled(p) && Settled(q) && (v.readOnly || p == q || p == ROOT || q == ROOT)
    ensures RenameOf(v, m, p, q) ==
            Outcome(if v.readOnly then Err(ReadOnly) else if p == q then Ok(()) else Err(AccessDenied), m)
  {
    hide CleanFTPPath, JoinRoot, DirKey, Settled, StatOf;
    SettledFixed(p);
    SettledFixed(q);
  }

  /** For a settled name, Stat is decided by its two keys alone. */
  lemma StatByKeys(v: View, m: Objects, p: Bytes, key: Bytes, dir: Bytes)
    requires ValidRoot(v.root) && Names(v, p, key, dir)
    ensures StatOf(v, m, p) ==
            match KindAt(m, key, dir)
            case File(n) => Ok(Info(Base(p), n, false))
            case Dir => Ok(Info(Base(p), 0, true))
            case Missing => Err(NotExist)
  {
    hide CleanFTPPath, JoinRoot, DirKey, Settled, KindAt, Base;
    NamesFacts(v, p, key, dir);
  }

  lemma FileInside(m: Objects, key: Bytes, dir: Bytes)
    requires key != []
    ensures KindAt(m, key, dir).File? <==> key in m
    ensures KindAt(m, key, dir).Dir? <==> key !in m && KeysUnder(m, dir) != {}
  {
  }

  /** After the move, a fresh key t exists under the new prefix. */
  lemma MovedWitness(m: Objects, dp: Bytes, dq: Bytes) returns (t: Bytes)
    requires KeysUnder(m, dp) != {} && RenameDirOf(m, dp, dq).result.Ok?
    ensures t in Moved(m, dp, dq) && t !in m && dq <= t
  {
    var k :| k in KeysUnder(m, dp);
    t := Target(dp, dq, k);
    MovedAt(m, dp, dq, k);
    assert t !in KeysUnder(m, dq);
  }

  lemma MovedSelf(m: Objects, dp: Bytes, kq: Bytes, dq: Bytes)
    requires dq == kq + [SLASH] && RenameDirOf(m, dp, dq).result.Ok?
    ensures !(dp <= kq) && (kq in Moved(m, dp, dq) <==> kq in m)
  {
    PrefixTransitive(dp, kq, dq);
    assert kq !in Targets(m, dp, dq);
  }

  lemma BackByDir(m: Objects, dp: Bytes, dq: Bytes)
    requires dp != [] && dq != [] && KeysUnder(m, dp) != {} && RenameDirOf(m, dp, dq).result.Ok?
    ensures RenameDirOf(Moved(m, dp, dq), dq, dp) == Outcome(Ok(()), m)
  {
    PrefixesIncomparable(m, dp, dq);
    RenameDirExact(m, dp, dq);
    MovedBack(m, dp, dq);
  }

  lemma KeyRoundTrip(m: Objects, kp: Bytes, dp: Bytes, kq: Bytes, dq: Bytes)
    requires kp != [] && kq != [] && dp == kp + [SLASH] && dq == kq + [SLASH]
    requires KindAt(m, kp, dp) == Dir && RenameDirOf(m, dp, dq).result.Ok?
    ensures var m' := RenameDirOf(m, dp, dq).objects;
            var back := (match KindAt(m', kq, dq)
                         case File(_) => RenameFileOf(m', kq, kp, dp)
                         case Dir => RenameDirOf(m', dq, dp)
                         case Missing => Outcome(Err(NotExist), m'));
            back == Outcome(Ok(()), m) <==> kq !in m
  {
    BackByDir(m, dp, dq);
    MovedSelf(m, dp, kq, dq);
    var t := MovedWitness(m, dp, dq);
    hide Moved;
    assert t in KeysUnder(Moved(m, dp, dq), dq);
    BackByFile(m, Moved(m, dp, dq), kq, kp, dp, t);
  }

  lemma BackByFile(m: Objects, m': Objects, kq: Bytes, kp: Bytes, dp: Bytes, t: Bytes)
    requires t in m' && t !in m && t != kq
    ensures RenameFileOf(m', kq, kp, dp).objects != m
  {
    assert t in RenameFileOf(m', kq, kp, dp).objects;
  }

  // ---------------------------------------------------------------- single files

  /** A file rename between any two names that clean differently moves exactly one
      body. It keeps that body exactly when the names still differ after a second
      cleaning, for then their keys do; with equal keys it deletes what it copied. */
  lemma RenameFileKeepsBody(v: View, m: Objects, oldname: Bytes, newname: Bytes)
    requires CleanFTPPath(oldname) != CleanFTPPath(newname)
    requires StatOf(v, m, CleanFTPPath(oldname)).Ok? && !StatOf(v, m, CleanFTPPath(oldname)).value.isDir
    requires RenameOf(v, m, oldname, newname).result.Ok?
    ensures var oldClean, newClean := CleanFTPPath(oldname), CleanFTPPath(newname);
            var from, to := JoinRoot(v.root, oldClean), JoinRoot(v.root, newClean);
            var m' := RenameOf(v, m, oldname, newname).objects;
            && from in m && from !in m'
            && (to in m' && m'[to] == m[from] <==> CleanFTPPath(oldClean) != CleanFTPPath(newClean))
            && (forall k :: k != from && k != to ==> (k in m' <==> k in m))
            && (forall k :: k != from && k != to && k in m ==> m'[k] == m[k])
  {
    SameKey(v.root, CleanFTPPath(oldname), CleanFTPPath(newname));
    hide CleanFTPPath, JoinRoot, DirKey, Base, StatOf, RenameDirOf, KeysUnder;
  }

  /** Distinct settled names have different keys, so renaming between them
      never deletes what it copied. */
  lemma RenameFileDistinct(v: View, m: Objects, p: Bytes, q: Bytes)
    requires ValidRoot(v.root) && !v.readOnly && p != q
    requires Settled(p) && Settled(q) && p != ROOT && q != ROOT
    requires JoinRoot(v.root, p) in m && RenameOf(v, m, p, q).result.Ok?
    ensures var kp, kq := JoinRoot(v.root, p), JoinRoot(v.root, q);
            RenameOf(v, m, p, q).objects == m[kq := m[kp]] - {kp} && kp != kq
  {
    hide CleanFTPPath, JoinRoot, DirKey, Settled, RenameOf;
    var kp, dp, kq, dq := JoinRoot(v.root, p), DirKey(v.root, p), JoinRoot(v.root, q), DirKey(v.root, q);
    NamesFacts(v, p, kp, dp);
    DistinctKeys(v, p, kp, dp, q, kq, dq);
    RenameByKeys(v, m, p, kp, dp, q, kq, dq);
  }

  lemma WitnessKeys()
    ensures CleanFTPPath([SLASH, 97]) == [SLASH, 97]
    ensures CleanFTPPath([SLASH, 97, 32, SLASH]) == [SLASH, 97, 32]
    ensures JoinRoot([], [SLASH, 97]) == JoinRoot([], [SLASH, 97, 32]) == [97]
    ensures DirKey([], [SLASH, 97, 32]) == [97, SLASH]
  {
    CleanNotIdempotent();
    CleanOneLetter();
    hide CleanFTPPath;
    assert [SLASH, 97][1..] == [97];
  }

  /** Two names that clean differently but share a key: renaming `/a` to `/a /`
      copies the object onto itself and then deletes it. */
  lemma RenameFileCanLose(body: Bytes)
    ensures var v := View([], true, false);
            var m: Objects := map[[97] := body];
            RenameOf(v, m, [SLASH, 97], [SLASH, 97, 32, SLASH]) == Outcome(Ok(()), map[])
  {
    hide CleanFTPPath, JoinRoot, DirKey, Base, RenameDirOf;
    WitnessKeys();
    var m: Objects := map[[97] := body];
    LoneObject(body);
    assert StatOf(View([], true, false), m, [SLASH, 97]).value.isDir == false;
  }

  lemma LoneObject(body: Bytes)
    ensures RenameFileOf(map[[97] := body], [97], [97], [97, SLASH]) == Outcome(Ok(()), map[])
  {
    var m: Objects := map[[97] := body];
    assert KeysUnder(m, [97, SLASH]) == {};
    assert m[[97] := m[[97]]] - {[97]} == map[];
  }

  lemma CleanOneLetter()
    ensures CleanFTPPath([SLASH, 97]) == [SLASH, 97]
  {
    var q: Bytes := [SLASH, 97];
    assert Segs(q) == [[97]] by {
      assert q[1..] == [97];
    }
    assert Normal([97]) && !EndsInSpace([97]);
    assert Settled(q);
    SettledFixed(q);
  }

  // ---------------------------------------------------------------- making and removing

  /** A marker-writing Mkdir followed by RemoveDir restores the bucket. */
  lemma MkdirRemoveDir(v: View, m: Objects, p: Bytes)
    requires ValidRoot(v.root) && !v.readOnly && v.dirMarker && Settled(p) && p != ROOT
    requires MkdirOf(v, m, p).result.Ok?
    ensures RemoveDirOf(v, MkdirOf(v, m, p).objects, p) == Outcome(Ok(()), m)
  {
    hide CleanFTPPath, JoinRoot, DirKey, Settled, Base;
    var key, dir := JoinRoot(v.root, p), DirKey(v.root, p);
    NamesFacts(v, p, key, dir);
    var m' := m[dir := []];
    assert MkdirOf(v, m, p).objects == m';
    assert dir in KeysUnder(m', dir);
    assert dir !in KeysUnder(m, dir);
    assert forall k :: k in KeysUnder(m', dir) ==> k == dir || k in KeysUnder(m, dir);
    assert m' - {dir} == m;
  }

  /** For a settled path, Mkdir succeeds exactly when nothing has the name, and
      with markers the directory is there afterwards. */
  lemma MkdirExactly(v: View, m: Objects, p: Bytes)
    requires ValidRoot(v.root) && !v.readOnly && Settled(p) && p != ROOT
    ensures MkdirOf(v, m, p).result.Ok? <==> StatOf(v, m, p).Err?
    ensures MkdirOf(v, m, p).result.Ok? && v.dirMarker ==>
              StatOf(v, MkdirOf(v, m, p).objects, p).Ok? && StatOf(v, MkdirOf(v, m, p).objects, p).value.isDir
    ensures MkdirOf(v, m, p).result.Err? ==> MkdirOf(v, m, p) == Outcome(Err(Exist), m)
    ensures MkdirAllOf(v, m, p).result.Ok?
    ensures v.dirMarker ==> StatOf(v, MkdirAllOf(v, m, p).objects, p).Ok?
    ensures StatOf(v, m, p).Ok? || !v.dirMarker ==> MkdirAllOf(v, m, p).objects == m
    ensures forall m' | m' == MkdirOf(v, m, p).objects || m' == MkdirAllOf(v, m, p).objects ::
              m' == m || AddsMarker(m, m', DirKey(v.root, p))
  {
    hide CleanFTPPath, JoinRoot, DirKey, Settled, Base;
    var key, dir := JoinRoot(v.root, p), DirKey(v.root, p);
    NamesFacts(v, p, key, dir);
    assert dir in KeysUnder(m[dir := []], dir);
    assert dir in m ==> dir in KeysUnder(m, dir);
  }

  /** One object is new: an empty one at the given key. */
  ghost predicate AddsMarker(m: Objects, m': Objects, dir: Bytes) {
    && dir !in m && dir in m' && m'[dir] == []
    && (forall k :: k != dir ==> (k in m' <==> k in m) && (k in m ==> m'[k] == m[k]))
  }

  /** After a successful removal the name is gone, unless a file had hidden a
      directory of the same name; RemoveAll and Remove then take the file only. */
  lemma RemovedIsGone(v: View, m: Objects, p: Bytes)
    requires ValidRoot(v.root) && !v.readOnly && Settled(p) && p != ROOT
    ensures RemoveDirOf(v, m, p).result.Ok? ==> StatOf(v, RemoveDirOf(v, m, p).objects, p) == Err(NotExist)
    ensures var hidden := JoinRoot(v.root, p) in m && KeysUnder(m, DirKey(v.root, p)) != {};
            && (RemoveOf(v, m, p).result.Ok? ==>
                  (StatOf(v, RemoveOf(v, m, p).objects, p) == Err(NotExist) <==> !hidden))
            && RemoveAllOf(v, m, p).result.Ok?
            && (StatOf(v, RemoveAllOf(v, m, p).objects, p) == Err(NotExist) <==> !hidden)
  {
    hide CleanFTPPath, JoinRoot, DirKey, Settled, Base;
    var key, dir := JoinRoot(v.root, p), DirKey(v.root, p);
    NamesFacts(v, p, key, dir);
    RemovedUnder(m, key, dir);
  }

  /** The buckets agree on every key but one, which the second does not have. */
  ghost predicate Lacks(m: Objects, m': Objects, key: Bytes) {
    key !in m' && forall k :: k != key ==> (k in m' <==> k in m) && (k in m ==> m'[k] == m[k])
  }

  /** The second bucket is the first without what lies under a prefix. */
  ghost predicate Pruned(m: Objects, m': Objects, prefix: Bytes) {
    forall k :: (k in m' <==> k in m && !(prefix <= k)) && (k in m' ==> m'[k] == m[k])
  }

  /** What the removals answer on settled paths, told by Stat and by what lies below
      the path, and which keys they take: a file's own, a marker, or all under the
      directory. A refusal changes nothing. */
  lemma RemoveAnswers(v: View, m: Objects, p: Bytes)
    requires ValidRoot(v.root) && Settled(p)
    ensures var stat := StatOf(v, m, p); var key, dir := JoinRoot(v.root, p), DirKey(v.root, p);
            var emptied := RemoveDirOf(v, m, p); var removed := RemoveOf(v, m, p); var all := RemoveAllOf(v, m, p);
            if v.readOnly then emptied == removed == all == Outcome(Err(ReadOnly), m)
            else if p == ROOT then emptied == removed == all == Outcome(Err(AccessDenied), m)
            else
              && (stat.Err? ==> emptied == removed == Outcome(Err(NotExist), m) && all == Outcome(Ok(()), m))
              && (stat.Ok? && !stat.value.isDir ==>
                    && emptied == Outcome(Err(NotDirectory), m)
                    && removed == all && all.result.Ok? && key in m && Lacks(m, all.objects, key))
              && (stat.Ok? && stat.value.isDir ==>
                    && removed == emptied && all.result.Ok? && Pruned(m, all.objects, dir)
                    && (emptied.result.Ok? <==> forall k :: k in m && dir <= k ==> k == dir)
                    && (emptied.result.Ok? ==> Lacks(m, emptied.objects, dir))
                    && (emptied.result.Err? ==> emptied == Outcome(Err(NotEmpty), m)))
  {
    hide CleanFTPPath, JoinRoot, DirKey, Settled, StatOf, KindAt, KeysUnder, RemoveDirOf, RemoveOf, RemoveAllOf;
    hide Lacks, Pruned;
    if v.readOnly || p == ROOT {
      RemoveAtOnce(v, m, p);
    } else {
      var key, dir := JoinRoot(v.root, p), DirKey(v.root, p);
      NamesFacts(v, p, key, dir);
      RemoveByKeys(v, m, p, key, dir);
      StatByKeys(v, m, p, key, dir);
      FileInside(m, key, dir);
      TakenAway(m, key, dir);
    }
  }

  lemma RemoveAtOnce(v: View, m: Objects, p: Bytes)
    requires Settled(p) && (v.readOnly || p == ROOT)
    ensures RemoveDirOf(v, m, p) == RemoveOf(v, m, p) == RemoveAllOf(v, m, p)
            == Outcome(Err(if v.readOnly then ReadOnly else AccessDenied), m)
  {
    hide CleanFTPPath, JoinRoot, DirKey, Settled, StatOf, KeysUnder;
    SettledFixed(p);
  }

  /** For a settled name, the removals are decided by its two keys alone. */
  lemma RemoveByKeys(v: View, m: Objects, p: Bytes, key: Bytes, dir: Bytes)
    requires ValidRoot(v.root) && !v.readOnly && Names(v, p, key, dir)
    ensures RemoveDirOf(v, m, p) ==
            match KindAt(m, key, dir)
            case File(_) => Outcome(Err(NotDirectory), m)
            case Dir => if KeysUnder(m, dir) <= {dir} then Outcome(Ok(()), m - {dir}) else Outcome(Err(NotEmpty), m)
            case Missing => Outcome(Err(NotExist), m)
    ensures RemoveOf(v, m, p) == if KindAt(m, key, dir).File? then Outcome(Ok(()), m - {key}) else RemoveDirOf(v, m, p)
    ensures RemoveAllOf(v, m, p) ==
            Outcome(Ok(()), if KindAt(m, key, dir).File? then m - {key} else m - KeysUnder(m, dir))
  {
    hide CleanFTPPath, JoinRoot, DirKey, Settled, StatOf, KindAt, KeysUnder;
    NamesFacts(v, p, key, dir);
    StatByKeys(v, m, p, key, dir);
  }

  lemma TakenAway(m: Objects, key: Bytes, dir: Bytes)
    ensures Lacks(m, m - {key}, key) && Lacks(m, m - {dir}, dir)
    ensures Pruned(m, m - KeysUnder(m, dir), dir)
    ensures KeysUnder(m, dir) == {} ==> m - KeysUnder(m, dir) == m
    ensures KeysUnder(m, dir) <= {dir} <==> forall k :: k in m && dir <= k ==> k == dir
  {
    if KeysUnder(m, dir) <= {dir} {
      forall k | k in m && dir <= k
        ensures k == dir
      {
        assert k in KeysUnder(m, dir);
      }
    }
  }

  lemma RemovedUnder(m: Objects, key: Bytes, dir: Bytes)
    requires !(dir <= key)
    ensures KeysUnder(m - {key}, dir) == KeysUnder(m, dir)
    ensures KeysUnder(m, dir) <= {dir} ==> KeysUnder(m - {dir}, dir) == {}
    ensures KeysUnder(m - KeysUnder(m, dir), dir) == {}
    ensures key in m - KeysUnder(m, dir) <==> key in m
    ensures key in m - {dir} <==> key in m
  {
    assert forall k :: k in KeysUnder(m - {dir}, dir) ==> k in KeysUnder(m, dir) && k != dir;
  }

  /** Removing a directory tree removes the marker and every path strictly below
      it, and changes no other path. */
  lemma RemoveAllSubtree(v: View, m: Objects, p: Bytes, q: Bytes)
    requires ValidRoot(v.root) && !v.readOnly
    requires Settled(p) && p != ROOT && Settled(q)
    requires JoinRoot(v.root, p) !in m
    ensures var m' := RemoveAllOf(v, m, p).objects; var k := JoinRoot(v.root, q);
            && (k in m' <==> k in m && !(Segs(p) < Segs(q)))
            && (k in m' ==> m'[k] == m[k])
            && KeysUnder(m', DirKey(v.root, p)) == {}
  {
    hide CleanFTPPath, JoinRoot, DirKey, Settled, Base, Segs;
    var key, dir, k := JoinRoot(v.root, p), DirKey(v.root, p), JoinRoot(v.root, q);
    NamesFacts(v, p, key, dir);
    KeyOrder(v.root, p, q);
    DirKeyShape(v.root, q);
    NotOwnDir(v.root, p, q);
    assert RemoveAllOf(v, m, p).objects == m - KeysUnder(m, dir);
  }

  /** No file key equals a directory key. */
  lemma NotOwnDir(root: Bytes, p: Bytes, q: Bytes)
    requires ValidRoot(root) && Settled(p) && p != ROOT && Settled(q)
    ensures JoinRoot(root, q) != DirKey(root, p)
  {
    hide CleanFTPPath, JoinRoot, DirKey, Settled;
    SettledFixed(p);
    SettledFixed(q);
    DirKeyShape(root, p);
    DirKeyShape(root, q);
  }

  // ---------------------------------------------------------------- names of any kind

  /** Two names that the operations cannot tell apart. */
  predicate SameName(a: Bytes, b: Bytes) {
    && CleanFTPPath(CleanFTPPath(a)) == CleanFTPPath(CleanFTPPath(b))
    && (CleanFTPPath(a) == ROOT <==> CleanFTPPath(b) == ROOT)
  }

  /** The keys of the cleaned names agree, and so does what Stat says of them. */
  lemma SameCleaned(v: View, m: Objects, a: Bytes, b: Bytes)
    requires SameName(a, b)
    ensures var x, y := CleanFTPPath(a), CleanFTPPath(b);
            && JoinRoot(v.root, x) == JoinRoot(v.root, y) && DirKey(v.root, x) == DirKey(v.root, y)
            && StatOf(v, m, x) == StatOf(v, m, y)
  {
    hide CleanFTPPath, Base, KeysUnder, KindAt;
  }

  lemma CleanedAlike(v: View, m: Objects, x: Bytes, y: Bytes)
    requires CleanFTPPath(x) == CleanFTPPath(y)
    ensures MkdirOf(v, m, x) == MkdirOf(v, m, y) && RemoveDirOf(v, m, x) == RemoveDirOf(v, m, y)
  {
    hide CleanFTPPath, JoinRoot, DirKey, StatOf, KeysUnder;
  }

  /** An operation knows a name only by whether it cleans to the root and by what a second
      cleaning makes of it. */
  lemma OnlyKeysMatter(v: View, m: Objects, a: Bytes, b: Bytes)
    requires SameName(a, b)
    ensures MkdirOf(v, m, a) == MkdirOf(v, m, b) && MkdirAllOf(v, m, a) == MkdirAllOf(v, m, b)
    ensures RemoveDirOf(v, m, a) == RemoveDirOf(v, m, b) && RemoveOf(v, m, a) == RemoveOf(v, m, b)
    ensures RemoveAllOf(v, m, a) == RemoveAllOf(v, m, b)
    ensures forall flags :: HandleOf(v, a, flags) == HandleOf(v, b, flags)
  {
    SameCleaned(v, m, a, b);
    CleanedAlike(v, m, CleanFTPPath(a), CleanFTPPath(b));
    OnlyKeysMatterInRemove(v, m, a, b);
    hide CleanFTPPath, JoinRoot, DirKey, StatOf, KeysUnder, RemoveDirOf, RemoveOf, RemoveAllOf;
  }

  lemma OnlyKeysMatterInRemove(v: View, m: Objects, a: Bytes, b: Bytes)
    requires SameName(a, b)
    ensures RemoveDirOf(v, m, a) == RemoveDirOf(v, m, b) && RemoveOf(v, m, a) == RemoveOf(v, m, b)
    ensures RemoveAllOf(v, m, a) == RemoveAllOf(v, m, b)
  {
    SameCleaned(v, m, a, b);
    CleanedAlike(v, m, CleanFTPPath(a), CleanFTPPath(b));
    hide CleanFTPPath, JoinRoot, DirKey, StatOf, KeysUnder, MkdirOf;
  }

  /** Two answers of Stat that differ in the name at most. */
  predicate Alike(x: Result<Info>, y: Result<Info>) {
    match x
    case Ok(i) => y.Ok? && i.isDir == y.value.isDir && i.size == y.value.size
    case Err(_) => x == y
  }

  /** Stat shows one thing more, the last segment after one cleaning. */
  lemma OnlyKeysMatterInStat(v: View, m: Objects, a: Bytes, b: Bytes)
    requires SameName(a, b)
    ensures Alike(StatOf(v, m, a), StatOf(v, m, b))
  {
    var x, y := CleanFTPPath(a), CleanFTPPath(b);
    assert JoinRoot(v.root, x) == JoinRoot(v.root, y) && DirKey(v.root, x) == DirKey(v.root, y);
    hide CleanFTPPath, JoinRoot, DirKey, Base, KindAt;
  }

  lemma StatName(v: View, m: Objects, name: Bytes)
    requires StatOf(v, m, name).Ok?
    requires CleanFTPPath(name) != ROOT && JoinRoot(v.root, CleanFTPPath(name)) != []
    ensures StatOf(v, m, name).value.name == Base(CleanFTPPath(name))
  {
    hide CleanFTPPath, JoinRoot, DirKey, Base, KindAt;
  }

  lemma OnlyKeysMatterInRename(v: View, m: Objects, a: Bytes, b: Bytes, c: Bytes, d: Bytes)
    requires SameName(a, b) && SameName(c, d)
    requires CleanFTPPath(a) == CleanFTPPath(c) <==> CleanFTPPath(b) == CleanFTPPath(d)
    ensures RenameOf(v, m, a, c) == RenameOf(v, m, b, d)
  {
    SameCleaned(v, m, a, b);
    SameCleaned(v, m, c, d);
    hide CleanFTPPath, JoinRoot, DirKey, StatOf, RenameDirOf, RenameFileOf;
  }

  /** So a name of any kind stands for a settled path, its second cleaning, exactly when
      that one does not end in white space and is the root only if the first is. */
  lemma StandsForSettled(a: Bytes)
    ensures var p := CleanFTPPath(CleanFTPPath(a));
            Settled(p) && SameName(a, p) <==> !EndsInSpace(p) && (p == ROOT ==> CleanFTPPath(a) == ROOT)
  {
    hide CleanFTPPath, EndsInSpace, Cleaned;
    var p := CleanFTPPath(CleanFTPPath(a));
    CleanedShape(CleanFTPPath(a));
    if !EndsInSpace(p) {
      SettledFixed(p);
      CleanRoot();
    }
  }

  /** Several operations ask Stat about the cleaned name, which cleans it again, and then
      act on the key of the cleaned name. The two keys are the same exactly when the
      second cleaning does not end in white space. */
  lemma LooksWhereItActs(root: Bytes, name: Bytes)
    ensures var clean := CleanFTPPath(name);
            JoinRoot(root, CleanFTPPath(clean)) == JoinRoot(root, clean) <==> !EndsInSpace(CleanFTPPath(clean))
  {
    hide CleanFTPPath, EndsInSpace, JoinRoot;
    var clean := CleanFTPPath(name);
    SameKey(root, CleanFTPPath(clean), clean);
    CleanTwice(clean);
  }

  lemma ThreeCleanings()
    ensures CleanFTPPath([SLASH, 97, 32, SLASH, 32, SLASH]) == [SLASH, 97, 32, SLASH, 32]
    ensures CleanFTPPath([SLASH, 97, 32, SLASH, 32]) == [SLASH, 97, 32]
    ensures CleanFTPPath([SLASH, 97, 32]) == [SLASH, 97] == CleanFTPPath([SLASH, 97])
  {
    hide CleanFTPPath, Utf8, Cleaned;
    CleanNotIdempotent();
    CleanOneLetter();
    var q: Bytes, c: Bytes := [SLASH, 97, 32, SLASH], [SLASH, 97, 32, SLASH, 32];
    CleanIgnoresSpace(32, q);
    OneSpace();
    assert q + [32] == c;
    SpaceNames();
    CleanDropsTrailingSlash(c);
    assert c + [SLASH] == [SLASH, 97, 32, SLASH, 32, SLASH];
  }

  lemma OneSpace()
    ensures Utf8(32) == [32] && Normal([32])
  {
  }

  lemma SpaceNames()
    ensures Cleaned([SLASH, 97, 32, SLASH, 32])
  {
    hide CleanFTPPath, Cleaned, Normal;
    var p: Bytes := [SLASH, 97, 32];
    CleanNotIdempotent();
    CleanedShape([SLASH, 97, 32, SLASH]);
    OneSpace();
    ChildCleaned(p, [32]);
    assert Child(p, [32]) == [SLASH, 97, 32, SLASH, 32];
  }

  /** Where they differ, an operation looks at one object and acts on another: Remove of
      `/a / /` finds the file `a` and deletes the object `a `. */
  lemma RemoveActsElsewhere(x: Bytes, y: Bytes)
    ensures var m: Objects := map[[97] := x, [97, 32] := y];
            RemoveOf(View([], true, false), m, [SLASH, 97, 32, SLASH, 32, SLASH])
            == Outcome(Ok(()), map[[97] := x])
  {
    ThreeCleanings();
    hide CleanFTPPath, DirKey, Base, KeysUnder, RemoveDirOf;
    var v := View([], true, false);
    var m: Objects := map[[97] := x, [97, 32] := y];
    var clean: Bytes, again: Bytes := [SLASH, 97, 32, SLASH, 32], [SLASH, 97, 32];
    assert [SLASH, 97][1..] == [97] && again[1..] == [97, 32];
    assert JoinRoot([], clean) == [97, 32] && JoinRoot([], again) == [97];
    hide JoinRoot;
    assert StatOf(v, m, clean) == Ok(Info(Base(again), |x|, false));
    assert m - {[97, 32]} == map[[97] := x];
  }
}
