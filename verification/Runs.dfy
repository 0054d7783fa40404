/** What holds along a run of store calls, whichever of them fail: confinement to a
    prefix, complete paged listings, and moves that lose nothing. */
module Runs {
  import opened Bytes
  import opened Paths
  import opened Buckets
  import opened Views

  // ---------------------------------------------------------------- what a run may do

  /** Two buckets agree on every key outside a prefix. */
  ghost predicate SameOutside(root: Bytes, m: Objects, s: Objects) {
    forall k :: !(root <= k) ==> (k in m <==> k in s) && (k in m ==> s[k] == m[k])
  }

  /** Between two moments the store only went through states that agree with the
      first one outside the prefix. */
  ghost predicate ConfinedRun(root: Bytes, m0: Objects, t0: seq<Objects>, m1: Objects, t1: seq<Objects>) {
    && t0 <= t1
    && SameOutside(root, m0, m1)
    && (forall i :: |t0| <= i < |t1| ==> SameOutside(root, m0, t1[i]))
  }

  lemma ConfinedChain(root: Bytes, m0: Objects, t0: seq<Objects>, m1: Objects, t1: seq<Objects>,
                      m2: Objects, t2: seq<Objects>)
    requires ConfinedRun(root, m0, t0, m1, t1) && ConfinedRun(root, m1, t1, m2, t2)
    ensures ConfinedRun(root, m0, t0, m2, t2)
  {
    PrefixOfTrace(t0, t1, t2);
    SameOutsideChain(root, m0, m1, m2);
    forall i | |t0| <= i < |t2|
      ensures SameOutside(root, m0, t2[i])
    {
      if i < |t1| {
        assert t2[i] == t1[i];
      } else {
        SameOutsideChain(root, m0, m1, t2[i]);
      }
    }
  }

  lemma PrefixOfTrace(t0: seq<Objects>, t1: seq<Objects>, t2: seq<Objects>)
    requires t0 <= t1 && t1 <= t2
    ensures t0 <= t2
  {
    assert t2[..|t0|] == t1[..|t0|];
  }

  lemma SameOutsideChain(root: Bytes, m0: Objects, m1: Objects, m2: Objects)
    requires SameOutside(root, m0, m1) && SameOutside(root, m1, m2)
    ensures SameOutside(root, m0, m2)
  {
  }

  /** m1 differs from m0 at most at k. */
  ghost predicate ChangesOnly(m0: Objects, m1: Objects, k: Bytes) {
    forall j :: j != k ==> (j in m0 <==> j in m1) && (j in m0 ==> m1[j] == m0[j])
  }

  /** One mutation of a key below the root. */
  lemma ConfinedStep(root: Bytes, m0: Objects, t0: seq<Objects>, m1: Objects, k: Bytes)
    requires root <= k && ChangesOnly(m0, m1, k)
    ensures ConfinedRun(root, m0, t0, m1, t0 + [m1])
  {
  }

  /** Every state since the trace t0 is m with some of the keys deleted. */
  ghost predicate ShrinkingRun(m: Objects, t0: seq<Objects>, t1: seq<Objects>, keys: seq<Bytes>) {
    t0 <= t1 && forall i :: |t0| <= i < |t1| ==> Shrunk(m, t1[i], keys)
  }

  lemma ShrunkNone(m: Objects, keys: seq<Bytes>)
    ensures Shrunk(m, m, keys)
  {
  }

  lemma ShrunkChain(m: Objects, s: Objects, s': Objects, keys: seq<Bytes>, batch: seq<Bytes>)
    requires Shrunk(m, s, keys) && Shrunk(s, s', batch) && forall k :: k in batch ==> k in keys
    ensures Shrunk(m, s', keys)
  {
  }

  lemma DeletedSoFar(m: Objects, s: Objects, s': Objects, keys: seq<Bytes>, i: nat, j: nat)
    requires i <= j <= |keys|
    requires s == m - (set k | k in keys[..i]) && s' == s - (set k | k in keys[i..j])
    ensures s' == m - (set k | k in keys[..j])
  {
    assert keys[..j] == keys[..i] + keys[i..j];
  }

  predicate NoDuplicates(s: seq<Bytes>) {
    forall i, j :: 0 <= i < j < |s| ==> s[i] != s[j]
  }

  /** keys lists every key under the prefix, each once. */
  ghost predicate ListsKeys(m: Objects, prefix: Bytes, keys: seq<Bytes>) {
    NoDuplicates(keys) && forall k :: k in keys <==> k in KeysUnder(m, prefix)
  }

  /** While a paged listing is under way: the keys so far are the items not remaining. */
  ghost predicate ListedSoFar(items: set<Bytes>, token: Option<Bytes>, keys: seq<Bytes>) {
    NoDuplicates(keys) && forall k :: k in keys <==> k in items && k !in Remaining(items, token)
  }

  function EntryKeys(s: seq<Entry>): (r: seq<Bytes>)
    ensures |r| == |s| && forall i :: 0 <= i < |s| ==> r[i] == s[i].key
  {
    seq(|s|, i requires 0 <= i < |s| => s[i].key)
  }

  lemma EntryKeyMember(s: seq<Entry>, k: Bytes)
    ensures k in EntryKeys(s) <==> exists e :: e in s && e.key == k
  {
    if e :| e in s && e.key == k {
      var i :| 0 <= i < |s| && s[i] == e;
      assert EntryKeys(s)[i] == k;
    }
    if k in EntryKeys(s) {
      var i :| 0 <= i < |s| && EntryKeys(s)[i] == k;
      assert s[i] in s;
    }
  }

  /** The first i keys of a list. */
  ghost function Taken(s: seq<Bytes>, i: nat): set<Bytes>
    requires i <= |s|
  {
    set k | k in s[..i]
  }

  lemma TakenNone(done: set<Bytes>, s: seq<Bytes>)
    ensures done + Taken(s, 0) == done
  {
  }

  lemma TakenNext(done: set<Bytes>, s: seq<Bytes>, i: nat)
    requires i < |s|
    ensures done + Taken(s, i + 1) == done + Taken(s, i) + {s[i]}
  {
    assert s[..i + 1] == s[..i] + [s[i]];
  }

  lemma TakenPage(done: set<Bytes>, p: Page)
    ensures done + Taken(p.commonPrefixes, |p.commonPrefixes|) + Taken(EntryKeys(p.contents), |p.contents|)
            == done + PageItems(p)
  {
    var cps, keys := p.commonPrefixes, EntryKeys(p.contents);
    assert cps[..|cps|] == cps && keys[..|keys|] == keys;
    forall k
      ensures k in keys <==> k in (set e | e in p.contents :: e.key)
    {
      EntryKeyMember(p.contents, k);
    }
  }

  lemma EntryKeysDistinct(s: seq<Entry>)
    requires SortedEntries(s)
    ensures NoDuplicates(EntryKeys(s))
  {
    forall i, j | 0 <= i < j < |s|
      ensures EntryKeys(s)[i] != EntryKeys(s)[j]
    {
      BelowAsymmetric(s[i].key, s[j].key);
    }
  }

  /** Without a delimiter a page holds keys only. */
  lemma PlainPage(m: Objects, prefix: Bytes, p: Page)
    requires Describes(m, prefix, false, p)
    ensures NoDuplicates(EntryKeys(p.contents))
    ensures forall k :: k in EntryKeys(p.contents) <==> k in PageItems(p)
  {
    EntryKeysDistinct(p.contents);
    assert forall c :: c in p.commonPrefixes ==> IsCommon(prefix, false, c);
    forall k
      ensures k in EntryKeys(p.contents) <==> k in PageItems(p)
    {
      EntryKeyMember(p.contents, k);
    }
  }

  lemma Concatenated(a: seq<Bytes>, b: seq<Bytes>)
    requires NoDuplicates(a) && NoDuplicates(b) && forall k :: k in a ==> k !in b
    ensures NoDuplicates(a + b)
  {
    forall i, j | 0 <= i < j < |a + b|
      ensures (a + b)[i] != (a + b)[j]
    {
      if i < |a| <= j {
        assert (a + b)[i] in a && (a + b)[j] in b;
      }
    }
  }

  lemma ListedStep(items: set<Bytes>, token: Option<Bytes>, keys: seq<Bytes>, ks: seq<Bytes>,
                   chosen: set<Bytes>, next: Bytes)
    requires ListedSoFar(items, token, keys)
    requires NoDuplicates(ks) && forall k :: k in ks <==> k in chosen
    requires Leads(chosen, Remaining(items, token)) && Greatest(next, chosen)
    ensures ListedSoFar(items, Some(next), keys + ks)
    ensures |Remaining(items, Some(next))| < |Remaining(items, token)|
  {
    Concatenated(keys, ks);
    ResumeAfter(items, token, chosen, next);
    hide Leads, NoDuplicates, Remaining;
    CardDiff(Remaining(items, token), chosen);
    assert next in chosen && |chosen| > 0;
  }

  lemma ListedLast(items: set<Bytes>, token: Option<Bytes>, keys: seq<Bytes>, ks: seq<Bytes>)
    requires ListedSoFar(items, token, keys)
    requires NoDuplicates(ks) && forall k :: k in ks <==> k in Remaining(items, token)
    ensures NoDuplicates(keys + ks) && forall k :: k in keys + ks <==> k in items
  {
    Concatenated(keys, ks);
    assert Remaining(items, token) <= items;
  }

  lemma ListedNone(items: set<Bytes>)
    ensures ListedSoFar(items, None, [])
  {
    assert Remaining(items, None) == items;
  }

  /** Appending a page keeps the listing complete so far and without repeats. */
  lemma ListedMore(m: Objects, prefix: Bytes, token: Option<Bytes>, limit: nat, fill: nat, p: Page, keys: seq<Bytes>)
    requires IsPage(m, prefix, false, token, limit, fill, p)
    requires ListedSoFar(KeysUnder(m, prefix), token, keys)
    ensures var keys' := keys + EntryKeys(p.contents);
            if p.truncated
            then && p.next.Some? && ListedSoFar(KeysUnder(m, prefix), p.next, keys')
                 && |Remaining(KeysUnder(m, prefix), p.next)| < |Remaining(KeysUnder(m, prefix), token)|
            else ListsKeys(m, prefix, keys')
  {
    hide KeysUnder, Describes, PageItems, Items, Leads, Greatest, NoDuplicates, ListedSoFar, EntryKeys, Remaining;
    ItemsPlain(m, prefix);
    PlainPage(m, prefix, p);
    var ks := EntryKeys(p.contents);
    if p.truncated {
      ListedStep(KeysUnder(m, prefix), token, keys, ks, PageItems(p), p.next.value);
      assert p.next == Some(p.next.value);
    } else {
      ListedLast(KeysUnder(m, prefix), token, keys, ks);
    }
  }

  /** One page without a delimiter is empty exactly when nothing is under the prefix;
      and if the server fills pages to two, the first two keys tell whether anything
      but the prefix itself is there. */
  lemma ProbePage(m: Objects, prefix: Bytes, limit: nat, fill: nat, p: Page)
    requires IsPage(m, prefix, false, None, limit, fill, p)
    ensures p.commonPrefixes == []
    ensures p.contents == [] <==> KeysUnder(m, prefix) == {}
    ensures forall e :: e in p.contents ==> e.key in KeysUnder(m, prefix)
    ensures limit >= 2 && fill >= 2 ==>
              ((forall e :: e in p.contents ==> e.key == prefix) <==> KeysUnder(m, prefix) <= {prefix})
  {
    hide Items;
    ItemsPlain(m, prefix);
    var all, chosen := KeysUnder(m, prefix), PageItems(p);
    assert Remaining(all, None) == all;
    HeadIn(p.commonPrefixes);
    assert chosen == set e | e in p.contents :: e.key;
    assert p.contents != [] ==> p.contents[0].key in chosen;
    if limit >= 2 && fill >= 2 && (forall e :: e in p.contents ==> e.key == prefix) {
      assert chosen <= {prefix};
      SmallSet(chosen, prefix);
    }
  }

  lemma {:induction false} PrefixBelow(a: Bytes, k: Bytes)
    requires a < k
    ensures Below(a, k)
  {
    if a != [] {
      assert a[1..] < k[1..];
      PrefixBelow(a[1..], k[1..]);
    }
  }

  /** A page as short as one item can show the marker alone. */
  lemma ShortPage(m: Objects, prefix: Bytes) returns (p: Page)
    requires prefix in m && !(KeysUnder(m, prefix) <= {prefix})
    ensures IsPage(m, prefix, false, None, 2, 1, p) && ShowsOnly(p, prefix)
  {
    p := Page([Entry(prefix, |m[prefix]|)], [], true, Some(prefix));
    hide Items;
    ItemsPlain(m, prefix);
    var all := KeysUnder(m, prefix);
    assert Remaining(all, None) == all;
    assert prefix in all;
    assert PageItems(p) == {prefix} by {
      assert Entry(prefix, |m[prefix]|) in p.contents;
    }
    forall y | y in all && y != prefix
      ensures Below(prefix, y)
    {
      PrefixBelow(prefix, y);
    }
  }

  predicate ShowsOnly(p: Page, key: Bytes) {
    forall e :: e in p.contents ==> e.key == key
  }

  /** The server fills pages to two, or there is no marker, or the directory is empty anyway. */
  predicate ProbeDecides(m: Objects, dir: Bytes, fill: nat) {
    fill >= 2 || dir !in m || KeysUnder(m, dir) <= {dir}
  }

  /** The two-key probe answers for the whole directory on every page the server may
      send exactly when the server fills pages to two, or there is no marker, or the
      directory is empty anyway. */
  lemma TwoKeyProbe(m: Objects, prefix: Bytes, fill: nat)
    requires fill >= 1
    ensures (forall p :: IsPage(m, prefix, false, None, 2, fill, p) ==>
                           (ShowsOnly(p, prefix) <==> KeysUnder(m, prefix) <= {prefix}))
            <==> ProbeDecides(m, prefix, fill)
  {
    hide IsPage;
    var empty := KeysUnder(m, prefix) <= {prefix};
    forall p | IsPage(m, prefix, false, None, 2, fill, p) && (fill >= 2 || prefix !in m || empty)
      ensures ShowsOnly(p, prefix) <==> empty
    {
      ProbePage(m, prefix, 2, fill, p);
      assert p.contents != [] ==> p.contents[0] in p.contents;
    }
    if fill == 1 && prefix in m && !empty {
      var p := ShortPage(m, prefix);
    }
  }

  /** RemoveDir does not come to its probe, or the probe decides. */
  predicate RemoveDirDecided(v: View, m: Objects, name: Bytes, fill: nat) {
    var clean := CleanFTPPath(name);
    var stat := StatOf(v, m, clean);
    v.readOnly || clean == ROOT || stat.Err? || !stat.value.isDir || ProbeDecides(m, DirKey(v.root, clean), fill)
  }

  /** Remove probes for a directory only. */
  predicate RemoveDecided(v: View, m: Objects, name: Bytes, fill: nat) {
    var clean := CleanFTPPath(name);
    var stat := StatOf(v, m, clean);
    stat.Err? || !stat.value.isDir || RemoveDirDecided(v, m, clean, fill)
  }

  /** Removing a directory by what one page shows is removing it by what it holds, on
      every page the server may send, exactly when the probe decides. Otherwise some
      page makes RemoveDir succeed and delete the marker of a directory that still has
      other keys. */
  lemma RemoveDirExact(v: View, m: Objects, name: Bytes, fill: nat)
    requires fill >= 1
    ensures var dir := DirKey(v.root, CleanFTPPath(name));
            (forall p :: IsPage(m, dir, false, None, 2, fill, p) ==>
                           RemoveDirIf(v, m, name, ShowsOnly(p, dir)) == RemoveDirOf(v, m, name))
            <==> RemoveDirDecided(v, m, name, fill)
    ensures var dir := DirKey(v.root, CleanFTPPath(name));
            RemoveDirDecided(v, m, name, fill) ||
            exists p :: IsPage(m, dir, false, None, 2, fill, p)
                        && RemoveDirIf(v, m, name, ShowsOnly(p, dir)) == Outcome(Ok(()), m - {dir})
                        && dir in m && KeysUnder(m - {dir}, dir) != {}
  {
    hide CleanFTPPath, DirKey, StatOf, IsPage, ShowsOnly, KeysUnder;
    var dir := DirKey(v.root, CleanFTPPath(name));
    TwoKeyProbe(m, dir, fill);
    if !RemoveDirDecided(v, m, name, fill) {
      var p :| IsPage(m, dir, false, None, 2, fill, p) && (ShowsOnly(p, dir) <==> !(KeysUnder(m, dir) <= {dir}));
      assert RemoveDirIf(v, m, name, ShowsOnly(p, dir)) == Outcome(Ok(()), m - {dir});
      OthersStay(m, dir);
    }
  }

  lemma OthersStay(m: Objects, dir: Bytes)
    requires !(KeysUnder(m, dir) <= {dir})
    ensures KeysUnder(m - {dir}, dir) != {}
  {
    var k :| k in KeysUnder(m, dir) && k != dir;
    assert k in KeysUnder(m - {dir}, dir);
  }

  lemma HeadIn<T>(s: seq<T>)
    ensures s != [] ==> s[0] in s
  {
  }

  lemma SmallSet(s: set<Bytes>, x: Bytes)
    requires s <= {x}
    ensures |s| <= 1
  {
    assert s == {} || s == {x};
  }

  // ---------------------------------------------------------------- moving a prefix

  /** While copying: every original is in place and whatever is new is a copy. */
  ghost predicate Copying(m: Objects, s: Objects, a: Bytes, b: Bytes) {
    && (forall k :: k in m ==> k in s && s[k] == m[k])
    && (forall t :: t in s && t !in m ==> b <= t && Target(b, a, t) in m && s[t] == m[Target(b, a, t)])
  }

  /** Every original under a has its copy under b. */
  ghost predicate Copied(m: Objects, s: Objects, a: Bytes, b: Bytes) {
    forall k :: k in m && a <= k ==> Target(a, b, k) in s && s[Target(a, b, k)] == m[k]
  }

  /** Nothing is lost: each body is at its old or its new key, whatever is under b
      is a copy, and no key outside the two prefixes has changed. */
  ghost predicate MoveSafe(m: Objects, s: Objects, a: Bytes, b: Bytes) {
    && (forall k :: k in m && a <= k ==>
          (k in s && s[k] == m[k]) || (Target(a, b, k) in s && s[Target(a, b, k)] == m[k]))
    && (forall t :: t in s && b <= t ==> Target(b, a, t) in m && s[t] == m[Target(b, a, t)])
    && (forall k :: !(a <= k) && !(b <= k) ==> (k in m <==> k in s) && (k in m ==> s[k] == m[k]))
  }

  ghost predicate MoveRun(m: Objects, t0: seq<Objects>, t1: seq<Objects>, a: Bytes, b: Bytes) {
    t0 <= t1 && forall i :: |t0| <= i < |t1| ==> MoveSafe(m, t1[i], a, b)
  }

  lemma CopyStep(m: Objects, s: Objects, a: Bytes, b: Bytes, k: Bytes)
    requires Copying(m, s, a, b) && k in m && a <= k && KeysUnder(m, b) == {}
    ensures k in s && Copying(m, s[Target(a, b, k) := s[k]], a, b)
  {
    TargetBack(a, b, k);
    assert Target(a, b, k) !in KeysUnder(m, b);
  }

  lemma CopyingSafe(m: Objects, s: Objects, a: Bytes, b: Bytes)
    requires Copying(m, s, a, b) && KeysUnder(m, b) == {}
    ensures MoveSafe(m, s, a, b)
  {
    forall t | t in s && b <= t
      ensures Target(b, a, t) in m && s[t] == m[Target(b, a, t)]
    {
      assert t !in KeysUnder(m, b);
    }
    forall k | !(a <= k) && !(b <= k)
      ensures (k in m <==> k in s) && (k in m ==> s[k] == m[k])
    {
    }
  }

  /** Deleting originals once every copy exists loses nothing. */
  lemma DeletingSafe(m: Objects, s1: Objects, s: Objects, a: Bytes, b: Bytes, keys: seq<Bytes>)
    requires Copying(m, s1, a, b) && Copied(m, s1, a, b) && Shrunk(s1, s, keys)
    requires KeysUnder(m, b) == {} && !(a <= b) && forall k :: k in keys ==> k in KeysUnder(m, a)
    ensures MoveSafe(m, s, a, b)
  {
    forall k | k in m && a <= k
      ensures Target(a, b, k) in s && s[Target(a, b, k)] == m[k]
    {
      TargetBack(a, b, k);
      assert Target(a, b, k) !in KeysUnder(m, b);
    }
    CopyingSafe(m, s1, a, b);
  }

  /** Deleting all originals gives exactly the moved bucket. */
  lemma MoveExact(m: Objects, s1: Objects, s: Objects, a: Bytes, b: Bytes, keys: seq<Bytes>)
    requires Copying(m, s1, a, b) && Copied(m, s1, a, b)
    requires KeysUnder(m, b) == {} && !(a <= b) && forall k :: k in keys <==> k in KeysUnder(m, a)
    requires s == s1 - (set k | k in keys)
    ensures s == Moved(m, a, b)
  {
    var m' := Moved(m, a, b);
    forall k
      ensures k in s <==> k in m'
      ensures k in s ==> s[k] == m'[k]
    {
      MoveExactAt(m, s1, s, a, b, keys, k);
    }
  }

  lemma MoveExactAt(m: Objects, s1: Objects, s: Objects, a: Bytes, b: Bytes, keys: seq<Bytes>, k: Bytes)
    requires Copying(m, s1, a, b) && Copied(m, s1, a, b)
    requires KeysUnder(m, b) == {} && !(a <= b) && forall k :: k in keys <==> k in KeysUnder(m, a)
    requires s == s1 - (set k | k in keys)
    ensures var m' := Moved(m, a, b); (k in s <==> k in m') && (k in s ==> s[k] == m'[k])
  {
    var m' := Moved(m, a, b);
    MovedKeys(m, a, b);
    assert k !in KeysUnder(m, b);
    TargetOf(m, a, b, k);
    if k in Targets(m, a, b) {
      TargetBack(b, a, k);
      assert Target(a, b, Target(b, a, k)) == k;
    }
  }

  lemma TargetOf(m: Objects, a: Bytes, b: Bytes, t: Bytes)
    ensures b <= t && Target(b, a, t) in m ==> t in Targets(m, a, b)
  {
    if b <= t && Target(b, a, t) in m {
      TargetBack(b, a, t);
      assert t == Target(a, b, Target(b, a, t));
    }
  }

  lemma MoveConfined(root: Bytes, m: Objects, s: Objects, a: Bytes, b: Bytes)
    requires root <= a && root <= b && MoveSafe(m, s, a, b)
    ensures SameOutside(root, m, s)
  {
    forall k | !(root <= k)
      ensures (k in m <==> k in s) && (k in m ==> s[k] == m[k])
    {
      PrefixTransitive(root, a, k);
      PrefixTransitive(root, b, k);
    }
  }

  /** Moving one file: the body is at one of the two keys, and no other key changes. */
  ghost predicate FileMoveSafe(m: Objects, s: Objects, from: Bytes, to: Bytes) {
    && (from in m && from != to ==> (from in s && s[from] == m[from]) || (to in s && s[to] == m[from]))
    && (forall k :: k != from && k != to ==> (k in m <==> k in s) && (k in m ==> s[k] == m[k]))
  }

  ghost predicate FileMoveRun(m: Objects, t0: seq<Objects>, t1: seq<Objects>, from: Bytes, to: Bytes) {
    t0 <= t1 && forall i :: |t0| <= i < |t1| ==> FileMoveSafe(m, t1[i], from, to)
  }

  /** What every state of a rename keeps: a directory's bodies are each at the old
      or the new key, a file's body likewise as long as the two keys differ. */
  ghost predicate RenameRun(v: View, m: Objects, t0: seq<Objects>, t1: seq<Objects>,
                            oldname: Bytes, newname: Bytes) {
    var oldClean, newClean := CleanFTPPath(oldname), CleanFTPPath(newname);
    match StatOf(v, m, oldClean)
    case Err(_) => t1 == t0
    case Ok(info) =>
      if info.isDir
      then MoveRun(m, t0, t1, DirKey(v.root, oldClean), DirKey(v.root, newClean))
      else FileMoveRun(m, t0, t1, JoinRoot(v.root, oldClean), JoinRoot(v.root, newClean))
  }

  /** What a rename leaves behind, however it ends: the bucket as it was, or one in
      which every body is at its old or its new key and no other key has changed. */
  ghost predicate RenameSafe(v: View, m: Objects, s: Objects, oldname: Bytes, newname: Bytes) {
    var oldClean, newClean := CleanFTPPath(oldname), CleanFTPPath(newname);
    s == m ||
    match StatOf(v, m, oldClean)
    case Err(_) => false
    case Ok(info) =>
      if info.isDir
      then MoveSafe(m, s, DirKey(v.root, oldClean), DirKey(v.root, newClean))
      else FileMoveSafe(m, s, JoinRoot(v.root, oldClean), JoinRoot(v.root, newClean))
  }

  lemma RenameRunStart(v: View, m: Objects, t: seq<Objects>, oldname: Bytes, newname: Bytes)
    ensures RenameRun(v, m, t, t, oldname, newname)
  {
    hide StatOf, CleanFTPPath, JoinRoot, DirKey;
  }

  lemma ConfinedStart(root: Bytes, m: Objects, t: seq<Objects>)
    ensures ConfinedRun(root, m, t, m, t)
  {
  }

  lemma ShrinkConfined(root: Bytes, m: Objects, t0: seq<Objects>, s: Objects, t1: seq<Objects>,
                       dir: Bytes, keys: seq<Bytes>)
    requires root <= dir && ListsKeys(m, dir, keys)
    requires ShrinkingRun(m, t0, t1, keys) && Shrunk(m, s, keys)
    ensures ConfinedRun(root, m, t0, s, t1)
  {
    ShrunkConfined(root, m, s, dir, keys);
    forall i | |t0| <= i < |t1|
      ensures SameOutside(root, m, t1[i])
    {
      ShrunkConfined(root, m, t1[i], dir, keys);
    }
  }

  lemma ShrunkConfined(root: Bytes, m: Objects, s: Objects, dir: Bytes, keys: seq<Bytes>)
    requires root <= dir && ListsKeys(m, dir, keys) && Shrunk(m, s, keys)
    ensures SameOutside(root, m, s)
  {
    forall k | !(root <= k)
      ensures (k in m <==> k in s) && (k in m ==> s[k] == m[k])
    {
      PrefixTransitive(root, dir, k);
      assert k !in KeysUnder(m, dir);
    }
  }

  lemma DeletedAll(m: Objects, s: Objects, dir: Bytes, keys: seq<Bytes>)
    requires ListsKeys(m, dir, keys) && s == m - (set k | k in keys)
    ensures s == m - KeysUnder(m, dir) && s - {dir} == s
  {
    hide NoDuplicates;
    assert (set k | k in keys) == KeysUnder(m, dir);
    assert dir in m ==> dir in KeysUnder(m, dir);
  }

  lemma CopyingNone(m: Objects, a: Bytes, b: Bytes)
    ensures Copying(m, m, a, b)
  {
  }

  /** The first i keys have their copies. */
  ghost predicate CopiedFirst(m: Objects, s: Objects, a: Bytes, b: Bytes, keys: seq<Bytes>, i: nat) {
    i <= |keys| && forall j :: 0 <= j < i ==>
      keys[j] in m && a <= keys[j] && Target(a, b, keys[j]) in s && s[Target(a, b, keys[j])] == m[keys[j]]
  }

  lemma CopiedStep(m: Objects, s: Objects, a: Bytes, b: Bytes, keys: seq<Bytes>, i: nat)
    requires i < |keys| && CopiedFirst(m, s, a, b, keys, i) && Copying(m, s, a, b)
    requires keys[i] in m && a <= keys[i] && KeysUnder(m, b) == {} && NoDuplicates(keys)
    ensures keys[i] in s && CopiedFirst(m, s[Target(a, b, keys[i]) := s[keys[i]]], a, b, keys, i + 1)
  {
    forall j | 0 <= j < i
      ensures Target(a, b, keys[j]) != Target(a, b, keys[i])
    {
      TargetBack(a, b, keys[j]);
      TargetBack(a, b, keys[i]);
    }
  }

  lemma CopiedAll(m: Objects, s: Objects, a: Bytes, b: Bytes, keys: seq<Bytes>)
    requires ListsKeys(m, a, keys) && CopiedFirst(m, s, a, b, keys, |keys|)
    ensures Copied(m, s, a, b)
  {
    forall k | k in m && a <= k
      ensures Target(a, b, k) in s && s[Target(a, b, k)] == m[k]
    {
      assert k in KeysUnder(m, a);
      var j :| 0 <= j < |keys| && keys[j] == k;
    }
  }

  lemma DeleteRunSafe(m: Objects, s1: Objects, t0: seq<Objects>, t1: seq<Objects>, s: Objects, t: seq<Objects>,
                      a: Bytes, b: Bytes, keys: seq<Bytes>)
    requires MoveRun(m, t0, t1, a, b) && Copying(m, s1, a, b) && Copied(m, s1, a, b)
    requires ShrinkingRun(s1, t1, t, keys) && Shrunk(s1, s, keys)
    requires KeysUnder(m, b) == {} && !(a <= b) && ListsKeys(m, a, keys)
    ensures MoveRun(m, t0, t, a, b) && MoveSafe(m, s, a, b)
  {
    hide MoveSafe, Copying, Copied, KeysUnder, NoDuplicates;
    PrefixOfTrace(t0, t1, t);
    DeletingSafe(m, s1, s, a, b, keys);
    forall i | |t0| <= i < |t|
      ensures MoveSafe(m, t[i], a, b)
    {
      if i < |t1| {
        assert t[i] == t1[i];
      } else {
        DeletingSafe(m, s1, t[i], a, b, keys);
      }
    }
  }

  lemma MoveRunConfined(root: Bytes, m: Objects, t0: seq<Objects>, s: Objects, t1: seq<Objects>, a: Bytes, b: Bytes)
    requires root <= a && root <= b && MoveRun(m, t0, t1, a, b) && (MoveSafe(m, s, a, b) || s == m)
    ensures ConfinedRun(root, m, t0, s, t1)
  {
    hide MoveSafe, SameOutside;
    if s != m {
      MoveConfined(root, m, s, a, b);
    } else {
      ConfinedStart(root, m, t0);
    }
    forall i | |t0| <= i < |t1|
      ensures SameOutside(root, m, t1[i])
    {
      MoveConfined(root, m, t1[i], a, b);
    }
  }

  lemma FileRunConfined(root: Bytes, m: Objects, t0: seq<Objects>, s: Objects, t1: seq<Objects>, from: Bytes, to: Bytes)
    requires root <= from && root <= to && FileMoveRun(m, t0, t1, from, to) && FileMoveSafe(m, s, from, to)
    ensures ConfinedRun(root, m, t0, s, t1)
  {
  }
}
