/** The file system view as it works: runs of head, list, copy and delete calls
    against the store, any of which may fail. Each operation is tied to its
    one-shot meaning for runs without faults, and to what it may touch for all
    runs. */
module FileSystems {
  import opened Bytes
  import opened Paths
  import opened CopySources
  import opened Buckets
  import opened Views
  import opened Listings
  import opened Runs

  class FS {
    const store: Store
    const view: View

    ghost predicate Valid() {
      store.Valid() && ValidRoot(view.root)
    }

    constructor (store: Store, view: View)
      requires store.Valid() && ValidRoot(view.root)
      ensures Valid() && this.store == store && this.view == view
    {
      this.store := store;
      this.view := view;
    }

    // -------------------------------------------------------------- queries

    method Stat(name: Bytes) returns (r: Result<Info>)
      requires Valid()
      modifies store`faults
      ensures store.faults >= old(store.faults)
      ensures store.faults == old(store.faults) ==> r == StatOf(view, store.objects, name)
      ensures store.faults != old(store.faults) ==> r == Err(Service)
    {
      hide CleanFTPPath, JoinRoot, DirKey, Base, IsPage, KeysUnder;
      var clean := CleanFTPPath(name);
      if clean == ROOT {
        return Ok(Info(ROOT, 0, true));
      }
      var key := JoinRoot(view.root, clean);
      if key == [] {
        return Ok(Info(ROOT, 0, true));
      }
      var head := store.Head(key);
      if head.Err? {
        return Err(head.error);
      }
      if head.value.Some? {
        return Ok(Info(Base(clean), head.value.value, false));
      }
      var dirPrefix := DirKey(view.root, clean);
      var list := store.List(dirPrefix, false, None, 1);
      if list.Err? {
        return Err(list.error);
      }
      ProbePage(store.objects, dirPrefix, 1, store.minFill, list.value);
      if |list.value.contents| > 0 || |list.value.commonPrefixes| > 0 {
        return Ok(Info(Base(clean), 0, true));
      }
      return Err(NotExist);
    }

    method PrefixHasObjects(prefix: Bytes) returns (r: Result<bool>)
      requires Valid()
      modifies store`faults
      ensures store.faults >= old(store.faults)
      ensures store.faults == old(store.faults) ==> r == Ok(KeysUnder(store.objects, prefix) != {})
      ensures store.faults != old(store.faults) ==> r == Err(Service)
    {
      hide IsPage, KeysUnder;
      var out := store.List(prefix, false, None, 1);
      if out.Err? {
        return Err(out.error);
      }
      ProbePage(store.objects, prefix, 1, store.minFill, out.value);
      return Ok(|out.value.contents| > 0);
    }

    /** Collects a listing page by page; the keys come out complete and once each,
        wherever the server breaks the pages. */
    method ListAllKeys(prefix: Bytes) returns (r: Result<seq<Bytes>>)
      requires Valid()
      modifies store`faults
      ensures store.faults >= old(store.faults)
      ensures store.faults == old(store.faults) ==> r.Ok? && ListsKeys(store.objects, prefix, r.value)
      ensures store.faults != old(store.faults) ==> r == Err(Service)
    {
      hide IsPage, KeysUnder, ListedSoFar, ListsKeys, Remaining, EntryKeys;
      var keys: seq<Bytes> := [];
      var token: Option<Bytes> := None;
      ListedNone(KeysUnder(store.objects, prefix));
      while true
        invariant store.faults == old(store.faults)
        invariant ListedSoFar(KeysUnder(store.objects, prefix), token, keys)
        decreases |Remaining(KeysUnder(store.objects, prefix), token)|
      {
        var out := store.List(prefix, false, token, PAGE_LIMIT);
        if out.Err? {
          return Err(out.error);
        }
        var page := out.value;
        ghost var before := keys;
        for i := 0 to |page.contents|
          invariant keys == before + EntryKeys(page.contents)[..i]
        {
          keys := keys + [page.contents[i].key];
        }
        assert EntryKeys(page.contents)[..|page.contents|] == EntryKeys(page.contents);
        ListedMore(store.objects, prefix, token, PAGE_LIMIT, store.minFill, page, before);
        if !page.truncated {
          return Ok(keys);
        }
        token := page.next;
      }
    }

    /** Deletes the keys in batches of at most 1000; per-key refusals are not looked at. */
    method DeleteKeys(keys: seq<Bytes>) returns (r: Result<()>)
      requires Valid()
      modifies store
      ensures ShrinkingRun(old(store.objects), old(store.trace), store.trace, keys)
      ensures Shrunk(old(store.objects), store.objects, keys)
      ensures store.faults >= old(store.faults) && store.refusals >= old(store.refusals)
      ensures r == if store.faults == old(store.faults) then Ok(()) else Err(Service)
      ensures store.faults == old(store.faults) && store.refusals == old(store.refusals) ==>
                store.objects == old(store.objects) - (set k | k in keys)
    {
      hide Shrunk;
      ShrunkNone(store.objects, keys);
      var start := 0;
      while start < |keys|
        invariant 0 <= start <= |keys|
        invariant ShrinkingRun(old(store.objects), old(store.trace), store.trace, keys)
        invariant Shrunk(old(store.objects), store.objects, keys)
        invariant store.faults == old(store.faults) && store.refusals >= old(store.refusals)
        invariant store.refusals == old(store.refusals) ==>
                    store.objects == old(store.objects) - (set k | k in keys[..start])
      {
        var end := if start + BATCH_LIMIT < |keys| then start + BATCH_LIMIT else |keys|;
        ghost var before := store.objects;
        var out := store.DeleteBatch(keys[start..end]);
        ShrunkChain(old(store.objects), before, store.objects, keys, keys[start..end]);
        if out.Err? {
          return Err(out.error);
        }
        if store.refusals == old(store.refusals) {
          DeletedSoFar(old(store.objects), before, store.objects, keys, start, end);
        }
        start := end;
      }
      assert keys[..|keys|] == keys;
      return Ok(());
    }

    /** The entries of a directory: each child name once, sorted, whatever the pages.
        The path itself need not be a directory; a file has no children. */
    method ReadDir(name: Bytes) returns (r: Result<seq<Info>>)
      requires Valid()
      modifies store`faults
      ensures store.faults >= old(store.faults)
      ensures store.faults != old(store.faults) ==> r == Err(Service)
      ensures store.faults == old(store.faults) ==>
                var clean := CleanFTPPath(name);
                match StatOf(view, store.objects, clean)
                case Err(e) => r == Err(e)
                case Ok(_) =>
                  && r.Ok? && Lists(store.objects, DirKey(view.root, clean), r.value)
                  && (FitsOnePage(store.objects, DirKey(view.root, clean), store.minFill) ==>
                        DirsWin(store.objects, DirKey(view.root, clean), r.value))
    {
      hide CleanFTPPath, DirKey, StatOf, Lists, Collected, IsPage, Items, Remaining, SortInfos, FitsOnePage, DirsWin;
      var clean := CleanFTPPath(name);
      var stat := Stat(clean);
      if stat.Err? {
        return Err(stat.error);
      }
      var prefix := DirKey(view.root, clean);
      ghost var items := Items(store.objects, prefix, true);
      var infos: seq<Info>, seen: set<Bytes>, token: Option<Bytes> := [], {}, None;
      CollectedNone(store.objects, prefix, items);
      while true
        invariant store.faults == old(store.faults)
        invariant items == Items(store.objects, prefix, true)
        invariant Collected(store.objects, prefix, items - Remaining(items, token), infos, seen)
        invariant FitsOnePage(store.objects, prefix, store.minFill) ==> token.None? && infos == [] && seen == {}
        decreases |Remaining(items, token)|
      {
        var out := store.List(prefix, true, token, PAGE_LIMIT);
        if out.Err? {
          return Err(out.error);
        }
        var page := out.value;
        infos, seen := CollectPage(store.objects, prefix, token, store.minFill, page, infos, seen);
        CollectedMore(store.objects, prefix, token, store.minFill, page, infos, seen);
        if FitsOnePage(store.objects, prefix, store.minFill) {
          OnePage(store.objects, prefix, store.minFill, page);
          CollectedDistinct(store.objects, prefix, items - Remaining(items, token) + PageItems(page), infos, seen);
          OnePageWins(store.objects, prefix, store.minFill, page, infos);
        }
        if !page.truncated {
          break;
        }
        token := page.next;
      }
      SortedIsListing(store.objects, prefix, infos, seen);
      SortedWins(store.objects, prefix, infos);
      return Ok(SortInfos(infos));
    }

    // -------------------------------------------------------------- directories

    method Mkdir(name: Bytes) returns (r: Result<()>)
      requires Valid()
      modifies store
      ensures ConfinedRun(view.root, old(store.objects), old(store.trace), store.objects, store.trace)
      ensures store.faults >= old(store.faults) && store.refusals >= old(store.refusals)
      ensures store.faults != old(store.faults) ==> r == Err(Service)
      ensures view.readOnly ==>
                r == Err(ReadOnly) && store.trace == old(store.trace) && store.objects == old(store.objects)
      ensures store.faults == old(store.faults) && store.refusals == old(store.refusals) ==>
                Outcome(r, store.objects) == MkdirOf(view, old(store.objects), name)
    {
      hide CleanFTPPath, JoinRoot, DirKey, KeysUnder;
      ConfinedStart(view.root, store.objects, store.trace);
      if view.readOnly {
        return Err(ReadOnly);
      }
      var clean := CleanFTPPath(name);
      if clean == ROOT {
        return Ok(());
      }
      var head := store.Head(JoinRoot(view.root, clean));
      if head.Err? {
        return Err(head.error);
      }
      if head.value.Some? {
        return Err(Exist);
      }
      var occupied := PrefixHasObjects(DirKey(view.root, clean));
      if occupied.Err? {
        return Err(occupied.error);
      }
      if occupied.value {
        return Err(Exist);
      }
      if !view.dirMarker {
        return Ok(());
      }
      KeysUnderRoot(view.root, clean);
      r := store.Put(DirKey(view.root, clean), []);
      ConfinedStep(view.root, old(store.objects), old(store.trace), store.objects, DirKey(view.root, clean));
    }

    method MkdirAll(name: Bytes) returns (r: Result<()>)
      requires Valid()
      modifies store
      ensures ConfinedRun(view.root, old(store.objects), old(store.trace), store.objects, store.trace)
      ensures store.faults >= old(store.faults) && store.refusals >= old(store.refusals)
      ensures view.readOnly ==>
                r == Err(ReadOnly) && store.trace == old(store.trace) && store.objects == old(store.objects)
      ensures store.faults == old(store.faults) && store.refusals == old(store.refusals) ==>
                Outcome(r, store.objects) == MkdirAllOf(view, old(store.objects), name)
    {
      hide CleanFTPPath, StatOf, MkdirOf;
      ConfinedStart(view.root, store.objects, store.trace);
      if view.readOnly {
        return Err(ReadOnly);
      }
      var clean := CleanFTPPath(name);
      if clean == ROOT {
        return Ok(());
      }
      var stat := Stat(clean);
      if stat.Ok? {
        return Ok(());
      }
      r := Mkdir(clean);
    }

    /** Removes an empty directory after looking at two keys only. Where that does not
        decide, the page that came back does, and the marker of a directory that has
        other keys may be deleted; no other key ever is. */
    method RemoveDir(name: Bytes) returns (r: Result<()>)
      requires Valid()
      modifies store
      ensures ConfinedRun(view.root, old(store.objects), old(store.trace), store.objects, store.trace)
      ensures store.faults >= old(store.faults) && store.refusals >= old(store.refusals)
      ensures store.faults != old(store.faults) ==> r == Err(Service)
      ensures view.readOnly ==>
                r == Err(ReadOnly) && store.trace == old(store.trace) && store.objects == old(store.objects)
      ensures store.faults == old(store.faults) && RemoveDirDecided(view, old(store.objects), name, store.minFill) ==>
                Outcome(r, store.objects) == RemoveDirOf(view, old(store.objects), name)
      ensures store.faults == old(store.faults) ==>
                || Outcome(r, store.objects) == RemoveDirOf(view, old(store.objects), name)
                || Outcome(r, store.objects) == RemoveDirIf(view, old(store.objects), name, true)
      ensures forall k :: k in old(store.objects) && k != DirKey(view.root, CleanFTPPath(name)) ==>
                k in store.objects && store.objects[k] == old(store.objects)[k]
    {
      hide CleanFTPPath, JoinRoot, DirKey, KeysUnder, StatOf, IsPage;
      ConfinedStart(view.root, store.objects, store.trace);
      if view.readOnly {
        return Err(ReadOnly);
      }
      var clean := CleanFTPPath(name);
      if clean == ROOT {
        return Err(AccessDenied);
      }
      var stat := Stat(clean);
      if stat.Err? {
        return Err(stat.error);
      }
      if !stat.value.isDir {
        return Err(NotDirectory);
      }
      var prefix := DirKey(view.root, clean);
      var out := store.List(prefix, false, None, 2);
      if out.Err? {
        return Err(out.error);
      }
      TwoKeyProbe(store.objects, prefix, store.minFill);
      for i := 0 to |out.value.contents|
        invariant store.objects == old(store.objects) && store.trace == old(store.trace)
        invariant store.faults == old(store.faults) && store.refusals == old(store.refusals)
        invariant forall j :: 0 <= j < i ==> out.value.contents[j].key == prefix
      {
        if out.value.contents[i].key != prefix {
          assert out.value.contents[i] in out.value.contents;
          ProbePage(store.objects, prefix, 2, store.minFill, out.value);
          return Err(NotEmpty);
        }
      }
      KeysUnderRoot(view.root, clean);
      r := store.Delete(prefix);
      ConfinedStep(view.root, old(store.objects), old(store.trace), store.objects, prefix);
    }

    method Remove(name: Bytes) returns (r: Result<()>)
      requires Valid()
      modifies store
      ensures ConfinedRun(view.root, old(store.objects), old(store.trace), store.objects, store.trace)
      ensures store.faults >= old(store.faults) && store.refusals >= old(store.refusals)
      ensures store.faults != old(store.faults) ==> r == Err(Service)
      ensures view.readOnly ==>
                r == Err(ReadOnly) && store.trace == old(store.trace) && store.objects == old(store.objects)
      ensures store.faults == old(store.faults) && RemoveDecided(view, old(store.objects), name, store.minFill) ==>
                Outcome(r, store.objects) == RemoveOf(view, old(store.objects), name)
      ensures store.faults == old(store.faults) ==>
                || Outcome(r, store.objects) == RemoveOf(view, old(store.objects), name)
                || Outcome(r, store.objects) == RemoveDirIf(view, old(store.objects), CleanFTPPath(name), true)
    {
      hide CleanFTPPath, JoinRoot, StatOf, RemoveDirOf, RemoveDirIf, RemoveDirDecided;
      ConfinedStart(view.root, store.objects, store.trace);
      if view.readOnly {
        return Err(ReadOnly);
      }
      var clean := CleanFTPPath(name);
      if clean == ROOT {
        return Err(AccessDenied);
      }
      var stat := Stat(clean);
      if stat.Err? {
        return Err(stat.error);
      }
      if stat.value.isDir {
        r := RemoveDir(clean);
        return;
      }
      KeysUnderRoot(view.root, clean);
      r := store.Delete(JoinRoot(view.root, clean));
      ConfinedStep(view.root, old(store.objects), old(store.trace), store.objects, JoinRoot(view.root, clean));
    }

    /** Removes a path and everything below it. */
    method RemoveAll(name: Bytes) returns (r: Result<()>)
      requires Valid()
      modifies store
      ensures ConfinedRun(view.root, old(store.objects), old(store.trace), store.objects, store.trace)
      ensures store.faults >= old(store.faults) && store.refusals >= old(store.refusals)
      ensures store.faults != old(store.faults) ==> r == Err(Service)
      ensures view.readOnly ==>
                r == Err(ReadOnly) && store.trace == old(store.trace) && store.objects == old(store.objects)
      ensures store.faults == old(store.faults) && store.refusals == old(store.refusals) ==>
                Outcome(r, store.objects) == RemoveAllOf(view, old(store.objects), name)
    {
      hide CleanFTPPath, JoinRoot, DirKey, StatOf, KeysUnder, ConfinedRun, Shrunk, ShrinkingRun, ListsKeys;
      ConfinedStart(view.root, store.objects, store.trace);
      if view.readOnly {
        return Err(ReadOnly);
      }
      var clean := CleanFTPPath(name);
      if clean == ROOT {
        return Err(AccessDenied);
      }
      KeysUnderRoot(view.root, clean);
      var stat := Stat(clean);
      StatError(view, store.objects, clean);
      if stat.Err? && stat.error != NotExist {
        return Err(stat.error);
      }
      if stat.Ok? && !stat.value.isDir {
        r := store.Delete(JoinRoot(view.root, clean));
        ConfinedStep(view.root, old(store.objects), old(store.trace), store.objects, JoinRoot(view.root, clean));
        return;
      }
      var dir := DirKey(view.root, clean);
      var keys := ListAllKeys(dir);
      if keys.Err? {
        return Err(keys.error);
      }
      r := DeleteKeys(keys.value);
      ShrinkConfined(view.root, old(store.objects), old(store.trace), store.objects, store.trace, dir, keys.value);
      if store.faults == old(store.faults) && store.refusals == old(store.refusals) {
        DeletedAll(old(store.objects), store.objects, dir, keys.value);
      }
      if r.Err? || stat.Err? {
        return;
      }
      ghost var m1, t1 := store.objects, store.trace;
      r := store.Delete(dir);
      ConfinedStep(view.root, m1, t1, store.objects, dir);
      ConfinedChain(view.root, old(store.objects), old(store.trace), m1, t1, store.objects, store.trace);
    }

    // -------------------------------------------------------------- Rename

    /** The directory half of Rename: list everything, copy everything, then delete.
        Along every run, whatever fails, nothing is lost. */
    method RenamePrefix(oldPrefix: Bytes, newPrefix: Bytes) returns (r: Result<()>)
      requires Valid() && view.root <= oldPrefix && view.root <= newPrefix
      modifies store
      ensures MoveRun(old(store.objects), old(store.trace), store.trace, oldPrefix, newPrefix)
      ensures MoveSafe(old(store.objects), store.objects, oldPrefix, newPrefix) || store.objects == old(store.objects)
      ensures store.faults >= old(store.faults) && store.refusals >= old(store.refusals)
      ensures store.faults != old(store.faults) ==> r == Err(Service)
      ensures store.faults == old(store.faults) && store.refusals == old(store.refusals) ==>
                Outcome(r, store.objects) == RenameDirOf(old(store.objects), oldPrefix, newPrefix)
    {
      hide KeysUnder, MoveSafe, Copying, Copied, Moved, Target;
      ghost var m := store.objects;
      if oldPrefix == [] {
        return Err(AccessDenied);
      }
      if oldPrefix <= newPrefix {
        return Err(Invalid);
      }
      var occupied := PrefixHasObjects(newPrefix);
      if occupied.Err? {
        return Err(occupied.error);
      }
      if occupied.value {
        return Err(NotEmpty);
      }
      var listed := ListAllKeys(oldPrefix);
      if listed.Err? {
        return Err(listed.error);
      }
      var keys := listed.value;
      r := CopyAll(keys, oldPrefix, newPrefix);
      if r.Err? {
        return;
      }
      ghost var s1, t1 := store.objects, store.trace;
      r := DeleteKeys(keys);
      DeleteRunSafe(m, s1, old(store.trace), t1, store.objects, store.trace, oldPrefix, newPrefix, keys);
      if store.faults == old(store.faults) && store.refusals == old(store.refusals) {
        MoveExact(m, s1, store.objects, oldPrefix, newPrefix, keys);
      }
    }

    /** Copies one object, naming the source by its escaped header. */
    method CopyKey(from: Bytes, to: Bytes) returns (r: Result<()>)
      requires Valid()
      modifies store`objects, store`trace, store`faults
      ensures store.trace == old(store.trace) + [store.objects]
      ensures store.faults >= old(store.faults)
      ensures CopyEffect(old(store.objects), store.objects, from, to, store.faults == old(store.faults), r)
    {
      hide DecodeHeader, HeaderOf;
      var source := CopySource(store.bucket, from);
      r := store.Copy(source, to);
    }

    /** Copies every listed key to its target. */
    method CopyAll(keys: seq<Bytes>, a: Bytes, b: Bytes) returns (r: Result<()>)
      requires Valid() && ListsKeys(store.objects, a, keys) && KeysUnder(store.objects, b) == {}
      modifies store
      ensures MoveRun(old(store.objects), old(store.trace), store.trace, a, b)
      ensures Copying(old(store.objects), store.objects, a, b)
      ensures MoveSafe(old(store.objects), store.objects, a, b)
      ensures store.faults >= old(store.faults) && store.refusals == old(store.refusals)
      ensures r == if store.faults == old(store.faults) then Ok(()) else Err(Service)
      ensures r.Ok? ==> Copied(old(store.objects), store.objects, a, b)
    {
      hide MoveSafe, Copying;
      ghost var m := store.objects;
      CopyingNone(m, a, b);
      CopyingSafe(m, m, a, b);
      for i := 0 to |keys|
        invariant MoveRun(m, old(store.trace), store.trace, a, b)
        invariant Copying(m, store.objects, a, b) && MoveSafe(m, store.objects, a, b)
        invariant store.faults == old(store.faults) && store.refusals == old(store.refusals)
        invariant CopiedFirst(m, store.objects, a, b, keys, i)
      {
        var key := keys[i];
        assert key in KeysUnder(m, a);
        ghost var s := store.objects;
        CopyStep(m, s, a, b, key);
        CopiedStep(m, s, a, b, keys, i);
        r := CopyKey(key, Target(a, b, key));
        CopyingSafe(m, store.objects, a, b);
        if r.Err? {
          return;
        }
      }
      CopiedAll(m, store.objects, a, b, keys);
      return Ok(());
    }

    /** The file half of Rename. */
    method RenameFile(from: Bytes, to: Bytes, toDir: Bytes) returns (r: Result<()>)
      requires Valid()
      modifies store
      ensures FileMoveRun(old(store.objects), old(store.trace), store.trace, from, to)
      ensures FileMoveSafe(old(store.objects), store.objects, from, to)
      ensures store.faults >= old(store.faults) && store.refusals >= old(store.refusals)
      ensures store.faults != old(store.faults) ==> r == Err(Service)
      ensures store.faults == old(store.faults) && store.refusals == old(store.refusals) ==>
                Outcome(r, store.objects) == RenameFileOf(old(store.objects), from, to, toDir)
    {
      hide KeysUnder;
      var occupied := PrefixHasObjects(toDir);
      if occupied.Err? {
        return Err(occupied.error);
      }
      if occupied.value {
        return Err(IsDirectory);
      }
      r := CopyKey(from, to);
      if r.Err? {
        return;
      }
      r := store.Delete(from);
    }

    /** Renames by copying and deleting. */
    method Rename(oldname: Bytes, newname: Bytes) returns (r: Result<()>)
      requires Valid()
      modifies store
      ensures ConfinedRun(view.root, old(store.objects), old(store.trace), store.objects, store.trace)
      ensures store.faults >= old(store.faults) && store.refusals >= old(store.refusals)
      ensures store.faults != old(store.faults) ==> r == Err(Service)
      ensures view.readOnly ==>
                r == Err(ReadOnly) && store.trace == old(store.trace) && store.objects == old(store.objects)
      ensures store.faults == old(store.faults) && store.refusals == old(store.refusals) ==>
                Outcome(r, store.objects) == RenameOf(view, old(store.objects), oldname, newname)
      ensures RenameRun(view, old(store.objects), old(store.trace), store.trace, oldname, newname)
      ensures RenameSafe(view, old(store.objects), store.objects, oldname, newname)
    {
      hide CleanFTPPath, JoinRoot, DirKey, StatOf, KeysUnder, RenameDirOf, RenameFileOf, MoveRun, FileMoveRun,
        MoveSafe, FileMoveSafe, ConfinedRun;
      ConfinedStart(view.root, store.objects, store.trace);
      RenameRunStart(view, store.objects, store.trace, oldname, newname);
      if view.readOnly {
        return Err(ReadOnly);
      }
      var oldClean, newClean := CleanFTPPath(oldname), CleanFTPPath(newname);
      if oldClean == newClean {
        return Ok(());
      }
      if oldClean == ROOT || newClean == ROOT {
        return Err(AccessDenied);
      }
      var stat := Stat(oldClean);
      if stat.Err? {
        return Err(stat.error);
      }
      KeysUnderRoot(view.root, oldClean);
      KeysUnderRoot(view.root, newClean);
      if !stat.value.isDir {
        r := RenameFile(JoinRoot(view.root, oldClean), JoinRoot(view.root, newClean), DirKey(view.root, newClean));
        FileRunConfined(view.root, old(store.objects), old(store.trace), store.objects, store.trace,
                        JoinRoot(view.root, oldClean), JoinRoot(view.root, newClean));
        return;
      }
      r := RenamePrefix(DirKey(view.root, oldClean), DirKey(view.root, newClean));
      MoveRunConfined(view.root, old(store.objects), old(store.trace), store.objects, store.trace,
                      DirKey(view.root, oldClean), DirKey(view.root, newClean));
    }
  }

  /** The common prefixes of a page, each name kept once. */
  method CollectPrefixes(m: Objects, prefix: Bytes, cps: seq<Bytes>, ghost done: set<Bytes>,
                         infos0: seq<Info>, seen0: set<Bytes>)
      returns (infos: seq<Info>, seen: set<Bytes>)
    requires forall c :: c in cps ==> c in Items(m, prefix, true) && IsCommon(prefix, true, c)
    requires Collected(m, prefix, done, infos0, seen0)
    ensures Collected(m, prefix, done + Taken(cps, |cps|), infos, seen)
    ensures infos0 <= infos && ShowsDirs(prefix, cps, seen0, infos)
  {
    hide Items, Collected, RelativeName, IsCommon, HasDir, HasFile, Taken;
    infos, seen := infos0, seen0;
    TakenNone(done, cps);
    for i := 0 to |cps|
      invariant Collected(m, prefix, done + Taken(cps, i), infos, seen)
      invariant infos0 <= infos && forall n :: n in seen ==> n in seen0 || Info(n, 0, true) in infos
      invariant ShowsDirs(prefix, cps[..i], seen0, infos)
    {
      var cp := cps[i];
      CommonItem(m, prefix, cp);
      TakenNext(done, cps, i);
      var entry := RelativeName(prefix, cp);
      if entry == [] || entry in seen {
        CollectOld(m, prefix, done + Taken(cps, i), infos, seen, cp);
      } else {
        var info := Info(entry, 0, true);
        CollectNew(m, prefix, done + Taken(cps, i), infos, seen, cp, info);
        infos, seen := infos + [info], seen + {entry};
      }
    }
  }

  /** The objects of a page that are files directly below the prefix. */
  method CollectContents(m: Objects, prefix: Bytes, objs: seq<Entry>, ghost done: set<Bytes>,
                         infos0: seq<Info>, seen0: set<Bytes>)
      returns (infos: seq<Info>, seen: set<Bytes>)
    requires forall e :: e in objs ==>
               e.key in m && prefix <= e.key && !IsCommon(prefix, true, e.key) && e.size == |m[e.key]|
    requires Collected(m, prefix, done, infos0, seen0)
    ensures Collected(m, prefix, done + Taken(EntryKeys(objs), |objs|), infos, seen)
    ensures infos0 <= infos
  {
    hide Collected, RelativeName, IsCommon, HasDir, HasFile, Taken;
    infos, seen := infos0, seen0;
    ghost var keys := EntryKeys(objs);
    TakenNone(done, keys);
    for i := 0 to |objs|
      invariant Collected(m, prefix, done + Taken(keys, i), infos, seen)
      invariant infos0 <= infos
    {
      var obj := objs[i];
      ContentItem(m, prefix, obj.key);
      TakenNext(done, keys, i);
      var entry := RelativeName(prefix, obj.key);
      if obj.key == prefix || obj.key[|obj.key| - 1] == SLASH || entry == [] || !Slashless(entry) || entry in seen {
        CollectOld(m, prefix, done + Taken(keys, i), infos, seen, obj.key);
      } else {
        var info := Info(entry, obj.size, false);
        CollectNew(m, prefix, done + Taken(keys, i), infos, seen, obj.key, info);
        infos, seen := infos + [info], seen + {entry};
      }
    }
  }

  /** One page of a listing, common prefixes before contents. */
  method CollectPage(m: Objects, prefix: Bytes, ghost token: Option<Bytes>, ghost fill: nat, page: Page,
                     infos0: seq<Info>, seen0: set<Bytes>)
      returns (infos: seq<Info>, seen: set<Bytes>)
    requires IsPage(m, prefix, true, token, PAGE_LIMIT, fill, page)
    requires var items := Items(m, prefix, true);
             Collected(m, prefix, items - Remaining(items, token), infos0, seen0)
    ensures var items := Items(m, prefix, true);
            Collected(m, prefix, items - Remaining(items, token) + PageItems(page), infos, seen)
    ensures infos0 <= infos && ShowsDirs(prefix, page.commonPrefixes, seen0, infos)
  {
    hide IsPage, Items, Remaining, Collected, IsCommon, Taken, EntryKeys, PageItems;
    PageMembers(m, prefix, token, PAGE_LIMIT, fill, page);
    ghost var items := Items(m, prefix, true);
    ghost var done := items - Remaining(items, token);
    infos, seen := CollectPrefixes(m, prefix, page.commonPrefixes, done, infos0, seen0);
    ghost var half := done + Taken(page.commonPrefixes, |page.commonPrefixes|);
    infos, seen := CollectContents(m, prefix, page.contents, half, infos, seen);
    TakenPage(done, page);
  }
}
