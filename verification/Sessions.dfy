/** Whole sessions on one view, and what another view can notice of them. */
module Sessions {
  import opened Bytes
  import opened Paths
  import opened Buckets
  import opened Views
  import opened Listings
  import opened Runs
  import opened FileSystems
  import Uploads
  import Downloads

  datatype Command =
    | Look(path: Bytes)
    | Enumerate(path: Bytes)
    | MakeDir(path: Bytes)
    | MakeDirs(path: Bytes)
    | Delete(path: Bytes)
    | RemoveEmpty(path: Bytes)
    | RemoveTree(path: Bytes)
    | Move(path: Bytes, target: Bytes)
    | Send(path: Bytes, flags: Flags, offset: int, schedule: seq<Uploads.Event>)

  // ---------------------------------------------------------------- uploads

  function BodyAt(m: Objects, key: Bytes): Option<Bytes> {
    if key in m then Some(m[key]) else None
  }

  /** What an upload that meets no fault answers and leaves of bucket m: it is refused, or
      a run of the upload protocol takes place and the object is replaced if it commits. */
  ghost function UploadOf(v: View, m: Objects, name: Bytes, flags: Flags, offset: int, schedule: seq<Uploads.Event>)
      : (Result<Uploads.State>, Objects)
  {
    match HandleOf(v, name, flags)
    case Err(e) => (Err(e), m)
    case Ok(h) =>
      var prior := BodyAt(m, h.key);
      match Uploads.OpenUpload(flags, offset, Ok(Uploads.SizeOf(prior)))
      case Err(e) => (Err(e), m)
      case Ok(prefixLen) =>
        var o := Uploads.Init(prior, prefixLen);
        var end := Uploads.Final(o, Uploads.Realized(o, schedule));
        (Ok(end), if end.committed && end.stored.Some? then m[h.key := end.stored.value] else m)
  }

  /** An upload on a view: it is opened, its steps come in any order the schedule
      proposes, and it touches the store once, when it commits. */
  method Upload(fs: FS, name: Bytes, flags: Flags, offset: int, schedule: seq<Uploads.Event>)
      returns (r: Result<Uploads.State>)
    requires fs.Valid() && WantsWrite(flags)
    modifies fs.store
    ensures ConfinedRun(fs.view.root, old(fs.store.objects), old(fs.store.trace), fs.store.objects, fs.store.trace)
    ensures fs.view.readOnly ==>
              r.Err? && fs.store.objects == old(fs.store.objects) && fs.store.trace == old(fs.store.trace)
    ensures fs.store.faults >= old(fs.store.faults) && fs.store.refusals == old(fs.store.refusals)
    ensures fs.store.faults != old(fs.store.faults) ==> r == Err(Service)
    ensures fs.store.faults == old(fs.store.faults) ==>
              (r, fs.store.objects) == UploadOf(fs.view, old(fs.store.objects), name, flags, offset, schedule)
  {
    hide ConfinedRun, CleanFTPPath, JoinRoot, Uploads.Final, Uploads.Realized, Uploads.Feasible, Uploads.Init,
      Uploads.KeptBytes, Uploads.Given, Uploads.Aborts;
    ConfinedStart(fs.view.root, fs.store.objects, fs.store.trace);
    var h := HandleOf(fs.view, name, flags);
    if h.Err? {
      return Err(h.error);
    }
    var key := h.value.key;
    var head: Result<Option<nat>> := Ok(None);
    if Uploads.AsksSize(flags, offset) {
      head := fs.store.Head(key);
      if head.Err? {
        return Err(head.error);
      }
    }
    var open := Uploads.OpenUpload(flags, offset, head);
    if open.Err? {
      return Err(open.error);
    }
    var o := Uploads.Init(BodyAt(fs.store.objects, key), open.value);
    var run := Uploads.Realized(o, schedule);
    var end := Uploads.Final(o, run);
    Uploads.UploadLeaves(flags, offset, BodyAt(fs.store.objects, key), run);
    r := Ok(end);
    if end.committed {
      var put := fs.store.Put(key, end.stored.value);
      KeysUnderRoot(fs.view.root, CleanFTPPath(name));
      ConfinedStep(fs.view.root, old(fs.store.objects), old(fs.store.trace), fs.store.objects, key);
      if put.Err? {
        return Err(put.error);
      }
    }
  }

  /** What the client may conclude: a Close that returned nil has stored what the open
      mode keeps followed by every byte given to Write; one that returned an error, with
      no TransferError in the run, has changed nothing; and it returns nil whenever
      nothing failed and no TransferError came. No other key ever changes. */
  lemma UploadMeaning(v: View, m: Objects, name: Bytes, flags: Flags, offset: int, schedule: seq<Uploads.Event>)
    requires WantsWrite(flags) && UploadOf(v, m, name, flags, offset, schedule).0.Ok?
    ensures var (r, s) := UploadOf(v, m, name, flags, offset, schedule);
            var key := JoinRoot(v.root, CleanFTPPath(name));
            var prior := BodyAt(m, key);
            && Uploads.OpenUpload(flags, offset, Ok(Uploads.SizeOf(prior))).Ok?
            && var o := Uploads.Init(prior, Uploads.OpenUpload(flags, offset, Ok(Uploads.SizeOf(prior))).value);
            var run := Uploads.Realized(o, schedule);
            && (r.value.result == Some(None) ==>
                  s == m[key := Uploads.KeptBytes(flags, offset, prior) + Uploads.Given(run)])
            && (r.value.result.Some? && r.value.result.value.Some? && !Uploads.Aborts(run) ==> s == m)
            && (Uploads.Own(run) && r.value.result.Some? ==> r.value.result == Some(None))
            && (forall k :: k != key ==> (k in s <==> k in m) && (k in m ==> s[k] == m[k]))
  {
    hide CleanFTPPath, JoinRoot, Uploads.Final, Uploads.Realized, Uploads.Feasible, Uploads.Init,
      Uploads.KeptBytes, Uploads.Given, Uploads.Aborts, Uploads.Own;
    var prior := BodyAt(m, JoinRoot(v.root, CleanFTPPath(name)));
    var prefixLen := Uploads.OpenUpload(flags, offset, Ok(Uploads.SizeOf(prior))).value;
    var run := Uploads.Realized(Uploads.Init(prior, prefixLen), schedule);
    Uploads.UploadLeaves(flags, offset, prior, run);
    if Uploads.Own(run) {
      Uploads.OwnRunsSucceed(prior, prefixLen, run);
    }
  }

  // ---------------------------------------------------------------- downloads

  const READ: Flags := Flags(false, false, false, false, false)

  /** A download on a view: the handle reads the object at the path's key. */
  method Fetch(fs: FS, name: Bytes, offset: int) returns (r: Result<Downloads.Download>)
    requires fs.Valid() && forall k :: k in fs.store.objects ==> |fs.store.objects[k]| <= MAX_INT64
    modifies fs.store`faults
    ensures fs.store.faults >= old(fs.store.faults)
    ensures fs.store.faults != old(fs.store.faults) ==> r == Err(Service)
    ensures fs.store.faults == old(fs.store.faults) ==>
              match HandleOf(fs.view, name, READ)
              case Err(e) => r == Err(e)
              case Ok(h) =>
                if h.key !in fs.store.objects then r == Err(NotExist)
                else if !(0 <= offset <= |fs.store.objects[h.key]|) then r == Err(Invalid)
                else
                  && r.Ok? && fresh(r.value) && r.value.Valid() && !r.value.closed
                  && r.value.contents == fs.store.objects[h.key] && r.value.pos == offset
  {
    hide CleanFTPPath, JoinRoot;
    var h := HandleOf(fs.view, name, READ);
    if h.Err? {
      return Err(h.error);
    }
    var head := fs.store.Head(h.value.key);
    if head.Err? {
      return Err(head.error);
    }
    r := Downloads.OpenDownload(BodyAt(fs.store.objects, h.value.key), offset);
  }

  /** An upload that was answered nil and then a download of the same name: the client
      gets back what the open mode kept and every byte it has written. */
  method SendAndFetch(fs: FS, name: Bytes, flags: Flags, offset: int, schedule: seq<Uploads.Event>)
      returns (sent: Result<Uploads.State>, got: Result<Downloads.Download>)
    requires fs.Valid() && WantsWrite(flags) && |Uploads.Given(schedule)| <= MAX_INT64
    requires forall k :: k in fs.store.objects ==>
               |fs.store.objects[k]| + |Uploads.Given(schedule)| <= MAX_INT64
    modifies fs.store
    ensures fs.store.faults == old(fs.store.faults) && sent.Ok? && sent.value.result == Some(None) ==>
              var prior := BodyAt(old(fs.store.objects), JoinRoot(fs.view.root, CleanFTPPath(name)));
              && Uploads.OpenUpload(flags, offset, Ok(Uploads.SizeOf(prior))).Ok?
              && var o := Uploads.Init(prior, Uploads.OpenUpload(flags, offset, Ok(Uploads.SizeOf(prior))).value);
              && got.Ok? && got.value.Valid() && !got.value.closed && got.value.pos == 0
              && got.value.contents
                 == Uploads.KeptBytes(flags, offset, prior) + Uploads.Given(Uploads.Realized(o, schedule))
  {
    hide CleanFTPPath, JoinRoot, ConfinedRun, UploadOf, Uploads.OpenUpload, Uploads.Init, Uploads.Realized,
      Uploads.KeptBytes, Uploads.Given, Uploads.Aborts, Uploads.Own;
    ghost var m := fs.store.objects;
    sent := Upload(fs, name, flags, offset, schedule);
    if sent.Err? || sent.value.result != Some(None) {
      return sent, Err(Invalid);
    }
    UploadMeaning(fs.view, m, name, flags, offset, schedule);
    UploadHandle(fs.view, m, name, flags, offset, schedule);
    ghost var prior := BodyAt(m, JoinRoot(fs.view.root, CleanFTPPath(name)));
    ghost var o := Uploads.Init(prior, Uploads.OpenUpload(flags, offset, Ok(Uploads.SizeOf(prior))).value);
    Uploads.KeptAtMost(flags, offset, prior);
    Uploads.GivenAtMost(o, schedule);
    got := Fetch(fs, name, 0);
  }

  lemma UploadHandle(v: View, m: Objects, name: Bytes, flags: Flags, offset: int, schedule: seq<Uploads.Event>)
    requires WantsWrite(flags) && UploadOf(v, m, name, flags, offset, schedule).0.Ok?
    ensures HandleOf(v, name, READ) == Ok(Download(JoinRoot(v.root, CleanFTPPath(name))))
  {
    hide CleanFTPPath, JoinRoot, Uploads.Final, Uploads.Realized, Uploads.OpenUpload;
  }

  // ---------------------------------------------------------------- commands

  /** What a command makes of the bucket in one shot, when nothing fails. */
  ghost function Meaning(v: View, m: Objects, c: Command): Objects {
    match c
    case Look(_) => m
    case Enumerate(_) => m
    case MakeDir(p) => MkdirOf(v, m, p).objects
    case MakeDirs(p) => MkdirAllOf(v, m, p).objects
    case Delete(p) => RemoveOf(v, m, p).objects
    case RemoveEmpty(p) => RemoveDirOf(v, m, p).objects
    case RemoveTree(p) => RemoveAllOf(v, m, p).objects
    case Move(p, q) => RenameOf(v, m, p, q).objects
    case Send(p, flags, offset, schedule) =>
      if WantsWrite(flags) then UploadOf(v, m, p, flags, offset, schedule).1 else m
  }

  /** No page the server may send can mislead the command. */
  ghost predicate Decided(v: View, m: Objects, c: Command, fill: nat) {
    && (c.Delete? ==> RemoveDecided(v, m, c.path, fill))
    && (c.RemoveEmpty? ==> RemoveDirDecided(v, m, c.path, fill))
  }

  /** One command. */
  method Perform(fs: FS, c: Command)
    requires fs.Valid()
    modifies fs.store
    ensures ConfinedRun(fs.view.root, old(fs.store.objects), old(fs.store.trace), fs.store.objects, fs.store.trace)
    ensures fs.view.readOnly ==> fs.store.objects == old(fs.store.objects) && fs.store.trace == old(fs.store.trace)
    ensures fs.store.faults >= old(fs.store.faults) && fs.store.refusals >= old(fs.store.refusals)
    ensures fs.store.faults == old(fs.store.faults) && fs.store.refusals == old(fs.store.refusals)
            && Decided(fs.view, old(fs.store.objects), c, fs.store.minFill) ==>
              fs.store.objects == Meaning(fs.view, old(fs.store.objects), c)
  {
    hide ConfinedRun, CleanFTPPath, JoinRoot, DirKey, StatOf, MkdirOf, MkdirAllOf, RemoveOf, RemoveDirOf, RemoveAllOf,
      RemoveDirIf, RenameOf, RenameRun, RenameSafe, Lists, UploadOf, RemoveDecided, RemoveDirDecided;
    ConfinedStart(fs.view.root, fs.store.objects, fs.store.trace);
    match c {
      case Look(p) => var _ := fs.Stat(p);
      case Enumerate(p) => var _ := fs.ReadDir(p);
      case MakeDir(p) => var _ := fs.Mkdir(p);
      case MakeDirs(p) => var _ := fs.MkdirAll(p);
      case Delete(p) => var _ := fs.Remove(p);
      case RemoveEmpty(p) => var _ := fs.RemoveDir(p);
      case RemoveTree(p) => var _ := fs.RemoveAll(p);
      case Move(p, q) => var _ := fs.Rename(p, q);
      case Send(p, flags, offset, schedule) =>
        if WantsWrite(flags) {
          var _ := Upload(fs, p, flags, offset, schedule);
        }
    }
  }

  /** What a sequence of commands makes of the bucket. */
  ghost function Meanings(v: View, m: Objects, cs: seq<Command>): Objects {
    if cs == [] then m else Meaning(v, Meanings(v, m, cs[..|cs| - 1]), cs[|cs| - 1])
  }

  ghost predicate AllDecided(v: View, m: Objects, cs: seq<Command>, fill: nat) {
    forall i :: 0 <= i < |cs| ==> Decided(v, Meanings(v, m, cs[..i]), cs[i], fill)
  }

  /** A server that fills its pages to two misleads no command. */
  lemma FullPagesDecide(v: View, m: Objects, cs: seq<Command>, fill: nat)
    requires fill >= 2
    ensures AllDecided(v, m, cs, fill)
  {
    hide StatOf, CleanFTPPath, DirKey, Meanings;
  }

  /** Any sequence of commands, with any failures, stays below the view's root in
      every state it goes through; on a read-only view it changes nothing; and if nothing
      fails it leaves what the commands mean one after the other, wherever the server
      has broken its pages. */
  method Run(fs: FS, commands: seq<Command>)
    requires fs.Valid()
    modifies fs.store
    ensures ConfinedRun(fs.view.root, old(fs.store.objects), old(fs.store.trace), fs.store.objects, fs.store.trace)
    ensures fs.view.readOnly ==> fs.store.objects == old(fs.store.objects) && fs.store.trace == old(fs.store.trace)
    ensures fs.store.faults == old(fs.store.faults) && fs.store.refusals == old(fs.store.refusals)
            && AllDecided(fs.view, old(fs.store.objects), commands, fs.store.minFill) ==>
              fs.store.objects == Meanings(fs.view, old(fs.store.objects), commands)
  {
    hide ConfinedRun, Decided, Meaning;
    ConfinedStart(fs.view.root, fs.store.objects, fs.store.trace);
    ghost var quiet := AllDecided(fs.view, fs.store.objects, commands, fs.store.minFill);
    for i := 0 to |commands|
      invariant ConfinedRun(fs.view.root, old(fs.store.objects), old(fs.store.trace), fs.store.objects, fs.store.trace)
      invariant fs.view.readOnly ==> fs.store.objects == old(fs.store.objects) && fs.store.trace == old(fs.store.trace)
      invariant fs.store.faults >= old(fs.store.faults) && fs.store.refusals >= old(fs.store.refusals)
      invariant fs.store.faults == old(fs.store.faults) && fs.store.refusals == old(fs.store.refusals) && quiet ==>
                  fs.store.objects == Meanings(fs.view, old(fs.store.objects), commands[..i])
    {
      ghost var m, t := fs.store.objects, fs.store.trace;
      Perform(fs, commands[i]);
      ConfinedChain(fs.view.root, old(fs.store.objects), old(fs.store.trace), m, t, fs.store.objects, fs.store.trace);
      assert commands[..i + 1][..i] == commands[..i];
    }
    assert commands[..|commands|] == commands;
  }

  // ---------------------------------------------------------------- there and back

  /** A directory renamed and renamed back: on a run without faults and refusals the
      bucket is what it was exactly when no object had the new name's own key. */
  method RenameAndBack(fs: FS, p: Bytes, q: Bytes) returns (there: Result<()>, back: Result<()>)
    requires fs.Valid() && !fs.view.readOnly && Settled(p) && Settled(q) && p != q && p != ROOT && q != ROOT
    requires KindAt(fs.store.objects, JoinRoot(fs.view.root, p), DirKey(fs.view.root, p)) == Dir
    modifies fs.store
    ensures fs.store.faults == old(fs.store.faults) && fs.store.refusals == old(fs.store.refusals) ==>
              if there.Ok?
              then (back == Ok(()) && fs.store.objects == old(fs.store.objects))
                   <==> JoinRoot(fs.view.root, q) !in old(fs.store.objects)
              else back == there && fs.store.objects == old(fs.store.objects)
  {
    hide CleanFTPPath, JoinRoot, DirKey, Settled, RenameOf, RenameRun, RenameSafe, ConfinedRun, KindAt;
    there := fs.Rename(p, q);
    if there.Err? {
      RenameRefused(fs.view, old(fs.store.objects), p, q);
      return there, there;
    }
    back := fs.Rename(q, p);
    if fs.store.faults == old(fs.store.faults) && fs.store.refusals == old(fs.store.refusals) {
      RenameRoundTrip(fs.view, old(fs.store.objects), p, q);
    }
  }

  lemma RenameRefused(v: View, m: Objects, p: Bytes, q: Bytes)
    ensures RenameOf(v, m, p, q).result.Err? ==> RenameOf(v, m, p, q).objects == m
  {
    hide CleanFTPPath, JoinRoot, DirKey, StatOf;
  }

  /** A directory made and removed again: on a run without faults the bucket is what it
      was, on every server, however short its pages. Without markers there is nothing
      to remove. */
  method MakeAndRemove(fs: FS, p: Bytes) returns (made: Result<()>, removed: Result<()>)
    requires fs.Valid() && !fs.view.readOnly && Settled(p) && p != ROOT
    modifies fs.store
    ensures fs.store.faults == old(fs.store.faults) && fs.store.refusals == old(fs.store.refusals) ==>
              && fs.store.objects == old(fs.store.objects)
              && (made.Ok? ==> removed == if fs.view.dirMarker then Ok(()) else Err(NotExist))
  {
    hide CleanFTPPath, JoinRoot, DirKey, Settled, StatOf, ConfinedRun, MkdirOf, RemoveDirOf, RemoveDirIf;
    ghost var m := fs.store.objects;
    made := fs.Mkdir(p);
    MadeIsDecided(fs.view, m, p, fs.store.minFill);
    if made.Err? {
      return made, made;
    }
    removed := fs.RemoveDir(p);
  }

  lemma MadeIsDecided(v: View, m: Objects, p: Bytes, fill: nat)
    requires ValidRoot(v.root) && !v.readOnly && Settled(p) && p != ROOT
    ensures MkdirOf(v, m, p).result.Err? ==> MkdirOf(v, m, p).objects == m
    ensures MkdirOf(v, m, p).result.Ok? ==>
              var m' := MkdirOf(v, m, p).objects;
              && RemoveDirDecided(v, m', p, fill)
              && RemoveDirOf(v, m', p) == Outcome(if v.dirMarker then Ok(()) else Err(NotExist), m)
  {
    hide JoinRoot, DirKey, CleanFTPPath, Settled, StatOf, KeysUnder;
    SettledFixed(p);
    MkdirExactly(v, m, p);
    StatError(v, m, p);
    if v.dirMarker && MkdirOf(v, m, p).result.Ok? {
      MkdirRemoveDir(v, m, p);
    }
  }

  // ---------------------------------------------------------------- isolation

  /** A view sees the same in two buckets: what Stat says, which listings are
      right, and every body it can read. */
  ghost predicate LooksSame(v: View, m: Objects, s: Objects, name: Bytes) {
    && StatOf(v, m, name) == StatOf(v, s, name)
    && (forall l :: Lists(m, DirKey(v.root, name), l) <==> Lists(s, DirKey(v.root, name), l))
    && (JoinRoot(v.root, name) in m <==> JoinRoot(v.root, name) in s)
    && (JoinRoot(v.root, name) in m ==> m[JoinRoot(v.root, name)] == s[JoinRoot(v.root, name)])
  }

  /** The part of a bucket under one root is untouched by changes under an
      incomparable one. */
  lemma OtherRoot(r1: Bytes, r2: Bytes, m: Objects, s: Objects, k: Bytes)
    requires !(r1 <= r2) && !(r2 <= r1) && SameOutside(r1, m, s)
    ensures r2 <= k ==> (k in m <==> k in s) && (k in m ==> s[k] == m[k])
  {
    PrefixesComparable(r1, r2, k);
  }

  lemma OtherKeysUnder(r1: Bytes, r2: Bytes, m: Objects, s: Objects, prefix: Bytes)
    requires !(r1 <= r2) && !(r2 <= r1) && SameOutside(r1, m, s) && r2 <= prefix
    ensures KeysUnder(m, prefix) == KeysUnder(s, prefix)
  {
    forall k
      ensures k in KeysUnder(m, prefix) <==> k in KeysUnder(s, prefix)
    {
      PrefixTransitive(r2, prefix, k);
      OtherRoot(r1, r2, m, s, k);
    }
  }

  lemma OtherChildren(r1: Bytes, r2: Bytes, m: Objects, s: Objects, prefix: Bytes, n: Bytes)
    requires !(r1 <= r2) && !(r2 <= r1) && SameOutside(r1, m, s) && r2 <= prefix
    ensures HasDir(m, prefix, n) == HasDir(s, prefix, n)
    ensures HasFile(m, prefix, n) == HasFile(s, prefix, n)
    ensures HasFile(m, prefix, n) ==> m[prefix + n] == s[prefix + n]
  {
    PrefixTransitive(r2, prefix, prefix + n);
    PrefixTransitive(r2, prefix, prefix + n + [SLASH]);
    OtherKeysUnder(r1, r2, m, s, prefix + n + [SLASH]);
    OtherRoot(r1, r2, m, s, prefix + n);
  }

  lemma OtherListing(r1: Bytes, r2: Bytes, m: Objects, s: Objects, prefix: Bytes, l: seq<Info>)
    requires !(r1 <= r2) && !(r2 <= r1) && SameOutside(r1, m, s) && r2 <= prefix && Lists(m, prefix, l)
    ensures Lists(s, prefix, l)
  {
    hide HasDir, HasFile, SameOutside;
    forall e | e in l
      ensures Genuine(s, prefix, e)
    {
      assert Genuine(m, prefix, e);
      OtherChildren(r1, r2, m, s, prefix, e.name);
      assert HasFile(m, prefix, e.name) ==> prefix + e.name in m by {
        FileKey(m, prefix, e.name);
      }
    }
    forall n | HasChild(s, prefix, n)
      ensures Mentions(l, n)
    {
      OtherChildren(r1, r2, m, s, prefix, n);
    }
  }

  lemma FileKey(m: Objects, prefix: Bytes, n: Bytes)
    ensures HasFile(m, prefix, n) ==> prefix + n in m
  {
  }

  lemma SameOutsideSymmetric(r: Bytes, m: Objects, s: Objects)
    requires SameOutside(r, m, s)
    ensures SameOutside(r, s, m)
  {
  }

  lemma OtherView(r1: Bytes, v: View, m: Objects, s: Objects, name: Bytes)
    requires !(r1 <= v.root) && !(v.root <= r1) && SameOutside(r1, m, s)
    ensures LooksSame(v, m, s, name)
  {
    hide CleanFTPPath, JoinRoot, DirKey, SameOutside, Lists, KeysUnder, Base;
    var clean := CleanFTPPath(name);
    KeysUnderRoot(v.root, name);
    KeysUnderRoot(v.root, clean);
    SameOutsideSymmetric(r1, m, s);
    OtherRoot(r1, v.root, m, s, JoinRoot(v.root, name));
    OtherRoot(r1, v.root, m, s, JoinRoot(v.root, clean));
    OtherKeysUnder(r1, v.root, m, s, DirKey(v.root, clean));
    forall l
      ensures Lists(m, DirKey(v.root, name), l) <==> Lists(s, DirKey(v.root, name), l)
    {
      if Lists(m, DirKey(v.root, name), l) {
        OtherListing(r1, v.root, m, s, DirKey(v.root, name), l);
      }
      if Lists(s, DirKey(v.root, name), l) {
        OtherListing(r1, v.root, s, m, DirKey(v.root, name), l);
      }
    }
  }

  /** With two roots neither of which extends the other, no run on the first view
      changes, at any of its steps, what the second one sees under any name. */
  lemma ViewIsolation(r1: Bytes, v: View, m0: Objects, t0: seq<Objects>, m1: Objects, t1: seq<Objects>, name: Bytes)
    requires !(r1 <= v.root) && !(v.root <= r1) && ConfinedRun(r1, m0, t0, m1, t1)
    ensures LooksSame(v, m0, m1, name)
    ensures forall i :: |t0| <= i < |t1| ==> LooksSame(v, m0, t1[i], name)
  {
    hide LooksSame;
    OtherView(r1, v, m0, m1, name);
    forall i | |t0| <= i < |t1|
      ensures LooksSame(v, m0, t1[i], name)
    {
      OtherView(r1, v, m0, t1[i], name);
    }
  }
}
