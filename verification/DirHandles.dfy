/** The directory handle: a listing loaded once and handed out in batches. */
module DirHandles {
  import opened Bytes
  import opened Paths
  import opened Views
  import opened Listings
  import opened FileSystems

  /** A batch of entries, the end of the directory, a failure, or the slice bound
      that has wrapped around. */
  datatype Batch = Entries(infos: seq<Info>) | EndOfDir | Failed(error: Error) | OutOfRange

  class DirHandle {
    const fs: FS
    const name: Bytes
    var entries: seq<Info>
    var offset: nat

    ghost predicate Valid()
      reads this
    {
      fs.Valid() && offset <= |entries|
    }

    /** The entries are what the directory holds now. */
    ghost predicate Current()
      reads this, fs.store
    {
      Lists(fs.store.objects, DirKey(fs.view.root, CleanFTPPath(name)), entries)
    }

    /** What Stat says about the directory now. */
    ghost function StatNow(): Result<Info>
      reads fs.store
    {
      StatOf(fs.view, fs.store.objects, CleanFTPPath(name))
    }

    constructor (fs: FS, name: Bytes)
      requires fs.Valid()
      ensures Valid() && this.fs == fs && this.name == name && entries == [] && offset == 0
    {
      this.fs := fs;
      this.name := name;
      entries := [];
      offset := 0;
    }

    method Seek(target: int, fromStartOrCurrent: bool) returns (r: Result<int>)
      requires Valid()
      modifies this`offset
      ensures Valid()
      ensures r == if target == 0 && fromStartOrCurrent then Ok(0) else Err(Invalid)
      ensures offset == if r.Ok? then 0 else old(offset)
    {
      if target == 0 && fromStartOrCurrent {
        offset := 0;
        return Ok(0);
      }
      return Err(Invalid);
    }

    /** Loads the listing unless there is one; an empty listing is loaded again each time. */
    method Load() returns (r: Result<()>)
      requires Valid()
      modifies this`entries, fs.store`faults
      ensures Valid() && fs.store.faults >= old(fs.store.faults)
      ensures old(entries) != [] ==> r == Ok(()) && entries == old(entries)
      ensures old(entries) == [] && r.Ok? ==> Current()
      ensures r.Err? ==> entries == old(entries)
      ensures fs.store.faults != old(fs.store.faults) ==> r == Err(Service)
      ensures fs.store.faults == old(fs.store.faults) && r.Err? ==> StatNow().Err? && r.error == StatNow().error
      ensures r.Ok? && old(entries) == [] ==> StatNow().Ok?
    {
      hide Lists, StatOf, CleanFTPPath, DirKey;
      if entries != [] {
        return Ok(());
      }
      var loaded := fs.ReadDir(name);
      if loaded.Err? {
        return Err(loaded.error);
      }
      entries := loaded.value;
      return Ok(());
    }

    /** The next entries: all that are left for a count of at most zero, otherwise
        at most count of them. */
    method Readdir(count: int) returns (b: Batch)
      requires Valid() && -MAX_INT64 - 1 <= count <= MAX_INT64
      modifies this, fs.store`faults
      ensures Valid() && fs.store.faults >= old(fs.store.faults)
      ensures old(entries) != [] ==> entries == old(entries)
      ensures old(entries) == [] && !b.Failed? ==> Current()
      ensures b.Failed? ==> entries == old(entries)
      ensures fs.store.faults != old(fs.store.faults) ==> b == Failed(Service)
      ensures fs.store.faults == old(fs.store.faults) && b.Failed? ==> StatNow().Err? && b.error == StatNow().error
      ensures !b.Failed? && old(entries) == [] ==> StatNow().Ok?
      ensures !b.Failed? ==> old(offset) <= |entries| && b == NextBatch(entries, old(offset), count)
      ensures offset == old(offset) + (if b.Entries? then |b.infos| else 0)
    {
      hide Lists, CleanFTPPath, DirKey, StatOf;
      var loaded := Load();
      if loaded.Err? {
        return Failed(loaded.error);
      }
      if count <= 0 {
        b := Entries(entries[offset..]);
        offset := |entries|;
        return;
      }
      if offset >= |entries| {
        return EndOfDir;
      }
      if offset + count > MAX_INT64 {
        // The sum wraps to a negative bound, which no slice accepts.
        return OutOfRange;
      }
      var end := if offset + count < |entries| then offset + count else |entries|;
      b := Entries(entries[offset..end]);
      offset := end;
    }

    /** The names of the next entries; when there is no batch, no names and the offset
        stays. */
    method Readdirnames(count: int) returns (b: Batch, names: seq<Bytes>)
      requires Valid() && -MAX_INT64 - 1 <= count <= MAX_INT64
      modifies this, fs.store`faults
      ensures Valid() && fs.store.faults >= old(fs.store.faults)
      ensures old(entries) != [] ==> entries == old(entries)
      ensures old(entries) == [] && !b.Failed? ==> Current()
      ensures b.Failed? ==> entries == old(entries)
      ensures fs.store.faults != old(fs.store.faults) ==> b == Failed(Service)
      ensures fs.store.faults == old(fs.store.faults) && b.Failed? ==> StatNow().Err? && b.error == StatNow().error
      ensures !b.Failed? && old(entries) == [] ==> StatNow().Ok?
      ensures !b.Failed? ==> old(offset) <= |entries| && b == NextBatch(entries, old(offset), count)
      ensures offset == old(offset) + |names|
      ensures |names| == if b.Entries? then |b.infos| else 0
      ensures forall i :: 0 <= i < |names| ==> names[i] == b.infos[i].name
    {
      hide Lists, CleanFTPPath, DirKey, NextBatch, StatOf;
      names := [];
      b := Readdir(count);
      if b.Entries? {
        for i := 0 to |b.infos|
          invariant |names| == i && forall j :: 0 <= j < i ==> names[j] == b.infos[j].name
        {
          names := names + [b.infos[i].name];
        }
      }
    }
  }

  /** What a Readdir at an offset answers from loaded entries: the rest for a count of
      at most zero, else a non-empty batch of at most count, the end, or a slice bound
      that has wrapped around. */
  function NextBatch(entries: seq<Info>, offset: nat, count: int): (b: Batch)
    requires offset <= |entries|
    ensures b.Entries? ==> b.infos <= entries[offset..]
    ensures b.Entries? && count > 0 ==> 0 < |b.infos| <= count
    ensures b.Entries? && (count <= 0 || |b.infos| < count) ==> offset + |b.infos| == |entries|
    ensures b.EndOfDir? <==> count > 0 && offset == |entries|
    ensures b.OutOfRange? <==> count > 0 && offset < |entries| && offset + count > MAX_INT64
  {
    if count <= 0 then Entries(entries[offset..])
    else if offset == |entries| then EndOfDir
    else if offset + count > MAX_INT64 then OutOfRange
    else if offset + count < |entries| then Entries(entries[offset..offset + count])
    else Entries(entries[offset..])
  }

  /** The wrap-around needs only two entries: after a batch of one, the largest count
      is out of range, although at the start it is answered with everything. */
  lemma LargestCountWraps(a: Info, b: Info)
    ensures NextBatch([a, b], 0, MAX_INT64) == Entries([a, b])
    ensures NextBatch([a, b], 0, 1) == Entries([a])
    ensures NextBatch([a, b], 1, MAX_INT64) == OutOfRange
  {
    assert [a, b][0..] == [a, b] && [a, b][0..1] == [a];
  }

  /** Paging through a directory with positive counts of any sizes: what comes out
      is the listing up to the offset, without gaps or repeats, and at the end of
      the directory it is the whole listing. */
  method ReadPages(h: DirHandle, counts: seq<int>) returns (out: seq<Info>, last: Batch)
    requires h.Valid() && (h.entries == [] || h.Current()) && h.offset == 0
    requires forall c :: c in counts ==> 0 < c <= MAX_INT64
    modifies h, h.fs.store`faults
    ensures h.Valid() && out == h.entries[..h.offset]
    ensures last.EndOfDir? ==> out == h.entries && h.Current()
    ensures out != [] ==> h.Current()
    ensures last.OutOfRange? ==> exists c :: c in counts && |out| + c > MAX_INT64
    ensures last.Entries? && |counts| > 0 ==> |counts| <= |out|
    ensures last.Failed? && h.fs.store.faults == old(h.fs.store.faults) ==> h.StatNow() == Err(last.error)
  {
    hide Lists, CleanFTPPath, DirKey, StatOf;
    out, last := [], Entries([]);
    var i := 0;
    while i < |counts| && last.Entries?
      invariant 0 <= i <= |counts|
      invariant h.Valid() && out == h.entries[..h.offset]
      invariant last.Entries? ==> i <= |out|
      invariant h.entries != [] || last.EndOfDir? ==> h.Current()
      invariant last.EndOfDir? ==> h.offset == |h.entries|
      invariant h.fs.store.faults >= old(h.fs.store.faults)
      invariant h.fs.store.faults > old(h.fs.store.faults) ==> last.Failed?
      invariant last.Failed? && h.fs.store.faults == old(h.fs.store.faults) ==> h.StatNow() == Err(last.error)
      invariant last.OutOfRange? ==> exists c :: c in counts && |out| + c > MAX_INT64
    {
      assert counts[i] in counts;
      last := h.Readdir(counts[i]);
      if last.Entries? {
        out := out + last.infos;
      }
      i := i + 1;
    }
  }
}
