/** The download handle: a ranged stream that is opened on demand, dropped on a
    seek and reopened, and that must be told apart by nobody from a plain file
    with a position. The object does not change while the handle is open. */
module Downloads {
  import opened Bytes

  /** 64-bit two's complement wrap-around of a sum of two 64-bit integers. */
  function Wrap64(x: int): int {
    if x > MAX_INT64 then x - 0x1_0000_0000_0000_0000
    else if x < -MAX_INT64 - 1 then x + 0x1_0000_0000_0000_0000
    else x
  }

  predicate IsInt64(x: int) {
    -MAX_INT64 - 1 <= x <= MAX_INT64
  }

  /** What is left of the contents from a position, which may lie past the end. */
  function Rest(contents: Bytes, pos: int): Bytes
    requires pos >= 0
  {
    if pos >= |contents| then [] else contents[pos..]
  }

  datatype Whence = FromStart | FromCurrent | FromEnd | Unknown

  /** Success, end of file, a short read, or an error. */
  datatype Status = More | End | Short | Failed(error: Error)

  // ---------------------------------------------------------------- the plain file

  datatype Op = Read(n: nat) | ReadAt(n: nat, off: int) | Seek(offset: int, whence: Whence)

  datatype Reply = Data(data: Bytes, status: Status) | Position(result: Result<int>)

  /** The exact target of a seek, before any wrap-around. */
  function SeekTarget(size: int, pos: int, offset: int, whence: Whence): int {
    match whence
    case FromStart => offset
    case FromCurrent => pos + offset
    case FromEnd => size + offset
    case Unknown => -1
  }

  /** A plain file of given contents at pos may answer op with reply and move to pos';
      it may fail only when there was a fault of the service. */
  predicate Answers(contents: Bytes, pos: int, op: Op, reply: Reply, pos': int, fault: bool)
    requires pos >= 0
  {
    match op
    case Read(n) =>
      && reply.Data? && |reply.data| <= n
      && reply.data <= Rest(contents, pos)
      && pos' == pos + |reply.data|
      && (reply.status == End ==> pos' >= |contents|)
      && (reply.status == More && n > 0 ==> |reply.data| > 0)
      && reply.status != Short && (reply.status.Failed? ==> fault && reply.status.error == Service)
    case ReadAt(n, off) =>
      && reply.Data? && pos' == pos
      && (off < 0 ==> reply == Data([], Failed(Invalid)))
      && (off >= 0 ==>
            && reply.data <= Rest(contents, off) && |reply.data| <= n
            && (reply.status == More ==> |reply.data| == n)
            && (reply.status == Short ==> reply.data == Rest(contents, off) && 0 < |reply.data| < n)
            && (reply.status.Failed? ==> fault && reply.status.error == Service)
            && (off >= |contents| <==> reply.status == End))
    case Seek(offset, whence) =>
      var target := SeekTarget(|contents|, pos, offset, whence);
      if 0 <= target <= MAX_INT64 && whence != Unknown
      then reply == Position(Ok(target)) && pos' == target
      else reply == Position(Err(Invalid)) && pos' == pos
  }

  datatype Exchange = Exchange(op: Op, reply: Reply, pos: int)

  /** The reply reports a fault of the service. */
  predicate Fails(reply: Reply) {
    reply.Data? && reply.status == Failed(Service)
  }

  lemma FaultShows(contents: Bytes, pos: int, op: Op, reply: Reply, pos': int, fault: bool)
    requires pos >= 0 && Answers(contents, pos, op, reply, pos', fault)
    ensures Answers(contents, pos, op, reply, pos', true) && (Fails(reply) ==> fault)
  {
  }

  /** A whole conversation that a plain file could have had. */
  predicate Explained(contents: Bytes, pos: int, log: seq<Exchange>)
    requires pos >= 0
    decreases |log|
  {
    log == [] ||
    (Answers(contents, pos, log[0].op, log[0].reply, log[0].pos, true) && log[0].pos >= 0
     && Explained(contents, log[0].pos, log[1..]))
  }

  function EndPos(pos: int, log: seq<Exchange>): int {
    if log == [] then pos else log[|log| - 1].pos
  }

  lemma {:induction false} ExplainedMore(contents: Bytes, pos: int, log: seq<Exchange>, x: Exchange)
    requires pos >= 0 && Explained(contents, pos, log)
    requires EndPos(pos, log) >= 0 && Answers(contents, EndPos(pos, log), x.op, x.reply, x.pos, true)
             && x.pos >= 0
    ensures Explained(contents, pos, log + [x]) && EndPos(pos, log + [x]) == x.pos
    decreases |log|
  {
    hide Answers;
    if log == [] {
      assert (log + [x])[1..] == [];
    } else {
      assert EndPos(log[0].pos, log[1..]) == EndPos(pos, log);
      ExplainedMore(contents, log[0].pos, log[1..], x);
      assert (log + [x])[1..] == log[1..] + [x];
    }
  }

  function DeliveredBy(x: Exchange): Bytes {
    if x.op.Read? && x.reply.Data? then x.reply.data else []
  }

  /** Everything the Reads of a conversation delivered. */
  function Delivered(log: seq<Exchange>): Bytes {
    if log == [] then [] else DeliveredBy(log[0]) + Delivered(log[1..])
  }

  /** What one exchange other than a Seek does to the position, and that a Read of at
      least one byte gets on unless it fails. */
  lemma OneExchange(contents: Bytes, pos: int, x: Exchange)
    requires pos >= 0 && !x.op.Seek? && Answers(contents, pos, x.op, x.reply, x.pos, true)
    ensures DeliveredBy(x) <= Rest(contents, pos) && x.pos == pos + |DeliveredBy(x)|
    ensures Rest(contents, x.pos) == Rest(contents, pos)[|DeliveredBy(x)|..]
    ensures x.op.Read? && x.op.n > 0 && !Fails(x.reply) ==>
              if Rest(contents, pos) != [] then DeliveredBy(x) != [] else x.reply.Data? && x.reply.status == End
  {
    RestAfter(contents, pos, |DeliveredBy(x)|);
  }

  /** Between seeks, the Reads concatenate to the slice of the contents that starts
      at the position, whatever their sizes and whatever ReadAts come in between. */
  lemma {:induction false} ReadsConcatenate(contents: Bytes, pos: int, log: seq<Exchange>)
    requires pos >= 0 && Explained(contents, pos, log)
    requires forall x :: x in log ==> !x.op.Seek?
    ensures Delivered(log) <= Rest(contents, pos)
    ensures EndPos(pos, log) == pos + |Delivered(log)|
    decreases |log|
  {
    hide Rest, Answers, DeliveredBy;
    if log != [] {
      var x := log[0];
      assert x in log;
      OneExchange(contents, pos, x);
      ReadsConcatenate(contents, x.pos, log[1..]);
      assert EndPos(x.pos, log[1..]) == EndPos(pos, log);
      Concatenates(Rest(contents, pos), DeliveredBy(x), Delivered(log[1..]));
    }
  }

  lemma Concatenates(r: Bytes, a: Bytes, b: Bytes)
    requires a <= r && b <= r[|a|..]
    ensures a + b <= r
    ensures b == r[|a|..] ==> a + b == r
  {
    assert r == a + r[|a|..];
    assert r == a + b + r[|a| + |b|..];
  }

  /** Without faults, reading on gets there: as many Reads of at least one byte as there
      are bytes left deliver all of them, and one more reports the end. */
  lemma {:induction false} ReadsFinish(contents: Bytes, pos: int, log: seq<Exchange>)
    requires pos >= 0 && Explained(contents, pos, log)
    requires forall x :: x in log ==> x.op.Read? && x.op.n > 0 && !Fails(x.reply)
    ensures |log| >= |Rest(contents, pos)| ==> Delivered(log) == Rest(contents, pos)
    ensures |log| > |Rest(contents, pos)| ==> var last := log[|log| - 1].reply; last.Data? && last.status == End
    decreases |log|
  {
    hide Rest, Answers, DeliveredBy, Fails;
    if log != [] {
      var x, tail := log[0], log[1..];
      assert x in log;
      OneExchange(contents, pos, x);
      ReadsConcatenate(contents, x.pos, tail);
      ReadsFinish(contents, x.pos, tail);
      Concatenates(Rest(contents, pos), DeliveredBy(x), Delivered(tail));
    }
  }

  // ---------------------------------------------------------------- the handle

  class Download {
    const contents: Bytes
    const size: int
    var pos: int
    var body: Option<Bytes>
    var closed: bool
    /** The first byte of every ranged request made so far. */
    ghost var requests: seq<int>
    /** Requests and reads of the stream that reported an error. */
    ghost var faults: nat

    ghost predicate Valid()
      reads this
    {
      && size == |contents| <= MAX_INT64
      && 0 <= pos <= MAX_INT64
      && (body.Some? ==> body.value == Rest(contents, pos))
      && (closed ==> body.None?)
      && (forall i :: 0 <= i < |requests| ==> 0 <= requests[i] < size)
    }

    constructor (contents: Bytes, offset: int)
      requires 0 <= offset <= |contents| <= MAX_INT64
      ensures Valid() && this.contents == contents && pos == offset
      ensures body.None? && !closed && requests == [] && faults == 0
    {
      this.contents := contents;
      size := |contents|;
      pos := offset;
      body := None;
      closed := false;
      requests := [];
      faults := 0;
    }

    /** A ranged GetObject. An offset at or past the end would be unsatisfiable
        (section 14.1.2 of RFC 9110). */
    method GetObject(offset: int) returns (r: Result<Bytes>)
      requires Valid() && 0 <= offset < size
      modifies this`requests, this`faults
      ensures Valid() && requests == old(requests) + [offset] && faults >= old(faults)
      ensures r == if faults == old(faults) then Ok(Rest(contents, offset)) else Err(Service)
    {
      requests := requests + [offset];
      if * {
        faults := faults + 1;
        return Err(Service);
      }
      return Ok(contents[offset..]);
    }

    method EnsureBody() returns (r: Result<()>)
      requires Valid() && !closed
      modifies this`body, this`requests, this`faults
      ensures Valid() && old(requests) <= requests && faults >= old(faults)
      ensures r.Ok? <==> faults == old(faults)
      ensures r.Ok? ==> body == Some(Rest(contents, pos))
      ensures r.Err? ==> r == Err(Service) && body == old(body)
    {
      if body.Some? {
        return Ok(());
      }
      if pos >= size {
        body := Some([]);
        return Ok(());
      }
      var out := GetObject(pos);
      if out.Err? {
        return Err(out.error);
      }
      body := Some(out.value);
      return Ok(());
    }

    /** Reads up to n bytes from the stream. */
    method Read(n: nat) returns (data: Bytes, status: Status)
      requires Valid()
      modifies this
      ensures Valid() && old(requests) <= requests && closed == old(closed) && faults >= old(faults)
      ensures closed ==> data == [] && status == Failed(Closed) && pos == old(pos)
      ensures !closed ==> Answers(contents, old(pos), Op.Read(n), Data(data, status), pos, faults != old(faults))
    {
      if closed {
        return [], Failed(Closed);
      }
      var ready := EnsureBody();
      if ready.Err? {
        return [], Failed(ready.error);
      }
      var rest := body.value;
      var k, end := TakeFromStream(|rest|, n);
      if end.Failed? {
        faults := faults + 1;
      }
      data, status := rest[..k], end;
      RestAfter(contents, pos, k);
      pos := pos + k;
      body := if end == End then None else Some(rest[k..]);
    }

    /** Reads n bytes at an offset through a request of its own; neither the
        position nor the open stream is touched. */
    method ReadAt(n: nat, off: int) returns (data: Bytes, status: Status)
      requires Valid()
      modifies this`requests, this`faults
      ensures Valid() && old(requests) <= requests && faults >= old(faults)
      ensures closed ==> data == [] && status == Failed(Closed)
      ensures !closed ==> Answers(contents, pos, Op.ReadAt(n, off), Data(data, status), pos, faults != old(faults))
    {
      if closed {
        return [], Failed(Closed);
      }
      if off < 0 {
        return [], Failed(Invalid);
      }
      if off >= size {
        return [], End;
      }
      var out := GetObject(off);
      if out.Err? {
        return [], Failed(out.error);
      }
      data, status := ReadFull(out.value, n);
      if status.Failed? {
        faults := faults + 1;
      }
    }

    method Seek(offset: int, whence: Whence) returns (r: Result<int>)
      requires Valid() && IsInt64(offset)
      modifies this`pos, this`body
      ensures Valid()
      ensures closed ==> r == Err(Closed) && pos == old(pos)
      ensures !closed ==> Answers(contents, old(pos), Op.Seek(offset, whence), Position(r), pos, false)
    {
      if closed {
        return Err(Closed);
      }
      var target;
      match whence {
        case FromStart => target := offset;
        case FromCurrent => target := Wrap64(pos + offset);
        case FromEnd => target := Wrap64(size + offset);
        case Unknown => return Err(Invalid);
      }
      if target < 0 {
        return Err(Invalid);
      }
      if target != pos {
        if body.Some? {
          body := None;
        }
        pos := target;
      }
      return Ok(pos);
    }

    /** Closes the handle once; only closing an open stream can fail, and the handle
        is closed even then. */
    method Close() returns (r: Result<()>)
      requires Valid()
      modifies this`closed, this`body
      ensures Valid() && closed && body.None?
      ensures r == Ok(()) || (r == Err(Service) && !old(closed) && old(body).Some?)
    {
      if closed {
        return Ok(());
      }
      closed := true;
      r := Ok(());
      if body.Some? {
        body := None;
        if * {
          r := Err(Service);
        }
      }
    }
  }

  lemma RestAfter(contents: Bytes, pos: int, k: nat)
    requires pos >= 0 && k <= |Rest(contents, pos)|
    ensures Rest(contents, pos)[k..] == Rest(contents, pos + k)
    ensures k > 0 ==> pos + k <= |contents|
  {
  }

  /** One read of a network stream: some of what is left, the end only with the
      last of it, or an error after any part of it. */
  method TakeFromStream(left: nat, n: nat) returns (k: nat, status: Status)
    ensures k <= left && k <= n
    ensures status == End ==> k == left
    ensures status == More && n > 0 ==> k > 0
    ensures status.More? || status.End? || status == Failed(Service)
  {
    var most := if left < n then left else n;
    k :| 0 <= k <= most;
    if * {
      return k, Failed(Service);
    }
    if left == 0 && n > 0 {
      return 0, End;
    }
    if k == 0 && most > 0 {
      k := 1;
    }
    if k == left {
      if * {
        return k, End;
      }
    }
    return k, More;
  }

  /** io.ReadFull: exactly n bytes, or what there was and why it stopped. */
  method ReadFull(stream: Bytes, n: nat) returns (data: Bytes, status: Status)
    ensures data <= stream && |data| <= n
    ensures status == More <==> |data| == n
    ensures status == End ==> data == [] && stream == []
    ensures status == Short ==> data == stream && 0 < |data| < n
    ensures status.Failed? ==> status.error == Service
  {
    data := [];
    while |data| < n
      invariant data <= stream && |data| <= n
      decreases n - |data|
    {
      var k, end := TakeFromStream(|stream| - |data|, n - |data|);
      data := stream[..|data| + k];
      if |data| < n && end != More {
        return data, if end.Failed? then end else if data == [] then End else Short;
      }
    }
    return data, More;
  }

  /** Opens a handle on an object that may be missing, at an offset within it. */
  method OpenDownload(found: Option<Bytes>, offset: int) returns (r: Result<Download>)
    requires found.Some? ==> |found.value| <= MAX_INT64
    ensures found.None? ==> r == Err(NotExist)
    ensures found.Some? && !(0 <= offset <= |found.value|) ==> r == Err(Invalid)
    ensures found.Some? && 0 <= offset <= |found.value| ==>
              r.Ok? && fresh(r.value) && r.value.Valid() && r.value.contents == found.value && r.value.pos == offset
              && !r.value.closed && r.value.requests == [] && r.value.faults == 0
  {
    if found.None? {
      return Err(NotExist);
    }
    if offset < 0 || offset > |found.value| {
      return Err(Invalid);
    }
    var d := new Download(found.value, offset);
    return Ok(d);
  }

  /** Any run of operations on an open handle is one a plain file could have had,
      and every request made on the way was satisfiable. */
  method Drive(d: Download, ops: seq<Op>) returns (log: seq<Exchange>)
    requires d.Valid() && !d.closed
    requires forall op :: op in ops && op.Seek? ==> IsInt64(op.offset)
    modifies d
    ensures d.Valid() && !d.closed
    ensures |log| == |ops| && forall i :: 0 <= i < |ops| ==> log[i].op == ops[i]
    ensures Explained(d.contents, old(d.pos), log) && EndPos(old(d.pos), log) == d.pos
    ensures d.faults >= old(d.faults)
    ensures d.faults == old(d.faults) ==> forall x :: x in log ==> !Fails(x.reply)
    ensures forall i :: 0 <= i < |d.requests| ==> 0 <= d.requests[i] < |d.contents|
  {
    hide Answers, Explained;
    log := [];
    ExplainedNone(d.contents, d.pos);
    for i := 0 to |ops|
      invariant d.Valid() && !d.closed
      invariant |log| == i && forall j :: 0 <= j < i ==> log[j].op == ops[j]
      invariant Explained(d.contents, old(d.pos), log) && EndPos(old(d.pos), log) == d.pos
      invariant d.faults >= old(d.faults) && (d.faults == old(d.faults) ==> forall x :: x in log ==> !Fails(x.reply))
    {
      var reply: Reply;
      ghost var pos, before := d.pos, d.faults;
      match ops[i] {
        case Read(n) =>
          var data, status := d.Read(n);
          reply := Data(data, status);
        case ReadAt(n, off) =>
          var data, status := d.ReadAt(n, off);
          reply := Data(data, status);
        case Seek(offset, whence) =>
          assert ops[i] in ops;
          var r := d.Seek(offset, whence);
          reply := Position(r);
      }
      FaultShows(d.contents, pos, ops[i], reply, d.pos, d.faults != before);
      ExplainedMore(d.contents, old(d.pos), log, Exchange(ops[i], reply, d.pos));
      log := log + [Exchange(ops[i], reply, d.pos)];
    }
  }

  lemma ExplainedNone(contents: Bytes, pos: int)
    requires pos >= 0
    ensures Explained(contents, pos, [])
  {
  }
}
