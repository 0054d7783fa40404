/** The upload handle as an interleaved protocol: the client side (Write, Seek,
    Close), a TransferError that may come from elsewhere, and the goroutine that
    feeds the uploader, joined by a synchronous pipe, a first-error cell and a done
    channel. Each event is one atomic step; a run is any feasible list of events. */
module Uploads {
  import opened Bytes
  import opened Views

  // ---------------------------------------------------------------- opening

  /** Whether opening asks the store for the size of the old object. */
  predicate AsksSize(flags: Flags, offset: int) {
    !flags.trunc && (flags.append || offset > 0)
  }

  /** The number of old bytes an upload keeps, from the open flags, the offset and,
      where it is asked for, the size of the old object. */
  function OpenUpload(flags: Flags, offset: int, head: Result<Option<nat>>): Result<nat> {
    if !AsksSize(flags, offset) then Ok(0)
    else
      match head
      case Err(e) => Err(e)
      case Ok(None) => if flags.append then Ok(0) else Err(NotExist)
      case Ok(Some(size)) => Ok(if flags.append || offset >= size then size else offset)
  }

  function SizeOf(prior: Option<Bytes>): Option<nat> {
    if prior.Some? then Some(|prior.value|) else None
  }

  // ---------------------------------------------------------------- states

  datatype Failure = Eof | Fault(id: nat)

  const CLOSED_PIPE: Failure := Fault(0)

  datatype Client =
    | Idle
    | Writing(p: Bytes, n: nat)
    | WriteFailing(e: Failure, recorded: bool)
    | Closing(seen: Option<Failure>)
    | Waiting

  datatype Aborter = Quiet | Recorded(e: Failure) | ReadClosed(e: Failure)

  datatype Worker =
    | Start
    | Prefix(left: Bytes)
    | Streaming
    | AtEof
    | Failing(e: Failure, recorded: bool)
    | Done

  /** `confirmed` and `sent` are history: the bytes finished Writes counted, and the
      bytes all Writes were given. */
  datatype State = State(
    prior: Option<Bytes>,
    prefixLen: nat,
    client: Client,
    aborter: Aborter,
    worker: Worker,
    err: Option<Failure>,
    rerr: Option<Failure>,
    werr: Option<Failure>,
    closed: bool,
    pos: int,
    written: nat,
    acc: Bytes,
    stored: Option<Bytes>,
    committed: bool,
    result: Option<Option<Failure>>,
    confirmed: Bytes,
    sent: Bytes,
    writeFailed: bool,
    transferAborted: bool,
    late: bool
  )

  predicate CanOpen(prior: Option<Bytes>, prefixLen: nat) {
    prefixLen > 0 ==> prior.Some? && prefixLen <= |prior.value|
  }

  function Init(prior: Option<Bytes>, prefixLen: nat): State {
    State(prior, prefixLen, Idle, Quiet, Start, None, None, None, false, prefixLen, 0, [], prior, false, None,
          [], [], false, false, false)
  }

  function First(cell: Option<Failure>, e: Failure): Option<Failure> {
    if cell.Some? then cell else Some(e)
  }

  /** The kept bytes of the old object. */
  function Kept(prior: Option<Bytes>, prefixLen: nat): Bytes {
    if prior.Some? && prefixLen <= |prior.value| then prior.value[..prefixLen] else []
  }

  function Base(s: State): Bytes {
    Kept(s.prior, s.prefixLen)
  }

  predicate PipeClosed(s: State) {
    s.rerr.Some? || s.werr.Some?
  }

  /** What a reader of the closed pipe gets: the writer's error only while the read
      side has not been closed. */
  function ReadError(s: State): Failure {
    if s.rerr.None? && s.werr.Some? then s.werr.value else CLOSED_PIPE
  }

  function WriteError(s: State): Failure {
    if s.werr.None? && s.rerr.Some? then s.rerr.value else CLOSED_PIPE
  }

  // ---------------------------------------------------------------- events

  datatype Event =
    | WriteStart(p: Bytes)
    | WriteStop
    | WriteRecord
    | WriteClose
    | Seek(target: int)
    | CloseStart
    | CloseWrite
    | CloseFinish
    | AbortRecord(e: Failure)
    | AbortCloseRead
    | AbortCloseWrite
    | WorkerOpen(ok: bool, e: Failure)
    | WorkerPrefix(k: nat)
    | Transfer(k: nat)
    | WorkerReadClosed
    | WorkerFail(e: Failure)
    | WorkerCommit
    | WorkerRecord
    | WorkerClose

  predicate Enabled(s: State, ev: Event) {
    match ev
    case WriteStart(_) => s.client.Idle? && !s.closed
    case WriteStop => s.client.Writing? && PipeClosed(s)
    case WriteRecord => s.client.WriteFailing? && !s.client.recorded
    case WriteClose => s.client.WriteFailing? && s.client.recorded
    case Seek(target) => s.client.Idle? && !s.closed && s.written == 0 && target == s.prefixLen
    case CloseStart => s.client.Idle? && !s.closed
    case CloseWrite => s.client.Closing?
    case CloseFinish => s.client.Waiting? && s.worker.Done?
    case AbortRecord(_) => s.aborter.Quiet?
    case AbortCloseRead => s.aborter.Recorded?
    case AbortCloseWrite => s.aborter.ReadClosed?
    case WorkerOpen(_, _) => s.worker.Start?
    case WorkerPrefix(k) => s.worker.Prefix? && 1 <= k <= |s.worker.left|
    case Transfer(k) => s.worker.Streaming? && s.client.Writing? && s.client.n + k <= |s.client.p|
    case WorkerReadClosed => s.worker.Streaming? && PipeClosed(s)
    case WorkerFail(_) => s.worker.Prefix? || s.worker.Streaming? || s.worker.AtEof?
    case WorkerCommit => s.worker.AtEof?
    case WorkerRecord => s.worker.Failing? && !s.worker.recorded
    case WorkerClose => s.worker.Failing? && s.worker.recorded
  }

  function ClientStep(s: State, ev: Event): State
    requires Enabled(s, ev)
  {
    match ev
    case WriteStart(p) =>
      if PipeClosed(s) then s.(client := WriteFailing(WriteError(s), false), sent := s.sent + p)
      else s.(client := Writing(p, 0), sent := s.sent + p)
    case WriteStop => FinishWrite(s, s.client.p, s.client.n).(client := WriteFailing(WriteError(s), false))
    case WriteRecord => s.(err := First(s.err, s.client.e), client := WriteFailing(s.client.e, true))
    case WriteClose => s.(rerr := First(s.rerr, s.client.e), client := Idle, writeFailed := true)
    case Seek(target) => s.(pos := target)
    case CloseStart => s.(closed := true, client := Closing(s.err), late := !s.aborter.Quiet?)
    case CloseWrite =>
      s.(werr := First(s.werr, if s.client.seen.Some? then s.client.seen.value else Eof), client := Waiting)
    case CloseFinish => s.(client := Idle, result := Some(s.err))
    case _ => s
  }

  function FinishWrite(s: State, p: Bytes, n: nat): State {
    if n <= |p| then
      s.(client := Idle, pos := s.pos + n, written := s.written + n, confirmed := s.confirmed + p[..n])
    else s
  }

  function AborterStep(s: State, ev: Event): State
    requires Enabled(s, ev)
  {
    match ev
    case AbortRecord(e) => s.(err := First(s.err, e), aborter := Recorded(e), late := s.late || s.closed)
    case AbortCloseRead =>
      s.(rerr := First(s.rerr, s.aborter.e), aborter := ReadClosed(s.aborter.e), late := s.late || s.closed)
    case AbortCloseWrite =>
      s.(werr := First(s.werr, s.aborter.e), aborter := Quiet, transferAborted := true, late := s.late || s.closed)
    case _ => s
  }

  /** Where the worker goes: through the kept prefix, then the pipe, to a commit or a
      failure that is recorded before the read side is closed. */
  function NextWorker(s: State, ev: Event): Worker
    requires Enabled(s, ev)
  {
    match ev
    case WorkerOpen(ok, e) =>
      if s.prefixLen == 0 then Streaming else if ok then Prefix(Base(s)) else Failing(e, false)
    case WorkerPrefix(k) => if k == |s.worker.left| then Streaming else Prefix(s.worker.left[k..])
    case WorkerReadClosed => if ReadError(s) == Eof then AtEof else Failing(ReadError(s), false)
    case WorkerFail(e) => Failing(e, false)
    case WorkerRecord => Failing(s.worker.e, true)
    case _ => Done
  }

  function WorkerStep(s: State, ev: Event): State
    requires Enabled(s, ev)
  {
    s.(worker := NextWorker(s, ev),
    acc := if ev.WorkerPrefix? then s.acc + s.worker.left[..ev.k] else s.acc,
    err := if ev.WorkerRecord? then First(s.err, s.worker.e) else s.err,
    rerr := if ev.WorkerClose? then First(s.rerr, s.worker.e) else s.rerr,
    stored := if ev.WorkerCommit? then Some(s.acc) else s.stored,
    committed := s.committed || ev.WorkerCommit?)
  }

  /** A rendezvous on the pipe: the worker takes the next k bytes of the Write in
      progress, which returns when its last byte has been taken. */
  function TransferStep(s: State, k: nat): State
    requires Enabled(s, Transfer(k))
  {
    var p, n := s.client.p, s.client.n;
    var s' := s.(acc := s.acc + p[n..n + k], client := Writing(p, n + k));
    if n + k == |p| then FinishWrite(s', p, n + k) else s'
  }

  predicate IsClient(ev: Event) {
    ev.WriteStart? || ev.WriteStop? || ev.WriteRecord? || ev.WriteClose? || ev.Seek?
    || ev.CloseStart? || ev.CloseWrite? || ev.CloseFinish?
  }

  predicate IsAborter(ev: Event) {
    ev.AbortRecord? || ev.AbortCloseRead? || ev.AbortCloseWrite?
  }

  predicate IsWorker(ev: Event) {
    !IsClient(ev) && !IsAborter(ev) && !ev.Transfer?
  }

  function After(s: State, ev: Event): State
    requires Enabled(s, ev)
  {
    if IsClient(ev) then ClientStep(s, ev)
    else if IsAborter(ev) then AborterStep(s, ev)
    else if ev.Transfer? then TransferStep(s, ev.k)
    else WorkerStep(s, ev)
  }

  predicate Feasible(s: State, run: seq<Event>)
    decreases |run|
  {
    run == [] || (Enabled(s, run[0]) && Feasible(After(s, run[0]), run[1..]))
  }

  function Final(s: State, run: seq<Event>): State
    requires Feasible(s, run)
    decreases |run|
  {
    if run == [] then s else Final(After(s, run[0]), run[1..])
  }

  // ---------------------------------------------------------------- invariants

  /** Bytes the pipe has carried so far. */
  function CarriedBy(confirmed: Bytes, c: Client): Bytes {
    confirmed + (if c.Writing? && c.n <= |c.p| then c.p[..c.n] else [])
  }

  function Carried(s: State): Bytes {
    CarriedBy(s.confirmed, s.client)
  }

  /** What the uploader holds is the kept prefix and then every carried byte in order. */
  predicate Stream(w: Worker, acc: Bytes, base: Bytes, carried: Bytes) {
    && (w.Start? ==> acc == [] && carried == [])
    && (w.Prefix? ==> acc + w.left == base && w.left != [] && carried == [])
    && (w.Streaming? || w.AtEof? ==> acc == base + carried)
  }

  /** Byte accounting. */
  predicate Accounts(s: State) {
    && CanOpen(s.prior, s.prefixLen)
    && s.pos == s.prefixLen + s.written && s.written == |s.confirmed|
    && (s.client.Writing? ==> s.client.n <= |s.client.p| && (s.client.n == 0 || s.client.n < |s.client.p|))
    && Stream(s.worker, s.acc, Base(s), Carried(s))
  }

  /** No byte goes missing between the arguments of Write and the pipe, unless a
      Write failed. */
  predicate NothingSkipped(s: State) {
    !s.writeFailed && !s.client.WriteFailing? ==>
      s.sent == s.confirmed + (if s.client.Writing? then s.client.p else [])
  }

  predicate Finishing(s: State) {
    s.closed && (s.client.Waiting? || s.client.Idle?)
  }

  /** End of file is only ever seen after Close, and only the commit changes the object. */
  predicate Commits(s: State) {
    && (s.client.Closing? || s.client.Waiting? ==> s.closed)
    && (s.closed ==> !s.client.Writing? && !s.client.WriteFailing?)
    && (s.werr.Some? && s.rerr.None? ==> Finishing(s))
    && (s.client.Waiting? ==> s.werr.Some?)
    && (s.worker.AtEof? || s.committed ==> Finishing(s))
    && (s.committed ==> s.worker.Done? && s.stored == Some(Base(s) + s.confirmed))
    && (!s.committed ==> s.stored == s.prior)
    && (s.result.Some? ==> s.closed && s.client.Idle? && s.worker.Done?)
    && (s.result == Some(None) ==> s.committed && !s.writeFailed)
  }

  /** Who recorded an error has closed, or is about to close, the read side. */
  predicate Errors(s: State) {
    && (s.aborter.ReadClosed? ==> s.rerr.Some?)
    && (s.aborter.Recorded? ==> s.err.Some?)
    && (s.rerr.Some? ==> s.err.Some?)
    && (s.transferAborted || s.writeFailed ==> s.rerr.Some?)
    && (s.worker.Failing? && s.worker.recorded ==> s.err.Some?)
    && (s.client.WriteFailing? ==> s.rerr.Some?)
    && (s.client.WriteFailing? ==> s.client.e == s.rerr.value || (s.client.e == CLOSED_PIPE && s.werr.Some?))
    && (s.worker.Done? && !s.committed ==> s.rerr.Some?)
    && (s.err.Some? && s.rerr.None? ==>
          s.aborter.Recorded? || (s.worker.Failing? && s.worker.recorded))
  }

  /** With no TransferError once Close has begun, a committing worker has no error to report. */
  predicate Punctual(s: State) {
    && (s.closed && !s.late ==> s.aborter.Quiet?)
    && (!s.closed ==> !s.late)
    && ((s.worker.AtEof? || s.committed) && !s.late ==> s.err.None?)
    && (s.result.Some? && !s.late ==> (s.result.value.None? <==> s.committed))
  }

  predicate Inv(s: State) {
    Accounts(s) && NothingSkipped(s) && Commits(s) && Errors(s) && Punctual(s)
  }

  // ---------------------------------------------------------------- preservation

  lemma InitInv(prior: Option<Bytes>, prefixLen: nat)
    requires CanOpen(prior, prefixLen)
    ensures Inv(Init(prior, prefixLen))
  {
  }

  lemma WriteStartCarries(s: State, p: Bytes)
    requires Inv(s) && Enabled(s, WriteStart(p))
    ensures Carried(ClientStep(s, WriteStart(p))) == Carried(s)
  {
    hide Inv;
    assert p[..0] == [];
  }

  lemma ClientCarries(s: State, ev: Event)
    requires Inv(s) && Enabled(s, ev) && IsClient(ev)
    ensures Carried(ClientStep(s, ev)) == Carried(s)
  {
    if ev.WriteStart? {
      WriteStartCarries(s, ev.p);
    } else {
      hide Stream, Commits, Errors, Punctual, NothingSkipped;
      assert s.confirmed + [] == s.confirmed;
    }
  }

  lemma ClientAccounts(s: State, ev: Event)
    requires Inv(s) && Enabled(s, ev) && IsClient(ev)
    ensures Accounts(ClientStep(s, ev))
  {
    hide Errors, Punctual, Commits, NothingSkipped, Stream, CarriedBy, Kept;
    ClientCarries(s, ev);
  }

  lemma ClientSkipsNothing(s: State, ev: Event)
    requires Inv(s) && Enabled(s, ev) && IsClient(ev)
    ensures NothingSkipped(ClientStep(s, ev))
  {
    hide Errors, Punctual, Commits, Stream, CarriedBy, Kept;
    assert s.confirmed + [] == s.confirmed;
  }

  lemma ClientCommits(s: State, ev: Event)
    requires Inv(s) && Enabled(s, ev) && IsClient(ev)
    ensures Commits(ClientStep(s, ev)) && Errors(ClientStep(s, ev)) && Punctual(ClientStep(s, ev))
  {
    hide Accounts, NothingSkipped;
  }

  lemma AborterInv(s: State, ev: Event)
    requires Inv(s) && Enabled(s, ev) && IsAborter(ev)
    ensures Inv(AborterStep(s, ev))
  {
  }

  lemma CarryMore(confirmed: Bytes, p: Bytes, n: nat, k: nat)
    requires n + k <= |p|
    ensures CarriedBy(confirmed, Writing(p, n + k)) == CarriedBy(confirmed, Writing(p, n)) + p[n..n + k]
    ensures CarriedBy(confirmed + p[..n + k], Idle) == CarriedBy(confirmed, Writing(p, n + k))
  {
    assert p[..n + k] == p[..n] + p[n..n + k];
    assert confirmed + (p[..n] + p[n..n + k]) == confirmed + p[..n] + p[n..n + k];
    assert confirmed + p[..n + k] + [] == confirmed + p[..n + k];
  }

  lemma StreamMore(acc: Bytes, base: Bytes, carried: Bytes, more: Bytes)
    requires Stream(Streaming, acc, base, carried)
    ensures Stream(Streaming, acc + more, base, carried + more)
  {
    assert base + carried + more == base + (carried + more);
  }

  lemma TransferAccounts(s: State, k: nat)
    requires Inv(s) && Enabled(s, Transfer(k))
    ensures Accounts(TransferStep(s, k))
  {
    hide Errors, Punctual, Commits, NothingSkipped, Stream, CarriedBy, Kept;
    CarryMore(s.confirmed, s.client.p, s.client.n, k);
    StreamMore(s.acc, Base(s), Carried(s), s.client.p[s.client.n..s.client.n + k]);
  }

  lemma TransferSkipsNothing(s: State, k: nat)
    requires Inv(s) && Enabled(s, Transfer(k))
    ensures NothingSkipped(TransferStep(s, k))
  {
    hide Errors, Punctual, Stream, Carried;
    var p := s.client.p;
    assert p[..|p|] == p;
    assert s.confirmed + p + [] == s.confirmed + p;
  }

  lemma TransferCommits(s: State, k: nat)
    requires Inv(s) && Enabled(s, Transfer(k))
    ensures Commits(TransferStep(s, k)) && Errors(TransferStep(s, k)) && Punctual(TransferStep(s, k))
  {
    hide NothingSkipped, Stream;
  }

  lemma PrefixMore(acc: Bytes, left: Bytes, base: Bytes, k: nat)
    requires Stream(Prefix(left), acc, base, []) && 1 <= k <= |left|
    ensures Stream(if k == |left| then Streaming else Prefix(left[k..]), acc + left[..k], base, [])
  {
    assert left == left[..k] + left[k..];
    assert acc + left[..k] + left[k..] == acc + left;
    assert base + [] == base;
  }

  lemma OpenStream(w: Worker, base: Bytes, e: Failure)
    requires (w == Prefix(base) && base != []) || w == Failing(e, false) || (w == Streaming && base == [])
    ensures Stream(w, [], base, [])
  {
    assert [] + base == base;
  }

  /** The worker's own steps keep the stream, except for what it takes from the pipe. */
  lemma WorkerStream(s: State, ev: Event)
    requires Accounts(s) && Enabled(s, ev) && IsWorker(ev)
    ensures var s' := WorkerStep(s, ev); Stream(s'.worker, s'.acc, Base(s), Carried(s))
  {
    hide CarriedBy;
    assert s.prefixLen == 0 <==> Base(s) == [];
    hide Kept;
    if ev.WorkerOpen? {
      OpenStream(NextWorker(s, ev), Base(s), ev.e);
    } else if ev.WorkerPrefix? {
      PrefixMore(s.acc, s.worker.left, Base(s), ev.k);
    }
  }

  lemma WorkerAccounts(s: State, ev: Event)
    requires Inv(s) && Enabled(s, ev) && IsWorker(ev)
    ensures Accounts(WorkerStep(s, ev)) && NothingSkipped(WorkerStep(s, ev))
  {
    hide Errors, Punctual, Commits, Stream, CarriedBy, Kept, NextWorker;
    WorkerStream(s, ev);
  }

  lemma WorkerCommits(s: State, ev: Event)
    requires Inv(s) && Enabled(s, ev) && IsWorker(ev)
    ensures Commits(WorkerStep(s, ev)) && Errors(WorkerStep(s, ev)) && Punctual(WorkerStep(s, ev))
  {
    hide NothingSkipped;
    if ev.WorkerCommit? {
      assert Carried(s) == s.confirmed;
    }
  }

  lemma StepInv(s: State, ev: Event)
    requires Inv(s) && Enabled(s, ev)
    ensures Inv(After(s, ev))
  {
    hide Accounts, NothingSkipped, Commits, Errors, Punctual, Enabled;
    hide ClientStep, AborterStep, WorkerStep, TransferStep;
    if IsClient(ev) {
      ClientAccounts(s, ev);
      ClientSkipsNothing(s, ev);
      ClientCommits(s, ev);
    } else if IsAborter(ev) {
      AborterInv(s, ev);
    } else if ev.Transfer? {
      TransferAccounts(s, ev.k);
      TransferSkipsNothing(s, ev.k);
      TransferCommits(s, ev.k);
    } else {
      WorkerAccounts(s, ev);
      WorkerCommits(s, ev);
    }
  }

  lemma {:induction false} RunInv(s: State, run: seq<Event>)
    requires Inv(s) && Feasible(s, run)
    ensures Inv(Final(s, run))
    decreases |run|
  {
    hide Inv, Enabled, After;
    if run != [] {
      StepInv(s, run[0]);
      RunInv(After(s, run[0]), run[1..]);
    }
  }

  // ---------------------------------------------------------------- theorems

  /** Every byte given to Write in a run, in order. */
  function Given(run: seq<Event>): Bytes {
    if run == [] then [] else GivenBy(run[0]) + Given(run[1..])
  }

  function GivenBy(ev: Event): Bytes {
    if ev.WriteStart? then ev.p else []
  }

  lemma ClientSends(s: State, ev: Event)
    requires Enabled(s, ev)
    ensures ClientStep(s, ev).sent == s.sent + GivenBy(ev)
  {
    assert s.sent + [] == s.sent;
  }

  lemma OthersSendNothing(s: State, ev: Event)
    requires Enabled(s, ev)
    ensures AborterStep(s, ev).sent == s.sent && WorkerStep(s, ev).sent == s.sent
    ensures ev.Transfer? ==> TransferStep(s, ev.k).sent == s.sent
  {
    hide NextWorker;
  }

  lemma StepSends(s: State, ev: Event)
    requires Enabled(s, ev)
    ensures After(s, ev).sent == s.sent + GivenBy(ev)
  {
    hide ClientStep, AborterStep, WorkerStep, TransferStep, Enabled;
    ClientSends(s, ev);
    OthersSendNothing(s, ev);
    assert s.sent + [] == s.sent;
  }

  lemma {:induction false} RunSends(s: State, run: seq<Event>)
    requires Feasible(s, run)
    ensures Final(s, run).sent == s.sent + Given(run)
    decreases |run|
  {
    hide After, Enabled, GivenBy;
    if run == [] {
      assert s.sent + [] == s.sent;
    } else {
      StepSends(s, run[0]);
      RunSends(After(s, run[0]), run[1..]);
      Associative(s.sent, GivenBy(run[0]), Given(run[1..]));
    }
  }

  /** Commit: over every run, once Close has returned nil the object is exactly the
      kept prefix followed by every byte given to Write, in order. */
  lemma CommitExact(prior: Option<Bytes>, prefixLen: nat, run: seq<Event>)
    requires CanOpen(prior, prefixLen) && Feasible(Init(prior, prefixLen), run)
    requires Final(Init(prior, prefixLen), run).result == Some(None)
    ensures Final(Init(prior, prefixLen), run).stored == Some(Kept(prior, prefixLen) + Given(run))
  {
    hide Feasible, Final, Kept, Stream;
    InitInv(prior, prefixLen);
    RunInv(Init(prior, prefixLen), run);
    RunKeepsOrigin(Init(prior, prefixLen), run);
    RunSends(Init(prior, prefixLen), run);
    var s := Final(Init(prior, prefixLen), run);
    assert s.confirmed + [] == s.confirmed;
    assert [] + Given(run) == Given(run);
  }

  predicate SameOrigin(s: State, t: State) {
    t.prior == s.prior && t.prefixLen == s.prefixLen
  }

  lemma ClientKeepsOrigin(s: State, ev: Event)
    requires Enabled(s, ev)
    ensures SameOrigin(s, ClientStep(s, ev))
  {
  }

  lemma OthersKeepOrigin(s: State, ev: Event)
    requires Enabled(s, ev)
    ensures SameOrigin(s, AborterStep(s, ev))
    ensures SameOrigin(s, WorkerStep(s, ev))
    ensures ev.Transfer? ==> SameOrigin(s, TransferStep(s, ev.k))
  {
    hide NextWorker;
  }

  lemma {:induction false} RunKeepsOrigin(s: State, run: seq<Event>)
    requires Feasible(s, run)
    ensures SameOrigin(s, Final(s, run))
    decreases |run|
  {
    hide ClientStep, AborterStep, WorkerStep, TransferStep, Enabled, IsClient, IsAborter;
    if run != [] {
      ClientKeepsOrigin(s, run[0]);
      OthersKeepOrigin(s, run[0]);
      RunKeepsOrigin(After(s, run[0]), run[1..]);
    }
  }

  /** A TransferError has recorded its error somewhere in the run. */
  predicate Aborts(run: seq<Event>) {
    exists ev :: ev in run && ev.AbortRecord?
  }

  /** No TransferError is under way or has touched the handle after Close began. */
  predicate Untroubled(s: State) {
    s.aborter.Quiet? && !s.late
  }

  lemma StepUntroubled(s: State, ev: Event)
    requires Enabled(s, ev)
    ensures Untroubled(s) && !ev.AbortRecord? ==> Untroubled(After(s, ev))
    ensures ev.AbortRecord? ==> After(s, ev).err.Some?
  {
    hide NextWorker;
  }

  lemma {:induction false} RunUntroubled(s: State, run: seq<Event>)
    requires Untroubled(s) && Feasible(s, run) && !Aborts(run)
    ensures Untroubled(Final(s, run))
    decreases |run|
  {
    hide After, Enabled;
    if run != [] {
      assert run[0] in run;
      StepUntroubled(s, run[0]);
      RunUntroubled(After(s, run[0]), run[1..]);
    }
  }

  lemma {:induction false} RunKeepsError(s: State, run: seq<Event>)
    requires Inv(s) && Feasible(s, run) && (s.err.Some? || Aborts(run))
    ensures Final(s, run).err.Some?
    decreases |run|
  {
    hide Inv, After, Enabled;
    if run != [] {
      StepInv(s, run[0]);
      StepSettles(s, run[0]);
      StepUntroubled(s, run[0]);
      assert Aborts(run) ==> run[0].AbortRecord? || Aborts(run[1..]);
      RunKeepsError(After(s, run[0]), run[1..]);
    }
  }

  /** What Close answers, over every run: nil exactly when the uploader has committed
      and no TransferError has recorded an error before Close returns. */
  lemma CloseAnswers(prior: Option<Bytes>, prefixLen: nat, run: seq<Event>)
    requires CanOpen(prior, prefixLen) && Feasible(Init(prior, prefixLen), run)
    requires Enabled(Final(Init(prior, prefixLen), run), CloseFinish)
    ensures var s := Final(Init(prior, prefixLen), run);
            After(s, CloseFinish).result == Some(None) <==> s.committed && !Aborts(run)
  {
    hide Feasible, Final, Aborts;
    var o := Init(prior, prefixLen);
    InitInv(prior, prefixLen);
    RunInv(o, run);
    if Aborts(run) {
      RunKeepsError(o, run);
    } else {
      RunUntroubled(o, run);
    }
  }

  /** Close's answer tells whether the object was replaced, unless it was and a
      TransferError has recorded an error; that cannot be when no TransferError is
      under way once Close has begun. An object that was not committed is the old one. */
  lemma CloseTellsCommit(prior: Option<Bytes>, prefixLen: nat, run: seq<Event>)
    requires CanOpen(prior, prefixLen) && Feasible(Init(prior, prefixLen), run)
    requires Enabled(Final(Init(prior, prefixLen), run), CloseFinish)
    ensures var s := Final(Init(prior, prefixLen), run);
            && ((After(s, CloseFinish).result == Some(None) <==> s.committed) <==> !(s.committed && Aborts(run)))
            && (s.committed && !s.late ==> !Aborts(run))
            && (!s.committed ==> s.stored == prior)
  {
    CloseAnswers(prior, prefixLen, run);
    hide Feasible, Final, Aborts;
    InitInv(prior, prefixLen);
    RunInv(Init(prior, prefixLen), run);
    RunKeepsOrigin(Init(prior, prefixLen), run);
  }

  /** The exception is real: a TransferError that records its error after the
      commit, while Close still waits, makes Close report an error although the
      object has been replaced. */
  lemma LateAbortDisagrees(e: Failure)
    ensures var run := [CloseStart, CloseWrite, WorkerOpen(true, e), WorkerReadClosed, WorkerCommit]
                       + [AbortRecord(e), CloseFinish];
            && Feasible(Init(None, 0), run)
            && Final(Init(None, 0), run).result == Some(Some(e))
            && Final(Init(None, 0), run).committed && Final(Init(None, 0), run).stored == Some([])
  {
    hide Feasible, Final, Enabled, After;
    var s5 := CommittedState();
    var s6 := s5.(err := Some(e), aborter := Recorded(e), late := true);
    var tail := [AbortRecord(e), CloseFinish];
    LateTail(e, s6);
    ToCommit(e, tail);
  }

  /** An empty upload that has committed while Close waits. */
  function CommittedState(): State {
    Init(None, 0).(closed := true, client := Waiting, werr := Some(Eof), worker := Done,
      stored := Some([]), committed := true)
  }

  lemma LateTail(e: Failure, s6: State)
    requires s6 == CommittedState().(err := Some(e), aborter := Recorded(e), late := true)
    ensures Feasible(CommittedState(), [AbortRecord(e), CloseFinish])
    ensures Final(CommittedState(), [AbortRecord(e), CloseFinish]) == s6.(client := Idle, result := Some(Some(e)))
  {
    var s7 := s6.(client := Idle, result := Some(Some(e)));
    assert After(s6, CloseFinish) == s7;
    assert After(CommittedState(), AbortRecord(e)) == s6;
    RunStep(s6, CloseFinish, s7, []);
    assert [CloseFinish] + [] == [CloseFinish];
    RunStep(CommittedState(), AbortRecord(e), s6, [CloseFinish]);
    assert [AbortRecord(e)] + [CloseFinish] == [AbortRecord(e), CloseFinish];
  }

  lemma ToCommit(e: Failure, tail: seq<Event>)
    requires Feasible(CommittedState(), tail)
    ensures var run := [CloseStart, CloseWrite, WorkerOpen(true, e), WorkerReadClosed, WorkerCommit] + tail;
            Feasible(Init(None, 0), run) && Final(Init(None, 0), run) == Final(CommittedState(), tail)
  {
    hide Feasible, Final;
    var s0 := Init(None, 0);
    var s1 := s0.(closed := true, client := Closing(None));
    var s2 := s1.(werr := Some(Eof), client := Waiting);
    var s3 := s2.(worker := Streaming);
    var s4 := s3.(worker := AtEof);
    RunStep(s4, WorkerCommit, CommittedState(), tail);
    var r4 := [WorkerCommit] + tail;
    RunStep(s3, WorkerReadClosed, s4, r4);
    var r3 := [WorkerReadClosed] + r4;
    RunStep(s2, WorkerOpen(true, e), s3, r3);
    var r2 := [WorkerOpen(true, e)] + r3;
    RunStep(s1, CloseWrite, s2, r2);
    var r1 := [CloseWrite] + r2;
    RunStep(s0, CloseStart, s1, r1);
    assert [CloseStart] + r1 == [CloseStart, CloseWrite, WorkerOpen(true, e), WorkerReadClosed, WorkerCommit] + tail;
  }

  lemma RunStep(s: State, ev: Event, t: State, rest: seq<Event>)
    requires Enabled(s, ev) && After(s, ev) == t && Feasible(t, rest)
    ensures Feasible(s, [ev] + rest) && Final(s, [ev] + rest) == Final(t, rest)
  {
    hide Enabled, After;
    assert ([ev] + rest)[1..] == rest;
  }

  /** The read side is closed and the worker has not seen the end of the file. */
  predicate Doomed(s: State) {
    s.rerr.Some? && !s.worker.AtEof? && !s.committed
  }

  /** From s to t: doom and the first error stay, and Close can only report that error. */
  predicate Settles(s: State, t: State) {
    && (Doomed(s) ==> Doomed(t))
    && (s.err.Some? ==> t.err == s.err)
    && (s.err.Some? && s.result.None? ==> t.result.None? || t.result == Some(s.err))
    && (s.result.Some? ==> t.result == s.result)
  }

  lemma ClientSettles(s: State, ev: Event)
    requires Inv(s) && Enabled(s, ev) && IsClient(ev)
    ensures Settles(s, ClientStep(s, ev))
  {
    hide Accounts, NothingSkipped, Errors, Punctual;
  }

  lemma AborterSettles(s: State, ev: Event)
    requires Enabled(s, ev)
    ensures Settles(s, AborterStep(s, ev))
  {
  }

  lemma WorkerSettles(s: State, ev: Event)
    requires Enabled(s, ev)
    ensures IsWorker(ev) ==> Settles(s, WorkerStep(s, ev))
    ensures ev.Transfer? ==> Settles(s, TransferStep(s, ev.k))
  {
  }

  lemma StepSettles(s: State, ev: Event)
    requires Inv(s) && Enabled(s, ev)
    ensures Settles(s, After(s, ev))
  {
    hide Inv, Enabled, ClientStep, AborterStep, WorkerStep, TransferStep, Settles;
    if IsClient(ev) {
      ClientSettles(s, ev);
    } else if IsAborter(ev) {
      AborterSettles(s, ev);
    } else {
      WorkerSettles(s, ev);
    }
  }

  lemma {:induction false} RunSettles(s: State, run: seq<Event>)
    requires Inv(s) && Feasible(s, run)
    ensures Settles(s, Final(s, run))
    decreases |run|
  {
    hide Inv, Enabled, After, Doomed;
    if run != [] {
      StepInv(s, run[0]);
      StepSettles(s, run[0]);
      RunSettles(After(s, run[0]), run[1..]);
    }
  }

  /** Abort: if a Write has failed or a TransferError has returned before Close is
      called, then in whatever follows the worker never sees the end of the file, the
      stored object stays as it was, and Close reports the first recorded error. */
  lemma AbortHolds(prior: Option<Bytes>, prefixLen: nat, before: seq<Event>, rest: seq<Event>)
    requires CanOpen(prior, prefixLen) && Feasible(Init(prior, prefixLen), before)
    requires var s := Final(Init(prior, prefixLen), before);
             (s.writeFailed || s.transferAborted) && !s.closed && Feasible(s, rest)
    ensures var s := Final(Init(prior, prefixLen), before); var t := Final(s, rest);
            && !t.worker.AtEof? && !t.committed && t.stored == prior
            && s.err.Some? && (t.result.Some? ==> t.result == Some(s.err))
  {
    hide Feasible, Final;
    var o := Init(prior, prefixLen);
    InitInv(prior, prefixLen);
    RunInv(o, before);
    RunKeepsOrigin(o, before);
    var s := Final(o, before);
    RunSettles(s, rest);
    RunInv(s, rest);
    RunKeepsOrigin(s, rest);
  }

  /** A failing Write has found the read side closed and reports the error it was closed
      with, or a closed pipe if the write side was closed too. */
  lemma WriteReports(prior: Option<Bytes>, prefixLen: nat, run: seq<Event>)
    requires CanOpen(prior, prefixLen) && Feasible(Init(prior, prefixLen), run)
    requires Final(Init(prior, prefixLen), run).client.WriteFailing?
    ensures var s := Final(Init(prior, prefixLen), run);
            && s.err.Some? && s.rerr.Some?
            && (s.client.e == s.rerr.value || (s.client.e == CLOSED_PIPE && s.werr.Some?))
  {
    hide Feasible, Final;
    InitInv(prior, prefixLen);
    RunInv(Init(prior, prefixLen), run);
  }

  /** Seek never moves the stream: the only position it accepts is the one the
      handle is at. */
  lemma SeekStays(prior: Option<Bytes>, prefixLen: nat, run: seq<Event>, target: int)
    requires CanOpen(prior, prefixLen) && Feasible(Init(prior, prefixLen), run)
    requires Enabled(Final(Init(prior, prefixLen), run), Seek(target))
    ensures var s := Final(Init(prior, prefixLen), run); After(s, Seek(target)) == s
  {
    hide Feasible, Final;
    InitInv(prior, prefixLen);
    RunInv(Init(prior, prefixLen), run);
  }

  // ---------------------------------------------------------------- progress

  /** A step the program takes by itself: neither a failure of the service nor a
      TransferError from outside. */
  predicate OwnStep(ev: Event) {
    !IsAborter(ev) && !ev.WorkerFail? && !(ev.WorkerOpen? && !ev.ok)
  }

  /** Steps to the end of a Write in progress if nothing else happens. */
  function WriteWork(s: State): nat {
    if PipeClosed(s) then 3
    else
      match s.worker
      case Start => 3
      case Prefix(_) => 2
      case Failing(_, recorded) => if recorded then 4 else 5
      case _ => 1
  }

  /** Steps to the end of a waiting Close if nothing else happens. */
  function CloseWork(w: Worker): nat {
    match w
    case Start => 6
    case Prefix(_) => 5
    case Streaming => 4
    case Failing(_, recorded) => if recorded then 2 else 3
    case AtEof => 2
    case Done => 1
  }

  /** Steps to the end of the call in progress if nothing else happens. */
  function Work(s: State): nat {
    match s.client
    case Idle => 0
    case WriteFailing(_, recorded) => if recorded then 1 else 2
    case Writing(_, _) => WriteWork(s)
    case Closing(_) => 1 + CloseWork(s.worker)
    case Waiting => CloseWork(s.worker)
  }

  /** During a Write the worker moves on, takes the bytes, or has closed the pipe. */
  lemma WriteGoesOn(s: State) returns (ev: Event)
    requires Inv(s) && s.client.Writing?
    ensures Enabled(s, ev) && OwnStep(ev) && Work(After(s, ev)) < Work(s)
  {
    hide NothingSkipped, Punctual;
    if PipeClosed(s) {
      ev := WriteStop;
    } else {
      match s.worker
      case Start => ev := WorkerOpen(true, CLOSED_PIPE);
      case Prefix(left) => ev := WorkerPrefix(|left|);
      case Streaming => ev := Transfer(|s.client.p| - s.client.n);
      case Failing(_, recorded) => ev := if recorded then WorkerClose else WorkerRecord;
      case AtEof => assert false;
      case Done => assert false;
    }
  }

  /** While Close waits the worker moves on, sees the pipe closed, or is done. */
  lemma CloseGoesOn(s: State) returns (ev: Event)
    requires Inv(s) && s.client.Waiting?
    ensures Enabled(s, ev) && OwnStep(ev) && Work(After(s, ev)) < Work(s)
    ensures if s.worker.Done? then ev == CloseFinish else IsWorker(ev)
  {
    assert s.worker.Prefix? ==> s.worker.left != [];
    assert s.werr.Some?;
    hide Inv, Kept, AborterStep, TransferStep, First;
    match s.worker
    case Start => ev := WorkerOpen(true, CLOSED_PIPE);
    case Prefix(left) => ev := WorkerPrefix(|left|);
    case Streaming => ev := WorkerReadClosed;
    case Failing(_, recorded) => ev := if recorded then WorkerClose else WorkerRecord;
    case AtEof => ev := WorkerCommit;
    case Done => ev := CloseFinish;
  }

  predicate InClose(s: State) {
    s.client.Closing? || s.client.Waiting?
  }

  lemma NextStep(s: State) returns (ev: Event)
    requires Inv(s) && !s.client.Idle?
    ensures Enabled(s, ev) && OwnStep(ev) && Work(After(s, ev)) < Work(s)
    ensures !ev.WriteStart? && After(s, ev).closed == s.closed
    ensures InClose(s) ==> After(s, ev).client.Waiting? || After(s, ev).result.Some?
  {
    match s.client
    case Writing(_, _) => ev := WriteGoesOn(s);
    case WriteFailing(_, recorded) => ev := if recorded then WriteClose else WriteRecord;
    case Closing(_) => ev := CloseWrite;
    case Waiting => ev := CloseGoesOn(s);
  }

  /** No call hangs on its own side: while a Write or a Close is in progress, the
      client or the worker can take a step, and it needs no failure for that. */
  lemma NeverStuck(prior: Option<Bytes>, prefixLen: nat, run: seq<Event>) returns (ev: Event)
    requires CanOpen(prior, prefixLen) && Feasible(Init(prior, prefixLen), run)
    requires !Final(Init(prior, prefixLen), run).client.Idle?
    ensures Enabled(Final(Init(prior, prefixLen), run), ev) && OwnStep(ev)
  {
    InitInv(prior, prefixLen);
    RunInv(Init(prior, prefixLen), run);
    hide Feasible, Final;
    ev := NextStep(Final(Init(prior, prefixLen), run));
  }

  /** From any state the call in progress can be brought to its end. */
  lemma {:induction false} Complete(s: State) returns (rest: seq<Event>)
    requires Inv(s)
    ensures Feasible(s, rest) && |rest| <= Work(s) && Own(rest) && Given(rest) == []
    ensures Final(s, rest).client.Idle? && Final(s, rest).closed == s.closed
    ensures InClose(s) ==> Final(s, rest).result.Some?
    decreases Work(s)
  {
    hide Inv, Enabled, After, Work, OwnStep;
    rest := [];
    if !s.client.Idle? {
      var ev := NextStep(s);
      StepInv(s, ev);
      var t := After(s, ev);
      var more := Complete(t);
      RunSettles(t, more);
      RunStep(s, ev, t, more);
      rest := [ev] + more;
      assert rest[1..] == more;
    }
  }

  // ---------------------------------------------------------------- success

  /** Nothing has gone wrong: no error anywhere, and a closed pipe is closed with the
      end of the file. */
  predicate Smooth(s: State) {
    && s.err.None? && s.rerr.None? && (s.werr.Some? ==> s.werr.value == Eof)
    && s.aborter.Quiet? && !s.worker.Failing? && !s.client.WriteFailing?
    && (s.client.Closing? ==> s.client.seen.None?)
    && (s.result.Some? ==> s.result.value.None?)
  }

  lemma StepSmooth(s: State, ev: Event)
    requires Inv(s) && Smooth(s) && Enabled(s, ev) && OwnStep(ev)
    ensures Smooth(After(s, ev))
  {
    hide Accounts, NothingSkipped, Punctual, Base;
  }

  predicate Own(run: seq<Event>) {
    forall ev :: ev in run ==> OwnStep(ev)
  }

  lemma {:induction false} RunSmooth(s: State, run: seq<Event>)
    requires Inv(s) && Smooth(s) && Feasible(s, run) && Own(run)
    ensures Smooth(Final(s, run))
    decreases |run|
  {
    hide Inv, Enabled, After, OwnStep, Smooth;
    if run != [] {
      assert run[0] in run;
      StepInv(s, run[0]);
      StepSmooth(s, run[0]);
      RunSmooth(After(s, run[0]), run[1..]);
    }
  }

  /** If the service does not fail and no TransferError comes, Close cannot report an
      error: over every such run its answer is nil and the object is the kept prefix
      followed by every byte given to Write. */
  lemma OwnRunsSucceed(prior: Option<Bytes>, prefixLen: nat, run: seq<Event>)
    requires CanOpen(prior, prefixLen) && Feasible(Init(prior, prefixLen), run) && Own(run)
    ensures var s := Final(Init(prior, prefixLen), run);
            && s.err.None? && !s.writeFailed && !s.client.WriteFailing?
            && (s.result.Some? ==> s.result == Some(None) && s.stored == Some(Kept(prior, prefixLen) + Given(run)))
  {
    hide Feasible, Final, Kept, Given, Own;
    var o := Init(prior, prefixLen);
    InitInv(prior, prefixLen);
    RunInv(o, run);
    RunSmooth(o, run);
    if Final(o, run).result.Some? {
      CommitExact(prior, prefixLen, run);
    }
  }

  /** Whatever has happened before, a Write or a Close in progress can return after at
      most seven more steps of the client and the worker, none of them a failure; and
      if there was none before either, Close then answers nil. */
  lemma CallReturns(prior: Option<Bytes>, prefixLen: nat, run: seq<Event>) returns (rest: seq<Event>)
    requires CanOpen(prior, prefixLen) && Feasible(Init(prior, prefixLen), run)
    ensures var s := Final(Init(prior, prefixLen), run);
            && Feasible(s, rest) && |rest| <= 7 && Own(rest) && Given(rest) == []
            && Final(s, rest).client.Idle?
            && (InClose(s) ==> Final(s, rest).result.Some?)
            && (InClose(s) && Own(run) ==> Final(s, rest).result == Some(None))
  {
    var o := Init(prior, prefixLen);
    InitInv(prior, prefixLen);
    RunInv(o, run);
    var s := Final(o, run);
    if Own(run) {
      RunSmooth(o, run);
    }
    hide Feasible, Final, Inv, Own;
    rest := Complete(s);
    if Own(run) {
      RunSmooth(s, rest);
    }
  }

  lemma {:induction false} RunConcat(s: State, a: seq<Event>, b: seq<Event>)
    requires Feasible(s, a) && Feasible(Final(s, a), b)
    ensures Feasible(s, a + b) && Final(s, a + b) == Final(Final(s, a), b)
    decreases |a|
  {
    hide Enabled, After;
    if a == [] {
      assert a + b == b;
    } else {
      RunConcat(After(s, a[0]), a[1..], b);
      assert (a + b)[1..] == a[1..] + b;
    }
  }

  lemma {:induction false} GivenConcat(a: seq<Event>, b: seq<Event>)
    ensures Given(a + b) == Given(a) + Given(b)
  {
    hide GivenBy;
    if a == [] {
      assert a + b == b;
    } else {
      GivenConcat(a[1..], b);
      assert (a + b)[1..] == a[1..] + b;
      Associative(GivenBy(a[0]), Given(a[1..]), Given(b));
    }
  }

  /** Chunks one after the other. */
  function Flatten(chunks: seq<Bytes>): Bytes {
    if chunks == [] then [] else chunks[0] + Flatten(chunks[1..])
  }

  /** A state between calls, before Close. */
  predicate Ready(s: State) {
    Inv(s) && Smooth(s) && s.client.Idle? && !s.closed
  }

  /** One call from a ready state: it starts and is brought to its end. */
  lemma OneCall(s: State, ev: Event) returns (run: seq<Event>)
    requires Ready(s) && (ev.WriteStart? || ev == CloseStart)
    ensures Feasible(s, run) && Own(run) && Given(run) == GivenBy(ev)
    ensures if ev.WriteStart? then Ready(Final(s, run)) else Final(s, run).result == Some(None)
  {
    assert Enabled(s, ev) && OwnStep(ev) && After(s, ev).closed == (ev == CloseStart);
    assert ev == CloseStart ==> InClose(After(s, ev));
    StepInv(s, ev);
    StepSmooth(s, ev);
    var t := After(s, ev);
    var rest := Complete(t);
    RunInv(t, rest);
    RunSmooth(t, rest);
    hide Enabled, After, OwnStep, Inv;
    RunStep(s, ev, t, rest);
    run := [ev] + rest;
    assert run[1..] == rest;
    assert GivenBy(ev) + [] == GivenBy(ev);
  }

  lemma {:induction false} Transfers(s: State, chunks: seq<Bytes>) returns (run: seq<Event>)
    requires Ready(s)
    ensures Feasible(s, run) && Own(run) && Given(run) == Flatten(chunks) && Final(s, run).result == Some(None)
    decreases |chunks|
  {
    hide Ready, Feasible, Final, OwnStep, Given;
    if chunks == [] {
      run := OneCall(s, CloseStart);
    } else {
      var first := OneCall(s, WriteStart(chunks[0]));
      var rest := Transfers(Final(s, first), chunks[1..]);
      RunConcat(s, first, rest);
      GivenConcat(first, rest);
      run := first + rest;
    }
  }

  /** Every upload can succeed: for any chunks written one after the other and then
      Close, there is a run without any failure, and it stores the kept prefix followed
      by the chunks. */
  lemma UploadSucceeds(prior: Option<Bytes>, prefixLen: nat, chunks: seq<Bytes>) returns (run: seq<Event>)
    requires CanOpen(prior, prefixLen)
    ensures Feasible(Init(prior, prefixLen), run) && Own(run) && Given(run) == Flatten(chunks)
    ensures var s := Final(Init(prior, prefixLen), run);
            s.result == Some(None) && s.stored == Some(Kept(prior, prefixLen) + Flatten(chunks))
  {
    var o := Init(prior, prefixLen);
    InitInv(prior, prefixLen);
    assert Ready(o);
    hide Ready, Feasible, Final, Given, Own, Kept;
    run := Transfers(o, chunks);
    CommitExact(prior, prefixLen, run);
  }

  /** TransferError never blocks: from any state in which none is under way, its three
      steps can be taken one after the other; they leave an error recorded and both
      sides of the pipe closed, and touch neither the calls nor the worker. */
  lemma TransferErrorReturns(s: State, e: Failure)
    requires s.aborter.Quiet?
    ensures var run := [AbortRecord(e), AbortCloseRead, AbortCloseWrite];
            && Feasible(s, run)
            && var t := Final(s, run);
            && t.err == First(s.err, e) && t.rerr == First(s.rerr, e) && t.werr == First(s.werr, e)
            && t.aborter.Quiet? && t.transferAborted
            && t.client == s.client && t.worker == s.worker && t.stored == s.stored && t.result == s.result
  {
    var s1 := After(s, AbortRecord(e));
    var s2 := After(s1, AbortCloseRead);
    var s3 := After(s2, AbortCloseWrite);
    hide Enabled, After;
    RunStep(s2, AbortCloseWrite, s3, []);
    assert [AbortCloseWrite] + [] == [AbortCloseWrite];
    RunStep(s1, AbortCloseRead, s2, [AbortCloseWrite]);
    assert [AbortCloseRead] + [AbortCloseWrite] == [AbortCloseRead, AbortCloseWrite];
    assert [AbortRecord(e)] + [AbortCloseRead, AbortCloseWrite] == [AbortRecord(e), AbortCloseRead, AbortCloseWrite];
    RunStep(s, AbortRecord(e), s1, [AbortCloseRead, AbortCloseWrite]);
  }

  // ---------------------------------------------------------------- when an upload is lost

  /** The worker will not see the end of the file: it has failed, the read side is
      closed, or an error other than the end of the file stands in the way. */
  predicate Lost(s: State) {
    && !s.worker.AtEof? && !s.committed
    && (|| s.rerr.Some? || s.worker.Failing? || s.worker.Done?
        || (&& s.err.Some? && s.err.value != Eof
            && (s.werr.Some? ==> s.werr.value != Eof)
            && (s.client.Closing? ==> s.client.seen.Some? && s.client.seen.value != Eof)))
  }

  lemma StepLost(s: State, ev: Event)
    requires Inv(s) && Lost(s) && Enabled(s, ev)
    ensures Lost(After(s, ev))
  {
    hide Accounts, NothingSkipped, Punctual, Base;
  }

  lemma {:induction false} RunLost(s: State, run: seq<Event>)
    requires Inv(s) && Lost(s) && Feasible(s, run)
    ensures Lost(Final(s, run))
    decreases |run|
  {
    hide Inv, Lost, Enabled, After;
    if run != [] {
      StepInv(s, run[0]);
      StepLost(s, run[0]);
      RunLost(After(s, run[0]), run[1..]);
    }
  }

  /** Nothing stands in the way of the end of the file; a TransferError may have
      recorded io.EOF. */
  predicate Passing(s: State) {
    && s.rerr.None? && (s.werr.Some? ==> s.werr.value == Eof) && (s.err.Some? ==> s.err.value == Eof)
    && !s.worker.Failing? && !s.client.WriteFailing?
    && (s.client.Closing? && s.client.seen.Some? ==> s.client.seen.value == Eof)
  }

  lemma StepPassing(s: State, ev: Event)
    requires Inv(s) && Passing(s) && Enabled(s, ev) && OwnStep(ev)
    ensures Passing(After(s, ev))
  {
    hide Accounts, NothingSkipped, Punctual, Base;
  }

  lemma {:induction false} RunPassing(s: State, run: seq<Event>)
    requires Inv(s) && Passing(s) && Feasible(s, run) && Own(run)
    ensures Passing(Final(s, run))
    decreases |run|
  {
    hide Inv, Enabled, After, OwnStep, Passing;
    if run != [] {
      assert run[0] in run;
      StepInv(s, run[0]);
      StepPassing(s, run[0]);
      RunPassing(After(s, run[0]), run[1..]);
    }
  }

  ghost predicate CanCommit(s: State) {
    exists rest :: Feasible(s, rest) && Final(s, rest).committed
  }

  /** From a passing state before Close: finish the call in progress, close, and the
      worker commits. */
  lemma ToTheEnd(s: State)
    requires Inv(s) && Passing(s) && !s.closed
    ensures CanCommit(s)
  {
    hide Feasible, Final, Own, Given;
    var first := Complete(s);
    RunInv(s, first);
    RunPassing(s, first);
    var t := Final(s, first);
    assert Enabled(t, CloseStart) && OwnStep(CloseStart) && InClose(After(t, CloseStart));
    StepInv(t, CloseStart);
    StepPassing(t, CloseStart);
    var u := After(t, CloseStart);
    var rest := Complete(u);
    RunInv(u, rest);
    RunPassing(u, rest);
    assert Final(u, rest).committed;
    hide Inv, Enabled, After;
    RunStep(t, CloseStart, u, rest);
    RunConcat(s, first, [CloseStart] + rest);
    assert Feasible(s, first + ([CloseStart] + rest));
  }

  /** When an upload is lost, told at any moment before Close: what follows can still
      commit exactly when the read side is open, the worker has not failed and no error
      but io.EOF has been recorded. So any other error recorded before Close prevents the
      commit, whether or not the TransferError that brought it has returned. */
  lemma LostExactly(prior: Option<Bytes>, prefixLen: nat, run: seq<Event>)
    requires CanOpen(prior, prefixLen) && Feasible(Init(prior, prefixLen), run)
    requires !Final(Init(prior, prefixLen), run).closed
    ensures var s := Final(Init(prior, prefixLen), run);
            CanCommit(s) <==> s.rerr.None? && !s.worker.Failing? && (s.err.None? || s.err.value == Eof)
  {
    InitInv(prior, prefixLen);
    RunInv(Init(prior, prefixLen), run);
    var s := Final(Init(prior, prefixLen), run);
    hide Feasible, Final;
    if s.rerr.None? && !s.worker.Failing? && (s.err.None? || s.err.value == Eof) {
      ToTheEnd(s);
    } else {
      forall rest | Feasible(s, rest)
        ensures !Final(s, rest).committed
      {
        RunLost(s, rest);
      }
    }
  }

  /** Steps the worker can still take while Close waits, whatever fails. */
  function StepsLeft(s: State): nat {
    match s.worker
    case Start => 5 + s.prefixLen
    case Prefix(left) => 4 + |left|
    case Streaming => 4
    case AtEof => 3
    case Failing(_, recorded) => if recorded then 1 else 2
    case Done => 0
  }

  lemma WorkerStepsLeft(s: State, ev: Event)
    requires CanOpen(s.prior, s.prefixLen) && s.client.Waiting? && Enabled(s, ev) && IsWorker(ev)
    ensures WorkerStep(s, ev).client.Waiting? && StepsLeft(WorkerStep(s, ev)) < StepsLeft(s)
  {
    assert ev.WorkerOpen? ==> |Base(s)| == s.prefixLen;
    hide Kept;
  }

  lemma AborterStepsLeft(s: State, ev: Event)
    requires Enabled(s, ev) && IsAborter(ev)
    ensures AborterStep(s, ev).client == s.client && StepsLeft(AborterStep(s, ev)) == StepsLeft(s)
  {
  }

  /** While Close waits, every worker step brings the end nearer and no TransferError
      puts it off. */
  lemma WaitingStep(s: State, ev: Event)
    requires Inv(s) && s.client.Waiting? && Enabled(s, ev) && ev != CloseFinish
    ensures After(s, ev).client.Waiting?
    ensures StepsLeft(After(s, ev)) + (if IsWorker(ev) then 1 else 0) <= StepsLeft(s)
  {
    assert CanOpen(s.prior, s.prefixLen) && !ev.Transfer? && !IsClient(ev);
    hide Inv, Enabled, AborterStep, WorkerStep, StepsLeft;
    if IsAborter(ev) {
      AborterStepsLeft(s, ev);
    } else {
      WorkerStepsLeft(s, ev);
    }
  }

  function WorkerSteps(run: seq<Event>): nat {
    if run == [] then 0 else (if IsWorker(run[0]) then 1 else 0) + WorkerSteps(run[1..])
  }

  lemma {:induction false} WaitingRun(s: State, run: seq<Event>)
    requires Inv(s) && s.client.Waiting? && Feasible(s, run) && CloseFinish !in run
    ensures Final(s, run).client.Waiting?
    ensures WorkerSteps(run) + StepsLeft(Final(s, run)) <= StepsLeft(s)
    decreases |run|
  {
    hide Inv, Enabled, After, StepsLeft, IsWorker;
    if run != [] {
      WaitingStep(s, run[0]);
      StepInv(s, run[0]);
      WaitingRun(After(s, run[0]), run[1..]);
    }
  }

  lemma StepsBound(s: State)
    requires Inv(s)
    ensures StepsLeft(s) <= s.prefixLen + 5
    ensures StepsLeft(s) == 0 <==> s.worker.Done?
  {
    hide NothingSkipped, Commits, Errors, Punctual, CarriedBy;
    assert |Base(s)| == s.prefixLen;
    hide Kept;
  }

  /** Once Close waits, it returns: in any run that follows, with any failures and
      TransferErrors, the goroutine takes at most prefixLen + 5 steps, it always has one
      to take that needs no failure until it is done, and then Close can return. */
  lemma CloseReturns(prior: Option<Bytes>, prefixLen: nat, run: seq<Event>, rest: seq<Event>) returns (ev: Event)
    requires CanOpen(prior, prefixLen) && Feasible(Init(prior, prefixLen), run)
    requires var s := Final(Init(prior, prefixLen), run);
             s.client.Waiting? && Feasible(s, rest) && CloseFinish !in rest
    ensures var t := Final(Final(Init(prior, prefixLen), run), rest);
            && t.client.Waiting? && WorkerSteps(rest) <= prefixLen + 5
            && (WorkerSteps(rest) == prefixLen + 5 ==> t.worker.Done?)
            && Enabled(t, ev) && OwnStep(ev)
            && (if t.worker.Done? then ev == CloseFinish else IsWorker(ev))
  {
    hide Feasible, Final, Inv, StepsLeft, WorkerSteps;
    var o := Init(prior, prefixLen);
    InitInv(prior, prefixLen);
    RunInv(o, run);
    RunKeepsOrigin(o, run);
    var s := Final(o, run);
    StepsBound(s);
    WaitingRun(s, rest);
    RunInv(s, rest);
    var t := Final(s, rest);
    StepsBound(t);
    ev := CloseGoesOn(t);
  }

  /** The bytes of the old object that the open mode keeps: none for STOR, all for
      APPE, those before the offset for a restart. */
  function KeptBytes(flags: Flags, offset: int, prior: Option<Bytes>): Bytes {
    if prior.None? || flags.trunc || (!flags.append && offset <= 0) then []
    else if flags.append || offset >= |prior.value| then prior.value
    else prior.value[..offset]
  }

  /** Opening fails exactly when the size is asked for and cannot be had, or when a
      restart finds no object; otherwise it keeps as many bytes as the open mode says. */
  lemma OpenExactly(flags: Flags, offset: int, prior: Option<Bytes>, e: Error)
    ensures OpenUpload(flags, offset, Ok(SizeOf(prior))) ==
            if prior.None? && offset > 0 && !flags.trunc && !flags.append then Err(NotExist)
            else Ok(|KeptBytes(flags, offset, prior)|)
    ensures OpenUpload(flags, offset, Err(e)) ==
            if flags.trunc || (!flags.append && offset <= 0) then Ok(0) else Err(e)
  {
  }

  /** The whole upload: when Close returns nil, the object is what the open mode
      keeps of the old one, followed by everything that was written. */
  lemma UploadResult(flags: Flags, offset: int, prior: Option<Bytes>, run: seq<Event>)
    requires OpenUpload(flags, offset, Ok(SizeOf(prior))).Ok?
    requires var o := Init(prior, OpenUpload(flags, offset, Ok(SizeOf(prior))).value);
             Feasible(o, run) && Final(o, run).result == Some(None)
    ensures Final(Init(prior, OpenUpload(flags, offset, Ok(SizeOf(prior))).value), run).stored
            == Some(KeptBytes(flags, offset, prior) + Given(run))
  {
    var prefixLen := OpenUpload(flags, offset, Ok(SizeOf(prior))).value;
    CommitExact(prior, prefixLen, run);
    hide Feasible, Final;
    assert prior.Some? ==> prior.value[..|prior.value|] == prior.value && prior.value[..0] == [];
  }

  // ---------------------------------------------------------------- schedules

  /** The run that comes of proposing events in some order: what is not possible at
      its turn is passed over. */
  function Realized(s: State, schedule: seq<Event>): (run: seq<Event>)
    ensures Feasible(s, run)
    decreases |schedule|
  {
    if schedule == [] then []
    else if Enabled(s, schedule[0]) then
      var run := Realized(After(s, schedule[0]), schedule[1..]);
      RunStep(s, schedule[0], After(s, schedule[0]), run);
      [schedule[0]] + run
    else Realized(s, schedule[1..])
  }

  /** Every feasible run comes of some schedule, namely of itself. */
  lemma {:induction false} RunsAreRealized(s: State, run: seq<Event>)
    requires Feasible(s, run)
    ensures Realized(s, run) == run
    decreases |run|
  {
    hide Enabled, After;
    if run != [] {
      RunsAreRealized(After(s, run[0]), run[1..]);
      assert run == [run[0]] + run[1..];
    }
  }

  /** What a run leaves in the store: when Close returned nil, what the open mode keeps
      and everything written; when it returned an error and there was no TransferError,
      and in every run that has not committed, the old object. */
  lemma UploadLeaves(flags: Flags, offset: int, prior: Option<Bytes>, run: seq<Event>)
    requires OpenUpload(flags, offset, Ok(SizeOf(prior))).Ok?
    requires Feasible(Init(prior, OpenUpload(flags, offset, Ok(SizeOf(prior))).value), run)
    ensures var s := Final(Init(prior, OpenUpload(flags, offset, Ok(SizeOf(prior))).value), run);
            && (s.result == Some(None) ==>
                  s.committed && s.stored == Some(KeptBytes(flags, offset, prior) + Given(run)))
            && (s.result.Some? && s.result.value.Some? && !Aborts(run) ==> !s.committed)
            && (s.committed ==> s.stored.Some?)
            && (!s.committed ==> s.stored == prior)
  {
    var prefixLen := OpenUpload(flags, offset, Ok(SizeOf(prior))).value;
    var o := Init(prior, prefixLen);
    if Final(o, run).result == Some(None) {
      UploadResult(flags, offset, prior, run);
    }
    hide Feasible, Final, Aborts, Given, KeptBytes;
    InitInv(prior, prefixLen);
    RunInv(o, run);
    RunKeepsOrigin(o, run);
    if !Aborts(run) {
      RunUntroubled(o, run);
    }
  }

  lemma KeptAtMost(flags: Flags, offset: int, prior: Option<Bytes>)
    ensures |KeptBytes(flags, offset, prior)| <= if prior.Some? then |prior.value| else 0
  {
  }

  lemma {:induction false} GivenAtMost(s: State, schedule: seq<Event>)
    ensures |Given(Realized(s, schedule))| <= |Given(schedule)|
    decreases |schedule|
  {
    hide Enabled, After;
    if schedule != [] {
      if Enabled(s, schedule[0]) {
        GivenAtMost(After(s, schedule[0]), schedule[1..]);
      } else {
        GivenAtMost(s, schedule[1..]);
      }
    }
  }
}
