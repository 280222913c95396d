/** The trace pipe and the done pipe between the engine process and its parent.

    The child writes a length-prefixed trace into a bounded pipe and then a done token; the parent
    polls both pipes and drains them. Every step of either side, in every interleaving, with every
    pipe capacity and every split of reads and writes, is a step of the state machine below. */
module TraceChannel {
  newtype byte = x: int | 0 <= x < 256

  type Bytes = seq<byte>

  const TWO_TO_THE_32: nat := 0x1_0000_0000

  /** Largest chunk one read takes from the trace pipe. */
  const READ_CHUNK := 8192

  // ---- framing ------------------------------------------------------------

  /** The four bytes of a 32-bit length, low byte first. */
  function EncodeLength(n: nat): (h: Bytes)
    requires n < TWO_TO_THE_32
    ensures |h| == 4
  {
    [(n % 256) as byte, (n / 0x100 % 256) as byte, (n / 0x1_0000 % 256) as byte, (n / 0x100_0000) as byte]
  }

  function DecodeLength(h: Bytes): nat
    requires |h| == 4
  {
    h[0] as nat + h[1] as nat * 0x100 + h[2] as nat * 0x1_0000 + h[3] as nat * 0x100_0000
  }

  lemma LengthRoundTrip(n: nat)
    requires n < 0x1_0000_0000
    ensures DecodeLength(EncodeLength(n)) == n
  {
    var a, b := n / 0x100, n / 0x1_0000;
    assert n == a * 0x100 + n % 0x100;
    assert a == (a / 0x100) * 0x100 + a % 0x100 && a / 0x100 == b;
    assert b == (b / 0x100) * 0x100 + b % 0x100 && b / 0x100 == n / 0x100_0000;
  }

  /** The part of a payload that is written: its length is cut to 32 bits first. */
  function Delivered(payload: Bytes): Bytes {
    payload[..|payload| % TWO_TO_THE_32]
  }

  function Frame(payload: Bytes): Bytes {
    EncodeLength(|payload| % TWO_TO_THE_32) + Delivered(payload)
  }

  /** A payload arrives whole exactly when its size fits 32 bits. */
  lemma DeliveredWhole(payload: Bytes)
    ensures Delivered(payload) == payload <==> |payload| < 0x1_0000_0000
  {
    if |payload| < TWO_TO_THE_32 {
      assert |payload| % TWO_TO_THE_32 == |payload|;
    } else {
      assert |Delivered(payload)| < |payload|;
    }
  }

  // ---- the reader's buffers ---------------------------------------------------

  datatype Reader = Reader(haveDone: bool, haveLen: bool, haveTrace: bool, traceLen: nat, buf: Bytes, traceData: Bytes)

  const FRESH := Reader(false, false, false, 0, [], [])

  /** One chunk read from the trace pipe. */
  function OnChunk(r: Reader, chunk: Bytes): Reader {
    var buf := r.buf + chunk;
    var haveLen := r.haveLen || |buf| >= 4;
    var traceLen := if !r.haveLen && |buf| >= 4 then DecodeLength(buf[..4]) else r.traceLen;
    if haveLen && |buf| >= 4 + traceLen then
      Reader(r.haveDone, haveLen, true, traceLen, buf, buf[4..4 + traceLen])
    else
      Reader(r.haveDone, haveLen, r.haveTrace, traceLen, buf, r.traceData)
  }

  /** The reader's local variables, updated in place chunk by chunk. */
  class TraceReader {
    var haveDone: bool
    var haveLen: bool
    var haveTrace: bool
    var traceLen: nat
    var buf: Bytes
    var traceData: Bytes

    function View(): Reader
      reads this
    {
      Reader(haveDone, haveLen, haveTrace, traceLen, buf, traceData)
    }

    constructor ()
      ensures View() == FRESH
    {
      haveDone, haveLen, haveTrace, traceLen, buf, traceData := false, false, false, 0, [], [];
    }

    method TakeToken()
      modifies this
      ensures View() == old(View()).(haveDone := true)
    {
      haveDone := true;
    }

    method TakeChunk(chunk: Bytes)
      modifies this
      ensures View() == OnChunk(old(View()), chunk)
    {
      buf := buf + chunk;
      if !haveLen && |buf| >= 4 {
        traceLen := DecodeLength(buf[..4]);
        haveLen := true;
      }
      if haveLen && |buf| >= 4 + traceLen {
        traceData := buf[4..4 + traceLen];
        haveTrace := true;
      }
    }
  }

  // ---- the state machine ------------------------------------------------------------

  /** Where the parent is: waiting for a request, about to poll, or walking the descriptors poll
      reported ready (the done pipe first). */
  datatype Parent = Idle | AtPoll | AtFds(done: bool, trace: bool)

  datatype State = State(
    capacity: nat,
    pending: Bytes,          // what the child has still to write of this frame
    writing: bool,           // the child has not yet reported done
    pipe: Bytes,             // bytes in the trace pipe
    token: bool,             // the done pipe holds a token
    parent: Parent,
    reader: Reader,
    sent: seq<Bytes>,        // payloads of all batches so far
    log: seq<Bytes>)         // traces returned so far

  datatype Action = Request(payload: Bytes) | Write(n: nat) | Report | Poll | ReadToken | ReadChunk(n: nat) | Decide

  function Start(capacity: nat): State {
    State(capacity, [], false, [], false, Idle, FRESH, [], [])
  }

  predicate TraceReady(s: State) {
    !s.reader.haveTrace && s.pipe != []
  }

  predicate Enabled(s: State, a: Action) {
    match a
    case Request(_) => s.parent.Idle?
    case Write(n) => s.writing && 0 < n <= |s.pending| && |s.pipe| + n <= s.capacity
    case Report => s.writing && s.pending == []
    case Poll => s.parent.AtPoll? && (s.token || TraceReady(s))
    case ReadToken => s.parent.AtFds? && s.parent.done && s.token
    case ReadChunk(n) => s.parent.AtFds? && !s.parent.done && s.parent.trace && 0 < n <= READ_CHUNK && n <= |s.pipe|
    case Decide => s.parent == AtFds(false, false)
  }

  function Next(s: State, a: Action): State
    requires Enabled(s, a)
  {
    match a
    case Request(payload) =>
      s.(pending := Frame(payload), writing := true, parent := AtPoll, reader := FRESH, sent := s.sent + [payload])
    case Write(n) => s.(pending := s.pending[n..], pipe := s.pipe + s.pending[..n])
    case Report => s.(writing := false, token := true)
    case Poll => s.(parent := AtFds(s.token, TraceReady(s)))
    case ReadToken =>
      s.(token := false, reader := s.reader.(haveDone := true), parent := AtFds(false, s.parent.trace))
    case ReadChunk(n) =>
      s.(pipe := s.pipe[n..], reader := OnChunk(s.reader, s.pipe[..n]), parent := AtFds(false, false))
    case Decide =>
      if s.reader.haveDone && s.reader.haveTrace then s.(parent := Idle, log := s.log + [s.reader.traceData])
      else s.(parent := AtPoll)
  }

  // ---- what every step keeps -----------------------------------------------------------

  /** The reader has seen exactly a prefix of the frame, and knows what that prefix tells it. */
  predicate ReaderKnows(r: Reader, payload: Bytes) {
    && |r.buf| <= |Frame(payload)| && r.buf == Frame(payload)[..|r.buf|]
    && (r.haveLen <==> |r.buf| >= 4)
    && (r.haveLen ==> r.traceLen == |Delivered(payload)|)
    && (r.haveTrace <==> r.buf == Frame(payload))
    && (r.haveTrace ==> r.traceData == Delivered(payload))
  }

  /** Nothing is in flight and every trace returned so far is the one that was sent. */
  predicate AtRest(s: State) {
    && s.pipe == [] && s.pending == [] && !s.token && !s.writing
    && |s.log| == |s.sent|
  }

  predicate InFlight(s: State) {
    && |s.sent| == |s.log| + 1
    && ReaderKnows(s.reader, s.sent[|s.log|])
    && s.reader.buf + s.pipe + s.pending == Frame(s.sent[|s.log|])
    && (s.writing ==> !s.token && !s.reader.haveDone)
    && (!s.writing ==> s.pending == [] && (s.token <==> !s.reader.haveDone))
    && (s.parent.AtPoll? ==> !(s.reader.haveDone && s.reader.haveTrace))
    && (s.parent.AtFds? && s.parent.done ==> s.token)
    && (s.parent.AtFds? && s.parent.trace ==> TraceReady(s))
  }

  predicate Inv(s: State) {
    && s.capacity >= 1 && |s.pipe| <= s.capacity
    && |s.log| <= |s.sent|
    && (forall i | 0 <= i < |s.log| :: s.log[i] == Delivered(s.sent[i]))
    && (if s.parent.Idle? then AtRest(s) else InFlight(s))
  }

  lemma FreshReaderKnows(payload: Bytes)
    ensures ReaderKnows(FRESH, payload)
  {
  }

  /** Reading the next bytes of the frame keeps the reader's knowledge right, wherever the chunk
      boundary falls. */
  lemma ChunkKeepsKnowledge(r: Reader, payload: Bytes, chunk: Bytes)
    requires ReaderKnows(r, payload) && !r.haveTrace
    requires |r.buf| + |chunk| <= |Frame(payload)| && r.buf + chunk == Frame(payload)[..|r.buf| + |chunk|]
    ensures ReaderKnows(OnChunk(r, chunk), payload)
  {
    var buf, f := r.buf + chunk, Frame(payload);
    LengthRoundTrip(|payload| % TWO_TO_THE_32);
    if |buf| >= 4 {
      assert buf[..4] == f[..4] == EncodeLength(|payload| % TWO_TO_THE_32);
      assert |f| == 4 + |Delivered(payload)|;
      if |buf| >= 4 + |Delivered(payload)| {
        assert buf == f;
        assert buf[4..] == Delivered(payload);
      }
    }
  }

  /** Taking n bytes from the pipe moves them behind what was read. */
  lemma Flow(buf: Bytes, pipe: Bytes, pending: Bytes, n: nat, frame: Bytes)
    requires n <= |pipe| && buf + pipe + pending == frame
    ensures buf + pipe[..n] == frame[..|buf| + n]
    ensures (buf + pipe[..n]) + pipe[n..] + pending == frame
  {
    assert pipe == pipe[..n] + pipe[n..];
  }

  lemma ReadChunkKeepsInv(s: State, n: nat)
    requires Inv(s) && Enabled(s, ReadChunk(n))
    ensures Inv(Next(s, ReadChunk(n)))
  {
    var payload := s.sent[|s.log|];
    var chunk := s.pipe[..n];
    Flow(s.reader.buf, s.pipe, s.pending, n, Frame(payload));
    ChunkKeepsKnowledge(s.reader, payload, chunk);
    ChunkBuffered(s.reader, chunk);
    StillInFlight(s, Next(s, ReadChunk(n)), payload);
  }

  lemma ChunkBuffered(r: Reader, chunk: Bytes)
    ensures OnChunk(r, chunk).buf == r.buf + chunk && OnChunk(r, chunk).haveDone == r.haveDone
  {
  }

  /** A step between two reports changes nothing but the pipe and what the reader knows. */
  lemma StillInFlight(s: State, t: State, payload: Bytes)
    requires Inv(s) && InFlight(s) && payload == s.sent[|s.log|]
    requires ReaderKnows(t.reader, payload) && t.reader.buf + t.pipe + t.pending == Frame(payload)
    requires t.sent == s.sent && t.log == s.log && t.capacity == s.capacity && |t.pipe| <= |s.pipe|
    requires t.pending == s.pending && t.writing == s.writing && t.token == s.token
    requires t.reader.haveDone == s.reader.haveDone && t.parent == AtFds(false, false)
    ensures Inv(t)
  {
  }

  /** Every step of either process keeps the invariant. */
  lemma InvStep(s: State, a: Action)
    requires Inv(s) && Enabled(s, a)
    ensures Inv(Next(s, a))
  {
    match a
    case Request(payload) => FreshReaderKnows(payload);
    case Write(n) =>
      assert s.pending == s.pending[..n] + s.pending[n..];
      assert s.reader.buf + s.pipe + s.pending == s.reader.buf + (s.pipe + s.pending[..n]) + s.pending[n..];
    case Report =>
    case Poll =>
    case ReadToken =>
    case ReadChunk(n) => ReadChunkKeepsInv(s, n);
    case Decide =>
      if s.reader.haveDone && s.reader.haveTrace {
        assert s.reader.buf == Frame(s.sent[|s.log|]);
        assert |s.reader.buf| + |s.pipe| + |s.pending| == |Frame(s.sent[|s.log|])|;
      }
  }

  /** No deadlock: while a batch is in flight, the child or the parent can move. */
  lemma NeverStuck(s: State) returns (a: Action)
    requires Inv(s) && !s.parent.Idle?
    ensures Enabled(s, a) && !a.Request?
  {
    match s.parent
    case AtFds(true, _) => a := ReadToken;
    case AtFds(false, true) => a := ReadChunk(1);
    case AtFds(false, false) => a := Decide;
    case AtPoll =>
      if s.token || TraceReady(s) {
        a := Poll;
      } else if s.writing && s.pending == [] {
        a := Report;
      } else if s.writing {
        assert |s.reader.buf| + |s.pipe| + |s.pending| == |Frame(s.sent[|s.log|])|;
        a := Write(1);
      } else {
        assert false;
      }
  }

  // ---- every run of a batch ends ---------------------------------------------------------

  function ParentRank(p: Parent): nat {
    match p
    case Idle => 0
    case AtPoll => 4
    case AtFds(done, trace) => if done || trace then 3 else 5
  }

  /** Work left in the current batch. */
  function Work(s: State): nat {
    12 * |s.pending| + 6 * |s.pipe| + (if s.writing then 12 else 0) + (if s.token then 6 else 0) + ParentRank(s.parent)
  }

  /** Every step but a new request brings the batch closer to its end. */
  lemma StepsSpendWork(s: State, a: Action)
    requires Enabled(s, a) && !a.Request?
    ensures Work(Next(s, a)) < Work(s)
  {
  }

  // ---- whole runs -----------------------------------------------------------------------

  predicate CanRun(s: State, actions: seq<Action>)
    decreases |actions|
  {
    actions == [] || (Enabled(s, actions[0]) && CanRun(Next(s, actions[0]), actions[1..]))
  }

  function Run(s: State, actions: seq<Action>): State
    requires CanRun(s, actions)
    decreases |actions|
  {
    if actions == [] then s else Run(Next(s, actions[0]), actions[1..])
  }

  lemma {:induction false} RunKeepsInv(s: State, actions: seq<Action>)
    requires Inv(s) && CanRun(s, actions)
    ensures Inv(Run(s, actions))
    decreases |actions|
  {
    if actions != [] {
      InvStep(s, actions[0]);
      RunKeepsInv(Next(s, actions[0]), actions[1..]);
    }
  }

  /** Safety over every run of any number of batches: each trace returned is the payload of its own
      batch, and whenever the parent waits for a request both pipes are empty, so the next frame
      starts aligned. */
  lemma EveryRunDelivers(capacity: nat, actions: seq<Action>)
    requires capacity >= 1 && CanRun(Start(capacity), actions)
    ensures
      var s := Run(Start(capacity), actions);
      && |s.log| <= |s.sent|
      && (forall i | 0 <= i < |s.log| :: s.log[i] == Delivered(s.sent[i]))
      && (s.parent.Idle? ==> s.pipe == [] && !s.token && |s.log| == |s.sent|)
  {
    RunKeepsInv(Start(capacity), actions);
  }

  /** Liveness: without new requests no run is longer than the work at its start, and a run that
      cannot be continued has returned its trace. */
  lemma {:induction false} EveryBatchEnds(s: State, actions: seq<Action>)
    requires Inv(s) && CanRun(s, actions)
    requires forall a: Action | a in actions :: !a.Request?
    ensures |actions| <= Work(s)
    ensures (forall a: Action | !a.Request? :: !Enabled(Run(s, actions), a)) ==> Run(s, actions).parent.Idle?
    decreases |actions|
  {
    if actions == [] {
      if !s.parent.Idle? {
        var a := NeverStuck(s);
      }
    } else {
      StepsSpendWork(s, actions[0]);
      InvStep(s, actions[0]);
      EveryBatchEnds(Next(s, actions[0]), actions[1..]);
    }
  }

  lemma Advance(s: State, a: Action)
    requires Inv(s) && Enabled(s, a) && !a.Request?
    ensures Inv(Next(s, a)) && Work(Next(s, a)) < Work(s)
  {
    InvStep(s, a);
    StepsSpendWork(s, a);
  }

  /** The step that can be taken, told by the guards of the processes. */
  lemma SomeGuardHolds(s: State)
    requires Inv(s) && !s.parent.Idle?
    ensures
      || (s.writing && s.pending != [] && |s.pipe| < s.capacity)
      || (s.writing && s.pending == [])
      || (s.parent.AtPoll? && (s.token || TraceReady(s)))
      || (s.parent.AtFds? && s.parent.done)
      || (s.parent.AtFds? && !s.parent.done && s.parent.trace)
      || s.parent == AtFds(false, false)
  {
    var a := NeverStuck(s);
  }

  /** One batch under an arbitrary scheduler, with the reader's own variables: whatever step is
      taken whenever several are possible, the loop ends and returns the payload. */
  method RunBatch(payload: Bytes, capacity: nat) returns (trace: Bytes)
    requires capacity >= 1
    ensures trace == Delivered(payload)
  {
    var reader := new TraceReader();
    InvStep(Start(capacity), Request(payload));
    var pending, writing, pipe, token, parent := Frame(payload), true, [], false, AtPoll;
    ghost var s := Next(Start(capacity), Request(payload));
    while !parent.Idle?
      invariant Inv(s)
      invariant s == State(capacity, pending, writing, pipe, token, parent, reader.View(), [payload], s.log)
      invariant parent.Idle? ==> |s.log| == 1 && s.log[0] == reader.traceData
      decreases Work(s)
    {
      SomeGuardHolds(s);
      ghost var a;
      if {
        case writing && pending != [] && |pipe| < capacity =>
          var n: nat :| 0 < n <= |pending| && n <= capacity - |pipe|;
          a := Write(n);
          pending, pipe := pending[n..], pipe + pending[..n];
        case writing && pending == [] =>
          a := Report;
          writing, token := false, true;
        case parent.AtPoll? && (token || (!reader.haveTrace && pipe != [])) =>
          a := Poll;
          parent := AtFds(token, !reader.haveTrace && pipe != []);
        case parent.AtFds? && parent.done =>
          a := ReadToken;
          reader.TakeToken();
          token, parent := false, AtFds(false, parent.trace);
        case parent.AtFds? && !parent.done && parent.trace =>
          var n: nat :| 0 < n <= READ_CHUNK && n <= |pipe|;
          a := ReadChunk(n);
          reader.TakeChunk(pipe[..n]);
          pipe, parent := pipe[n..], AtFds(false, false);
        case parent == AtFds(false, false) =>
          a := Decide;
          parent := if reader.haveDone && reader.haveTrace then Idle else AtPoll;
      }
      Advance(s, a);
      s := Next(s, a);
    }
    trace := reader.traceData;
  }
}
