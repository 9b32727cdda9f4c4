/**
 * The two threads of a pass and the three buffers that go round between them.
 *
 * The reader draws a buffer, fills it from the unit and sends it down the full
 * queue; the decoder takes it, decodes it and sends it back up the empty queue.
 * A queue whose far end is gone refuses what is sent, but still hands over what
 * was in it. Steps of the two threads interleave in any order.
 */
module ReaderPool {

  /** One of the buffers of the pool. */
  type Buffer = nat

  const POOL: seq<Buffer> := [0, 1, 2]

  datatype Message = Data(buffer: Buffer, chunk: nat) | Failed | End

  datatype Reader =
    | Opening
    | Drawing
    | Holding(buffer: Buffer)
    | Filled(buffer: Buffer, chunk: nat)
    | Reporting
    | Ending
    | Gone

  datatype Outcome = Read | Broken | Refused | Cancelled

  datatype Decoder =
    | Waiting
    | Decoding(buffer: Buffer, chunk: nat)
    | Returning(buffer: Buffer, good: bool)
    | Deciding(good: bool)
    | Returned(outcome: Outcome)

  datatype State = State(
    reader: Reader,
    decoder: Decoder,
    pool: seq<Buffer>,
    full: seq<Message>,
    empty: seq<Buffer>,
    /** Chunks filled so far, numbered in the order they were read */
    read: nat,
    /** Chunks decoded so far, in the order they were decoded */
    decoded: seq<nat>,
    /** Buffers let go of by a thread that ended */
    dropped: seq<Buffer>
  )

  const START := State(Opening, Waiting, [], [], [], 0, [], [])

  datatype Filling = More | Error | Nothing

  /** What a thread may do next. A flag or a filling is what the unit, the stream or the caller answers. */
  datatype Step =
    | Open(good: bool)
    | Draw
    | Fill(filling: Filling)
    | Send
    | Report
    | Finish
    | Receive
    | Decode(good: bool)
    | GiveBack
    | Decide(cancel: bool)

  /** Whether a step can be taken. A thread waits on an empty queue while its far end is there. */
  predicate Enabled(s: State, step: Step, limit: nat) {
    match step
    case Open(_) => s.reader.Opening?
    case Draw => s.reader.Drawing? && (s.pool != [] || s.empty != [] || s.decoder.Returned?)
    case Fill(filling) => s.reader.Holding? && (filling.More? ==> s.read < limit)
    case Send => s.reader.Filled?
    case Report => s.reader.Reporting?
    case Finish => s.reader.Ending?
    case Receive => s.decoder.Waiting? && (s.full != [] || s.reader.Gone?)
    case Decode(_) => s.decoder.Decoding?
    case GiveBack => s.decoder.Returning?
    case Decide(_) => s.decoder.Deciding?
  }

  /** The reader ends, and the buffers at its side of the queues go with it. */
  function ReaderEnds(s: State, held: seq<Buffer>): State {
    s.(reader := Gone, pool := [], empty := [], dropped := s.dropped + s.pool + s.empty + held)
  }

  /** The decoder ends, and what was on its way to it goes with it. */
  function DecoderEnds(s: State, outcome: Outcome): State {
    s.(decoder := Returned(outcome), full := [], dropped := s.dropped + BuffersOf(s.full))
  }

  function BuffersOf(messages: seq<Message>): seq<Buffer> {
    if messages == [] then []
    else (if messages[0].Data? then [messages[0].buffer] else []) + BuffersOf(messages[1..])
  }

  /** A message sent down the full queue: lost where the decoder is gone. */
  function Sent(s: State, m: Message): State {
    if s.decoder.Returned? then s else s.(full := s.full + [m])
  }

  function Apply(s: State, step: Step, limit: nat): State
    requires Enabled(s, step, limit)
  {
    match step
    case Open(good) => if good then s.(reader := Drawing, pool := POOL) else s.(reader := Reporting)
    case Draw =>
      if s.pool != [] then s.(reader := Holding(s.pool[0]), pool := s.pool[1..])
      else if s.empty != [] then s.(reader := Holding(s.empty[0]), empty := s.empty[1..])
      else ReaderEnds(s, [])
    case Fill(filling) => (
      match filling
      case More => s.(reader := Filled(s.reader.buffer, s.read), read := s.read + 1)
      case Error => s.(reader := Reporting, dropped := s.dropped + [s.reader.buffer])
      case Nothing => s.(reader := Ending, dropped := s.dropped + [s.reader.buffer])
    )
    case Send =>
      if s.decoder.Returned? then ReaderEnds(s, [s.reader.buffer])
      else Sent(s, Data(s.reader.buffer, s.reader.chunk)).(reader := Drawing)
    case Report => Sent(s, Failed).(reader := Ending)
    case Finish => ReaderEnds(Sent(s, End), [])
    case Receive =>
      if s.full == [] then DecoderEnds(s, Read)
      else (
        var rest := s.(full := s.full[1..]);
        match s.full[0]
        case Data(buffer, chunk) => rest.(decoder := Decoding(buffer, chunk))
        case End => DecoderEnds(rest, Read)
        case Failed => DecoderEnds(rest, Broken)
      )
    case Decode(good) =>
      s.(decoder := Returning(s.decoder.buffer, good),
         decoded := if good then s.decoded + [s.decoder.chunk] else s.decoded)
    case GiveBack =>
      var given := s.(decoder := Deciding(s.decoder.good));
      if s.reader.Gone? then given.(dropped := s.dropped + [s.decoder.buffer])
      else given.(empty := s.empty + [s.decoder.buffer])
    case Decide(cancel) =>
      if !s.decoder.good then DecoderEnds(s, Refused)
      else if cancel then DecoderEnds(s, Cancelled)
      else s.(decoder := Waiting)
  }

  // ----- what every interleaving keeps

  function ReaderHand(s: State): seq<Buffer> {
    if s.reader.Holding? || s.reader.Filled? then [s.reader.buffer] else []
  }

  function DecoderHand(s: State): seq<Buffer> {
    if s.decoder.Decoding? || s.decoder.Returning? then [s.decoder.buffer] else []
  }

  /** How often a buffer is in a line of them. */
  function Times(line: seq<Buffer>, b: Buffer): nat {
    if line == [] then 0 else (if line[0] == b then 1 else 0) + Times(line[1..], b)
  }

  /** How many places hold a buffer: the pool, the queues, a thread's hand, or the floor. */
  function Places(s: State, b: Buffer): nat {
    Times(s.pool, b) + Times(BuffersOf(s.full), b) + Times(s.empty, b) + Times(ReaderHand(s), b)
    + Times(DecoderHand(s), b) + Times(s.dropped, b)
  }

  function ChunksOf(messages: seq<Message>): seq<nat> {
    if messages == [] then []
    else (if messages[0].Data? then [messages[0].chunk] else []) + ChunksOf(messages[1..])
  }

  function Upto(n: nat): (s: seq<nat>)
    ensures |s| == n && forall k :: 0 <= k < n ==> s[k] == k
  {
    if n == 0 then [] else Upto(n - 1) + [n - 1]
  }

  /** The chunks read but not yet decoded, oldest first. */
  function Pending(s: State): seq<nat> {
    (if s.decoder.Decoding? then [s.decoder.chunk] else [])
    + ChunksOf(s.full)
    + (if s.reader.Filled? then [s.reader.chunk] else [])
  }

  /** Each of the three buffers is in one place, and no other is anywhere. */
  ghost predicate AllThere(s: State) {
    forall b: Buffer :: Places(s, b) == if b < |POOL| then 1 else 0
  }

  /** A unit that refused the pass never had a buffer. */
  ghost predicate NoneThere(s: State) {
    forall b: Buffer :: Places(s, b) == 0
  }

  ghost predicate Conserved(s: State) {
    || (AllThere(s) && !s.reader.Opening?)
    || (NoneThere(s) && s.reader in {Opening, Reporting, Ending, Gone})
  }

  /** Nothing is let go of while both threads are at work. */
  predicate NothingDropped(s: State) {
    s.reader in {Reporting, Ending, Gone} || s.decoder.Returned? || s.dropped == []
  }

  /** The decoder has refused nothing and is still at work. */
  predicate Faithful(s: State) {
    match s.decoder
    case Waiting => true
    case Decoding(_, _) => true
    case Returning(_, good) => good
    case Deciding(good) => good
    case Returned(_) => false
  }

  /** Chunks are decoded in the order they are read, each once, and none is skipped. */
  predicate InOrder(s: State) {
    && s.decoded <= Upto(s.read)
    && (Faithful(s) ==> s.decoded + Pending(s) == Upto(s.read))
  }

  /** A decoder at work has the end of the pass to look forward to, and nothing follows that. */
  predicate EndIsLast(s: State) {
    && (forall k :: 0 <= k < |s.full| && s.full[k].End? ==> k == |s.full| - 1 && s.reader.Gone?)
    && (forall k :: 0 <= k < |s.full| && s.full[k].Failed? ==> s.reader in {Ending, Gone})
    && (s.reader.Gone? && !s.decoder.Returned? ==> s.full != [] && s.full[|s.full| - 1].End?)
  }

  /** A decoder that ended well has decoded every chunk that was read. */
  predicate NothingMissed(s: State) {
    s.decoder == Returned(Read) ==> s.reader.Gone? && s.decoded == Upto(s.read)
  }

  ghost predicate Invariant(s: State) {
    Conserved(s) && NothingDropped(s) && InOrder(s) && EndIsLast(s) && NothingMissed(s)
  }

  lemma {:induction false} BuffersSplit(a: seq<Message>, b: seq<Message>)
    ensures BuffersOf(a + b) == BuffersOf(a) + BuffersOf(b)
    decreases |a|
  {
    if a == [] {
      assert a + b == b;
    } else {
      assert (a + b)[0] == a[0] && (a + b)[1..] == a[1..] + b;
      BuffersSplit(a[1..], b);
    }
  }

  lemma {:induction false} ChunksSplit(a: seq<Message>, b: seq<Message>)
    ensures ChunksOf(a + b) == ChunksOf(a) + ChunksOf(b)
    decreases |a|
  {
    if a == [] {
      assert a + b == b;
    } else {
      assert (a + b)[0] == a[0] && (a + b)[1..] == a[1..] + b;
      ChunksSplit(a[1..], b);
    }
  }

  lemma {:induction false} UptoPrefix(m: nat, n: nat)
    requires m <= n
    ensures Upto(m) <= Upto(n)
    decreases n
  {
    if m < n { UptoPrefix(m, n - 1); }
  }

  lemma StartInvariant()
    ensures Invariant(START)
  {
  }

  predicate OfReader(step: Step) {
    step.Open? || step.Draw? || step.Fill? || step.Send? || step.Report? || step.Finish?
  }

  lemma {:induction false} TimesSplit(a: seq<Buffer>, b: seq<Buffer>, x: Buffer)
    ensures Times(a + b, x) == Times(a, x) + Times(b, x)
    decreases |a|
  {
    if a == [] {
      assert a + b == b;
    } else {
      assert (a + b)[0] == a[0] && (a + b)[1..] == a[1..] + b;
      TimesSplit(a[1..], b, x);
    }
  }

  lemma TimesOne(x: Buffer, b: Buffer)
    ensures Times([x], b) == if x == b then 1 else 0
  {
    assert [x][1..] == [];
  }

  lemma TimesPool(b: Buffer)
    ensures Times(POOL, b) == if b < |POOL| then 1 else 0
  {
    assert POOL == [0] + ([1] + [2]);
    TimesSplit([0], [1] + [2], b);
    TimesSplit([1], [2], b);
    TimesOne(0, b);
    TimesOne(1, b);
    TimesOne(2, b);
  }

  /** What is sent is on its way or, with the decoder gone, nowhere. */
  lemma BuffersSent(s: State, m: Message)
    ensures BuffersOf(Sent(s, m).full)
         == BuffersOf(s.full) + if m.Data? && !s.decoder.Returned? then [m.buffer] else []
    ensures ChunksOf(Sent(s, m).full)
         == ChunksOf(s.full) + if m.Data? && !s.decoder.Returned? then [m.chunk] else []
  {
    BuffersSplit(s.full, [m]);
    ChunksSplit(s.full, [m]);
  }

  lemma ReaderEndsInPlace(s: State, held: seq<Buffer>, b: Buffer)
    ensures Places(ReaderEnds(s, held), b) == Places(s, b) - Times(ReaderHand(s), b) + Times(held, b)
  {
    TimesSplit(s.dropped + s.pool + s.empty, held, b);
    TimesSplit(s.dropped + s.pool, s.empty, b);
    TimesSplit(s.dropped, s.pool, b);
  }

  lemma DecoderEndsInPlace(s: State, outcome: Outcome, b: Buffer)
    ensures Places(DecoderEnds(s, outcome), b) == Places(s, b) - Times(DecoderHand(s), b)
  {
    TimesSplit(s.dropped, BuffersOf(s.full), b);
  }

  lemma SentInPlace(s: State, m: Message, b: Buffer)
    ensures Places(Sent(s, m), b)
         == Places(s, b) + if m.Data? && !s.decoder.Returned? && m.buffer == b then 1 else 0
  {
    BuffersSent(s, m);
    assert BuffersOf(s.full) + [] == BuffersOf(s.full);
    if m.Data? {
      TimesSplit(BuffersOf(s.full), [m.buffer], b);
      TimesOne(m.buffer, b);
    }
  }

  /** No step makes a buffer or loses one, but opening the pass makes the three. */
  lemma ReaderStepInPlace(s: State, step: Step, limit: nat, b: Buffer)
    requires Enabled(s, step, limit) && OfReader(step)
    ensures Places(Apply(s, step, limit), b)
         == if step == Open(true) then Places(s, b) - Times(s.pool, b) + Times(POOL, b) else Places(s, b)
  {
    match step {
      case Open(_) =>
      case Draw =>
        if s.pool != [] {
          TimesOne(s.pool[0], b);
        } else if s.empty != [] {
          TimesOne(s.empty[0], b);
        } else {
          ReaderEndsInPlace(s, [], b);
        }
      case Fill(_) => TimesSplit(s.dropped, [s.reader.buffer], b);
      case Send =>
        if s.decoder.Returned? {
          ReaderEndsInPlace(s, [s.reader.buffer], b);
        } else {
          SentInPlace(s, Data(s.reader.buffer, s.reader.chunk), b);
        }
      case Report => SentInPlace(s, Failed, b);
      case Finish =>
        SentInPlace(s, End, b);
        ReaderEndsInPlace(Sent(s, End), [], b);
    }
  }

  lemma DecoderStepInPlace(s: State, step: Step, limit: nat, b: Buffer)
    requires Enabled(s, step, limit) && !OfReader(step)
    ensures Places(Apply(s, step, limit), b) == Places(s, b)
  {
    match step {
      case Receive =>
        if s.full != [] {
          assert BuffersOf(s.full) == (if s.full[0].Data? then [s.full[0].buffer] else []) + BuffersOf(s.full[1..]);
          assert [] + BuffersOf(s.full[1..]) == BuffersOf(s.full[1..]);
          if s.full[0].Data? { TimesSplit([s.full[0].buffer], BuffersOf(s.full[1..]), b); }
        }
        if s.full == [] {
          DecoderEndsInPlace(s, Read, b);
        } else if s.full[0].End? {
          DecoderEndsInPlace(s.(full := s.full[1..]), Read, b);
        } else if s.full[0].Failed? {
          DecoderEndsInPlace(s.(full := s.full[1..]), Broken, b);
        }
      case Decode(_) =>
      case GiveBack =>
        TimesSplit(s.dropped, [s.decoder.buffer], b);
        TimesSplit(s.empty, [s.decoder.buffer], b);
      case Decide(cancel) =>
        if !s.decoder.good {
          DecoderEndsInPlace(s, Refused, b);
        } else if cancel {
          DecoderEndsInPlace(s, Cancelled, b);
        }
    }
  }

  lemma ConservedByStep(s: State, step: Step, limit: nat)
    requires Conserved(s) && Enabled(s, step, limit)
    ensures Conserved(Apply(s, step, limit))
  {
    var t := Apply(s, step, limit);
    forall b: Buffer
      ensures Places(t, b)
           == if step == Open(true) then Places(s, b) - Times(s.pool, b) + Times(POOL, b) else Places(s, b)
      ensures Times(POOL, b) == if b < |POOL| then 1 else 0
    {
      TimesPool(b);
      if OfReader(step) {
        ReaderStepInPlace(s, step, limit, b);
      } else {
        DecoderStepInPlace(s, step, limit, b);
      }
    }
    SomeReaderLater(s, step, limit);
  }

  /** A pass that was opened stays so, and one that was refused does not draw. */
  lemma SomeReaderLater(s: State, step: Step, limit: nat)
    requires Enabled(s, step, limit)
    ensures !Apply(s, step, limit).reader.Opening? || s.reader.Opening?
    ensures OfReader(step) && step != Open(true) && s.reader in {Opening, Reporting, Ending}
            ==> Apply(s, step, limit).reader in {Reporting, Ending, Gone}
    ensures !OfReader(step) ==> Apply(s, step, limit).reader == s.reader
  {
  }

  lemma OrderByReader(s: State, step: Step, limit: nat)
    requires InOrder(s) && Enabled(s, step, limit) && (step.Open? || step.Draw? || step.Fill?)
    ensures InOrder(Apply(s, step, limit))
  {
    var t := Apply(s, step, limit);
    UptoPrefix(s.read, t.read);
    if step.Fill? && step.filling.More? {
      assert Pending(t) == Pending(s) + [s.read];
    }
  }

  lemma OrderBySend(s: State, step: Step, limit: nat)
    requires InOrder(s) && Enabled(s, step, limit) && (step.Send? || step.Report? || step.Finish?)
    ensures InOrder(Apply(s, step, limit))
  {
    var t := Apply(s, step, limit);
    match step {
      case Send => BuffersSent(s, Data(s.reader.buffer, s.reader.chunk));
      case Report => BuffersSent(s, Failed);
      case Finish => BuffersSent(s, End);
    }
    assert !s.decoder.Returned? ==> Pending(t) == Pending(s);
  }

  lemma OrderByDecoder(s: State, step: Step, limit: nat)
    requires InOrder(s) && Enabled(s, step, limit) && !OfReader(step)
    ensures InOrder(Apply(s, step, limit))
  {
    var t := Apply(s, step, limit);
    if step.Receive? && s.full != [] {
      assert s.full == [s.full[0]] + s.full[1..];
    } else if step.Decode? {
      assert Pending(s) == [s.decoder.chunk] + Pending(t);
      assert Faithful(s);
      assert s.decoded + [s.decoder.chunk] + Pending(t) == Upto(s.read);
    }
  }

  lemma EndsByStep(s: State, step: Step, limit: nat)
    requires EndIsLast(s) && Enabled(s, step, limit)
    ensures EndIsLast(Apply(s, step, limit))
  {
    if step.Send? || step.Report? || step.Finish? {
      assert forall k :: 0 <= k < |s.full| ==> !s.full[k].End?;
    }
  }

  lemma DroppedByStep(s: State, step: Step, limit: nat)
    requires NothingDropped(s) && Enabled(s, step, limit)
    ensures NothingDropped(Apply(s, step, limit))
  {
  }

  lemma MissedByStep(s: State, step: Step, limit: nat)
    requires Invariant(s) && Enabled(s, step, limit)
    ensures NothingMissed(Apply(s, step, limit))
  {
    if step.Receive? {
      if s.full != [] && s.full[0].End? {
        assert |s.full| == 1 && s.full[1..] == [];
        assert ChunksOf(s.full) == [] && Pending(s) == [];
      }
    }
  }

  /** Every step of either thread keeps the invariant. */
  lemma StepKeeps(s: State, step: Step, limit: nat)
    requires Invariant(s) && Enabled(s, step, limit)
    ensures Invariant(Apply(s, step, limit))
  {
    ConservedByStep(s, step, limit);
    EndsByStep(s, step, limit);
    DroppedByStep(s, step, limit);
    MissedByStep(s, step, limit);
    if !OfReader(step) {
      OrderByDecoder(s, step, limit);
    } else if step.Open? || step.Draw? || step.Fill? {
      OrderByReader(s, step, limit);
    } else {
      OrderBySend(s, step, limit);
    }
  }

  // ----- whole runs

  /** The state an interleaving reaches, step by step, where each step can be taken. */
  predicate Runs(s: State, steps: seq<Step>, limit: nat, t: State)
    decreases |steps|
  {
    if steps == [] then s == t
    else Enabled(s, steps[0], limit) && Runs(Apply(s, steps[0], limit), steps[1..], limit, t)
  }

  lemma {:induction false} RunKeeps(s: State, steps: seq<Step>, limit: nat, t: State)
    requires Invariant(s) && Runs(s, steps, limit, t)
    ensures Invariant(t)
    decreases |steps|
  {
    if steps != [] {
      StepKeeps(s, steps[0], limit);
      RunKeeps(Apply(s, steps[0], limit), steps[1..], limit, t);
    }
  }

  predicate Done(s: State) { s.reader.Gone? && s.decoder.Returned? }

  /** A thread that can go on, wherever not both have ended. */
  lemma SomeStep(s: State, limit: nat) returns (step: Step)
    requires Invariant(s) && !Done(s)
    ensures Enabled(s, step, limit)
  {
    match s.decoder {
      case Decoding(_, _) => return Decode(true);
      case Returning(_, _) => return GiveBack;
      case Deciding(_) => return Decide(false);
      case _ =>
    }
    match s.reader {
      case Opening => step := Open(true);
      case Holding(_) => step := Fill(Nothing);
      case Filled(_, _) => step := Send;
      case Reporting => step := Report;
      case Ending => step := Finish;
      case Gone => step := Receive;
      case Drawing =>
        if s.pool != [] || s.empty != [] || s.decoder.Returned? {
          return Draw;
        }
        // Both threads at work and nothing to draw: the buffers are on their way to the decoder
        assert Places(s, 0) == 1;
        assert s.full != [];
        step := Receive;
    }
  }

  /** How much is left to do, at most. */
  function Work(s: State, limit: nat): int {
    7 * (limit - s.read) + ReaderWork(s.reader) + 4 * |s.full| + DecoderWork(s.decoder)
  }

  function ReaderWork(r: Reader): nat {
    match r
    case Opening => 13
    case Drawing => 12
    case Holding(_) => 11
    case Filled(_, _) => 17
    case Reporting => 10
    case Ending => 5
    case Gone => 0
  }

  function DecoderWork(d: Decoder): nat {
    match d
    case Waiting => 1
    case Decoding(_, _) => 4
    case Returning(_, _) => 3
    case Deciding(_) => 2
    case Returned(_) => 0
  }

  lemma StepDoesWork(s: State, step: Step, limit: nat)
    requires Enabled(s, step, limit)
    ensures Work(Apply(s, step, limit), limit) < Work(s, limit)
  {
  }

  // ----- how a pass comes out

  /** A step in which the unit failed: it refused the pass, or a READ. */
  predicate Fails(step: Step) { step == Open(false) || step == Fill(Error) }

  /** What the decoder is at, and what is on its way to it, says what has happened. */
  ghost predicate Accounts(s: State, bad: bool, cancelled: bool, failed: bool) {
    && (bad <==> s.decoder in {Deciding(false), Returned(Refused)} || (s.decoder.Returning? && !s.decoder.good))
    && (!bad ==> (cancelled <==> s.decoder == Returned(Cancelled)))
    && (s.decoder == Returned(Read) ==> !failed)
    && (s.decoder == Returned(Broken) ==> failed)
    && (s.reader.Reporting? || (exists k :: 0 <= k < |s.full| && s.full[k].Failed?) ==> failed)
    && (failed && !s.decoder.Returned? ==>
          || s.reader.Reporting?
          || (s.reader in {Ending, Gone} && exists k :: 0 <= k < |s.full| && s.full[k].Failed?))
  }

  lemma StepAccounts(s: State, bad: bool, cancelled: bool, failed: bool, step: Step, limit: nat)
    requires Invariant(s) && Accounts(s, bad, cancelled, failed) && Enabled(s, step, limit)
    ensures Accounts(Apply(s, step, limit), bad || step == Decode(false), cancelled || step == Decide(true),
                     failed || Fails(step))
  {
    var t := Apply(s, step, limit);
    if OfReader(step) {
      if exists k :: 0 <= k < |s.full| && s.full[k].Failed? {
        var k :| 0 <= k < |s.full| && s.full[k].Failed?;
        assert !t.decoder.Returned? ==> t.full[k].Failed?;
      }
      if step.Report? && !s.decoder.Returned? { assert t.full[|s.full|] == Failed; }
    } else if step.Receive? && s.full != [] {
      if s.full[0].End? { assert |s.full| == 1; }
      if s.full[0].Data? {
        if exists k :: 0 <= k < |s.full| && s.full[k].Failed? {
          var k :| 0 <= k < |s.full| && s.full[k].Failed?;
          assert t.full[k - 1].Failed?;
        }
      }
    }
  }

  lemma {:induction false} RunAccounts(s: State, bad: bool, cancelled: bool, failed: bool, steps: seq<Step>,
                                       limit: nat, t: State)
    requires Invariant(s) && Accounts(s, bad, cancelled, failed) && Runs(s, steps, limit, t)
    ensures Accounts(t, bad || Decode(false) in steps, cancelled || Decide(true) in steps,
                     failed || Open(false) in steps || Fill(Error) in steps)
    decreases |steps|
  {
    if steps != [] {
      var step := steps[0];
      StepKeeps(s, step, limit);
      StepAccounts(s, bad, cancelled, failed, step, limit);
      RunAccounts(Apply(s, step, limit), bad || step == Decode(false), cancelled || step == Decide(true),
                  failed || Fails(step), steps[1..], limit, t);
      assert forall x :: x in steps <==> x == step || x in steps[1..];
    }
  }

  /**
   * What a pass that is over came to, from the steps alone: refused if a chunk would
   * not decode; otherwise cancelled if the caller said so of one that did; otherwise
   * broken if the unit failed, however much of the pass was read before; and read
   * to its end in every other run, and in no other.
   */
  lemma Outcomes(steps: seq<Step>, limit: nat, t: State)
    requires Runs(START, steps, limit, t) && t.decoder.Returned?
    ensures t.decoder.outcome == if Decode(false) in steps then Refused
                                 else if Decide(true) in steps then Cancelled
                                 else if Open(false) in steps || Fill(Error) in steps then Broken
                                 else Read
  {
    StartInvariant();
    RunAccounts(START, false, false, false, steps, limit, t);
  }

  /** The chunks read are the fills that brought one, and those decoded the decodes that went well. */
  lemma {:induction false} ChunksCounted(s: State, steps: seq<Step>, limit: nat, t: State)
    requires Runs(s, steps, limit, t)
    ensures t.read == s.read + multiset(steps)[Fill(More)]
    ensures |t.decoded| == |s.decoded| + multiset(steps)[Decode(true)]
    decreases |steps|
  {
    if steps != [] {
      assert steps == [steps[0]] + steps[1..];
      ChunksCounted(Apply(s, steps[0], limit), steps[1..], limit, t);
    }
  }

  /**
   * Every interleaving: the three buffers are conserved, the decoded chunks are
   * in order and none twice, a pass that reads to its end has decoded every
   * chunk, and no step of it failed; somewhere a thread can go on unless both have
   * ended, and both do end.
   */
  lemma EveryInterleaving(steps: seq<Step>, limit: nat, t: State)
    requires Runs(START, steps, limit, t)
    ensures Invariant(t) && t.read <= limit
    ensures t.read == multiset(steps)[Fill(More)] && |t.decoded| == multiset(steps)[Decode(true)]
    ensures t.decoder == Returned(Read) ==> forall step :: step in steps ==> !Fails(step)
    ensures !Done(t) ==> exists step :: Enabled(t, step, limit)
    ensures |steps| <= 7 * limit + 14
  {
    StartInvariant();
    RunKeeps(START, steps, limit, t);
    RunIsBounded(START, steps, limit, t);
    ChunksCounted(START, steps, limit, t);
    if t.decoder.Returned? { Outcomes(steps, limit, t); }
    if !Done(t) {
      var step := SomeStep(t, limit);
    }
  }

  lemma {:induction false} RunIsBounded(s: State, steps: seq<Step>, limit: nat, t: State)
    requires Runs(s, steps, limit, t) && s.read <= limit
    ensures t.read <= limit
    ensures |steps| <= Work(s, limit) - Work(t, limit)
    decreases |steps|
  {
    if steps != [] {
      StepDoesWork(s, steps[0], limit);
      RunIsBounded(Apply(s, steps[0], limit), steps[1..], limit, t);
    }
  }

  // ----- a decoder that ends first

  /** How many more chunks the reader can still read once the decoder has ended. */
  function ReadsLeft(s: State): nat {
    if s.reader in {Reporting, Ending, Gone} || s.reader.Filled? then 0 else 1
  }

  /** Once the decoder ends, the reader's next send ends it, and so it reads one more chunk at most. */
  lemma {:induction false} DecoderEndsReader(s: State, steps: seq<Step>, limit: nat, t: State)
    requires s.decoder.Returned? && Runs(s, steps, limit, t)
    ensures t.decoder == s.decoder && t.decoded == s.decoded
    ensures t.read <= s.read + ReadsLeft(s)
    ensures forall k :: 0 <= k < |steps| && steps[k].Send? ==> k == |steps| - 1 && t.reader.Gone?
    decreases |steps|
  {
    if steps != [] {
      var u := Apply(s, steps[0], limit);
      DecoderEndsReader(u, steps[1..], limit, t);
      if steps[0].Send? {
        assert u.reader.Gone?;
        NothingLeft(u, steps[1..], limit, t);
      }
      assert forall k :: 1 <= k < |steps| ==> steps[k] == steps[1..][k - 1];
    }
  }

  lemma NothingLeft(s: State, steps: seq<Step>, limit: nat, t: State)
    requires Done(s) && Runs(s, steps, limit, t)
    ensures steps == []
  {
  }

  /** How often the reader draws a buffer. */
  function Draws(steps: seq<Step>): (n: nat)
    ensures n <= |steps|
  {
    if steps == [] then 0 else (if steps[0].Draw? then 1 else 0) + Draws(steps[1..])
  }

  /** Once the decoder has ended the reader draws once more at most, and not at all with a buffer in hand. */
  lemma {:induction false} OneDrawLeft(s: State, steps: seq<Step>, limit: nat, t: State)
    requires s.decoder.Returned? && Runs(s, steps, limit, t)
    ensures Draws(steps) <= if s.reader.Opening? || s.reader.Drawing? then 1 else 0
    decreases |steps|
  {
    if steps != [] { OneDrawLeft(Apply(s, steps[0], limit), steps[1..], limit, t); }
  }

  /**
   * In any run after the decoder has ended, a reader about to receive does so next
   * and never again; that receive ends it, and the run, exactly when no buffer is
   * left in the pool or in the empty queue.
   */
  lemma NextReceive(before: seq<Step>, s: State, steps: seq<Step>, limit: nat, t: State)
    requires Runs(START, before, limit, s) && Runs(s, steps, limit, t)
    requires s.decoder.Returned? && s.reader.Drawing?
    ensures Enabled(s, Draw, limit) && (steps != [] ==> steps[0] == Draw && Draws(steps) == 1)
    ensures Apply(s, Draw, limit).reader.Gone? <==> s.pool == [] && s.empty == []
    ensures s.pool == [] && s.empty == [] && steps != [] ==> steps == [Draw] && Done(t)
    ensures t.read <= s.read + if s.pool == [] && s.empty == [] then 0 else 1
  {
    if steps != [] {
      var u := Apply(s, Draw, limit);
      OneDrawLeft(s, steps, limit, t);
      DecoderEndsReader(s, steps, limit, t);
      if s.pool == [] && s.empty == [] {
        NothingLeft(u, steps[1..], limit, t);
      }
    }
  }

  /** One chunk is decoded and its buffer given back, and the decoder has still to say whether it goes on. */
  const UNDECIDED := State(Drawing, Deciding(true), [1, 2], [], [0], 1, [0], [])
  /** The reader has filled the other two, and the caller cancels. */
  const CANCELLED := State(Drawing, Returned(Cancelled), [], [], [0], 3, [0], BuffersOf([Data(1, 1), Data(2, 2)]))

  /** A run that comes to such a receive with the pool used up and a buffer in the empty queue: it goes on. */
  lemma {:induction false} ReceiveGoesOn() returns (steps: seq<Step>)
    ensures Runs(START, steps, 4, CANCELLED)
    ensures CANCELLED.decoder.Returned? && CANCELLED.reader.Drawing? && CANCELLED.pool == []
    ensures Apply(CANCELLED, Draw, 4).reader.Holding?
  {
    var s1 := State(Drawing, Waiting, POOL, [], [], 0, [], []);
    var s2 := State(Holding(0), Waiting, [1, 2], [], [], 0, [], []);
    var s3 := State(Filled(0, 0), Waiting, [1, 2], [], [], 1, [], []);
    var s4 := State(Drawing, Waiting, [1, 2], [Data(0, 0)], [], 1, [], []);
    var s5 := State(Drawing, Decoding(0, 0), [1, 2], [], [], 1, [], []);
    var s6 := State(Drawing, Returning(0, true), [1, 2], [], [], 1, [0], []);
    steps := FillsTheOthers();
    steps := RunOne(s6, GiveBack, UNDECIDED, steps, CANCELLED);
    steps := RunOne(s5, Decode(true), s6, steps, CANCELLED);
    steps := RunOne(s4, Receive, s5, steps, CANCELLED);
    steps := RunOne(s3, Send, s4, steps, CANCELLED);
    steps := RunOne(s2, Fill(More), s3, steps, CANCELLED);
    steps := RunOne(s1, Draw, s2, steps, CANCELLED);
    steps := RunOne(START, Open(true), s1, steps, CANCELLED);
  }

  lemma {:induction false} FillsTheOthers() returns (steps: seq<Step>)
    ensures Runs(UNDECIDED, steps, 4, CANCELLED)
  {
    var s8 := State(Holding(1), Deciding(true), [2], [], [0], 1, [0], []);
    var s9 := State(Filled(1, 1), Deciding(true), [2], [], [0], 2, [0], []);
    var s10 := State(Drawing, Deciding(true), [2], [Data(1, 1)], [0], 2, [0], []);
    var s11 := State(Holding(2), Deciding(true), [], [Data(1, 1)], [0], 2, [0], []);
    var s12 := State(Filled(2, 2), Deciding(true), [], [Data(1, 1)], [0], 3, [0], []);
    var s13 := State(Drawing, Deciding(true), [], [Data(1, 1), Data(2, 2)], [0], 3, [0], []);
    RunEmpty(CANCELLED);
    steps := RunOne(s13, Decide(true), CANCELLED, [], CANCELLED);
    steps := RunOne(s12, Send, s13, steps, CANCELLED);
    steps := RunOne(s11, Fill(More), s12, steps, CANCELLED);
    steps := RunOne(s10, Draw, s11, steps, CANCELLED);
    steps := RunOne(s9, Send, s10, steps, CANCELLED);
    steps := RunOne(s8, Fill(More), s9, steps, CANCELLED);
    steps := RunOne(UNDECIDED, Draw, s8, steps, CANCELLED);
  }

  lemma RunEmpty(s: State)
    ensures Runs(s, [], 4, s)
  {
  }

  lemma RunOne(s: State, step: Step, t: State, steps: seq<Step>, end: State) returns (longer: seq<Step>)
    requires Enabled(s, step, 4) && Apply(s, step, 4) == t && Runs(t, steps, 4, end)
    ensures Runs(s, longer, 4, end)
  {
    longer := [step] + steps;
    assert longer[1..] == steps;
  }
}
