/**
 * Streaming the image off a unit that may answer anything: short, spent, failing,
 * or more than it owes. However the pass goes, the scan is stopped once at most,
 * and nothing is asked of the unit after it is closed.
 */
module ImageChunks {
  import opened Wrappers
  import opened Sequences
  import opened Arith
  import opened Layouts
  import opened Scheduling

  /** How the unit answers a READ. `Gave(0)` is an image that is spent. */
  datatype Answer = Gave(bytes: nat) | Failed

  /** How the unit answers ABORT. */
  datatype Stopping = Stopped | NoAbort | StopFailed

  /** What was asked of the unit, and what came of it. */
  datatype Event = Read(want: nat, got: nat) | ReadFailed(want: nat) | Abort

  /** Bytes an event gave. */
  function Given(e: Event): nat { if e.Read? then e.got else 0 }

  function Got(log: seq<Event>): nat {
    if log == [] then 0 else Given(log[0]) + Got(log[1..])
  }

  function Aborts(log: seq<Event>): nat {
    if log == [] then 0 else (if log[0].Abort? then 1 else 0) + Aborts(log[1..])
  }

  /** The lengths of the READs of a log, in order. */
  function Wants(log: seq<Event>): seq<nat> {
    if log == [] then [] else (if log[0].Abort? then [] else [log[0].want]) + Wants(log[1..])
  }

  lemma {:induction false} LogSplit(a: seq<Event>, b: seq<Event>)
    ensures Got(a + b) == Got(a) + Got(b) && Aborts(a + b) == Aborts(a) + Aborts(b)
  {
    if a == [] {
      assert a + b == b;
    } else {
      assert (a + b)[0] == a[0] && (a + b)[1..] == a[1..] + b;
      LogSplit(a[1..], b);
    }
  }

  lemma {:induction false} WantsSplit(a: seq<Event>, b: seq<Event>)
    ensures Wants(a + b) == Wants(a) + Wants(b)
  {
    if a == [] {
      assert a + b == b;
    } else {
      assert (a + b)[0] == a[0] && (a + b)[1..] == a[1..] + b;
      WantsSplit(a[1..], b);
      Assoc(if a[0].Abort? then [] else [a[0].want], Wants(a[1..]), Wants(b));
    }
  }

  lemma OneEvent(e: Event)
    ensures Got([e]) == Given(e) && Aborts([e]) == (if e.Abort? then 1 else 0)
    ensures Wants([e]) == if e.Abort? then [] else [e.want]
  {
    assert [e][1..] == [];
  }

  // ----- what a pass asks for

  /** What READ number `n` comes back with, which is no more than the buffer holds. */
  function Reply(answers: (nat, nat) -> Answer, n: nat, want: nat): Answer {
    match answers(n, want)
    case Gave(bytes) => Gave(Min(bytes, want))
    case Failed => Failed
  }

  /** The event of a READ and its answer. */
  function Logged(want: nat, a: Answer): Event {
    match a case Gave(got) => Read(want, got) case Failed => ReadFailed(want)
  }

  function ReadEvent(answers: (nat, nat) -> Answer, n: nat, want: nat): (e: Event)
    ensures !e.Abort? && e.want == want && Given(e) <= want
  {
    Logged(want, Reply(answers, n, want))
  }

  /** What a pass is read by: its granules, its length, and the most one READ may ask for. */
  datatype Pass = Pass(granules: Granules, total: nat, seams: bool, chunk: nat) {
    predicate Ready() { WholeLine(granules) && Widest(granules) <= chunk }

    /** The length of the READ that comes once `taken` bytes are given: toward the end, or past it a chunk at a time. */
    function Want(taken: nat): nat
      requires Positive(granules)
    {
      TakeLengths(granules, Advance(granules, 0, taken), if taken >= total then chunk else total - taken, chunk)
    }
  }

  /** A READ is something, no more than a chunk, and less than a granule more than what is owed. */
  lemma WantFits(p: Pass, taken: nat)
    requires p.Ready()
    ensures 1 <= p.Want(taken) <= p.chunk
    ensures taken < p.total ==> p.Want(taken) < p.total - taken + Widest(p.granules)
  {
    TakeFits(p.granules, Advance(p.granules, 0, taken), if taken >= p.total then p.chunk else p.total - taken, p.chunk);
  }

  /**
   * From a boundary a READ ends on one. It covers what is owed, or is the most whole
   * granules a chunk carries; past the end it is always the most.
   */
  lemma WantIsLongest(p: Pass, taken: nat)
    requires p.Ready() && OnBoundary(p.granules, Advance(p.granules, 0, taken))
    ensures var after := Advance(p.granules, 0, taken + p.Want(taken));
            && OnBoundary(p.granules, after)
            && (|| (taken < p.total && p.Want(taken) >= p.total - taken)
                || p.Want(taken) == p.chunk
                || p.Want(taken) + NextLength(p.granules, after) > p.chunk)
  {
    var at := Advance(p.granules, 0, taken);
    TakeIsRight(p.granules, at, if taken >= p.total then p.chunk else p.total - taken, p.chunk);
    AdvanceTwice(p.granules, 0, taken, p.Want(taken));
  }

  /** The lengths a pass asks for, by how much it has been given. */
  datatype Schedule = Schedule(want: nat -> nat, total: nat, seams: bool, chunk: nat) {
    /** How much a drain reads past the end before it gives up. */
    function Limit(): (limit: nat)
      ensures limit >= total && limit >= chunk && (limit == total || limit == chunk)
    {
      Max(total, chunk)
    }

    /** What is owed once `taken` bytes are given. */
    function Owed(taken: nat): nat { SatSub(total, taken) }

    /** Bytes of `got` that are past the end. */
    function Past(taken: nat, got: nat): nat { SatSub(got, Owed(taken)) }

    /** There is something to ask for: what is owed, or seams past the end. */
    predicate More(taken: nat) { Owed(taken) > 0 || seams }
  }

  ghost predicate Fits(sc: Schedule) {
    forall taken :: 1 <= sc.want(taken) <= sc.chunk
  }

  /** A schedule asks for the lengths of a pass. */
  ghost predicate Follows(sc: Schedule, p: Pass)
    requires p.Ready()
  {
    && sc.total == p.total && sc.seams == p.seams && sc.chunk == p.chunk
    && forall taken :: sc.want(taken) == p.Want(taken)
  }

  function ScheduleOf(p: Pass): (sc: Schedule)
    requires p.Ready()
    ensures Follows(sc, p)
  {
    Schedule((taken: nat) => if p.Ready() then p.Want(taken) else 0, p.total, p.seams, p.chunk)
  }

  lemma FollowsFits(sc: Schedule, p: Pass)
    requires p.Ready() && Follows(sc, p)
    ensures Fits(sc)
  {
    forall taken ensures 1 <= sc.want(taken) <= sc.chunk {
      WantFits(p, taken);
    }
  }

  /** A READ of the length that comes once `taken` bytes are given, and past the end only for seams. */
  predicate Asks(sc: Schedule, taken: nat, e: Event) {
    !e.Abort? && e.want == sc.want(taken) && Given(e) <= e.want && sc.More(taken)
  }

  /** Such READs one after the other, each by what those before it gave, and ABORTs. */
  predicate Proper(sc: Schedule, taken: nat, log: seq<Event>)
    decreases |log|
  {
    log == [] || ((log[0].Abort? || Asks(sc, taken, log[0])) && Proper(sc, taken + Given(log[0]), log[1..]))
  }

  lemma {:induction false} ProperSplit(sc: Schedule, taken: nat, a: seq<Event>, b: seq<Event>)
    requires Proper(sc, taken, a) && Proper(sc, taken + Got(a), b)
    ensures Proper(sc, taken, a + b)
    decreases |a|
  {
    if a == [] {
      assert a + b == b;
    } else {
      assert (a + b)[0] == a[0] && (a + b)[1..] == a[1..] + b;
      ProperSplit(sc, taken + Given(a[0]), a[1..], b);
    }
  }

  lemma ProperOne(sc: Schedule, taken: nat, e: Event)
    requires e.Abort? || Asks(sc, taken, e)
    ensures Proper(sc, taken, [e])
  {
    assert [e][1..] == [];
  }

  // ----- reading off what the unit still holds

  /** Where a drain has got: the commands sent, the bytes of the pass given, and those it has read past the end. */
  datatype Place = Place(commands: nat, taken: nat, surplus: nat)

  /** After it there is no cause to ask again: nothing, or less than was asked for. */
  predicate GivesUp(e: Event) {
    !e.Read? || e.got == 0 || e.got < e.want
  }

  /** Where an event leaves a drain. */
  function After(sc: Schedule, at: Place, e: Event): Place {
    Place(at.commands + 1, at.taken + Given(e), at.surplus + sc.Past(at.taken, Given(e)))
  }

  /** A turn makes way for another. */
  predicate GoesOn(sc: Schedule, at: Place, e: Event) {
    !GivesUp(e) && After(sc, at, e).surplus < sc.Limit()
  }

  /** Bytes a drain may still get, but for its last READ. */
  function Room(sc: Schedule, at: Place): nat { sc.Owed(at.taken) + SatSub(sc.Limit(), at.surplus) }

  /** A turn that makes way for another takes what it got off what is owed and what may still be read past the end. */
  lemma TurnTakes(sc: Schedule, at: Place, e: Event)
    requires GoesOn(sc, at, e)
    ensures Room(sc, After(sc, at, e)) + Given(e) == Room(sc, at) && Given(e) >= 1
  {
  }

  /** The READ that comes, and what it is answered. */
  function Turn(sc: Schedule, answers: (nat, nat) -> Answer, at: Place): (e: Event)
    ensures !e.Abort? && e.want == sc.want(at.taken) && Given(e) <= e.want
  {
    ReadEvent(answers, at.commands, sc.want(at.taken))
  }

  /** What a drain asks for and gets. */
  function Drained(sc: Schedule, answers: (nat, nat) -> Answer, at: Place): seq<Event>
    decreases Room(sc, at)
  {
    if !sc.More(at.taken) then []
    else
      var e := Turn(sc, answers, at);
      if !GoesOn(sc, at, e) then [e]
      else (
        TurnTakes(sc, at, e);
        [e] + Drained(sc, answers, After(sc, at, e))
      )
  }

  /** What a drain's next turn asks for and gets, if there is anything to ask for. */
  function TurnOf(sc: Schedule, answers: (nat, nat) -> Answer, at: Place): seq<Event> {
    if sc.More(at.taken) then [Turn(sc, answers, at)] else []
  }

  /** A drain is its next turn, and the turns that makes way for. */
  lemma DrainTurn(sc: Schedule, answers: (nat, nat) -> Answer, at: Place, turn: seq<Event>)
    requires turn == TurnOf(sc, answers, at)
    ensures Drained(sc, answers, at)
         == turn + if turn != [] && GoesOn(sc, at, turn[0]) then Drained(sc, answers, After(sc, at, turn[0])) else []
    ensures turn != [] && GoesOn(sc, at, turn[0]) ==> Room(sc, After(sc, at, turn[0])) < Room(sc, at)
  {
    if turn != [] && GoesOn(sc, at, turn[0]) { TurnTakes(sc, at, turn[0]); }
  }

  /** A drain sends something exactly when something is owed, or may lie past the end. */
  lemma DrainSends(sc: Schedule, answers: (nat, nat) -> Answer, at: Place)
    ensures Drained(sc, answers, at) != [] <==> sc.More(at.taken)
  {
  }

  /**
   * Every READ of it is the one that comes then; and it ends after no more commands
   * than the bytes that are owed or may be read past them, and one.
   */
  lemma {:induction false} DrainIsProper(sc: Schedule, answers: (nat, nat) -> Answer, at: Place)
    requires Fits(sc)
    ensures Proper(sc, at.taken, Drained(sc, answers, at)) && Aborts(Drained(sc, answers, at)) == 0
    ensures |Drained(sc, answers, at)| <= Room(sc, at) + 1
    ensures Got(Drained(sc, answers, at)) <= Room(sc, at) + sc.chunk
    decreases Room(sc, at)
  {
    if sc.More(at.taken) {
      var e := Turn(sc, answers, at);
      OneEvent(e);
      ProperOne(sc, at.taken, e);
      if GoesOn(sc, at, e) {
        var next := After(sc, at, e);
        TurnTakes(sc, at, e);
        DrainIsProper(sc, answers, next);
        ProperSplit(sc, at.taken, [e], Drained(sc, answers, next));
        LogSplit([e], Drained(sc, answers, next));
      }
    }
  }

  /** An event that brings all that was asked for, and something. */
  predicate InFull(e: Event) { e.Read? && e.got == e.want > 0 }

  /** Bytes of the pass and its surplus after a part of a drain. */
  function PastAfter(sc: Schedule, at: Place, log: seq<Event>): int {
    at.surplus + Max(at.taken + Got(log) - Max(sc.total, at.taken), 0)
  }

  /**
   * Why a drain is over: nothing is owed and there are no seams, it has read as far
   * past the end as a pass or a chunk is long, or the unit failed, or gave less than
   * was asked for, or nothing.
   */
  predicate DrainOver(sc: Schedule, at: Place, log: seq<Event>) {
    || (at.taken + Got(log) >= sc.total && !sc.seams)
    || (PastAfter(sc, at, log) >= sc.total && PastAfter(sc, at, log) >= sc.chunk)
    || (log != [] && !InFull(log[|log| - 1]))
  }

  /** Why it is not over before: each READ but the last is answered in full, and leaves more to read. */
  predicate DrainGoesOn(sc: Schedule, at: Place, log: seq<Event>) {
    forall k :: 0 < k < |log| ==> MoreAfter(sc, at, log, k)
  }

  predicate MoreAfter(sc: Schedule, at: Place, log: seq<Event>, k: nat)
    requires 0 < k < |log|
  {
    InFull(log[k - 1]) && !DrainOver(sc, at, log[..k])
  }

  lemma PastTwice(sc: Schedule, at: Place, e: Event, rest: seq<Event>)
    ensures Got([e] + rest) == Given(e) + Got(rest)
    ensures PastAfter(sc, at, [e] + rest) == PastAfter(sc, After(sc, at, e), rest)
  {
    assert ([e] + rest)[1..] == rest;
  }

  /** A drain goes on to its end, and no further. */
  lemma {:induction false} DrainGoesToItsEnd(sc: Schedule, answers: (nat, nat) -> Answer, at: Place)
    requires Fits(sc)
    ensures DrainOver(sc, at, Drained(sc, answers, at)) && DrainGoesOn(sc, at, Drained(sc, answers, at))
    decreases Room(sc, at)
  {
    if sc.More(at.taken) {
      var e := Turn(sc, answers, at);
      PastTwice(sc, at, e, []);
      assert [e] + [] == [e];
      if GoesOn(sc, at, e) {
        var next := After(sc, at, e);
        TurnTakes(sc, at, e);
        DrainGoesToItsEnd(sc, answers, next);
        OneTurnMore(sc, at, e, Drained(sc, answers, next));
      }
    }
  }

  /** A drain with one turn before it. */
  lemma OneTurnMore(sc: Schedule, at: Place, e: Event, rest: seq<Event>)
    requires InFull(e) && GoesOn(sc, at, e) && (rest != [] <==> sc.More(at.taken + e.got))
    requires DrainOver(sc, After(sc, at, e), rest) && DrainGoesOn(sc, After(sc, at, e), rest)
    ensures DrainOver(sc, at, [e] + rest) && DrainGoesOn(sc, at, [e] + rest)
  {
    var log := [e] + rest;
    PastTwice(sc, at, e, rest);
    PastTwice(sc, at, e, []);
    assert rest != [] ==> log[|rest|] == rest[|rest| - 1];
    forall k | 0 < k < |log| ensures MoreAfter(sc, at, log, k) {
      assert log[..k] == [e] + rest[..k - 1];
      PastTwice(sc, at, e, rest[..k - 1]);
      if k > 1 {
        assert MoreAfter(sc, After(sc, at, e), rest, k - 1);
        assert log[k - 1] == rest[k - 2];
        assert log[..k][k - 1] == rest[..k - 1][k - 2];
      } else {
        assert rest[..0] == [] && rest != [];
      }
    }
  }

  /** A stop: one ABORT, and a drain where the unit has none. */
  function StopEvents(sc: Schedule, answers: (nat, nat) -> Answer, stopping: nat -> Stopping, at: Place): seq<Event> {
    [Abort] + if stopping(at.commands).NoAbort? then Drained(sc, answers, at.(commands := at.commands + 1)) else []
  }

  /**
   * A unit that takes the ABORT is sent nothing else, and so is one that fails it;
   * one that has none is read off to the end of a drain.
   */
  lemma StopGoesToItsEnd(sc: Schedule, answers: (nat, nat) -> Answer, stopping: nat -> Stopping, at: Place)
    requires Fits(sc)
    ensures var log := StopEvents(sc, answers, stopping, at);
            && log[0] == Abort
            && (stopping(at.commands) != NoAbort ==> log == [Abort])
            && (stopping(at.commands) == NoAbort ==>
                  && (log[1..] != [] <==> at.taken < sc.total || sc.seams)
                  && DrainOver(sc, at, log[1..]) && DrainGoesOn(sc, at, log[1..]))
  {
    var next := at.(commands := at.commands + 1);
    DrainGoesToItsEnd(sc, answers, next);
    DrainSends(sc, answers, next);
    SamePlace(sc, at, next, StopEvents(sc, answers, stopping, at)[1..]);
  }

  /** The count of commands is not what ends a drain. */
  lemma SamePlace(sc: Schedule, at: Place, next: Place, log: seq<Event>)
    requires next == at.(commands := next.commands)
    ensures DrainOver(sc, at, log) <==> DrainOver(sc, next, log)
    ensures DrainGoesOn(sc, at, log) <==> DrainGoesOn(sc, next, log)
  {
    assert forall k :: 0 < k < |log| ==> (MoreAfter(sc, at, log, k) <==> MoreAfter(sc, next, log, k));
  }

  /** A fill of a pass that is owed something is one READ; of one that is not, a drain for seams. */
  lemma FillGoesToItsEnd(sc: Schedule, answers: (nat, nat) -> Answer, at: Place, spent: bool)
    requires Fits(sc)
    ensures var log := FillEvents(sc, answers, at, spent);
            && (spent ==> log == [])
            && (!spent && at.taken < sc.total ==> |log| == 1 && !log[0].Abort? && log[0].want == sc.want(at.taken))
            && (!spent && at.taken >= sc.total ==>
                  (log != [] <==> sc.seams) && DrainOver(sc, at, log) && DrainGoesOn(sc, at, log))
  {
    DrainGoesToItsEnd(sc, answers, at);
    DrainSends(sc, answers, at);
  }

  lemma StopIsProper(sc: Schedule, answers: (nat, nat) -> Answer, stopping: nat -> Stopping, at: Place)
    requires Fits(sc)
    ensures Proper(sc, at.taken, StopEvents(sc, answers, stopping, at))
    ensures Aborts(StopEvents(sc, answers, stopping, at)) == 1
    ensures Got(StopEvents(sc, answers, stopping, at)) <= Room(sc, at) + sc.chunk
  {
    var next := at.(commands := at.commands + 1);
    var rest := if stopping(at.commands).NoAbort? then Drained(sc, answers, next) else [];
    DrainIsProper(sc, answers, next);
    OneEvent(Abort);
    ProperOne(sc, at.taken, Abort);
    ProperSplit(sc, at.taken, [Abort], rest);
    LogSplit([Abort], rest);
  }

  /** A fill: the READ that comes, where anything is owed, and otherwise the seams, where there may be any. */
  function FillEvents(sc: Schedule, answers: (nat, nat) -> Answer, at: Place, spent: bool): seq<Event> {
    if spent then []
    else if sc.Owed(at.taken) > 0 then [Turn(sc, answers, at)]
    else Drained(sc, answers, at)
  }

  lemma FillIsProper(sc: Schedule, answers: (nat, nat) -> Answer, at: Place, spent: bool)
    requires Fits(sc)
    ensures Proper(sc, at.taken, FillEvents(sc, answers, at, spent)) && Aborts(FillEvents(sc, answers, at, spent)) == 0
    ensures sc.Owed(at.taken) > 0 ==> Got(FillEvents(sc, answers, at, spent)) <= sc.chunk
    ensures sc.Owed(at.taken) == 0 ==> Got(FillEvents(sc, answers, at, spent)) <= sc.Limit() + sc.chunk
  {
    var e := Turn(sc, answers, at);
    OneEvent(e);
    if sc.Owed(at.taken) > 0 { ProperOne(sc, at.taken, e); }
    DrainIsProper(sc, answers, at);
  }

  /** The unit at the other end. Its answers are arbitrary, by command and by length asked for. */
  class Unit {
    const answers: (nat, nat) -> Answer
    const stopping: nat -> Stopping
    var commands: nat
    /** One event a command */
    ghost var log: seq<Event>

    constructor (answers: (nat, nat) -> Answer, stopping: nat -> Stopping)
      ensures log == [] && commands == 0 && this.answers == answers && this.stopping == stopping
    {
      this.answers, this.stopping := answers, stopping;
      log, commands := [], 0;
    }

    /** One READ into a buffer of `want` bytes. */
    method ReadImage(want: nat) returns (a: Answer)
      requires commands == |log|
      modifies this
      ensures commands == |log| && a == Reply(answers, old(commands), want)
      ensures log == old(log) + [ReadEvent(answers, old(commands), want)]
      ensures Got(log) == Got(old(log)) + if a.Gave? then a.bytes else 0
    {
      a := Reply(answers, commands, want);
      LogSplit(log, [Logged(want, a)]);
      OneEvent(Logged(want, a));
      log, commands := log + [Logged(want, a)], commands + 1;
    }

    method AbortScan() returns (s: Stopping)
      requires commands == |log|
      modifies this
      ensures commands == |log| && s == stopping(old(commands))
      ensures log == old(log) + [Abort] && Got(log) == Got(old(log))
    {
      s := stopping(commands);
      LogSplit(log, [Abort]);
      OneEvent(Abort);
      log, commands := log + [Abort], commands + 1;
    }
  }

  /** What `fill` hands back. */
  datatype Filled = Spent | Filled(got: nat) | Broken

  /** A whole line, or else one reading of a line, where a line is too large for one READ. */
  function Fitted(line: Granules, readings: Granules, most: nat): Granules {
    if Widest(line) > most then readings else line
  }

  /** The granules of a pass and the most one READ may ask for, or nothing where no READ could carry one. */
  function ChunkSize(l: Layout, maxTransfer: nat, scsiBuffer: Option<nat>, preferred: nat, requiresGranules: bool)
    : (r: Option<(Granules, nat)>)
    ensures r.Some? ==> Widest(r.value.0) <= r.value.1 <= maxTransfer
    ensures r.Some? && scsiBuffer.Some? ==> r.value.1 <= scsiBuffer.value
  {
    var most := match scsiBuffer case Some(limit) => Min(maxTransfer, limit) case None => maxTransfer;
    var g := if requiresGranules then l.granules else Fitted(l.granules, l.ReadingGranules(), most);
    if Widest(g) > most then None else Some((g, Min(Max(Widest(g), preferred), most)))
  }

  /**
   * A unit that names no line bit is refused exactly when one READ can carry
   * neither a line nor a reading of one.
   */
  lemma RefusedOnlyWhenNothingFits(l: Layout, maxTransfer: nat, scsiBuffer: Option<nat>, preferred: nat)
    ensures var most := match scsiBuffer case Some(limit) => Min(maxTransfer, limit) case None => maxTransfer;
            ChunkSize(l, maxTransfer, scsiBuffer, preferred, false) == None
            <==> Widest(l.granules) > most && Widest(l.ReadingGranules()) > most
  {
  }

  /**
   * A READ ends on lines wherever one can carry a line, and on readings only where it
   * cannot and the unit does not say otherwise. A chunk is as large as is preferred,
   * but that it carries a granule at least, and no more than a transfer.
   */
  lemma ChunkCarries(l: Layout, maxTransfer: nat, scsiBuffer: Option<nat>, preferred: nat, requiresGranules: bool)
    ensures var most := if scsiBuffer.Some? && scsiBuffer.value < maxTransfer then scsiBuffer.value else maxTransfer;
            var lines := requiresGranules || Widest(l.granules) <= most;
            var g := if lines then l.granules else l.ReadingGranules();
            var r := ChunkSize(l, maxTransfer, scsiBuffer, preferred, requiresGranules);
            && (r == None <==> Widest(g) > most)
            && (r.Some? ==>
                  && r.value.0 == g && Widest(g) <= r.value.1 <= most
                  && (r.value.1 < preferred ==> r.value.1 == most)
                  && (r.value.1 > preferred ==> r.value.1 == Widest(g)))
  {
  }

  class Chunks {
    const unit: Unit
    /** The granules of the pass, its bytes, whether seams may lie past its end, and the most one chunk can be */
    const pass: Pass
    var remaining: nat
    /** Where in a line the next byte falls */
    var at: nat
    /** No chunk will follow */
    var spent: bool
    /** The scan has ended, or has been stopped */
    var closed: bool
    /** What a drain has had of the unit beyond the end of the pass */
    var surplus: nat
    /** Bytes the unit had given before this pass */
    ghost const before: nat
    /** The lengths `pass` asks for */
    ghost const plan: Schedule

    /** Bytes of this pass the unit has given. */
    ghost function Taken(): int
      reads this, unit
    {
      Got(unit.log) - before
    }

    /** The fields say where the stream has got. */
    ghost predicate Located()
      reads this, unit
    {
      && pass.Ready() && Follows(plan, pass) && unit.commands == |unit.log|
      && Taken() >= 0 && at == Advance(pass.granules, 0, Taken()) && remaining == SatSub(pass.total, Taken())
    }

    /** Where a drain would begin. */
    ghost function Now(): Place
      requires Located()
      reads this, unit
    {
      Place(|unit.log|, Taken(), surplus)
    }

    ghost predicate Valid()
      reads this, unit
    {
      && Located()
      && (!spent ==> OnBoundary(pass.granules, at))
      && (closed ==> spent)
      && (!closed ==> surplus == 0)
    }

    constructor (unit: Unit, pass: Pass)
      requires pass.Ready() && unit.commands == |unit.log|
      ensures Valid() && Taken() == 0 && Follows(plan, pass) && !spent && !closed
      ensures this.unit == unit && this.pass == pass
    {
      this.unit, this.pass := unit, pass;
      remaining, at, spent, closed, surplus := pass.total, 0, false, false, 0;
      before := Got(unit.log);
      plan := ScheduleOf(pass);
      DivModUnique(0, pass.granules.line, 0, 0);
    }

    /** The length of the READ that comes, `left` being what there is to ask for. */
    method NextWant(left: nat) returns (want: nat)
      requires Located() && left == if remaining == 0 then pass.chunk else remaining
      ensures want == plan.want(Taken()) && 1 <= want <= pass.chunk
      ensures OnBoundary(pass.granules, at) ==> OnBoundary(pass.granules, Advance(pass.granules, at, want))
    {
      WantFits(pass, Taken());
      if OnBoundary(pass.granules, at) { TakeIsRight(pass.granules, at, left, pass.chunk); }
      want := Take(pass.granules, at, left, pass.chunk);
    }

    /** One READ, and where it leaves the stream. */
    method Ask(want: nat) returns (a: Answer)
      requires Located()
      modifies this`at, this`remaining, unit
      ensures Located() && a == Reply(unit.answers, |old(unit.log)|, want)
      ensures unit.log == old(unit.log) + [ReadEvent(unit.answers, |old(unit.log)|, want)]
      ensures Taken() == old(Taken()) + (if a.Gave? then a.bytes else 0)
      ensures at == Advance(pass.granules, old(at), if a.Gave? then a.bytes else 0)
    {
      ghost var taken := Taken();
      a := unit.ReadImage(want);
      var got := if a.Gave? then a.bytes else 0;
      AdvanceTwice(pass.granules, 0, taken, got);
      at := Advance(pass.granules, at, got);
      remaining := SatSub(remaining, got);
    }

    /** Fill a buffer with the next chunk: one READ of the scheduled length, where the pass owes anything. */
    method Fill() returns (r: Filled)
      requires Valid()
      modifies this, unit
      ensures Valid()
      ensures unit.log == old(unit.log) + FillEvents(plan, unit.answers, old(Now()), old(spent))
      ensures old(spent) ==> r == Spent && spent && closed == old(closed)
      ensures !old(spent) && old(remaining) == 0 ==> r == Spent && closed
      ensures !old(spent) && old(remaining) > 0 ==>
                AfterRead(plan.want(old(Taken())), r, Reply(unit.answers, |old(unit.log)|, plan.want(old(Taken()))))
    {
      if spent {
        return Spent;
      }
      if remaining == 0 {
        if pass.seams {
          Drain();
        } else {
          spent, closed := true, true;
        }
        return Spent;
      }
      var want := NextWant(remaining);
      var a := Ask(want);
      match a {
        case Failed =>
          spent := true;
          r := Broken;
        case Gave(got) =>
          if got == 0 {
            spent := true;
            return Spent;
          }
          if got < want {
            spent := true;
          }
          r := Filled(got);
      }
    }

    /** What a fill hands out for a reply to a READ of `want`, and whether more will follow. */
    ghost predicate AfterRead(want: nat, r: Filled, reply: Answer)
      reads this
    {
      && !closed
      && match reply {
           case Failed => r == Broken && spent
           case Gave(got) =>
             r == (if got == 0 then Spent else Filled(got)) && (spent <==> got == 0 || got < want)
         }
    }

    /** Stop the scan, reading the rest off where the unit has no ABORT. */
    method Stop()
      requires Valid() && closed
      modifies this, unit
      ensures Valid() && closed
      ensures unit.log == old(unit.log) + StopEvents(plan, unit.answers, unit.stopping, old(Now()))
    {
      ghost var at := Now().(commands := |unit.log| + 1);
      var s := unit.AbortScan();
      if s.NoAbort? {
        assert Now() == at;
        Drain();
        Assoc(old(unit.log), [Abort], Drained(plan, unit.answers, at));
      }
    }

    /** Read off whatever the unit still holds. */
    method Drain()
      requires Valid()
      modifies this, unit
      ensures Valid() && spent && closed
      ensures unit.log == old(unit.log) + Drained(plan, unit.answers, old(Now()))
    {
      spent, closed := true, true;
      var limit := Max(pass.total, pass.chunk);
      ghost var all := Drained(plan, unit.answers, Now());
      ghost var did, rest: seq<Event> := [], all;
      var more := true;
      while more
        invariant Valid() && spent && closed
        invariant unit.log == old(unit.log) + did
        invariant did + rest == all && rest == if more then Drained(plan, unit.answers, Now()) else []
        decreases more, Room(plan, Now())
      {
        ghost var now, turn := Now(), [];
        more, turn := DrainOnce(limit);
        DrainTurn(plan, unit.answers, now, turn);
        rest := if more then Drained(plan, unit.answers, Now()) else [];
        Assoc(did, turn, rest);
        Assoc(old(unit.log), did, turn);
        did := did + turn;
      }
    }

    /** One turn of `Drain`, answering whether there is cause for another. */
    method DrainOnce(limit: nat) returns (more: bool, ghost did: seq<Event>)
      requires Valid() && spent && closed && limit == plan.Limit()
      modifies this`at, this`remaining, this`surplus, unit
      ensures Valid() && unit.log == old(unit.log) + did
      ensures did == TurnOf(plan, unit.answers, old(Now()))
      ensures more == (did != [] && GoesOn(plan, old(Now()), did[0]))
      ensures did != [] ==> Now() == After(plan, old(Now()), did[0])
    {
      if remaining == 0 && !pass.seams {
        return false, [];
      }
      var left := if remaining == 0 then pass.chunk else remaining;
      var want := NextWant(left);
      did := [Turn(plan, unit.answers, Now())];
      var owed := remaining;
      var a := Ask(want);
      var got := if a.Gave? then a.bytes else 0;
      surplus := surplus + (got - Min(got, owed));
      more := a.Gave? && got != 0 && got >= want && surplus < limit;
    }

    /** Every route out of a pass: stop the scan unless it is over. */
    method Drop()
      requires Valid()
      modifies this, unit
      ensures Valid() && closed
      ensures unit.log == old(unit.log)
                + if old(closed) then [] else StopEvents(plan, unit.answers, unit.stopping, old(Now()))
    {
      if closed {
        return;
      }
      spent, closed := true, true;
      Stop();
    }

    /**
     * Any run of a pass at all: fill it some number of times, drop it, and do
     * either again. One stop at most is issued, none to a pass that is closed,
     * and a closed pass sends nothing more. Every READ is the one that comes by what
     * was given before it, and however the run goes the unit gives no more than is
     * owed, a chunk over, and what a drain may read past the end.
     */
    method Run(drops: seq<bool>) returns (ghost did: seq<Event>)
      requires Valid()
      modifies this, unit
      ensures Valid() && unit.log == old(unit.log) + did
      ensures old(closed) ==> closed && did == []
      ensures Proper(plan, old(Taken()), did)
      ensures Got(did) <= old(remaining) + plan.Limit() + 2 * pass.chunk
      ensures Aborts(did) <= 1 && (Aborts(did) == 1 ==> closed)
      ensures forall i :: 0 <= i < |drops| && drops[i] ==> closed
    {
      did := [];
      for k := 0 to |drops|
        invariant Valid() && unit.log == old(unit.log) + did && Taken() == old(Taken()) + Got(did)
        invariant old(closed) ==> closed && did == []
        invariant Proper(plan, old(Taken()), did)
        invariant Got(did) <= old(remaining) + plan.Limit() + 2 * pass.chunk
        invariant !closed ==> Got(did) + remaining <= old(remaining) + Over(remaining)
        invariant Aborts(did) == 0 || (Aborts(did) == 1 && closed)
        invariant forall i :: 0 <= i < k && drops[i] ==> closed
      {
        ghost var more := FillOrDrop(drops[k]);
        ProperSplit(plan, old(Taken()), did, more);
        LogSplit(did, more);
        Assoc(old(unit.log), did, more);
        did := did + more;
      }
    }

    /** How much a pass that owes `left` may have been given over. */
    function Over(left: nat): nat { if left == 0 then pass.chunk else 0 }

    method FillOrDrop(drop: bool) returns (ghost did: seq<Event>)
      requires Valid()
      modifies this, unit
      ensures Valid() && unit.log == old(unit.log) + did && Taken() == old(Taken()) + Got(did)
      ensures Proper(plan, old(Taken()), did)
      ensures old(closed) ==> closed && did == []
      ensures drop ==> closed
      ensures Aborts(did) == 0 || (Aborts(did) == 1 && closed)
      ensures !closed ==> Got(did) + remaining + Over(old(remaining)) <= old(remaining) + Over(remaining)
      ensures Got(did) <= old(remaining) + plan.Limit() + pass.chunk
    {
      FollowsFits(plan, pass);
      if drop {
        did := if closed then [] else StopEvents(plan, unit.answers, unit.stopping, Now());
        StopIsProper(plan, unit.answers, unit.stopping, Now());
        Drop();
      } else {
        did := FillEvents(plan, unit.answers, Now(), spent);
        FillIsProper(plan, unit.answers, Now(), spent);
        var r := Fill();
      }
      LogSplit(old(unit.log), did);
    }

    /**
     * A pass whose unit answers every READ in full is read in the lengths of
     * `Reads`, to its end, and then in others only where there are seams to read.
     */
    method ReadOut() returns (sizes: seq<nat>, ghost did: seq<Event>)
      requires Valid() && !spent
      requires forall n, want :: unit.answers(n, want) == Gave(want)
      modifies this, unit
      ensures Valid() && closed && unit.log == old(unit.log) + did
      ensures sizes == ReadsFrom(pass, old(Taken()))
      ensures sizes <= Wants(did) && (!pass.seams ==> Wants(did) == sizes)
    {
      sizes, did := [], [];
      while true
        invariant Valid() && !closed && !spent
        invariant unit.log == old(unit.log) + did && Wants(did) == sizes
        invariant sizes + ReadsFrom(pass, Taken()) == ReadsFrom(pass, old(Taken()))
        decreases remaining
      {
        ghost var more := FillEvents(plan, unit.answers, Now(), spent);
        WantsSplit(did, more);
        OneEvent(Turn(plan, unit.answers, Now()));
        ReadsNext(pass, Taken());
        var r := FillInFull();
        Assoc(old(unit.log), did, more);
        did := did + more;
        if r.Filled? {
          Assoc(sizes, [r.got], ReadsFrom(pass, Taken()));
          sizes := sizes + [r.got];
        } else {
          assert sizes + [] == sizes;
          break;
        }
      }
    }

    /** One fill of such a pass: the scheduled length where anything is owed, and otherwise its end. */
    method FillInFull() returns (r: Filled)
      requires Valid() && !spent
      requires forall n, want :: unit.answers(n, want) == Gave(want)
      modifies this, unit
      ensures Valid()
      ensures unit.log == old(unit.log) + FillEvents(plan, unit.answers, old(Now()), false)
      ensures old(remaining) == 0 ==> r == Spent && closed
      ensures old(remaining) > 0 ==>
                && r == Filled(plan.want(old(Taken()))) && !spent && !closed
                && Taken() == old(Taken()) + plan.want(old(Taken()))
    {
      LogSplit(unit.log, FillEvents(plan, unit.answers, Now(), false));
      OneEvent(Turn(plan, unit.answers, Now()));
      r := Fill();
    }
  }

  /** The READs of a pass, each answered in full, once `taken` bytes are given. */
  function ReadsFrom(p: Pass, taken: nat): seq<nat>
    requires p.Ready() && OnBoundary(p.granules, Advance(p.granules, 0, taken))
  {
    Reads(p.granules, p.chunk, Advance(p.granules, 0, taken), SatSub(p.total, taken))
  }

  /** They are the one that comes, and those that come once it is answered. */
  lemma ReadsNext(p: Pass, taken: nat)
    requires p.Ready() && OnBoundary(p.granules, Advance(p.granules, 0, taken))
    ensures taken >= p.total ==> ReadsFrom(p, taken) == []
    ensures taken < p.total ==>
              && p.Want(taken) >= 1 && OnBoundary(p.granules, Advance(p.granules, 0, taken + p.Want(taken)))
              && ReadsFrom(p, taken) == [p.Want(taken)] + ReadsFrom(p, taken + p.Want(taken))
  {
    WantFits(p, taken);
    if taken < p.total {
      TakeIsRight(p.granules, Advance(p.granules, 0, taken), p.total - taken, p.chunk);
      AdvanceTwice(p.granules, 0, taken, p.Want(taken));
    }
  }

  /**
   * Whatever the position, what is asked for fits, is something where anything is
   * owed, and passes it by less than a granule.
   */
  lemma {:induction false} TakeFits(g: Granules, at: nat, left: nat, budget: nat)
    requires Positive(g)
    ensures TakeLengths(g, at, left, budget) <= budget
    ensures left > 0 && budget >= Widest(g) ==> TakeLengths(g, at, left, budget) > 0
    ensures left > 0 ==> TakeLengths(g, at, left, budget) < left + Widest(g)
    decreases left
  {
    var unit := NextLength(g, at);
    if left > 0 && unit <= budget {
      TakeFits(g, Advance(g, at, unit), SatSub(left, unit), budget - unit);
    }
  }
}
