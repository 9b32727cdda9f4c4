/**
 * Running one command to its end against a unit that may answer anything, and
 * take any time over it: poll while it works, refresh when its state changes,
 * do the jobs it asks the host for, and give up rather than go on for ever.
 */
module Handshake {
  import opened Wrappers
  import opened Arith

  const MAX_COOPERATION: nat := 16
  const MAX_CHANGES: nat := 16
  const POLL_INTERVAL: nat := 100

  /** A job asked for, and the record that describes it. */
  type Job = nat
  type Record = nat

  datatype Outcome =
    | Complete
    | CompleteWith
    | NeedsHost(job: Job)
    | Working
    | StateChanged
    | Terminal
    | Lost

  /** What a handshake did, in order. */
  datatype Event =
    | Round
    | Issued(at: nat, outcome: Outcome)
    | Slept
    | Refreshed(good: bool)
    | Asked(job: Job, record: Record)
    | Unread(job: Job)

  datatype Fault =
    | TimedOut
    | Transport
    | Refused
    | Unsettled
    | RefreshFailed
    | NoRecord
    | TwiceOver
    | TooManyJobs

  /** What a log comes to. */
  datatype Tally = Tally(polls: nat, attentions: nat, rounds: nat, jobs: seq<(Job, Record)>, issuedBefore: nat,
                         pending: Option<Job>, served: bool) {
    function Plus(e: Event): Tally {
      match e
      case Round => Idle().(rounds := rounds + 1)
      case Issued(at, o) =>
        Idle().(polls := polls + (if o.Working? then 1 else 0),
                attentions := attentions + (if o.StateChanged? then 1 else 0),
                issuedBefore := Max(issuedBefore, at + 1),
                pending := if o.NeedsHost? then Some(o.job) else None)
      case Asked(job, record) => Serving(job).(jobs := jobs + [(job, record)])
      case Unread(job) => Serving(job)
      case _ => Idle()
    }

    /** Something else than reading the record of a job, which leaves a job that was pending unserved. */
    function Idle(): Tally { this.(pending := None, served := served && pending.None?) }

    /** Reading the record of a job, which has to be the one that was asked for just before. */
    function Serving(job: Job): Tally {
      this.(pending := None, served := served && pending == Some(job))
    }
  }

  /**
   * How often a command was issued and found the unit working on it, how often
   * the unit's state had changed, how many calls were made at it, the jobs the
   * host was asked to do, in order, the time every command was issued before, the
   * job the last answer asked for, and whether each was the next one served.
   */
  function Count(log: seq<Event>): Tally {
    if log == [] then Tally(0, 0, 0, [], 0, None, true)
    else Count(log[..|log| - 1]).Plus(log[|log| - 1])
  }

  /** What is issued before a deadline is every command. */
  lemma {:induction false} IssuedInTime(log: seq<Event>, deadline: nat)
    ensures Count(log).issuedBefore <= deadline
       <==> forall k :: 0 <= k < |log| && log[k].Issued? ==> log[k].at < deadline
  {
    if log != [] {
      var last := |log| - 1;
      IssuedInTime(log[..last], deadline);
      assert forall k :: 0 <= k < last ==> log[..last][k] == log[k];
    }
  }

  /** The job an event asks the host for, and the one whose record it reads. */
  function Needed(e: Event): Option<Job> {
    if e.Issued? && e.outcome.NeedsHost? then Some(e.outcome.job) else None
  }

  function ServedBy(e: Event): Option<Job> {
    match e case Asked(job, _) => Some(job) case Unread(job) => Some(job) case _ => None
  }

  /**
   * What the tally says of the jobs is so of the log: a record is read directly after
   * an answer that asks for its job, and nothing else comes between.
   */
  lemma {:induction false} ServedInTurn(log: seq<Event>)
    ensures Count(log).pending == if log == [] then None else Needed(log[|log| - 1])
    ensures Count(log).served <==>
              && (log != [] ==> ServedBy(log[0]) == None)
              && forall k :: 0 < k < |log| ==> ServedBy(log[k]) == Needed(log[k - 1])
  {
    if log != [] {
      var last := |log| - 1;
      ServedInTurn(log[..last]);
      assert forall k :: 0 <= k < last ==> log[..last][k] == log[k];
    }
  }

  function Last(log: seq<Event>): Option<Event> {
    if log == [] then None else Some(log[|log| - 1])
  }

  /** What the last event says a call has come to, where it says so. */
  function Says(last: Option<Event>): Option<Result<Option<Job>, Fault>> {
    if last.None? then None
    else match last.value
      case Issued(_, Complete) => Some(Ok(None))
      case Issued(_, CompleteWith) => Some(Ok(None))
      case Issued(_, NeedsHost(job)) => Some(Ok(Some(job)))
      case Issued(_, Terminal) => Some(Err(Refused))
      case Issued(_, Lost) => Some(Err(Transport))
      case Refreshed(false) => Some(Err(RefreshFailed))
      case _ => None
  }

  lemma OneMore(log: seq<Event>, e: Event)
    ensures Count(log + [e]) == Count(log).Plus(e)
  {
    var after := log + [e];
    assert after[..|after| - 1] == log;
  }

  /** The unit, its link and the clock. Every answer and every delay is arbitrary. */
  class Link {
    const outcomes: nat -> Outcome
    const delays: nat -> nat
    const refreshes: nat -> bool
    const records: nat -> Option<Record>
    var now: nat
    /** Answers given so far, which is what the next one depends on */
    var turns: nat
    ghost var log: seq<Event>
    /** What the log comes to, and its last event */
    ghost var tally: Tally
    ghost var last: Option<Event>

    ghost predicate Valid()
      reads this
    {
      tally == Count(log) && last == Last(log)
    }

    constructor (outcomes: nat -> Outcome, delays: nat -> nat, refreshes: nat -> bool, records: nat -> Option<Record>)
      ensures Valid() && log == []
    {
      this.outcomes, this.delays, this.refreshes, this.records := outcomes, delays, refreshes, records;
      now, turns, log, tally, last := 0, 0, [], Count([]), None;
    }

    method Execute() returns (o: Outcome)
      requires Valid()
      modifies this
      ensures Valid() && log == old(log) + [Issued(old(now), o)]
      ensures o == outcomes(old(turns)) && turns == old(turns) + 1 && now >= old(now)
      ensures tally == old(tally).Plus(Issued(old(now), o)) && last == Some(Issued(old(now), o))
    {
      o := outcomes(turns);
      Note(Issued(now, o));
      now := now + delays(turns);
      turns := turns + 1;
    }

    method Sleep()
      requires Valid()
      modifies this
      ensures Valid() && log == old(log) + [Slept]
      ensures now >= old(now) + POLL_INTERVAL && tally == old(tally).Idle() && last == Some(Slept)
    {
      now := now + POLL_INTERVAL + delays(turns);
      turns := turns + 1;
      Note(Slept);
    }

    method Refresh() returns (good: bool)
      requires Valid()
      modifies this
      ensures Valid() && log == old(log) + [Refreshed(good)]
      ensures now >= old(now) && tally == old(tally).Idle() && last == Some(Refreshed(good))
    {
      good := refreshes(turns);
      now := now + delays(turns);
      turns := turns + 1;
      Note(Refreshed(good));
    }

    /** Read the record of a job: a command of its own, on a budget of its own. */
    method Cooperation(job: Job) returns (record: Option<Record>)
      requires Valid()
      modifies this
      ensures Valid() && now >= old(now)
      ensures last == Some(if record.Some? then Asked(job, record.value) else Unread(job))
      ensures log == old(log) + [last.value] && tally == old(tally).Plus(last.value)
    {
      record := records(turns);
      now := now + delays(turns);
      turns := turns + 1;
      Note(if record.Some? then Asked(job, record.value) else Unread(job));
    }

    ghost method Note(e: Event)
      requires Valid()
      modifies this`log, this`tally, this`last
      ensures Valid() && log == old(log) + [e] && tally == old(tally).Plus(e) && last == Some(e)
    {
      OneMore(log, e);
      log, tally, last := log + [e], tally.Plus(e), Some(e);
    }
  }

  /** What polling since `start` has cost: an interval each, and each begun before the deadline. */
  predicate PollsPaid(polls: nat, start: nat, now: nat, timeout: nat) {
    polls * 100 <= now - start && polls <= DivCeil(timeout, 100)
  }

  lemma OnePollMore(polls: nat, start: nat, now: nat, later: nat, timeout: nat)
    requires PollsPaid(polls, start, now, timeout) && now < start + timeout
    requires later >= now + POLL_INTERVAL
    ensures PollsPaid(polls + 1, start, later, timeout)
  {
    var q := DivCeil(timeout, POLL_INTERVAL);
    if polls + 1 > q {
      MulMono(q, polls, POLL_INTERVAL);
      assert false;
    }
  }

  /** What every command issued since `start` on a budget of `timeout` has kept to. */
  predicate Bounded(tally: Tally, start: nat, now: nat, timeout: nat) {
    start <= now && PollsPaid(tally.polls, start, now, timeout) && tally.issuedBefore <= start + timeout
  }

  /** What one call at a command adds to what was asked before it. */
  predicate OneCall(before: Tally, after: Tally) {
    && after.rounds == before.rounds && after.jobs == before.jobs
    && after.attentions <= before.attentions + MAX_CHANGES
    && (before.pending.None? ==> after.served == before.served)
  }

  /** The last thing that happened is that the unit was given time, or the state it changed was read. */
  predicate Waits(last: Option<Event>) {
    last == Some(Slept) || last == Some(Refreshed(true))
  }

  /** A call comes to what the last answer says; where nothing says so, it ran out of time or of patience. */
  predicate CallEnds(still: bool, last: Option<Event>, r: Result<Option<Job>, Fault>) {
    if r == Err(Unsettled) || r == Err(TimedOut) then still || Waits(last)
    else Says(last) == Some(r)
  }

  /** One call at a command: what comes of it needs the host, or nothing more. */
  method RunCooperative(link: Link, start: nat, timeout: nat) returns (r: Result<Option<Job>, Fault>)
    requires link.Valid() && Bounded(link.tally, start, link.now, timeout)
    modifies link
    ensures link.Valid() && link.now >= old(link.now) && Bounded(link.tally, start, link.now, timeout)
    ensures OneCall(old(link.tally), link.tally)
    ensures CallEnds(link.log == old(link.log), link.last, r)
    ensures old(link.tally).pending.None? ==> link.tally.pending == if r.Ok? then r.value else None
    ensures r == Err(Unsettled) ==> link.tally.attentions == old(link.tally).attentions + MAX_CHANGES
    ensures r == Err(TimedOut) ==>
              link.now >= start + timeout && link.tally.attentions < old(link.tally).attentions + MAX_CHANGES
  {
    var deadline := start + timeout;
    var changes := 0;
    while true
      invariant changes < MAX_CHANGES
      invariant link.Valid() && link.now >= old(link.now) && Bounded(link.tally, start, link.now, timeout)
      invariant OneCall(old(link.tally), link.tally)
      invariant link.tally.attentions == old(link.tally).attentions + changes
      invariant link.log == old(link.log) || Waits(link.last)
      invariant old(link.tally).pending.None? ==> link.tally.pending.None?
      decreases MAX_CHANGES - changes, deadline - link.now
    {
      var left := SatSub(deadline, link.now);
      if left == 0 {
        return Err(TimedOut);
      }
      ghost var polls, now := link.tally.polls, link.now;
      var o := link.Execute();
      match o {
        case Complete => return Ok(None);
        case CompleteWith => return Ok(None);
        case NeedsHost(job) => return Ok(Some(job));
        case Working =>
          link.Sleep();
          OnePollMore(polls, start, now, link.now, timeout);
        case StateChanged =>
          var good := link.Refresh();
          if !good {
            return Err(RefreshFailed);
          }
          changes := changes + 1;
          if changes >= MAX_CHANGES {
            return Err(Unsettled);
          }
        case Terminal => return Err(Refused);
        case Lost => return Err(Transport);
      }
    }
  }

  /**
   * How a handshake ends, by the last thing that happened. It succeeds exactly where
   * that was the command, and the command ran; it fails for what the unit or the
   * link did exactly where that was the last thing they did.
   */
  predicate Ends(last: Option<Event>, r: Result<seq<Record>, Fault>) {
    && last.Some?
    && match last.value
       case Asked(_, _) => r == Err(TwiceOver) || r == Err(TooManyJobs)
       case Unread(_) => r == Err(NoRecord)
       case _ =>
         match Says(last)
         case Some(Ok(None)) => r.Ok?
         case Some(Ok(Some(_))) => false
         case Some(Err(fault)) => r == Err(fault)
         case None => r == Err(Unsettled) || r == Err(TimedOut)
  }

  /** Each way a handshake ends, and the one last event, or the two, that it ends so after. */
  lemma HowItEnds(last: Option<Event>, r: Result<seq<Record>, Fault>)
    requires Ends(last, r)
    ensures r.Ok? <==> last.value.Issued? && (last.value.outcome.Complete? || last.value.outcome.CompleteWith?)
    ensures r == Err(Refused) <==> last.value.Issued? && last.value.outcome.Terminal?
    ensures r == Err(Transport) <==> last.value.Issued? && last.value.outcome.Lost?
    ensures r == Err(RefreshFailed) <==> last.value == Refreshed(false)
    ensures r == Err(NoRecord) <==> last.value.Unread?
    ensures r == Err(TwiceOver) || r == Err(TooManyJobs) <==> last.value.Asked?
    ensures r == Err(TimedOut) || r == Err(Unsettled) <==>
              || last.value in {Round, Slept, Refreshed(true)}
              || (last.value.Issued? && (last.value.outcome.Working? || last.value.outcome.StateChanged?))
  {
  }

  /** Of a log's events, how many are of a kind. */
  function HowMany(log: seq<Event>, kind: Event -> bool): nat {
    if log == [] then 0 else (if kind(log[0]) then 1 else 0) + HowMany(log[1..], kind)
  }

  lemma {:induction false} OneMoreOf(log: seq<Event>, e: Event, kind: Event -> bool)
    ensures HowMany(log + [e], kind) == HowMany(log, kind) + if kind(e) then 1 else 0
  {
    if log == [] {
      assert [e][1..] == [];
    } else {
      assert (log + [e])[1..] == log[1..] + [e];
      OneMoreOf(log[1..], e, kind);
    }
  }

  /** What a tally counts. */
  lemma {:induction false} TallyCounts(log: seq<Event>, working: Event -> bool, changed: Event -> bool,
                                       round: Event -> bool, asked: Event -> bool)
    requires forall e :: working(e) <==> e.Issued? && e.outcome == Working
    requires forall e :: changed(e) <==> e.Issued? && e.outcome == StateChanged
    requires forall e :: (round(e) <==> e == Round) && (asked(e) <==> e.Asked?)
    ensures Count(log).polls == HowMany(log, working) && Count(log).attentions == HowMany(log, changed)
    ensures Count(log).rounds == HowMany(log, round) && |Count(log).jobs| == HowMany(log, asked)
    ensures forall i :: 0 <= i < |log| && log[i].Asked? ==>
              var n := HowMany(log[..i], asked);
              n < |Count(log).jobs| && Count(log).jobs[n] == (log[i].job, log[i].record)
  {
    if log != [] {
      var last := |log| - 1;
      TallyCounts(log[..last], working, changed, round, asked);
      assert log == log[..last] + [log[last]];
      OneMoreOf(log[..last], log[last], working);
      OneMoreOf(log[..last], log[last], changed);
      OneMoreOf(log[..last], log[last], round);
      OneMoreOf(log[..last], log[last], asked);
      assert forall i :: 0 <= i < last ==> log[..last][i] == log[i] && log[..last][..i] == log[..i];
    }
  }

  /** No job is asked for twice in a row. */
  predicate NoRepeat(jobs: seq<(Job, Record)>) {
    forall k :: 0 < k < |jobs| ==> jobs[k - 1] != jobs[k]
  }

  /** The last job asked for is the one before it, and the only such. */
  predicate RepeatedAtOnce(jobs: seq<(Job, Record)>) {
    var n := |jobs|;
    n >= 2 && jobs[n - 2] == jobs[n - 1] && NoRepeat(jobs[..n - 1])
  }

  /** The records are those of the jobs asked for, in order, and no two in a row are the same. */
  predicate Answered(records: seq<Record>, jobs: seq<(Job, Record)>) {
    |records| == |jobs| && (forall k :: 0 <= k < |records| ==> records[k] == jobs[k].1) && NoRepeat(jobs)
  }

  lemma AnsweredOneMore(records: seq<Record>, jobs: seq<(Job, Record)>, asked: (Job, Record))
    requires Answered(records, jobs)
    ensures (jobs != [] && jobs[|jobs| - 1] == asked) || Answered(records + [asked.1], jobs + [asked])
  {
    var more := jobs + [asked];
    assert forall k :: 0 <= k < |jobs| ==> more[k] == jobs[k];
  }

  /**
   * Issue a command until it has run, doing what the unit asks for. Whatever the
   * unit answers, and however long it takes, this ends.
   */
  method RunHandshake(link: Link, timeout: nat) returns (r: Result<seq<Record>, Fault>)
    requires link.Valid() && link.log == []
    modifies link
    ensures link.Valid() && Bounded(link.tally, old(link.now), link.now, timeout)
    ensures link.tally.rounds <= 17 && link.tally.attentions <= link.tally.rounds * 16
    ensures Ends(link.last, r)
    // Every job whose record is read is the one the answer before it asked for, and every one asked for is read
    ensures link.tally.served && link.tally.pending.None?
    ensures r.Ok? ==> |r.value| <= 16 && Answered(r.value, link.tally.jobs)
    ensures r == Err(Unsettled) ==> link.tally.attentions >= 16
    ensures r == Err(TwiceOver) ==> RepeatedAtOnce(link.tally.jobs)
    ensures r != Err(TwiceOver) ==> NoRepeat(link.tally.jobs)
    ensures r == Err(TooManyJobs) ==> |link.tally.jobs| == 17
    ensures r == Err(TimedOut) ==> link.now >= old(link.now) + timeout
  {
    var start := link.now;
    var cooperations: seq<Record> := [];
    var previous: Option<(Job, Record)> := None;
    for round := 0 to MAX_COOPERATION + 1
      invariant link.Valid() && Bounded(link.tally, start, link.now, timeout)
      invariant link.tally.served && link.tally.pending.None?
      invariant link.tally.rounds == round && link.tally.attentions <= round * MAX_CHANGES
      invariant |cooperations| == round && Answered(cooperations, link.tally.jobs)
      invariant previous == if round == 0 then None else Some(link.tally.jobs[round - 1])
      invariant round > 0 ==> link.last.Some? && link.last.value.Asked?
    {
      var turn := OneRound(link, start, timeout, cooperations, previous);
      match turn {
        case Over(ended) =>
          return ended;
        case On(asked) =>
          previous := Some(asked);
          cooperations := cooperations + [asked.1];
      }
    }
    r := Err(TooManyJobs);
  }

  /** What one round comes to: the end, or a job that was asked for and has a record. */
  datatype Turn = Over(r: Result<seq<Record>, Fault>) | On(asked: (Job, Record))

  predicate LastIs(jobs: seq<(Job, Record)>, previous: Option<(Job, Record)>) {
    previous == if jobs == [] then None else Some(jobs[|jobs| - 1])
  }

  method OneRound(link: Link, start: nat, timeout: nat, cooperations: seq<Record>, previous: Option<(Job, Record)>)
    returns (turn: Turn)
    requires link.Valid() && Bounded(link.tally, start, link.now, timeout)
    requires Answered(cooperations, link.tally.jobs) && LastIs(link.tally.jobs, previous)
    requires link.tally.served && link.tally.pending.None?
    modifies link
    ensures link.tally.served && link.tally.pending.None?
    ensures link.Valid() && Bounded(link.tally, start, link.now, timeout)
    ensures link.tally.rounds == old(link.tally).rounds + 1
    ensures link.tally.attentions <= old(link.tally).attentions + MAX_CHANGES
    ensures turn.On? ==>
              && link.tally.jobs == old(link.tally).jobs + [turn.asked]
              && Answered(cooperations + [turn.asked.1], link.tally.jobs)
              && link.last.Some? && link.last.value.Asked?
    ensures turn.Over? ==>
              && Ends(link.last, turn.r) && turn.r != Err(TooManyJobs)
              && (turn.r.Ok? ==> turn.r.value == cooperations)
              && (turn.r == Err(TwiceOver) ==> RepeatedAtOnce(link.tally.jobs))
              && (turn.r != Err(TwiceOver) ==> link.tally.jobs == old(link.tally).jobs)
              && (turn.r == Err(Unsettled) ==> link.tally.attentions >= MAX_CHANGES)
              && (turn.r == Err(TimedOut) ==> link.now >= start + timeout)
  {
    link.Note(Round);
    var done := RunCooperative(link, start, timeout);
    match done {
      case Err(fault) => turn := Over(Err(fault));
      case Ok(None) => turn := Over(Ok(cooperations));
      case Ok(Some(job)) => turn := Serve(link, job, cooperations, previous);
    }
  }

  /** Read the record of a job, and go on unless it is the last one over again. */
  method Serve(link: Link, job: Job, cooperations: seq<Record>, previous: Option<(Job, Record)>) returns (turn: Turn)
    requires link.Valid() && Answered(cooperations, link.tally.jobs) && LastIs(link.tally.jobs, previous)
    requires link.tally.pending == Some(job)
    modifies link
    ensures link.Valid() && link.now >= old(link.now) && link.last.Some?
    ensures link.tally == old(link.tally).(jobs := link.tally.jobs, pending := None)
    ensures turn.On? ==>
              && link.last.value.Asked? && link.tally.jobs == old(link.tally.jobs) + [turn.asked]
              && Answered(cooperations + [turn.asked.1], link.tally.jobs)
    ensures turn.Over? ==>
              || (turn.r == Err(TwiceOver) && link.last.value.Asked? && RepeatedAtOnce(link.tally.jobs))
              || (turn.r == Err(NoRecord) && link.last.value.Unread? && link.tally.jobs == old(link.tally.jobs))
  {
    ghost var jobs := link.tally.jobs;
    var record := link.Cooperation(job);
    if record.None? {
      return Over(Err(NoRecord));
    }
    var asked := (job, record.value);
    AnsweredOneMore(cooperations, jobs, asked);
    if previous == Some(asked) {
      assert link.tally.jobs[..|jobs|] == jobs;
      return Over(Err(TwiceOver));
    }
    turn := On(asked);
  }
}
