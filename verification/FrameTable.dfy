/**
 * The table a unit positions film by: registering a rectangle in it for one
 * pass, and putting back what was measured.
 */
module FrameTable {
  import opened Arith
  import opened Layouts
  import opened Wrappers
  import opened Records

  /** The unit reads a window in the frame whose entry has the greatest top at or below the window's. */
  predicate Selects(frames: seq<FramePosition>, y: int, i: nat) {
    && i < |frames| && frames[i].top <= y
    && forall j :: 0 <= j < |frames| && frames[j].top <= y ==> frames[j].top <= frames[i].top
  }

  predicate Ascending(frames: seq<FramePosition>) {
    forall i, j :: 0 <= i < j < |frames| ==> frames[i].top < frames[j].top
  }

  predicate Holds(frames: seq<FramePosition>, top: int) {
    exists i :: 0 <= i < |frames| && frames[i].top == top
  }

  /** The slot a top falls in: the last entry at or below it, or else the first. */
  function SlotFor(frames: seq<FramePosition>, top: int): (slot: nat)
    ensures frames != [] ==> slot < |frames|
    ensures forall j :: slot < j < |frames| ==> frames[j].top > top
    ensures slot == 0 || (slot < |frames| && frames[slot].top <= top)
  {
    if frames == [] then 0
    else if frames[|frames| - 1].top <= top then |frames| - 1
    else SlotFor(frames[..|frames| - 1], top)
  }

  /** The table with a frame in the slot its top falls in. */
  function Registered(frames: seq<FramePosition>, frame: FramePosition): (table: seq<FramePosition>)
    ensures |table| == Max(|frames|, 1)
  {
    if frames == [] then [frame] else frames[SlotFor(frames, frame.top) := frame]
  }

  /** A table, which registering updates in place. */
  class Table {
    var frames: seq<FramePosition>

    constructor (frames: seq<FramePosition>)
      ensures this.frames == frames
    {
      this.frames := frames;
    }

    method Register(frame: FramePosition)
      modifies this
      ensures frames == Registered(old(frames), frame)
    {
      var slot := SlotFor(frames, frame.top);
      if slot < |frames| {
        frames := frames[slot := frame];
      } else {
        frames := frames + [frame];
      }
    }
  }

  /**
   * A frame whose top no entry has is the one a window at that top then selects,
   * and the only one, in whatever order the table is. Every other entry stays, and
   * a table in order stays in order.
   */
  lemma RegisteredIsSelected(frames: seq<FramePosition>, frame: FramePosition)
    requires !Holds(frames, frame.top)
    ensures var table := Registered(frames, frame);
            && (forall i: nat :: Selects(table, frame.top, i) <==> i == SlotFor(frames, frame.top))
            && table[SlotFor(frames, frame.top)] == frame
            && (forall i :: 0 <= i < |frames| && i != SlotFor(frames, frame.top) ==> table[i] == frames[i])
            && (Ascending(frames) ==> Ascending(table))
  {
    var table, slot := Registered(frames, frame), SlotFor(frames, frame.top);
    assert forall j :: 0 <= j < |frames| && j != slot ==> table[j] == frames[j] && table[j].top != frame.top;
    assert Selects(table, frame.top, slot);
  }

  /**
   * Which windows change hands. In a table in order, a window selects what it did
   * before unless it is between the entry replaced and the one put in its place:
   * there it falls to the entry before, or to the new one where that is the earlier.
   */
  lemma RegisteredMovesOneSlot(frames: seq<FramePosition>, frame: FramePosition, y: int, i: nat)
    requires Ascending(frames) && frames != [] && !Holds(frames, frame.top)
    ensures var table, slot := Registered(frames, frame), SlotFor(frames, frame.top);
            var was := frames[slot].top;
            && (!(was <= y < frame.top) && !(frame.top <= y < was) ==>
                  (Selects(table, y, i) <==> Selects(frames, y, i)))
            && (was <= y < frame.top ==> (Selects(table, y, i) <==> i + 1 == slot))
            && (frame.top <= y < was ==> (Selects(table, y, i) <==> i == 0) && !Selects(frames, y, i))
  {
    var table, slot := Registered(frames, frame), SlotFor(frames, frame.top);
    RegisteredIsSelected(frames, frame);
    SelectedIsNext(table, y, i);
    SelectedIsNext(frames, y, i);
    if slot > 0 { SelectedIsNext(table, y, slot - 1); }
  }

  /** In order, an entry is selected from its own top up to the next. */
  lemma SelectedIsNext(frames: seq<FramePosition>, y: int, i: nat)
    requires Ascending(frames)
    ensures Selects(frames, y, i) <==>
              i < |frames| && frames[i].top <= y && (i + 1 < |frames| ==> y < frames[i + 1].top)
  {
  }

  // ----- one rectangle at a time

  /** What a session knows of the unit's frame table. */
  datatype Known = Nothing | Rectangles(rects: seq<Rect>) | Positions(frames: seq<FramePosition>)

  datatype Fault = Refused(refusal: Refusal) | NotSent | Malformed | NoReading | ActionFailed

  /** The entry for a rectangle at `top`: the last reading at or before it, `address` being where a reading is. */
  function RecordAt(perfs: seq<Perforation>, address: Perforation -> nat, top: Long): Option<FramePosition> {
    if perfs == [] then None
    else if address(perfs[|perfs| - 1]) <= top then Some(Entry(top, perfs[|perfs| - 1]))
    else RecordAt(perfs[..|perfs| - 1], address, top)
  }

  /** What passed between a session and its unit, in order. */
  datatype Exchange =
    | Asked(good: bool)
    | Measured(perfs: Option<seq<Perforation>>)
    | Sent(frames: seq<FramePosition>, delivered: bool)
    /** The table the unit had for the action, what came of it, and the record it left the unit with */
    | Acted(table: Option<seq<FramePosition>>, result: Result<(), Fault>, left: seq<Byte>)

  /** A rectangle has to be put in the table: the unit positions by it, and no entry has its top. */
  predicate Missing(perforated: bool, known: Known, top: Long) {
    perforated && known.Positions? && known.frames != [] && !Holds(known.frames, top)
  }

  /** Where no table was known, the unit was asked for its own. */
  function Asking(perforated: bool, was: Known, now: Known): seq<Exchange> {
    if !perforated || was.Positions? then [] else [Asked(now.Positions?)]
  }

  /** What registering a missing rectangle exchanges, and what it answers for each way that goes. */
  predicate Registering(did: seq<Exchange>, frames: seq<FramePosition>, address: Perforation -> nat, top: Long,
                        r: Result<bool, Fault>)
  {
    && did != [] && did[0].Measured?
    && match did[0].perfs
       case None => |did| == 1 && r == Err(Malformed)
       case Some(perfs) =>
         var entry := RecordAt(perfs, address, top);
         if entry.None? then |did| == 1 && r == Err(NoReading)
         else
           var table := Registered(frames, entry.value);
           match PositionsToBytes(table)
           case Err(refusal) => |did| == 1 && r == Err(Refused(refusal))
           case Ok(_) =>
             && |did| == 2 && did[1].Sent? && did[1].frames == table
             && r == if did[1].delivered then Ok(true) else Err(NotSent)
  }

  /** A session with a unit. Whether any one exchange succeeds is arbitrary. */
  class Session {
    const perforated: bool
    const address: Perforation -> nat
    const succeeds: nat -> bool
    const readings: nat -> Option<seq<Perforation>>
    const meddles: nat -> seq<Byte>
    /** The record the unit positions film by */
    var held: seq<Byte>
    var known: Known
    /** Exchanges so far, which is what the next one depends on */
    var turns: nat
    ghost var log: seq<Exchange>

    /** Each exchange came out as the unit has it. */
    ghost predicate Valid()
      reads this
    {
      && turns == |log|
      && forall k :: 0 <= k < |log| ==>
           match log[k]
           case Asked(good) => good ==> succeeds(k)
           case Measured(perfs) => perfs == readings(k)
           case Sent(_, delivered) => delivered == succeeds(k)
           case Acted(_, result, left) =>
             left == meddles(k) && result == if succeeds(k) then Ok(()) else Err(ActionFailed)
    }

    constructor (perforated: bool, address: Perforation -> nat, succeeds: nat -> bool,
                 readings: nat -> Option<seq<Perforation>>, meddles: nat -> seq<Byte>, held: seq<Byte>, known: Known)
      ensures Valid() && this.held == held && this.known == known && log == []
    {
      this.perforated, this.address, this.succeeds := perforated, address, succeeds;
      this.readings, this.meddles := readings, meddles;
      this.held, this.known, turns, log := held, known, 0, [];
    }

    /** SEND a table for one pass, without making it what the session knows. */
    method SendForPass(frames: seq<FramePosition>) returns (r: Result<(), Fault>)
      requires Valid()
      modifies this
      ensures Valid() && known == old(known)
      ensures PositionsToBytes(frames).Err? ==>
                r == Err(Refused(PositionsToBytes(frames).error)) && log == old(log) && held == old(held)
      ensures PositionsToBytes(frames).Ok? ==>
                && log == old(log) + [Sent(frames, r.Ok?)]
                && (r.Ok? ==> PositionsFromBytes(held) == Some(frames))
                && (r.Err? ==> r == Err(NotSent) && held == old(held))
    {
      var bytes := PositionsToBytes(frames);
      if bytes.Err? {
        return Err(Refused(bytes.error));
      }
      var sent := succeeds(turns);
      turns, log := turns + 1, log + [Sent(frames, sent)];
      if !sent {
        return Err(NotSent);
      }
      PositionsComeBack(frames, []);
      assert bytes.value + [] == bytes.value;
      held := bytes.value;
      r := Ok(());
    }

    /** Read the table the unit holds, which is then what the session knows. */
    method ReadPositions() returns (r: Result<seq<FramePosition>, Fault>)
      requires Valid()
      modifies this
      ensures Valid() && held == old(held) && log == old(log) + [Asked(r.Ok?)]
      ensures r.Ok? <==> succeeds(old(turns)) && PositionsFromBytes(held).Some?
      ensures r.Ok? ==> PositionsFromBytes(held) == Some(r.value) && known == Positions(r.value)
      ensures r.Err? ==> known == old(known)
    {
      var read := succeeds(turns);
      var frames := PositionsFromBytes(held);
      turns, log := turns + 1, log + [Asked(read && frames.Some?)];
      if !read {
        return Err(NotSent);
      }
      if frames.None? {
        return Err(Malformed);
      }
      known := Positions(frames.value);
      r := Ok(frames.value);
    }

    method ReadPerforations() returns (r: Result<seq<Perforation>, Fault>)
      requires Valid()
      modifies this`turns, this`log
      ensures Valid() && log == old(log) + [Measured(if r.Ok? then Some(r.value) else None)]
      ensures r.Err? ==> r.error == Malformed
    {
      var reading := readings(turns);
      turns, log := turns + 1, log + [Measured(reading)];
      r := if reading.Some? then Ok(reading.value) else Err(Malformed);
    }

    /** What is done while the rectangle is reachable. It may fail, and the unit may make anything of it. */
    method Act() returns (r: Result<(), Fault>)
      requires Valid()
      modifies this
      ensures Valid() && known == old(known) && log == old(log) + [Acted(PositionsFromBytes(old(held)), r, held)]
    {
      r := if succeeds(turns) then Ok(()) else Err(ActionFailed);
      log := log + [Acted(PositionsFromBytes(held), r, meddles(turns))];
      held := meddles(turns);
      turns := turns + 1;
    }

    /** Put a rectangle in the unit's table before a pass over it; answers whether a table was written. */
    method Register(top: Long) returns (r: Result<bool, Fault>)
      requires Valid()
      modifies this
      ensures Valid() && Learned(perforated, old(known), known, old(held))
      ensures r == Ok(false) <==> !Missing(perforated, known, top)
      ensures r == Ok(false) ==> log == old(log) + Asking(perforated, old(known), known)
      ensures r != Ok(false) ==>
                && old(log) + Asking(perforated, old(known), known) <= log
                && Registering(log[|old(log) + Asking(perforated, old(known), known)|..], known.frames, address, top, r)
      ensures r != Ok(true) ==> held == old(held)
      ensures r == Ok(true) ==> PositionsFromBytes(held) == Some(log[|log| - 1].frames)
    {
      if !perforated {
        return Ok(false);
      }
      var frames: seq<FramePosition>;
      if known.Positions? {
        frames := known.frames;
      } else {
        var asked := ReadPositions();
        if asked.Err? {
          return Ok(false);
        }
        frames := asked.value;
      }
      if frames == [] || Holds(frames, top) {
        return Ok(false);
      }
      ghost var before := log;
      r := RegisterMissing(frames, top);
      assert before == old(log) + Asking(perforated, old(known), known);
    }

    method RegisterMissing(frames: seq<FramePosition>, top: Long) returns (r: Result<bool, Fault>)
      requires Valid()
      modifies this
      ensures Valid() && known == old(known) && old(log) <= log
      ensures Registering(log[|old(log)|..], frames, address, top, r) && r != Ok(false)
      ensures r != Ok(true) ==> held == old(held)
      ensures r == Ok(true) ==> PositionsFromBytes(held) == Some(log[|log| - 1].frames)
    {
      ghost var before := |log|;
      var perfs := ReadPerforations();
      assert log[before..] == [log[before]];
      if perfs.Err? {
        return Err(perfs.error);
      }
      var entry := RecordAt(perfs.value, address, top);
      if entry.None? {
        return Err(NoReading);
      }
      var table := new Table(frames);
      table.Register(entry.value);
      var sent := SendForPass(table.frames);
      if sent.Err? {
        return Err(sent.error);
      }
      r := Ok(true);
    }

    /**
     * Run the action with a rectangle reachable, and leave the unit's table as
     * measured: where a table was written for it, the measured one is sent once,
     * after the action, whether or not the action failed.
     */
    method AtFrame(top: Long) returns (r: Result<(), Fault>)
      requires Valid()
      modifies this
      ensures Valid() && Learned(perforated, old(known), known, old(held))
      ensures old(log) + Asking(perforated, old(known), known) <= log
      ensures Bracketed(log[|old(log) + Asking(perforated, old(known), known)|..],
                        Missing(perforated, known, top), known, address, top, old(held), held, r)
    {
      var register := Register(top);
      ghost var asked := old(log) + Asking(perforated, old(known), known);
      ghost var did := log[|asked|..];
      if register.Err? {
        assert did + [] == did;
        return Err(register.error);
      }
      ghost var ran := PositionsFromBytes(held);
      r := Act();
      assert log[|asked|..] == did + [Acted(ran, r, held)];
      ghost var left := held;
      if register.value && known.Positions? {
        var back := SendForPass(known.frames);
        assert log[|asked|..] == did + [Acted(ran, r, left), Sent(known.frames, back.Ok?)];
      }
    }
  }

  /** A session knows what it did, or what the unit held where it knew no table of positions. */
  predicate Learned(perforated: bool, was: Known, now: Known, held: seq<Byte>) {
    || now == was
    || (perforated && !was.Positions? && now.Positions? && PositionsFromBytes(held) == Some(now.frames))
  }

  /**
   * What is exchanged about an action, once the table is known. A rectangle that is
   * not missing: the action, and nothing else. One that could not be registered:
   * no action, and the unit holds what it did. One that was: the action on the
   * table with its entry, then the measured table, which the unit holds if that
   * was delivered. The answer is the action's own.
   */
  ghost predicate Bracketed(did: seq<Exchange>, missing: bool, known: Known, address: Perforation -> nat, top: Long,
                            was: seq<Byte>, held: seq<Byte>, r: Result<(), Fault>)
  {
    if !missing then did == [Acted(PositionsFromBytes(was), r, held)]
    else
      && known.Positions?
      && ((exists fault: Fault ::
             Registering(did, known.frames, address, top, Err(fault)) && r == Err(fault) && held == was)
          || (&& |did| == 4 && Registering(did[..2], known.frames, address, top, Ok(true))
              && did[2].Acted? && did[2].table == Some(did[1].frames) && did[2].result == r
              && did[3].Sent? && did[3].frames == known.frames
              && (if did[3].delivered then PositionsFromBytes(held) == Some(known.frames) else held == did[2].left)))
  }

  /** Where a session knows a table of positions, the unit holds that table. */
  predicate Agree(known: Known, held: seq<Byte>) {
    known.Positions? ==> PositionsFromBytes(held) == Some(known.frames)
  }

  /**
   * While the action runs on a table that agreed, a window at the top is read in
   * the entry with that top. In order, it is the only one a window there selects.
   */
  lemma ActsAtItsOwnEntry(did: seq<Exchange>, perforated: bool, known: Known, address: Perforation -> nat, top: Long,
                          was: seq<Byte>, held: seq<Byte>, r: Result<(), Fault>, k: nat, i: nat)
    requires Bracketed(did, Missing(perforated, known, top), known, address, top, was, held, r)
    requires perforated && known.Positions? && known.frames != [] && Agree(known, was)
    requires k < |did| && did[k].Acted?
    ensures did[k].table.Some? && |did[k].table.value| == |known.frames|
    ensures Holds(did[k].table.value, top)
    ensures Ascending(known.frames) ==> Ascending(did[k].table.value)
    ensures Selects(did[k].table.value, top, i) ==> did[k].table.value[i].top == top
  {
    if Missing(perforated, known, top) {
      ActsOnTheRegistered(did, known.frames, address, top, k);
      var entry := RecordAt(did[0].perfs.value, address, top).value;
      RegisteredIsSelected(known.frames, entry);
      assert Registered(known.frames, entry)[SlotFor(known.frames, top)].top == top;
    }
  }

  lemma ActsOnTheRegistered(did: seq<Exchange>, frames: seq<FramePosition>, address: Perforation -> nat, top: Long,
                            k: nat)
    requires k < |did| && did[k].Acted? && frames != []
    requires || (exists fault: Fault :: Registering(did, frames, address, top, Err(fault)))
             || (|did| == 4 && Registering(did[..2], frames, address, top, Ok(true))
                 && did[2].Acted? && did[2].table == Some(did[1].frames) && did[3].Sent?)
    ensures did[0].Measured? && did[0].perfs.Some? && RecordAt(did[0].perfs.value, address, top).Some?
    ensures RecordAt(did[0].perfs.value, address, top).value.top == top
    ensures did[k].table == Some(Registered(frames, RecordAt(did[0].perfs.value, address, top).value))
  {
    assert did[..2][0] == did[0] && did[..2][1] == did[1];
    EntryIsAtTheTop(did[0].perfs.value, address, top);
  }

  /** Some reading is the last at or before a top, and the entry at that top carries it; or none is. */
  lemma {:induction false} EntryIsAtTheTop(perfs: seq<Perforation>, address: Perforation -> nat, top: Long)
    ensures match RecordAt(perfs, address, top)
            case Some(entry) => exists k :: LastAtOrBefore(perfs, address, top, k) && entry == Entry(top, perfs[k])
            case None => forall k :: 0 <= k < |perfs| ==> address(perfs[k]) > top
    decreases |perfs|
  {
    if perfs != [] {
      var last := |perfs| - 1;
      if address(perfs[last]) <= top {
        assert LastAtOrBefore(perfs, address, top, last);
      } else {
        EntryIsAtTheTop(perfs[..last], address, top);
        if RecordAt(perfs[..last], address, top).Some? {
          var k :| LastAtOrBefore(perfs[..last], address, top, k)
                   && RecordAt(perfs, address, top).value == Entry(top, perfs[..last][k]);
          assert LastAtOrBefore(perfs, address, top, k);
        }
      }
    }
  }

  predicate LastAtOrBefore(perfs: seq<Perforation>, address: Perforation -> nat, top: Long, k: int) {
    && 0 <= k < |perfs| && address(perfs[k]) <= top
    && forall j :: k < j < |perfs| ==> address(perfs[j]) > top
  }
}
