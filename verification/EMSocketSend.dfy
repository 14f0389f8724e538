/** The sending half of CEMSocket: a control queue, a standard queue, one packet in the buffer,
    and a socket that takes as many bytes as it likes. */
module EMSocketSend {
  import opened Words
  import opened Pacing
  import M = SendMachine

  datatype ConnectionState = NotConnected | Connected | Disconnected

  datatype SocketSentBytes = SocketSentBytes(success: bool, standardBytes: uint32, controlBytes: uint32)

  /** What the operating system answers to one write. */
  datatype WriteOutcome = Wrote(count: nat) | WouldBlock | Failed

  function QueuedControl(q: seq<M.Packet>): nat {
    if q == [] then 0 else |q[0].bytes| + QueuedControl(q[1..])
  }

  function QueuedStandard(q: seq<M.StandardEntry>): nat {
    if q == [] then 0 else |q[0].packet.bytes| + QueuedStandard(q[1..])
  }

  /** What the clock shows at a time. */
  function Reading(time: nat): uint32 {
    time % TWO32
  }

  /** The clock showed this at some time between the two. */
  ghost predicate ReadBetween(from: nat, to: nat, reading: uint32) {
    exists t :: from <= t <= to && Reading(t) == reading
  }

  lemma ReadAt(from: nat, at: nat, to: nat)
    requires from <= at <= to
    ensures ReadBetween(from, to, Reading(at))
  {
    hide Reading;
  }

  /** When the last write was tried, when the last standard packet was finished, and whether the next is in a hurry. */
  datatype Pace = Pace(lastSent: uint32, lastFinished: uint32, accelerate: bool)

  /** From one time to the other some writes were tried, or none, and some standard packets finished, or none. */
  ghost predicate PaceGoes(from: nat, to: nat, was: Pace, now: Pace) {
    && from <= to
    && (now.lastSent == was.lastSent || ReadBetween(from, to, now.lastSent))
    && ((now.lastFinished == was.lastFinished && now.accelerate == was.accelerate)
        || (ReadBetween(from, to, now.lastFinished) && !now.accelerate))
  }

  lemma PaceStays(from: nat, to: nat, pace: Pace)
    requires from <= to
    ensures PaceGoes(from, to, pace, pace)
  {
  }

  lemma PaceGoesOn(from: nat, mid: nat, to: nat, was: Pace, now: Pace, later: Pace)
    requires PaceGoes(from, mid, was, now) && PaceGoes(mid, to, now, later)
    ensures PaceGoes(from, to, was, later) && from <= mid <= to
    ensures ReadBetween(from, mid, later.lastSent) || ReadBetween(mid, to, later.lastSent) ==> ReadBetween(from, to, later.lastSent)
  {
    hide Reading;
  }

  /** The counts after one write, or after several of which the last one ended so. */
  predicate Counted(outcome: WriteOutcome, failures: nat, waits: nat, failures': nat, waits': nat) {
    && failures' == failures + (if outcome.Failed? then 1 else 0)
    && waits' == waits + (if outcome.WouldBlock? then 1 else 0)
  }

  class EMSocketSender {
    var byConnected: ConnectionState

    // upload control
    var controlQueue: seq<M.Packet>
    var standardQueue: seq<M.StandardEntry>
    var sendbuffer: Option<M.PacketBytes>
    var sendblen: uint32
    var sent: uint32
    var currentIsControl: bool
    var currentIsFromPartFile: bool
    var sentBytes: M.Counters
    var actualPayloadSize: uint32
    var actualPayloadSizeSent: uint32
    var accelerateUpload: bool
    var lastCalledSend: uint32
    var lastSent: uint32
    var lastFinishedStandard: uint32
    var busy: bool
    ghost var wire: M.Bytes
    ghost var history: seq<M.Step>

    /** The writes that failed, and those that would have had to wait. */
    ghost var failures: nat
    ghost var waits: nat

    // the clock when it was read last, not cut to 32 bits
    var time: nat

    constructor (now: uint32)
      ensures SendValid() && byConnected == NotConnected && history == [] && !busy && !accelerateUpload && time == now
      ensures lastCalledSend == now && Ticks(now, lastSent) == 1000 && lastFinishedStandard == 0
    {
      byConnected := NotConnected;
      controlQueue, standardQueue := [], [];
      sendbuffer, sendblen, sent := None, 0, 0;
      currentIsControl, currentIsFromPartFile := false, false;
      sentBytes := M.Counters(0, 0, 0);
      lastCalledSend, lastSent, lastFinishedStandard := now, Ticks(now, 1000), 0;
      accelerateUpload, busy := false, false;
      actualPayloadSize, actualPayloadSizeSent := 0, 0;
      wire, history, failures, waits, time := [], [], 0, 0, now;
    }

    ghost function CurrentClass(): M.Class
      reads `currentIsControl, `currentIsFromPartFile
    {
      if currentIsControl then M.Control else if currentIsFromPartFile then M.PartFile else M.CompleteFile
    }

    /** The sender as a state of the machine. */
    ghost function SendView(): M.State
      reads `controlQueue, `standardQueue, `sendbuffer, `currentIsControl, `currentIsFromPartFile, `sent,
            `actualPayloadSize, `sentBytes, `actualPayloadSizeSent, `wire
    {
      M.State(controlQueue, standardQueue, sendbuffer, CurrentClass(), sent, actualPayloadSize, sentBytes,
              actualPayloadSizeSent, wire)
    }

    /** `history` is a run of the machine that put `wire` on the socket and left the present
        statistics; until the connection is closed it led to the present state. */
    ghost predicate SendOk()
      reads `controlQueue, `standardQueue, `sendbuffer, `currentIsControl, `currentIsFromPartFile, `sent,
            `actualPayloadSize, `sentBytes, `actualPayloadSizeSent, `wire, `sendblen, `history, `byConnected
    {
      && M.Valid(SendView())
      && sent <= sendblen
      && sendblen == (if sendbuffer.Some? then |sendbuffer.value| else 0)
      && M.Reached(history, wire, sentBytes, actualPayloadSizeSent)
      && (byConnected != Disconnected ==> M.Exec(M.Initial(), history) == Some(SendView()))
    }

    /** Between calls a packet in the buffer is never finished. */
    ghost predicate SendValid()
      reads `controlQueue, `standardQueue, `sendbuffer, `currentIsControl, `currentIsFromPartFile, `sent,
            `actualPayloadSize, `sentBytes, `actualPayloadSizeSent, `wire, `sendblen, `history, `byConnected
    {
      && SendOk()
      && (sendbuffer.Some? ==> sent < sendblen)
      && (sendbuffer.None? ==> sent == sendblen == 0)
    }

    /** Bytes still to be sent; what makes the two loops of Send end. */
    ghost function Unsent(): nat
      requires sent <= sendblen
      reads this
    {
      QueuedControl(controlQueue) + QueuedStandard(standardQueue) + (sendblen - sent)
    }

    /** Bytes of control packets still to be sent, in the buffer and in the queue. */
    ghost function ControlLeft(): (left: nat)
      requires sent <= sendblen
      reads `controlQueue, `sendbuffer, `currentIsControl, `sendblen, `sent
      ensures sendbuffer.None? && controlQueue == [] ==> left == 0
    {
      QueuedControl(controlQueue) + if sendbuffer.Some? && currentIsControl then sendblen - sent else 0
    }

    /** A standard packet is in the buffer. */
    ghost predicate StandardBuffered()
      reads `sendbuffer, `currentIsControl
    {
      sendbuffer.Some? && !currentIsControl
    }

    ghost function StandardLeft(): nat
      requires sent <= sendblen
      reads `sendbuffer, `currentIsControl, `sendblen, `sent
    {
      if StandardBuffered() then sendblen - sent else 0
    }

    ghost function PaceNow(): Pace
      reads `lastSent, `lastFinishedStandard, `accelerateUpload
    {
      Pace(lastSent, lastFinishedStandard, accelerateUpload)
    }

    /** What waits to be sent. */
    ghost function Outstanding(): Waiting
      requires sent <= sendblen
      reads `controlQueue, `standardQueue, `sendbuffer, `currentIsControl, `sendblen, `sent
    {
      Waiting(ControlLeft(), StandardLeft(), QueuedStandard(standardQueue))
    }

    lemma OutstandingIsSeen()
      requires SendValid()
      ensures Seen(Outstanding(), sendbuffer.Some?, currentIsControl, controlQueue != [], standardQueue != [])
    {
      hide M.Valid, M.Reached, M.Exec, SendView;
    }

    /** Enters a step of the machine that the fields have just taken into the history. */
    ghost method Record(before: M.State, step: M.Step)
      requires M.Exec(M.Initial(), history) == Some(before) && M.Valid(before)
      requires M.Next(before, step).Some? && M.Valid(SendView())
      requires var after := M.Next(before, step).value;
               && after.wire == wire && after.counters == sentBytes && after.payloadSent == actualPayloadSizeSent
               && (byConnected != Disconnected ==> after == SendView())
      requires sent <= sendblen ==  (if sendbuffer.Some? then |sendbuffer.value| else 0)
      modifies `history
      ensures SendOk() && history == old(history) + [step]
    {
      hide M.Next, M.Exec;
      M.Extend(history, before, step, M.Next(before, step).value);
      history := history + [step];
    }

    method SendPacket(packet: M.Packet, controlpacket: bool, payload: uint32, now: uint32)
      requires SendValid()
      modifies `controlQueue, `standardQueue, `lastFinishedStandard, `accelerateUpload, `history
      ensures SendValid()
      ensures byConnected == Disconnected ==> unchanged(this)
      ensures byConnected != Disconnected ==>
                history == old(history)
                           + [if controlpacket then M.QueueControl(packet)
                              else M.QueueStandard(M.StandardEntry(payload, packet))]
      // a standard packet that need not wait for another restarts the pace
      ensures var restarts := byConnected != Disconnected && !controlpacket
                              && (sendbuffer.None? || currentIsControl) && old(standardQueue) == [];
              && lastFinishedStandard == (if restarts then now else old(lastFinishedStandard))
              && accelerateUpload == (restarts || old(accelerateUpload))
    {
      if byConnected == Disconnected {
        return;
      }
      hide M.Exec;
      ghost var before := SendView();
      if controlpacket {
        controlQueue := controlQueue + [packet];
        Record(before, M.QueueControl(packet));
      } else {
        var first := !((sendbuffer.Some? && !currentIsControl) || standardQueue != []);
        var entry := M.StandardEntry(payload, packet);
        standardQueue := standardQueue + [entry];
        if first {
          lastFinishedStandard := now;
          accelerateUpload := true;
        }
        Record(before, M.QueueStandard(entry));
      }
    }

    method PickControl()
      requires SendOk() && byConnected != Disconnected && sendbuffer.None? && controlQueue != []
      modifies `controlQueue, `sendbuffer, `sendblen, `sent, `currentIsControl, `history
      ensures SendValid() && currentIsControl && Unsent() == old(Unsent()) && ControlLeft() == old(ControlLeft())
      ensures controlQueue == old(controlQueue)[1..] && sendbuffer == Some(old(controlQueue)[0].bytes) && sent == 0
      ensures history == old(history) + [M.StartControl]
    {
      hide M.Exec, M.Reached;
      ghost var before := SendView();
      currentIsControl := true;
      var curPacket := controlQueue[0];
      controlQueue := controlQueue[1..];
      sendbuffer := Some(curPacket.bytes);
      sendblen := |curPacket.bytes|;
      sent := 0;
      Record(before, M.StartControl);
    }

    method PickStandard()
      requires SendOk() && byConnected != Disconnected && sendbuffer.None?
      requires controlQueue == [] && standardQueue != []
      modifies `standardQueue, `sendbuffer, `sendblen, `sent, `currentIsControl, `currentIsFromPartFile,
               `actualPayloadSize, `history
      ensures SendValid() && !currentIsControl && Unsent() == old(Unsent())
      ensures StandardLeft() + QueuedStandard(standardQueue) == old(QueuedStandard(standardQueue))
      ensures standardQueue == old(standardQueue)[1..] && sendbuffer == Some(old(standardQueue)[0].packet.bytes) && sent == 0
      ensures history == old(history) + [M.StartStandard]
    {
      hide M.Exec, M.Reached, M.Next;
      ghost var before := SendView();
      M.StartStandardEffect(before);
      currentIsControl := false;
      var entry := standardQueue[0];
      standardQueue := standardQueue[1..];
      actualPayloadSize := entry.payload;
      currentIsFromPartFile := entry.packet.fromPartFile;
      sendbuffer := Some(entry.packet.bytes);
      sendblen := |entry.packet.bytes|;
      sent := 0;
      Record(before, M.StartStandard);
    }

    /** Takes the next packet if none is in the buffer: a control packet if one waits, a standard
        packet otherwise. */
    method PickPacket(ghost std: nat, ghost total: nat, ghost m: nat, ghost onlyControl: bool)
      returns (ghost picked: seq<M.Step>)
      requires SendValid() && byConnected != Disconnected
      requires sendbuffer.Some? || controlQueue != [] || standardQueue != []
      requires m > 0
      requires onlyControl ==> StandardBytesBounded(std, total, m, sendbuffer.Some?, currentIsControl,
                                                    controlQueue != [], standardQueue != [])
      modifies `controlQueue, `standardQueue, `sendbuffer, `sendblen, `sent, `currentIsControl,
               `currentIsFromPartFile, `actualPayloadSize, `history
      ensures SendValid() && sendbuffer.Some? && Unsent() == old(Unsent())
      ensures history == old(history) + picked && M.WritesOnly(picked, CurrentClass(), 0)
      ensures currentIsControl == if old(sendbuffer).Some? then old(currentIsControl) else old(controlQueue) != []
      ensures old(sendbuffer).Some? ==> controlQueue == old(controlQueue) && standardQueue == old(standardQueue)
      ensures old(sendbuffer).None? && !currentIsControl ==> controlQueue == []
      ensures M.StartStandard in picked <==> old(sendbuffer).None? && old(controlQueue) == []
      ensures M.StartStandard !in picked ==> standardQueue == old(standardQueue)
      ensures ControlLeft() == old(ControlLeft())
      ensures Moves(old(Outstanding()), 0, currentIsControl, Outstanding())
      ensures onlyControl ==> StandardBytesBounded(std, total, m, true, currentIsControl,
                                                   controlQueue != [], standardQueue != [])
    {
      OutstandingIsSeen();
      hide SendOk, M.Exec, M.Next, M.Valid, M.Reached, SendView, M.WritesOnly, StandardBytesBounded,
           QueuedControl, QueuedStandard;
      if sendbuffer.None? {
        ghost var control, standard, isControl := controlQueue != [], standardQueue != [], currentIsControl;
        if controlQueue != [] {
          PickControl();
          picked := [M.StartControl];
        } else {
          PickStandard();
          picked := [M.StartStandard];
        }
        M.WritesNone(picked[0], CurrentClass());
        if onlyControl {
          PickKeepsBound(std, total, m, isControl, control, standard, controlQueue != [], standardQueue != []);
        }
      } else {
        picked := [];
        M.WritesNothing(CurrentClass());
      }
    }

    /** The clock goes on, and is read in 32 bits. */
    method GetTickCount() returns (now: uint32)
      modifies `time
      ensures time >= old(time) && now == Reading(time)
    {
      var passed: nat :| true;
      time := time + passed;
      now := Reading(time);
    }

    /** The operating system takes some of the bytes, would block, or fails. */
    method Write(tosend: uint32) returns (outcome: WriteOutcome)
      requires 1 <= tosend
      modifies `failures, `waits
      ensures outcome.Wrote? ==> 1 <= outcome.count <= tosend
      ensures Counted(outcome, old(failures), old(waits), failures, waits)
    {
      if * {
        outcome := Failed;
        failures := failures + 1;
      } else if * {
        outcome := WouldBlock;
        waits := waits + 1;
      } else {
        var result: nat :| 1 <= result <= tosend;
        outcome := Wrote(result);
      }
    }

    /** Notes the time and hands the bytes to the operating system. */
    method Attempt(tosend: uint32) returns (outcome: WriteOutcome)
      requires 1 <= tosend
      modifies `time, `lastSent, `failures, `waits
      ensures outcome.Wrote? ==> 1 <= outcome.count <= tosend
      ensures Counted(outcome, old(failures), old(waits), failures, waits)
      ensures old(time) <= time && lastSent == Reading(time)
    {
      lastSent := GetTickCount();
      outcome := Write(tosend);
    }

    /** Adds to the statistics of the current packet's class. */
    method BookBytes(result: nat)
      modifies `sentBytes
      ensures sentBytes == old(sentBytes).Set(CurrentClass(), (old(sentBytes).Get(CurrentClass()) + result) % TWO64)
    {
      if !currentIsControl {
        if currentIsFromPartFile {
          sentBytes := sentBytes.(partFile := (sentBytes.partFile + result) % TWO64);
        } else {
          sentBytes := sentBytes.(completeFile := (sentBytes.completeFile + result) % TWO64);
        }
      } else {
        sentBytes := sentBytes.(control := (sentBytes.control + result) % TWO64);
      }
    }

    /** The bookkeeping after `result` bytes of the packet in the buffer went out. */
    method Account(result: nat)
      requires SendOk() && byConnected != Disconnected && sendbuffer.Some?
      requires 1 <= result <= sendblen - sent
      modifies `busy, `sent, `sentBytes, `wire, `history
      ensures SendOk()
      ensures sent == old(sent) + result && !busy
      ensures history == old(history) + [M.Write(result, CurrentClass())]
    {
      hide M.Exec, M.Next;
      ghost var before := SendView();
      M.WriteEffect(before, result);
      wire := wire + sendbuffer.value[sent..sent + result];
      busy := false;
      sent := sent + result;
      BookBytes(result);
      Record(before, M.Write(result, CurrentClass()));
    }

    /** One write, of the size the budget allows, and its bookkeeping. */
    method WriteSome(total: uint32, budget: uint32, m: uint32, onlyControl: bool, wasLong: bool)
      returns (outcome: WriteOutcome)
      requires SendOk() && byConnected != Disconnected && !busy && sendbuffer.Some? && sent < sendblen
      requires m > 0 && IsBudget(budget, m) && total < budget
      requires MayWrite(onlyControl, currentIsControl, wasLong, total, m)
      modifies `time, `lastSent, `failures, `waits, `busy, `sent, `sentBytes, `wire, `history
      ensures SendOk()
      ensures outcome.Wrote? ==>
                && 1 <= outcome.count <= sendblen - old(sent)
                && total + outcome.count <= Cap(budget, m)
                && (onlyControl && !currentIsControl ==> InFragment(total, outcome.count, m))
                && sent == old(sent) + outcome.count
                && history == old(history) + [M.Write(outcome.count, CurrentClass())]
      ensures !outcome.Wrote? ==> sent == old(sent) && history == old(history)
      ensures outcome.WouldBlock? <==> busy
      ensures Counted(outcome, old(failures), old(waits), failures, waits)
      ensures old(time) <= time && lastSent == Reading(time)
    {
      var tosend := WriteSize(sendblen - sent, total, budget, m, onlyControl, currentIsControl, wasLong);
      WriteSizeFits(sendblen - sent, total, budget, m, onlyControl, currentIsControl, wasLong);
      hide *;
      outcome := Attempt(tosend);
      match outcome {
        case WouldBlock => busy := true;
        case Failed =>
        case Wrote(result) => Account(result);
      }
    }

    method FinishStandard()
      modifies `time, `actualPayloadSize, `actualPayloadSizeSent, `lastFinishedStandard, `accelerateUpload
      ensures actualPayloadSize == 0
      ensures old(time) <= time && lastFinishedStandard == Reading(time) && !accelerateUpload
      ensures actualPayloadSizeSent == (old(actualPayloadSizeSent) + old(actualPayloadSize)) % TWO32
    {
      actualPayloadSizeSent := (actualPayloadSizeSent + actualPayloadSize) % TWO32;
      actualPayloadSize := 0;
      lastFinishedStandard := GetTickCount();
      accelerateUpload := false;
    }

    /** Drops the packet that has been sent completely. */
    method FinishPacket()
      requires SendOk() && byConnected != Disconnected && sendbuffer.Some? && sent == sendblen
      modifies `time, `sendbuffer, `sendblen, `sent, `actualPayloadSize, `actualPayloadSizeSent,
               `lastFinishedStandard, `accelerateUpload, `history
      ensures SendValid() && sendbuffer.None?
      ensures old(time) <= time
      ensures if currentIsControl then unchanged(`lastFinishedStandard) && unchanged(`accelerateUpload)
              else lastFinishedStandard == Reading(time) && !accelerateUpload
      ensures history == old(history) + [M.Finish]
    {
      hide M.Exec, M.Next, M.Reached;
      ghost var before := SendView();
      M.FinishEffect(before);
      sendbuffer := None;
      sendblen := 0;
      if !currentIsControl {
        FinishStandard();
      }
      sent := 0;
      Record(before, M.Finish);
    }

    /** One turn of the inner loop, after `before` bytes and `sofar` steps of it. */
    method WriteTurn(total0: uint32, before: uint32, budget: uint32, m: uint32, onlyControl: bool, wasLong: bool,
                     ghost start: seq<M.Step>, ghost sofar: seq<M.Step>)
      returns (outcome: WriteOutcome, count: uint32, ghost steps: seq<M.Step>)
      requires SendOk() && byConnected != Disconnected && !busy && sendbuffer.Some? && sent < sendblen
      requires m > 0 && IsBudget(budget, m) && Cap(budget, m) < TWO32 && total0 + before < budget
      requires MayWrite(onlyControl, currentIsControl, wasLong, total0 + before, m)
      requires history == start + sofar && M.WritesOnly(sofar, CurrentClass(), before) && M.StartStandard !in sofar
      requires total0 + before <= Cap(budget, m)
      requires onlyControl && !currentIsControl ==> InFragment(total0, before, m)
      modifies `time, `lastSent, `failures, `waits, `busy, `sent, `sentBytes, `wire, `history
      ensures SendOk() && (outcome.WouldBlock? <==> busy)
      ensures Counted(outcome, old(failures), old(waits), failures, waits)
      ensures old(time) <= time && lastSent == Reading(time)
      ensures if outcome.Wrote? then count > before else count == before
      ensures history == start + steps && M.WritesOnly(steps, CurrentClass(), count) && M.StartStandard !in steps
      ensures sent == old(sent) + (count - before) <= sendblen
      ensures total0 + count <= Cap(budget, m)
      ensures onlyControl && !currentIsControl ==> InFragment(total0, count, m)
    {
      hide *;
      count, steps := before, sofar;
      outcome := WriteSome(total0 + before, budget, m, onlyControl, wasLong);
      if outcome.Wrote? {
        if onlyControl && !currentIsControl {
          StaysInFragment(total0, before, outcome.count, wasLong, m);
        }
        M.WritesMore(sofar, CurrentClass(), before, outcome.count);
        M.Associates(start, sofar, [M.Write(outcome.count, CurrentClass())]);
        steps := sofar + [M.Write(outcome.count, CurrentClass())];
        count := before + outcome.count;
      }
    }

    /** The inner loop: writes the packet in the buffer until it is out, the call may write no
        more, or a write fails or would block. `total0` bytes went out earlier in the same call;
        the bytes written here are all of the packet's class. */
    method SendBuffer(total0: uint32, budget: uint32, m: uint32, onlyControl: bool, wasLong: bool)
      returns (count: uint32, outcome: WriteOutcome, ghost steps: seq<M.Step>)
      requires SendOk() && byConnected != Disconnected && !busy && sendbuffer.Some? && sent < sendblen
      requires m > 0 && IsBudget(budget, m) && Cap(budget, m) < TWO32
      requires total0 < budget
      requires MayWrite(onlyControl, currentIsControl, wasLong, total0, m)
      modifies `time, `lastSent, `failures, `waits, `busy, `sent, `sentBytes, `wire, `history
      ensures SendOk()
      ensures history == old(history) + steps && M.WritesOnly(steps, CurrentClass(), count) && M.StartStandard !in steps
      ensures sent == old(sent) + count <= sendblen
      ensures total0 + count <= Cap(budget, m)
      ensures onlyControl && !currentIsControl ==> InFragment(total0, count, m)
      ensures outcome.WouldBlock? <==> busy
      ensures Counted(outcome, old(failures), old(waits), failures, waits)
      ensures outcome.Wrote? ==> count > 0
      ensures old(time) <= time && lastSent == Reading(time)
      ensures outcome.Wrote? && sent < sendblen && total0 + count < budget ==>
                !MayWrite(onlyControl, currentIsControl, wasLong, total0 + count, m)
    {
      assert total0 <= Cap(budget, m) && InFragment(total0, 0, m);
      count, steps := 0, [];
      M.WritesNothing(CurrentClass());
      hide *;
      outcome := Wrote(0);
      ghost var tried := false;
      while sent < sendblen && total0 + count < budget
            && MayWrite(onlyControl, currentIsControl, wasLong, total0 + count, m) && outcome.Wrote?
        invariant SendOk()
        invariant history == old(history) + steps && M.WritesOnly(steps, CurrentClass(), count)
        invariant M.StartStandard !in steps
        invariant sent == old(sent) + count <= sendblen
        invariant total0 + count <= Cap(budget, m)
        invariant onlyControl && !currentIsControl ==> InFragment(total0, count, m)
        invariant (outcome.WouldBlock? <==> busy) && Counted(outcome, old(failures), old(waits), failures, waits)
        invariant old(time) <= time && (tried ==> lastSent == Reading(time))
        invariant if tried then outcome.Wrote? ==> count > 0 else outcome.Wrote? && count == 0 && steps == []
        decreases outcome.Wrote?, sendblen - sent
      {
        outcome, count, steps := WriteTurn(total0, count, budget, m, onlyControl, wasLong, old(history), steps);
        tried := true;
      }
    }

    /** Ends a turn of the outer loop after the steps `sofar`: drops the packet if it is out. */
    method FinishWhenSent(ghost start: seq<M.Step>, ghost sofar: seq<M.Step>, ghost count: nat)
      returns (ghost steps: seq<M.Step>)
      requires SendOk() && byConnected != Disconnected && sendbuffer.Some?
      requires history == start + sofar && M.WritesOnly(sofar, CurrentClass(), count)
      modifies `time, `sendbuffer, `sendblen, `sent, `actualPayloadSize, `actualPayloadSizeSent,
               `lastFinishedStandard, `accelerateUpload, `history
      ensures SendValid() && (sendbuffer.Some? <==> old(sent < sendblen))
      ensures PaceGoes(old(time), time, old(PaceNow()), PaceNow()) && PaceNow().lastSent == old(PaceNow().lastSent)
      ensures history == start + steps && M.WritesOnly(steps, CurrentClass(), count)
      ensures M.StartStandard in steps <==> M.StartStandard in sofar
      ensures Unsent() == old(Unsent()) && ControlLeft() == old(ControlLeft()) && Outstanding() == old(Outstanding())
    {
      hide M.Exec, M.Next, M.Valid, M.Reached, SendView, M.WritesOnly, QueuedControl, QueuedStandard, CurrentClass, Reading,
           ReadBetween;
      steps := sofar;
      if sent == sendblen {
        FinishPacket();
        ReadAt(old(time), time, time);
        M.WritesNone(M.Finish, CurrentClass());
        M.WritesBoth(sofar, [M.Finish], CurrentClass(), count, 0);
        M.Associates(start, sofar, [M.Finish]);
        steps := sofar + [M.Finish];
      }
    }

    /** Writes the packet in the buffer, of what was `picked` to wait. */
    method SendPicked(std: uint32, total: uint32, budget: uint32, m: uint32, onlyControl: bool, wasLong: bool)
      returns (count: uint32, outcome: WriteOutcome, ghost steps: seq<M.Step>)
      requires SendValid() && byConnected != Disconnected && !busy && sendbuffer.Some?
      requires m > 0 && IsBudget(budget, m) && Cap(budget, m) < TWO32 && total < budget
      requires MayWrite(onlyControl, currentIsControl, wasLong, total, m)
      requires onlyControl ==> StandardBytesBounded(std, total, m, true, currentIsControl,
                                                    controlQueue != [], standardQueue != [])
      requires onlyControl && !currentIsControl ==> controlQueue == [] || standardQueue == []
      modifies `time, `lastSent, `failures, `waits, `busy, `sent, `sentBytes, `wire, `history
      ensures SendOk()
      ensures history == old(history) + steps && M.WritesOnly(steps, CurrentClass(), count) && M.StartStandard !in steps
      ensures sent == old(sent) + count <= sendblen && total + count <= Cap(budget, m)
      ensures onlyControl && !currentIsControl ==> InFragment(total, count, m)
      ensures onlyControl ==> StandardBytesBounded(if currentIsControl then std else std + count, total + count, m,
                                                   sent < sendblen, currentIsControl, controlQueue != [], standardQueue != [])
      ensures (outcome.WouldBlock? <==> busy) && (outcome.Wrote? ==> count > 0)
      ensures Counted(outcome, old(failures), old(waits), failures, waits)
      ensures PaceGoes(old(time), time, old(PaceNow()), PaceNow()) && ReadBetween(old(time), time, PaceNow().lastSent)
      ensures Unsent() + count == old(Unsent())
      ensures var now := Outstanding();
              now.(control := if currentIsControl then now.control + count else now.control,
                   rest := if currentIsControl then now.rest else now.rest + count) == old(Outstanding())
    {
      hide SendOk, M.Exec, M.Next, M.Valid, M.Reached, SendView, M.WritesOnly, IsBudget, Cap, InFragment,
           StandardBytesBounded, MayWrite, QueuedControl, QueuedStandard, CurrentClass, Reading, ReadBetween;
      count, outcome, steps := SendBuffer(total, budget, m, onlyControl, wasLong);
      ReadAt(old(time), time, time);
      if onlyControl {
        if currentIsControl {
          ControlBytesKeepBound(std, total, count, m, controlQueue != [], standardQueue != [], sent == sendblen);
        } else {
          StandardBytesKeepBound(std, total, count, m, wasLong, controlQueue != [], standardQueue != [], sent == sendblen);
        }
      }
    }

    /** Writes the packet in the buffer, and drops it when it is out. */
    method SendCurrent(std: uint32, total: uint32, budget: uint32, m: uint32, onlyControl: bool, wasLong: bool)
      returns (count: uint32, outcome: WriteOutcome, ghost steps: seq<M.Step>)
      requires SendValid() && byConnected != Disconnected && !busy && sendbuffer.Some?
      requires m > 0 && IsBudget(budget, m) && Cap(budget, m) < TWO32 && total < budget
      requires MayWrite(onlyControl, currentIsControl, wasLong, total, m)
      requires onlyControl ==> StandardBytesBounded(std, total, m, true, currentIsControl,
                                                    controlQueue != [], standardQueue != [])
      requires onlyControl && !currentIsControl ==> controlQueue == [] || standardQueue == []
      modifies `sendbuffer, `sendblen, `sent, `sentBytes, `actualPayloadSize, `actualPayloadSizeSent, `accelerateUpload,
               `time, `lastSent, `lastFinishedStandard, `failures, `waits, `busy, `wire, `history
      ensures SendValid()
      ensures history == old(history) + steps && M.WritesOnly(steps, CurrentClass(), count) && M.StartStandard !in steps
      ensures total + count <= Cap(budget, m) && (onlyControl && !currentIsControl ==> InFragment(total, count, m))
      ensures onlyControl ==> StandardBytesBounded(if currentIsControl then std else std + count, total + count, m,
                                                   sendbuffer.Some?, currentIsControl, controlQueue != [], standardQueue != [])
      ensures (outcome.WouldBlock? <==> busy) && (outcome.Wrote? ==> Unsent() < old(Unsent()))
      ensures Counted(outcome, old(failures), old(waits), failures, waits)
      ensures var now := Outstanding();
              now.(control := if currentIsControl then now.control + count else now.control,
                   rest := if currentIsControl then now.rest else now.rest + count) == old(Outstanding())
      ensures PaceGoes(old(time), time, old(PaceNow()), PaceNow()) && ReadBetween(old(time), time, PaceNow().lastSent)
    {
      hide SendOk, M.Exec, M.Next, M.Valid, M.Reached, SendView, M.WritesOnly, IsBudget, Cap, InFragment,
           StandardBytesBounded, MayWrite, QueuedControl, QueuedStandard, CurrentClass, Outstanding, ControlLeft,
           StandardLeft, Unsent, ReadBetween, PaceGoes, PaceNow;
      count, outcome, steps := SendPicked(std, total, budget, m, onlyControl, wasLong);
      ghost var written, pace := time, PaceNow();
      steps := FinishWhenSent(old(history), steps, count);
      PaceGoesOn(old(time), written, time, old(PaceNow()), pace, PaceNow());
    }

    /** One turn of the outer loop: takes a packet if none is in the buffer, writes what may be
        written of it, and drops it when it is out. The bytes are of the packet's class. */
    method SendRound(std: uint32, ctl: uint32, budget: uint32, m: uint32, onlyControl: bool, wasLong: bool)
      returns (count: uint32, outcome: WriteOutcome, ghost round: seq<M.Step>)
      requires SendValid() && byConnected != Disconnected && !busy
      requires controlQueue != [] || standardQueue != [] || sendbuffer.Some?
      requires m > 0 && IsBudget(budget, m) && Cap(budget, m) < TWO32 && std + ctl < budget
      requires MayContinue(onlyControl, std + ctl, m, sendbuffer.Some?, currentIsControl, wasLong,
                           controlQueue != [], standardQueue != [])
      requires onlyControl ==> StandardBytesBounded(std, std + ctl, m, sendbuffer.Some?, currentIsControl,
                                                    controlQueue != [], standardQueue != [])
      modifies `controlQueue, `standardQueue, `sendbuffer, `sendblen, `sent, `currentIsControl,
               `currentIsFromPartFile, `sentBytes, `actualPayloadSize, `actualPayloadSizeSent, `accelerateUpload,
               `time, `lastSent, `lastFinishedStandard, `failures, `waits, `busy, `wire, `history
      ensures SendValid()
      ensures history == old(history) + round && M.WritesOnly(round, CurrentClass(), count)
      ensures std + ctl + count <= Cap(budget, m)
      ensures var std' := if currentIsControl then std else std + count;
              onlyControl ==> StandardBytesBounded(std', std + ctl + count, m, sendbuffer.Some?, currentIsControl,
                                                   controlQueue != [], standardQueue != [])
      ensures outcome.WouldBlock? <==> busy
      ensures Counted(outcome, old(failures), old(waits), failures, waits)
      ensures outcome.Wrote? ==> Unsent() < old(Unsent())
      ensures M.StartStandard in round <==> old(sendbuffer).None? && old(controlQueue) == []
      ensures PaceGoes(old(time), time, old(PaceNow()), PaceNow()) && ReadBetween(old(time), time, PaceNow().lastSent)
      ensures Moves(old(Outstanding()), count, currentIsControl, Outstanding())
      ensures onlyControl && !currentIsControl ==> InFragment(std + ctl, count, m)
    {
      var total := std + ctl;
      hide SendOk, M.Exec, M.Next, M.Valid, M.Reached, SendView, M.WritesOnly, M.Written, M.WrittenStandard, IsBudget, Cap,
           InFragment, StandardBytesBounded, MayContinue, MayWrite, QueuedControl, QueuedStandard, CurrentClass, Moves,
           ControlLeft, StandardLeft, StandardBuffered, Outstanding, Unsent, ReadBetween, PaceGoes, PaceNow;
      TurnMayWrite(onlyControl, std, total, m, sendbuffer.Some?, currentIsControl, wasLong,
                   controlQueue != [], standardQueue != []);
      round := PickPacket(std, total, m, onlyControl);
      ghost var writes, before, picked := [], old(Outstanding()), Outstanding();
      count, outcome, writes := SendCurrent(std, total, budget, m, onlyControl, wasLong);
      MovesOn(before, picked, count, currentIsControl, Outstanding());
      M.WritesBoth(round, writes, CurrentClass(), 0, count);
      M.Associates(old(history), round, writes);
      round := round + writes;
    }

    /** One turn of the outer loop, after the steps `sofar` of it, and its bookkeeping. */
    method SendTurn(std0: uint32, ctl0: uint32, budget: uint32, m: uint32, onlyControl: bool, wasLong: bool,
                    ghost start: seq<M.Step>, ghost sofar: seq<M.Step>,
                    ghost was: Waiting)
      returns (std: uint32, ctl: uint32, outcome: WriteOutcome, ghost steps: seq<M.Step>)
      requires SendValid() && byConnected != Disconnected && !busy
      requires controlQueue != [] || standardQueue != [] || sendbuffer.Some?
      requires m > 0 && IsBudget(budget, m) && Cap(budget, m) < TWO32 && std0 + ctl0 < budget
      requires MayContinue(onlyControl, std0 + ctl0, m, sendbuffer.Some?, currentIsControl, wasLong,
                           controlQueue != [], standardQueue != [])
      requires history == start + sofar
      requires std0 == M.WrittenStandard(sofar) && ctl0 == M.Written(sofar, M.Control)
      requires onlyControl ==> StandardBytesBounded(std0, std0 + ctl0, m, sendbuffer.Some?, currentIsControl,
                                                    controlQueue != [], standardQueue != [])
      requires Sofar(onlyControl, wasLong, M.StartStandard in sofar, std0, ctl0, Outstanding(), was, budget, m)
      modifies `controlQueue, `standardQueue, `sendbuffer, `sendblen, `sent, `currentIsControl,
               `currentIsFromPartFile, `sentBytes, `actualPayloadSize, `actualPayloadSizeSent, `accelerateUpload,
               `time, `lastSent, `lastFinishedStandard, `failures, `waits, `busy, `wire, `history
      ensures SendValid()
      ensures history == start + steps
      ensures std == M.WrittenStandard(steps) && ctl == M.Written(steps, M.Control)
      ensures std + ctl <= Cap(budget, m)
      ensures onlyControl ==> StandardBytesBounded(std, std + ctl, m, sendbuffer.Some?, currentIsControl,
                                                   controlQueue != [], standardQueue != [])
      ensures Sofar(onlyControl, wasLong, M.StartStandard in steps, std, ctl, Outstanding(), was, budget, m)
      ensures PaceGoes(old(time), time, old(PaceNow()), PaceNow()) && ReadBetween(old(time), time, PaceNow().lastSent)
      ensures outcome.WouldBlock? <==> busy
      ensures Counted(outcome, old(failures), old(waits), failures, waits)
      ensures outcome.Wrote? ==> Unsent() < old(Unsent())
    {
      hide M.Exec, M.Next, M.Valid, M.Reached, SendView, M.Written, M.WrittenStandard, M.WritesOnly, QueuedControl,
           QueuedStandard, Unsent, IsBudget, Cap, MayContinue, ControlLeft, StandardLeft, Outstanding, Sofar, Moves, Seen,
           InFragment, PaceGoes, ReadBetween, PaceNow;
      OutstandingIsSeen();
      ghost var before := Outstanding();
      ghost var buffering, isControl := sendbuffer.Some?, currentIsControl;
      ghost var controlWaits, standardWaits := controlQueue != [], standardQueue != [];
      var count;
      ghost var round;
      count, outcome, round := SendRound(std0, ctl0, budget, m, onlyControl, wasLong);
      std, ctl := if currentIsControl then std0 else std0 + count, if currentIsControl then ctl0 + count else ctl0;
      M.WrittenThen(sofar, round, CurrentClass(), count);
      M.Associates(start, sofar, round);
      TurnKeepsSofar(onlyControl, wasLong, M.StartStandard in sofar, std0, ctl0, before, was, budget, m, buffering, isControl,
                     controlWaits, standardWaits, M.StartStandard in round, count, currentIsControl, Outstanding());
      steps := sofar + round;
    }

    /** The turns of the outer loop, until its tests end it. */
    method SendTurns(budget: uint32, m: uint32, onlyControl: bool, wasLong: bool)
      returns (std: uint32, ctl: uint32, outcome: WriteOutcome, ghost steps: seq<M.Step>)
      requires SendValid() && byConnected != Disconnected && !busy
      requires m > 0 && IsBudget(budget, m) && Cap(budget, m) < TWO32
      modifies `controlQueue, `standardQueue, `sendbuffer, `sendblen, `sent, `currentIsControl,
               `currentIsFromPartFile, `sentBytes, `actualPayloadSize, `actualPayloadSizeSent, `accelerateUpload,
               `time, `lastSent, `lastFinishedStandard, `failures, `waits, `busy, `wire, `history
      ensures SendValid()
      ensures history == old(history) + steps
      ensures std == M.WrittenStandard(steps) && ctl == M.Written(steps, M.Control)
      ensures std + ctl <= Cap(budget, m)
      ensures (outcome.WouldBlock? <==> busy) && Counted(outcome, old(failures), old(waits), failures, waits)
      ensures Sofar(onlyControl, wasLong, M.StartStandard in steps, std, ctl, Outstanding(), old(Outstanding()), budget, m)
      ensures PaceGoes(old(time), time, old(PaceNow()), PaceNow())
      ensures std + ctl > 0 ==> ReadBetween(old(time), time, PaceNow().lastSent)
      ensures !(std + ctl < budget && outcome.Wrote?
                && (controlQueue != [] || standardQueue != [] || sendbuffer.Some?)
                && MayContinue(onlyControl, std + ctl, m, sendbuffer.Some?, currentIsControl, wasLong,
                               controlQueue != [], standardQueue != []))
    {
      hide SendOk, M.Exec, M.Next, M.Valid, M.Reached, SendView, M.Written, M.WrittenStandard, M.WritesOnly,
           QueuedControl, QueuedStandard, IsBudget, TakesStandard, ControlLeft, StandardLeft, Seen;
      ghost var was := Outstanding();
      assert Sofar(onlyControl, wasLong, false, 0, 0, was, was, budget, m);
      assert PaceGoes(time, time, PaceNow(), PaceNow());
      hide Sofar, Outstanding, PaceGoes, ReadBetween, PaceNow, MayContinue;
      std, ctl, steps := 0, 0, [];
      M.WrittenNothing();
      outcome := Wrote(0);
      while std + ctl < budget && outcome.Wrote?
            && (controlQueue != [] || standardQueue != [] || sendbuffer.Some?)
            && MayContinue(onlyControl, std + ctl, m, sendbuffer.Some?, currentIsControl, wasLong,
                           controlQueue != [], standardQueue != [])
        invariant SendValid()
        invariant (outcome.WouldBlock? <==> busy) && Counted(outcome, old(failures), old(waits), failures, waits)
        invariant PaceGoes(old(time), time, old(PaceNow()), PaceNow())
        invariant std + ctl > 0 ==> ReadBetween(old(time), time, PaceNow().lastSent)
        invariant history == old(history) + steps
        invariant std == M.WrittenStandard(steps) && ctl == M.Written(steps, M.Control)
        invariant std + ctl <= Cap(budget, m)
        invariant onlyControl ==> StandardBytesBounded(std, std + ctl, m, sendbuffer.Some?, currentIsControl,
                                                       controlQueue != [], standardQueue != [])
        invariant Sofar(onlyControl, wasLong, M.StartStandard in steps, std, ctl, Outstanding(), was, budget, m)
        decreases outcome.Wrote?, Unsent()
      {
        hide *;
        ghost var pace, before := PaceNow(), time;
        std, ctl, outcome, steps := SendTurn(std, ctl, budget, m, onlyControl, wasLong, old(history), steps, was);
        PaceGoesOn(old(time), before, time, old(PaceNow()), pace, PaceNow());
      }
    }

    /** The outer loop, under a budget of whole fragments. */
    method SendRounds(budget: uint32, m: uint32, onlyControl: bool, wasLong: bool)
      returns (std: uint32, ctl: uint32, outcome: WriteOutcome, ghost steps: seq<M.Step>)
      requires SendValid() && byConnected != Disconnected && !busy
      requires m > 0 && IsBudget(budget, m) && Cap(budget, m) < TWO32
      modifies `controlQueue, `standardQueue, `sendbuffer, `sendblen, `sent, `currentIsControl,
               `currentIsFromPartFile, `sentBytes, `actualPayloadSize, `actualPayloadSizeSent, `accelerateUpload,
               `time, `lastSent, `lastFinishedStandard, `failures, `waits, `busy, `wire, `history
      ensures SendValid()
      ensures history == old(history) + steps
      ensures std == M.WrittenStandard(steps) && ctl == M.Written(steps, M.Control)
      ensures std + ctl <= Cap(budget, m)
      ensures onlyControl ==> std <= m
      ensures outcome.WouldBlock? <==> busy
      ensures Counted(outcome, old(failures), old(waits), failures, waits)
      ensures outcome.Wrote? && std + ctl < budget ==>
                if onlyControl then (if sendbuffer.None? then controlQueue == [] else !currentIsControl)
                else sendbuffer.None? && controlQueue == [] && standardQueue == []
      ensures onlyControl && (M.StartStandard in steps || outcome.Wrote?) ==>
                (M.StartStandard in steps <==> TakesStandard(old(Outstanding()), budget, m))
      ensures outcome.Wrote? && budget % m == 0 ==>
                WrittenExactly(onlyControl, wasLong, std, ctl, old(Outstanding()), budget, m)
      ensures Sofar(onlyControl, wasLong, M.StartStandard in steps, std, ctl, Outstanding(), old(Outstanding()), budget, m)
      ensures PaceGoes(old(time), time, old(PaceNow()), PaceNow())
      ensures std + ctl > 0 ==> ReadBetween(old(time), time, PaceNow().lastSent)
    {
      hide SendOk, M.Exec, M.Next, M.Valid, M.Reached, SendView, M.Written, M.WrittenStandard, IsBudget, TakesStandard,
           WrittenExactly, Seen, Outstanding, PaceGoes, ReadBetween, PaceNow;
      ghost var was := Outstanding();
      std, ctl, outcome, steps := SendTurns(budget, m, onlyControl, wasLong);
      OutstandingIsSeen();
      if onlyControl && outcome.Wrote? {
        EndedTakesStandard(wasLong, M.StartStandard in steps, std, ctl, Outstanding(), was, budget, m, sendbuffer.Some?,
                           currentIsControl, controlQueue != [], standardQueue != []);
      }
      if outcome.Wrote? && budget % m == 0 {
        EndedIsExact(onlyControl, wasLong, M.StartStandard in steps, std, ctl, Outstanding(), was, budget, m, sendbuffer.Some?, currentIsControl,
                     controlQueue != [], standardQueue != []);
      }
    }

    /** Works out the budget, reads the clock, and runs the outer loop. */
    method SendUnderBudget(maxBytes: uint32, m: uint32, onlyControl: bool)
      returns (std: uint32, ctl: uint32, outcome: WriteOutcome, ghost steps: seq<M.Step>, ghost now: uint32)
      requires SendValid() && byConnected == Connected && !busy && m > 0
      modifies `controlQueue, `standardQueue, `sendbuffer, `sendblen, `sent, `currentIsControl,
               `currentIsFromPartFile, `sentBytes, `actualPayloadSize, `actualPayloadSizeSent, `accelerateUpload,
               `time, `lastCalledSend, `lastSent, `lastFinishedStandard, `failures, `waits, `busy, `wire, `history
      ensures SendValid() && history == old(history) + steps && (outcome.WouldBlock? <==> busy)
      ensures Counted(outcome, old(failures), old(waits), failures, waits)
      ensures std == M.WrittenStandard(steps) && ctl == M.Written(steps, M.Control)
      ensures std + ctl <= RoundUp(maxBytes, m) && (onlyControl ==> std <= m)
      ensures outcome.Wrote? && std + ctl < NextFragSize(maxBytes, m) ==>
                if onlyControl then (if sendbuffer.None? then controlQueue == [] else !currentIsControl)
                else sendbuffer.None? && controlQueue == [] && standardQueue == []
      ensures onlyControl && (M.StartStandard in steps || outcome.Wrote?) ==>
                (M.StartStandard in steps <==> TakesStandard(old(Outstanding()), NextFragSize(maxBytes, m), m))
      ensures var was, wasLong := old(Outstanding()), Ticks(now, old(lastSent)) > 1000;
              && (onlyControl && was.rest > 0 && !(wasLong && was.control > 0 && was.standard == 0) ==> std == ctl == 0)
              && (outcome.Wrote? && RoundUp(maxBytes, m) < TWO32 ==>
                    WrittenExactly(onlyControl, wasLong, std, ctl, was, RoundUp(maxBytes, m), m))
      ensures PaceGoes(old(time), time, old(PaceNow()), PaceNow())
      ensures std + ctl > 0 ==> ReadBetween(old(time), time, PaceNow().lastSent)
      ensures ReadBetween(old(time), time, now) && ReadBetween(old(time), time, lastCalledSend)
    {
      hide SendOk, M.Exec, M.Next, M.Valid, M.Reached, SendView, M.Written, M.WrittenStandard, RoundUp, TakesStandard,
           ControlLeft, StandardLeft, StandardBuffered, QueuedStandard, Min, Outstanding, WrittenExactly, PaceGoes, ReadBetween;
      var budget := NextFragSize(maxBytes, m);
      BudgetIsRounded(maxBytes, m);
      NextFragSizeRounds(maxBytes, m);
      RoundUpIsMultiple(maxBytes, m);
      var clock := GetTickCount();
      now := clock;
      ghost var first := time;
      var wasLong := Ticks(clock, lastSent) > 1000;
      lastCalledSend := GetTickCount();
      ghost var second, pace := time, PaceNow();
      assert PaceGoes(old(time), second, old(PaceNow()), pace) by { PaceStays(old(time), second, pace); }
      std, ctl, outcome, steps := SendRounds(budget, m, onlyControl, wasLong);
      PaceGoesOn(old(time), second, time, old(PaceNow()), pace, PaceNow());
      ReadAt(old(time), first, time);
      ReadAt(old(time), second, time);
    }

    /** Puts queued packets on the socket, control packets first, at most the budget rounded up
        to whole fragments. A control-only call may complete one started fragment of standard
        bytes. `steps` is the run of the sending machine that the call performs, `now` the clock it reads
        first. */
    method Send(maxNumberOfBytesToSend: uint32, minFragSize: uint32, onlyControl: bool, encryptionReady: bool)
      returns (r: SocketSentBytes, ghost steps: seq<M.Step>, ghost now: uint32)
      requires SendValid()
      modifies `controlQueue, `standardQueue, `sendbuffer, `sendblen, `sent, `currentIsControl,
               `currentIsFromPartFile, `sentBytes, `actualPayloadSize, `actualPayloadSizeSent, `accelerateUpload,
               `time, `lastCalledSend, `lastSent, `lastFinishedStandard, `failures, `waits, `busy, `wire, `history
      ensures SendValid()
      ensures history == old(history) + steps
      ensures r.standardBytes == M.WrittenStandard(steps) && r.controlBytes == M.Written(steps, M.Control)
      ensures byConnected == Disconnected ==> r == SocketSentBytes(false, 0, 0) && steps == []
      ensures byConnected != Disconnected ==> (r.success <==> failures == old(failures))
      ensures busy <==> old(busy) || waits > old(waits)
      ensures var m := if minFragSize < 1 then 1 else minFragSize;
              && r.standardBytes + r.controlBytes <= RoundUp(maxNumberOfBytesToSend, m)
              && (onlyControl ==> r.standardBytes <= m)
              // a call that is neither refused nor stopped by the socket uses its budget up or leaves nothing to send
              && (byConnected == Connected && encryptionReady && !old(busy) && r.success && !busy
                  && r.standardBytes + r.controlBytes < NextFragSize(maxNumberOfBytesToSend, m) ==>
                    if onlyControl
                    then (if sendbuffer.None? then controlQueue == [] else !currentIsControl)
                    else sendbuffer.None? && controlQueue == [] && standardQueue == [])
              // a control-only call takes a standard packet only under this condition, and unless it is
              // refused or stopped by the socket always then
              && var takes := TakesStandard(old(Outstanding()), NextFragSize(maxNumberOfBytesToSend, m), m);
                 && (onlyControl && M.StartStandard in steps ==> takes)
                 && (onlyControl && byConnected == Connected && encryptionReady && !old(busy) && r.success && !busy ==>
                       (M.StartStandard in steps <==> takes))
      // a standard packet in the way of control packets is moved on only when nothing was sent for a second and no
      // other standard packet waits; otherwise a control-only call leaves it, and writes nothing
      ensures var was, std, ctl := old(Outstanding()), r.standardBytes, r.controlBytes;
              var moves := Ticks(now, old(lastSent)) > 1000 && was.control > 0 && was.standard == 0;
              onlyControl && was.rest > 0 && !moves ==> std == ctl == 0
      // the time of the last write is taken anew by a call that writes, and by no call that is refused; so is the time of the
      // call; a standard packet that is finished in the call ends the hurry
      ensures old(time) <= time
      ensures r.standardBytes + r.controlBytes > 0 ==> ReadBetween(old(time), time, lastSent)
      ensures lastSent == old(lastSent) || ReadBetween(old(time), time, lastSent)
      ensures if byConnected == Connected && encryptionReady && !old(busy) then ReadBetween(old(time), time, lastCalledSend)
              else lastCalledSend == old(lastCalledSend) && lastSent == old(lastSent) && steps == []
      ensures byConnected == Connected && encryptionReady && !old(busy) ==> ReadBetween(old(time), time, now)
      ensures (lastFinishedStandard == old(lastFinishedStandard) && accelerateUpload == old(accelerateUpload))
              || (ReadBetween(old(time), time, lastFinishedStandard) && !accelerateUpload)
      // how much a call writes that is neither refused nor stopped, when its budget rounds up within 32 bits
      ensures var m := if minFragSize < 1 then 1 else minFragSize;
              var was, std, ctl, budget := old(Outstanding()), r.standardBytes, r.controlBytes, RoundUp(maxNumberOfBytesToSend, m);
              byConnected == Connected && encryptionReady && !old(busy) && r.success && !busy && budget < TWO32 ==>
                if !onlyControl then
                  var rest := Min(was.rest, budget);
                  ctl == Min(was.control, budget - rest) && std == rest + Min(was.standard, budget - rest - ctl)
                else if was.rest > 0 then
                  var moves := Ticks(now, old(lastSent)) > 1000 && was.control > 0 && was.standard == 0 && budget > 0;
                  && std == (if moves then Min(was.rest, m) else 0)
                  && ctl + std == (if moves && was.rest <= m then Min(was.rest + was.control, budget) else std)
                else
                  && ctl == Min(was.control, budget)
                  && std == if was.control < budget && was.control % m != 0 then Min(was.standard, m - was.control % m) else 0
    {
      hide SendOk, M.Exec, M.Next, M.Valid, M.Reached, SendView, M.Written, M.WrittenStandard, RoundUp, TakesStandard,
           ControlLeft, StandardLeft, StandardBuffered, QueuedStandard, Min, ReadBetween, Reading, NextFragSize;
      steps, now := [], 0;
      M.WrittenNothing();
      if byConnected == Disconnected {
        r := SocketSentBytes(false, 0, 0);
        return;
      } else if busy && onlyControl {
        r := SocketSentBytes(true, 0, 0);
        return;
      }
      var std, ctl, outcome := 0, 0, Wrote(0);
      if byConnected == Connected && encryptionReady && (!busy || onlyControl) {
        var m: uint32 := if minFragSize < 1 then 1 else minFragSize;
        std, ctl, outcome, steps, now := SendUnderBudget(maxNumberOfBytesToSend, m, onlyControl);
      }
      r := SocketSentBytes(!outcome.Failed?, std, ctl);
    }

    /** Throws away the standard packets that have not been started. */
    method TruncateQueues()
      requires SendValid()
      modifies `standardQueue, `history
      ensures SendValid() && standardQueue == []
      ensures history == if byConnected == Disconnected then old(history) else old(history) + [M.Truncate]
    {
      hide M.Exec;
      ghost var before := SendView();
      standardQueue := [];
      if byConnected != Disconnected {
        Record(before, M.Truncate);
      }
    }

    /** Reads and resets the bytes sent under one class, also after the connection is closed. */
    method GetSentBytesSinceLastCallAndReset(which: M.Class) returns (bytes: uint64)
      requires SendValid()
      modifies `sentBytes, `history
      ensures SendValid()
      ensures bytes == M.WrittenSinceReset(old(history), which) % TWO64
      ensures history == old(history) + [M.ResetCounter(which)]
    {
      ghost var before := M.Exec(M.Initial(), history).value;
      hide M.Exec;
      M.CountersAreWrites(history, before, which);
      bytes := sentBytes.Get(which);
      sentBytes := sentBytes.Set(which, 0);
      Record(before, M.ResetCounter(which));
    }

    method GetSentPayloadSinceLastCallAndReset() returns (bytes: uint32)
      requires SendValid()
      modifies `actualPayloadSizeSent, `history
      ensures SendValid()
      ensures bytes == M.FinishedPayload(old(history)) % TWO32
      ensures history == old(history) + [M.ResetPayload]
    {
      ghost var before := M.Exec(M.Initial(), history).value;
      hide M.Exec;
      M.PayloadIsFinished(history, before);
      bytes := actualPayloadSizeSent;
      actualPayloadSizeSent := 0;
      Record(before, M.ResetPayload);
    }

    /** The bytes this socket must send to keep pace: never more than its current standard packet
        has left, and none when it has no standard packet. `now` is the clock. */
    method GetNeededBytes(now: uint32) returns (needed: uint32)
      requires SendValid()
      modifies `accelerateUpload
      ensures var standard := sendbuffer.Some? && !currentIsControl;
              if byConnected == Disconnected || (!standard && standardQueue == []) then needed == 0
              else
                && accelerateUpload == (old(accelerateUpload) || (standard && controlQueue != []))
                && var left := if standard then sendblen - sent else |standardQueue[0].packet.bytes|;
                   var total := if standard then sendblen else |standardQueue[0].packet.bytes|;
                   && needed <= left
                   && needed == NeededBytes(accelerateUpload, Ticks(now, lastFinishedStandard),
                                            Ticks(now, lastCalledSend), left, total)
                   // a packet gets 90 seconds, or 45 when it is in the way: overdue, all of it; on schedule, at most one
                   // byte to stay alive; else enough to be back on schedule, and at most one byte more
                   && var whole, elapsed := if accelerateUpload then 45_000 else 90_000, Ticks(now, lastFinishedStandard);
                   if elapsed >= whole then needed == left
                   else if (whole - elapsed) * total >= whole * left then
                     needed == if Ticks(now, lastCalledSend) > 20_000 then 1 else 0
                   else
                     && needed > 0 && (whole - elapsed) * total >= whole * (left - needed)
                     && (needed >= 2 ==> (whole - elapsed) * total < whole * (left - (needed - 2)))
    {
      if byConnected == Disconnected {
        return 0;
      }
      var standard := sendbuffer.Some? && !currentIsControl;
      if !(standard || standardQueue != []) {
        return 0;
      }
      if standard && controlQueue != [] {
        accelerateUpload := true;
      }
      var sendgap := Ticks(now, lastCalledSend);
      var timeleft := Ticks(now, lastFinishedStandard);
      var sizeleft, sizetotal;
      if standard {
        sizeleft, sizetotal := sendblen - sent, sendblen;
      } else {
        sizeleft := |standardQueue[0].packet.bytes|;
        sizetotal := sizeleft;
      }
      needed := BytesToKeepPace(accelerateUpload, timeleft, sendgap, sizeleft, sizetotal);
    }

    static method BytesToKeepPace(accelerate: bool, elapsed: uint32, sendgap: uint32, sizeleft: uint32, sizetotal: uint32)
      returns (needed: uint32)
      requires 0 < sizeleft <= sizetotal
      ensures needed <= sizeleft
      ensures needed == NeededBytes(accelerate, elapsed, sendgap, sizeleft, sizetotal)
      ensures var whole := if accelerate then 45_000 else 90_000;
              if elapsed >= whole then needed == sizeleft
              else if (whole - elapsed) * sizetotal >= whole * sizeleft then needed == if sendgap > 20_000 then 1 else 0
              else
                && needed > 0 && (whole - elapsed) * sizetotal >= whole * (sizeleft - needed)
                && (needed >= 2 ==> (whole - elapsed) * sizetotal < whole * (sizeleft - (needed - 2)))
    {
      var timetotal := TimeTotal(accelerate);
      if elapsed >= timetotal {
        needed := sizeleft;
      } else {
        var timeleft := timetotal - elapsed;
        NeededIsExact(timeleft * sizetotal, accelerate, sendgap, sizeleft);
        hide Needed;
        needed := BytesDue(timeleft * sizetotal, accelerate, sendgap, sizeleft);
      }
    }

    static method BytesDue(due: nat, accelerate: bool, sendgap: uint32, sizeleft: uint32) returns (needed: uint32)
      requires 0 < sizeleft
      ensures needed <= sizeleft && needed == Needed(due, accelerate, sendgap, sizeleft)
    {
      NeededIsExact(due, accelerate, sendgap, sizeleft);
      var timetotal := TimeTotal(accelerate);
      if due >= timetotal * sizeleft {
        return if sendgap > 20_000 then 1 else 0;
      }
      var decval := due / timetotal;
      if decval == 0 {
        return sizeleft;
      }
      // the quotient is below the bytes left, so the source's final `return 1` is dead
      return sizeleft - decval + 1;
    }

    /** The socket can take bytes again. */
    method OnSend()
      requires SendValid()
      modifies `busy, `byConnected
      ensures SendValid() && !busy
      ensures byConnected == if old(byConnected) == Disconnected then Disconnected else Connected
    {
      busy := false;
      if byConnected != Disconnected {
        byConnected := Connected;
      }
    }

    /** Closes the connection: whatever waits is dropped, the wire stays as it is. */
    method OnClose()
      requires SendValid()
      modifies `byConnected, `controlQueue, `standardQueue, `sendbuffer, `sendblen, `sent
      ensures SendValid() && byConnected == Disconnected
      ensures controlQueue == [] && standardQueue == [] && sendbuffer.None?
    {
      hide M.Exec;
      byConnected := Disconnected;
      controlQueue, standardQueue := [], [];
      sendbuffer, sendblen, sent := None, 0, 0;
    }
  }

  lemma TwoQueued(control: M.Packet, standard: M.StandardEntry)
    ensures M.Exec(M.Initial(), [M.QueueControl(control), M.QueueStandard(standard)])
         == Some(M.Initial().(control := [control], standard := [standard]))
  {
    var first, second := M.QueueControl(control), M.QueueStandard(standard);
    assert [] + [control] == [control] && [] + [standard] == [standard];
    assert [] + [first] == [first] && [first] + [second] == [first, second];
    M.Extend([], M.Initial(), first, M.Initial().(control := [control]));
    M.Extend([first], M.Initial().(control := [control]), second,
             M.Initial().(control := [control], standard := [standard]));
  }

  lemma OneQueued(control: M.Packet, standard: M.StandardEntry)
    ensures QueuedControl([control]) == |control.bytes| && QueuedStandard([standard]) == |standard.packet.bytes|
  {
    assert [control][1..] == [] && [standard][1..] == [];
  }

  /** A control-only call that takes a new standard packet: seven control bytes wait, fragments
      have ten bytes, and the loop fills the fragment up. */
  lemma FragmentIsFilledUp(control: M.Packet, standard: M.StandardEntry, wasLong: bool)
    requires |control.bytes| == 7
    ensures TakesStandard(Waiting(7, 0, |standard.packet.bytes|), NextFragSize(10, 10), 10)
    ensures MayContinue(true, 0, 10, false, false, wasLong, true, true)
    ensures MayContinue(true, 7, 10, false, true, wasLong, false, true)
    ensures var queued := [M.QueueControl(control), M.QueueStandard(standard)];
            M.Exec(M.Initial(), queued + [M.StartControl] + [M.Write(7, M.Control)] + [M.Finish] + [M.StartStandard]).Some?
  {
    TwoQueued(control, standard);
    var queued := [M.QueueControl(control), M.QueueStandard(standard)];
    var waiting := M.Initial().(control := [control], standard := [standard]);
    var started := M.Next(waiting, M.StartControl).value;
    M.Extend(queued, waiting, M.StartControl, started);
    M.WriteEffect(started, 7);
    var written := M.Next(started, M.Write(7, M.Control)).value;
    M.Extend(queued + [M.StartControl], started, M.Write(7, M.Control), written);
    var finished := M.Next(written, M.Finish).value;
    M.Extend(queued + [M.StartControl] + [M.Write(7, M.Control)], written, M.Finish, finished);
    M.Extend(queued + [M.StartControl] + [M.Write(7, M.Control)] + [M.Finish], finished, M.StartStandard,
             M.Next(finished, M.StartStandard).value);
  }

  /** A connected socket where seven control bytes and a standard packet wait. */
  method QueueSevenBytes(control: M.Packet, standard: M.Packet, now: uint32) returns (socket: EMSocketSender)
    requires |control.bytes| == 7
    ensures fresh(socket) && socket.SendValid() && socket.byConnected == Connected && !socket.busy
    ensures socket.Outstanding() == Waiting(7, 0, |standard.bytes|)
  {
    hide M.Exec, M.Reached, M.Next;
    socket := new EMSocketSender(now);
    socket.OnSend();
    socket.SendPacket(control, true, 0, now);
    socket.SendPacket(standard, false, 0, now);
    TwoQueued(control, M.StandardEntry(0, standard));
    assert socket.history == [M.QueueControl(control), M.QueueStandard(M.StandardEntry(0, standard))];
    assert socket.SendView() == M.Initial().(control := [control], standard := [M.StandardEntry(0, standard)]);
    OneQueued(control, M.StandardEntry(0, standard));
    hide QueuedControl, QueuedStandard;
  }

  /** The same on an object: unless the socket stops it, such a call takes the standard packet. */
  method SendSevenBytes(control: M.Packet, standard: M.Packet, now: uint32)
    returns (socket: EMSocketSender, r: SocketSentBytes, ghost steps: seq<M.Step>)
    requires |control.bytes| == 7
    ensures r.success && !socket.busy ==>
              M.StartStandard in steps && r.controlBytes == 7 && r.standardBytes == Min(|standard.bytes|, 3)
  {
    socket := QueueSevenBytes(control, standard, now);
    assert TakesStandard(Waiting(7, 0, |standard.bytes|), NextFragSize(10, 10), 10) && RoundUp(10, 10) == 10 && Min(7, 10) == 7;
    assert 7 % 10 == 7 && 10 < TWO32;
    hide *;
    ghost var now;
    r, steps, now := socket.Send(10, 10, true, true);
  }
}
