/** The sender of a CEMSocket as a machine of small steps.

    `Exec` runs a list of steps and answers `None` when a step is taken where its
    guard forbids it. The class `EMSocketSender` proves that each of its methods performs
    a run of this machine; the lemmas here hold of every run. */
module SendMachine {
  import opened Words
  import opened Arithmetic

  /** A packet always has its six header bytes, so it is never empty, and its length is a uint32. */
  type Bytes = seq<uint8>
  type PacketBytes = b: Bytes | 0 < |b| < TWO32 witness [0]

  datatype Packet = Packet(bytes: PacketBytes, fromPartFile: bool)
  datatype StandardEntry = StandardEntry(payload: uint32, packet: Packet)

  /** The class a written byte is booked under. */
  datatype Class = Control | PartFile | CompleteFile

  datatype Counters = Counters(control: uint64, partFile: uint64, completeFile: uint64) {
    function Get(c: Class): uint64 {
      match c case Control => control case PartFile => partFile case CompleteFile => completeFile
    }

    function Set(c: Class, n: uint64): Counters {
      match c
      case Control => this.(control := n)
      case PartFile => this.(partFile := n)
      case CompleteFile => this.(completeFile := n)
    }
  }

  /** `control`, `standard`: the two queues. `buffer`: the packet being sent, `sent` bytes of it
      are out. `counters` and `payloadSent` are the statistics read and reset by the uploader.
      `wire` is what the socket has accepted so far. */
  datatype State = State(
    control: seq<Packet>,
    standard: seq<StandardEntry>,
    buffer: Option<PacketBytes>,
    bufferClass: Class,
    sent: nat,
    payload: uint32,
    counters: Counters,
    payloadSent: uint32,
    wire: Bytes)

  datatype Step =
    | QueueControl(packet: Packet)
    | QueueStandard(entry: StandardEntry)
    | StartControl
    | StartStandard
    | Write(count: nat, cls: Class)
    | Finish
    | Truncate
    | ResetCounter(which: Class)
    | ResetPayload

  function Initial(): State {
    State([], [], None, CompleteFile, 0, 0, Counters(0, 0, 0), 0, [])
  }

  function ClassOf(p: Packet): Class {
    if p.fromPartFile then PartFile else CompleteFile
  }

  ghost predicate Valid(s: State) {
    && (s.buffer.Some? ==> s.sent <= |s.buffer.value|)
    && (s.buffer.None? ==> s.sent == 0)
  }

  /** One step, or None where the step is not allowed. */
  function Next(s: State, step: Step): Option<State>
    requires Valid(s)
    ensures Next(s, step).Some? ==> Valid(Next(s, step).value)
  {
    match step
    case QueueControl(p) => Some(s.(control := s.control + [p]))
    case QueueStandard(e) => Some(s.(standard := s.standard + [e]))
    case StartControl =>
      if s.buffer.Some? || s.control == [] then None
      else Some(s.(control := s.control[1..], buffer := Some(s.control[0].bytes), bufferClass := Control, sent := 0))
    case StartStandard =>
      // a standard packet starts only when no control packet waits
      if s.buffer.Some? || s.control != [] || s.standard == [] then None
      else
        var e := s.standard[0];
        Some(s.(standard := s.standard[1..], buffer := Some(e.packet.bytes), bufferClass := ClassOf(e.packet), sent := 0,
                payload := e.payload))
    case Write(n, cls) =>
      if s.buffer.None? || cls != s.bufferClass || s.sent + n > |s.buffer.value| then None
      else Some(s.(sent := s.sent + n, wire := s.wire + s.buffer.value[s.sent..s.sent + n],
                   counters := s.counters.Set(cls, (s.counters.Get(cls) + n) % TWO64)))
    case Finish =>
      if s.buffer.None? || s.sent < |s.buffer.value| then None
      else if s.bufferClass == Control then Some(s.(buffer := None, sent := 0))
      else Some(s.(buffer := None, sent := 0, payload := 0, payloadSent := (s.payloadSent + s.payload) % TWO32))
    case Truncate => Some(s.(standard := []))
    case ResetCounter(c) => Some(s.(counters := s.counters.Set(c, 0)))
    case ResetPayload => Some(s.(payloadSent := 0))
  }

  /** Runs the steps from left to right. */
  function Exec(s: State, steps: seq<Step>): (r: Option<State>)
    requires Valid(s)
    ensures r.Some? ==> Valid(r.value)
    decreases |steps|
  {
    if steps == [] then Some(s)
    else
      var last := |steps| - 1;
      match Exec(s, steps[..last])
      case None => None
      case Some(t) => Next(t, steps[last])
  }

  /** The run `steps` from the initial state puts exactly `wire` on the socket and leaves these statistics. */
  ghost predicate Reached(steps: seq<Step>, wire: Bytes, counters: Counters, payloadSent: uint32) {
    match Exec(Initial(), steps)
    case None => false
    case Some(s) => s.wire == wire && s.counters == counters && s.payloadSent == payloadSent
  }

  lemma Extend(steps: seq<Step>, s: State, step: Step, t: State)
    requires Exec(Initial(), steps) == Some(s) && Next(s, step) == Some(t)
    ensures Exec(Initial(), steps + [step]) == Some(t) && Reached(steps + [step], t.wire, t.counters, t.payloadSent)
  {
    hide Next;
    assert (steps + [step])[..|steps|] == steps;
  }

  /** The effect of writing `n` bytes of the packet in the buffer. */
  lemma WriteEffect(s: State, n: nat)
    requires Valid(s) && s.buffer.Some? && s.sent + n <= |s.buffer.value|
    ensures Next(s, Write(n, s.bufferClass))
         == Some(State(s.control, s.standard, s.buffer, s.bufferClass, s.sent + n, s.payload,
                       s.counters.Set(s.bufferClass, (s.counters.Get(s.bufferClass) + n) % TWO64), s.payloadSent,
                       s.wire + s.buffer.value[s.sent..s.sent + n]))
  {
  }

  /** The effect of taking the first standard packet. */
  lemma StartStandardEffect(s: State)
    requires Valid(s) && s.buffer.None? && s.control == [] && s.standard != []
    ensures Next(s, StartStandard)
         == Some(State([], s.standard[1..], Some(s.standard[0].packet.bytes), ClassOf(s.standard[0].packet), 0,
                       s.standard[0].payload, s.counters, s.payloadSent, s.wire))
  {
  }

  /** The effect of dropping a finished packet. */
  lemma FinishEffect(s: State)
    requires Valid(s) && s.buffer.Some? && s.sent == |s.buffer.value|
    ensures Next(s, Finish)
         == Some(State(s.control, s.standard, None, s.bufferClass, 0,
                       if s.bufferClass == Control then s.payload else 0, s.counters,
                       if s.bufferClass == Control then s.payloadSent else (s.payloadSent + s.payload) % TWO32, s.wire))
  {
  }

  /** Runs compose, so a history made of successive calls is itself a run. */
  lemma {:induction false} ExecConcat(s: State, xs: seq<Step>, t: State, ys: seq<Step>)
    requires Valid(s) && Exec(s, xs) == Some(t)
    ensures Exec(s, xs + ys) == Exec(t, ys)
    decreases |ys|
  {
    hide Next;
    if ys == [] {
      assert xs + ys == xs;
    } else {
      var last := |ys| - 1;
      ExecConcat(s, xs, t, ys[..last]);
      assert (xs + ys)[..|xs| + last] == xs + ys[..last];
    }
  }

  // ----- the reference reading of a history, which looks at the steps only -----

  /** Control packets accepted, in order. */
  function AcceptedControl(steps: seq<Step>): seq<Packet> {
    if steps == [] then []
    else
      var rest := AcceptedControl(steps[..|steps| - 1]);
      match steps[|steps| - 1]
      case QueueControl(p) => rest + [p]
      case _ => rest
  }

  function StartedControl(steps: seq<Step>): nat {
    if steps == [] then 0
    else StartedControl(steps[..|steps| - 1]) + if steps[|steps| - 1].StartControl? then 1 else 0
  }

  function StartedStandard(steps: seq<Step>): nat {
    if steps == [] then 0
    else StartedStandard(steps[..|steps| - 1]) + if steps[|steps| - 1].StartStandard? then 1 else 0
  }

  /** Standard packets accepted and not thrown away by a truncation: a truncation keeps exactly
      those that have been started. */
  function KeptStandard(steps: seq<Step>): seq<StandardEntry> {
    if steps == [] then []
    else
      var before := steps[..|steps| - 1];
      var kept := KeptStandard(before);
      match steps[|steps| - 1]
      case QueueStandard(e) => kept + [e]
      case Truncate => if StartedStandard(before) <= |kept| then kept[..StartedStandard(before)] else kept
      case _ => kept
  }

  /** The packets started, in the order they were started; the i-th control packet started is
      the i-th accepted, the i-th standard packet started is the i-th kept. */
  function Started(steps: seq<Step>): seq<PacketBytes> {
    if steps == [] then []
    else
      var before := steps[..|steps| - 1];
      var earlier := Started(before);
      match steps[|steps| - 1]
      case StartControl =>
        var i, all := StartedControl(before), AcceptedControl(before);
        if i < |all| then earlier + [all[i].bytes] else earlier
      case StartStandard =>
        var i, all := StartedStandard(before), KeptStandard(before);
        if i < |all| then earlier + [all[i].packet.bytes] else earlier
      case _ => earlier
  }

  function Flatten(ps: seq<PacketBytes>): Bytes {
    if ps == [] then [] else Flatten(ps[..|ps| - 1]) + ps[|ps| - 1]
  }

  /** Bytes written under one class since its counter was last reset. */
  function WrittenSinceReset(steps: seq<Step>, c: Class): nat {
    if steps == [] then 0
    else Booked(WrittenSinceReset(steps[..|steps| - 1], c), steps[|steps| - 1], c)
  }

  function Booked(before: nat, step: Step, c: Class): nat {
    match step
    case Write(n, cls) => if cls == c then before + n else before
    case ResetCounter(which) => if which == c then 0 else before
    case _ => before
  }

  /** The standard packet in the buffer, as the steps tell it: the one started last, if it is not out. */
  function EntryInBuffer(steps: seq<Step>): Option<StandardEntry> {
    if steps == [] then None
    else
      var before := steps[..|steps| - 1];
      match steps[|steps| - 1]
      case StartStandard =>
        var i, all := StartedStandard(before), KeptStandard(before);
        if i < |all| then Some(all[i]) else None
      case StartControl => None
      case Finish => None
      case _ => EntryInBuffer(before)
  }

  function PayloadOf(e: Option<StandardEntry>): uint32 {
    if e.None? then 0 else e.value.payload
  }

  /** The payloads of the standard packets finished since the payload counter was last reset. */
  function FinishedPayload(steps: seq<Step>): nat {
    if steps == [] then 0
    else
      var before := steps[..|steps| - 1];
      match steps[|steps| - 1]
      case Finish => FinishedPayload(before) + PayloadOf(EntryInBuffer(before))
      case ResetPayload => 0
      case _ => FinishedPayload(before)
  }

  /** All bytes written under one class. */
  function Written(steps: seq<Step>, c: Class): nat {
    if steps == [] then 0
    else Written(steps[..|steps| - 1], c)
         + match steps[|steps| - 1] { case Write(n, cls) => if cls == c then n else 0 case _ => 0 }
  }

  function WrittenStandard(steps: seq<Step>): nat {
    Written(steps, PartFile) + Written(steps, CompleteFile)
  }

  /** `steps` writes `n` bytes, all under the class `cls`. */
  ghost predicate WritesOnly(steps: seq<Step>, cls: Class, n: nat) {
    forall c: Class :: Written(steps, c) == if c == cls then n else 0
  }

  lemma Associates(xs: seq<Step>, ys: seq<Step>, zs: seq<Step>)
    ensures xs + (ys + zs) == (xs + ys) + zs
  {
  }

  lemma WrittenNothing()
    ensures Written([], Control) == 0 && WrittenStandard([]) == 0
  {
  }

  lemma WritesNothing(cls: Class)
    ensures WritesOnly([], cls, 0)
  {
  }

  lemma WritesMore(steps: seq<Step>, cls: Class, n: nat, count: nat)
    requires WritesOnly(steps, cls, n)
    ensures WritesOnly(steps + [Write(count, cls)], cls, n + count)
  {
    assert (steps + [Write(count, cls)])[..|steps|] == steps;
  }

  lemma WritesNone(step: Step, cls: Class)
    requires !step.Write?
    ensures WritesOnly([step], cls, 0)
  {
    assert [step][..0] == [];
  }

  lemma WritesBoth(xs: seq<Step>, ys: seq<Step>, cls: Class, n: nat, k: nat)
    requires WritesOnly(xs, cls, n) && WritesOnly(ys, cls, k)
    ensures WritesOnly(xs + ys, cls, n + k)
  {
    forall c: Class ensures Written(xs + ys, c) == if c == cls then n + k else 0 {
      WrittenConcat(xs, ys, c);
    }
  }

  /** Steps that write one class only add to that class only. */
  lemma WrittenThen(steps: seq<Step>, more: seq<Step>, cls: Class, n: nat)
    requires WritesOnly(more, cls, n)
    ensures Written(steps + more, Control) == Written(steps, Control) + (if cls == Control then n else 0)
    ensures WrittenStandard(steps + more) == WrittenStandard(steps) + (if cls == Control then 0 else n)
  {
    WrittenConcat(steps, more, Control);
    WrittenConcat(steps, more, PartFile);
    WrittenConcat(steps, more, CompleteFile);
  }

  lemma {:induction false} WrittenConcat(xs: seq<Step>, ys: seq<Step>, c: Class)
    ensures Written(xs + ys, c) == Written(xs, c) + Written(ys, c)
    decreases |ys|
  {
    if ys == [] {
      assert xs + ys == xs;
    } else {
      var last := |ys| - 1;
      WrittenConcat(xs, ys[..last], c);
      assert (xs + ys)[..|xs| + last] == xs + ys[..last];
    }
  }

  // ----- what every run does -----

  /** The state agrees with the entry in the buffer, the class its bytes are booked under, and the payload finished. */
  ghost predicate EntryTold(s: State, e: Option<StandardEntry>, finished: nat) {
    && s.payloadSent == finished % TWO32
    && (e.Some? <==> s.buffer.Some? && s.bufferClass != Control)
    && (e.Some? ==> s.buffer.value == e.value.packet.bytes && s.payload == e.value.payload
                    && s.bufferClass == if e.value.packet.fromPartFile then PartFile else CompleteFile)
  }

  lemma EntryStep(s: State, step: Step, t: State, e: Option<StandardEntry>, finished: nat, next: Option<StandardEntry>)
    requires Valid(s) && Next(s, step) == Some(t) && EntryTold(s, e, finished)
    requires step.StartStandard? ==> s.standard != [] && next == Some(s.standard[0])
    requires step.StartControl? || step.Finish? ==> next.None?
    requires !step.StartStandard? && !step.StartControl? && !step.Finish? ==> next == e
    ensures EntryTold(t, next, if step.Finish? then finished + PayloadOf(e) else if step.ResetPayload? then 0 else finished)
  {
  }

  /** A standard packet in the buffer is the one started last, its bytes are booked under the class it was queued with, and
      the payload counter is the payload of the standard packets finished since its last reset, modulo 2^32. */
  lemma {:induction false} PayloadIsFinished(steps: seq<Step>, s: State)
    requires Exec(Initial(), steps) == Some(s)
    ensures EntryTold(s, EntryInBuffer(steps), FinishedPayload(steps))
    decreases |steps|
  {
    if steps != [] {
      var last := |steps| - 1;
      var before := Exec(Initial(), steps[..last]).value;
      PayloadIsFinished(steps[..last], before);
      StandardInOrder(steps[..last], before);
      hide Next, EntryTold, Exec;
      if steps[last].StartStandard? {
        StartNeedsStandard(before, s);
      }
      EntryStep(before, steps[last], s, EntryInBuffer(steps[..last]), FinishedPayload(steps[..last]), EntryInBuffer(steps));
    }
  }

  lemma StartNeedsStandard(s: State, t: State)
    requires Valid(s) && Next(s, StartStandard) == Some(t)
    ensures s.standard != []
  {
  }

  lemma ControlStep(s: State, step: Step, t: State, accepted: seq<Packet>, started: nat)
    requires Valid(s) && Next(s, step) == Some(t) && started <= |accepted| && s.control == accepted[started..]
    ensures match step
            case QueueControl(p) => t.control == (accepted + [p])[started..]
            case StartControl => started < |accepted| && t.control == accepted[started + 1..]
            case _ => t.control == accepted[started..]
  {
    match step {
      case QueueControl(p) => assert accepted[started..] + [p] == (accepted + [p])[started..];
      case StartControl => assert accepted[started..][1..] == accepted[started + 1..];
      case _ =>
    }
  }

  /** Control packets leave in the order they were accepted, none lost and none twice. */
  lemma {:induction false} ControlInOrder(steps: seq<Step>, s: State)
    requires Exec(Initial(), steps) == Some(s)
    ensures StartedControl(steps) <= |AcceptedControl(steps)|
    ensures s.control == AcceptedControl(steps)[StartedControl(steps)..]
    decreases |steps|
  {
    if steps != [] {
      var last := |steps| - 1;
      var before := Exec(Initial(), steps[..last]).value;
      hide Next;
      ControlInOrder(steps[..last], before);
      ControlStep(before, steps[last], s, AcceptedControl(steps[..last]), StartedControl(steps[..last]));
    }
  }

  lemma StandardStep(s: State, step: Step, t: State, kept: seq<StandardEntry>, started: nat)
    requires Valid(s) && Next(s, step) == Some(t) && started <= |kept| && s.standard == kept[started..]
    ensures match step
            case QueueStandard(e) => t.standard == (kept + [e])[started..]
            case Truncate => t.standard == kept[..started][started..]
            case StartStandard => started < |kept| && t.standard == kept[started + 1..]
            case _ => t.standard == kept[started..]
  {
    match step {
      case QueueStandard(e) => assert kept[started..] + [e] == (kept + [e])[started..];
      case StartStandard => assert kept[started..][1..] == kept[started + 1..];
      case _ =>
    }
  }

  /** Standard packets leave in order; a truncation drops exactly those not yet started. */
  lemma {:induction false} StandardInOrder(steps: seq<Step>, s: State)
    requires Exec(Initial(), steps) == Some(s)
    ensures StartedStandard(steps) <= |KeptStandard(steps)|
    ensures s.standard == KeptStandard(steps)[StartedStandard(steps)..]
    decreases |steps|
  {
    if steps != [] {
      var last := |steps| - 1;
      var before := Exec(Initial(), steps[..last]).value;
      hide Next;
      StandardInOrder(steps[..last], before);
      StandardStep(before, steps[last], s, KeptStandard(steps[..last]), StartedStandard(steps[..last]));
    }
  }

  /** Whenever a standard packet starts, every control packet accepted so far has already started. */
  lemma {:induction false} ControlFirst(steps: seq<Step>, s: State, i: nat)
    requires Exec(Initial(), steps) == Some(s)
    requires i < |steps| && steps[i].StartStandard?
    ensures StartedControl(steps[..i]) == |AcceptedControl(steps[..i])|
    decreases |steps|
  {
    var last := |steps| - 1;
    var before := Exec(Initial(), steps[..last]).value;
    if i == last {
      ControlInOrder(steps[..last], before);
    } else {
      assert steps[..last][..i] == steps[..i];
      ControlFirst(steps[..last], before, i);
    }
  }

  /** The wire carries the started packets back to back, the one still in the buffer cut after
      its first `sent` bytes. */
  ghost predicate WireCarries(started: seq<PacketBytes>, s: State) {
    if s.buffer.None? then s.wire == Flatten(started)
    else
      && started != []
      && var finished := |started| - 1;
         && started[finished] == s.buffer.value
         && s.sent <= |s.buffer.value|
         && s.wire == Flatten(started[..finished]) + s.buffer.value[..s.sent]
  }

  lemma WireStart(started: seq<PacketBytes>, s: State, step: Step, t: State)
    requires Valid(s) && WireCarries(started, s) && Next(s, step) == Some(t)
    requires step.StartControl? || step.StartStandard?
    ensures WireCarries(started + [t.buffer.value], t)
  {
    assert (started + [t.buffer.value])[..|started|] == started;
  }

  lemma WireStep(started: seq<PacketBytes>, s: State, step: Step, t: State)
    requires Valid(s) && WireCarries(started, s) && Next(s, step) == Some(t)
    requires !step.StartControl? && !step.StartStandard?
    ensures WireCarries(started, t)
  {
    match step {
      case Write(n, cls) =>
        var front, b := Flatten(started[..|started| - 1]), s.buffer.value;
        hide Flatten;
        assert (front + b[..s.sent]) + b[s.sent..s.sent + n] == front + b[..s.sent + n];
      case Finish =>
        var b := s.buffer.value;
        assert b[..s.sent] == b;
      case _ =>
    }
  }

  lemma StartedStep(steps: seq<Step>, before: State, s: State)
    requires steps != []
    requires Exec(Initial(), steps[..|steps| - 1]) == Some(before) && Next(before, steps[|steps| - 1]) == Some(s)
    ensures Started(steps)
         == Started(steps[..|steps| - 1])
            + if steps[|steps| - 1].StartControl? || steps[|steps| - 1].StartStandard? then [s.buffer.value] else []
  {
    var last := |steps| - 1;
    if steps[last].StartControl? {
      ControlInOrder(steps[..last], before);
    } else if steps[last].StartStandard? {
      StandardInOrder(steps[..last], before);
    }
  }

  lemma {:induction false} WireIsWholePackets(steps: seq<Step>, s: State)
    requires Exec(Initial(), steps) == Some(s)
    ensures WireCarries(Started(steps), s)
    decreases |steps|
  {
    hide Next;
    if steps != [] {
      var last := |steps| - 1;
      var before := Exec(Initial(), steps[..last]).value;
      WireIsWholePackets(steps[..last], before);
      StartedStep(steps, before, s);
      if steps[last].StartControl? || steps[last].StartStandard? {
        WireStart(Started(steps[..last]), before, steps[last], s);
      } else {
        WireStep(Started(steps[..last]), before, steps[last], s);
        assert Started(steps) == Started(steps[..last]);
      }
    }
  }

  lemma CounterStep(s: State, step: Step, t: State, c: Class, written: nat)
    requires Valid(s) && Next(s, step) == Some(t)
    requires s.counters.Get(c) == written % TWO64
    ensures t.counters.Get(c) == Booked(written, step, c) % TWO64
  {
    if step.Write? && step.cls == c {
      assert t.counters.Get(c) == (s.counters.Get(c) + step.count) % TWO64;
      assert TWO64 > 0;
      hide *;
      ModuloPlus(written, step.count, TWO64);
    }
  }

  /** Each statistic is the number of bytes written under its class since it was last read,
      in 64-bit arithmetic. */
  lemma {:induction false} CountersAreWrites(steps: seq<Step>, s: State, c: Class)
    requires Exec(Initial(), steps) == Some(s)
    ensures s.counters.Get(c) == WrittenSinceReset(steps, c) % TWO64
    decreases |steps|
  {
    hide Next;
    if steps != [] {
      var last := |steps| - 1;
      var before := Exec(Initial(), steps[..last]).value;
      CountersAreWrites(steps[..last], before, c);
      CounterStep(before, steps[last], s, c, WrittenSinceReset(steps[..last], c));
    }
  }

  /** Every byte on the wire is booked under exactly one class. */
  lemma {:induction false} WireIsBooked(steps: seq<Step>, s: State, t: State)
    requires Valid(s) && Exec(s, steps) == Some(t)
    ensures |t.wire| == |s.wire| + Written(steps, Control) + WrittenStandard(steps)
    decreases |steps|
  {
    if steps != [] {
      var last := |steps| - 1;
      WireIsBooked(steps[..last], s, Exec(s, steps[..last]).value);
    }
  }
}
