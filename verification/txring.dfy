/** The transmit ring of the network card: the driver fills slots and moves the tail, the card empties them
    and moves the head. The two run at the same time; every interleaving of their steps is considered. */
module TransmitRing {
  import opened Bytes

  const RING: nat := 256
  const BUFFER: nat := 2048
  /** End of packet, insert checksum, report status. */
  const SEND_COMMAND: nat := 0x0B

  /** A descriptor; `done` is the DD bit of its status. */
  datatype Desc = Desc(len: nat, cmd: nat, done: bool)

  predicate EndsPacket(cmd: nat) { cmd % 2 == 1 }

  predicate ReportsStatus(cmd: nat) { cmd / 8 % 2 == 1 }

  /** Where the driver stands inside send_packet. */
  datatype Driver =
    | Idle
    | Checking(data: seq<byte>)
    | Copying(data: seq<byte>, at: nat)
    | LengthSet(data: seq<byte>)
    | CommandSet(data: seq<byte>)
    | StatusCleared(data: seq<byte>)

  /** Shared memory, the two registers, both agents, and what was accepted and sent so far. `fetched` is the part
      of the current buffer the card has read, `frame` the descriptors of an unfinished packet, and `owed` the
      number of descriptors that were sent but not yet written back. */
  datatype State = State(
    descs: seq<Desc>, bufs: seq<seq<byte>>, head: nat, tail: nat, driver: Driver,
    fetched: seq<byte>, frame: seq<byte>, owed: nat,
    accepted: seq<seq<byte>>, sent: seq<seq<byte>>)

  /** The driver is called with a packet, the driver does its next statement, or the card moves. */
  datatype Step = Send(data: seq<byte>) | Drive | Fetch | Complete | WriteBack

  function Slot(j: nat): (k: nat)
    ensures k < RING
  {
    j % RING
  }

  lemma SlotsApart(i: nat, j: nat)
    requires i < j < i + RING
    ensures Slot(i) != Slot(j)
  {
  }

  lemma SlotNext(j: nat)
    ensures (Slot(j) + 1) % RING == Slot(j + 1) && Slot(j + RING) == Slot(j)
  {
  }

  predicate Shape(s: State) {
    && |s.descs| == RING && |s.bufs| == RING && s.head < RING && s.tail < RING && s.owed <= RING
    && (forall k {:trigger s.bufs[k]} :: 0 <= k < RING ==> |s.bufs[k]| == BUFFER)
    && (forall k {:trigger s.descs[k]} :: 0 <= k < RING ==> s.descs[k].len <= BUFFER)
    && (!s.driver.Idle? ==> |s.driver.data| <= BUFFER)
    && (s.driver.Copying? ==> s.driver.at <= |s.driver.data|)
  }

  /** After tx_setup: every descriptor is done, both registers are 0. */
  ghost predicate Initial(s: State) {
    && Shape(s) && s.head == s.tail == s.owed == 0 && s.driver == Idle
    && s.fetched == s.frame == [] && s.accepted == s.sent == []
    && forall k {:trigger s.descs[k]} :: 0 <= k < RING ==> s.descs[k] == Desc(0, 0, true)
  }

  /** The driver's next statement. */
  function DriverStep(s: State): (r: State)
    requires Shape(s)
    ensures Shape(r)
  {
    var t := s.tail;
    match s.driver
    case Idle => s
    case Checking(data) =>
      s.(driver := if s.descs[t].done then Copying(data, 0) else Idle)
    case Copying(data, at) =>
      if at < |data| then
        s.(bufs := s.bufs[t := s.bufs[t][at := data[at]]], driver := Copying(data, at + 1))
      else
        s.(descs := s.descs[t := s.descs[t].(len := |data|)], driver := LengthSet(data))
    case LengthSet(data) =>
      s.(descs := s.descs[t := s.descs[t].(cmd := SEND_COMMAND)], driver := CommandSet(data))
    case CommandSet(data) =>
      s.(descs := s.descs[t := s.descs[t].(done := false)], driver := StatusCleared(data))
    case StatusCleared(data) =>
      s.(tail := (t + 1) % RING, driver := Idle, accepted := s.accepted + [data])
  }

  /** The slot whose descriptor the card writes back next. */
  function WriteBackSlot(s: State): (k: nat)
    requires Shape(s)
    ensures k < RING
  {
    (s.head + RING - s.owed) % RING
  }

  /** One step of the system. A step that is not possible changes nothing. The card works only while head and tail
      differ, finishes a packet at a descriptor marked so, and sets DD only where that was asked for. */
  function Next(s: State, step: Step): (r: State)
    requires Shape(s)
    ensures Shape(r)
  {
    match step
    case Send(data) =>
      if s.driver.Idle? && |data| <= BUFFER then s.(driver := Checking(data)) else s
    case Drive => DriverStep(s)
    case Fetch =>
      if s.head != s.tail && |s.fetched| < s.descs[s.head].len then
        s.(fetched := s.fetched + [s.bufs[s.head][|s.fetched|]])
      else s
    case Complete =>
      if s.head != s.tail && |s.fetched| >= s.descs[s.head].len && s.owed < RING then
        var frame, ends := s.frame + s.fetched, EndsPacket(s.descs[s.head].cmd);
        s.(fetched := [], frame := if ends then [] else frame, sent := if ends then s.sent + [frame] else s.sent,
           head := (s.head + 1) % RING, owed := s.owed + 1)
      else s
    case WriteBack =>
      if s.owed > 0 then
        var k := WriteBackSlot(s);
        s.(descs := s.descs[k := s.descs[k].(done := s.descs[k].done || ReportsStatus(s.descs[k].cmd))], owed := s.owed - 1)
      else s
  }

  function Run(s: State, steps: seq<Step>): (r: State)
    requires Shape(s)
    ensures Shape(r)
    decreases |steps|
  {
    if steps == [] then s else Run(Next(s, steps[0]), steps[1..])
  }

  lemma {:induction false} RunAppend(s: State, a: seq<Step>, b: seq<Step>)
    requires Shape(s)
    ensures Run(s, a + b) == Run(Run(s, a), b)
    decreases |a|
  {
    if a == [] {
      assert a + b == b;
    } else {
      assert (a + b)[1..] == a[1..] + b;
      RunAppend(Next(s, a[0]), a[1..], b);
    }
  }

  // ----- the invariant

  /** Packets accepted, and packets whose descriptor was written back. */
  function Acknowledged(s: State): int { |s.sent| - s.owed }

  ghost predicate Holds(d: Desc, buf: seq<byte>, packet: seq<byte>) {
    d.cmd == SEND_COMMAND && d.len == |packet| <= |buf| && buf[..|packet|] == packet
  }

  /** Packet `j` was published and not written back: its DD bit is clear and, until sent, its slot holds it. */
  ghost predicate Waiting(s: State, j: nat)
    requires Shape(s)
  {
    && !s.descs[Slot(j)].done && s.descs[Slot(j)].cmd == SEND_COMMAND
    && (|s.sent| <= j < |s.accepted| ==> Holds(s.descs[Slot(j)], s.bufs[Slot(j)], s.accepted[j]))
  }

  /** The slot for packet `j` to come: DD is set, unless the driver is about to publish it. */
  ghost predicate Available(s: State, j: nat)
    requires Shape(s)
  {
    s.descs[Slot(j)].done || (j == |s.accepted| && s.driver.StatusCleared?)
  }

  ghost predicate Counters(s: State) {
    && s.owed <= |s.sent| <= |s.accepted| <= Acknowledged(s) + RING
    && s.tail == Slot(|s.accepted|) && s.head == Slot(|s.sent|)
    && s.sent == s.accepted[..|s.sent|] && s.frame == []
  }

  ghost predicate Slots(s: State)
    requires Shape(s)
  {
    && (forall j: nat {:trigger Waiting(s, j)} :: Acknowledged(s) <= j < |s.accepted| ==> Waiting(s, j))
    && (forall j: nat {:trigger Available(s, j)} :: |s.accepted| <= j < Acknowledged(s) + RING ==> Available(s, j))
  }

  /** The card has read a prefix of the packet at its head. */
  ghost predicate Reader(s: State) {
    if |s.sent| < |s.accepted| then s.fetched <= s.accepted[|s.sent|] else s.fetched == []
  }

  /** The driver writes into a slot nobody waits for, and has done what its position says. */
  ghost predicate Writer(s: State)
    requires Shape(s)
  {
    var d, buf := s.descs[s.tail], s.bufs[s.tail];
    (!s.driver.Idle? && !s.driver.Checking? ==> |s.accepted| < Acknowledged(s) + RING) &&
    match s.driver
    case Idle => true
    case Checking(data) => true
    case Copying(data, at) => buf[..at] == data[..at]
    case LengthSet(data) => buf[..|data|] == data && d.len == |data|
    case CommandSet(data) => Holds(d, buf, data)
    case StatusCleared(data) => Holds(d, buf, data) && !d.done
  }

  ghost predicate Inv(s: State) {
    Shape(s) && Counters(s) && Slots(s) && Reader(s) && Writer(s)
  }

  lemma InitialInv(s: State)
    requires Initial(s)
    ensures Inv(s)
  {
  }

  /** The DD bit under the tail is set exactly when fewer than 256 packets lack their write-back. */
  lemma TailDoneIff(s: State)
    requires Inv(s) && !s.driver.StatusCleared?
    ensures s.descs[s.tail].done <==> |s.accepted| < Acknowledged(s) + RING
  {
    var a := |s.accepted|;
    if a < Acknowledged(s) + RING {
      assert Available(s, a);
    } else {
      assert Waiting(s, a - RING);
      SlotNext(a - RING);
    }
  }

  /** Writing the tail's slot leaves every waiting packet and every later free slot alone. */
  lemma TailApart(s: State)
    requires Counters(s) && |s.accepted| < Acknowledged(s) + RING
    ensures forall j: nat :: Acknowledged(s) <= j < Acknowledged(s) + RING && j != |s.accepted| ==> Slot(j) != s.tail
  {
    forall j: nat | Acknowledged(s) <= j < Acknowledged(s) + RING && j != |s.accepted|
      ensures Slot(j) != s.tail
    {
      if j < |s.accepted| { SlotsApart(j, |s.accepted|); } else { SlotsApart(|s.accepted|, j); }
    }
  }

  lemma FillKeeps(s: State)
    requires Inv(s) && (s.driver.Checking? || s.driver.Copying? || s.driver.LengthSet? || s.driver.CommandSet?)
    ensures Inv(DriverStep(s))
  {
    hide Slot;
    var r := DriverStep(s);
    TailDoneIff(s);
    if |s.accepted| < Acknowledged(s) + RING { TailApart(s); }
    forall j: nat | Acknowledged(s) <= j < |s.accepted|
      ensures Waiting(r, j)
    {
      assert Waiting(s, j);
    }
    forall j: nat | |s.accepted| <= j < Acknowledged(s) + RING
      ensures Available(r, j)
    {
      assert Available(s, j);
    }
  }

  lemma PublishKeeps(s: State)
    requires Inv(s) && s.driver.StatusCleared?
    ensures Inv(DriverStep(s))
  {
    var r, a := DriverStep(s), |s.accepted|;
    SlotNext(a);
    forall j: nat | Acknowledged(s) <= j < a + 1
      ensures Waiting(r, j)
    {
      if j < a { assert Waiting(s, j); }
    }
    forall j: nat | a + 1 <= j < Acknowledged(s) + RING
      ensures Available(r, j)
    {
      assert Available(s, j);
    }
    assert r.accepted[..|s.sent|] == s.accepted[..|s.sent|];
  }

  lemma FetchKeeps(s: State)
    requires Inv(s)
    ensures Inv(Next(s, Fetch))
  {
    var r, n := Next(s, Fetch), |s.sent|;
    if r != s {
      assert Waiting(s, n);
      assert s.fetched + [s.accepted[n][|s.fetched|]] <= s.accepted[n];
    }
    assert forall j: nat :: Waiting(s, j) ==> Waiting(r, j);
    assert forall j: nat :: Available(s, j) ==> Available(r, j);
  }

  lemma CompleteKeeps(s: State)
    requires Inv(s)
    ensures Inv(Next(s, Complete))
  {
    var r, n := Next(s, Complete), |s.sent|;
    if r != s {
      assert Waiting(s, n) && EndsPacket(SEND_COMMAND);
      assert s.frame + s.fetched == s.accepted[n];
      assert r.sent == s.sent + [s.accepted[n]];
      SlotNext(n);
      assert forall j: nat :: Waiting(s, j) ==> Waiting(r, j);
      assert forall j: nat :: Available(s, j) ==> Available(r, j);
    }
  }

  lemma WriteBackKeeps(s: State)
    requires Inv(s)
    ensures Inv(Next(s, WriteBack))
  {
    hide Slot, Holds;
    var r, w, k := Next(s, WriteBack), Acknowledged(s), WriteBackSlot(s);
    if s.owed > 0 {
      WriteBackIsOldest(s);
      assert Waiting(s, w) && ReportsStatus(SEND_COMMAND);
      forall j: nat | w < j < |s.accepted|
        ensures Waiting(r, j)
      {
        assert Waiting(s, j);
        SlotsApart(w, j);
      }
      SlotNext(w);
      forall j: nat | |s.accepted| <= j < w + 1 + RING
        ensures Available(r, j)
      {
        if j < w + RING { assert Available(s, j); SlotsApart(w, j); }
      }
      if |s.accepted| < w + RING { SlotsApart(w, |s.accepted|); }
    }
  }

  lemma WriteBackIsOldest(s: State)
    requires Inv(s)
    ensures WriteBackSlot(s) == Slot(Acknowledged(s))
  {
  }

  /** Every step of either side, from any state that keeps the invariant. */
  lemma StepKeeps(s: State, step: Step)
    requires Inv(s)
    ensures Inv(Next(s, step))
  {
    hide Counters, Slots, Reader, Writer;
    match step
    case Send(data) => SendKeeps(s, data);
    case Drive =>
      match s.driver {
        case Idle =>
        case StatusCleared(_) => PublishKeeps(s);
        case _ => FillKeeps(s);
      }
    case Fetch => FetchKeeps(s);
    case Complete => CompleteKeeps(s);
    case WriteBack => WriteBackKeeps(s);
  }

  lemma SendKeeps(s: State, data: seq<byte>)
    requires Inv(s)
    ensures Inv(Next(s, Send(data)))
  {
    var r := Next(s, Send(data));
    assert forall j: nat :: Waiting(s, j) ==> Waiting(r, j);
    assert forall j: nat :: Available(s, j) ==> Available(r, j) || s.driver.StatusCleared?;
  }

  lemma {:induction false} RunKeeps(s: State, steps: seq<Step>)
    requires Inv(s)
    ensures Inv(Run(s, steps))
    decreases |steps|
  {
    hide Inv;
    if steps != [] {
      assert Shape(s) by { InvShape(s); }
      StepKeeps(s, steps[0]);
      RunKeeps(Next(s, steps[0]), steps[1..]);
    }
  }

  lemma InvShape(s: State)
    requires Inv(s)
    ensures Shape(s)
  {
  }

  // ----- what holds over every run

  /** The packets the ring holds from the head on. */
  function InRing(s: State, n: nat): seq<seq<byte>>
    requires Shape(s)
  {
    seq(n, i requires 0 <= i < n => s.bufs[Slot(s.head + i)][..s.descs[Slot(s.head + i)].len])
  }

  /** Under any interleaving the card has sent a prefix of what the driver accepted, in order and unaltered, and
      the slots from the head on hold exactly the rest. */
  lemma Delivery(s0: State, steps: seq<Step>)
    requires Initial(s0)
    ensures var s := Run(s0, steps);
            s.sent <= s.accepted && InRing(s, |s.accepted| - |s.sent|) == s.accepted[|s.sent|..]
  {
    hide Initial, Slot, Writer, Reader, Run, Next;
    InitialInv(s0);
    RunKeeps(s0, steps);
    var s := Run(s0, steps);
    var n := |s.sent|;
    var held := InRing(s, |s.accepted| - n);
    forall i: nat | i < |held|
      ensures held[i] == s.accepted[n + i]
    {
      assert Waiting(s, n + i);
      SlotOffset(n, i);
    }
    assert held == s.accepted[n..];
  }

  lemma SlotOffset(n: nat, i: nat)
    ensures Slot(Slot(n) + i) == Slot(n + i)
  {
  }

  /** No step touches the buffer of a packet whose DD bit is still clear, and only the write-back of that very
      packet touches its descriptor. */
  lemma NoOverwrite(s: State, step: Step, j: nat)
    requires Inv(s) && Acknowledged(s) <= j < |s.accepted|
    ensures !s.descs[Slot(j)].done
    ensures Next(s, step).bufs[Slot(j)] == s.bufs[Slot(j)]
    ensures Next(s, step).descs[Slot(j)] != s.descs[Slot(j)] ==> step == WriteBack && j == Acknowledged(s)
  {
    assert Waiting(s, j);
    if step.Drive? && !s.driver.Idle? && !s.driver.Checking? { TailApart(s); }
    if step.WriteBack? {
      WriteBackIsOldest(s);
      if j > Acknowledged(s) { SlotsApart(Acknowledged(s), j); }
    }
  }

  /** A packet that was accepted and not sent waits in the slot of its number modulo 256: its descriptor has the command
      bits EOP, IFCS and RS, DD clear and the packet's length, and its buffer begins with the packet. */
  lemma PendingSlot(s: State, j: nat)
    requires Inv(s) && |s.sent| <= j < |s.accepted|
    ensures |s.descs| == |s.bufs| == 256
    ensures var d, buf := s.descs[j % 256], s.bufs[j % 256];
            && d == Desc(|s.accepted[j]|, 0x0B, false) && |s.accepted[j]| <= |buf| == 2048
            && buf[..|s.accepted[j]|] == s.accepted[j]
  {
    assert Waiting(s, j);
    assert Slot(j) == j % 256;
  }

  /** A packet is taken exactly when fewer than 256 are still without DD; otherwise it is dropped. */
  lemma AcceptIff(s: State)
    requires Inv(s) && s.driver.Checking?
    ensures var r := Next(s, Drive);
            if |s.accepted| < Acknowledged(s) + 256 then r == s.(driver := Copying(s.driver.data, 0))
            else r == s.(driver := Idle)
  {
    TailDoneIff(s);
  }

  // ----- the card cannot tell a full ring from an empty one

  /** Steps of the card alone. */
  predicate OnlyCard(steps: seq<Step>) {
    forall k {:trigger steps[k]} :: 0 <= k < |steps| ==> steps[k].Fetch? || steps[k].Complete? || steps[k].WriteBack?
  }

  /** 256 packets are published and not sent, and the driver is between two packets. */
  ghost predicate Wedged(s: State) {
    Inv(s) && |s.accepted| == |s.sent| + 256 && (s.driver.Idle? || s.driver.Checking?)
  }

  /** The card sees work exactly when packets are pending and fewer than 256. */
  lemma CardSeesWorkIff(s: State)
    requires Inv(s)
    ensures s.head != s.tail <==> 0 < |s.accepted| - |s.sent| < 256
  {
    var a, n := |s.accepted|, |s.sent|;
    if 0 < a - n < RING { SlotsApart(n, a); }
    if a - n == RING { SlotNext(n); }
  }

  /** A wedged ring stays wedged, whatever either side does: nothing is sent and nothing is accepted. */
  lemma {:induction false} WedgedForever(s: State, steps: seq<Step>)
    requires Wedged(s)
    ensures Shape(s) && Wedged(Run(s, steps))
    ensures Run(s, steps).sent == s.sent && Run(s, steps).accepted == s.accepted
    decreases |steps|
  {
    if steps != [] {
      CardSeesWorkIff(s);
      TailDoneIff(s);
      StepKeeps(s, steps[0]);
      WedgedForever(Next(s, steps[0]), steps[1..]);
    }
  }

  /** The statements of one call of send_packet that finds DD set. */
  function SendSteps(data: seq<byte>): seq<Step> {
    [Send(data)] + Drives(|data| + 5)
  }

  function Drives(n: nat): seq<Step> {
    if n == 0 then [] else [Drive] + Drives(n - 1)
  }

  lemma {:induction false} DrivesKeep(s: State, n: nat)
    requires Inv(s) && (s.driver.Copying? ==> n == |s.driver.data| - s.driver.at + 4)
    requires s.driver.Copying?
    ensures var r := Run(s, Drives(n));
            Inv(r) && r.driver == Idle && r.accepted == s.accepted + [s.driver.data]
            && r.sent == s.sent && r.owed == s.owed
    decreases n
  {
    hide Counters, Slots, Reader, Writer;
    StepKeeps(s, Drive);
    var r := Next(s, Drive);
    assert Drives(n)[1..] == Drives(n - 1);
    if s.driver.at < |s.driver.data| {
      DrivesKeep(r, n - 1);
    } else {
      LastDrives(r);
    }
  }

  lemma LastDrives(s: State)
    requires Inv(s) && s.driver.LengthSet?
    ensures var r := Run(s, Drives(3));
            Inv(r) && r.driver == Idle && r.accepted == s.accepted + [s.driver.data]
            && r.sent == s.sent && r.owed == s.owed
  {
    hide Counters, Slots, Reader, Writer;
    var s1 := Next(s, Drive);
    var s2 := Next(s1, Drive);
    StepKeeps(s, Drive);
    StepKeeps(s1, Drive);
    StepKeeps(s2, Drive);
    assert Drives(3)[1..] == Drives(2) && Drives(2)[1..] == Drives(1) && Drives(1)[1..] == Drives(0) == [];
  }

  /** A call that is not interrupted by the card appends its packet when there is room. */
  lemma SendWhole(s: State, data: seq<byte>)
    requires Inv(s) && s.driver == Idle && |data| <= 2048 && |s.accepted| < Acknowledged(s) + 256
    ensures var r := Run(s, SendSteps(data));
            Inv(r) && r.driver == Idle && r.accepted == s.accepted + [data] && r.sent == s.sent && r.owed == s.owed
  {
    hide Counters, Slots, Reader, Writer;
    var s1 := Next(s, Send(data));
    StepKeeps(s, Send(data));
    AcceptIff(s1);
    StepKeeps(s1, Drive);
    var n := |data| + 5;
    assert SendSteps(data)[1..] == Drives(n) && Drives(n)[1..] == Drives(n - 1);
    DrivesKeep(Next(s1, Drive), n - 1);
  }

  function SendAll(packets: seq<seq<byte>>): seq<Step> {
    if packets == [] then [] else SendAll(packets[..|packets| - 1]) + SendSteps(packets[|packets| - 1])
  }

  lemma InitialEmpty(s: State)
    requires Initial(s)
    ensures s.driver == Idle && s.accepted == [] && s.sent == [] && s.owed == 0
  {
  }

  /** 256 calls before the card has sent anything wedge the ring, for every choice of packets. */
  lemma {:induction false} BurstWedges(s0: State, packets: seq<seq<byte>>)
    requires Initial(s0) && |packets| <= 256
    requires forall k {:trigger packets[k]} :: 0 <= k < |packets| ==> |packets[k]| <= 2048
    ensures var r := Run(s0, SendAll(packets));
            Inv(r) && r.driver == Idle && r.accepted == packets && r.sent == [] && r.owed == 0
    ensures |packets| == 256 ==> Wedged(Run(s0, SendAll(packets)))
    decreases |packets|
  {
    hide Counters, Slots, Reader, Writer, Next, SendSteps, Initial;
    InitialInv(s0);
    InitialEmpty(s0);
    if packets != [] {
      var n := |packets| - 1;
      BurstWedges(s0, packets[..n]);
      var r := Run(s0, SendAll(packets[..n]));
      SendWhole(r, packets[n]);
      RunAppend(s0, SendAll(packets[..n]), SendSteps(packets[n]));
      assert packets == packets[..n] + [packets[n]];
    }
  }

  /** Work left for the card. */
  function Effort(s: State): int {
    (|s.accepted| - |s.sent|) * (BUFFER + 3) - |s.fetched| + s.owed
  }

  /** The card's next useful step. */
  function Useful(s: State): Step
    requires Shape(s)
  {
    if s.owed > 0 then WriteBack else if |s.fetched| < s.descs[s.head].len then Fetch else Complete
  }

  lemma UsefulHelps(s: State)
    requires Inv(s) && s.driver == Idle && |s.accepted| - |s.sent| < RING
    requires s.owed > 0 || |s.sent| < |s.accepted|
    ensures var r := Next(s, Useful(s));
            Inv(r) && r.driver == Idle && r.accepted == s.accepted && |s.sent| <= |r.sent| && 0 <= Effort(r) < Effort(s)
  {
    StepKeeps(s, Useful(s));
    CardSeesWorkIff(s);
    if |s.sent| < |s.accepted| { assert Waiting(s, |s.sent|); }
    EffortIsNat(Next(s, Useful(s)));
  }

  lemma EffortIsNat(s: State)
    requires Inv(s)
    ensures Effort(s) >= 0
  {
    if |s.sent| < |s.accepted| { assert Waiting(s, |s.sent|); }
  }

  /** Left alone, the card sends and writes back everything. */
  lemma {:induction false} Drains(s: State) returns (steps: seq<Step>)
    requires Inv(s) && s.driver == Idle && |s.accepted| - |s.sent| < 256
    ensures OnlyCard(steps)
    ensures var r := Run(s, steps);
            r.sent == s.accepted && r.accepted == s.accepted && Acknowledged(r) == |s.accepted|
    decreases Effort(s)
  {
    hide Slots, Reader, Writer;
    if s.owed == 0 && |s.sent| == |s.accepted| {
      steps := [];
    } else {
      UsefulHelps(s);
      var rest := Drains(Next(s, Useful(s)));
      steps := [Useful(s)] + rest;
      assert steps[1..] == rest;
    }
  }

  /** What is pending can still be sent exactly when it is fewer than 256 packets. */
  lemma DrainsIff(s: State)
    requires Inv(s) && s.driver == Idle
    ensures (exists steps :: OnlyCard(steps) && Run(s, steps).sent == s.accepted) <==> |s.accepted| - |s.sent| < 256
  {
    if |s.accepted| - |s.sent| < RING {
      var steps := Drains(s);
    } else {
      forall steps: seq<Step> | OnlyCard(steps)
        ensures Run(s, steps).sent != s.accepted
      {
        WedgedForever(s, steps);
      }
    }
  }

  // ----- the driver's code, with the card running beside it

  /** What the card may do behind the driver's back. */
  ghost predicate CardRan(s: State, r: State) {
    && r.driver == s.driver && r.accepted == s.accepted && r.tail == s.tail && r.bufs == s.bufs
    && s.sent <= r.sent && Acknowledged(s) <= Acknowledged(r)
  }

  /** The driver is at `d`, nothing new was accepted, and the card may have gone on. */
  ghost predicate Since(s: State, r: State, d: Driver) {
    r.driver == d && r.accepted == s.accepted && s.sent <= r.sent && Acknowledged(s) <= Acknowledged(r)
  }

  lemma CardStepRan(s: State, step: Step)
    requires Inv(s) && (step.Fetch? || step.Complete? || step.WriteBack?)
    ensures CardRan(s, Next(s, step))
  {
    if step.Complete? && Next(s, step) != s { assert Waiting(s, |s.sent|) && EndsPacket(SEND_COMMAND); }
  }

  /** The offsets in the slot's buffer that the copy loop stores to, from `i` on. */
  function Touched(i: nat, size: nat): (r: seq<nat>)
    decreases size - i
  {
    if i >= size then [] else [i] + Touched(i + 1, size)
  }

  /** The copy loop stays inside the slot's buffer exactly when the packet has at most 2048 bytes. */
  lemma CopyInsideIff(size: nat)
    ensures (forall x :: x in Touched(0, size) ==> x < 2048) <==> size <= 2048
  {
    TouchedIff(0, size, BUFFER);
  }

  lemma {:induction false} TouchedIff(i: nat, size: nat, x: nat)
    ensures x in Touched(i, size) <==> i <= x < size
    ensures forall y :: y in Touched(i, size) ==> i <= y < size
    decreases size - i
  {
    if i < size { TouchedIff(i + 1, size, x); }
  }

  class TransmitQueue {
    /** Descriptors and buffers in memory that both sides use. */
    const descs: array<Desc>
    const buffers: array2<byte>
    /** The registers TDH and TDT. */
    var head: nat
    var tail: nat
    /** Inside the card. */
    var fetched: seq<byte>
    var frame: seq<byte>
    var owed: nat

    ghost var s: State

    ghost predicate Mirrors(s: State)
      reads this, descs, buffers
    {
      && Shape(s) && descs.Length == RING && buffers.Length0 == RING && buffers.Length1 == BUFFER
      && s.descs == descs[..]
      && (forall k, i {:trigger buffers[k, i]} {:trigger s.bufs[k][i]} ::
            0 <= k < RING && 0 <= i < BUFFER ==> s.bufs[k][i] == buffers[k, i])
      && s.head == head && s.tail == tail && s.fetched == fetched && s.frame == frame && s.owed == owed
    }

    ghost predicate Valid()
      reads this, descs, buffers
    {
      Mirrors(s) && Inv(s)
    }

    /** The memory and the registers have reached the next state. */
    ghost method Advance(step: Step)
      requires Shape(s) && Inv(s) && Mirrors(Next(s, step))
      modifies this`s
      ensures Valid() && s == Next(old(s), step)
    {
      hide Next, Inv;
      StepKeeps(s, step);
      s := Next(s, step);
    }

    /** Allocates the ring and sets every descriptor to done. */
    constructor ()
      ensures Valid() && Initial(s) && fresh(descs) && fresh(buffers)
    {
      hide Inv;
      descs := new Desc[RING];
      buffers := new byte[RING, BUFFER];
      new;
      for i := 0 to RING
        invariant forall k :: 0 <= k < i ==> descs[k] == Desc(0, 0, true)
        modifies descs
      {
        descs[i] := Desc(0, 0, true);
      }
      head, tail, fetched, frame, owed := 0, 0, [], [], 0;
      ghost var bufs := seq(RING, k requires 0 <= k < RING reads buffers =>
                                    seq(BUFFER, i requires 0 <= i < BUFFER reads buffers => buffers[k, i]));
      s := State(descs[..], bufs, 0, 0, Idle, [], [], 0, [], []);
      InitialInv(s);
    }

    /** One step of the card. */
    method CardStep(step: Step)
      requires Valid() && (step.Fetch? || step.Complete? || step.WriteBack?)
      modifies this, descs
      ensures Valid() && s == Next(old(s), step)
    {
      hide Inv, Initial;
      InvShape(s);
      ghost var r := Next(s, step);
      StepKeeps(s, step);
      match step {
        case Fetch =>
          if head != tail && |fetched| < descs[head].len {
            fetched := fetched + [buffers[head, |fetched|]];
          }
        case Complete =>
          if head != tail && |fetched| >= descs[head].len && owed < RING {
            frame := frame + fetched;
            fetched := [];
            if EndsPacket(descs[head].cmd) { frame := []; }
            head := (head + 1) % RING;
            owed := owed + 1;
          }
        case WriteBack =>
          if owed > 0 {
            var k := (head + RING - owed) % RING;
            descs[k] := descs[k].(done := descs[k].done || ReportsStatus(descs[k].cmd));
            owed := owed - 1;
          }
      }
      s := r;
    }

    /** The card runs for a while. */
    method Card()
      requires Valid()
      modifies this, descs
      ensures Valid() && CardRan(old(s), s)
    {
      hide Inv, Initial, Next;
      var n: nat :| true;
      for i := 0 to n
        invariant Valid() && CardRan(old(s), s)
      {
        var step: Step := *;
        if step.Fetch? || step.Complete? || step.WriteBack? {
          CardStepRan(s, step);
          CardStep(step);
        }
      }
    }

    /** One byte into the buffer of the slot at the tail. */
    method CopyByte(tdt: nat, i: nat, b: byte, ghost packet: seq<byte>)
      requires Valid() && tdt == tail && i < |packet| && b == packet[i] && s.driver == Copying(packet, i)
      modifies this, descs, buffers
      ensures Valid() && tail == tdt && Since(old(s), s, Copying(packet, i + 1))
    {
      hide Inv;
      Card();
      buffers[tdt, i] := b;
      Advance(Drive);
    }

    method SetLength(tdt: nat, size: nat, ghost packet: seq<byte>)
      requires Valid() && tdt == tail && size == |packet| && s.driver == Copying(packet, size)
      modifies this, descs
      ensures Valid() && tail == tdt && Since(old(s), s, LengthSet(packet))
    {
      hide Inv;
      Card();
      descs[tdt] := descs[tdt].(len := size);
      Advance(Drive);
    }

    method SetCommand(tdt: nat, ghost packet: seq<byte>)
      requires Valid() && tdt == tail && s.driver == LengthSet(packet)
      modifies this, descs
      ensures Valid() && tail == tdt && Since(old(s), s, CommandSet(packet))
    {
      hide Inv;
      Card();
      descs[tdt] := descs[tdt].(cmd := 1 + 2 + 8);
      Advance(Drive);
    }

    method ClearStatus(tdt: nat, ghost packet: seq<byte>)
      requires Valid() && tdt == tail && s.driver == CommandSet(packet)
      modifies this, descs
      ensures Valid() && tail == tdt && Since(old(s), s, StatusCleared(packet))
    {
      hide Inv;
      Card();
      descs[tdt] := descs[tdt].(done := false);
      Advance(Drive);
    }

    /** Moves the tail past the slot. */
    method WriteTail(tdt: nat, ghost packet: seq<byte>)
      requires Valid() && tdt == tail && s.driver == StatusCleared(packet)
      modifies this, descs
      ensures Valid() && s.driver == Idle && s.accepted == old(s.accepted) + [packet] && old(s.sent) <= s.sent
    {
      hide Inv;
      Card();
      tail := (tdt + 1) % RING;
      Advance(Drive);
    }

    /** Reads the status at the tail. */
    method Look(tdt: nat, ghost packet: seq<byte>) returns (done: bool)
      requires Valid() && tdt == tail && s.driver == Checking(packet)
      modifies this, descs
      ensures Valid() && tail == tdt && Since(old(s), s, if done then Copying(packet, 0) else Idle)
      ensures |old(s.accepted)| < Acknowledged(old(s)) + RING ==> done
    {
      hide Inv;
      Card();
      TailDoneIff(s);
      done := descs[tdt].done;
      Advance(Drive);
    }

    /** Puts a packet of `size` bytes into the slot at the tail. The card runs between any two accesses to the
        shared memory and the registers. */
    method SendPacket(data: array<byte>, size: nat) returns (ok: bool)
      requires Valid() && s.driver == Idle && size <= data.Length && size <= 2048
      modifies this, descs, buffers
      ensures Valid() && s.driver == Idle && old(s.sent) <= s.sent
      ensures s.accepted == if ok then old(s.accepted) + [data[..size]] else old(s.accepted)
      ensures |old(s.accepted)| < Acknowledged(old(s)) + 256 ==> ok
    {
      hide Inv, Valid;
      ghost var packet := data[..size];
      var tdt := Begin(packet);
      ok := Look(tdt, packet);
      if !ok {
        return;
      }
      for i := 0 to size
        invariant Valid() && tail == tdt && Since(old(s), s, Copying(packet, i))
      {
        CopyByte(tdt, i, data[i], packet);
      }
      SetLength(tdt, size, packet);
      SetCommand(tdt, packet);
      ClearStatus(tdt, packet);
      WriteTail(tdt, packet);
    }

    method Begin(ghost packet: seq<byte>) returns (tdt: nat)
      requires Valid() && s.driver == Idle && |packet| <= BUFFER
      modifies this`s
      ensures Valid() && tdt == tail && s == old(s).(driver := Checking(packet))
    {
      hide Inv;
      tdt := tail;
      Advance(Send(packet));
    }
  }
}
