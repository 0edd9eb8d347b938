/**
 * The relay bank and the per-slot actuation dispatcher: eight relays
 * driven Low at start-up, and a handler that maps a binary-actuation
 * command byte 0 to Low and 1 to High and republishes the command on the
 * slot's signal address.
 */
module Relays {
  import opened Wrappers
  import opened Fabric
  import opened Addresses

  datatype Level = Low | High
  datatype Direction = In | Out

  /** One GPIO pin: its number, its direction and the level last written. */
  datatype DigitalPin = DigitalPin(number: nat, direction: Direction, level: Level)

  /** The GPIO pin of each relay, in relay index order. */
  const RelayPins: seq<nat> := [4, 17, 18, 27, 22, 23, 24, 25]

  /** Dispatchers are started for relay indices below this bound only. */
  const DispatcherCount: nat := 7

  /** A freshly opened pin; the model takes it to be an input reading Low. */
  function NewDigitalPin(n: nat): DigitalPin
  {
    DigitalPin(n, In, Low)
  }

  function SetDirection(p: DigitalPin, d: Direction): DigitalPin
  {
    p.(direction := d)
  }

  function Write(p: DigitalPin, l: Level): DigitalPin
  {
    p.(level := l)
  }

  function LevelsOf(pins: seq<DigitalPin>): (r: seq<Level>)
    ensures |r| == |pins| && forall k :: 0 <= k < |pins| ==> r[k] == pins[k].level
  {
    if pins == [] then [] else LevelsOf(pins[..|pins| - 1]) + [pins[|pins| - 1].level]
  }

  class RelayBank {
    var relays: array<DigitalPin>

    ghost predicate Valid()
      reads this
    {
      relays.Length == |RelayPins|
    }

    function Levels(): seq<Level>
      reads this, relays
    {
      LevelsOf(relays[..])
    }

    /** Hardware initialisation: open the eight relay pins, set each to output and drive it Low. */
    constructor Init()
      ensures Valid() && fresh(relays)
      ensures forall k :: 0 <= k < relays.Length ==> relays[k] == DigitalPin(RelayPins[k], Out, Low)
    {
      var r := OpenRelayPins();
      for k := 0 to r.Length
        invariant forall j :: 0 <= j < k ==> r[j] == DigitalPin(RelayPins[j], Out, Low)
        invariant forall j :: k <= j < r.Length ==> r[j] == NewDigitalPin(RelayPins[j])
      {
        r[k] := SetDirection(r[k], Out);
        r[k] := Write(r[k], Low);
      }
      relays := r;
    }
  }

  /** Opens the eight relay pins one by one, in relay index order. */
  method OpenRelayPins() returns (r: array<DigitalPin>)
    ensures fresh(r) && r.Length == |RelayPins|
    ensures forall j :: 0 <= j < r.Length ==> r[j] == NewDigitalPin(RelayPins[j])
  {
    r := new DigitalPin[8];
    r[0] := NewDigitalPin(4);
    r[1] := NewDigitalPin(17);
    r[2] := NewDigitalPin(18);
    r[3] := NewDigitalPin(27);
    r[4] := NewDigitalPin(22);
    r[5] := NewDigitalPin(23);
    r[6] := NewDigitalPin(24);
    r[7] := NewDigitalPin(25);
  }

  // ---------------------------------------------------------------------
  // The command a message carries

  /** The command byte of a message: the first byte of its first binary-actuation object. */
  function Command(m: Message): (r: Option<byte>)
    ensures r.Some? <==> GetOne(m, BinaryActuationKind).Some? && |GetOne(m, BinaryActuationKind).value.contents| > 0
    ensures r.Some? ==> r.value == GetOne(m, BinaryActuationKind).value.contents[0]
  {
    match GetOne(m, BinaryActuationKind)
    case Some(BinaryActuationPO(contents)) => if |contents| > 0 then Some(contents[0]) else None
    case _ => None
  }

  /** A message the handler can process: its binary-actuation object, if any, is not empty. */
  predicate Dispatchable(m: Message)
  {
    GetOne(m, BinaryActuationKind).Some? ==> |GetOne(m, BinaryActuationKind).value.contents| > 0
  }

  datatype Action = Ignore | Actuate(level: Level, po: Payload)

  /**
   * What the handler does with a message: command 0 drives the relay Low,
   * command 1 drives it High, each republishing the actuation object; any
   * other byte, or no actuation object, does nothing.
   */
  function Decide(m: Message): (a: Action)
    requires Dispatchable(m)
    ensures Command(m) == Some(0) <==> a.Actuate? && a.level == Low
    ensures Command(m) == Some(1) <==> a.Actuate? && a.level == High
    ensures a.Actuate? ==> GetOne(m, BinaryActuationKind) == Some(a.po)
  {
    match GetOne(m, BinaryActuationKind)
    case None => Ignore
    case Some(po) =>
      if po.contents[0] == 0 then Actuate(Low, po)
      else if po.contents[0] == 1 then Actuate(High, po)
      else Ignore
  }

  /** The per-slot state machine: the relay level after one message. */
  function Transition(level: Level, m: Message): (r: Level)
    requires Dispatchable(m)
    ensures Command(m) == Some(0) ==> r == Low
    ensures Command(m) == Some(1) ==> r == High
    ensures Command(m) != Some(0) && Command(m) != Some(1) ==> r == level
  {
    match Decide(m)
    case Actuate(l, _) => l
    case Ignore => level
  }

  // ---------------------------------------------------------------------
  // Runs of messages

  /** The level of one relay after its dispatcher handles `msgs` in order. */
  function RunSlot(level: Level, msgs: seq<Message>): Level
    requires forall k :: 0 <= k < |msgs| ==> Dispatchable(msgs[k])
    decreases |msgs|
  {
    if msgs == [] then level else RunSlot(Transition(level, msgs[0]), msgs[1..])
  }

  /**
   * A relay keeps its level until a valid command arrives, and then holds
   * the level of the last valid command it received.
   */
  lemma {:induction false} RunSlotFollowsLastCommand(level: Level, msgs: seq<Message>)
    requires forall k :: 0 <= k < |msgs| ==> Dispatchable(msgs[k])
    ensures (forall k :: 0 <= k < |msgs| ==> Decide(msgs[k]).Ignore?) ==> RunSlot(level, msgs) == level
    ensures forall k :: 0 <= k < |msgs| && Decide(msgs[k]).Actuate? &&
                        (forall l :: k < l < |msgs| ==> Decide(msgs[l]).Ignore?) ==>
              RunSlot(level, msgs) == Decide(msgs[k]).level
    decreases |msgs|
  {
    if msgs != [] {
      var next := Transition(level, msgs[0]);
      RunSlotFollowsLastCommand(next, msgs[1..]);
      assert forall k :: 1 <= k < |msgs| ==> msgs[k] == msgs[1..][k - 1];
      forall k | 0 <= k < |msgs| && Decide(msgs[k]).Actuate? && (forall l :: k < l < |msgs| ==> Decide(msgs[l]).Ignore?)
        ensures RunSlot(level, msgs) == Decide(msgs[k]).level
      {
        if k > 0 {
          assert msgs[k] == msgs[1..][k - 1];
          assert forall l :: k - 1 < l < |msgs[1..]| ==> msgs[1..][l] == msgs[l + 1];
        } else {
          assert forall l :: 0 <= l < |msgs[1..]| ==> msgs[1..][l] == msgs[l + 1];
        }
      }
    }
  }

  /** One inbound message, delivered to the dispatcher of slot `slot`. */
  datatype Event = Event(slot: nat, msg: Message)

  predicate ValidEvents(events: seq<Event>, n: nat)
  {
    forall k :: 0 <= k < |events| ==> events[k].slot < n && Dispatchable(events[k].msg)
  }

  /** The relay levels after one event: only the addressed slot moves. */
  function BankStep(levels: seq<Level>, e: Event): (r: seq<Level>)
    requires e.slot < |levels| && Dispatchable(e.msg)
    ensures |r| == |levels|
    ensures r[e.slot] == Transition(levels[e.slot], e.msg)
    ensures forall j :: 0 <= j < |levels| && j != e.slot ==> r[j] == levels[j]
  {
    levels[e.slot := Transition(levels[e.slot], e.msg)]
  }

  /** The relay levels after the dispatchers handle `events` in the order they arrive. */
  function RunBank(levels: seq<Level>, events: seq<Event>): (r: seq<Level>)
    requires ValidEvents(events, |levels|)
    ensures |r| == |levels|
    decreases |events|
  {
    if events == [] then levels else RunBank(BankStep(levels, events[0]), events[1..])
  }

  /** The messages delivered to slot `j`, in arrival order. */
  function MessagesFor(events: seq<Event>, j: nat): (r: seq<Message>)
    ensures forall m :: m in r ==> exists k :: 0 <= k < |events| && events[k] == Event(j, m)
  {
    if events == [] then []
    else if events[0].slot == j then [events[0].msg] + MessagesFor(events[1..], j)
    else MessagesFor(events[1..], j)
  }

  lemma {:induction false} MessagesForNone(events: seq<Event>, j: nat)
    requires forall k :: 0 <= k < |events| ==> events[k].slot != j
    ensures MessagesFor(events, j) == []
  {
    if events != [] {
      assert forall k :: 0 <= k < |events[1..]| ==> events[1..][k] == events[k + 1];
      MessagesForNone(events[1..], j);
    }
  }

  lemma {:induction false} MessagesForDispatchable(events: seq<Event>, n: nat, j: nat)
    requires ValidEvents(events, n)
    ensures forall k :: 0 <= k < |MessagesFor(events, j)| ==> Dispatchable(MessagesFor(events, j)[k])
  {
    forall k | 0 <= k < |MessagesFor(events, j)| ensures Dispatchable(MessagesFor(events, j)[k]) {
      assert MessagesFor(events, j)[k] in MessagesFor(events, j);
    }
  }

  /**
   * Independence of the slots: however the messages of different slots
   * interleave, each relay ends where its own messages alone would take it.
   */
  lemma {:induction false} BankIndependence(levels: seq<Level>, events: seq<Event>, j: nat)
    requires ValidEvents(events, |levels|) && j < |levels|
    ensures forall k :: 0 <= k < |MessagesFor(events, j)| ==> Dispatchable(MessagesFor(events, j)[k])
    ensures RunBank(levels, events)[j] == RunSlot(levels[j], MessagesFor(events, j))
    decreases |events|
  {
    MessagesForDispatchable(events, |levels|, j);
    if events != [] {
      var e := events[0];
      assert ValidEvents(events[1..], |levels|) by {
        forall k | 0 <= k < |events[1..]| ensures events[1..][k].slot < |levels| && Dispatchable(events[1..][k].msg) {
          assert events[1..][k] == events[k + 1];
        }
      }
      var next := BankStep(levels, e);
      BankIndependence(next, events[1..], j);
      if e.slot == j {
        assert ([e.msg] + MessagesFor(events[1..], j))[1..] == MessagesFor(events[1..], j);
      }
    }
  }

  /** A slot that no dispatcher serves keeps its level whatever arrives for the others. */
  lemma UnservedSlotKeepsLevel(levels: seq<Level>, events: seq<Event>, j: nat)
    requires ValidEvents(events, |levels|) && j < |levels|
    requires forall k :: 0 <= k < |events| ==> events[k].slot != j
    ensures RunBank(levels, events)[j] == levels[j]
  {
    BankIndependence(levels, events, j);
    MessagesForNone(events, j);
  }

  // ---------------------------------------------------------------------
  // The dispatcher

  /** One subscription made at start-up: the slot, its control and its signal address. */
  datatype Subscription = Subscription(index: nat, control: string, signal: string)

  /** The subscriptions the gateway makes, one per dispatched slot. */
  method Subscriptions(base: string) returns (subs: seq<Subscription>)
    ensures |subs| == DispatcherCount
    ensures forall k :: 0 <= k < |subs| ==> subs[k] == Subscription(k, SlotAddress(base, k), SignalAddress(base, k))
  {
    subs := [];
    for idx := 0 to DispatcherCount
      invariant |subs| == idx
      invariant forall k :: 0 <= k < idx ==> subs[k] == Subscription(k, SlotAddress(base, k), SignalAddress(base, k))
    {
      subs := subs + [Subscription(idx, SlotAddress(base, idx), SignalAddress(base, idx))];
    }
  }

  /** The handler of slot `i` processing one inbound message. */
  method Dispatch(bank: RelayBank, client: Client, base: string, i: nat, m: Message)
    requires bank.Valid() && i < bank.relays.Length && Dispatchable(m)
    modifies bank.relays, client
    ensures bank.Levels() == BankStep(old(bank.Levels()), Event(i, m))
    ensures forall k :: 0 <= k < bank.relays.Length && k != i ==> bank.relays[k] == old(bank.relays[k])
    ensures bank.relays[i] == old(bank.relays[i]).(level := bank.relays[i].level)
    ensures Command(m) == Some(0) ==>
      && bank.relays[i].level == Low
      && client.State() == PublishState(old(client.State()), SignalAddress(base, i), [GetOne(m, BinaryActuationKind).value], true)
    ensures Command(m) == Some(1) ==>
      && bank.relays[i].level == High
      && client.State() == PublishState(old(client.State()), SignalAddress(base, i), [GetOne(m, BinaryActuationKind).value], true)
    ensures Command(m) != Some(0) && Command(m) != Some(1) ==>
      bank.relays[i] == old(bank.relays[i]) && client.State() == old(client.State())
  {
    var po := GetOne(m, BinaryActuationKind);
    if po.Some? {
      if po.value.contents[0] == 0 {
        bank.relays[i] := Write(bank.relays[i], Low);
        client.Publish(SignalAddress(base, i), [po.value], true);
      } else if po.value.contents[0] == 1 {
        bank.relays[i] := Write(bank.relays[i], High);
        client.Publish(SignalAddress(base, i), [po.value], true);
      }
    }
  }
}
