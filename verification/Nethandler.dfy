/**
 Packet slots shared by the receive interrupt and one worker task (net/nethandler.c). The interrupt
 handler runs as one step between any two steps of the worker.
 */
module PacketSlots {
  import opened Basics

  type Packet = seq<Byte>

  const NUM_BUFFERS: nat := 8
  const BUFFER_SIZE: nat := 1536

  datatype State = Empty | NeedsProcessing | CurrentlyProcessing
  datatype Slot = Slot(state: State, bytes: seq<Byte>, length: nat)

  /** Where the worker stands in its loop. */
  datatype Place =
    | Looking(i: nat)    // about to look at slot i
    | Claiming(i: nat)   // saw a packet in slot i
    | Handing(i: nat)    // claimed slot i, about to call the handler
    | Clearing(i: nat)   // the handler has returned
    | Releasing(i: nat)  // about to mark the slot empty

  function Zeroed(): seq<Byte> { seq(BUFFER_SIZE, _ => 0) }

  /** The buffer after a packet was copied to its start. */
  function Filled(bytes: seq<Byte>, data: Packet): seq<Byte>
    requires |data| <= |bytes|
  {
    data + bytes[|data|..]
  }

  /** The lowest empty slot from i on, or their number. */
  ghost function FirstEmpty(slots: seq<Slot>, i: nat): (r: nat)
    requires i <= |slots|
    ensures i <= r <= |slots| && (r < |slots| ==> slots[r].state.Empty?)
    ensures forall j :: i <= j < r ==> !slots[j].state.Empty?
    decreases |slots| - i
  {
    if i == |slots| || slots[i].state.Empty? then i else FirstEmpty(slots, i + 1)
  }

  /** The slot holds a packet that was not handed over yet. */
  ghost predicate Waiting(slots: seq<Slot>, place: Place, i: nat)
    requires i < |slots|
  {
    slots[i].state.NeedsProcessing? || (slots[i].state.CurrentlyProcessing? && place == Handing(i))
  }

  ghost function WaitingSlots(slots: seq<Slot>, place: Place): set<nat> {
    set i: nat | i < |slots| && Waiting(slots, place, i)
  }

  ghost predicate Shaped(slots: seq<Slot>, place: Place) {
    && |slots| == NUM_BUFFERS && place.i < NUM_BUFFERS
    && (forall i :: 0 <= i < NUM_BUFFERS ==> |slots[i].bytes| == BUFFER_SIZE && slots[i].length <= BUFFER_SIZE)
    && (forall i :: 0 <= i < NUM_BUFFERS ==>
      (slots[i].state.CurrentlyProcessing? <==> i == place.i && !place.Looking? && !place.Claiming?))
    && (place.Claiming? ==> slots[place.i].state.NeedsProcessing?)
  }

  /**
   The life of every accepted packet: `slotOf[k]` is the slot that holds packet k, or -1 once it
   was handed over, and `order` lists the packets handed over.
   */
  ghost predicate Tracked(
    slots: seq<Slot>, place: Place, accepted: seq<Packet>, slotOf: seq<int>, packetIn: seq<int>, order: seq<nat>)
    requires Shaped(slots, place)
  {
    && |slotOf| == |accepted| && |packetIn| == NUM_BUFFERS
    && (forall k :: 0 <= k < |accepted| && slotOf[k] != -1 ==>
      0 <= slotOf[k] < NUM_BUFFERS && Waiting(slots, place, slotOf[k]) && packetIn[slotOf[k]] == k)
    && (forall i :: 0 <= i < NUM_BUFFERS && Waiting(slots, place, i) ==>
      0 <= packetIn[i] < |accepted| && slotOf[packetIn[i]] == i
      && slots[i].length == |accepted[packetIn[i]]| && slots[i].bytes[..slots[i].length] == accepted[packetIn[i]])
    && (forall j :: 0 <= j < |order| ==> order[j] < |accepted| && slotOf[order[j]] == -1)
    && (forall k :: 0 <= k < |accepted| && slotOf[k] == -1 ==> k in order)
    && (forall j, l :: 0 <= j < l < |order| ==> order[j] != order[l])
  }

  /** What the handler was called with: the packets of `order`, each with its own bytes. */
  ghost predicate Faithful(handed: seq<Packet>, accepted: seq<Packet>, order: seq<nat>) {
    && |handed| == |order|
    && forall j :: 0 <= j < |order| ==> order[j] < |accepted| && handed[j] == accepted[order[j]]
  }

  //  One step at a time

  /** The same packets wait, in the same slots, with the same bytes. */
  ghost predicate SameWaiting(slots: seq<Slot>, place: Place, slots': seq<Slot>, place': Place) {
    && |slots| == |slots'|
    && forall i :: 0 <= i < |slots| ==>
      && Waiting(slots', place', i) == Waiting(slots, place, i)
      && (Waiting(slots, place, i) ==> slots'[i].bytes == slots[i].bytes && slots'[i].length == slots[i].length)
  }

  lemma SameTracked(
    slots: seq<Slot>, place: Place, slots': seq<Slot>, place': Place,
    accepted: seq<Packet>, slotOf: seq<int>, packetIn: seq<int>, order: seq<nat>)
    requires Shaped(slots, place) && Shaped(slots', place') && SameWaiting(slots, place, slots', place')
    requires Tracked(slots, place, accepted, slotOf, packetIn, order)
    ensures Tracked(slots', place', accepted, slotOf, packetIn, order)
    ensures WaitingSlots(slots', place') == WaitingSlots(slots, place)
  {
    hide Waiting;
  }

  ghost function AddedTo(slots: seq<Slot>, i: nat, data: Packet): seq<Slot>
    requires i < |slots| && |data| <= |slots[i].bytes|
  {
    slots[i := Slot(NeedsProcessing, Filled(slots[i].bytes, data), |data|)]
  }

  lemma AddWaiting(slots: seq<Slot>, place: Place, i: nat, data: Packet, j: nat)
    requires Shaped(slots, place) && i < NUM_BUFFERS && slots[i].state.Empty? && |data| <= BUFFER_SIZE && j < NUM_BUFFERS
    ensures !Waiting(slots, place, i) && Waiting(AddedTo(slots, i, data), place, i)
    ensures j != i ==> Waiting(AddedTo(slots, i, data), place, j) == Waiting(slots, place, j)
    ensures j != i ==> AddedTo(slots, i, data)[j] == slots[j]
  {
  }

  lemma AddShaped(slots: seq<Slot>, place: Place, i: nat, data: Packet)
    requires Shaped(slots, place) && i < NUM_BUFFERS && slots[i].state.Empty? && |data| <= BUFFER_SIZE
    ensures Shaped(AddedTo(slots, i, data), place)
    ensures AddedTo(slots, i, data)[i].length == |data| && AddedTo(slots, i, data)[i].bytes[..|data|] == data
  {
  }

  lemma AddCount(slots: seq<Slot>, place: Place, i: nat, data: Packet)
    requires Shaped(slots, place) && i < NUM_BUFFERS && slots[i].state.Empty? && |data| <= BUFFER_SIZE
    ensures |WaitingSlots(AddedTo(slots, i, data), place)| == |WaitingSlots(slots, place)| + 1
  {
    hide Waiting;
    var after := AddedTo(slots, i, data);
    forall j: nat | j < NUM_BUFFERS
      ensures Waiting(after, place, j) == (j == i || Waiting(slots, place, j)) && !Waiting(slots, place, i)
    {
      AddWaiting(slots, place, i, data, j);
    }
    assert WaitingSlots(after, place) == WaitingSlots(slots, place) + {i};
  }

  lemma AddTracked(
    slots: seq<Slot>, place: Place, i: nat, data: Packet,
    accepted: seq<Packet>, slotOf: seq<int>, packetIn: seq<int>, order: seq<nat>)
    requires Shaped(slots, place) && i < NUM_BUFFERS && slots[i].state.Empty? && |data| <= BUFFER_SIZE
    requires Tracked(slots, place, accepted, slotOf, packetIn, order)
    ensures Shaped(AddedTo(slots, i, data), place) && |packetIn| == NUM_BUFFERS
    ensures Tracked(AddedTo(slots, i, data), place, accepted + [data], slotOf + [i], packetIn[i := |accepted|], order)
    ensures |WaitingSlots(AddedTo(slots, i, data), place)| == |WaitingSlots(slots, place)| + 1
  {
    AddShaped(slots, place, i, data);
    AddCount(slots, place, i, data);
    hide Waiting, Filled, AddedTo, WaitingSlots;
    var after := AddedTo(slots, i, data);
    forall j: nat | j < NUM_BUFFERS
      ensures Waiting(after, place, j) == (j == i || Waiting(slots, place, j)) && !Waiting(slots, place, i)
      ensures j != i ==> after[j] == slots[j]
    {
      AddWaiting(slots, place, i, data, j);
    }
  }

  /** Handing packet k over from slot i. */
  lemma HandTracked(
    slots: seq<Slot>, i: nat, k: nat,
    accepted: seq<Packet>, slotOf: seq<int>, packetIn: seq<int>, order: seq<nat>)
    requires Shaped(slots, Handing(i)) && Tracked(slots, Handing(i), accepted, slotOf, packetIn, order)
    requires packetIn[i] == k
    ensures k < |accepted| && Shaped(slots, Clearing(i))
    ensures slots[i].bytes[..slots[i].length] == accepted[k]
    ensures Tracked(slots, Clearing(i), accepted, slotOf[k := -1], packetIn, order + [k])
    ensures |WaitingSlots(slots, Clearing(i))| == |WaitingSlots(slots, Handing(i))| - 1
  {
    assert Waiting(slots, Handing(i), i) && !Waiting(slots, Clearing(i), i);
    forall j: nat | j < NUM_BUFFERS && j != i
      ensures Waiting(slots, Clearing(i), j) == Waiting(slots, Handing(i), j)
    {
    }
    hide Waiting;
    assert WaitingSlots(slots, Clearing(i)) == WaitingSlots(slots, Handing(i)) - {i};
    assert slotOf[k] == i && k !in order;
    var more := order + [k];
    forall l | 0 <= l < |accepted| && slotOf[k := -1][l] == -1
      ensures l in more
    {
      assert l == k || l in order;
      assert more[|order|] == k;
    }
  }

  datatype Event = Interrupt(data: Packet) | Work

  class Handler {
    var slots: seq<Slot>
    var place: Place
    var handed: seq<Packet>
    ghost var accepted: seq<Packet>
    ghost var slotOf: seq<int>
    ghost var packetIn: seq<int>
    ghost var order: seq<nat>
    ghost var added: nat
    ghost var dropped: nat

    ghost predicate Valid()
      reads this
    {
      && Shaped(slots, place)
      && Tracked(slots, place, accepted, slotOf, packetIn, order)
      && Faithful(handed, accepted, order)
      && added == dropped + |accepted|
      && |accepted| == |handed| + |WaitingSlots(slots, place)|
    }

    constructor ()
      ensures Valid() && accepted == [] && handed == [] && added == 0 && place == Looking(0)
      ensures slots == seq(NUM_BUFFERS, _ => Slot(Empty, Zeroed(), 0))
    {
      slots := seq(NUM_BUFFERS, _ => Slot(Empty, Zeroed(), 0));
      place := Looking(0);
      handed, accepted, slotOf, order := [], [], [], [];
      packetIn := seq(NUM_BUFFERS, _ => -1);
      added, dropped := 0, 0;
      new;
      assert WaitingSlots(slots, place) == {};
    }

    method FindEmpty() returns (i: nat)
      requires |slots| == NUM_BUFFERS
      ensures i == FirstEmpty(slots, 0)
    {
      i := 0;
      while i < NUM_BUFFERS && !slots[i].state.Empty?
        invariant i <= NUM_BUFFERS && FirstEmpty(slots, 0) == FirstEmpty(slots, i)
      {
        i := i + 1;
      }
    }

    /** nethandler_add_packet, called by the interrupt handler: no slot in use is touched. */
    method AddPacket(data: Packet)
      requires Valid() && 0 < |data| <= BUFFER_SIZE
      modifies this
      ensures Valid() && added == old(added) + 1 && handed == old(handed) && place == old(place)
      ensures old(accepted) <= accepted
      ensures FirstEmpty(old(slots), 0) == NUM_BUFFERS ==>
        slots == old(slots) && accepted == old(accepted) && dropped == old(dropped) + 1
      ensures FirstEmpty(old(slots), 0) < NUM_BUFFERS ==>
        slots == AddedTo(old(slots), FirstEmpty(old(slots), 0), data)
        && accepted == old(accepted) + [data] && dropped == old(dropped)
    {
      hide Tracked, Waiting, WaitingSlots, Filled;
      added := added + 1;
      var i := FindEmpty();
      if i == NUM_BUFFERS {
        dropped := dropped + 1;
        return;
      }
      AddTracked(slots, place, i, data, accepted, slotOf, packetIn, order);
      slots := slots[i := slots[i].(bytes := Filled(slots[i].bytes, data))];
      slots := slots[i := slots[i].(length := |data|)];
      slots := slots[i := slots[i].(state := NeedsProcessing)];
      assert slots == AddedTo(old(slots), i, data);
      packetIn := packetIn[i := |accepted|];
      slotOf := slotOf + [i];
      accepted := accepted + [data];
    }

    /** One step of nethandler_task. */
    method Step()
      requires Valid()
      modifies this
      ensures Valid() && accepted == old(accepted) && added == old(added) && dropped == old(dropped)
      ensures (slots, place, handed) == Stepped(old(slots), old(place), old(handed)) && old(handed) <= handed
    {
      hide Tracked, WaitingSlots;
      var i := place.i;
      match place
      case Looking(_) =>
        if slots[i].state.NeedsProcessing? {
          place := Claiming(i);
        } else if i + 1 < NUM_BUFFERS {
          place := Looking(i + 1);
        } else {
          place := Looking(0);
        }
        SameTracked(slots, old(place), slots, place, accepted, slotOf, packetIn, order);
      case Claiming(_) =>
        slots := slots[i := slots[i].(state := CurrentlyProcessing)];
        place := Handing(i);
        SameTracked(old(slots), old(place), slots, place, accepted, slotOf, packetIn, order);
      case Handing(_) =>
        ghost var k := OwnerOf(slots, i, accepted, slotOf, packetIn, order);
        HandTracked(slots, i, k, accepted, slotOf, packetIn, order);
        handed := handed + [slots[i].bytes[..slots[i].length]];
        place := Clearing(i);
        slotOf := slotOf[k := -1];
        order := order + [k];
      case Clearing(_) =>
        slots := slots[i := slots[i].(bytes := Zeroed())];
        place := Releasing(i);
        SameTracked(old(slots), old(place), slots, place, accepted, slotOf, packetIn, order);
      case Releasing(_) =>
        slots := slots[i := slots[i].(state := Empty)];
        place := Looking(0);
        SameTracked(old(slots), old(place), slots, place, accepted, slotOf, packetIn, order);
    }

    /** Any interleaving of interrupts and worker steps. */
    method Run(events: seq<Event>)
      requires Valid()
      requires forall e :: 0 <= e < |events| && events[e].Interrupt? ==> 0 < |events[e].data| <= BUFFER_SIZE
      modifies this
      ensures Valid() && old(accepted) <= accepted && old(handed) <= handed
      ensures added == old(added) + Interrupts(events)
      ensures Interrupts(events) == 0 && |events| >= 12 * old(|WaitingSlots(slots, place)|) + 12 ==>
                accepted == old(accepted) && |handed| == |accepted| && WaitingSlots(slots, place) == {}
    {
      hide Shaped, Tracked, Faithful, WaitingSlots, AddedTo, StepsDue, Stepped;
      ghost var due := StepsDue(slots, place);
      for e := 0 to |events|
        invariant Valid() && old(accepted) <= accepted && old(handed) <= handed
        invariant added == old(added) + Interrupts(events[..e])
        invariant Interrupts(events[..e]) == 0 ==>
          accepted == old(accepted) && (StepsDue(slots, place) == 0 || StepsDue(slots, place) + e <= due)
      {
        assert events[..e + 1][..e] == events[..e];
        match events[e]
        case Interrupt(data) => AddPacket(data);
        case Work =>
          StepIsProgress(slots, place, handed);
          Step();
      }
      assert events[..|events|] == events;
      DueBound(old(slots), old(place));
      DueBound(slots, place);
    }
  }

  ghost function Interrupts(events: seq<Event>): nat {
    if events == [] then 0
    else Interrupts(events[..|events| - 1]) + (if events[|events| - 1].Interrupt? then 1 else 0)
  }

  /** The packet in the slot whose handler is about to be called. */
  ghost function OwnerOf(
    slots: seq<Slot>, i: nat, accepted: seq<Packet>, slotOf: seq<int>, packetIn: seq<int>, order: seq<nat>): (k: nat)
    requires Shaped(slots, Handing(i)) && Tracked(slots, Handing(i), accepted, slotOf, packetIn, order)
    ensures i < |packetIn| && packetIn[i] == k < |accepted| == |slotOf|
  {
    assert Waiting(slots, Handing(i), i);
    packetIn[i]
  }

  ghost function Stepped(slots: seq<Slot>, place: Place, handed: seq<Packet>): (seq<Slot>, Place, seq<Packet>)
    requires Shaped(slots, place)
  {
    var i := place.i;
    match place
    case Looking(_) =>
      (slots, if slots[i].state.NeedsProcessing? then Claiming(i) else Looking((i + 1) % NUM_BUFFERS), handed)
    case Claiming(_) => (slots[i := slots[i].(state := CurrentlyProcessing)], Handing(i), handed)
    case Handing(_) => (slots, Clearing(i), handed + [slots[i].bytes[..slots[i].length]])
    case Clearing(_) => (slots[i := slots[i].(bytes := Zeroed())], Releasing(i), handed)
    case Releasing(_) => (slots[i := slots[i].(state := Empty)], Looking(0), handed)
  }

  //  Without further interrupts the worker gets to every packet

  /** The lowest slot with a packet not yet claimed from i on, or their number. */
  ghost function NextPacket(slots: seq<Slot>, i: nat): (r: nat)
    requires i <= |slots|
    ensures i <= r <= |slots| && (r < |slots| ==> slots[r].state.NeedsProcessing?)
    ensures forall j :: i <= j < r ==> !slots[j].state.NeedsProcessing?
    decreases |slots| - i
  {
    if i == |slots| || slots[i].state.NeedsProcessing? then i else NextPacket(slots, i + 1)
  }

  /** Steps until the next packet is handed over, or, after one was, until the search for it has begun and ended. */
  ghost function Ahead(slots: seq<Slot>, place: Place): int
    requires Shaped(slots, place)
  {
    match place
    case Looking(i) =>
      var r := NextPacket(slots, i);
      3 + if r < NUM_BUFFERS then r - i else NUM_BUFFERS - i + NextPacket(slots, 0)
    case Claiming(_) => 2
    case Handing(_) => 1
    case Clearing(_) => 12
    case Releasing(_) => 11
  }

  /** A bound on the steps until no packet waits. */
  ghost function StepsDue(slots: seq<Slot>, place: Place): int
    requires Shaped(slots, place)
  {
    if WaitingSlots(slots, place) == {} then 0 else 12 * |WaitingSlots(slots, place)| + Ahead(slots, place)
  }

  lemma AheadBound(slots: seq<Slot>, place: Place)
    requires Shaped(slots, place) && WaitingSlots(slots, place) != {}
    ensures 1 <= Ahead(slots, place) <= 12
    ensures place.Looking? ==> Ahead(slots, place) <= 10 && NextPacket(slots, 0) < NUM_BUFFERS
  {
    if place.Looking? {
      var j :| j in WaitingSlots(slots, place);
      assert slots[j].state.NeedsProcessing?;
    }
  }

  lemma DueBound(slots: seq<Slot>, place: Place)
    requires Shaped(slots, place)
    ensures 0 <= StepsDue(slots, place) <= 12 * |WaitingSlots(slots, place)| + 12
    ensures StepsDue(slots, place) == 0 <==> WaitingSlots(slots, place) == {}
  {
    hide Ahead, Waiting, WaitingSlots;
    if WaitingSlots(slots, place) != {} {
      AheadBound(slots, place);
    }
  }

  /** A step changes which slots wait only when it hands a packet over. */
  lemma StepWaiting(slots: seq<Slot>, place: Place, handed: seq<Packet>)
    requires Shaped(slots, place)
    ensures var (slots', place', _) := Stepped(slots, place, handed);
      && Shaped(slots', place')
      && WaitingSlots(slots', place') == WaitingSlots(slots, place) - (if place.Handing? then {place.i} else {})
      && (place.Handing? ==> place.i in WaitingSlots(slots, place))
  {
  }

  /** Looking at a slot without a packet is one step on the way to the next packet. */
  lemma LookOn(slots: seq<Slot>, i: nat)
    requires Shaped(slots, Looking(i)) && NextPacket(slots, 0) < NUM_BUFFERS && !slots[i].state.NeedsProcessing?
    ensures Shaped(slots, Looking((i + 1) % NUM_BUFFERS))
    ensures Ahead(slots, Looking((i + 1) % NUM_BUFFERS)) == Ahead(slots, Looking(i)) - 1
  {
  }

  /** Every step of the worker brings it nearer to having handed everything over. */
  lemma StepIsProgress(slots: seq<Slot>, place: Place, handed: seq<Packet>)
    requires Shaped(slots, place)
    ensures var next := Stepped(slots, place, handed);
      Shaped(next.0, next.1) && (StepsDue(next.0, next.1) == 0 || 0 < StepsDue(next.0, next.1) < StepsDue(slots, place))
  {
    hide Waiting, WaitingSlots;
    var (slots', place', _) := Stepped(slots, place, handed);
    StepWaiting(slots, place, handed);
    if WaitingSlots(slots', place') != {} {
      AheadBound(slots, place);
      AheadBound(slots', place');
      if place.Looking? && !slots[place.i].state.NeedsProcessing? {
        LookOn(slots, place.i);
      }
    }
  }

  /** What the invariant says: every accepted packet waits in one slot or was handed over once, intact. */
  lemma ExactlyOnce(
    slots: seq<Slot>, place: Place, handed: seq<Packet>,
    accepted: seq<Packet>, slotOf: seq<int>, packetIn: seq<int>, order: seq<nat>, k: nat)
    requires Shaped(slots, place) && Tracked(slots, place, accepted, slotOf, packetIn, order)
    requires Faithful(handed, accepted, order) && k < |accepted|
    ensures multiset(order)[k] == if slotOf[k] == -1 then 1 else 0
    ensures slotOf[k] != -1 ==> slotOf[k] < NUM_BUFFERS && slots[slotOf[k]].bytes[..slots[slotOf[k]].length] == accepted[k]
    ensures forall j :: 0 <= j < |order| && order[j] == k ==> handed[j] == accepted[k]
  {
    CountOnce(order, k);
  }

  lemma {:induction false} CountOnce(order: seq<nat>, k: nat)
    requires forall j, l :: 0 <= j < l < |order| ==> order[j] != order[l]
    ensures multiset(order)[k] == if k in order then 1 else 0
  {
    if order != [] {
      var init := order[..|order| - 1];
      assert order == init + [order[|order| - 1]];
      CountOnce(init, k);
    }
  }
}
