/**
 * Event spaces and the events they mint (fsm/EventSpace.java, fsm/FsmEvent.java).
 *
 * Events are objects: the source never overrides equals/hashCode, so an
 * event's membership in a space is decided by reference, not by its id.
 */
module Events {
  import opened Common

  /** An event: a name and a slot id, both fixed at construction. */
  class FsmEvent {
    const name: string
    const id: int

    constructor (name: string, id: int)
      ensures this.name == name && this.id == id
    {
      this.name := name;
      this.id := id;
    }

    function GetName(): string { name }

    function GetId(): int { id }

    /** Membership is whatever the space answers; nothing is changed. */
    predicate IsMemberOf(sp: EventSpace)
      reads sp
    {
      sp.HasEvent(this)
    }
  }

  /**
   * An append-only registry of events with a fixed capacity.  `minted` is the
   * ghost history of the events in minting order; `level` is a ghost rank that
   * orders nested machines (an inner machine listens to a lower-ranked space),
   * which is what makes the engine's recursion terminate.
   */
  class EventSpace {
    const size: int
    ghost const level: nat
    var events: set<FsmEvent>
    var next: int
    ghost var minted: seq<FsmEvent>

    ghost predicate Valid()
      reads this
    {
      && 0 <= next <= size
      && |minted| == next
      && (forall i :: 0 <= i < next ==> minted[i].id == i && minted[i] in events)
      && (forall e :: e in events ==> 0 <= e.id < next && minted[e.id] == e)
    }

    /** Allocation of a space of non-negative capacity; see `Create` for the checked entry point. */
    constructor (size: int, ghost level: nat)
      requires size >= 0
      ensures Valid()
      ensures this.size == size && this.level == level
      ensures events == {} && next == 0 && minted == []
    {
      this.size := size;
      this.level := level;
      events := {};
      next := 0;
      minted := [];
    }

    /** `new EventSpace(size)`: a negative size is rejected, otherwise the space starts empty. */
    static method Create(size: int, ghost level: nat) returns (r: Result<EventSpace>)
      ensures size < 0 <==> r.Failure?
      ensures r.Failure? ==> r.error == NegativeArraySize
      ensures r.Success? ==> fresh(r.value) && r.value.Valid() && r.value.level == level
      ensures r.Success? ==> r.value.GetSize() == size && r.value.events == {} && r.value.next == 0
    {
      if size >= 0 {
        var sp := new EventSpace(size, level);
        r := Success(sp);
      } else {
        r := Failure(NegativeArraySize);
      }
    }

    /** The capacity given at construction; it is a constant, whatever has been minted. */
    function GetSize(): int { size }

    predicate HasEvent(e: FsmEvent)
      reads this
    {
      e in events
    }

    /** No two events of one space share an id, and every id is a minted slot. */
    lemma IdsIdentifyEvents()
      requires Valid()
      ensures forall e :: e in events ==> 0 <= e.id < next <= size
      ensures forall e1, e2 :: e1 in events && e2 in events && e1.id == e2.id ==> e1 == e2
    {
    }

    /**
     * Mints a fresh event whose id is the number of events minted before it,
     * or fails when the space is full, leaving it unchanged.
     */
    method NewEvent(name: string) returns (r: Result<FsmEvent>)
      requires Valid()
      modifies this
      ensures Valid()
      ensures r.Success? <==> old(next) < size
      ensures r.Success? ==>
        && fresh(r.value)
        && r.value.name == name && r.value.id == old(next)
        && next == old(next) + 1
        && events == old(events) + {r.value}
        && minted == old(minted) + [r.value]
      ensures r.Success? ==> forall sp: EventSpace :: old(allocated(sp)) && sp != this ==> !r.value.IsMemberOf(sp)
      ensures r.Failure? ==>
        r.error == EventSpaceFull && events == old(events) && next == old(next) && minted == old(minted)
    {
      if next < size {
        var e := new FsmEvent(name, next);
        next := next + 1;
        events := events + {e};
        minted := minted + [e];
        r := Success(e);
      } else {
        r := Failure(EventSpaceFull);
      }
    }
  }

  /**
   * Two spaces of one slot each mint an event with the same id, yet neither
   * event is a member of the other space, and a second event is refused:
   * membership is by identity, not by id.
   */
  method MembershipIsByIdentity() returns (a: EventSpace, b: EventSpace, ea: FsmEvent, eb: FsmEvent)
    ensures a != b && a.Valid() && b.Valid()
    ensures ea.GetId() == eb.GetId() == 0
    ensures ea.IsMemberOf(a) && eb.IsMemberOf(b)
    ensures !eb.IsMemberOf(a) && !ea.IsMemberOf(b)
    ensures a.next == a.GetSize() == 1
  {
    a := new EventSpace(1, 0);
    b := new EventSpace(1, 0);
    var ra := a.NewEvent("grip");
    var rb := b.NewEvent("grip");
    ea, eb := ra.value, rb.value;
    var rc := a.NewEvent("release");
    assert rc.Failure? && rc.error == EventSpaceFull;
  }
}
