/** `AggregateRoot`: an `Entity` (with a `long` id) that owns a list of domain
    events, appended to by its own business operations and cleared wholesale by
    whoever dispatches them. */
module AggregateRoots {
  import opened Runtime
  import Entities

  /** An aggregate root whose domain events have type `E`. */
  class AggregateRoot<E> {
    /** The inherited `Entity.Id`; a subclass sets it through the protected setter. */
    var id: Int64
    /** The private `_domainEvents` list. */
    var domainEvents: seq<E>

    /** `DomainEvents`: the events recorded since construction or the last clear,
        in the order they were added. */
    function DomainEvents(): seq<E>
      reads this
    {
      domainEvents
    }

    /** The protected parameterless constructor: a transient entity (id 0) with an
        empty event list. */
    constructor ()
      ensures DomainEvents() == []
      ensures id == Entities.LongId.Default().v
    {
      id := 0;
      domainEvents := [];
    }

    /** `AddDomainEvent`: appends one event; earlier events keep their order and
        the id does not change. */
    method AddDomainEvent(newEvent: E)
      modifies this
      ensures DomainEvents() == old(DomainEvents()) + [newEvent]
      ensures |DomainEvents()| == |old(DomainEvents())| + 1
      ensures DomainEvents()[..|old(DomainEvents())|] == old(DomainEvents())
      ensures id == old(id)
    {
      domainEvents := domainEvents + [newEvent];
    }

    /** `ClearEvents`: empties the list, which makes a second call a no-op; the id
        does not change. */
    method ClearEvents()
      modifies this
      ensures DomainEvents() == []
      ensures old(DomainEvents()) == [] ==> DomainEvents() == old(DomainEvents())
      ensures id == old(id)
    {
      domainEvents := [];
    }
  }

  /** A business operation that records `events` one at a time right after the
      events were dispatched: the log is then exactly `events`, in call order. */
  method RecordAfterClear<E>(aggregate: AggregateRoot<E>, events: seq<E>)
    modifies aggregate
    ensures aggregate.DomainEvents() == events
    ensures aggregate.id == old(aggregate.id)
  {
    aggregate.ClearEvents();
    for i := 0 to |events|
      invariant aggregate.DomainEvents() == events[..i]
      invariant aggregate.id == old(aggregate.id)
    {
      aggregate.AddDomainEvent(events[i]);
      assert events[..i + 1] == events[..i] + [events[i]];
    }
  }

  /** A freshly constructed aggregate whose business operations record `events`
      one at a time exposes exactly `events`, and clearing twice in a row leaves
      it empty both times. */
  method RecordFromNew<E>(events: seq<E>) returns (recorded: seq<E>, afterClear: seq<E>, afterSecondClear: seq<E>)
    ensures recorded == events
    ensures afterClear == [] && afterSecondClear == []
  {
    var aggregate := new AggregateRoot<E>();
    for i := 0 to |events|
      invariant aggregate.DomainEvents() == events[..i]
    {
      aggregate.AddDomainEvent(events[i]);
      assert events[..i + 1] == events[..i] + [events[i]];
    }
    assert events[..|events|] == events;
    recorded := aggregate.DomainEvents();
    aggregate.ClearEvents();
    afterClear := aggregate.DomainEvents();
    aggregate.ClearEvents();
    afterSecondClear := aggregate.DomainEvents();
  }
}
