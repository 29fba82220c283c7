/**
 * The event list and modal state of the calendar page (`CalendarWithModal`):
 * the event record, the form data it is built from, the pure list
 * transformations the handlers apply, and the component state as a class.
 */
module Calendar {
  import opened Wrappers
  import opened Decimal

  /** One calendar entry (`IEvent`). */
  datatype Event = Event(id: string, title: string, start: string, end: string, notes: Option<string>)

  /** What the modal form submits (`EventFormInputs`, an event without its id). */
  datatype EventFormInputs = EventFormInputs(title: string, start: string, end: string, notes: Option<string>)

  /** The parts of the widget's dragged event the drop handler reads. */
  datatype DroppedEvent = DroppedEvent(id: string, startStr: string, endStr: string)

  /** Where the modal is drawn; computed by the widget's layout, opaque here. */
  datatype ModalPosition = ModalPosition(top: real, left: real)

  predicate HasId(es: seq<Event>, id: string) {
    exists i :: 0 <= i < |es| && es[i].id == id
  }

  predicate UniqueIds(es: seq<Event>) {
    forall i, j :: 0 <= i < j < |es| ==> es[i].id != es[j].id
  }

  /** Every id is the decimal text of a timestamp strictly below `bound`. */
  predicate StampedBefore(es: seq<Event>, bound: nat) {
    forall i :: 0 <= i < |es| ==> Canonical(es[i].id) && ParseDecimal(es[i].id) < bound
  }

  // ---------------------------------------------------------------------------
  // Save: the record built from the form

  /** The record `handleSave` appends; `now` stands for `Date.now()`. */
  function NewEvent(now: nat, data: EventFormInputs): (e: Event)
    ensures Canonical(e.id) && ParseDecimal(e.id) == now
    ensures e.title == data.title && e.start == data.start && e.end == data.end && e.notes == data.notes
  {
    ParseNatToString(now);
    Event(NatToString(now), data.title, data.start, data.end, data.notes)
  }

  /** Saving keeps ids distinct whenever the clock yields an id not yet in use. */
  lemma SaveFreshIdKeepsUnique(es: seq<Event>, now: nat, data: EventFormInputs)
    requires UniqueIds(es) && !HasId(es, NatToString(now))
    ensures UniqueIds(es + [NewEvent(now, data)])
  {
  }

  /** If every id so far was stamped earlier than `now`, the new id is not in use. */
  lemma {:induction false} StampedBeforeNowIsFresh(es: seq<Event>, now: nat)
    requires StampedBefore(es, now)
    ensures !HasId(es, NatToString(now))
  {
    ParseNatToString(now);
  }

  /**
   * With a clock that moves forward between saves, saving keeps the ids
   * distinct and every id stamped before the next tick.
   */
  lemma SaveWithAdvancingClock(es: seq<Event>, now: nat, data: EventFormInputs)
    requires UniqueIds(es) && StampedBefore(es, now)
    ensures UniqueIds(es + [NewEvent(now, data)])
    ensures StampedBefore(es + [NewEvent(now, data)], now + 1)
  {
  }

  // ---------------------------------------------------------------------------
  // Drop: the `prev.map(...)` of `handleEventDrop`

  /** One element of the map: the conditional spread. */
  function Moved(e: Event, d: DroppedEvent): (r: Event)
    ensures r.id == e.id && r.title == e.title && r.notes == e.notes
    ensures e.id == d.id ==> r.start == d.startStr && r.end == d.endStr
    ensures e.id != d.id ==> r == e
  {
    if e.id == d.id then e.(start := d.startStr, end := d.endStr) else e
  }

  /** The list after dropping `d`: `Moved` applied to every record, in order. */
  function DropEvents(es: seq<Event>, d: DroppedEvent): (r: seq<Event>)
    ensures |r| == |es|
    decreases |es|
  {
    if es == [] then [] else [Moved(es[0], d)] + DropEvents(es[1..], d)
  }

  /**
   * Dropping keeps each record's position, id, title and notes; a record with
   * the dropped id gets the dropped start and end, any other is left as it was.
   */
  lemma {:induction false} DropAt(es: seq<Event>, d: DroppedEvent, i: nat)
    requires i < |es|
    ensures DropEvents(es, d)[i].id == es[i].id
    ensures DropEvents(es, d)[i].title == es[i].title
    ensures DropEvents(es, d)[i].notes == es[i].notes
    ensures es[i].id == d.id ==> DropEvents(es, d)[i].start == d.startStr && DropEvents(es, d)[i].end == d.endStr
    ensures es[i].id != d.id ==> DropEvents(es, d)[i] == es[i]
    decreases |es|
  {
    if i > 0 {
      DropAt(es[1..], d, i - 1);
    }
  }

  /** A dropped event carrying an id not in the list leaves the list unchanged. */
  lemma {:induction false} DropAbsentIsIdentity(es: seq<Event>, d: DroppedEvent)
    requires !HasId(es, d.id)
    ensures DropEvents(es, d) == es
  {
    forall i | 0 <= i < |es| ensures DropEvents(es, d)[i] == es[i] {
      DropAt(es, d, i);
    }
  }

  /** A second drop of the same id overrides the first: only the last times remain. */
  lemma {:induction false} DropSameIdOverrides(es: seq<Event>, d1: DroppedEvent, d2: DroppedEvent)
    requires d1.id == d2.id
    ensures DropEvents(DropEvents(es, d1), d2) == DropEvents(es, d2)
  {
    var once := DropEvents(es, d1);
    forall i | 0 <= i < |es| ensures DropEvents(once, d2)[i] == DropEvents(es, d2)[i] {
      DropAt(es, d1, i);
      DropAt(once, d2, i);
      DropAt(es, d2, i);
    }
  }

  /** Dropping the same id to the same times twice is the same as dropping once. */
  lemma {:induction false} DropIdempotent(es: seq<Event>, d: DroppedEvent)
    ensures DropEvents(DropEvents(es, d), d) == DropEvents(es, d)
  {
    DropSameIdOverrides(es, d, d);
  }

  /** Dropping never adds or removes an id, so it keeps ids distinct and stamped. */
  lemma DropKeepsIds(es: seq<Event>, d: DroppedEvent, bound: nat)
    ensures forall id :: HasId(DropEvents(es, d), id) <==> HasId(es, id)
    ensures UniqueIds(es) ==> UniqueIds(DropEvents(es, d))
    ensures StampedBefore(es, bound) ==> StampedBefore(DropEvents(es, d), bound)
  {
    forall i | 0 <= i < |es| ensures DropEvents(es, d)[i].id == es[i].id {
      DropAt(es, d, i);
    }
  }

  /** Dropping after a save treats the saved record like any other. */
  lemma {:induction false} DropAppend(es: seq<Event>, e: Event, d: DroppedEvent)
    ensures DropEvents(es + [e], d) == DropEvents(es, d) + [Moved(e, d)]
    decreases |es|
  {
    if es != [] {
      assert (es + [e])[1..] == es[1..] + [e];
      DropAppend(es[1..], e, d);
    }
  }

  // ---------------------------------------------------------------------------
  // The component state and its handlers

  class CalendarWithModal {
    var events: seq<Event>
    var isModalOpen: bool
    var modalPosition: ModalPosition
    var defaultDate: Option<string>

    /** The initial `useState` values. */
    constructor ()
      ensures events == [] && !isModalOpen && defaultDate == None
      ensures modalPosition == ModalPosition(0.0, 0.0)
    {
      events := [];
      isModalOpen := false;
      modalPosition := ModalPosition(0.0, 0.0);
      defaultDate := None;
    }

    /** `handleDateClick`: open the modal at `position` for the clicked date. */
    method HandleDateClick(dateStr: string, position: ModalPosition)
      modifies this
      ensures isModalOpen && defaultDate == Some(dateStr) && modalPosition == position
      ensures events == old(events)
    {
      modalPosition := position;
      defaultDate := Some(dateStr);
      isModalOpen := true;
    }

    /** `handleCancel`: close the modal and change nothing else. */
    method HandleCancel()
      modifies this
      ensures !isModalOpen
      ensures events == old(events) && defaultDate == old(defaultDate) && modalPosition == old(modalPosition)
    {
      isModalOpen := false;
    }

    /** `handleSave`: append the record built from `data` at time `now`, then close the modal. */
    method HandleSave(data: EventFormInputs, now: nat)
      modifies this
      ensures events == old(events) + [NewEvent(now, data)]
      ensures !isModalOpen
      ensures defaultDate == old(defaultDate) && modalPosition == old(modalPosition)
    {
      var newEvent := NewEvent(now, data);
      events := events + [newEvent];
      isModalOpen := false;
    }

    /** `handleEventDrop`: move every record with the dropped id; the modal is untouched. */
    method HandleEventDrop(dropped: DroppedEvent)
      modifies this
      ensures events == DropEvents(old(events), dropped)
      ensures isModalOpen == old(isModalOpen) && defaultDate == old(defaultDate)
      ensures modalPosition == old(modalPosition)
    {
      events := DropEvents(events, dropped);
    }
  }

  /**
   * A session as the page runs it: click a date, save the form, then drag the
   * new event. Everything follows from the handlers' contracts and the lemmas.
   */
  method Session(data: EventFormInputs, now: nat, dateStr: string, newStart: string, newEnd: string)
    returns (c: CalendarWithModal)
    ensures |c.events| == 1 && !c.isModalOpen && c.defaultDate == Some(dateStr)
    ensures c.events[0].id == NatToString(now) && c.events[0].title == data.title
    ensures c.events[0].start == newStart && c.events[0].end == newEnd
    ensures c.events[0].notes == data.notes
  {
    c := new CalendarWithModal();
    c.HandleDateClick(dateStr, ModalPosition(120.0, 80.0));
    c.HandleSave(data, now);
    c.HandleEventDrop(DroppedEvent(NatToString(now), newStart, newEnd));
    DropAppend([], NewEvent(now, data), DroppedEvent(NatToString(now), newStart, newEnd));
    assert [] + [NewEvent(now, data)] == [NewEvent(now, data)];
  }
}
