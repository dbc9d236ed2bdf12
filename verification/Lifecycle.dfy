/** Reservation and event admission of one camera slot (service/LifecycleSlot.java). Connections
    are compared as unsigned numbers, so they are naturals here. */
module Lifecycle {
  import opened Wrappers

  datatype SlotState<T> = SlotState(owner: Option<T>, closing: bool, connection: nat, event: nat,
                                    configuration: int, configurationClosed: bool)

  function NewSlot<T>(): SlotState<T> {
    SlotState(None, false, 0, 0, 0, false)
  }

  function CurrentOwner<T>(s: SlotState<T>): Option<T> {
    if s.closing then None else s.owner
  }

  predicate Owning<T(==)>(s: SlotState<T>, owner: T) {
    s.owner == Some(owner) && !s.closing
  }

  function Reserved<T>(s: SlotState<T>, owner: T): SlotState<T> {
    if s.owner.Some? then s else s.(owner := Some(owner))
  }

  function ClosingBegun<T(==)>(s: SlotState<T>, owner: T): SlotState<T> {
    if !Owning(s, owner) then s else s.(closing := true, configurationClosed := true, event := s.event + 1)
  }

  function EventTaken<T(==)>(s: SlotState<T>, owner: T, connection: nat): SlotState<T> {
    if !Owning(s, owner) || connection == 0 || connection < s.connection then s
    else s.(connection := connection, event := s.event + 1)
  }

  predicate AcceptsConfiguration<T(==)>(s: SlotState<T>, owner: T, connection: nat, token: int, closed: bool) {
    Owning(s, owner) && connection != 0 && token > 0 && connection >= s.connection &&
    (connection != s.connection || token > s.configuration || (token == s.configuration && closed && !s.configurationClosed))
  }

  function ConfigurationTaken<T(==)>(s: SlotState<T>, owner: T, connection: nat, token: int, closed: bool): SlotState<T> {
    if !AcceptsConfiguration(s, owner, connection, token, closed) then s
    else s.(connection := connection, configuration := token, configurationClosed := closed, event := s.event + 1)
  }

  predicate EventCurrent<T(==)>(s: SlotState<T>, owner: T, event: nat) {
    Owning(s, owner) && event != 0 && s.event == event
  }

  function CloseFinished<T(==)>(s: SlotState<T>, owner: T): SlotState<T> {
    if s.owner != Some(owner) || !s.closing then s else s.(owner := None, closing := false)
  }

  class LifecycleSlot<T(==)> {
    var owner: Option<T>
    var closing: bool
    var connection: nat
    var event: nat
    var configuration: int
    var configurationClosed: bool

    function View(): SlotState<T>
      reads this
    {
      SlotState(owner, closing, connection, event, configuration, configurationClosed)
    }

    constructor ()
      ensures View() == NewSlot()
    {
      owner, closing, connection, event := None, false, 0, 0;
      configuration, configurationClosed := 0, false;
    }

    method Reserve(newOwner: T) returns (ok: bool)
      modifies this
      ensures ok <==> old(View()).owner.None?
      ensures View() == Reserved(old(View()), newOwner)
    {
      if owner.Some? {
        return false;
      }
      owner := Some(newOwner);
      return true;
    }

    method Current() returns (r: Option<T>)
      ensures r == CurrentOwner(View())
    {
      r := if closing then None else owner;
    }

    method Owns(candidate: T) returns (r: bool)
      ensures r == Owning(View(), candidate)
    {
      r := owner == Some(candidate) && !closing;
    }

    method BeginClose(candidate: T) returns (ok: bool)
      modifies this
      ensures ok <==> Owning(old(View()), candidate)
      ensures View() == ClosingBegun(old(View()), candidate)
    {
      ok := Owns(candidate);
      if !ok {
        return;
      }
      closing := true;
      configurationClosed := true;
      event := event + 1;
    }

    method NextEvent(candidate: T, newConnection: nat) returns (number: nat)
      modifies this
      ensures View() == EventTaken(old(View()), candidate, newConnection)
      ensures number == if View() == old(View()) then 0 else View().event
    {
      var owned := Owns(candidate);
      if !owned || newConnection == 0 || newConnection < connection {
        return 0;
      }
      connection := newConnection;
      event := event + 1;
      return event;
    }

    method IsCurrentEvent(candidate: T, number: nat) returns (r: bool)
      ensures r == EventCurrent(View(), candidate, number)
    {
      r := Owns(candidate);
      r := r && number != 0 && event == number;
    }

    method NextConfigurationEvent(candidate: T, newConnection: nat, token: int, closed: bool) returns (number: nat)
      modifies this
      ensures View() == ConfigurationTaken(old(View()), candidate, newConnection, token, closed)
      ensures number != 0 <==> AcceptsConfiguration(old(View()), candidate, newConnection, token, closed)
      ensures number != 0 ==> number == View().event
    {
      var owned := Owns(candidate);
      if !owned || newConnection == 0 || token <= 0 || newConnection < connection {
        return 0;
      }
      var known, knownClosed := configuration, configurationClosed;
      if newConnection != connection {
        known, knownClosed := 0, false;
      }
      if token < known || (token == known && (!closed || knownClosed)) {
        configuration, configurationClosed := known, knownClosed;
        return 0;
      }
      connection := newConnection;
      configuration := token;
      configurationClosed := closed;
      event := event + 1;
      return event;
    }

    method FinishClose(candidate: T) returns (ok: bool)
      modifies this
      ensures ok <==> old(View()).owner == Some(candidate) && old(View()).closing
      ensures View() == CloseFinished(old(View()), candidate)
    {
      if owner != Some(candidate) || !closing {
        return false;
      }
      owner := None;
      closing := false;
      return true;
    }
  }

  // ---------------------------------------------------------------- admission order

  /** A lifecycle event as it is named by the HAL. */
  datatype Event = Event(connection: nat, token: int, closed: bool)

  /** Later in a later connection, for a later token, or the close after the open of a token. */
  predicate Later(a: Event, b: Event) {
    || a.connection < b.connection
    || (a.connection == b.connection && (a.token < b.token || (a.token == b.token && !a.closed && b.closed)))
  }

  function Last<T>(s: SlotState<T>): Event {
    Event(s.connection, s.configuration, s.configurationClosed)
  }

  datatype Op<T> =
    | Reserve(owner: T)
    | BeginClose(owner: T)
    | NextEvent(owner: T, connection: nat)
    | Configuration(owner: T, event: Event)
    | FinishClose(owner: T)

  function Applied<T(==)>(s: SlotState<T>, op: Op<T>): SlotState<T> {
    match op
    case Reserve(owner) => Reserved(s, owner)
    case BeginClose(owner) => ClosingBegun(s, owner)
    case NextEvent(owner, connection) => EventTaken(s, owner, connection)
    case Configuration(owner, e) => ConfigurationTaken(s, owner, e.connection, e.token, e.closed)
    case FinishClose(owner) => CloseFinished(s, owner)
  }

  /** The events a slot accepts from callers that come in any order, with any owner changes. */
  function AcceptedEvents<T(==)>(s: SlotState<T>, ops: seq<Op<T>>): seq<Event>
    decreases |ops|
  {
    if ops == [] then []
    else
      var rest := AcceptedEvents(Applied(s, ops[0]), ops[1..]);
      if ops[0].Configuration? &&
         AcceptsConfiguration(s, ops[0].owner, ops[0].event.connection, ops[0].event.token, ops[0].event.closed)
      then [ops[0].event] + rest else rest
  }

  predicate NotLater(a: Event, b: Event) {
    a == b || Later(a, b)
  }

  /** Accepted events are strictly increasing and later than anything accepted before. */
  lemma {:induction false} AcceptedEventsIncrease<T>(s: SlotState<T>, ops: seq<Op<T>>)
    ensures forall e :: e in AcceptedEvents(s, ops) ==> Later(Last(s), e)
    ensures forall i, j :: 0 <= i < j < |AcceptedEvents(s, ops)| ==> Later(AcceptedEvents(s, ops)[i], AcceptedEvents(s, ops)[j])
    decreases |ops|
  {
    if ops != [] {
      var s' := Applied(s, ops[0]);
      AcceptedEventsIncrease(s', ops[1..]);
      assert NotLater(Last(s), Last(s'));
    }
  }

  /** Each token of a connection opens at most once, closes at most once and never reopens. */
  lemma TokensOpenAndCloseOnce<T>(s: SlotState<T>, ops: seq<Op<T>>, i: nat, j: nat)
    requires i < j < |AcceptedEvents(s, ops)|
    ensures var a, b := AcceptedEvents(s, ops)[i], AcceptedEvents(s, ops)[j];
            a.connection == b.connection && a.token == b.token ==> !a.closed && b.closed
  {
    AcceptedEventsIncrease(s, ops);
  }

  /** A configuration event is accepted exactly if it is for the current owner, on a connection,
      for a real token, and later than the last one accepted; its number is then the current one. */
  lemma AcceptsExactlyLater<T>(s: SlotState<T>, owner: T, e: Event)
    ensures AcceptsConfiguration(s, owner, e.connection, e.token, e.closed) <==>
              CurrentOwner(s) == Some(owner) && e.connection != 0 && e.token > 0 && Later(Last(s), e)
    ensures var s' := ConfigurationTaken(s, owner, e.connection, e.token, e.closed);
            if AcceptsConfiguration(s, owner, e.connection, e.token, e.closed)
            then Last(s') == e && s'.event == s.event + 1 && CurrentOwner(s') == Some(owner) && EventCurrent(s', owner, s'.event)
            else s' == s
  {
  }

  /** Only the newest event of the current owner is current, and no event is once it closes. */
  lemma OnlyNewestIsCurrent<T>(s: SlotState<T>, owner: T, other: T, number: nat)
    ensures EventCurrent(s, owner, number) ==> number == s.event && CurrentOwner(s) == Some(owner)
    ensures CurrentOwner(s) == Some(owner) && s.event != 0 ==> EventCurrent(s, owner, s.event)
    ensures !EventCurrent(ClosingBegun(s, owner), owner, number)
    ensures CurrentOwner(s) == Some(owner) && number <= s.event ==> !EventCurrent(ClosingBegun(s, owner), other, number)
  {
  }

  /** A slot is taken by who reserves it first, kept through its close, and free again after. */
  lemma SlotChangesHands<T>(s: SlotState<T>, owner: T, other: T)
    requires s.owner.None? && !s.closing
    ensures var taken := Reserved(s, owner);
            var closing := ClosingBegun(taken, owner);
            var freed := CloseFinished(closing, owner);
            && CurrentOwner(taken) == Some(owner) && Reserved(taken, other) == taken && CloseFinished(taken, owner) == taken
            && CurrentOwner(closing) == None && Reserved(closing, other) == closing && ClosingBegun(closing, owner) == closing
            && freed.owner.None? && CurrentOwner(Reserved(freed, other)) == Some(other)
            && (other != owner ==> ClosingBegun(taken, other) == taken && CloseFinished(closing, other) == closing)
  {
  }

  /** The plain event numbers, too, go on with every call of the owner on a connection not older. */
  lemma EventsAreNumbered<T>(s: SlotState<T>, owner: T, connection: nat)
    ensures var s' := EventTaken(s, owner, connection);
            if CurrentOwner(s) == Some(owner) && connection != 0 && connection >= s.connection
            then s'.event == s.event + 1 && s'.connection == connection && EventCurrent(s', owner, s'.event)
            else s' == s
  {
  }

  function After<T(==)>(s: SlotState<T>, ops: seq<Op<T>>): SlotState<T>
    decreases |ops|
  {
    if ops == [] then s else After(Applied(s, ops[0]), ops[1..])
  }

  lemma {:induction false} EventsPass<T>(s: SlotState<T>, ops: seq<Op<T>>, owner: T, number: nat)
    requires s.event > number || EventCurrent(s, owner, number)
    ensures After(s, ops).event > number || EventCurrent(After(s, ops), owner, number)
    ensures After(s, ops).event >= s.event
    decreases |ops|
  {
    if ops != [] {
      EventsPass(Applied(s, ops[0]), ops[1..], owner, number);
    }
  }

  lemma {:induction false} AfterConcat<T>(s: SlotState<T>, a: seq<Op<T>>, b: seq<Op<T>>)
    ensures After(s, a + b) == After(After(s, a), b)
    decreases |a|
  {
    if a == [] {
      assert a + b == b;
    } else {
      assert (a + b)[1..] == a[1..] + b;
      AfterConcat(Applied(s, a[0]), a[1..], b);
    }
  }

  /** A queued task whose event has gone stale never becomes current again. */
  lemma StaleStaysStale<T>(s: SlotState<T>, before: seq<Op<T>>, later: seq<Op<T>>, owner: T, number: nat)
    requires EventCurrent(s, owner, number) && !EventCurrent(After(s, before), owner, number)
    ensures !EventCurrent(After(s, before + later), owner, number)
  {
    EventsPass(s, before, owner, number);
    AfterConcat(s, before, later);
    EventsPass(After(s, before), later, owner, number);
  }
}
