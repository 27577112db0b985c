/**
 * The development debug bus of the frontend: a module-level list of
 * listeners that `subscribe` appends to and its returned function takes
 * out again, and `pushDebug`, which hands an event to every listener from
 * a zero-delay timer.  Listeners are told apart by identity, modelled as
 * an `int`; the timers still to fire are a queue of events.
 */
module DevDebug {

  /** A debug event, as the screens push it: a kind and a payload text. */
  datatype Event = Event(kind: string, payload: string)

  /** One call of a listener during a delivery, and whether it threw. */
  datatype Call = Call(listener: int, evt: Event, threw: bool)

  /** `xs.indexOf(x)`: the first position of `x`, or -1. */
  function IndexOf(xs: seq<int>, x: int): (r: int)
    ensures -1 <= r < |xs|
    ensures r == -1 <==> x !in xs
    ensures 0 <= r ==> xs[r] == x && x !in xs[..r]
    decreases |xs|
  {
    if xs == [] then -1
    else if xs[0] == x then 0
    else
      var k := IndexOf(xs[1..], x);
      if k == -1 then -1
      else
        assert xs[..k + 1] == [xs[0]] + xs[1..][..k];
        k + 1
  }

  /** The listener list after the unsubscribe function of `x` runs:
      `splice(indexOf(x), 1)` when `x` is there, else the list unchanged. */
  function RemoveFirst(xs: seq<int>, x: int): seq<int> {
    var i := IndexOf(xs, x);
    if i >= 0 then xs[..i] + xs[i + 1..] else xs
  }

  /** Unsubscribing takes out exactly one copy of the listener, the first,
      and keeps the others in their order; it does nothing when the
      listener is not subscribed. */
  lemma RemoveFirstSpec(xs: seq<int>, x: int)
    ensures x !in xs ==> RemoveFirst(xs, x) == xs
    ensures x in xs ==> exists i :: 0 <= i < |xs| && xs[i] == x && x !in xs[..i]
                                    && RemoveFirst(xs, x) == xs[..i] + xs[i + 1..]
    ensures multiset(RemoveFirst(xs, x)) == multiset(xs) - multiset{x}
  {
    var i := IndexOf(xs, x);
    if i >= 0 {
      assert xs == xs[..i] + [x] + xs[i + 1..];
      assert multiset(xs) == multiset(xs[..i]) + multiset{x} + multiset(xs[i + 1..]);
    }
  }

  /** The unsubscribe function of a listener subscribed once leaves the
      list as it was before the subscribe, and calling it a second time
      changes nothing. */
  lemma UnsubscribeUndoesSubscribe(xs: seq<int>, x: int)
    requires x !in xs
    ensures RemoveFirst(xs + [x], x) == xs
    ensures RemoveFirst(RemoveFirst(xs + [x], x), x) == xs
  {
    assert forall j :: 0 <= j < |xs| ==> (xs + [x])[j] == xs[j] != x;
    assert IndexOf(xs + [x], x) == |xs|;
    assert (xs + [x])[..|xs|] == xs;
  }

  /** The calls one delivery makes: every listener in list order, each
      with the event, whether or not it throws. */
  function Calls(listeners: seq<int>, evt: Event, failing: set<int>): seq<Call>
    decreases |listeners|
  {
    if listeners == [] then []
    else Calls(listeners[..|listeners| - 1], evt, failing)
         + [Call(listeners[|listeners| - 1], evt, listeners[|listeners| - 1] in failing)]
  }

  /** Every listener is called once, in list order, with the event; a
      throwing listener does not keep the event from the ones after it:
      only the `threw` marks depend on which listeners throw. */
  lemma {:induction false} CallsReachEveryListener(listeners: seq<int>, evt: Event, failing: set<int>)
    ensures |Calls(listeners, evt, failing)| == |listeners|
    ensures forall i :: 0 <= i < |listeners| ==>
              Calls(listeners, evt, failing)[i] == Call(listeners[i], evt, listeners[i] in failing)
    decreases |listeners|
  {
    if listeners != [] {
      var init := listeners[..|listeners| - 1];
      CallsReachEveryListener(init, evt, failing);
      assert forall i :: 0 <= i < |init| ==> init[i] == listeners[i];
    }
  }

  class Bus {
    /** The `listeners` array, in subscription order. */
    var listeners: seq<int>
    /** The events whose timers have not fired yet, oldest first. */
    var pending: seq<Event>
    /** Every listener call made so far. */
    var calls: seq<Call>

    constructor ()
      ensures listeners == [] && pending == [] && calls == []
    {
      listeners := [];
      pending := [];
      calls := [];
    }

    /** subscribe: `listeners.push(fn)`. */
    method Subscribe(fn: int)
      modifies this
      ensures listeners == old(listeners) + [fn]
      ensures pending == old(pending) && calls == old(calls)
    {
      listeners := listeners + [fn];
    }

    /** The function subscribe returns, called: takes out the first copy
        of `fn`, if any. */
    method Unsubscribe(fn: int)
      modifies this
      ensures listeners == RemoveFirst(old(listeners), fn)
      ensures pending == old(pending) && calls == old(calls)
    {
      var i := IndexOf(listeners, fn);
      if i >= 0 {
        listeners := listeners[..i] + listeners[i + 1..];
      }
    }

    /** pushDebug: only schedules the delivery; no listener runs yet and
        the list is untouched. */
    method PushDebug(evt: Event)
      modifies this
      ensures pending == old(pending) + [evt]
      ensures listeners == old(listeners) && calls == old(calls)
    {
      pending := pending + [evt];
    }

    /** The oldest timer fires: its event goes to each listener subscribed
        at that moment, in order; a listener in `failing` throws, and the
        error is swallowed. */
    method Deliver(failing: set<int>)
      requires pending != []
      modifies this
      ensures pending == old(pending)[1..] && listeners == old(listeners)
      ensures calls == old(calls) + Calls(listeners, old(pending)[0], failing)
    {
      var evt := pending[0];
      pending := pending[1..];
      var i := 0;
      while i < |listeners|
        invariant 0 <= i <= |listeners|
        invariant calls == old(calls) + Calls(listeners[..i], evt, failing)
        invariant pending == old(pending)[1..] && listeners == old(listeners)
      {
        var fn := listeners[i];
        assert listeners[..i + 1][..i] == listeners[..i];
        calls := calls + [Call(fn, evt, fn in failing)];
        i := i + 1;
      }
      assert listeners[..i] == listeners;
    }
  }
}
