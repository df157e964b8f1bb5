/**
 * The event emitter of test/samples/emitter.js: a registry from event names
 * to ordered lists of callbacks. Callbacks are foreign code, so here they are
 * opaque identifiers, and `emit` returns the calls it makes, in order,
 * instead of making them.
 */
module Emitter {

  /** A registered callback, known only by its identity. */
  datatype Callback = Callback(id: nat)

  /** One call `callback(...args)` made by emit. */
  datatype Invocation = Invocation(callback: Callback, args: seq<int>)

  /**
   * The calls made by `callbacks.forEach(cb => cb(...args))`: one per entry
   * of the list, in list order, each with the same arguments.
   */
  function Dispatch(callbacks: seq<Callback>, args: seq<int>): (log: seq<Invocation>)
    ensures |log| == |callbacks|
    ensures forall i :: 0 <= i < |log| ==> log[i] == Invocation(callbacks[i], args)
  {
    if callbacks == [] then [] else [Invocation(callbacks[0], args)] + Dispatch(callbacks[1..], args)
  }

  /** A callback registered after the others is called after them. */
  lemma {:induction false} DispatchAppend(callbacks: seq<Callback>, callback: Callback, args: seq<int>)
    ensures Dispatch(callbacks + [callback], args) == Dispatch(callbacks, args) + [Invocation(callback, args)]
  {
    if callbacks != [] {
      assert (callbacks + [callback])[1..] == callbacks[1..] + [callback];
      DispatchAppend(callbacks[1..], callback, args);
    }
  }

  class EventEmitter {
    /** `this.events`: the callbacks registered for each event, in registration order. */
    var events: map<string, seq<Callback>>

    /** A new emitter has no events registered. */
    constructor ()
      ensures events == map[]
    {
      events := map[];
    }

    /** `this.events[event] || []`: the callbacks for `event`, none if it was never registered. */
    function Listeners(event: string): seq<Callback>
      reads this
    {
      if event in events then events[event] else []
    }

    /**
     * `on(event, callback)`: creates the list for `event` if it is absent,
     * appends `callback` to it (a callback registered twice is stored twice),
     * leaves every other event alone, and returns the emitter itself.
     */
    method On(event: string, callback: Callback) returns (self: EventEmitter)
      modifies this
      ensures self == this
      ensures events == old(events)[event := old(Listeners(event)) + [callback]]
      ensures Listeners(event) == old(Listeners(event)) + [callback]
      ensures forall e :: e != event ==> Listeners(e) == old(Listeners(e))
    {
      if event !in events {
        events := events[event := []];
      }
      events := events[event := events[event] + [callback]];
      self := this;
    }

    /**
     * `emit(event, ...args)`: calls every callback registered for `event`
     * exactly once, in registration order, each with `args`; nothing when none
     * is registered. It changes nothing in the registry.
     */
    method Emit(event: string, args: seq<int>) returns (log: seq<Invocation>)
      ensures |log| == |Listeners(event)|
      ensures forall i :: 0 <= i < |log| ==> log[i] == Invocation(Listeners(event)[i], args)
      ensures event !in events ==> log == []
      ensures log == Dispatch(Listeners(event), args)
    {
      var callbacks := Listeners(event);
      log := [];
      var i := 0;
      while i < |callbacks|
        invariant 0 <= i <= |callbacks|
        invariant |log| == i
        invariant forall k :: 0 <= k < i ==> log[k] == Invocation(callbacks[k], args)
      {
        log := log + [Invocation(callbacks[i], args)];
        i := i + 1;
      }
    }
  }

  /** Emitting on an emitter that has just been made calls nothing. */
  method EmitOnNewEmitter(event: string, args: seq<int>) returns (log: seq<Invocation>)
    ensures log == []
  {
    var emitter := new EventEmitter();
    log := emitter.Emit(event, args);
  }

  /**
   * Chained registration: `on` returns the emitter, so a second `on` on its
   * result registers on the same emitter, after the first callback, even
   * when the two callbacks are the same.
   */
  method Chaining(event: string, first: Callback, second: Callback, args: seq<int>)
    returns (log: seq<Invocation>)
    ensures log == [Invocation(first, args), Invocation(second, args)]
  {
    var emitter := new EventEmitter();
    var same := emitter.On(event, first);
    same := same.On(event, second);
    log := emitter.Emit(event, args);
  }

  /** Registering on one event changes nothing that emit does for another. */
  method OtherEventUnaffected(emitter: EventEmitter, event: string, other: string, callback: Callback, args: seq<int>)
    returns (before: seq<Invocation>, after: seq<Invocation>)
    requires event != other
    modifies emitter
    ensures before == after
  {
    before := emitter.Emit(other, args);
    var _ := emitter.On(event, callback);
    after := emitter.Emit(other, args);
  }

  /** Emitting after `on` makes the earlier calls and then one to the new callback. */
  method EmitAfterOn(emitter: EventEmitter, event: string, callback: Callback, args: seq<int>)
    returns (before: seq<Invocation>, after: seq<Invocation>)
    modifies emitter
    ensures after == before + [Invocation(callback, args)]
  {
    before := emitter.Emit(event, args);
    var _ := emitter.On(event, callback);
    after := emitter.Emit(event, args);
  }

  /** The script at the end of the JavaScript file: one callback on "data", emitted with 42. */
  method Sample(logger: Callback) returns (log: seq<Invocation>)
    ensures log == [Invocation(logger, [42])]
  {
    var emitter := new EventEmitter();
    var _ := emitter.On("data", logger);
    log := emitter.Emit("data", [42]);
  }
}
