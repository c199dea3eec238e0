/**
 * The event record handed to copy callbacks, and the callback list that
 * every clipboard listener keeps.  Callbacks are opaque to the model: a
 * registered callback is known by its registration number, and calling it
 * is recorded as an `Invocation` in an append-only trace.
 */
module Events {

  /** A copy observed by a listener: the index letter, a timestamp and the text. */
  datatype CopyEvent = CopyEvent(index: string, savedTimeSecs: nat, content: string)

  /** `CopyEvent{}`: every member value-initialised. */
  function EmptyEvent(): (e: CopyEvent)
    ensures e.index == [] && e.content == [] && e.savedTimeSecs == 0
  {
    CopyEvent([], 0, [])
  }

  type CallbackId = nat

  /** One call of a registered callback with the event it received. */
  datatype Invocation = Invocation(callback: CallbackId, event: CopyEvent)

  /** The calls that result from handing `e` to every callback, in registration order. */
  function Broadcast(callbacks: seq<CallbackId>, e: CopyEvent): (r: seq<Invocation>)
    ensures |r| == |callbacks|
    ensures forall k :: 0 <= k < |r| ==> r[k] == Invocation(callbacks[k], e)
  {
    if callbacks == [] then []
    else Broadcast(callbacks[..|callbacks| - 1], e) + [Invocation(callbacks[|callbacks| - 1], e)]
  }

  /** Broadcasting to a list extended by one callback calls that callback last. */
  lemma BroadcastSnoc(callbacks: seq<CallbackId>, cb: CallbackId, e: CopyEvent)
    ensures Broadcast(callbacks + [cb], e) == Broadcast(callbacks, e) + [Invocation(cb, e)]
  {
    assert (callbacks + [cb])[..|callbacks|] == callbacks;
  }

  /**
   * The `m_CopyEventCallbacks` vector of a listener, together with the
   * record of every call made so far.
   */
  class CallbackList {
    var callbacks: seq<CallbackId>
    var trace: seq<Invocation>

    constructor ()
      ensures callbacks == [] && trace == []
    {
      callbacks := [];
      trace := [];
    }

    /** `AddCopyCallback`: registers one more callback at the end. */
    method Add(cb: CallbackId)
      modifies this
      ensures callbacks == old(callbacks) + [cb]
      ensures trace == old(trace)
    {
      callbacks := callbacks + [cb];
    }

    /** Calls every registered callback with the event, in registration order. */
    method Fire(e: CopyEvent)
      modifies this
      ensures callbacks == old(callbacks)
      ensures trace == old(trace) + Broadcast(callbacks, e)
    {
      var k := 0;
      while k < |callbacks|
        invariant 0 <= k <= |callbacks|
        invariant callbacks == old(callbacks)
        invariant trace == old(trace) + Broadcast(callbacks[..k], e)
      {
        BroadcastSnoc(callbacks[..k], callbacks[k], e);
        assert callbacks[..k + 1] == callbacks[..k] + [callbacks[k]];
        trace := trace + [Invocation(callbacks[k], e)];
        k := k + 1;
      }
      assert callbacks[..k] == callbacks;
    }
  }
}
