/**
  The ready-callback broadcaster of Utility: the static flag `ready` and the
  multicast delegate `onReady`. Callbacks are foreign code, so each one is an
  opaque identity, and a ghost `trace` records the invocations in order.
*/
module ReadyCallbacks {

  /**
    An Action delegate with a single target. Delegate.Remove matches entries with
    Delegate.Equals (the same target and the same method), so a CallbackId stands
    for one such equality class: two delegates made separately from one method
    group share an id.
  */
  datatype CallbackId = CallbackId(id: nat)

  /** The index of the last `x` in `s`, or -1 when there is none. */
  function LastIndexOf(s: seq<CallbackId>, x: CallbackId): (i: int)
    ensures -1 <= i < |s|
    ensures i == -1 <==> x !in s
    ensures 0 <= i ==> s[i] == x && forall j :: i < j < |s| ==> s[j] != x
  {
    if s == [] then -1
    else if s[|s| - 1] == x then |s| - 1
    else LastIndexOf(s[..|s| - 1], x)
  }

  /**
    Delegate.Remove (the `-=` operator) for a single-target delegate: the last
    occurrence of `x` leaves the invocation list, which is otherwise unchanged.
  */
  function RemoveLast(s: seq<CallbackId>, x: CallbackId): (r: seq<CallbackId>)
    ensures x !in s ==> r == s
    ensures x in s ==> var i := LastIndexOf(s, x); r == s[..i] + s[i + 1..]
  {
    if s == [] then []
    else if s[|s| - 1] == x then s[..|s| - 1]
    else RemoveLast(s[..|s| - 1], x) + [s[|s| - 1]]
  }

  /** Removing a callback takes away one copy of it and keeps every other entry. */
  lemma RemoveLastMultiset(s: seq<CallbackId>, x: CallbackId)
    ensures multiset(RemoveLast(s, x)) == multiset(s) - multiset{x}
  {
    if x in s {
      var i := LastIndexOf(s, x);
      assert s == s[..i] + [s[i]] + s[i + 1..];
    } else {
      assert multiset(s)[x] == 0;
    }
  }

  /** Unregistering the callback that was registered last restores the list: `-=` undoes `+=`. */
  lemma RemoveLastUndoesAppend(s: seq<CallbackId>, x: CallbackId)
    ensures RemoveLast(s + [x], x) == s
  {
  }

  /**
    Removal keeps the relative order of the callbacks that stay: entries before
    the removed one keep their index, entries after it move down by one.
  */
  lemma RemoveLastKeepsOrder(s: seq<CallbackId>, x: CallbackId, k: nat)
    requires x in s && k < |s| - 1
    ensures var i := LastIndexOf(s, x);
      RemoveLast(s, x)[k] == if k < i then s[k] else s[k + 1]
  {
  }

  class ReadyBroadcaster {
    /** Set by Run; nothing resets it. */
    var ready: bool
    /** The invocation list of `onReady`, in registration order; null is the empty list. */
    var onReady: seq<CallbackId>
    /** Every callback invocation so far, in order. */
    ghost var trace: seq<CallbackId>

    /** The type initialiser's state: not ready, no callbacks, nothing invoked. */
    constructor ()
      ensures !ready && onReady == [] && trace == []
    {
      ready := false;
      onReady := [];
      trace := [];
    }

    /** Invoking a callback: its body is foreign code, so only the call is recorded. */
    method Invoke(callback: CallbackId)
      modifies this`trace
      ensures trace == old(trace) + [callback]
    {
      trace := trace + [callback];
    }

    /**
      Utility.RegisterReadyCallback: before Run the callback is queued and nothing
      is invoked; after Run it is invoked at once, exactly once, and not queued.
    */
    method RegisterReadyCallback(callback: CallbackId)
      modifies this
      ensures ready == old(ready)
      ensures !ready ==> onReady == old(onReady) + [callback] && trace == old(trace)
      ensures ready ==> onReady == old(onReady) && trace == old(trace) + [callback]
    {
      if !ready {
        onReady := onReady + [callback];
      } else {
        Invoke(callback);
      }
    }

    /**
      Utility.UnregisterReadyCallback: removes the last registration of the
      callback, if any; `ready` and the invocations so far do not change.
    */
    method UnregisterReadyCallback(callback: CallbackId)
      modifies this
      ensures onReady == RemoveLast(old(onReady), callback)
      ensures ready == old(ready) && trace == old(trace)
    {
      onReady := RemoveLast(onReady, callback);
    }

    /**
      SafeInvoke on the multicast delegate: each entry of the invocation list is
      invoked once, in order; an empty (null) list invokes nothing.
    */
    method SafeInvoke()
      modifies this`trace
      ensures trace == old(trace) + onReady
    {
      var i := 0;
      while i < |onReady|
        invariant i <= |onReady|
        invariant trace == old(trace) + onReady[..i]
      {
        Invoke(onReady[i]);
        i := i + 1;
      }
      assert onReady[..i] == onReady;
    }

    /**
      Utility.Run: the broadcaster becomes ready for good and invokes the queued
      callbacks in registration order. The queue is kept, so a second Run
      invokes the same callbacks again.
    */
    method Run()
      modifies this
      ensures ready
      ensures onReady == old(onReady)
      ensures trace == old(trace) + old(onReady)
    {
      ready := true;
      SafeInvoke();
    }
  }

  /**
    A lifecycle: callbacks registered before Run are invoked by it in order, one
    registered afterwards is invoked immediately, an unregistered one never.
  */
  method Lifecycle(a: CallbackId, b: CallbackId, c: CallbackId)
    requires a != b
  {
    var u := new ReadyBroadcaster();
    u.RegisterReadyCallback(a);
    u.RegisterReadyCallback(b);
    u.RegisterReadyCallback(a);
    u.UnregisterReadyCallback(a);
    assert u.onReady == [a, b];
    assert u.trace == [];
    u.Run();
    assert u.trace == [a, b];
    u.RegisterReadyCallback(c);
    assert u.trace == [a, b, c] && u.onReady == [a, b];
    u.Run();
    assert u.trace == [a, b, c, a, b];
  }
}
