/**
  The listener store: an insertion-ordered set of listener references that
  is changed in place, with the `once` registration that stores a
  self-removing wrapper, the ordered snapshot, and the two ways a dispatch
  round walks the store (live for `emit`, over a snapshot for `emitAsync`).
 */
module ListenersSet {
  import opened Listeners

  class ListenersSetAdapter {
    /** The members, in insertion order. */
    var entries: seq<Listener>
    /** The number the next wrapper created by `once` gets; no stored
        wrapper has a number this large, so the new wrapper is a fresh
        reference. */
    var nextWrapper: nat

    ghost predicate Valid()
      reads this
    {
      Distinct(entries) && WrappersBelow(entries, nextWrapper)
    }

    /** The adapter is built from the initial listeners, each added in turn. */
    constructor (listeners: seq<ListenerId>)
      ensures Valid()
      ensures entries == InsertAll([], listeners) && nextWrapper == 0
    {
      entries := [];
      nextWrapper := 0;
      new;
      var i := 0;
      while i < |listeners|
        invariant 0 <= i <= |listeners|
        invariant Valid() && nextWrapper == 0
        invariant entries == InsertAll([], listeners[..i])
      {
        assert listeners[..i + 1][..i] == listeners[..i];
        Add(listeners[i]);
        i := i + 1;
      }
      assert listeners[..i] == listeners;
    }

    /** `add`: appends the listener unless it is already a member. */
    method Add(listener: ListenerId)
      requires Valid()
      modifies this
      ensures Valid()
      ensures entries == Insert(old(entries), Plain(listener))
      ensures nextWrapper == old(nextWrapper)
    {
      if Plain(listener) !in entries {
        entries := entries + [Plain(listener)];
      }
    }

    /** `delete`: removes the reference, a no-op when it is absent. */
    method Delete(listener: Listener)
      requires Valid()
      modifies this
      ensures Valid()
      ensures entries == Remove(old(entries), listener)
      ensures nextWrapper == old(nextWrapper)
    {
      entries := Remove(entries, listener);
    }

    /** `has`: reference-identity membership. */
    method Has(listener: Listener) returns (present: bool)
      ensures present <==> listener in entries
    {
      present := listener in entries;
    }

    /** `clear`: removes every member. */
    method Clear()
      requires Valid()
      modifies this
      ensures Valid()
      ensures entries == [] && nextWrapper == old(nextWrapper)
    {
      entries := [];
    }

    /** `size`. */
    method Size() returns (n: nat)
      ensures n == |entries|
    {
      n := |entries|;
    }

    /** `snapshot`: an ordered copy of the members. The copy is a value, so
        later `add`/`delete` calls on the store do not reach it. */
    method Snapshot() returns (copy: seq<Listener>)
      requires Valid()
      ensures copy == entries && Distinct(copy)
    {
      copy := entries;
    }

    /** `once(l1, ..., ln)`: left to right, fails on the first listener whose
        own reference is a member, and otherwise stores a fresh wrapper for
        it. Wrappers stored before the failure stay. */
    method Once(listeners: seq<ListenerId>) returns (r: Result<ListenersSetAdapter>)
      requires Valid()
      modifies this
      ensures Valid()
      ensures var k := FirstPresent(old(entries), listeners);
              && entries == old(entries) + Wrappers(old(nextWrapper), listeners[..k])
              && nextWrapper == old(nextWrapper) + k
              && r == if k < |listeners| then Failure(DuplicateListener(listeners[k])) else Success(this)
    {
      ghost var start, first := entries, nextWrapper;
      var i := 0;
      while i < |listeners|
        invariant 0 <= i <= |listeners|
        invariant i <= FirstPresent(start, listeners)
        invariant entries == start + Wrappers(first, listeners[..i])
        invariant nextWrapper == first + i
        invariant Valid()
      {
        OnceAppendsFresh(start, first, listeners[..i]);
        var present := Has(Plain(listeners[i]));
        if present {
          return Failure(DuplicateListener(listeners[i]));
        }
        assert Plain(listeners[i]) !in start;
        assert FirstPresent(start, listeners) != i;
        var wrapper := OnceWrapper(nextWrapper, listeners[i]);
        assert wrapper !in entries;
        entries := Insert(entries, wrapper);
        nextWrapper := nextWrapper + 1;
        assert Wrappers(first, listeners[..i + 1]) == Wrappers(first, listeners[..i]) + [wrapper];
        i := i + 1;
      }
      OnceAppendsFresh(start, first, listeners[..i]);
      r := Success(this);
    }

    /** Calling a stored reference: a once-wrapper first deletes itself from
        this store (a no-op if it is gone already) and then forwards the
        arguments to its target; a plain listener is called directly. */
    method Invoke(listener: Listener, args: seq<Arg>) returns (call: Call)
      requires Valid()
      modifies this
      ensures Valid() && nextWrapper == old(nextWrapper)
      ensures call == Call(listener.Target(), args)
      ensures entries == if listener.OnceWrapper? then Remove(old(entries), listener) else old(entries)
    {
      if listener.OnceWrapper? {
        Delete(listener);
      }
      call := Call(listener.Target(), args);
    }

    /** `forEach(listener => listener(...args))` over the live store, as
        `emit` does it: the cursor walks the current members in insertion
        order, and a wrapper that deletes itself shifts the rest one place
        back under the cursor. Every member present at the start is called
        once, in order; afterwards only the plain listeners remain. */
    method Dispatch(args: seq<Arg>) returns (trace: seq<Call>)
      requires Valid()
      modifies this
      ensures Valid() && nextWrapper == old(nextWrapper)
      ensures trace == Calls(old(entries), args)
      ensures entries == Survivors(old(entries))
    {
      ghost var start := entries;
      ghost var visited := 0;
      trace := [];
      var i := 0;
      while i < |entries|
        invariant 0 <= visited <= |start|
        invariant Valid() && nextWrapper == old(nextWrapper)
        invariant entries == Survivors(start[..visited]) + start[visited..]
        invariant i == |Survivors(start[..visited])|
        invariant trace == Calls(start[..visited], args)
        decreases |entries| - i
      {
        LiveStep(start, visited);
        ghost var done := Survivors(start[..visited + 1]);
        var listener := entries[i];
        CallsSnoc(start[..visited], listener, args);
        var call := Invoke(listener, args);
        trace := trace + [call];
        if listener.Plain? {
          i := i + 1;
        }
        visited := visited + 1;
        assert entries == Survivors(start[..visited]) + start[visited..] && i == |done|;
        assert trace == Calls(start[..visited], args);
      }
      assert start[..visited] == start;
    }

    /** The calls of `emitAsync` after the snapshot was taken: every
        reference of `round` is called, in snapshot order, whatever the store
        holds by now; each wrapper of the round deletes itself from the store
        if it is still there. */
    method DispatchRound(round: seq<Listener>, args: seq<Arg>) returns (trace: seq<Call>)
      requires Valid()
      modifies this
      ensures Valid() && nextWrapper == old(nextWrapper)
      ensures trace == Calls(round, args)
      ensures entries == Discard(old(entries), round)
    {
      ghost var start := entries;
      DiscardNothing(start);
      trace := [];
      var k := 0;
      while k < |round|
        invariant 0 <= k <= |round|
        invariant Valid() && nextWrapper == old(nextWrapper)
        invariant entries == Discard(start, round[..k])
        invariant trace == Calls(round[..k], args)
      {
        assert round[..k + 1] == round[..k] + [round[k]];
        DiscardStep(start, round[..k], round[k]);
        CallsSnoc(round[..k], round[k], args);
        var call := Invoke(round[k], args);
        trace := trace + [call];
        k := k + 1;
      }
      assert round[..k] == round;
    }
  }
}
