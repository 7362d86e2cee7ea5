/**
  The single-channel emitter: one listener store and one pause flag.
 */
module EventEmitter {
  import opened Listeners
  import opened ListenersSet

  /** The optional initial listeners: none, one listener, or an array. */
  datatype InitialListeners = NoListeners | Single(listener: ListenerId) | Many(listeners: seq<ListenerId>)
  {
    /** The listeners the constructor adds, in order. */
    function AsList(): (ls: seq<ListenerId>)
      ensures this.NoListeners? ==> ls == []
      ensures this.Single? ==> ls == [listener]
    {
      match this
      case NoListeners => []
      case Single(l) => [l]
      case Many(ls) => ls
    }
  }

  class EventEmitterBase {
    /** `#listeners`: the store, created once by the constructor. */
    const store: ListenersSetAdapter
    /** `#paused`. */
    var paused: bool

    ghost predicate Valid()
      reads this, store
    {
      store.Valid()
    }

    /** Seeds the store from nothing, one listener or an array of them
        (duplicates collapsed, order kept); the emitter starts unpaused. */
    constructor (initial: InitialListeners)
      ensures Valid() && fresh(store)
      ensures store.entries == InsertAll([], initial.AsList())
      ensures !paused
    {
      store := new ListenersSetAdapter(initial.AsList());
      paused := false;
    }

    /** `clear()`: the store becomes empty; the pause flag is not touched. */
    method Clear()
      requires Valid()
      modifies store
      ensures Valid()
      ensures store.entries == [] && paused == old(paused)
      ensures store.nextWrapper == old(store.nextWrapper)
    {
      store.Clear();
    }

    /** `count()`: the size of the store. */
    method Count() returns (n: nat)
      ensures n == |store.entries|
    {
      n := store.Size();
    }

    /** `emit(...args)`: nothing while paused; otherwise every member is
        called once, in insertion order, with `args`, and the fired
        once-wrappers are gone afterwards. */
    method Emit(args: seq<Arg>) returns (trace: seq<Call>)
      requires Valid()
      modifies store
      ensures Valid() && paused == old(paused) && store.nextWrapper == old(store.nextWrapper)
      ensures paused ==> trace == [] && store.entries == old(store.entries)
      ensures !paused ==> trace == Calls(old(store.entries), args) && store.entries == Survivors(old(store.entries))
    {
      var isPaused := IsPaused();
      if isPaused {
        trace := [];
      } else {
        trace := store.Dispatch(args);
      }
    }

    /** `isPaused()`. */
    method IsPaused() returns (b: bool)
      ensures b == paused
    {
      b := paused;
    }

    /** `listeners()`: the live store itself, not a copy. */
    method Listeners() returns (s: ListenersSetAdapter)
      ensures s == store
    {
      s := store;
    }

    /** `emitAsync(...args)`: nothing while paused; otherwise exactly the
        members of the snapshot taken at the call are called, in snapshot
        order. With no other code running in between, the store ends as
        after `emit`. */
    method EmitAsync(args: seq<Arg>) returns (trace: seq<Call>)
      requires Valid()
      modifies store
      ensures Valid() && paused == old(paused) && store.nextWrapper == old(store.nextWrapper)
      ensures paused ==> trace == [] && store.entries == old(store.entries)
      ensures !paused ==> trace == Calls(old(store.entries), args) && store.entries == Survivors(old(store.entries))
    {
      var listeners := Listeners();
      var isPaused := IsPaused();
      if isPaused {
        return [];
      }
      var snapshot := listeners.Snapshot();
      trace := listeners.DispatchRound(snapshot, args);
      DiscardCovering(snapshot, snapshot);
    }

    /** `on(listener)`: adds the listener if absent. */
    method On(listener: ListenerId)
      requires Valid()
      modifies store
      ensures Valid() && paused == old(paused)
      ensures store.entries == Insert(old(store.entries), Plain(listener))
      ensures store.nextWrapper == old(store.nextWrapper)
    {
      store.Add(listener);
    }

    /** `once(listener)`: stores a fresh self-removing wrapper, or fails when
        the listener itself is already a member. */
    method Once(listener: ListenerId) returns (r: Result<EventEmitterBase>)
      requires Valid()
      modifies store
      ensures Valid() && paused == old(paused)
      ensures Plain(listener) in old(store.entries) ==>
                && r == Failure(DuplicateListener(listener))
                && store.entries == old(store.entries) && store.nextWrapper == old(store.nextWrapper)
      ensures Plain(listener) !in old(store.entries) ==>
                && r == Success(this)
                && store.entries == old(store.entries) + [OnceWrapper(old(store.nextWrapper), listener)]
                && store.nextWrapper == old(store.nextWrapper) + 1
    {
      var added := store.Once([listener]);
      assert [listener][..1] == [listener];
      if added.Failure? {
        r := Failure(added.error);
      } else {
        r := Success(this);
      }
    }

    /** `off(listener)`: removes the caller's listener itself, a no-op when
        it is absent (a wrapper `once` stored for it stays). */
    method Off(listener: ListenerId)
      requires Valid()
      modifies store
      ensures Valid() && paused == old(paused)
      ensures store.entries == Remove(old(store.entries), Plain(listener))
      ensures store.nextWrapper == old(store.nextWrapper)
    {
      store.Delete(Plain(listener));
    }

    /** `pause()`: the listeners are not touched. */
    method Pause()
      requires Valid()
      modifies this
      ensures Valid() && paused
      ensures store.entries == old(store.entries)
    {
      paused := true;
    }

    /** `resume()`: the listeners are not touched. */
    method Resume()
      requires Valid()
      modifies this
      ensures Valid() && !paused
      ensures store.entries == old(store.entries)
    {
      paused := false;
    }
  }
}
