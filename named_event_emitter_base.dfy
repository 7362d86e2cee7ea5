/**
  The named (multi-channel) emitter: a JavaScript `Map` from event name to
  listener store, whose key order is kept in `names`, and a set of paused
  event names kept apart from the stores.
 */
module NamedEventEmitter {
  import opened Listeners
  import opened ListenersSet

  /** The initial configuration as `Object.entries` lists it: pairs of an
      event name and its listeners. */
  type Config = seq<(EventName, seq<ListenerId>)>

  /** The names of a configuration, in order. */
  function Keys(config: Config): (keys: seq<EventName>)
    ensures |keys| == |config|
  {
    seq(|config|, i requires 0 <= i < |config| => config[i].0)
  }

  /** The key order after the constructor ran `Map.set` for every entry:
      first occurrence order (setting a present key keeps its place). */
  function ConfigNames(config: Config): (names: seq<EventName>)
    ensures Distinct(names)
    ensures forall n :: n in names <==> n in Keys(config)
  {
    if config == [] then []
    else
      var prefix := config[..|config| - 1];
      var last := config[|config| - 1];
      var names0 := ConfigNames(prefix);
      KeysSnoc(config);
      if last.0 in names0 then names0
      else
        DistinctSnocWhen(true, names0, last.0);
        names0 + [last.0]
  }

  /** Entry `i` is the last one of the configuration with its name. */
  predicate LastEntry(config: Config, i: int) {
    0 <= i < |config| && forall j :: i < j < |config| ==> config[j].0 != config[i].0
  }

  /** The stores after the constructor: each name holds its listeners added
      in turn to a new store; a repeated name gets the last list. */
  function ConfigStores(config: Config): (stores: map<EventName, seq<Listener>>)
    ensures forall n :: n in stores <==> n in Keys(config)
    ensures forall i :: LastEntry(config, i) ==>
              config[i].0 in stores && stores[config[i].0] == InsertAll([], config[i].1)
  {
    if config == [] then map[]
    else
      var prefix := config[..|config| - 1];
      var last := config[|config| - 1];
      KeysSnoc(config);
      var stores0 := ConfigStores(prefix);
      var stores := stores0[last.0 := InsertAll([], last.1)];
      assert forall i :: LastEntry(config, i) ==>
               config[i].0 in stores && stores[config[i].0] == InsertAll([], config[i].1) by {
        forall i | LastEntry(config, i)
          ensures config[i].0 in stores && stores[config[i].0] == InsertAll([], config[i].1)
        {
          if i < |prefix| {
            assert prefix[i] == config[i] && last.0 != config[i].0;
            assert LastEntry(prefix, i);
            assert stores[config[i].0] == stores0[prefix[i].0];
          } else {
            assert config[i] == last;
          }
        }
      }
      stores
  }

  /** The names of a non-empty configuration end with its last name. */
  lemma KeysSnoc(config: Config)
    requires config != []
    ensures Keys(config) == Keys(config[..|config| - 1]) + [config[|config| - 1].0]
  {
  }

  /** Handling one more configuration entry. */
  lemma ConfigStep(config: Config, i: nat)
    requires i < |config|
    ensures ConfigNames(config[..i + 1])
         == if config[i].0 in ConfigNames(config[..i]) then ConfigNames(config[..i])
            else ConfigNames(config[..i]) + [config[i].0]
    ensures ConfigStores(config[..i + 1]) == ConfigStores(config[..i])[config[i].0 := InsertAll([], config[i].1)]
  {
    assert config[..i + 1][..i] == config[..i];
  }


  /** For an object configuration (no name twice) the constructor keeps the
      keys in their order. */
  lemma {:induction false} ConfigNamesFromObject(config: Config)
    requires Distinct(Keys(config))
    ensures ConfigNames(config) == Keys(config)
  {
    if config != [] {
      var prefix := config[..|config| - 1];
      var last := config[|config| - 1];
      assert Keys(prefix) == Keys(config)[..|config| - 1];
      DistinctPrefix(Keys(config), |config| - 1);
      ConfigNamesFromObject(prefix);
      KeysSnoc(config);
      DistinctLast(Keys(prefix), last.0);
    }
  }

  /** For an object configuration the names are the keys in order, and each
      name's store holds its listed listeners in order with duplicates
      collapsed; a name with an empty list still has an (empty) store. */
  lemma ConfigFromObject(config: Config)
    requires Distinct(Keys(config))
    ensures ConfigNames(config) == Keys(config)
    ensures forall i :: 0 <= i < |config| ==>
              config[i].0 in ConfigStores(config) && ConfigStores(config)[config[i].0] == InsertAll([], config[i].1)
  {
    ConfigNamesFromObject(config);
    forall i, j | 0 <= i < j < |config|
      ensures config[j].0 != config[i].0
    {
      assert Keys(config)[i] == config[i].0 && Keys(config)[j] == config[j].0;
    }
  }

  /** A later update of the same key hides an earlier one. */
  lemma UpdateTwice<K, V>(m: map<K, V>, k: K, a: V, b: V)
    ensures m[k := a][k := b] == m[k := b]
  {
  }

  /** Writing back the value a key already has changes nothing. */
  lemma UpdateSame<K, V>(m: map<K, V>, k: K)
    requires k in m
    ensures m[k := m[k]] == m
  {
  }

  /** A map that agrees with `before[k := v]` at every key is that map. */
  lemma MapUpdated<K, V>(m: map<K, V>, before: map<K, V>, k: K, v: V)
    requires k in m && m[k] == v
    requires forall n :: n in m <==> n in before || n == k
    requires forall n :: n in before && n != k ==> m[n] == before[n]
    ensures m == before[k := v]
  {
  }

  /** No two names share one store object. */
  predicate Injective(events: map<EventName, ListenersSetAdapter>) {
    forall n, m :: n in events && m in events && n != m ==> events[n] != events[m]
  }

  /** Putting a store no name holds yet under a name keeps stores unshared. */
  lemma InjectiveUpdate(events: map<EventName, ListenersSetAdapter>, event: EventName, store: ListenersSetAdapter)
    requires Injective(events) && store !in events.Values
    ensures Injective(events[event := store])
  {
    var updated := events[event := store];
    forall n, m | n in updated && m in updated && n != m
      ensures updated[n] != updated[m]
    {
      if n != event && m != event {
        assert updated[n] == events[n] && updated[m] == events[m];
      } else if n == event {
        assert events[m] in events.Values;
      } else {
        assert events[n] in events.Values;
      }
    }
  }

  /** The listeners of `event`, the empty sequence when it has no store. */
  function StoreOf(stores: map<EventName, seq<Listener>>, event: EventName): (s: seq<Listener>)
    ensures event !in stores ==> s == []
  {
    if event in stores then stores[event] else []
  }

  class NamedEventEmitterBase {
    /** `#events`: one store object per known event name. */
    var events: map<EventName, ListenersSetAdapter>
    /** The insertion order of the keys of `#events`. */
    var names: seq<EventName>
    /** `#pausedEvents`. */
    var pausedEvents: set<EventName>

    /** Every store is well formed, no two names share one store object, and
        `names` lists each known event once. */
    ghost predicate Valid()
      reads this, events.Values
    {
      && (forall n :: n in events ==> events[n].Valid())
      && Injective(events)
      && Distinct(names)
      && (forall n :: n in names <==> n in events)
    }

    /** The members of each known event's store, as values. */
    ghost function Stores(): (stores: map<EventName, seq<Listener>>)
      reads this, events.Values
      ensures forall n :: n in stores <==> n in events
    {
      map n | n in events :: events[n].entries
    }

    /** The number the next wrapper `once` stores for `event` gets: a new
        store starts at 0. */
    ghost function NextWrapper(event: EventName): (next: nat)
      reads this, events.Values
      ensures event in events ==> next == events[event].nextWrapper
      ensures event !in events ==> next == 0
    {
      if event in events then events[event].nextWrapper else 0
    }

    /** Builds one new store per configured name and adds its listeners in
        turn; nothing is paused. */
    constructor (config: Config)
      ensures Valid() && fresh(events.Values)
      ensures names == ConfigNames(config) && Stores() == ConfigStores(config)
      ensures pausedEvents == {}
    {
      events := map[];
      names := [];
      pausedEvents := {};
      new;
      var i := 0;
      while i < |config|
        invariant 0 <= i <= |config|
        invariant Valid() && pausedEvents == {} && fresh(events.Values)
        invariant names == ConfigNames(config[..i]) && Stores() == ConfigStores(config[..i])
      {
        ConfigStep(config, i);
        SetEvent(config[i].0, config[i].1);
        i := i + 1;
      }
      assert config[..i] == config;
    }

    /** One configuration entry: a new store under `event` holding
        `listeners` added in turn. */
    method SetEvent(event: EventName, listeners: seq<ListenerId>)
      requires Valid()
      modifies this
      ensures Valid() && pausedEvents == old(pausedEvents)
      ensures fresh(events.Values - old(events.Values))
      ensures event in events && fresh(events[event])
      ensures events == old(events)[event := events[event]]
      ensures names == if event in old(names) then old(names) else old(names) + [event]
      ensures Stores() == old(Stores())[event := InsertAll([], listeners)]
    {
      ghost var before := Stores();
      var store := SetNewStore(event);
      AddListeners(event, listeners);
      UpdateTwice(before, event, [], InsertAll([], listeners));
    }

    /** `Map.set(event, new Listeners(...))`: a new empty store under
        `event`, replacing any store it had; a new name goes to the end of
        the key order, a present one keeps its place. */
    method SetNewStore(event: EventName) returns (store: ListenersSetAdapter)
      requires Valid()
      modifies this
      ensures Valid() && fresh(store) && store.nextWrapper == 0
      ensures events == old(events)[event := store]
      ensures fresh(events.Values - old(events.Values))
      ensures names == if event in old(names) then old(names) else old(names) + [event]
      ensures Stores() == old(Stores())[event := []]
      ensures pausedEvents == old(pausedEvents)
    {
      ghost var before := Stores();
      store := new ListenersSetAdapter([]);
      ghost var previous := events;
      DistinctSnocWhen(event !in names, names, event);
      InjectiveUpdate(events, event, store);
      names, events := if event in names then names else names + [event], events[event := store];
      ghost var now := Stores();
      forall n | n in before && n != event
        ensures now[n] == before[n]
      {
        assert events[n] == previous[n];
      }
      MapUpdated(now, before, event, []);
    }

    /** The inner loop of the constructor: each listener added in turn to
        the store of a known event. */
    method AddListeners(event: EventName, listeners: seq<ListenerId>)
      requires Valid() && event in events
      modifies events[event]
      ensures Valid()
      ensures Stores() == old(Stores())[event := InsertAll(old(Stores())[event], listeners)]
    {
      ghost var before := Stores();
      var store := events[event];
      var j := 0;
      while j < |listeners|
        modifies store
        invariant 0 <= j <= |listeners|
        invariant store.Valid() && store.entries == InsertAll(before[event], listeners[..j])
      {
        assert listeners[..j + 1][..j] == listeners[..j];
        store.Add(listeners[j]);
        j := j + 1;
      }
      assert listeners[..j] == listeners;
      OnlyOneStoreChanged(event, before);
    }

    /** After a change confined to the store of `event`, every store is
        still well formed and the stores are `before` with that one entry
        replaced. */
    lemma OnlyOneStoreChanged(event: EventName, before: map<EventName, seq<Listener>>)
      requires event in events && events[event].Valid()
      requires forall n :: n in before <==> n in events
      requires forall n :: n in events && n != event ==> events[n].Valid() && events[n].entries == before[n]
      ensures forall n :: n in events ==> events[n].Valid()
      ensures Stores() == before[event := events[event].entries]
    {
      MapUpdated(Stores(), before, event, events[event].entries);
    }

    /** `clear(event)`: empties a known event's store and keeps its name;
        a no-op for an unknown event. */
    method Clear(event: EventName)
      requires Valid()
      modifies events.Values
      ensures Valid()
      ensures Stores() == if event in old(events) then old(Stores())[event := []] else old(Stores())
      ensures forall n :: NextWrapper(n) == old(NextWrapper(n))
    {
      if event in events {
        ghost var before := Stores();
        var store := events[event];
        store.Clear();
        forall n | n in events && n != event
          ensures events[n].Valid() && events[n].entries == before[n]
        {
          assert events[n] != store;
        }
        OnlyOneStoreChanged(event, before);
      }
    }

    /** `clearAll()`: forgets every event; the paused names stay. */
    method ClearAll()
      requires Valid()
      modifies this
      ensures Valid() && Stores() == map[] && names == []
      ensures pausedEvents == old(pausedEvents)
    {
      events := map[];
      names := [];
    }

    /** `count(event)`: 0 for an unknown event, otherwise the size of its
        store. */
    method Count(event: EventName) returns (n: nat)
      requires Valid()
      ensures n == |StoreOf(Stores(), event)|
    {
      if event in events {
        n := events[event].Size();
      } else {
        n := 0;
      }
    }

    /** `emit(event, ...args)`: nothing for a paused or unknown event;
        otherwise every member of its store is called once, in insertion
        order, with `args`, and the fired once-wrappers are gone afterwards. */
    method Emit(event: EventName, args: seq<Arg>) returns (trace: seq<Call>)
      requires Valid()
      modifies events.Values
      ensures Valid()
      ensures event in pausedEvents || event !in events ==> trace == [] && Stores() == old(Stores())
      ensures event !in pausedEvents && event in events ==>
                && trace == Calls(old(Stores())[event], args)
                && Stores() == old(Stores())[event := Survivors(old(Stores())[event])]
      ensures forall n :: NextWrapper(n) == old(NextWrapper(n))
    {
      var isPaused := IsPaused(event);
      if isPaused || event !in events {
        return [];
      }
      ghost var before := Stores();
      var store := events[event];
      trace := store.Dispatch(args);
      forall n | n in events && n != event
        ensures events[n].Valid() && events[n].entries == before[n]
      {
        assert events[n] != store;
      }
      OnlyOneStoreChanged(event, before);
    }

    /** `eventNames()`: the known events, in the order they were first
        created. */
    method EventNames() returns (r: seq<EventName>)
      requires Valid()
      ensures r == names
      ensures Distinct(r) && forall n :: n in r <==> n in Stores()
    {
      r := names;
    }

    /** `isPaused(event)`. */
    method IsPaused(event: EventName) returns (b: bool)
      ensures b <==> event in pausedEvents
    {
      b := event in pausedEvents;
    }

    /** `listeners(event)`: the live store of a known event, `undefined`
        otherwise. Changes made through it are changes to the emitter. */
    method Listeners(event: EventName) returns (r: Option<ListenersSetAdapter>)
      requires Valid()
      ensures r.Some? <==> event in Stores()
      ensures r.Some? ==> r.value == events[event] && r.value.entries == Stores()[event]
    {
      if event in events {
        r := Some(events[event]);
      } else {
        r := None;
      }
    }

    /** `emitAsync(event, ...args)`: nothing for an unknown or paused event;
        otherwise exactly the members of the snapshot taken at the call are
        called, in snapshot order. With no other code running in between,
        the store ends as after `emit`. */
    method EmitAsync(event: EventName, args: seq<Arg>) returns (trace: seq<Call>)
      requires Valid()
      modifies events.Values
      ensures Valid()
      ensures event in pausedEvents || event !in events ==> trace == [] && Stores() == old(Stores())
      ensures event !in pausedEvents && event in events ==>
                && trace == Calls(old(Stores())[event], args)
                && Stores() == old(Stores())[event := Survivors(old(Stores())[event])]
      ensures forall n :: NextWrapper(n) == old(NextWrapper(n))
    {
      var listeners := Listeners(event);
      var isPaused := IsPaused(event);
      if listeners.None? || isPaused {
        return [];
      }
      ghost var before := Stores();
      var store := listeners.value;
      var snapshot := store.Snapshot();
      trace := store.DispatchRound(snapshot, args);
      DiscardCovering(snapshot, snapshot);
      forall n | n in events && n != event
        ensures events[n].Valid() && events[n].entries == before[n]
      {
        assert events[n] != store;
      }
      OnlyOneStoreChanged(event, before);
    }

    /** `!this.#events.has(event) && this.#events.set(event, new Listeners(...))`:
        the store of an unknown event is created on first use. */
    method OpenEvent(event: EventName)
      requires Valid()
      modifies this
      ensures Valid() && event in events && pausedEvents == old(pausedEvents)
      ensures fresh(events.Values - old(events.Values))
      ensures forall n :: n in old(events) ==> n in events && events[n] == old(events)[n]
      ensures names == if event in old(names) then old(names) else old(names) + [event]
      ensures Stores() == old(Stores())[event := StoreOf(old(Stores()), event)]
      ensures forall n :: NextWrapper(n) == old(NextWrapper(n))
    {
      if event !in events {
        var _ := SetNewStore(event);
      } else {
        UpdateSame(Stores(), event);
      }
    }

    /** `this.#events.get(event)!.add(listener)` on a known event. */
    method AddListener(event: EventName, listener: ListenerId)
      requires Valid() && event in events
      modifies events[event]
      ensures Valid()
      ensures Stores() == old(Stores())[event := Insert(old(Stores())[event], Plain(listener))]
      ensures forall n :: NextWrapper(n) == old(NextWrapper(n))
    {
      ghost var before := Stores();
      var store := events[event];
      store.Add(listener);
      forall n | n in events && n != event
        ensures events[n].Valid() && events[n].entries == before[n]
      {
        assert events[n] != store;
      }
      OnlyOneStoreChanged(event, before);
    }

    /** `on(event, listener)`: creates the event's store if it is unknown,
        then adds the listener if absent. No other event changes. */
    method On(event: EventName, listener: ListenerId)
      requires Valid()
      modifies this, events.Values
      ensures Valid() && fresh(events.Values - old(events.Values)) && pausedEvents == old(pausedEvents)
      ensures names == if event in old(names) then old(names) else old(names) + [event]
      ensures forall n :: n in old(events) ==> n in events && events[n] == old(events)[n]
      ensures Stores() == old(Stores())[event := Insert(StoreOf(old(Stores()), event), Plain(listener))]
      ensures forall n :: NextWrapper(n) == old(NextWrapper(n))
    {
      ghost var before := Stores();
      OpenEvent(event);
      AddListener(event, listener);
      UpdateTwice(before, event, StoreOf(before, event), Insert(StoreOf(before, event), Plain(listener)));
    }

    /** `this.#events.get(event)!.once(listener)` on a known event. */
    method OnceListener(event: EventName, listener: ListenerId) returns (added: Result<ListenersSetAdapter>)
      requires Valid() && event in events
      modifies events[event]
      ensures Valid()
      ensures Plain(listener) in old(Stores())[event] ==>
                && added.Failure? && added.error == DuplicateListener(listener) && Stores() == old(Stores())
                && NextWrapper(event) == old(NextWrapper(event))
      ensures Plain(listener) !in old(Stores())[event] ==>
                && added.Success?
                && Stores() == old(Stores())[event := old(Stores())[event] + [OnceWrapper(old(NextWrapper(event)), listener)]]
                && NextWrapper(event) == old(NextWrapper(event)) + 1
      ensures forall n :: n != event ==> NextWrapper(n) == old(NextWrapper(n))
    {
      ghost var before := Stores();
      var store := events[event];
      ghost var start, next := store.entries, store.nextWrapper;
      added := store.Once([listener]);
      if Plain(listener) in start {
        assert FirstPresent(start, [listener]) == 0;
        assert Wrappers(next, [listener][..0]) == [];
        assert store.entries == start;
      } else {
        assert FirstPresent(start, [listener]) == 1;
        assert [listener][..1] == [listener];
        assert Wrappers(next, [listener]) == [OnceWrapper(next, listener)];
      }
      forall n | n in events && n != event
        ensures events[n].Valid() && events[n].entries == before[n]
      {
        assert events[n] != store;
      }
      OnlyOneStoreChanged(event, before);
      if Plain(listener) in start {
        UpdateSame(before, event);
      }
    }

    /** `once(event, listener)`: creates the event's store if it is unknown,
        then stores a fresh self-removing wrapper, or fails when the listener
        itself is already a member of that store. */
    method Once(event: EventName, listener: ListenerId) returns (r: Result<NamedEventEmitterBase>)
      requires Valid()
      modifies this, events.Values
      ensures Valid() && fresh(events.Values - old(events.Values)) && pausedEvents == old(pausedEvents)
      ensures names == if event in old(names) then old(names) else old(names) + [event]
      ensures forall n :: n in old(events) ==> n in events && events[n] == old(events)[n]
      ensures Plain(listener) in StoreOf(old(Stores()), event) ==>
                && r == Failure(DuplicateListener(listener)) && Stores() == old(Stores())
                && NextWrapper(event) == old(NextWrapper(event))
      ensures Plain(listener) !in StoreOf(old(Stores()), event) ==>
                && r == Success(this)
                && OnceWrapper(old(NextWrapper(event)), listener) !in StoreOf(old(Stores()), event)
                && Stores() == old(Stores())[event := StoreOf(old(Stores()), event) + [OnceWrapper(old(NextWrapper(event)), listener)]]
                && NextWrapper(event) == old(NextWrapper(event)) + 1
      ensures forall n :: n != event ==> NextWrapper(n) == old(NextWrapper(n))
    {
      ghost var before := Stores();
      ghost var w := NextWrapper(event);
      OpenEvent(event);
      assert OnceWrapper(w, listener) !in StoreOf(before, event);
      var added := OnceListener(event, listener);
      if added.Failure? {
        r := Failure(added.error);
        UpdateSame(before, event);
      } else {
        r := Success(this);
        UpdateTwice(before, event, StoreOf(before, event), StoreOf(before, event) + [OnceWrapper(w, listener)]);
      }
    }

    /** `off(event, listener)`: removes the caller's listener itself from
        the event's store; a no-op for an unknown event or an absent
        listener. The name stays known even when its store becomes empty. */
    method Off(event: EventName, listener: ListenerId)
      requires Valid()
      modifies events.Values
      ensures Valid()
      ensures Stores() == if event in old(events) then old(Stores())[event := Remove(old(Stores())[event], Plain(listener))] else old(Stores())
      ensures forall n :: NextWrapper(n) == old(NextWrapper(n))
    {
      if event in events {
        ghost var before := Stores();
        var store := events[event];
        store.Delete(Plain(listener));
        forall n | n in events && n != event
          ensures events[n].Valid() && events[n].entries == before[n]
        {
          assert events[n] != store;
        }
        OnlyOneStoreChanged(event, before);
      }
    }

    /** `pause(event)`: works for any name, known or not; no store changes. */
    method Pause(event: EventName)
      requires Valid()
      modifies this
      ensures Valid() && events == old(events) && names == old(names) && Stores() == old(Stores())
      ensures pausedEvents == old(pausedEvents) + {event}
    {
      pausedEvents := pausedEvents + {event};
    }

    /** `resume(event)`: works for any name, known or not; no store changes. */
    method Resume(event: EventName)
      requires Valid()
      modifies this
      ensures Valid() && events == old(events) && names == old(names) && Stores() == old(Stores())
      ensures pausedEvents == old(pausedEvents) - {event}
    {
      pausedEvents := pausedEvents - {event};
    }
  }
}
