/**
  Value-level vocabulary of the event emitter: listener references, the
  insertion-ordered duplicate-free collections that hold them, and what a
  dispatch round and a `once` registration do to such a collection.

  A listener is an opaque function compared by reference. A store holds
  either the caller's function itself (`Plain`) or a one-shot wrapper closure
  that `once` created for it (`OnceWrapper`); a wrapper is a new reference,
  distinct from its target and from every other wrapper.
 */
module Listeners {

  /** Identity of a caller-supplied listener function. */
  type ListenerId = nat

  /** One argument passed through `emit`; arguments are forwarded untouched. */
  type Arg = int

  type EventName = string

  datatype Option<+T> = None | Some(value: T)

  datatype Listener =
    | Plain(id: ListenerId)
    | OnceWrapper(wrapper: nat, target: ListenerId)
  {
    /** The caller's function that invoking this reference ends up calling. */
    function Target(): (l: ListenerId)
      ensures this.Plain? ==> l == id
      ensures this.OnceWrapper? ==> l == target
    {
      match this
      case Plain(id) => id
      case OnceWrapper(_, target) => target
    }
  }

  /** One invocation of a caller's listener, with the arguments it received. */
  datatype Call = Call(listener: ListenerId, args: seq<Arg>)

  /** The error `once` raises when the listener itself is already registered. */
  datatype ListenerError = DuplicateListener(listener: ListenerId)

  datatype Result<+T> = Success(value: T) | Failure(error: ListenerError)

  /** No element occurs twice: the shape of a JavaScript `Set` or of `Map` keys. */
  predicate Distinct<T(==)>(s: seq<T>) {
    forall i, j :: 0 <= i < j < |s| ==> s[i] != s[j]
  }

  /** Every wrapper in `s` was numbered below `bound`, so wrapper number
      `bound` and above are fresh references. */
  predicate WrappersBelow(s: seq<Listener>, bound: nat) {
    forall x :: x in s && x.OnceWrapper? ==> x.wrapper < bound
  }

  lemma DistinctSnoc<T>(s: seq<T>, x: T)
    requires Distinct(s) && x !in s
    ensures Distinct(s + [x])
  {
    forall i, j | 0 <= i < j < |s + [x]|
      ensures (s + [x])[i] != (s + [x])[j]
    {
      if j == |s| {
        assert (s + [x])[i] == s[i];
      }
    }
  }

  lemma DistinctLast<T>(s: seq<T>, x: T)
    requires Distinct(s + [x])
    ensures x !in s
  {
    forall k | 0 <= k < |s|
      ensures s[k] != x
    {
      assert (s + [x])[k] == s[k] && (s + [x])[|s|] == x;
    }
  }

  lemma DistinctPrefix<T>(s: seq<T>, n: nat)
    requires Distinct(s) && n <= |s|
    ensures Distinct(s[..n])
  {
  }

  // ---------------------------------------------------------------------
  // Ordered-set operations of the store (`add`, `delete`)
  // ---------------------------------------------------------------------

  /** `Set.prototype.add`: a new reference goes to the end, a present one
      leaves the collection as it was. */
  function Insert(s: seq<Listener>, x: Listener): (r: seq<Listener>)
    ensures forall y :: y in r <==> y in s || y == x
    ensures x in s ==> r == s
    ensures x !in s ==> |r| == |s| + 1 && r[..|s|] == s && r[|s|] == x
    ensures Distinct(s) ==> Distinct(r)
  {
    if x in s then s
    else
      DistinctSnocWhen(Distinct(s), s, x);
      s + [x]
  }

  lemma DistinctSnocWhen<T>(b: bool, s: seq<T>, x: T)
    requires b ==> Distinct(s) && x !in s
    ensures b ==> Distinct(s + [x])
  {
    if b {
      DistinctSnoc(s, x);
    }
  }

  /** `Set.prototype.delete`: every occurrence of `x` goes, the rest keeps
      its order. */
  function Remove(s: seq<Listener>, x: Listener): (r: seq<Listener>)
    ensures forall y :: y in r <==> y in s && y != x
    ensures |r| <= |s|
    ensures Distinct(s) ==> Distinct(r) && |r| == (if x in s then |s| - 1 else |s|)
  {
    if s == [] then []
    else
      var prefix := s[..|s| - 1];
      var last := s[|s| - 1];
      assert s == prefix + [last];
      var r0 := Remove(prefix, x);
      if last == x then r0
      else
        DistinctSnocWhen(Distinct(s), r0, last);
        r0 + [last]
  }

  lemma {:induction false} RemoveAbsent(s: seq<Listener>, x: Listener)
    requires x !in s
    ensures Remove(s, x) == s
  {
    if s != [] {
      assert s == s[..|s| - 1] + [s[|s| - 1]];
      RemoveAbsent(s[..|s| - 1], x);
    }
  }

  /** In a duplicate-free store, deleting the reference at position `k`
      removes exactly that position. */
  lemma {:induction false} RemoveAt(s: seq<Listener>, k: nat)
    requires Distinct(s) && k < |s|
    ensures Remove(s, s[k]) == s[..k] + s[k + 1..]
  {
    var prefix := s[..|s| - 1];
    assert s == prefix + [s[|s| - 1]];
    if k == |s| - 1 {
      assert s[k] !in prefix;
      RemoveAbsent(prefix, s[k]);
    } else {
      DistinctPrefix(s, |s| - 1);
      assert prefix[k] == s[k];
      RemoveAt(prefix, k);
      assert s[k] != s[|s| - 1];
      assert s[..k] + s[k + 1..] == prefix[..k] + prefix[k + 1..] + [s[|s| - 1]];
    }
  }

  /** The constructor of the set adapter and the initial configuration of an
      emitter: `add` each listener in turn. */
  function InsertAll(s: seq<Listener>, ls: seq<ListenerId>): (r: seq<Listener>)
    ensures forall x :: x in r <==> x in s || (x.Plain? && x.id in ls)
    ensures Distinct(s) ==> Distinct(r)
  {
    if ls == [] then s
    else
      var prefix := ls[..|ls| - 1];
      assert ls == prefix + [ls[|ls| - 1]];
      Insert(InsertAll(s, prefix), Plain(ls[|ls| - 1]))
  }

  /** A list without repeated listeners is stored exactly as given. */
  lemma {:induction false} InsertAllDistinct(ls: seq<ListenerId>)
    requires Distinct(ls)
    ensures InsertAll([], ls) == seq(|ls|, i requires 0 <= i < |ls| => Plain(ls[i]))
  {
    if ls != [] {
      var prefix := ls[..|ls| - 1];
      DistinctPrefix(ls, |ls| - 1);
      InsertAllDistinct(prefix);
      assert ls[|ls| - 1] !in prefix;
      assert Plain(ls[|ls| - 1]) !in InsertAll([], prefix);
    }
  }

  // ---------------------------------------------------------------------
  // Dispatch
  // ---------------------------------------------------------------------

  /** The invocations a round over `round` performs, in order: each
      reference calls its target with the emitted arguments. */
  function Calls(round: seq<Listener>, args: seq<Arg>): (r: seq<Call>)
    ensures |r| == |round|
    ensures forall c :: c in r ==> c.args == args
    ensures forall x :: x in round ==> Call(x.Target(), args) in r
  {
    var r := seq(|round|, i requires 0 <= i < |round| => Call(round[i].Target(), args));
    forall x | x in round
      ensures Call(x.Target(), args) in r
    {
      var i :| 0 <= i < |round| && round[i] == x;
      assert r[i] == Call(x.Target(), args);
    }
    r
  }

  /** What is left of a store after a dispatch round visited all of it:
      every once-wrapper removed itself, every plain listener stays. */
  function Survivors(s: seq<Listener>): (r: seq<Listener>)
    ensures forall x :: x in r <==> x in s && x.Plain?
    ensures Distinct(s) ==> Distinct(r)
  {
    if s == [] then []
    else
      var prefix := s[..|s| - 1];
      var last := s[|s| - 1];
      assert s == prefix + [last];
      var r0 := Survivors(prefix);
      if last.Plain? then
        DistinctSnocWhen(Distinct(s), r0, last);
        r0 + [last]
      else r0
  }

  /** What is left of store `s` after the wrappers of `round` (a snapshot,
      perhaps older than `s`) fired: each deleted itself, if still there. */
  function Discard(s: seq<Listener>, round: seq<Listener>): (r: seq<Listener>)
    ensures forall x :: x in r <==> x in s && !(x.OnceWrapper? && x in round)
    ensures Distinct(s) ==> Distinct(r)
  {
    if s == [] then []
    else
      var prefix := s[..|s| - 1];
      var last := s[|s| - 1];
      assert s == prefix + [last];
      var r0 := Discard(prefix, round);
      if last.OnceWrapper? && last in round then r0
      else
        DistinctSnocWhen(Distinct(s), r0, last);
        r0 + [last]
  }

  lemma CallsSnoc(round: seq<Listener>, x: Listener, args: seq<Arg>)
    ensures Calls(round + [x], args) == Calls(round, args) + [Call(x.Target(), args)]
  {
  }

  /** A round over the whole store keeps the plain listeners in their
      relative order: the survivors of a concatenation are the survivors of
      each part, one after the other. */
  lemma {:induction false} SurvivorsAppend(a: seq<Listener>, b: seq<Listener>)
    ensures Survivors(a + b) == Survivors(a) + Survivors(b)
  {
    if b == [] {
      assert a + b == a;
    } else {
      var prefix := b[..|b| - 1];
      assert a + b == (a + prefix) + [b[|b| - 1]];
      assert (a + b)[..|a + b| - 1] == a + prefix;
      SurvivorsAppend(a, prefix);
    }
  }

  /** The members a snapshot round leaves keep their relative order. */
  lemma {:induction false} DiscardAppend(a: seq<Listener>, b: seq<Listener>, round: seq<Listener>)
    ensures Discard(a + b, round) == Discard(a, round) + Discard(b, round)
  {
    if b == [] {
      assert a + b == a;
    } else {
      var prefix := b[..|b| - 1];
      assert a + b == (a + prefix) + [b[|b| - 1]];
      assert (a + b)[..|a + b| - 1] == a + prefix;
      DiscardAppend(a, prefix, round);
    }
  }

  /** One step of a live round. The store is the survivors of the visited
      prefix followed by the unvisited rest, and the cursor stands on the
      first unvisited member: a plain listener moves the cursor on, a wrapper
      that deletes itself leaves the cursor where it is. */
  lemma {:induction false} LiveStep(start: seq<Listener>, visited: nat)
    requires Distinct(start) && visited < |start|
    ensures var live := Survivors(start[..visited]) + start[visited..];
            var cursor := |Survivors(start[..visited])|;
            var next := Survivors(start[..visited + 1]) + start[visited + 1..];
            && start[..visited + 1] == start[..visited] + [start[visited]]
            && cursor < |live| && live[cursor] == start[visited]
            && (start[visited].Plain? ==> live == next && |Survivors(start[..visited + 1])| == cursor + 1)
            && (start[visited].OnceWrapper? ==>
                  Remove(live, live[cursor]) == next && |Survivors(start[..visited + 1])| == cursor)
  {
    var done := start[..visited];
    var x := start[visited];
    assert start[..visited + 1] == done + [x];
    assert start[..visited + 1][..visited] == done;
    assert start[visited..] == [x] + start[visited + 1..];
    var live := Survivors(done) + start[visited..];
    var cursor := |Survivors(done)|;
    if x.OnceWrapper? {
      LiveDistinct(start, visited);
      RemoveAt(live, cursor);
      assert live[..cursor] == Survivors(done);
      assert live[cursor + 1..] == start[visited + 1..];
    }
  }

  /** During a live round the store never holds a reference twice: the
      survivors come from the visited prefix, the rest from the unvisited
      suffix, and the two are disjoint. */
  lemma LiveDistinct(start: seq<Listener>, visited: nat)
    requires Distinct(start) && visited <= |start|
    ensures Distinct(Survivors(start[..visited]) + start[visited..])
  {
    var done := start[..visited];
    var live := Survivors(done) + start[visited..];
    var cursor := |Survivors(done)|;
    forall i, j | 0 <= i < j < |live| ensures live[i] != live[j] {
      if j < cursor {
      } else if i >= cursor {
        assert live[i] == start[visited + i - cursor] && live[j] == start[visited + j - cursor];
      } else {
        assert live[i] in Survivors(done);
        assert live[i] in done;
        assert live[j] == start[visited + j - cursor];
        assert live[j] !in done;
      }
    }
  }

  lemma {:induction false} DiscardNothing(s: seq<Listener>)
    ensures Discard(s, []) == s
  {
    if s != [] {
      assert s == s[..|s| - 1] + [s[|s| - 1]];
      DiscardNothing(s[..|s| - 1]);
    }
  }

  /** Firing one more reference of a round: a wrapper deletes itself from
      the store, a plain listener changes nothing. */
  lemma {:induction false} DiscardStep(s: seq<Listener>, round: seq<Listener>, x: Listener)
    ensures Discard(s, round + [x])
         == if x.OnceWrapper? then Remove(Discard(s, round), x) else Discard(s, round)
  {
    if s != [] {
      var prefix := s[..|s| - 1];
      DiscardStep(prefix, round, x);
    }
  }

  /** A round that covers every wrapper of the store leaves exactly the
      survivors; in particular a round over a snapshot of the store itself
      does what a live round does. */
  lemma {:induction false} DiscardCovering(s: seq<Listener>, round: seq<Listener>)
    requires forall x :: x in s && x.OnceWrapper? ==> x in round
    ensures Discard(s, round) == Survivors(s)
  {
    if s != [] {
      var prefix := s[..|s| - 1];
      assert s == prefix + [s[|s| - 1]];
      DiscardCovering(prefix, round);
    }
  }

  lemma {:induction false} SurvivorsOfPlain(s: seq<Listener>)
    requires forall x :: x in s ==> x.Plain?
    ensures Survivors(s) == s
  {
    if s != [] {
      var prefix := s[..|s| - 1];
      assert s == prefix + [s[|s| - 1]];
      SurvivorsOfPlain(prefix);
    }
  }

  /** A second round that starts after the first one finished finds no
      once-wrapper left: it calls only the plain listeners and leaves the
      store as the first round left it. So, for rounds that run one after
      the other, a listener registered with `once` is called at most once. */
  lemma EmitTwice(s: seq<Listener>)
    ensures Survivors(Survivors(s)) == Survivors(s)
    ensures forall x :: x in Survivors(s) ==> x.Plain?
    ensures forall x :: x in s && x.OnceWrapper? ==> x !in Survivors(s)
  {
    SurvivorsOfPlain(Survivors(s));
  }

  /** Rounds that overlap do not have that guarantee. A snapshot taken by
      `emitAsync` still holds a wrapper that a live round run in between
      (`emit`) fired and removed: both rounds call the wrapper's target, and
      the late round's self-deletion finds nothing left to delete. */
  lemma SnapshotRefires(s: seq<Listener>, k: nat, args1: seq<Arg>, args2: seq<Arg>)
    requires k < |s| && s[k].OnceWrapper?
    ensures Calls(s, args1)[k] == Call(s[k].target, args1)
    ensures s[k] !in Survivors(s)
    ensures Calls(s, args2)[k] == Call(s[k].target, args2)
    ensures Discard(Survivors(s), s) == Survivors(s)
  {
    DiscardCovering(Survivors(s), s);
    SurvivorsOfPlain(Survivors(s));
  }

  // ---------------------------------------------------------------------
  // `once`
  // ---------------------------------------------------------------------

  /** The number of listeners `once` registers before it meets one whose
      own reference is already stored (or all of them). */
  function FirstPresent(s: seq<Listener>, ls: seq<ListenerId>): (k: nat)
    ensures k <= |ls|
    ensures forall i :: 0 <= i < k ==> Plain(ls[i]) !in s
    ensures k < |ls| ==> Plain(ls[k]) in s
  {
    if ls == [] then 0
    else if Plain(ls[0]) in s then 0
    else 1 + FirstPresent(s, ls[1..])
  }

  /** The fresh wrappers `once` creates for `ls`, numbered from `next`. */
  function Wrappers(next: nat, ls: seq<ListenerId>): (r: seq<Listener>)
    ensures |r| == |ls|
    ensures Distinct(r)
    ensures forall i :: 0 <= i < |r| ==> r[i].OnceWrapper? && r[i].Target() == ls[i]
    ensures forall x :: x in r ==> x.OnceWrapper? && next <= x.wrapper < next + |ls|
  {
    seq(|ls|, i requires 0 <= i < |ls| => OnceWrapper(next + i, ls[i]))
  }

  /** Appending fresh wrappers keeps the store duplicate-free, adds one
      entry per listener and makes none of the listeners themselves a
      member. */
  lemma OnceAppendsFresh(s: seq<Listener>, next: nat, ls: seq<ListenerId>)
    requires Distinct(s) && WrappersBelow(s, next)
    ensures Distinct(s + Wrappers(next, ls))
    ensures WrappersBelow(s + Wrappers(next, ls), next + |ls|)
    ensures |s + Wrappers(next, ls)| == |s| + |ls|
    ensures forall l :: Plain(l) in s + Wrappers(next, ls) <==> Plain(l) in s
  {
    var w := Wrappers(next, ls);
    forall i, j | 0 <= i < j < |s + w|
      ensures (s + w)[i] != (s + w)[j]
    {
      if j >= |s| {
        assert (s + w)[j] == w[j - |s|];
        if i < |s| {
          assert (s + w)[i] == s[i];
        }
      }
    }
  }

  /** The duplicate check of `once` looks for the listener itself, never at
      wrappers: wrappers added earlier do not change where it stops. */
  lemma {:induction false} OnceIgnoresWrappers(s: seq<Listener>, next: nat, ls: seq<ListenerId>, more: seq<ListenerId>)
    ensures FirstPresent(s + Wrappers(next, ls), more) == FirstPresent(s, more)
  {
    if more != [] {
      var l := more[0];
      assert Plain(l) in s + Wrappers(next, ls) <==> Plain(l) in s;
      OnceIgnoresWrappers(s, next, ls, more[1..]);
    }
  }

  /** `once(L)` twice in a row succeeds both times: the second duplicate
      check does not see the first wrapper, and the store then holds two
      distinct wrappers of `L` and still not `L` itself. */
  lemma OnceTwice(s: seq<Listener>, next: nat, l: ListenerId)
    requires Distinct(s) && WrappersBelow(s, next) && Plain(l) !in s
    ensures FirstPresent(s, [l]) == 1
    ensures var once1 := s + Wrappers(next, [l]);
            var once2 := once1 + Wrappers(next + 1, [l]);
            && FirstPresent(once1, [l]) == 1
            && Distinct(once2) && |once2| == |s| + 2 && Plain(l) !in once2
            && once2[|s|] == OnceWrapper(next, l) && once2[|s| + 1] == OnceWrapper(next + 1, l)
  {
    var once1 := s + Wrappers(next, [l]);
    OnceAppendsFresh(s, next, [l]);
    OnceIgnoresWrappers(s, next, [l], [l]);
    OnceAppendsFresh(once1, next + 1, [l]);
  }
}
