/** `createStore(reducer)`, the state container both demo applications
    define: one state slot, replaced by the reducer on every dispatch, and an
    ordered list of listeners called after each dispatch. The closure
    variables `state` and `listeners` are the fields of a class; listeners
    are opaque values, and calling one is recorded in the `notified` log. */
module Store {

  /** The listeners that remain once every occurrence of `l` is filtered
      out, the others kept in order. */
  function Without<L(==)>(ls: seq<L>, l: L): (r: seq<L>)
    ensures |r| <= |ls|
    ensures l !in r
    ensures forall i :: 0 <= i < |r| ==> r[i] in ls
    ensures forall i :: 0 <= i < |ls| && ls[i] != l ==> ls[i] in r
  {
    if ls == [] then []
    else if ls[|ls| - 1] == l then Without(ls[..|ls| - 1], l)
    else
      assert ls == ls[..|ls| - 1] + [ls[|ls| - 1]];
      Without(ls[..|ls| - 1], l) + [ls[|ls| - 1]]
  }

  /** Filtering works piece by piece, so the order of the others is kept. */
  lemma {:induction false} WithoutConcat<L>(a: seq<L>, b: seq<L>, l: L)
    ensures Without(a + b, l) == Without(a, l) + Without(b, l)
    decreases |b|
  {
    if b == [] {
      assert a + b == a;
    } else {
      var b' := b[..|b| - 1];
      assert (a + b)[..|a + b| - 1] == a + b';
      WithoutConcat(a, b', l);
    }
  }

  /** Calling the returned unsubscribe function again changes nothing. */
  lemma WithoutIdempotent<L>(ls: seq<L>, l: L)
    ensures Without(Without(ls, l), l) == Without(ls, l)
  {
    WithoutAbsent(Without(ls, l), l);
  }

  /** Filtering out a listener that is not there changes nothing. */
  lemma {:induction false} WithoutAbsent<L>(ls: seq<L>, l: L)
    requires l !in ls
    ensures Without(ls, l) == ls
    decreases |ls|
  {
    if ls != [] {
      assert ls == ls[..|ls| - 1] + [ls[|ls| - 1]];
      WithoutAbsent(ls[..|ls| - 1], l);
    }
  }

  /** Subscribing a new listener and unsubscribing it restores the list;
      unsubscribing one listener leaves the others where they were. */
  lemma SubscribeThenUnsubscribe<L>(ls: seq<L>, l: L, other: seq<L>)
    requires l !in ls && l !in other
    ensures Without(ls + [l] + other, l) == ls + other
  {
    WithoutConcat(ls + [l], other, l);
    WithoutConcat(ls, [l], l);
    WithoutAbsent(ls, l);
    WithoutAbsent(other, l);
    assert Without([l], l) == [] by {
      assert [l][..0] == [];
    }
  }

  class Store<S, A, L(==)> {
    const reducer: (S, A) -> S
    var state: S
    var listeners: seq<L>
    /** Every listener call so far, in order. */
    var notified: seq<L>

    /** `createStore(reducer)`: the store starts with no listeners and is
        seeded by dispatching an action with no type, with the state still
        undefined; `initial` is the reducer's default for an undefined
        state. */
    constructor(reducer: (S, A) -> S, initial: S, seed: A)
      ensures this.reducer == reducer
      ensures state == reducer(initial, seed)
      ensures listeners == [] && notified == []
    {
      this.reducer := reducer;
      state := reducer(initial, seed);
      listeners := [];
      notified := [];
    }

    /** `getState()`. */
    method GetState() returns (s: S)
      ensures s == state
    {
      s := state;
    }

    /** `dispatch(action)`: the reducer computes the new state, then every
        listener is called once, in subscription order. */
    method Dispatch(action: A)
      modifies this
      ensures state == reducer(old(state), action)
      ensures listeners == old(listeners)
      ensures notified == old(notified) + old(listeners)
    {
      state := reducer(state, action);
      for i := 0 to |listeners|
        invariant state == reducer(old(state), action)
        invariant listeners == old(listeners)
        invariant notified == old(notified) + listeners[..i]
      {
        notified := notified + [listeners[i]];
      }
      assert listeners[..|listeners|] == listeners;
    }

    /** `subscribe(listener)`: the listener goes to the end of the list. */
    method Subscribe(listener: L)
      modifies this
      ensures listeners == old(listeners) + [listener]
      ensures state == old(state) && notified == old(notified)
    {
      listeners := listeners + [listener];
    }

    /** The function `subscribe(listener)` returns, called: every occurrence
        of `listener` leaves the list. */
    method Unsubscribe(listener: L)
      modifies this
      ensures listeners == Without(old(listeners), listener)
      ensures state == old(state) && notified == old(notified)
    {
      listeners := Without(listeners, listener);
    }
  }
}
