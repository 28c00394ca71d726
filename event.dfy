/**
 * Event: a "third-person" observer. An event keeps an ordered list of
 * listener callbacks and, when triggered, calls each of them once, in the
 * order they were added, with the trigger's argument list.
 *
 * Listeners are opaque values compared by identity (PHP `===`); calling a
 * listener is recorded in the `calls` trace instead of running foreign code.
 */
module Events {

  /** A listener callback; `callable` is PHP's `is_callable` verdict on it. */
  datatype Listener = Listener(id: nat, callable: bool)

  /** One invocation of a listener with the arguments of `triggerEvent`. */
  datatype Call<A> = Call(listener: Listener, args: A)

  /** Number of occurrences of x in s. */
  function Count<T(==)>(s: seq<T>, x: T): nat
  {
    if |s| == 0 then 0 else (if s[0] == x then 1 else 0) + Count(s[1..], x)
  }

  /** The list without its first element equal to x (unchanged when x is absent). */
  function RemoveFirst<T(==)>(s: seq<T>, x: T): (r: seq<T>)
    ensures x !in s ==> r == s
    ensures x in s ==> |r| == |s| - 1
  {
    if |s| == 0 then []
    else if s[0] == x then
      assert s == [s[0]] + s[1..];
      s[1..]
    else
      var r := [s[0]] + RemoveFirst(s[1..], x);
      assert s == [s[0]] + s[1..];
      r
  }

  /** Removing the first x takes exactly one x out of the multiset of listeners, if there was one. */
  lemma {:induction false} RemoveFirstMultiset<T>(s: seq<T>, x: T)
    ensures multiset(RemoveFirst(s, x)) == multiset(s) - multiset{x}
  {
    if |s| > 0 {
      var t := s[1..];
      assert s == [s[0]] + t;
      RemoveFirstMultiset(t, x);
      if s[0] != x {
        assert RemoveFirst(s, x) == [s[0]] + RemoveFirst(t, x);
      }
    }
  }

  /** Removing the first x loses exactly one occurrence of x and keeps every other element. */
  lemma {:induction false} RemoveFirstCount<T>(s: seq<T>, x: T, y: T)
    ensures Count(RemoveFirst(s, x), x) == if x in s then Count(s, x) - 1 else 0
    ensures y != x ==> Count(RemoveFirst(s, x), y) == Count(s, y)
  {
    if |s| > 0 {
      RemoveFirstCount(s[1..], x, y);
      if s[0] != x {
        assert (([s[0]] + RemoveFirst(s[1..], x))[1..]) == RemoveFirst(s[1..], x);
      } else {
        assert x in s;
      }
    } else {
      assert x !in s;
    }
    if x !in s {
      CountAbsent(s, x);
    }
  }

  lemma {:induction false} CountAbsent<T>(s: seq<T>, x: T)
    requires x !in s
    ensures Count(s, x) == 0
  {
    if |s| > 0 {
      assert s == [s[0]] + s[1..];
      assert x !in s[1..];
      CountAbsent(s[1..], x);
    }
  }

  /** Removing at the first occurrence: the elements before it, then those after it. */
  lemma {:induction false} RemoveFirstAt<T>(s: seq<T>, x: T, i: nat)
    requires i < |s| && s[i] == x
    requires forall j | 0 <= j < i :: s[j] != x
    ensures RemoveFirst(s, x) == s[..i] + s[i + 1..]
  {
    if i > 0 {
      var t := s[1..];
      RemoveFirstAt(t, x, i - 1);
      assert s[0] != x;
      assert RemoveFirst(s, x) == [s[0]] + RemoveFirst(t, x);
      assert t[..i - 1] == s[1..i];
      assert t[i..] == s[i + 1..];
      assert [s[0]] + s[1..i] == s[..i];
    }
  }

  /** The calls a trigger makes: every listener once, in order, with the same arguments. */
  function FanOut<A>(listeners: seq<Listener>, args: A): (calls: seq<Call<A>>)
    ensures |calls| == |listeners|
    ensures forall i | 0 <= i < |calls| :: calls[i] == Call(listeners[i], args)
  {
    seq(|listeners|, i requires 0 <= i < |listeners| => Call(listeners[i], args))
  }

  class Event<A> {
    var listeners: seq<Listener>
    var calls: seq<Call<A>>

    constructor ()
      ensures listeners == [] && calls == []
    {
      listeners := [];
      calls := [];
    }

    /**
     * `addListener`: appends a callable listener at the end; for a
     * non-callable one PHP throws (ok == false) and the list is unchanged.
     */
    method AddListener(l: Listener) returns (ok: bool)
      modifies this`listeners
      ensures ok == l.callable
      ensures listeners == if ok then old(listeners) + [l] else old(listeners)
    {
      if l.callable {
        listeners := listeners + [l];
        ok := true;
      } else {
        ok := false;
      }
    }

    /**
     * `delListener`: removes the first listener identical to `del` and
     * answers true; answers false and changes nothing when there is none.
     */
    method DelListener(del: Listener) returns (removed: bool)
      modifies this`listeners
      ensures removed == (del in old(listeners))
      ensures listeners == RemoveFirst(old(listeners), del)
    {
      var i := 0;
      while i < |listeners|
        invariant 0 <= i <= |listeners| && listeners == old(listeners)
        invariant forall j | 0 <= j < i :: listeners[j] != del
      {
        if listeners[i] == del {
          RemoveFirstAt(listeners, del, i);
          listeners := listeners[..i] + listeners[i + 1..];
          return true;
        }
        i := i + 1;
      }
      removed := false;
    }

    /** `triggerEvent`: calls every listener once, in insertion order; the list is untouched. */
    method TriggerEvent(args: A)
      modifies this`calls
      ensures calls == old(calls) + FanOut(listeners, args)
    {
      var i := 0;
      while i < |listeners|
        invariant 0 <= i <= |listeners|
        invariant calls == old(calls) + FanOut(listeners[..i], args)
      {
        calls := calls + [Call(listeners[i], args)];
        i := i + 1;
        assert FanOut(listeners[..i], args) == FanOut(listeners[..i - 1], args) + [Call(listeners[i - 1], args)];
      }
      assert listeners[..i] == listeners;
    }
  }

  /** A listener added twice survives one `delListener` with one occurrence left. */
  method AddedTwiceRemovedOnce(l: Listener) returns (left: nat)
    requires l.callable
    ensures left == 1
  {
    var e := new Event<nat>();
    var ok := e.AddListener(l);
    ok := e.AddListener(l);
    var removed := e.DelListener(l);
    assert e.listeners == [l];
    assert Count([l], l) == 1 + Count([l][1..], l);
    assert [l][1..] == [];
    left := Count(e.listeners, l);
  }
}
