/**
 * The typed listener registry of assets/script/common/event/typed-event.ts. A listener
 * is identified by its id (a JavaScript function object compares by identity); a
 * forwarding listener made by `pipe` also names the event it forwards to.
 */
module TypedEvents {

  datatype Listener = Handler(id: nat) | Forward(id: nat, to: TypedEvent)

  /** What `on` hands back: disposing it removes `listener` from `owner`. */
  datatype Disposable = Disposable(owner: TypedEvent, listener: Listener)

  /** The list without its first occurrence of `x` (the list itself when `x` is absent). */
  function RemoveFirst(s: seq<Listener>, x: Listener): seq<Listener>
  {
    if s == [] then []
    else if s[0] == x then s[1..]
    else [s[0]] + RemoveFirst(s[1..], x)
  }

  /** `Array.prototype.indexOf`: the first position of `x`, or -1. */
  function IndexOf(s: seq<Listener>, x: Listener): (i: int)
    ensures -1 <= i < |s|
    ensures i == -1 <==> x !in s
    ensures i >= 0 ==> s[i] == x && x !in s[..i]
  {
    if s == [] then -1
    else if s[0] == x then 0
    else
      var j := IndexOf(s[1..], x);
      assert s[1..][..if j < 0 then 0 else j] == s[1..if j < 0 then 1 else j + 1];
      if j == -1 then -1 else j + 1
  }

  /** Cutting out the element at `indexOf` is removing the first occurrence. */
  lemma {:induction false} SpliceIndexOf(s: seq<Listener>, x: Listener)
    requires x in s
    ensures var i := IndexOf(s, x); s[..i] + s[i + 1..] == RemoveFirst(s, x)
  {
    if s[0] != x {
      SpliceIndexOf(s[1..], x);
      var j := IndexOf(s[1..], x);
      assert s[..j + 1] == [s[0]] + s[1..][..j];
      assert s[j + 2..] == s[1..][j + 1..];
    }
  }

  /** Removing exactly one copy when present, and none when absent. */
  lemma {:induction false} RemoveFirstMultiset(s: seq<Listener>, x: Listener)
    ensures x in s ==> multiset(RemoveFirst(s, x)) == multiset(s) - multiset{x}
    ensures x !in s ==> RemoveFirst(s, x) == s
  {
    if s != [] {
      assert s == [s[0]] + s[1..];
      if s[0] == x {
        assert multiset(s) == multiset{x} + multiset(s[1..]);
      } else {
        RemoveFirstMultiset(s[1..], x);
        assert x in s ==> x in s[1..];
        assert multiset(s) == multiset{s[0]} + multiset(s[1..]);
      }
    }
  }

  /** The other listeners keep their relative order. */
  lemma {:induction false} RemoveFirstKeepsOrder(s: seq<Listener>, x: Listener)
    requires x in s
    ensures exists i :: 0 <= i < |s| && s[i] == x && x !in s[..i] && RemoveFirst(s, x) == s[..i] + s[i + 1..]
  {
    SpliceIndexOf(s, x);
    var i := IndexOf(s, x);
    assert 0 <= i < |s| && s[i] == x && x !in s[..i];
  }

  /** Disposing what `on(x)` returned for a listener registered nowhere else takes it out again. */
  lemma {:induction false} RemoveFirstLast(s: seq<Listener>, x: Listener)
    requires x !in s
    ensures RemoveFirst(s + [x], x) == s
  {
    if s != [] {
      assert (s + [x])[1..] == s[1..] + [x];
      RemoveFirstLast(s[1..], x);
    }
  }

  class TypedEvent {
    var listeners: seq<Listener>
    var listenersOnce: seq<Listener>

    constructor()
      ensures listeners == [] && listenersOnce == []
    {
      listeners := [];
      listenersOnce := [];
    }

    /** `on`: appends to the persistent listeners and returns the matching disposable. */
    method On(listener: Listener) returns (d: Disposable)
      modifies this
      ensures listeners == old(listeners) + [listener]
      ensures listenersOnce == old(listenersOnce)
      ensures d == Disposable(this, listener)
    {
      listeners := listeners + [listener];
      d := Disposable(this, listener);
    }

    /** `once`: appends to the one-shot listeners. */
    method Once(listener: Listener)
      modifies this
      ensures listenersOnce == old(listenersOnce) + [listener]
      ensures listeners == old(listeners)
    {
      listenersOnce := listenersOnce + [listener];
    }

    /** `off`: splices out the first occurrence among the persistent listeners. */
    method Off(listener: Listener)
      modifies this
      ensures listeners == RemoveFirst(old(listeners), listener)
      ensures listenersOnce == old(listenersOnce)
    {
      var callbackIndex := IndexOf(listeners, listener);
      if callbackIndex > -1 {
        SpliceIndexOf(listeners, listener);
        listeners := listeners[..callbackIndex] + listeners[callbackIndex + 1..];
      } else {
        RemoveFirstMultiset(listeners, listener);
      }
    }

    /**
     * `emit`: calls the persistent listeners in registration order, then the one-shot
     * listeners in order, and empties the one-shot list. The calls are returned in order.
     */
    method Emit() returns (calls: seq<Listener>)
      modifies this
      ensures calls == old(listeners) + old(listenersOnce)
      ensures listeners == old(listeners) && listenersOnce == []
    {
      calls := [];
      var i := 0;
      while i < |listeners|
        invariant 0 <= i <= |listeners|
        invariant calls == listeners[..i]
      {
        calls := calls + [listeners[i]];
        i := i + 1;
      }
      assert listeners[..i] == listeners;
      var j := 0;
      while j < |listenersOnce|
        invariant 0 <= j <= |listenersOnce|
        invariant calls == listeners + listenersOnce[..j]
      {
        calls := calls + [listenersOnce[j]];
        j := j + 1;
      }
      assert listenersOnce[..j] == listenersOnce;
      listenersOnce := [];
    }

    /** `reset`: drops the persistent listeners and keeps the one-shot ones. */
    method Reset()
      modifies this
      ensures listeners == [] && listenersOnce == old(listenersOnce)
    {
      listeners := [];
    }

    /** `pipe(te)`: registers a fresh forwarding listener (its identity is `id`). */
    method Pipe(te: TypedEvent, id: nat) returns (d: Disposable)
      modifies this
      ensures listeners == old(listeners) + [Forward(id, te)]
      ensures listenersOnce == old(listenersOnce)
      ensures d == Disposable(this, Forward(id, te))
    {
      d := On(Forward(id, te));
    }
  }

  /** `dispose()` of a disposable: `off` on the event it came from. */
  method Dispose(d: Disposable)
    modifies d.owner
    ensures d.owner.listeners == RemoveFirst(old(d.owner.listeners), d.listener)
    ensures d.owner.listenersOnce == old(d.owner.listenersOnce)
  {
    d.owner.Off(d.listener);
  }

  /** A one-shot listener is called by the first `emit` after `once` and by no later one. */
  method OnceFiresOnce(e: TypedEvent, l: Listener) returns (first: seq<Listener>, second: seq<Listener>)
    requires l !in e.listeners && l !in e.listenersOnce
    modifies e
    ensures l in first && l !in second
    ensures l !in e.listeners && e.listenersOnce == []
  {
    e.Once(l);
    first := e.Emit();
    second := e.Emit();
  }

  /** Registering and then disposing restores the persistent listeners. */
  method OnThenDispose(e: TypedEvent, l: Listener)
    requires l !in e.listeners
    modifies e
    ensures e.listeners == old(e.listeners) && e.listenersOnce == old(e.listenersOnce)
  {
    var d := e.On(l);
    RemoveFirstLast(old(e.listeners), l);
    Dispose(d);
  }

  /** After `pipe(te)`, every `emit` forwards to `te` until the pipe is disposed or reset. */
  method PipeForwards(e: TypedEvent, te: TypedEvent, id: nat) returns (first: seq<Listener>, second: seq<Listener>)
    modifies e
    ensures Forward(id, te) in first && Forward(id, te) in second
    ensures e.listeners == old(e.listeners) + [Forward(id, te)]
  {
    var d := e.Pipe(te, id);
    first := e.Emit();
    second := e.Emit();
  }
}
