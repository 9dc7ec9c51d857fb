/**
 * `WisperNext::Publisher::Methods`: the listener registry every publisher
 * carries (`@subscribers`), the three registry errors, and the synchronous
 * `broadcast` over a snapshot of the registry.
 */
module PublisherCore {
  import opened Wrappers

  /** The block given to `on`, identified by an abstract handle. */
  datatype Block = Block(handle: nat)

  /**
   * Any object that can be handed to `subscribe`. Listeners are compared as
   * Ruby objects are by default: by identity.
   */
  class Listener {
    /** Whether the object answers `respond_to?(:on_event)`. */
    const respondsToOnEvent: bool
    /** For a `CallableAdapter` built by `on`: the event name and block it wraps. */
    const adapted: Option<(string, Block)>

    constructor (respondsToOnEvent: bool)
      ensures this.respondsToOnEvent == respondsToOnEvent && adapted == None
    {
      this.respondsToOnEvent := respondsToOnEvent;
      adapted := None;
    }

    /** `CallableAdapter.new(name, block)`: a new object that always has `on_event`. */
    constructor CallableAdapter(name: string, block: Block)
      ensures respondsToOnEvent && adapted == Some((name, block))
    {
      respondsToOnEvent := true;
      adapted := Some((name, block));
    }
  }

  /** The errors the registry raises; `ArgumentError` is `on` called without a block. */
  datatype PublisherError =
    | ListenerAlreadyRegisteredError(listener: Listener)
    | ListenerNotRegisteredError(listener: Listener)
    | NoEventHandlerError(listener: Listener)
    | ArgumentError

  /** The registry invariant: no listener appears twice. */
  predicate NoDuplicates<T(==)>(s: seq<T>) {
    forall i, j :: 0 <= i < j < |s| ==> s[i] != s[j]
  }

  /** The registry invariant kept by the guard in `subscribe`: every listener has `on_event`. */
  predicate AllHandleEvents(s: seq<Listener>) {
    forall l :: l in s ==> l.respondsToOnEvent
  }

  lemma AppendFreshKeepsNoDuplicates<T>(s: seq<T>, x: T)
    requires NoDuplicates(s) && x !in s
    ensures NoDuplicates(s + [x])
  {
  }

  /** `Array#delete`: drops every element equal to `x`, keeping the others in order. */
  function Delete<T(==)>(s: seq<T>, x: T): (r: seq<T>)
    ensures forall y :: y in r ==> y in s && y != x
    ensures forall y :: y in s && y != x ==> y in r
    ensures |r| <= |s|
    ensures x !in s ==> r == s
    ensures NoDuplicates(s) ==> NoDuplicates(r)
  {
    if s == [] then []
    else if s[0] == x then Delete(s[1..], x)
    else
      var rest := Delete(s[1..], x);
      assert NoDuplicates(s) ==> s[0] !in s[1..] && NoDuplicates(s[1..]) by {
        if NoDuplicates(s) {
          forall k | 0 <= k < |s[1..]| ensures s[1..][k] != s[0] {
            assert s[1..][k] == s[k + 1];
          }
        }
      }
      assert NoDuplicates(s) ==> s[0] !in rest;
      [s[0]] + rest
  }

  /**
   * On a duplicate-free sequence, deleting the element at position `i`
   * removes exactly that position: every other element keeps its place in
   * the order.
   */
  lemma {:induction false} DeleteAt<T>(s: seq<T>, i: nat)
    requires NoDuplicates(s) && i < |s|
    ensures Delete(s, s[i]) == s[..i] + s[i + 1..]
  {
    if i == 0 {
      assert s[0] !in s[1..] by {
        forall k | 0 <= k < |s[1..]| ensures s[1..][k] != s[0] {
          assert s[1..][k] == s[k + 1];
        }
      }
    } else {
      assert s[0] != s[i];
      DeleteAt(s[1..], i - 1);
      assert s[1..][i - 1] == s[i];
      assert s[1..][..i - 1] + s[1..][i..] == s[1..i] + s[i + 1..];
      assert s[..i] + s[i + 1..] == [s[0]] + (s[1..i] + s[i + 1..]);
    }
  }

  /** Unsubscribing a listener just subscribed restores the registry it was added to. */
  lemma {:induction false} DeleteUndoesAppend<T>(s: seq<T>, x: T)
    requires x !in s
    ensures Delete(s + [x], x) == s
  {
    if s == [] {
      assert [x][1..] == [];
    } else {
      assert (s + [x])[1..] == s[1..] + [x];
      DeleteUndoesAppend(s[1..], x);
      assert s == [s[0]] + s[1..];
    }
  }

  /** A duplicate-free sequence holds each element exactly once. */
  lemma {:induction false} DistinctOccursOnce<T>(s: seq<T>, x: T)
    requires NoDuplicates(s)
    ensures multiset(s)[x] == if x in s then 1 else 0
  {
    if s != [] {
      var n := |s| - 1;
      assert s == s[..n] + [s[n]];
      assert NoDuplicates(s[..n]) by {
        forall i, j | 0 <= i < j < |s[..n]| ensures s[..n][i] != s[..n][j] {
          assert s[..n][i] == s[i] && s[..n][j] == s[j];
        }
      }
      DistinctOccursOnce(s[..n], x);
      assert s[n] !in s[..n] by {
        forall k | 0 <= k < n ensures s[..n][k] != s[n] {
          assert s[..n][k] == s[k];
        }
      }
      assert multiset(s) == multiset(s[..n]) + multiset{s[n]};
      assert x in s <==> x in s[..n] || x == s[n];
    }
  }

  /** One call `listener.on_event(name, payload)` made by `broadcast`. */
  datatype Delivery<P> = Delivery(listener: Listener, name: string, payload: P)

  /**
   * The calls `broadcast(name, payload)` makes for the listeners in
   * `snapshot`: one per listener, the k-th to the k-th registered listener,
   * each with the broadcast's own name and payload.
   */
  function Deliveries<P>(snapshot: seq<Listener>, name: string, payload: P): (r: seq<Delivery<P>>)
    ensures |r| == |snapshot|
    ensures forall k :: 0 <= k < |snapshot| ==> r[k] == Delivery(snapshot[k], name, payload)
  {
    if snapshot == [] then []
    else
      var n := |snapshot| - 1;
      Deliveries(snapshot[..n], name, payload) + [Delivery(snapshot[n], name, payload)]
  }

  /** The listeners called, in call order. */
  function Recipients<P>(ds: seq<Delivery<P>>): (r: seq<Listener>)
  {
    seq(|ds|, k requires 0 <= k < |ds| => ds[k].listener)
  }

  /**
   * On a duplicate-free registry, `broadcast` calls every listener present
   * when it starts exactly once, and no other object at all.
   */
  lemma BroadcastReachesEachOnce<P>(snapshot: seq<Listener>, name: string, payload: P, l: Listener)
    requires NoDuplicates(snapshot)
    ensures multiset(Recipients(Deliveries(snapshot, name, payload)))[l] == if l in snapshot then 1 else 0
  {
    var ds := Deliveries(snapshot, name, payload);
    assert Recipients(ds) == snapshot by {
      forall k | 0 <= k < |snapshot| ensures Recipients(ds)[k] == snapshot[k] {
        assert ds[k] == Delivery(snapshot[k], name, payload);
      }
    }
    DistinctOccursOnce(snapshot, l);
  }

  /**
   * What a listener does to the publisher from inside its `on_event`: one
   * call of a public registry method (whose error, if any, the listener
   * rescues), or nothing.
   */
  datatype Reaction =
    | Ignore
    | SubscribeListener(listener: Listener)
    | UnsubscribeListener(listener: Listener)
    | UnsubscribeEveryone

  /** The registry after a reaction, as `subscribe`, `unsubscribe` and `unsubscribe_all` leave it. */
  function ApplyReaction(s: seq<Listener>, rx: Reaction): (r: seq<Listener>)
    ensures NoDuplicates(s) ==> NoDuplicates(r)
    ensures AllHandleEvents(s) ==> AllHandleEvents(r)
  {
    match rx
    case Ignore => s
    case SubscribeListener(l) =>
      if l !in s && l.respondsToOnEvent then
        if NoDuplicates(s) then AppendFreshKeepsNoDuplicates(s, l); s + [l]
        else s + [l]
      else s
    case UnsubscribeListener(l) => Delete(s, l)
    case UnsubscribeEveryone => []
  }

  /**
   * The registry after the listeners in `called`, in order, have each reacted
   * to the event, starting from `start`.
   */
  function AfterReactions<P>(start: seq<Listener>, called: seq<Listener>, name: string, payload: P,
                             react: (Listener, string, P) -> Reaction): (r: seq<Listener>)
    ensures NoDuplicates(start) ==> NoDuplicates(r)
    ensures AllHandleEvents(start) ==> AllHandleEvents(r)
  {
    if called == [] then start
    else
      var n := |called| - 1;
      ApplyReaction(AfterReactions(start, called[..n], name, payload, react), react(called[n], name, payload))
  }

  /**
   * A listener that unsubscribes itself when called, and that no called
   * listener subscribes again, is gone from the registry once the broadcast
   * is over, so no later broadcast reaches it.
   */
  lemma {:induction false} LeaverGone<P>(start: seq<Listener>, called: seq<Listener>, name: string, payload: P,
                                         react: (Listener, string, P) -> Reaction, me: Listener)
    requires me in called
    requires react(me, name, payload) == UnsubscribeListener(me)
    requires forall l :: l in called ==> react(l, name, payload) != SubscribeListener(me)
    ensures me !in AfterReactions(start, called, name, payload, react)
  {
    var n := |called| - 1;
    if called[n] != me {
      assert me in called[..n] by {
        var k :| 0 <= k < |called| && called[k] == me;
        assert called[..n][k] == me;
      }
      forall l | l in called[..n] ensures react(l, name, payload) != SubscribeListener(me) {
        assert l in called;
      }
      LeaverGone(start, called[..n], name, payload, react, me);
    }
  }

  /** A publisher: the object that includes `WisperNext.publisher`. */
  class Publisher {
    /** `@subscribers`: `None` until the `subscribers` reader first creates it. */
    var store: Option<seq<Listener>>

    /** The registered listeners, in registration order. */
    function Listeners(): (r: seq<Listener>)
      reads this
    {
      store.GetOr([])
    }

    ghost predicate Valid()
      reads this
    {
      NoDuplicates(Listeners()) && AllHandleEvents(Listeners())
    }

    constructor ()
      ensures store == None && Listeners() == [] && Valid()
    {
      store := None;
    }

    /** `subscribers`: `@subscribers ||= []`. */
    method FetchSubscribers() returns (s: seq<Listener>)
      modifies this
      ensures s == Listeners() == old(Listeners())
      ensures store == Some(s)
    {
      if store.None? {
        store := Some([]);
      }
      s := store.value;
    }

    /** `subscribed?(listener)`: membership, with no change to the registry. */
    method IsSubscribed(l: Listener) returns (b: bool)
      modifies this
      ensures b <==> l in Listeners()
      ensures Listeners() == old(Listeners()) && store == Some(Listeners())
    {
      var s := FetchSubscribers();
      b := l in s;
    }

    /**
     * `subscribe(listener)`: rejects a listener already registered, then one
     * without `on_event`; otherwise appends it and returns self.
     */
    method Subscribe(l: Listener) returns (r: Result<Publisher, PublisherError>)
      requires Valid()
      modifies this
      ensures Valid() && store == Some(Listeners())
      ensures l in old(Listeners()) ==> r == Failure(ListenerAlreadyRegisteredError(l))
      ensures l !in old(Listeners()) && !l.respondsToOnEvent ==> r == Failure(NoEventHandlerError(l))
      ensures l !in old(Listeners()) && l.respondsToOnEvent ==> r == Success(this)
      ensures Listeners() == if r.Success? then old(Listeners()) + [l] else old(Listeners())
      ensures r.Success? ==> l in Listeners()
    {
      var already := IsSubscribed(l);
      if already {
        return Failure(ListenerAlreadyRegisteredError(l));
      }
      if !l.respondsToOnEvent {
        return Failure(NoEventHandlerError(l));
      }
      var s := FetchSubscribers();
      AppendFreshKeepsNoDuplicates(s, l);
      store := Some(s + [l]);
      r := Success(this);
    }

    /**
     * `unsubscribe(listener)`: rejects a listener not registered; otherwise
     * deletes it, keeping the others in order, and returns self.
     */
    method Unsubscribe(l: Listener) returns (r: Result<Publisher, PublisherError>)
      requires Valid()
      modifies this
      ensures Valid() && store == Some(Listeners())
      ensures l !in old(Listeners()) ==> r == Failure(ListenerNotRegisteredError(l)) && Listeners() == old(Listeners())
      ensures l in old(Listeners()) ==> r == Success(this) && Listeners() == Delete(old(Listeners()), l)
      ensures l !in Listeners()
    {
      var registered := IsSubscribed(l);
      if !registered {
        return Failure(ListenerNotRegisteredError(l));
      }
      var s := FetchSubscribers();
      store := Some(Delete(s, l));
      r := Success(this);
    }

    /** `unsubscribe_all`: empties the registry and returns self. */
    method UnsubscribeAll() returns (r: Publisher)
      modifies this
      ensures Valid() && r == this
      ensures Listeners() == [] && store == Some([])
    {
      var _ := FetchSubscribers();
      store := Some([]);
      r := this;
    }

    /**
     * `on(name, &block)`: without a block raises `ArgumentError` before
     * touching the registry; otherwise subscribes a new `CallableAdapter`
     * for the block, which always succeeds, and returns self.
     */
    method On(name: string, block: Option<Block>) returns (r: Result<Publisher, PublisherError>)
      requires Valid()
      modifies this
      ensures Valid()
      ensures block.None? ==> r == Failure(ArgumentError) && store == old(store)
      ensures block.Some? ==>
                && r == Success(this)
                && store == Some(Listeners())
                && |Listeners()| == |old(Listeners())| + 1
                && Listeners()[..|old(Listeners())|] == old(Listeners())
                && fresh(Listeners()[|old(Listeners())|])
                && Listeners()[|old(Listeners())|].adapted == Some((name, block.value))
    {
      if block.None? {
        return Failure(ArgumentError);
      }
      var adapter := new Listener.CallableAdapter(name, block.value);
      var _ := Subscribe(adapter);
      r := Success(this);
    }

    /**
     * `broadcast(name, payload)`: takes a copy of the registry, then calls
     * `on_event(name, payload)` on each copied listener in order. Each
     * listener may react by changing the registry; the copy still decides
     * who is called. Returns self and the calls made.
     */
    method Broadcast<P>(name: string, payload: P, react: (Listener, string, P) -> Reaction)
      returns (r: Publisher, delivered: seq<Delivery<P>>)
      requires Valid()
      modifies this
      ensures Valid() && r == this && store.Some?
      ensures delivered == Deliveries(old(Listeners()), name, payload)
      ensures forall d :: d in delivered ==> d.listener.respondsToOnEvent
      ensures Listeners() == AfterReactions(old(Listeners()), old(Listeners()), name, payload, react)
    {
      var current := FetchSubscribers();
      var snapshot := current;
      delivered := [];
      var i := 0;
      while i < |snapshot|
        invariant 0 <= i <= |snapshot|
        invariant Valid() && store.Some?
        invariant delivered == Deliveries(snapshot[..i], name, payload)
        invariant Listeners() == AfterReactions(snapshot, snapshot[..i], name, payload, react)
      {
        var s := snapshot[i];
        assert snapshot[..i + 1][..i] == snapshot[..i];
        delivered := delivered + [Delivery(s, name, payload)];
        match react(s, name, payload) {
          case Ignore =>
          case SubscribeListener(l) =>
            var _ := Subscribe(l);
          case UnsubscribeListener(l) =>
            var _ := Unsubscribe(l);
          case UnsubscribeEveryone =>
            var _ := UnsubscribeAll();
        }
        i := i + 1;
      }
      assert snapshot[..i] == snapshot;
      r := this;
    }
  }

  /** The `subscribe`/`unsubscribe` unit examples, including the two `subscribe` errors. */
  method RegistryExamples()
  {
    var p := new Publisher();
    var a := new Listener(true);
    var r := p.Subscribe(a);
    assert r == Success(p) && p.Listeners() == [a];
    r := p.Subscribe(a);
    assert r == Failure(ListenerAlreadyRegisteredError(a));
    var mute := new Listener(false);
    r := p.Subscribe(mute);
    assert r == Failure(NoEventHandlerError(mute));
    r := p.Unsubscribe(a);
    assert r == Success(p) && p.Listeners() == [];
    r := p.Unsubscribe(a);
    assert r == Failure(ListenerNotRegisteredError(a));
    var cleared := p.UnsubscribeAll();
    assert cleared == p;
    cleared := p.UnsubscribeAll();
    assert cleared == p && p.Listeners() == [];
  }

  /** The reaction of a listener `me` that unsubscribes itself whenever it is called. */
  function LeaveWhenCalled<P>(me: Listener): (r: (Listener, string, P) -> Reaction)
  {
    (l: Listener, n: string, x: P) => if l == me then UnsubscribeListener(me) else Ignore
  }

  /**
   * A listener that unsubscribes itself while being called still gets that
   * call, in registration order, and is gone from the registry afterwards.
   */
  lemma SelfUnsubscribeExample<P>(a: Listener, b: Listener, name: string, payload: P)
    requires a != b
    ensures Deliveries([a, b], name, payload) == [Delivery(a, name, payload), Delivery(b, name, payload)]
    ensures AfterReactions([a, b], [a, b], name, payload, LeaveWhenCalled(a)) == [b]
    ensures Deliveries([b], name, payload) == [Delivery(b, name, payload)]
  {
    assert [a, b][..1] == [a] && [a][..0] == [] && [b][..0] == [];
    assert Deliveries([a], name, payload) == [Delivery(a, name, payload)];
    assert Deliveries([b], name, payload) == [Delivery(b, name, payload)];
    assert Deliveries([a, b], name, payload) == Deliveries([a], name, payload) + [Delivery(b, name, payload)];
    DeleteAt([a, b], 0);
    var react := LeaveWhenCalled<P>(a);
    assert react(a, name, payload) == UnsubscribeListener(a);
    assert react(b, name, payload) == Ignore;
    assert AfterReactions([a, b], [a], name, payload, react) == Delete([a, b], a);
  }

  /**
   * Broadcasting to two listeners, the first of which leaves while being
   * called: each gets `on_event` with the broadcast's name and payload, and
   * `broadcast` returns self.
   */
  method BroadcastExamples()
  {
    var p := new Publisher();
    var a := new Listener(true);
    var b := new Listener(true);
    var _ := p.Subscribe(a);
    var _ := p.Subscribe(b);
    assert p.Listeners() == [a, b];
    SelfUnsubscribeExample(a, b, "evt", 42);
    var leave := LeaveWhenCalled<int>(a);
    var r, ds := p.Broadcast("evt", 42, leave);
    assert r == p;
    assert ds == [Delivery(a, "evt", 42), Delivery(b, "evt", 42)];
    assert p.Listeners() == [b];
    var r2, ds2 := p.Broadcast("evt", 42, leave);
    assert r2 == p;
    assert ds2 == [Delivery(b, "evt", 42)];
  }
}
