/**
 The listener container of one event. Its list changes under a lock, but the callback that switches
 the native side on or off runs after the lock is released, so callbacks of different threads can
 overtake each other.
 */
module Listeners {
  import opened Bytes

  // ---- One lock section ----------------------------------------------------------------

  datatype Op<T> = Register(listener: T) | Deregister(listener: T) | DeregisterAll | Close

  datatype Contents<T> = Contents(listeners: seq<T>, closed: bool)

  /** What a lock section leaves behind: the contents, and the callback to issue after unlocking. */
  datatype Section<T> = Section(after: Contents<T>, edge: Option<bool>)

  /** Position of the first listener equal to `x`, or the length. */
  function Position<T(==)>(s: seq<T>, x: T): (k: nat)
    ensures k <= |s| && (k < |s| <==> x in s)
    ensures (k < |s| ==> s[k] == x) && x !in s[..k]
  {
    if s == [] || s[0] == x then 0
    else
      var k := Position(s[1..], x);
      assert s == [s[0]] + s[1..] && s[..k + 1] == [s[0]] + s[1..][..k];
      k + 1
  }

  /** The list without its first occurrence of `x`. */
  function Without<T(==)>(s: seq<T>, x: T): seq<T> {
    var k := Position(s, x);
    if k == |s| then s else s[..k] + s[k + 1..]
  }

  function Locked<T(==)>(c: Contents<T>, op: Op<T>): Section<T> {
    match op
    case Register(x) =>
      if c.closed then Section(c, None)
      else Section(c.(listeners := c.listeners + [x]), if c.listeners == [] then Some(true) else None)
    case Deregister(x) =>
      if x !in c.listeners then Section(c, None)
      else
        var left := Without(c.listeners, x);
        Section(c.(listeners := left), if left == [] then Some(false) else None)
    case DeregisterAll =>
      if c.closed then Section(c, None)
      else Section(c.(listeners := []), if c.listeners != [] then Some(false) else None)
    case Close =>
      if c.closed then Section(c, None)
      else Section(Contents([], true), if c.listeners != [] then Some(false) else None)
  }

  ghost predicate ContentsOk<T>(c: Contents<T>) { c.closed ==> c.listeners == [] }

  /** A section issues a callback exactly when it makes the list empty or non-empty, and tells which. */
  lemma EdgeIsTransition<T>(c: Contents<T>, op: Op<T>)
    requires ContentsOk(c)
    ensures var s := Locked(c, op);
            && ContentsOk(s.after) && (c.closed ==> s.after == c)
            && s.edge == if (c.listeners == []) == (s.after.listeners == []) then None
                         else Some(s.after.listeners != [])
  {
  }

  // ---- All interleavings ---------------------------------------------------------------

  /**
   `issued` lists the callbacks in the order of their lock sections. `pending` holds the positions
   of those not yet run, and `native` is what the last callback that ran told the native side.
   */
  datatype State<T> =
    State(contents: Contents<T>, issued: seq<bool>, pending: seq<nat>, delivered: seq<nat>, native: bool)

  /** A lock section of some thread, or the callback of a thread that has left its section. */
  datatype Event<T> = Lock(op: Op<T>) | Deliver(which: nat)

  function Apply<T(==)>(s: State<T>, e: Event<T>): State<T> {
    match e
    case Lock(op) =>
      var section := Locked(s.contents, op);
      if section.edge == None then s.(contents := section.after)
      else s.(contents := section.after, issued := s.issued + [section.edge.value], pending := s.pending + [|s.issued|])
    case Deliver(which) =>
      if which >= |s.pending| || s.pending[which] >= |s.issued| then s
      else
        var edge := s.pending[which];
        s.(pending := s.pending[..which] + s.pending[which + 1..],
           delivered := s.delivered + [edge], native := s.issued[edge])
  }

  function Start<T>(): State<T> { State(Contents([], false), [], [], [], false) }

  function Run<T(==)>(events: seq<Event<T>>): State<T> {
    if events == [] then Start() else Apply(Run(events[..|events| - 1]), events[|events| - 1])
  }

  /** Trues minus falses. */
  function Balance(edges: seq<bool>): int {
    if edges == [] then 0 else Balance(edges[..|edges| - 1]) + if edges[|edges| - 1] then 1 else -1
  }

  ghost predicate Alternating(edges: seq<bool>) {
    forall i :: 0 <= i < |edges| ==> edges[i] == (i % 2 == 0)
  }

  /** The positions of the first `n` callbacks, once each. */
  ghost function Upto(n: nat): (all: multiset<nat>)
    ensures |all| == n && forall k: nat :: all[k] == if k < n then 1 else 0
  {
    if n == 0 then multiset{} else Upto(n - 1) + multiset{n - 1}
  }

  /** Every issued callback is pending or was delivered, once; the last delivered one set the flag. */
  ghost predicate Accounted<T>(s: State<T>) {
    && multiset(s.pending) + multiset(s.delivered) == Upto(|s.issued|)
    && (s.delivered == [] ==> !s.native)
    && (s.delivered != [] ==>
          var last := s.delivered[|s.delivered| - 1]; last < |s.issued| && s.native == s.issued[last])
  }

  ghost predicate Invariant<T>(s: State<T>) {
    && ContentsOk(s.contents)
    && Alternating(s.issued)
    && (|s.issued| % 2 == 1 <==> s.contents.listeners != [])
    && Accounted(s)
  }

  lemma Taken(pending: seq<nat>, which: nat)
    requires which < |pending|
    ensures multiset(pending) == multiset(pending[..which] + pending[which + 1..]) + multiset{pending[which]}
  {
    assert pending == pending[..which] + [pending[which]] + pending[which + 1..];
  }

  lemma Added(pending: seq<nat>, delivered: seq<nat>, n: nat)
    requires multiset(pending) + multiset(delivered) == Upto(n)
    ensures multiset(pending + [n]) + multiset(delivered) == Upto(n + 1)
  {
    assert multiset(pending + [n]) == multiset(pending) + multiset{n};
  }

  lemma AccountedIssue<T>(s: State<T>, op: Op<T>)
    requires Accounted(s)
    ensures Accounted(Apply(s, Lock(op)))
  {
    hide Locked, Upto;
    Added(s.pending, s.delivered, |s.issued|);
  }

  lemma AccountedDeliver<T>(s: State<T>, which: nat)
    requires Accounted(s)
    ensures Accounted(Apply(s, Deliver(which)))
  {
    hide Locked, Upto;
    if which < |s.pending| {
      var edge := s.pending[which];
      Taken(s.pending, which);
      assert multiset(s.delivered + [edge]) == multiset(s.delivered) + multiset{edge};
    }
  }

  lemma InvariantStep<T>(s: State<T>, e: Event<T>)
    requires Invariant(s)
    ensures Invariant(Apply(s, e))
    ensures s.contents.closed ==> Apply(s, e).contents == s.contents
  {
    hide Accounted, Locked;
    match e {
      case Lock(op) => AccountedIssue(s, op); EdgeIsTransition(s.contents, op);
      case Deliver(which) => AccountedDeliver(s, which);
    }
  }

  lemma {:induction false} RunInvariant<T>(events: seq<Event<T>>)
    ensures Invariant(Run(events))
  {
    if events == [] {
    } else {
      RunInvariant(events[..|events| - 1]);
      InvariantStep(Run(events[..|events| - 1]), events[|events| - 1]);
    }
  }

  lemma {:induction false} AlternatingBalance(edges: seq<bool>)
    requires Alternating(edges)
    ensures Balance(edges) == |edges| % 2
  {
    if edges != [] { AlternatingBalance(edges[..|edges| - 1]); }
  }

  /**
   In every interleaving the issued callbacks alternate, starting with true, and trues exceed falses
   by one exactly while there are listeners. Each is delivered at most once, and a closed container
   stays closed and empty.
   */
  lemma EdgeConservation<T>(events: seq<Event<T>>, more: seq<Event<T>>)
    ensures var s := Run(events);
            && Alternating(s.issued)
            && Balance(s.issued) == (if s.contents.listeners == [] then 0 else 1)
            && multiset(s.pending) + multiset(s.delivered) == Upto(|s.issued|)
    ensures Run(events).contents.closed ==> Run(events + more).contents == Contents([], true)
  {
    RunInvariant(events);
    AlternatingBalance(Run(events).issued);
    if Run(events).contents.closed { StaysClosed(events, more); }
  }

  lemma {:induction false} StaysClosed<T>(events: seq<Event<T>>, more: seq<Event<T>>)
    requires Run(events).contents.closed
    ensures Run(events + more).contents == Contents([], true)
    decreases |more|
  {
    hide Apply, Accounted;
    var all := events + more;
    RunInvariant(events);
    if more == [] {
      assert all == events;
    } else {
      assert all[..|all| - 1] == events + more[..|more| - 1];
      StaysClosed(events, more[..|more| - 1]);
      RunInvariant(all[..|all| - 1]);
      InvariantStep(Run(all[..|all| - 1]), all[|all| - 1]);
    }
  }

  // ---- Agreement of the native flag ----------------------------------------------------

  /** Every callback runs before any that was issued after it. */
  predicate InOrder<T>(events: seq<Event<T>>) {
    forall i :: 0 <= i < |events| && events[i].Deliver? ==> events[i].which == 0
  }

  function Ascending(n: nat): seq<nat> { seq(n, i => i) }

  lemma QueueTake(delivered: seq<nat>, pending: seq<nat>, n: nat)
    requires delivered + pending == Ascending(n) && pending != []
    ensures pending[0] < n && delivered + [pending[0]] + pending[1..] == Ascending(n)
  {
    assert (delivered + pending)[|delivered|] == pending[0];
    assert delivered + [pending[0]] + pending[1..] == delivered + pending;
  }

  lemma {:induction false} InOrderQueue<T>(events: seq<Event<T>>)
    requires InOrder(events)
    ensures var s := Run(events); s.delivered + s.pending == Ascending(|s.issued|)
  {
    hide Locked;
    if events != [] {
      var init, e := events[..|events| - 1], events[|events| - 1];
      InOrderQueue(init);
      var s := Run(init);
      if e.Lock? {
        assert s.delivered + (s.pending + [|s.issued|]) == (s.delivered + s.pending) + [|s.issued|];
      } else if s.pending != [] {
        QueueTake(s.delivered, s.pending, |s.issued|);
      }
    }
  }

  ghost predicate Agrees<T>(s: State<T>) { s.native <==> s.contents.listeners != [] }

  /** At quiescence every position from 0 to `n` was delivered, so those after the last delivered one came before it. */
  lemma Overtaken<T>(s: State<T>, n: nat)
    requires Accounted(s) && s.pending == [] && |s.issued| == n + 1
    ensures |s.delivered| == n + 1 && s.delivered[n] <= n
    ensures forall k: nat :: s.delivered[n] < k <= n ==> k in s.delivered[..n]
  {
    assert |multiset(s.pending)| == 0;
    assert |s.delivered| == |multiset(s.delivered)| == |Upto(|s.issued|)|;
    forall k: nat | s.delivered[n] < k <= n ensures k in s.delivered[..n] {
      assert Upto(|s.issued|)[k] == multiset(s.pending)[k] + multiset(s.delivered)[k] == 1;
      assert k in multiset(s.delivered);
      assert s.delivered == s.delivered[..n] + [s.delivered[n]];
    }
  }

  /**
   When nothing is pending, the callbacks issued after the one that ran last have all overtaken it, and
   the native side agrees with the list exactly if their number is even. It agrees too if there was none.
   */
  lemma FlagAgreesIff<T>(events: seq<Event<T>>)
    requires Run(events).pending == []
    ensures var s := Run(events);
            && |s.delivered| == |s.issued|
            && if s.issued == [] then Agrees(s)
               else
                 var n, last := |s.issued| - 1, s.delivered[|s.issued| - 1];
                 && last <= n && (forall k: nat :: last < k <= n ==> k in s.delivered[..n])
                 && (Agrees(s) <==> (n - last) % 2 == 0)
  {
    hide Run, Apply;
    var s := Run(events);
    RunInvariant(events);
    if s.issued == [] {
      assert |s.delivered| == |multiset(s.delivered)| <= |Upto(0)|;
    } else {
      Overtaken(s, |s.issued| - 1);
    }
  }

  /** In particular it agrees whenever callbacks run in the order they were issued, as in every sequential run. */
  lemma FlagAgreesInOrder<T>(events: seq<Event<T>>)
    requires InOrder(events) && Run(events).pending == []
    ensures Agrees(Run(events))
  {
    hide Run, Apply;
    InOrderQueue(events);
    FlagAgreesIff(events);
    assert Run(events).delivered + [] == Run(events).delivered;
  }

  lemma RunMore<T>(events: seq<Event<T>>, e: Event<T>)
    ensures Run(events + [e]) == Apply(Run(events), e)
  {
    var all := events + [e];
    assert all[..|all| - 1] == events;
  }

  /** Two threads whose callbacks overtake each other leave the native side switched on for nobody. */
  lemma OvertakingDisagrees()
    ensures var s := Run(([] + [Lock(Register(0))] + [Lock(Deregister(0))]) + [Deliver(1)] + [Deliver(0)]);
            s.pending == [] && s.contents.listeners == [] && s.native
  {
    var none: seq<Event<int>> := [];
    var e0, e1, e2, e3 := Lock(Register(0)), Lock(Deregister(0)), Deliver(1), Deliver(0);
    RunMore(none, e0);
    RunMore(none + [e0], e1);
    RunMore(none + [e0] + [e1], e2);
    RunMore(none + [e0] + [e1] + [e2], e3);
    var registered := State(Contents([0], false), [true], [0], [], false);
    assert Run(none + [e0]) == registered;
    var both := State(Contents([], false), [true, false], [0, 1], [], false);
    assert Apply(registered, e1) == both;
    var overtaken := State(Contents([], false), [true, false], [0], [1], false);
    assert Apply(both, e2) == overtaken;
    assert Apply(overtaken, e3) == State(Contents([], false), [true, false], [], [1, 0], true);
  }

  // ---- The container -------------------------------------------------------------------

  /** One thread's view: every method runs its lock section and then its callback. */
  class EventListenerContainer<T(==)> {
    var listeners: seq<T>
    var closed: bool
    var callbacks: seq<bool>

    ghost function View(): Contents<T> reads this { Contents(listeners, closed) }

    /** The last callback, and so the native side, always tells whether there are listeners. */
    ghost predicate Valid() reads this {
      && ContentsOk(View()) && Alternating(callbacks)
      && (|callbacks| % 2 == 1 <==> listeners != [])
    }

    /** The effect of one operation on the state `before`, with callbacks `told`. */
    ghost predicate Performed(before: Contents<T>, told: seq<bool>, op: Op<T>) reads this {
      && View() == Locked(before, op).after
      && callbacks == told + (if Locked(before, op).edge == None then [] else [Locked(before, op).edge.value])
    }

    constructor ()
      ensures Valid() && View() == Contents([], false) && callbacks == []
    {
      listeners, closed, callbacks := [], false, [];
    }

    /** False stands for the IllegalStateException of a closed container. */
    method Register(listener: T) returns (accepted: bool)
      requires Valid()
      modifies this
      ensures Valid() && Performed(old(View()), old(callbacks), Op.Register(listener))
      ensures accepted == !old(closed)
      ensures listeners == old(listeners) + if old(closed) then [] else [listener]
    {
      if closed { return false; }
      var wasEmpty := listeners == [];
      listeners := listeners + [listener];
      if wasEmpty { callbacks := callbacks + [true]; }
      return true;
    }

    method Deregister(listener: T) returns (removed: bool)
      requires Valid()
      modifies this
      ensures Valid() && Performed(old(View()), old(callbacks), Op.Deregister(listener))
      ensures removed <==> listener in old(listeners)
      ensures removed ==> exists k | 0 <= k < |old(listeners)| ::
                listener !in old(listeners)[..k] && old(listeners)[k] == listener
                && listeners == old(listeners)[..k] + old(listeners)[k + 1..]
      ensures !removed ==> listeners == old(listeners)
    {
      var k := Position(listeners, listener);
      if k == |listeners| { return false; }
      listeners := listeners[..k] + listeners[k + 1..];
      var isNowEmpty := listeners == [];
      if isNowEmpty { callbacks := callbacks + [false]; }
      return true;
    }

    method InternalDeregisterAll() returns (trigger: bool)
      modifies this`listeners
      ensures listeners == (if closed then old(listeners) else [])
      ensures trigger <==> !closed && old(listeners) != []
    {
      if closed { return false; }
      trigger := listeners != [];
      listeners := [];
    }

    method DeregisterAll()
      requires Valid()
      modifies this
      ensures Valid() && Performed(old(View()), old(callbacks), Op.DeregisterAll)
      ensures listeners == [] && closed == old(closed)
    {
      var trigger := InternalDeregisterAll();
      if trigger { callbacks := callbacks + [false]; }
    }

    method Close()
      requires Valid()
      modifies this
      ensures Valid() && Performed(old(View()), old(callbacks), Op.Close) && closed && listeners == []
    {
      if closed { return; }
      var trigger := InternalDeregisterAll();
      closed := true;
      if trigger { callbacks := callbacks + [false]; }
    }

    /** A listener may use the container it is called from in any way, and may throw. */
    method CallListener(listener: T) returns (threw: bool)
      requires Valid()
      modifies this
      ensures Valid() && (old(closed) ==> closed)
    {
      var script: seq<Op<T>> := *;
      for k := 0 to |script|
        invariant Valid() && (old(closed) ==> closed)
      {
        match script[k] {
          case Register(x) => var accepted := Register(x);
          case Deregister(x) => var removed := Deregister(x);
          case DeregisterAll => DeregisterAll();
          case Close => Close();
        }
      }
      threw := *;
    }

    /** Every listener present at the start is called once, in order, whatever the listeners do. */
    method Invoke() returns (called: seq<T>)
      requires Valid()
      modifies this
      ensures Valid() && called == if old(closed) then [] else old(listeners)
    {
      called := [];
      if closed { return; }
      var snapshot := listeners;
      for k := 0 to |snapshot|
        invariant Valid() && called == snapshot[..k]
      {
        called := called + [snapshot[k]];
        var threw := CallListener(snapshot[k]);
      }
    }
  }
}
