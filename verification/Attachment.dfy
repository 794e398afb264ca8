/**
 Which threads this library attached to the JVM, and which of them it detaches: the two ways of
 tracking them, loading and unloading, over every order of events.
 */
module Attachment {
  import opened Bytes

  // ---- State ---------------------------------------------------------------------------

  /** Who attached a thread to the JVM: nobody, this library, or Java and other native callers. */
  datatype Owner = Detached | Library | Foreign

  /** A heap record of thread_attachment.cpp with the thread that made it. */
  datatype Entry = Entry(id: nat, owner: nat)

  /** The fiber-local slot of one thread under one key. */
  datatype Cell = Cell(key: nat, thread: nat)

  /** What the library keeps per thread: a thread-local object, or a heap record in a fiber-local slot. */
  datatype Tracking =
    | ThreadLocal(holders: set<nat>)
    | FiberLocal(key: Option<nat>, keys: set<nat>, slots: map<Cell, Entry>, created: nat, deleted: multiset<nat>)

  /** `detached` lists whose attachment it was each time the library detached a thread. */
  datatype State = State(attached: map<nat, Owner>, detached: seq<Owner>, tracking: Tracking,
                         jvm: bool, loaded: bool, unloading: bool)

  function OwnerOf(s: State, t: nat): Owner { if t in s.attached then s.attached[t] else Detached }

  /** The threads that carry a record. */
  ghost function Holders(k: Tracking): set<nat> {
    match k
    case ThreadLocal(holders) => holders
    case FiberLocal(_, _, slots, _, _) => set c | c in slots :: c.thread
  }

  // ---- Steps ---------------------------------------------------------------------------

  /** What the JVM, the heap and the slot answer when asked. */
  datatype Oracle = Oracle(attaches: bool, allocates: bool, stores: bool)

  datatype Event =
    | Callback(thread: nat, oracle: Oracle)
    | ForeignAttach(thread: nat) | ForeignDetach(thread: nat)
    | Exit(thread: nat)
    | Load(thread: nat, newKey: Option<nat>, oracle: Oracle)
    | BeginUnload
    | FinishUnload(thread: nat, oracle: Oracle)

  function DetachCurrent(s: State, t: nat): State {
    s.(attached := s.attached - {t}, detached := s.detached + [OwnerOf(s, t)])
  }

  /** `register_jni_thread`; the record that cannot be stored is deleted again. */
  function Register(k: Tracking, t: nat, o: Oracle): (Tracking, bool) {
    match k
    case ThreadLocal(holders) => (ThreadLocal(holders + {t}), true)
    case FiberLocal(None, _, _, _, _) => (k, false)
    case FiberLocal(Some(key), _, slots, created, deleted) =>
      if Cell(key, t) in slots then (k, true)
      else if !o.allocates then (k, false)
      else if !o.stores then (k.(created := created + 1, deleted := deleted + multiset{created}), false)
      else (k.(slots := slots[Cell(key, t) := Entry(created, t)], created := created + 1), true)
  }

  /** `get_jni_env_from_jvm` on thread `t`, and whether it got an environment. */
  function GetEnv(s: State, t: nat, o: Oracle): (State, bool) {
    if OwnerOf(s, t) != Detached then (s, true)
    else if !o.attaches then (s, false)
    else
      var (tracking, registered) := Register(s.tracking, t, o);
      var now := s.(attached := s.attached[t := Library], tracking := tracking);
      if registered then (now, true) else (DetachCurrent(now, t), false)
  }

  ghost function Ids(k: Tracking, cells: set<Cell>): set<nat>
    requires k.FiberLocal?
  {
    set c | c in cells && c in k.slots :: k.slots[c].id
  }

  ghost predicate OwnAmong(slots: map<Cell, Entry>, caller: nat, cells: set<Cell>) {
    exists c :: c in cells && c in slots && slots[c].owner == caller
  }

  /** `detach_thread` on thread `caller` for the records of all `cells`: detaches only the caller's own. */
  ghost function RunCallbacks(s: State, caller: nat, cells: set<Cell>): State
    requires s.tracking.FiberLocal?
  {
    var k := s.tracking;
    var after := s.(tracking := k.(slots := k.slots - cells, deleted := k.deleted + multiset(Ids(k, cells))));
    if OwnAmong(k.slots, caller, cells) && OwnerOf(s, caller) != Detached
    then DetachCurrent(after, caller)
    else after
  }

  ghost function CellsOf(k: Tracking, t: nat): set<Cell>
    requires k.FiberLocal?
  {
    set c | c in k.slots && c.thread == t
  }

  ghost function CellsUnder(k: Tracking, key: nat): set<Cell>
    requires k.FiberLocal?
  {
    set c | c in k.slots && c.key == key
  }

  /** The destructors of an exiting thread run, and then the thread is gone. */
  ghost function ExitThread(s: State, t: nat): State {
    var after :=
      match s.tracking
      case ThreadLocal(holders) =>
        var left := s.(tracking := ThreadLocal(holders - {t}));
        if t in holders then DetachCurrent(left, t) else left
      case FiberLocal(_, _, _, _, _) => RunCallbacks(s, t, CellsOf(s.tracking, t));
    after.(attached := after.attached - {t})
  }

  /** `initialize_jni_thread_tracking`; a key that is already allocated cannot be handed out. */
  function Initialize(k: Tracking, newKey: Option<nat>): (Tracking, bool) {
    match k
    case ThreadLocal(_) => (k, true)
    case FiberLocal(key, keys, _, _, _) =>
      if key.Some? then (k, true)
      else if newKey.None? || newKey.value in keys then (k, false)
      else (k.(key := newKey, keys := keys + {newKey.value}), true)
  }

  /** `release_jni_thread_tracking` on thread `caller`. */
  ghost function Release(s: State, caller: nat): State {
    match s.tracking
    case ThreadLocal(_) => s
    case FiberLocal(None, _, _, _, _) => s
    case FiberLocal(Some(key), keys, _, _, _) =>
      RunCallbacks(s.(tracking := s.tracking.(key := None, keys := keys - {key})), caller, CellsUnder(s.tracking, key))
  }

  /** `initialize_jni`. */
  function LoadLibrary(s: State, t: nat, newKey: Option<nat>, o: Oracle): State {
    if s.loaded && s.jvm && !s.unloading then s
    else
      var (tracking, ready) := Initialize(s.tracking, newKey);
      if !ready then s.(tracking := tracking)
      else
        var (now, found) := GetEnv(s.(tracking := tracking, jvm := true, unloading := false), t, o);
        now.(loaded := true)
  }

  ghost function Apply(s: State, e: Event): State {
    match e
    case Callback(t, o) => if !s.jvm || s.unloading then s else GetEnv(s, t, o).0
    case ForeignAttach(t) => if OwnerOf(s, t) == Detached then s.(attached := s.attached[t := Foreign]) else s
    case ForeignDetach(t) => if OwnerOf(s, t) == Foreign then s.(attached := s.attached - {t}) else s
    case Exit(t) => ExitThread(s, t)
    case Load(t, newKey, o) => LoadLibrary(s, t, newKey, o)
    case BeginUnload => s.(unloading := true)
    case FinishUnload(t, o) => Release(GetEnv(s, t, o).0.(jvm := false, loaded := false), t)
  }

  /** No thread is known yet; either back end starts empty. */
  function Start(fiberLocal: bool): State {
    var tracking := if fiberLocal then FiberLocal(None, {}, map[], 0, multiset{}) else ThreadLocal({});
    State(map[], [], tracking, false, false, false)
  }

  ghost function Run(fiberLocal: bool, events: seq<Event>): State {
    if events == [] then Start(fiberLocal) else Apply(Run(fiberLocal, events[..|events| - 1]), events[|events| - 1])
  }

  // ---- What every run keeps ------------------------------------------------------------

  /** At most one key is allocated, and slots exist only under it. */
  ghost predicate KeysOk(k: Tracking) {
    k.FiberLocal? ==>
      && k.keys == (if k.key.None? then {} else {k.key.value})
      && (forall c :: c in k.slots ==> k.key == Some(c.key))
  }

  ghost predicate SlotsOk(slots: map<Cell, Entry>, created: nat) {
    && (forall c :: c in slots ==> slots[c].owner == c.thread && slots[c].id < created)
    && (forall c, d :: c in slots && d in slots && slots[c].id == slots[d].id ==> c == d)
  }

  ghost predicate Held(slots: map<Cell, Entry>, i: nat) { exists c :: c in slots && slots[c].id == i }

  /** A slot holds a record of its own thread, no two share one, and every other record made was deleted once. */
  ghost predicate RecordsOk(k: Tracking) {
    k.FiberLocal? ==>
      && SlotsOk(k.slots, k.created)
      && (forall i: nat :: k.deleted[i] == if i < k.created && !Held(k.slots, i) then 1 else 0)
  }

  /** Records belong to threads the library attached, and it never detached anybody else's. */
  ghost predicate OwnersOk(s: State) {
    && (forall t :: t in Holders(s.tracking) ==> OwnerOf(s, t) == Library)
    && (forall t :: t in s.attached ==> s.attached[t] != Detached)
    && (forall i :: 0 <= i < |s.detached| ==> s.detached[i] == Library)
  }

  ghost predicate Invariant(s: State) { KeysOk(s.tracking) && RecordsOk(s.tracking) && OwnersOk(s) }

  lemma RegisterOk(k: Tracking, t: nat, o: Oracle)
    requires KeysOk(k) && RecordsOk(k)
    ensures var (after, registered) := Register(k, t, o);
            && KeysOk(after) && RecordsOk(after)
            && Holders(after) == (if registered then Holders(k) + {t} else Holders(k))
            && (after.FiberLocal? <==> k.FiberLocal?)
  {
    if k.FiberLocal? && k.key.Some? {
      var cell, entry := Cell(k.key.value, t), Entry(k.created, t);
      var after := Register(k, t, o).0;
      if after.slots != k.slots {
        assert cell !in k.slots;
        forall i: nat ensures Held(after.slots, i) <==> Held(k.slots, i) || i == k.created {
          if Held(k.slots, i) { var c :| c in k.slots && k.slots[c].id == i; assert after.slots[c].id == i; }
          assert after.slots[cell].id == k.created;
        }
      }
    }
  }

  lemma CallbacksOk(s: State, caller: nat, cells: set<Cell>)
    requires s.tracking.FiberLocal? && cells <= s.tracking.slots.Keys
    requires RecordsOk(s.tracking)
    ensures RecordsOk(RunCallbacks(s, caller, cells).tracking)
  {
    var k := s.tracking;
    var left, ids := k.slots - cells, Ids(k, cells);
    forall i: nat
      ensures Held(k.slots, i) <==> Held(left, i) || i in ids
      ensures !(Held(left, i) && i in ids)
    {
      if Held(k.slots, i) {
        var c :| c in k.slots && k.slots[c].id == i;
        if c !in cells { assert c in left && left[c].id == i; }
      }
    }
  }

  /**
   Asking for an environment succeeds exactly if the thread is attached afterwards, so a failed
   registration leaves it detached; it attaches nobody else and changes nothing for attached threads.
   */
  lemma GetEnvOk(s: State, t: nat, o: Oracle)
    requires Invariant(s)
    ensures var (r, found) := GetEnv(s, t, o);
            && Invariant(r) && (r.tracking.FiberLocal? <==> s.tracking.FiberLocal?)
            && (found <==> OwnerOf(r, t) != Detached)
            && (OwnerOf(s, t) != Detached ==> r == s)
            && (OwnerOf(s, t) == Detached && found ==> OwnerOf(r, t) == Library)
            && (forall u :: u != t ==> OwnerOf(r, u) == OwnerOf(s, u))
            && Holders(r.tracking) == Holders(s.tracking) + (if OwnerOf(s, t) == Detached && found then {t} else {})
  {
    hide KeysOk, RecordsOk, Holders, Register;
    RegisterOk(s.tracking, t, o);
  }

  function Flags(s: State): (bool, bool, bool) { (s.jvm, s.loaded, s.unloading) }

  /** The callbacks of cells that hold the caller's record, if any, and records of other threads. */
  lemma CallbacksOwners(s: State, caller: nat, cells: set<Cell>)
    requires s.tracking.FiberLocal? && cells <= s.tracking.slots.Keys
    requires SlotsOk(s.tracking.slots, s.tracking.created) && OwnersOk(s)
    requires CellsOf(s.tracking, caller) <= cells
    ensures var r := RunCallbacks(s, caller, cells);
            && OwnersOk(r) && r.tracking.FiberLocal? && r.tracking.slots == s.tracking.slots - cells
            && r.tracking.key == s.tracking.key && r.tracking.keys == s.tracking.keys && Flags(r) == Flags(s)
            && (caller in Holders(s.tracking) ==>
                  r.attached == s.attached - {caller} && r.detached == s.detached + [Library])
            && (caller !in Holders(s.tracking) ==> r.attached == s.attached && r.detached == s.detached)
  {
    hide RecordsOk;
    var k := s.tracking;
    if caller in Holders(k) {
      var c :| c in k.slots && c.thread == caller;
      assert c in CellsOf(k, caller) && k.slots[c].owner == caller;
    }
    var r := RunCallbacks(s, caller, cells);
    forall t | t in Holders(r.tracking) ensures t in Holders(k) && t != caller {
      var c :| c in r.tracking.slots && c.thread == t;
      assert c !in CellsOf(k, caller);
    }
  }

  /** An exiting thread is detached exactly if it carries a record. */
  lemma ExitOk(s: State, t: nat)
    requires Invariant(s)
    ensures var r := ExitThread(s, t);
            && Invariant(r) && (r.tracking.FiberLocal? <==> s.tracking.FiberLocal?)
            && r.attached == s.attached - {t} && Flags(r) == Flags(s)
            && (s.tracking.FiberLocal? ==> r.tracking.key == s.tracking.key)
            && r.detached == s.detached + (if t in Holders(s.tracking) then [Library] else [])
            && Holders(r.tracking) == Holders(s.tracking) - {t}
  {
    if s.tracking.FiberLocal? {
      hide RunCallbacks;
      var cells := CellsOf(s.tracking, t);
      CallbacksOk(s, t, cells);
      CallbacksOwners(s, t, cells);
    }
  }

  /** Freeing the key deletes every record but detaches only the caller. */
  lemma ReleaseOk(s: State, t: nat)
    requires Invariant(s)
    ensures var r := Release(s, t);
            && Invariant(r) && (r.tracking.FiberLocal? <==> s.tracking.FiberLocal?)
            && (s.tracking.ThreadLocal? ==> r == s)
            && (s.tracking.FiberLocal? ==>
                  && r.tracking.key == None && Holders(r.tracking) == {}
                  && r.attached == (if t in Holders(s.tracking) then s.attached - {t} else s.attached)
                  && r.detached == s.detached + (if t in Holders(s.tracking) then [Library] else []))
  {
    if s.tracking.FiberLocal? && s.tracking.key.Some? {
      hide RunCallbacks;
      var key := s.tracking.key.value;
      var freed := s.(tracking := s.tracking.(key := None, keys := s.tracking.keys - {key}));
      var cells := CellsUnder(s.tracking, key);
      assert cells == s.tracking.slots.Keys;
      CallbacksOk(freed, t, cells);
      CallbacksOwners(freed, t, cells);
    }
  }

  /** How an event may change who attached thread `u`: nothing but a thread's own events touches it. */
  ghost predicate Permitted(e: Event, u: nat, fiberLocal: bool, before: Owner, after: Owner) {
    || before == after
    || (before == Detached && after == Library && (e.Callback? || e.Load? || e.FinishUnload?) && e.thread == u)
    || (before == Detached && after == Foreign && e == ForeignAttach(u))
    || (before == Foreign && after == Detached && (e == ForeignDetach(u) || e == Exit(u)))
    || (before == Library && after == Detached && (e == Exit(u) || (fiberLocal && e.FinishUnload? && e.thread == u)))
  }

  ghost predicate Step(s: State, e: Event, r: State) {
    && Invariant(r) && (r.tracking.FiberLocal? <==> s.tracking.FiberLocal?)
    && (forall u :: Permitted(e, u, s.tracking.FiberLocal?, OwnerOf(s, u), OwnerOf(r, u)))
  }

  lemma InitializeOk(s: State, newKey: Option<nat>)
    requires Invariant(s)
    ensures var k := Initialize(s.tracking, newKey).0;
            && Invariant(s.(tracking := k)) && Invariant(s.(tracking := k, jvm := true, unloading := false))
            && (k.FiberLocal? <==> s.tracking.FiberLocal?)
            && Holders(k) == Holders(s.tracking)
  {
  }

  lemma LoadOk(s: State, t: nat, newKey: Option<nat>, o: Oracle)
    requires Invariant(s)
    ensures Step(s, Load(t, newKey, o), LoadLibrary(s, t, newKey, o))
    ensures Exact(LoadLibrary(s, t, newKey, o)) <==> Exact(s)
  {
    hide GetEnv, KeysOk, RecordsOk, Holders, Initialize;
    InitializeOk(s, newKey);
    var k := Initialize(s.tracking, newKey).0;
    var ready := s.(tracking := k, jvm := true, unloading := false);
    GetEnvOk(ready, t, o);
    var r := LoadLibrary(s, t, newKey, o);
    assert forall u :: OwnerOf(ready, u) == OwnerOf(s, u);
    assert Invariant(r);
    forall u ensures Permitted(Load(t, newKey, o), u, s.tracking.FiberLocal?, OwnerOf(s, u), OwnerOf(r, u)) {
      assert OwnerOf(GetEnv(ready, t, o).0.(loaded := true), u) == OwnerOf(GetEnv(ready, t, o).0, u);
    }
  }

  /** Exactly the threads this library attached carry a record. */
  ghost predicate Exact(s: State) {
    forall t :: t in Holders(s.tracking) <==> OwnerOf(s, t) == Library
  }

  /** Fiber-local records are not freed while a thread other than the unloading one has any. */
  ghost predicate Careful(s: State, e: Event) {
    s.tracking.FiberLocal? && e.FinishUnload? ==> Holders(s.tracking) <= {e.thread}
  }

  lemma UnloadOk(s: State, t: nat, o: Oracle)
    requires Invariant(s)
    ensures Step(s, FinishUnload(t, o), Apply(s, FinishUnload(t, o)))
    ensures Exact(s) ==> (Exact(Apply(s, FinishUnload(t, o))) <==> Careful(s, FinishUnload(t, o)))
  {
    hide GetEnv, KeysOk, RecordsOk, Release, Holders;
    GetEnvOk(s, t, o);
    ReleaseOk(GetEnv(s, t, o).0.(jvm := false, loaded := false), t);
  }

  lemma StepOk(s: State, e: Event)
    requires Invariant(s)
    ensures Step(s, e, Apply(s, e))
    ensures Exact(s) ==> (Exact(Apply(s, e)) <==> Careful(s, e))
  {
    hide GetEnv, KeysOk, RecordsOk, Holders, ExitThread, LoadLibrary, Release;
    match e {
      case Callback(t, o) => GetEnvOk(s, t, o);
      case ForeignAttach(t) =>
      case ForeignDetach(t) =>
      case Exit(t) => ExitOk(s, t);
      case Load(t, newKey, o) => LoadOk(s, t, newKey, o);
      case BeginUnload =>
      case FinishUnload(t, o) => UnloadOk(s, t, o);
    }
  }

  lemma StartOk(fiberLocal: bool)
    ensures Invariant(Start(fiberLocal)) && Exact(Start(fiberLocal))
  {
  }

  lemma {:induction false} RunInvariant(fiberLocal: bool, events: seq<Event>)
    ensures Invariant(Run(fiberLocal, events)) && (Run(fiberLocal, events).tracking.FiberLocal? <==> fiberLocal)
  {
    hide Apply, Invariant, Exact, Careful;
    if events == [] {
      StartOk(fiberLocal);
    } else {
      RunInvariant(fiberLocal, events[..|events| - 1]);
      StepOk(Run(fiberLocal, events[..|events| - 1]), events[|events| - 1]);
    }
  }

  // ---- Main results --------------------------------------------------------------------

  /**
   In every run of either back end the library detaches only threads it attached, and an event changes
   the attachment of a thread only as `Permitted` says: Java's and foreign attachments are never touched.
   */
  lemma OnlyOwnAttachments(fiberLocal: bool, events: seq<Event>, e: Event, u: nat)
    ensures var s := Run(fiberLocal, events);
            && (forall i :: 0 <= i < |s.detached| ==> s.detached[i] == Library)
            && Permitted(e, u, fiberLocal, OwnerOf(s, u), OwnerOf(Apply(s, e), u))
  {
    hide Run, Apply, Permitted, Exact, Careful;
    RunInvariant(fiberLocal, events);
    StepOk(Run(fiberLocal, events), e);
  }

  /** On Windows at most one key is allocated, and each record made is in a slot or was deleted, once. */
  lemma RecordsConserved(events: seq<Event>, i: nat)
    ensures var k := Run(true, events).tracking;
            && k.FiberLocal?
            && (k.keys == {} || exists key :: k.keys == {key} && k.key == Some(key))
            && k.deleted[i] + (if Held(k.slots, i) then 1 else 0) == (if i < k.created then 1 else 0)
  {
    hide Run;
    RunInvariant(true, events);
    var k := Run(true, events).tracking;
    if k.key.Some? { assert k.keys == {k.key.value}; }
  }

  /**
   In every state of a run exactly the threads the library attached carry a record, if and only if no
   unloading on Windows freed the record of another thread. Without fiber-local slots that always holds.
   */
  lemma {:induction false} ExactIff(fiberLocal: bool, events: seq<Event>)
    ensures (forall n :: 0 <= n <= |events| ==> Exact(Run(fiberLocal, events[..n])))
            <==> (forall n :: 0 <= n < |events| ==> Careful(Run(fiberLocal, events[..n]), events[n]))
    ensures !fiberLocal ==> forall n :: 0 <= n <= |events| ==> Exact(Run(fiberLocal, events[..n]))
  {
    hide Run, Apply, Exact, Invariant, Step;
    if events == [] {
      assert events[..0] == [];
      RunStart(fiberLocal);
      StartOk(fiberLocal);
    } else {
      var init, last := events[..|events| - 1], |events| - 1;
      ExactIff(fiberLocal, init);
      assert forall n :: 0 <= n <= last ==> events[..n] == init[..n];
      RunInvariant(fiberLocal, init);
      RunLast(fiberLocal, events);
      assert events[..|events|] == events && init[..last] == init;
      StepOk(Run(fiberLocal, init), events[last]);
    }
  }

  lemma RunStart(fiberLocal: bool)
    ensures Run(fiberLocal, []) == Start(fiberLocal)
  {
  }

  lemma RunLast(fiberLocal: bool, events: seq<Event>)
    requires events != []
    ensures Run(fiberLocal, events) == Apply(Run(fiberLocal, events[..|events| - 1]), events[|events| - 1])
  {
  }

  /**
   A thread that exits is detached exactly if it carries a record; if records are exact, exactly if the
   library attached it.
   */
  lemma ExitDetaches(fiberLocal: bool, events: seq<Event>, t: nat)
    ensures var s := Run(fiberLocal, events);
            && Apply(s, Exit(t)).detached == s.detached + (if t in Holders(s.tracking) then [Library] else [])
            && (Exact(s) ==>
                  Apply(s, Exit(t)).detached == s.detached + (if OwnerOf(s, t) == Library then [Library] else []))
  {
    hide Run, ExitThread, Holders, KeysOk, RecordsOk;
    RunInvariant(fiberLocal, events);
    ExitOk(Run(fiberLocal, events), t);
  }

  const GRANTED := Oracle(true, true, true)

  /** Thread 0 loads the library, then thread 1 receives a callback. */
  lemma TwoAttached()
    ensures var s := Run(true, [Load(0, Some(7), GRANTED)] + [Callback(1, GRANTED)]);
            OwnerOf(s, 0) == OwnerOf(s, 1) == Library
  {
    hide KeysOk, RecordsOk, Holders;
    var e0, e1 := Load(0, Some(7), GRANTED), Callback(1, GRANTED);
    RunLast(true, [e0]);
    RunStart(true);
    assert [e0][..0] == [];
    assert ([e0] + [e1])[..1] == [e0];
  }

  /**
   A worker that is still attached when another thread ends the unloading on Windows, because it outlived
   the clean-up of the native library, is never detached again.
   */
  lemma UnloadOrphansWorkers()
    ensures var loaded := [Load(0, Some(7), GRANTED)] + [Callback(1, GRANTED)];
            var events := loaded + [BeginUnload] + [FinishUnload(0, GRANTED)];
            var s := Run(true, events);
            OwnerOf(s, 1) == Library && 1 !in Holders(s.tracking) && Apply(s, Exit(1)).detached == s.detached
  {
    hide Run, Release, ExitThread, KeysOk, RecordsOk, Holders;
    var loaded := [Load(0, Some(7), GRANTED)] + [Callback(1, GRANTED)];
    var before := loaded + [BeginUnload];
    var all := before + [FinishUnload(0, GRANTED)];
    TwoAttached();
    assert before[..2] == loaded && all[..3] == before;
    RunLast(true, before);
    RunLast(true, all);
    RunInvariant(true, before);
    ReleaseOk(Run(true, before).(jvm := false, loaded := false), 0);
    RunInvariant(true, all);
    ExitOk(Run(true, all), 1);
  }

  /**
   An unattached thread gets an environment exactly if the JVM attaches it and, on Windows, a key is
   there and its record can be made and stored.
   */
  lemma EnvFoundIff(s: State, t: nat, o: Oracle)
    requires Invariant(s)
    ensures GetEnv(s, t, o).1 <==>
            || OwnerOf(s, t) != Detached
            || (o.attaches && (s.tracking.FiberLocal? ==> s.tracking.key.Some? && o.allocates && o.stores))
  {
    hide KeysOk, RecordsOk;
    var k := s.tracking;
    if k.FiberLocal? && k.key.Some? && Cell(k.key.value, t) in k.slots {
      assert t in Holders(k);
    }
  }

  predicate Serving(s: State) { s.loaded && s.jvm && !s.unloading }

  /** Loading serves callbacks exactly if a key is there or can be had; loading again changes nothing. */
  lemma LoadServes(s: State, t: nat, newKey: Option<nat>, o: Oracle, again: Event)
    requires Invariant(s) && again.Load?
    ensures var r := Apply(s, Load(t, newKey, o));
            && (Serving(r) <==>
                  || Serving(s) || s.tracking.ThreadLocal? || s.tracking.key.Some? || newKey.Some?)
            && (Serving(r) ==> Apply(r, again) == r)
  {
    hide OwnersOk, RecordsOk, Register;
  }

  predicate Silent(s: State) { !s.jvm || s.unloading }

  lemma SilentStep(s: State, e: Event)
    requires !e.Load? && (Silent(s) || e.BeginUnload? || e.FinishUnload?)
    ensures Silent(Apply(s, e))
  {
    hide Register;
  }

  /**
   From the start of unloading until the next load, whatever else happens, no callback attaches anybody
   or changes anything.
   */
  lemma {:induction false} UnloadSilences(fiberLocal: bool, events: seq<Event>, unload: Event, more: seq<Event>)
    requires unload.BeginUnload? || unload.FinishUnload?
    requires forall n :: 0 <= n < |more| ==> !more[n].Load?
    ensures var s := Run(fiberLocal, events + [unload] + more);
            Silent(s) && forall t, o :: Apply(s, Callback(t, o)) == s
    decreases |more|
  {
    var all := events + [unload] + more;
    if more == [] {
      assert all[..|all| - 1] == events && all[|all| - 1] == unload;
      SilentStep(Run(fiberLocal, events), unload);
    } else {
      assert all[..|all| - 1] == events + [unload] + more[..|more| - 1];
      UnloadSilences(fiberLocal, events, unload, more[..|more| - 1]);
      SilentStep(Run(fiberLocal, all[..|all| - 1]), all[|all| - 1]);
    }
  }

  /** A callback that is served leaves its thread attached, unless the JVM or the record refuses. */
  lemma CallbackServed(s: State, t: nat, o: Oracle)
    requires Invariant(s) && !Silent(s)
    ensures OwnerOf(Apply(s, Callback(t, o)), t) != Detached <==>
            || OwnerOf(s, t) != Detached
            || (o.attaches && (s.tracking.FiberLocal? ==> s.tracking.key.Some? && o.allocates && o.stores))
  {
    hide GetEnv, Holders;
    GetEnvOk(s, t, o);
    EnvFoundIff(s, t, o);
  }

  /**
   What unloading does to the thread that ends it: it is attached first if need be, and on Windows whatever
   the library attached is given back, also when registering it failed.
   */
  lemma UnloadingThread(s: State, t: nat, o: Oracle)
    requires Invariant(s)
    ensures var r := Apply(s, FinishUnload(t, o));
            var attaches := OwnerOf(s, t) == Detached && o.attaches;
            if s.tracking.ThreadLocal? then
              OwnerOf(r, t) == (if attaches then Library else OwnerOf(s, t)) && r.detached == s.detached
            else
              && OwnerOf(r, t) == (if t in Holders(s.tracking) then Detached else OwnerOf(s, t))
              && r.detached == s.detached + if t in Holders(s.tracking) || attaches then [Library] else []
  {
    hide RecordsOk, Release;
    GetEnvOk(s, t, o);
    EnvFoundIff(s, t, o);
    ReleaseOk(GetEnv(s, t, o).0.(jvm := false, loaded := false), t);
  }

  // ---- The two back ends together ------------------------------------------------------

  /** Nothing fails, and the library is not unloaded. */
  predicate Smooth(e: Event) {
    match e
    case Callback(_, o) => o == GRANTED
    case Load(_, newKey, o) => newKey.Some? && o == GRANTED
    case FinishUnload(_, _) => false
    case _ => true
  }

  /** The same threads are attached, carry records and were detached. */
  ghost predicate Alike(a: State, b: State) {
    && a.attached == b.attached && a.detached == b.detached && Holders(a.tracking) == Holders(b.tracking)
    && a.jvm == b.jvm && a.loaded == b.loaded && a.unloading == b.unloading
    && a.tracking.ThreadLocal? && b.tracking.FiberLocal? && (b.jvm ==> b.tracking.key.Some?)
  }

  lemma EnvAlike(a: State, b: State, t: nat)
    requires Invariant(a) && Invariant(b) && Alike(a, b) && b.tracking.key.Some?
    ensures Alike(GetEnv(a, t, GRANTED).0, GetEnv(b, t, GRANTED).0)
  {
    hide Invariant, Holders;
    GetEnvOk(a, t, GRANTED);
    GetEnvOk(b, t, GRANTED);
  }

  lemma LoadAlike(a: State, b: State, e: Event)
    requires Invariant(a) && Invariant(b) && Alike(a, b) && Smooth(e) && e.Load?
    ensures Alike(Apply(a, e), Apply(b, e))
  {
    hide RecordsOk, GetEnv, Holders;
    InitializeOk(a, e.newKey);
    InitializeOk(b, e.newKey);
    var a', b' := Initialize(a.tracking, e.newKey).0, Initialize(b.tracking, e.newKey).0;
    EnvAlike(a.(tracking := a', jvm := true, unloading := false),
             b.(tracking := b', jvm := true, unloading := false), e.thread);
  }

  lemma AlikeStep(a: State, b: State, e: Event)
    requires Invariant(a) && Invariant(b) && Alike(a, b) && Smooth(e)
    ensures Alike(Apply(a, e), Apply(b, e))
  {
    hide KeysOk, RecordsOk, GetEnv, Holders, ExitThread;
    match e {
      case Callback(t, o) => if b.jvm { EnvAlike(a, b, t); }
      case Load(t, newKey, o) => LoadAlike(a, b, e);
      case Exit(t) => ExitOk(a, t); ExitOk(b, t);
      case _ =>
    }
  }

  /** Until the library is unloaded, and as long as nothing fails, the two back ends attach and detach alike. */
  lemma {:induction false} BackEndsAgree(events: seq<Event>)
    requires forall n :: 0 <= n < |events| ==> Smooth(events[n])
    ensures Alike(Run(false, events), Run(true, events))
  {
    hide Apply, Invariant, Smooth;
    if events == [] {
      assert Holders(Start(false).tracking) == Holders(Start(true).tracking);
    } else {
      var init := events[..|events| - 1];
      BackEndsAgree(init);
      RunInvariant(false, init);
      RunInvariant(true, init);
      AlikeStep(Run(false, init), Run(true, init), events[|events| - 1]);
    }
  }
}
