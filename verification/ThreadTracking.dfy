/**
 The Windows back end as the program runs it: its globals, the fiber-local slots, and the JVM's view of
 the threads, changed in place by each function.
 */
module ThreadTracking {
  import opened Bytes
  import opened Attachment

  /** Callbacks may run in any order: one after the other comes to the same as all together. */
  lemma OneByOne(s: State, caller: nat, done: set<Cell>, c: Cell)
    requires s.tracking.FiberLocal? && done <= s.tracking.slots.Keys && c in s.tracking.slots && c !in done
    requires SlotsOk(s.tracking.slots, s.tracking.created)
    ensures RunCallbacks(s, caller, done + {c}) == RunCallbacks(RunCallbacks(s, caller, done), caller, {c})
  {
    hide OwnAmong;
    var k := s.tracking;
    var ids, id := Ids(k, done), k.slots[c].id;
    var mid := RunCallbacks(s, caller, done);
    assert mid.tracking == k.(slots := k.slots - done, deleted := k.deleted + multiset(ids));
    assert Ids(k, done + {c}) == ids + {id};
    assert Ids(mid.tracking, {c}) == {id};
    assert k.deleted + multiset(ids + {id}) == k.deleted + multiset(ids) + multiset({id});
    assert k.slots - (done + {c}) == (k.slots - done) - {c};
    OwnOneByOne(k.slots, caller, done, c);
  }

  lemma OwnOneByOne(slots: map<Cell, Entry>, caller: nat, done: set<Cell>, c: Cell)
    requires c in slots && c !in done
    ensures OwnAmong(slots, caller, done + {c}) <==> OwnAmong(slots, caller, done) || slots[c].owner == caller
    ensures OwnAmong(slots - done, caller, {c}) <==> slots[c].owner == caller
  {
    if slots[c].owner == caller { assert c in {c} && c in done + {c} && c in slots - done; }
    if OwnAmong(slots, caller, done) {
      var d :| d in done && d in slots && slots[d].owner == caller;
      assert d in done + {c};
    }
  }

  class Tracker {
    var attached: map<nat, Owner>
    var detached: seq<Owner>
    var key: Option<nat>
    var keys: set<nat>
    var slots: map<Cell, Entry>
    var created: nat
    var deleted: multiset<nat>
    var jvm: bool
    var loaded: bool
    var unloading: bool

    ghost function View(): State
      reads this
    {
      State(attached, detached, FiberLocal(key, keys, slots, created, deleted), jvm, loaded, unloading)
    }

    constructor ()
      ensures View() == Start(true) && Invariant(View())
    {
      attached, detached, key, keys, slots, created, deleted := map[], [], None, {}, map[], 0, multiset{};
      jvm, loaded, unloading := false, false, false;
      new;
      StartOk(true);
    }

    /** `GetEnv` of the JVM: is the thread attached? */
    predicate IsAttached(t: nat)
      reads this
    {
      t in attached && attached[t] != Detached
    }

    method DetachCurrentThread(t: nat)
      modifies this`attached, this`detached
      ensures View() == DetachCurrent(old(View()), t)
    {
      detached := detached + [if t in attached then attached[t] else Detached];
      attached := attached - {t};
    }

    /** The callback of one cell, run by thread `caller`; its slot is empty afterwards. */
    method DetachThread(caller: nat, c: Cell)
      requires c in slots
      modifies this
      ensures View() == RunCallbacks(old(View()), caller, {c})
    {
      var entry := slots[c];
      if entry.owner == caller {
        if IsAttached(caller) { DetachCurrentThread(caller); }
      }
      slots := slots - {c};
      deleted := deleted + multiset{entry.id};
      assert Ids(old(View()).tracking, {c}) == {entry.id};
      assert multiset({entry.id}) == multiset{entry.id};
      OwnOneByOne(old(slots), caller, {}, c);
      assert old(slots) - {} == old(slots);
    }

    method RunAll(caller: nat, cells: set<Cell>)
      requires cells <= slots.Keys && SlotsOk(slots, created)
      modifies this
      ensures View() == RunCallbacks(old(View()), caller, cells)
    {
      ghost var before := View();
      ghost var done: set<Cell> := {};
      var rest := cells;
      NoCallbacks(before, caller);
      while rest != {}
        invariant rest <= cells && done == cells - rest
        invariant View() == RunCallbacks(before, caller, done)
      {
        var c :| c in rest;
        OneByOne(before, caller, done, c);
        DetachThread(caller, c);
        rest, done := rest - {c}, done + {c};
      }
      assert done == cells;
    }

    lemma NoCallbacks(s: State, caller: nat)
      requires s.tracking.FiberLocal?
      ensures RunCallbacks(s, caller, {}) == s
    {
      assert s.tracking.slots - {} == s.tracking.slots;
      assert Ids(s.tracking, {}) == {};
    }

    /** `newKey` is what the system would hand out, if anything. */
    method InitializeJniThreadTracking(newKey: Option<nat>) returns (ok: bool)
      modifies this`key, this`keys
      ensures var (tracking, ready) := Initialize(old(View()).tracking, newKey);
              ok == ready && View() == old(View()).(tracking := tracking)
    {
      if key != None { return true; }
      if newKey == None || newKey.value in keys { return false; }
      key, keys := newKey, keys + {newKey.value};
      return true;
    }

    method RegisterJniThread(t: nat, o: Oracle) returns (ok: bool)
      modifies this`slots, this`created, this`deleted
      ensures var (tracking, registered) := Register(old(View()).tracking, t, o);
              ok == registered && View() == old(View()).(tracking := tracking)
    {
      if key == None { return false; }
      if Cell(key.value, t) in slots { return true; }
      if !o.allocates { return false; }
      var entry := Entry(created, t);
      created := created + 1;
      if !o.stores {
        deleted := deleted + multiset{entry.id};
        return false;
      }
      slots := slots[Cell(key.value, t) := entry];
      return true;
    }

    method GetJniEnvFromJvm(t: nat, o: Oracle) returns (found: bool)
      requires Invariant(View())
      modifies this
      ensures Invariant(View()) && (View(), found) == GetEnv(old(View()), t, o)
    {
      GetEnvOk(View(), t, o);
      if IsAttached(t) { return true; }
      if !o.attaches { return false; }
      attached := attached[t := Library];
      var registered := RegisterJniThread(t, o);
      if !registered {
        DetachCurrentThread(t);
        return false;
      }
      return true;
    }

    method ReleaseJniThreadTracking(caller: nat)
      requires Invariant(View())
      modifies this
      ensures Invariant(View()) && View() == Release(old(View()), caller)
    {
      ReleaseOk(View(), caller);
      if key == None { return; }
      var freed := key.value;
      key, keys := None, keys - {freed};
      RunAll(caller, set c | c in slots && c.key == freed);
    }

    method ThreadExit(t: nat)
      requires Invariant(View())
      modifies this
      ensures Invariant(View()) && View() == ExitThread(old(View()), t)
    {
      ExitOk(View(), t);
      RunAll(t, set c | c in slots && c.thread == t);
      attached := attached - {t};
    }

    method OnLoad(t: nat, newKey: Option<nat>, o: Oracle)
      requires Invariant(View())
      modifies this
      ensures Invariant(View()) && View() == LoadLibrary(old(View()), t, newKey, o)
    {
      hide Invariant, GetEnv, Permitted, Exact;
      LoadOk(View(), t, newKey, o);
      if loaded && jvm && !unloading { return; }
      InitializeOk(View(), newKey);
      var ok := InitializeJniThreadTracking(newKey);
      if !ok { return; }
      jvm, unloading := true, false;
      var found := GetJniEnvFromJvm(t, o);
      loaded := true;
    }

    /** Other threads may run, and so change everything, between the two halves. */
    method BeginOnUnload()
      modifies this`unloading
      ensures View() == Apply(old(View()), BeginUnload)
    {
      unloading := true;
    }

    method FinishOnUnload(t: nat, o: Oracle)
      requires Invariant(View())
      modifies this
      ensures Invariant(View()) && View() == Apply(old(View()), FinishUnload(t, o))
    {
      var found := GetJniEnvFromJvm(t, o);
      jvm, loaded := false, false;
      ReleaseJniThreadTracking(t);
    }
  }
}
