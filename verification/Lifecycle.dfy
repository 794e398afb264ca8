/**
 Peers, data channels and callback records over whole runs. Every lock section, compare-and-set and
 native call of any thread is one event. Native handles are never reused, so they are indices.
 */
module Lifecycle {
  import opened Bytes

  // ---- State ---------------------------------------------------------------------------

  /** Where a Java channel object is: being made, in use, or at some point of `close`. */
  datatype Phase = Made | Open | Claimed | Deleting | Dropping | Done {
    predicate Listed() { Open? || Claimed? || Deleting? || Dropping? }

    predicate Gone() { Dropping? || Done? }
  }

  datatype Object = Object(handle: nat, phase: Phase)

  /** A native channel; `maker` is the object `createDataChannel` made for it, if it is local. */
  datatype Channel = Channel(peer: nat, maker: Option<nat>, live: bool, pointer: Option<nat>, deletes: nat)

  /** A native peer. `cleaned` and `deleting` tell how far its cleaning action has come. */
  datatype Peer = Peer(live: bool, pointer: Option<nat>, cleaned: bool, deleting: bool, closes: nat, deletes: nat)

  /** A callback record; it leads to the listener of the Java peer `owner`. */
  datatype Record = Record(owner: nat, frees: nat)

  /** An entry of the channel map of `peer`. */
  datatype Slot = Slot(peer: nat, handle: nat)

  datatype State = State(channels: seq<Channel>, objects: seq<Object>, peers: seq<Peer>, records: seq<Record>,
                         table: map<Slot, nat>)

  // ---- Steps ---------------------------------------------------------------------------

  datatype Event =
    | CreatePeer(registered: bool)
    | LocalCreate(peer: nat) | LocalPut(which: nat)
    | Arrive(peer: nat) | OnDataChannel(channel: nat)
    | CloseStart(which: nat) | NativeClose(which: nat) | NativeDelete(which: nat) | Drop(which: nat)
    | PeerClean(peer: nat) | PeerDelete(peer: nat, succeeds: bool)

  /** A peer that is alive natively and whose listener was registered, so that Java code got hold of it. */
  predicate Usable(s: State, p: nat) { p < |s.peers| && s.peers[p].live && s.peers[p].pointer.Some? }

  predicate At(s: State, o: nat, phase: Phase) {
    o < |s.objects| && s.objects[o].phase == phase && s.objects[o].handle < |s.channels|
  }

  function Move(s: State, o: nat, phase: Phase): State
    requires o < |s.objects|
  {
    s.(objects := s.objects[o := s.objects[o].(phase := phase)])
  }

  function SlotOf(s: State, c: nat): Slot
    requires c < |s.channels|
  {
    Slot(s.channels[c].peer, c)
  }

  /** `rtcDeletePeerConnection` of native_peer.c: the record is freed once the peer is gone. */
  function DeletePeer(s: State, p: nat, succeeds: bool): State
    requires p < |s.peers|
  {
    var peer := s.peers[p].(deleting := false, deletes := s.peers[p].deletes + 1);
    if !succeeds then s.(peers := s.peers[p := peer])
    else
      var gone := s.(peers := s.peers[p := peer.(live := false)]);
      match peer.pointer
      case None => gone
      case Some(r) =>
        if r >= |s.records| then gone
        else gone.(records := s.records[r := s.records[r].(frees := s.records[r].frees + 1)])
  }

  function Apply(s: State, e: Event): State {
    match e
    case CreatePeer(registered) =>
      var pointer := if registered then Some(|s.records|) else None;
      s.(peers := s.peers + [Peer(true, pointer, false, false, 0, 0)],
         records := s.records + if registered then [Record(|s.peers|, 0)] else [])
    case LocalCreate(p) =>
      if !Usable(s, p) then s
      else
        s.(channels := s.channels + [Channel(p, Some(|s.objects|), true, s.peers[p].pointer, 0)],
           objects := s.objects + [Object(|s.channels|, Made)])
    case LocalPut(o) =>
      if !At(s, o, Made) then s
      else Move(s, o, Open).(table := s.table[SlotOf(s, s.objects[o].handle) := o])
    case Arrive(p) =>
      if !Usable(s, p) then s
      else s.(channels := s.channels + [Channel(p, None, true, s.peers[p].pointer, 0)])
    case OnDataChannel(c) =>
      if c >= |s.channels| || s.channels[c].maker.Some? || SlotOf(s, c) in s.table then s
      else s.(objects := s.objects + [Object(c, Open)], table := s.table[SlotOf(s, c) := |s.objects|])
    case CloseStart(o) =>
      if !At(s, o, Open) then s else Move(s, o, Claimed)
    case NativeClose(o) =>
      if !At(s, o, Claimed) then s
      else Move(s, o, if s.channels[s.objects[o].handle].live then Deleting else Dropping)
    case NativeDelete(o) =>
      if !At(s, o, Deleting) then s
      else
        var c := s.objects[o].handle;
        var channel := s.channels[c];
        Move(s, o, Dropping).(channels := s.channels[c := channel.(live := false, deletes := channel.deletes + 1)])
    case Drop(o) =>
      if !At(s, o, Dropping) then s
      else Move(s, o, Done).(table := s.table - {SlotOf(s, s.objects[o].handle)})
    case PeerClean(p) =>
      if p >= |s.peers| || s.peers[p].cleaned then s
      else
        var peer := s.peers[p];
        s.(peers := s.peers[p := peer.(cleaned := true, closes := peer.closes + 1, deleting := peer.live)])
    case PeerDelete(p, succeeds) =>
      if p >= |s.peers| || !s.peers[p].deleting then s else DeletePeer(s, p, succeeds)
  }

  function Run(events: seq<Event>): State {
    if events == [] then State([], [], [], [], map[]) else Apply(Run(events[..|events| - 1]), events[|events| - 1])
  }

  // ---- What every run keeps ------------------------------------------------------------

  /** An object is in its peer's map from publication until it is dropped, and no other is there with it. */
  ghost predicate ObjectOk(s: State, o: nat)
    requires o < |s.objects|
  {
    var x := s.objects[o];
    && x.handle < |s.channels|
    && var c := s.channels[x.handle];
       && (c.maker.Some? ==> c.maker.value == o)
       && (x.phase.Made? ==> c.live && c.maker.Some?)
       && (x.phase.Deleting? ==> c.live)
       && (x.phase.Gone() ==> !c.live)
       && (x.phase.Listed() ==> SlotOf(s, x.handle) in s.table && s.table[SlotOf(s, x.handle)] == o)
  }

  ghost predicate SlotOk(s: State, k: Slot)
    requires k in s.table
  {
    && k.handle < |s.channels| && k == SlotOf(s, k.handle)
    && s.table[k] < |s.objects|
    && s.objects[s.table[k]].handle == k.handle && s.objects[s.table[k]].phase.Listed()
  }

  ghost predicate ChannelOk(s: State, c: nat)
    requires c < |s.channels|
  {
    var x := s.channels[c];
    && x.peer < |s.peers|
    && x.deletes == (if x.live then 0 else 1)
    && x.pointer.Some? && x.pointer == s.peers[x.peer].pointer
    && (x.maker.Some? ==> x.maker.value < |s.objects| && s.objects[x.maker.value].handle == c)
  }

  ghost predicate RecordOk(s: State, r: nat)
    requires r < |s.records|
  {
    var x := s.records[r];
    && x.owner < |s.peers|
    && s.peers[x.owner].pointer == Some(r)
    && x.frees == (if s.peers[x.owner].live then 0 else 1)
  }

  ghost predicate PeerOk(s: State, p: nat)
    requires p < |s.peers|
  {
    var x := s.peers[p];
    && (x.pointer.Some? ==> x.pointer.value < |s.records| && s.records[x.pointer.value].owner == p)
    && x.closes == (if x.cleaned then 1 else 0)
    && x.deletes <= x.closes
    && (x.live || x.deletes == 1)
    && (x.deleting ==> x.cleaned && x.live && x.deletes == 0)
    && (!x.cleaned ==> x.live)
  }

  /** Some object of the channel went through the native part of `close`. */
  ghost predicate Closed(s: State, c: nat) {
    exists o :: 0 <= o < |s.objects| && s.objects[o].handle == c && s.objects[o].phase.Gone()
  }

  ghost predicate DeathOk(s: State, c: nat)
    requires c < |s.channels|
  {
    s.channels[c].live || Closed(s, c)
  }

  ghost predicate Invariant(s: State) {
    && (forall o :: 0 <= o < |s.objects| ==> ObjectOk(s, o))
    && (forall k :: k in s.table ==> SlotOk(s, k))
    && (forall c :: 0 <= c < |s.channels| ==> ChannelOk(s, c))
    && (forall r :: 0 <= r < |s.records| ==> RecordOk(s, r))
    && (forall p :: 0 <= p < |s.peers| ==> PeerOk(s, p))
    && (forall c :: 0 <= c < |s.channels| ==> DeathOk(s, c))
  }

  lemma ObjectChange(s: State, e: Event, o: nat)
    requires Invariant(s) && (e.LocalPut? || e.NativeDelete? || e.Drop?) && o < |Apply(s, e).objects|
    ensures ObjectOk(Apply(s, e), o)
  {
    hide RecordOk, PeerOk, DeathOk;
    if e.which < |s.objects| {
      assert ObjectOk(s, e.which);
      assert ObjectOk(s, o);
    }
  }

  lemma ObjectStep(s: State, e: Event, o: nat)
    requires Invariant(s) && o < |Apply(s, e).objects|
    ensures ObjectOk(Apply(s, e), o)
  {
    hide ChannelOk, RecordOk, PeerOk, DeathOk;
    if e.LocalPut? || e.NativeDelete? || e.Drop? {
      ObjectChange(s, e, o);
    } else {
      if o < |s.objects| { assert ObjectOk(s, o); }
    }
  }

  lemma SlotStep(s: State, e: Event, k: Slot)
    requires Invariant(s) && k in Apply(s, e).table
    ensures SlotOk(Apply(s, e), k)
  {
    if k in s.table { assert SlotOk(s, k); }
  }

  lemma ChannelChange(s: State, e: Event, c: nat)
    requires Invariant(s) && e.NativeDelete? && c < |Apply(s, e).channels|
    ensures ChannelOk(Apply(s, e), c)
  {
    hide SlotOk, RecordOk, PeerOk, DeathOk;
    if e.which < |s.objects| { assert ObjectOk(s, e.which); }
    assert ChannelOk(s, c);
  }

  lemma ChannelStep(s: State, e: Event, c: nat)
    requires Invariant(s) && c < |Apply(s, e).channels|
    ensures ChannelOk(Apply(s, e), c)
  {
    hide ObjectOk, SlotOk, RecordOk, PeerOk, DeathOk;
    if e.NativeDelete? {
      ChannelChange(s, e, c);
    } else if c < |s.channels| {
      assert ChannelOk(s, c);
    }
  }

  lemma RecordStep(s: State, e: Event, r: nat)
    requires Invariant(s) && r < |Apply(s, e).records|
    ensures RecordOk(Apply(s, e), r)
  {
    hide ObjectOk, SlotOk, ChannelOk, DeathOk;
    if e.PeerDelete? && e.peer < |s.peers| { assert PeerOk(s, e.peer); }
    if r < |s.records| { assert RecordOk(s, r); }
  }

  lemma PeerStep(s: State, e: Event, p: nat)
    requires Invariant(s) && p < |Apply(s, e).peers|
    ensures PeerOk(Apply(s, e), p)
  {
    hide ObjectOk, SlotOk, ChannelOk, DeathOk;
    if p < |s.peers| { assert PeerOk(s, p); }
  }

  lemma DeathStep(s: State, e: Event, c: nat)
    requires Invariant(s) && c < |Apply(s, e).channels|
    ensures DeathOk(Apply(s, e), c)
  {
    hide ObjectOk, SlotOk, ChannelOk, RecordOk, PeerOk;
    var t := Apply(s, e);
    if c < |s.channels| {
      assert DeathOk(s, c);
      if !s.channels[c].live {
        var o :| 0 <= o < |s.objects| && s.objects[o].handle == c && s.objects[o].phase.Gone();
        assert t.objects[o].handle == c && t.objects[o].phase.Gone();
      } else if !t.channels[c].live {
        assert t.objects[e.which].handle == c && t.objects[e.which].phase.Dropping?;
      }
    }
  }

  lemma InvariantStep(s: State, e: Event)
    requires Invariant(s)
    ensures Invariant(Apply(s, e))
  {
    hide Apply, ObjectOk, SlotOk, ChannelOk, RecordOk, PeerOk, DeathOk;
    var t := Apply(s, e);
    forall o | 0 <= o < |t.objects| ensures ObjectOk(t, o) { ObjectStep(s, e, o); }
    forall k | k in t.table ensures SlotOk(t, k) { SlotStep(s, e, k); }
    forall c | 0 <= c < |t.channels| ensures ChannelOk(t, c) { ChannelStep(s, e, c); }
    forall r | 0 <= r < |t.records| ensures RecordOk(t, r) { RecordStep(s, e, r); }
    forall p | 0 <= p < |t.peers| ensures PeerOk(t, p) { PeerStep(s, e, p); }
    forall c | 0 <= c < |t.channels| ensures DeathOk(t, c) { DeathStep(s, e, c); }
  }

  lemma {:induction false} RunInvariant(events: seq<Event>)
    ensures Invariant(Run(events))
  {
    hide Apply, Invariant;
    if events == [] {
      StartInvariant();
    } else {
      RunInvariant(events[..|events| - 1]);
      InvariantStep(Run(events[..|events| - 1]), events[|events| - 1]);
    }
  }

  lemma StartInvariant()
    ensures Invariant(State([], [], [], [], map[]))
  {
  }

  // ---- At most once --------------------------------------------------------------------

  /**
   In every run each native channel and peer is deleted at most once and only while
   alive, each peer is closed at most once, and each record is freed once if its peer is gone and never
   before.
   */
  lemma AtMostOnce(events: seq<Event>)
    ensures var s := Run(events);
            && (forall c :: 0 <= c < |s.channels| ==>
                  s.channels[c].deletes <= 1 && (s.channels[c].live <==> s.channels[c].deletes == 0))
            && (forall o :: 0 <= o < |s.objects| && s.objects[o].phase.Deleting? ==>
                  s.objects[o].handle < |s.channels| && s.channels[s.objects[o].handle].live)
            && (forall p :: 0 <= p < |s.peers| ==>
                  && s.peers[p].closes <= 1 && s.peers[p].deletes <= 1 && (s.peers[p].deleting ==> s.peers[p].live))
            && (forall r :: 0 <= r < |s.records| ==>
                  && s.records[r].owner < |s.peers|
                  && s.records[r].frees == if s.peers[s.records[r].owner].live then 0 else 1)
  {
    hide Run, Apply;
    var s := Run(events);
    RunInvariant(events);
    forall c | 0 <= c < |s.channels|
      ensures s.channels[c].deletes <= 1 && (s.channels[c].live <==> s.channels[c].deletes == 0)
    { assert ChannelOk(s, c); }
    forall o | 0 <= o < |s.objects| && s.objects[o].phase.Deleting?
      ensures s.objects[o].handle < |s.channels| && s.channels[s.objects[o].handle].live
    { assert ObjectOk(s, o); }
    forall p | 0 <= p < |s.peers|
      ensures s.peers[p].closes <= 1 && s.peers[p].deletes <= 1 && (s.peers[p].deleting ==> s.peers[p].live)
    { assert PeerOk(s, p); }
    forall r | 0 <= r < |s.records|
      ensures s.records[r].owner < |s.peers|
      ensures s.records[r].frees == if s.peers[s.records[r].owner].live then 0 else 1
    { assert RecordOk(s, r); }
  }

  lemma CleanedPeerStays(s: State, e: Event, p: nat)
    requires p < |s.peers| && s.peers[p].cleaned && !s.peers[p].deleting
    ensures p < |Apply(s, e).peers| && Apply(s, e).peers[p] == s.peers[p]
  {
  }

  /** Once the cleaning action of a peer has ended, nothing ever closes or deletes that peer again. */
  lemma {:induction false} CloseIsFinal(events: seq<Event>, more: seq<Event>, p: nat)
    requires var s := Run(events); p < |s.peers| && s.peers[p].cleaned && !s.peers[p].deleting
    ensures p < |Run(events + more).peers| && Run(events + more).peers[p] == Run(events).peers[p]
    decreases |more|
  {
    hide Apply;
    var all := events + more;
    if more == [] {
      assert all == events;
    } else {
      assert all[..|all| - 1] == events + more[..|more| - 1];
      CloseIsFinal(events, more[..|more| - 1], p);
      CleanedPeerStays(Run(all[..|all| - 1]), all[|all| - 1], p);
    }
  }

  /** A `close` that runs to its end leaves the handle dead, deleted once, and out of the map. */
  lemma CloseCompletes(s: State, o: nat)
    requires Invariant(s) && At(s, o, Open)
    ensures var c := s.objects[o].handle;
            var t := Apply(Apply(Apply(Apply(s, CloseStart(o)), NativeClose(o)), NativeDelete(o)), Drop(o));
            && |t.channels| == |s.channels| && t.objects == s.objects[o := Object(c, Done)]
            && !t.channels[c].live && t.channels[c].deletes == 1 && SlotOf(s, c) !in t.table
            && (forall d :: 0 <= d < |s.channels| && d != c ==> t.channels[d] == s.channels[d])
  {
    hide Invariant;
    var c := s.objects[o].handle;
    assert ObjectOk(s, o) && ChannelOk(s, c) by { InvariantMeans(s, o, c); }
  }

  lemma InvariantMeans(s: State, o: nat, c: nat)
    requires Invariant(s) && o < |s.objects| && c < |s.channels|
    ensures ObjectOk(s, o) && ChannelOk(s, c)
  {
  }

  /** Cleaning a peer that nobody cleaned yet kills it and frees its record. */
  lemma CleanCompletes(s: State, p: nat)
    requires Invariant(s) && p < |s.peers| && !s.peers[p].cleaned
    ensures var t := Apply(Apply(s, PeerClean(p)), PeerDelete(p, true));
            && |t.peers| == |s.peers| && t.peers[p] == Peer(false, s.peers[p].pointer, true, false, 1, 1)
            && (s.peers[p].pointer.Some? ==>
                  && s.peers[p].pointer.value < |t.records|
                  && t.records[s.peers[p].pointer.value] == Record(p, 1))
  {
    assert PeerOk(s, p);
    if s.peers[p].pointer.Some? { assert RecordOk(s, s.peers[p].pointer.value); }
  }

  // ---- Events reach the right object ---------------------------------------------------

  /** What an event of a native channel finds: its record's listener looks the handle up in its peer's map. */
  function Route(s: State, c: nat): Option<nat>
    requires c < |s.channels|
  {
    match s.channels[c].pointer
    case None => None
    case Some(r) =>
      if r < |s.records| && Slot(s.records[r].owner, c) in s.table then Some(s.table[Slot(s.records[r].owner, c)])
      else None
  }

  /** An event is routed to an object exactly if that is the channel's published and not yet dropped object. */
  lemma RoutedToItsObject(events: seq<Event>, c: nat, o: nat)
    requires c < |Run(events).channels|
    ensures var s := Run(events);
            Route(s, c) == Some(o) <==> o < |s.objects| && s.objects[o].handle == c && s.objects[o].phase.Listed()
  {
    hide Run, Apply;
    var s := Run(events);
    RunInvariant(events);
    assert ChannelOk(s, c) && PeerOk(s, s.channels[c].peer);
    if o < |s.objects| { assert ObjectOk(s, o); }
    if SlotOf(s, c) in s.table { assert SlotOk(s, SlotOf(s, c)); }
  }

  /** A registered peer can be used at once and owns a fresh record; an unregistered one cannot be used. */
  lemma PeerCreated(s: State, registered: bool)
    ensures var t, p := Apply(s, CreatePeer(registered)), |s.peers|;
            && t.peers == s.peers + [t.peers[p]] && t.peers[p].live && !t.peers[p].cleaned
            && (Usable(t, p) <==> registered)
            && (registered ==> t.peers[p].pointer == Some(|s.records|) && t.records == s.records + [Record(p, 0)])
            && (!registered ==> t.peers[p].pointer == None && t.records == s.records)
  {
  }

  /** A channel that arrives at a usable peer is alive, points to that peer's record, and is not yet announced. */
  lemma ChannelArrived(s: State, p: nat)
    requires Invariant(s) && Usable(s, p)
    ensures var t, c := Apply(s, Arrive(p)), |s.channels|;
            && |t.channels| == c + 1 && t.channels[..c] == s.channels
            && t.channels[c].peer == p && t.channels[c].live && t.channels[c].deletes == 0
            && t.channels[c].pointer.Some? && t.channels[c].pointer.value < |t.records|
            && t.records[t.channels[c].pointer.value] == Record(p, 0)
            && Route(t, c) == None && t.objects == s.objects && t.peers == s.peers
  {
    assert PeerOk(s, p) && RecordOk(s, s.peers[p].pointer.value);
    forall k | k in s.table ensures k.handle < |s.channels| { assert SlotOk(s, k); }
  }

  /**
   Announcing a channel that arrived gives it an object in its peer's map, to which its events are then
   routed. Announcing it again while it is listed changes nothing.
   */
  lemma Announces(s: State, c: nat)
    requires Invariant(s) && c < |s.channels| && s.channels[c].maker == None
    ensures var t := Apply(s, OnDataChannel(c));
            && (SlotOf(s, c) in s.table ==> t == s)
            && (SlotOf(s, c) !in s.table ==>
                  && t.objects == s.objects + [Object(c, Open)] && Route(t, c) == Some(|s.objects|)
                  && t.channels == s.channels && t.peers == s.peers && t.records == s.records)
  {
    assert ChannelOk(s, c) && PeerOk(s, s.channels[c].peer);
  }

  /**
   Creating a channel locally gives a live handle that points to its peer's record and, once the new
   object is put into the map, is routed to that object.
   */
  lemma LocallyCreated(s: State, p: nat)
    requires Invariant(s) && Usable(s, p)
    ensures var c, o := |s.channels|, |s.objects|;
            var t := Apply(Apply(s, LocalCreate(p)), LocalPut(o));
            && t.objects == s.objects + [Object(c, Open)]
            && |t.channels| == c + 1 && t.channels[..c] == s.channels && t.channels[c].peer == p && t.channels[c].live
            && t.channels[c].pointer.Some? && t.channels[c].pointer.value < |t.records|
            && t.records[t.channels[c].pointer.value] == Record(p, 0)
            && Route(t, c) == Some(o) && t.peers == s.peers && t.records == s.records
  {
    assert PeerOk(s, p) && RecordOk(s, s.peers[p].pointer.value);
  }

  /** A peer whose native deletion fails stays alive, and its record is kept. */
  lemma DeletionFails(s: State, p: nat)
    requires p < |s.peers|
    ensures var t := Apply(s, PeerDelete(p, false));
            && t.records == s.records && t.channels == s.channels && t.objects == s.objects && t.table == s.table
            && |t.peers| == |s.peers| && t.peers[p].live == s.peers[p].live && !t.peers[p].deleting
  {
  }

  /** A claimed object is not claimed again: the compare-and-set of `close` succeeds only once. */
  lemma ClaimedOnce(s: State, o: nat)
    requires o < |s.objects| && !s.objects[o].phase.Open?
    ensures Apply(s, CloseStart(o)) == s
  {
  }

  /** A live channel has at most one object, although dead handles may be given new ones. */
  lemma OneObjectWhileAlive(events: seq<Event>, o1: nat, o2: nat)
    requires var s := Run(events);
             && o1 < |s.objects| && o2 < |s.objects| && s.objects[o1].handle == s.objects[o2].handle
             && s.objects[o1].handle < |s.channels| && s.channels[s.objects[o1].handle].live
    ensures o1 == o2
  {
    hide Run, Apply;
    var s := Run(events);
    RunInvariant(events);
    assert ObjectOk(s, o1) && ObjectOk(s, o2);
  }

  // ---- Record lifetime -----------------------------------------------------------------

  /** Every live channel points to the unfreed record of its own peer. */
  ghost predicate Safe(s: State) {
    forall c :: 0 <= c < |s.channels| && s.channels[c].live ==>
      && s.channels[c].pointer.Some? && s.channels[c].pointer.value < |s.records|
      && s.records[s.channels[c].pointer.value] == Record(s.channels[c].peer, 0)
  }

  ghost predicate NoneAlive(s: State, p: nat) {
    forall c :: 0 <= c < |s.channels| && s.channels[c].peer == p ==> !s.channels[c].live
  }

  /** Java closed every channel the peer ever had, at least through its native part. */
  ghost predicate AllClosed(s: State, p: nat) {
    forall c :: 0 <= c < |s.channels| && s.channels[c].peer == p ==> Closed(s, c)
  }

  /** A channel is dead exactly if Java closed it, so the native side need not be asked. */
  lemma NoneAliveIff(s: State, p: nat)
    requires Invariant(s)
    ensures NoneAlive(s, p) <==> AllClosed(s, p)
  {
    forall c | 0 <= c < |s.channels| ensures s.channels[c].live <==> !Closed(s, c) {
      assert DeathOk(s, c);
      if Closed(s, c) {
        var o :| 0 <= o < |s.objects| && s.objects[o].handle == c && s.objects[o].phase.Gone();
        assert ObjectOk(s, o);
      }
    }
  }

  /** If the step deletes a peer, Java closed all channels of that peer before. */
  ghost predicate Careful(s: State, e: Event) {
    e.PeerDelete? && e.succeeds && e.peer < |s.peers| && s.peers[e.peer].deleting ==> AllClosed(s, e.peer)
  }

  ghost predicate AlivePeers(s: State) {
    forall c :: 0 <= c < |s.channels| && s.channels[c].live ==>
      s.channels[c].peer < |s.peers| && s.peers[s.channels[c].peer].live
  }

  /** As long as records and handles are as every run leaves them, safety is about live peers. */
  lemma SafeMeans(s: State)
    requires Invariant(s)
    ensures Safe(s) <==> AlivePeers(s)
  {
    forall c | 0 <= c < |s.channels|
      ensures s.channels[c].peer < |s.peers|
      ensures (&& s.channels[c].pointer.Some? && s.channels[c].pointer.value < |s.records|
               && s.records[s.channels[c].pointer.value] == Record(s.channels[c].peer, 0))
              <==> s.peers[s.channels[c].peer].live
    {
      assert ChannelOk(s, c) && PeerOk(s, s.channels[c].peer);
      assert RecordOk(s, s.channels[c].pointer.value);
    }
  }

  lemma AliveStep(s: State, e: Event)
    requires Invariant(s) && AlivePeers(s)
    ensures AlivePeers(Apply(s, e)) <==> Careful(s, e)
  {
    var t := Apply(s, e);
    if e.PeerDelete? && e.peer < |s.peers| && s.peers[e.peer].deleting {
      assert PeerOk(s, e.peer) && t.channels == s.channels;
      NoneAliveIff(s, e.peer);
    }
  }

  lemma SafeStep(s: State, e: Event)
    requires Invariant(s) && Safe(s)
    ensures Safe(Apply(s, e)) <==> Careful(s, e)
  {
    hide Invariant, Safe, AlivePeers, Apply, Careful;
    InvariantStep(s, e);
    SafeMeans(s);
    SafeMeans(Apply(s, e));
    AliveStep(s, e);
  }

  /**
   Every state of a run is safe if and only if each peer is deleted only after Java closed all its channels.
   */
  lemma {:induction false} SafeIff(events: seq<Event>)
    ensures (forall n :: 0 <= n <= |events| ==> Safe(Run(events[..n])))
            <==> (forall n :: 0 <= n < |events| ==> Careful(Run(events[..n]), events[n]))
  {
    hide Run, Apply, Safe, Careful, Invariant;
    if events == [] {
      assert events[..0] == [];
      StartSafe();
    } else {
      var init, last := events[..|events| - 1], |events| - 1;
      SafeIff(init);
      assert forall n :: 0 <= n <= last ==> events[..n] == init[..n];
      RunInvariant(init);
      RunLast(events);
      assert events[..|events|] == events && init[..last] == init;
      if Safe(Run(init)) { SafeStep(Run(init), events[last]); }
    }
  }

  lemma StartSafe()
    ensures Safe(Run([]))
  {
  }

  lemma RunLast(events: seq<Event>)
    requires events != []
    ensures Run(events) == Apply(Run(events[..|events| - 1]), events[|events| - 1])
  {
  }

  // ---- When closing is careful ---------------------------------------------------------

  /** The test of `closeChannels`. */
  ghost predicate Empty(s: State, p: nat) { forall k :: k in s.table ==> k.peer != p }

  /** The map of `p` is empty, and no channel of `p` is being made or still waits to be announced. */
  ghost predicate Idle(s: State, p: nat) {
    && Empty(s, p)
    && (forall o :: 0 <= o < |s.objects| && s.objects[o].phase.Made? ==>
          s.objects[o].handle < |s.channels| && s.channels[s.objects[o].handle].peer != p)
    && (forall c :: 0 <= c < |s.channels| && s.channels[c].peer == p ==> s.channels[c].maker.Some? || Announced(s, c))
  }

  ghost predicate Announced(s: State, c: nat) {
    exists o :: 0 <= o < |s.objects| && s.objects[o].handle == c
  }

  /**
   What the test of `closeChannels` tells: once the map is empty, no channel of the peer is alive if and
   only if none is being made or unannounced.
   */
  lemma EmptyMapMeans(s: State, p: nat)
    requires Invariant(s) && Empty(s, p)
    ensures NoneAlive(s, p) <==> Idle(s, p)
  {
    if Idle(s, p) { IdleNoneAlive(s, p); }
    if NoneAlive(s, p) {
      forall o | 0 <= o < |s.objects| && s.objects[o].phase.Made?
        ensures s.objects[o].handle < |s.channels| && s.channels[s.objects[o].handle].peer != p
      {
        assert ObjectOk(s, o);
      }
      forall c | 0 <= c < |s.channels| && s.channels[c].peer == p ensures Announced(s, c) {
        assert DeathOk(s, c);
        var o :| 0 <= o < |s.objects| && s.objects[o].handle == c && s.objects[o].phase.Gone();
      }
    }
  }

  /** If a peer is idle, none of its channels is alive: a live one is in the map, being made, or unannounced. */
  lemma IdleNoneAlive(s: State, p: nat)
    requires Invariant(s) && Idle(s, p)
    ensures NoneAlive(s, p)
  {
    forall c | 0 <= c < |s.channels| && s.channels[c].peer == p
      ensures !s.channels[c].live
    {
      assert ChannelOk(s, c);
      var o :| 0 <= o < |s.objects| && s.objects[o].handle == c;
      assert ObjectOk(s, o);
    }
  }

  predicate Brings(e: Event, p: nat) { (e.LocalCreate? || e.Arrive?) && e.peer == p }

  lemma NoneAliveStays(s: State, e: Event, p: nat)
    requires NoneAlive(s, p) && !Brings(e, p)
    ensures NoneAlive(Apply(s, e), p)
  {
  }

  /**
   If the map was seen empty with nothing in flight, then until a new channel is created or arrives
   every deletion of the peer is careful.
   */
  lemma {:induction false} QuietCloseIsCareful(events: seq<Event>, more: seq<Event>, p: nat)
    requires Idle(Run(events), p)
    requires forall n :: 0 <= n < |more| ==> !Brings(more[n], p)
    ensures NoneAlive(Run(events + more), p)
    ensures forall succeeds :: Careful(Run(events + more), PeerDelete(p, succeeds))
    decreases |more|
  {
    hide Idle, Invariant, NoneAlive, AllClosed, Apply;
    var all := events + more;
    RunInvariant(all);
    if more == [] {
      assert all == events;
      IdleNoneAlive(Run(events), p);
    } else {
      assert all[..|all| - 1] == events + more[..|more| - 1];
      QuietCloseIsCareful(events, more[..|more| - 1], p);
      NoneAliveStays(Run(all[..|all| - 1]), all[|all| - 1], p);
    }
    NoneAliveIff(Run(all), p);
  }

  /** At position `m`, `p` was idle, and nothing was brought for it from there to position `k`. */
  ghost predicate Quiet(events: seq<Event>, p: nat, m: nat, k: nat) {
    && m <= k <= |events| && Idle(Run(events[..m]), p)
    && forall n :: m <= n < k ==> !Brings(events[n], p)
  }

  /**
   The run-level result: if `closeChannels` saw the peer idle before each deletion and nothing came in
   between, every live channel points to its own peer's unfreed record in every state of the run.
   */
  lemma QuietRunIsSafe(events: seq<Event>)
    requires forall k :: 0 <= k < |events| && events[k].PeerDelete? ==>
               exists m :: 0 <= m <= k && Quiet(events, events[k].peer, m, k)
    ensures forall n :: 0 <= n <= |events| ==> Safe(Run(events[..n]))
  {
    hide Run, Idle, Safe, AllClosed;
    forall k | 0 <= k < |events| ensures Careful(Run(events[..k]), events[k]) {
      if events[k].PeerDelete? {
        var p := events[k].peer;
        var m :| 0 <= m <= k && Quiet(events, p, m, k);
        assert events[..m] + events[m..k] == events[..k];
        QuietCloseIsCareful(events[..m], events[m..k], p);
        assert events[k] == PeerDelete(p, events[k].succeeds);
      }
    }
    SafeIff(events);
  }

  /** A channel that arrives after the map was seen empty is left with a pointer to a freed record. */
  lemma ArrivalDuringClose()
    ensures var s := Run([CreatePeer(true)] + [PeerClean(0)] + [Arrive(0)] + [PeerDelete(0, true)]);
            && |s.channels| == 1 && s.channels[0].live && s.channels[0].pointer == Some(0)
            && s.records == [Record(0, 1)] && !Safe(s)
  {
    var e0, e1, e2, e3 := CreatePeer(true), PeerClean(0), Arrive(0), PeerDelete(0, true);
    RunLast([e0]);
    assert [e0][..0] == [];
    RunMore([e0], e1);
    RunMore([e0] + [e1], e2);
    RunMore([e0] + [e1] + [e2], e3);
    var created := State([], [], [Peer(true, Some(0), false, false, 0, 0)], [Record(0, 0)], map[]);
    assert Run([e0]) == created;
    var cleaning := State([], [], [Peer(true, Some(0), true, true, 1, 0)], [Record(0, 0)], map[]);
    assert Apply(created, e1) == cleaning;
    var late := cleaning.(channels := [Channel(0, None, true, Some(0), 0)]);
    assert Apply(cleaning, e2) == late;
    var gone := Peer(false, Some(0), true, false, 1, 1);
    assert Apply(late, e3) == State(late.channels, [], [gone], [Record(0, 1)], map[]);
  }

  lemma RunMore(events: seq<Event>, e: Event)
    ensures Run(events + [e]) == Apply(Run(events), e)
  {
    assert (events + [e])[..|events|] == events;
  }
}
