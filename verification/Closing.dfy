/**
 Closing a data channel and a peer connection, as one thread runs it while other threads may still
 bring channels or close some.
 */
module Closing {
  import opened Listeners

  const ERR_INVALID := -1

  datatype Call =
    | CloseChannel(channel: nat) | DeleteChannel(channel: nat)
    | ClosePeer(peer: nat) | DeletePeer(peer: nat)

  /** The native side: which handles are alive, and every closing or deleting call made to it. */
  class Native {
    var channels: set<nat>
    var peers: set<nat>
    var log: seq<Call>

    constructor ()
      ensures channels == {} && peers == {} && log == []
    {
      channels, peers, log := {}, {}, [];
    }

    /** `rtcClose`: reports an invalid handle exactly if the handle is dead. */
    method CloseChannel(handle: nat) returns (code: int)
      modifies this`log
      ensures log == old(log) + [Call.CloseChannel(handle)]
      ensures code == ERR_INVALID <==> handle !in channels
    {
      log := log + [Call.CloseChannel(handle)];
      if handle !in channels { return ERR_INVALID; }
      var other: int := *;
      code := if other == ERR_INVALID then 0 else other;
    }

    method DeleteChannel(handle: nat)
      modifies this`log, this`channels
      ensures log == old(log) + [Call.DeleteChannel(handle)] && channels == old(channels) - {handle}
    {
      log := log + [Call.DeleteChannel(handle)];
      channels := channels - {handle};
    }

    method ClosePeer(handle: nat) returns (code: int)
      modifies this`log
      ensures log == old(log) + [Call.ClosePeer(handle)]
      ensures code == ERR_INVALID <==> handle !in peers
    {
      log := log + [Call.ClosePeer(handle)];
      if handle !in peers { return ERR_INVALID; }
      var other: int := *;
      code := if other == ERR_INVALID then 0 else other;
    }

    method DeletePeer(handle: nat) returns (deleted: bool)
      modifies this`log, this`peers
      ensures log == old(log) + [Call.DeletePeer(handle)]
      ensures peers == if deleted then old(peers) - {handle} else old(peers)
    {
      log := log + [Call.DeletePeer(handle)];
      deleted := *;
      if deleted { peers := peers - {handle}; }
    }
  }

  /** The contents of a listener container: once closed it is empty. */
  type Container = c: Contents<nat> | c.closed ==> c.listeners == [] witness Contents([], false)

  /** What closing a container leaves: nobody listens, and nobody can any more. */
  method CloseContainer(c: Container) returns (after: Container)
    ensures after.closed && after.listeners == []
  {
    after := Locked(c, Op.Close).after;
  }

  class DataChannel {
    const peer: PeerConnection
    const handle: nat
    var closed: bool
    var onOpen: Container
    var onClosed: Container
    var onError: Container
    var onMessage: Container
    var onBufferedAmountLow: Container
    var onAvailable: Container

    constructor (peer: PeerConnection, handle: nat)
      ensures this.peer == peer && this.handle == handle && !closed
      ensures onOpen == onClosed == onError == onMessage == onBufferedAmountLow == onAvailable == Contents([], false)
    {
      this.peer, this.handle, closed := peer, handle, false;
      onOpen, onClosed, onError := Contents([], false), Contents([], false), Contents([], false);
      onMessage, onBufferedAmountLow, onAvailable := Contents([], false), Contents([], false), Contents([], false);
    }

    /**
     The first call closes the native channel, deletes it if it was alive, leaves the peer's map and
     closes all six containers; every later call does nothing.
     */
    method Close()
      modifies this, peer`channels, peer.native`log, peer.native`channels
      ensures old(closed) ==> unchanged(this) && unchanged(peer) && unchanged(peer.native)
      ensures !old(closed) ==>
                && closed
                && peer.channels == old(peer.channels) - {handle}
                && peer.native.channels == old(peer.native.channels) - {handle}
                && peer.native.log == old(peer.native.log) + [CloseChannel(handle)]
                   + (if handle in old(peer.native.channels) then [DeleteChannel(handle)] else [])
                && onOpen == onClosed == onError == Contents([], true)
                && onMessage == onBufferedAmountLow == onAvailable == Contents([], true)
    {
      if closed { return; }
      closed := true;
      var code := peer.native.CloseChannel(handle);
      if code != ERR_INVALID { peer.native.DeleteChannel(handle); }
      peer.DropChannelState(handle);
      onOpen := CloseContainer(onOpen);
      onClosed := CloseContainer(onClosed);
      onError := CloseContainer(onError);
      onMessage := CloseContainer(onMessage);
      onBufferedAmountLow := CloseContainer(onBufferedAmountLow);
      onAvailable := CloseContainer(onAvailable);
    }
  }

  class PeerConnection {
    const native: Native
    const handle: nat
    var channels: map<nat, DataChannel>
    var cleaned: bool
    var onLocalDescription: Container
    var onLocalCandidate: Container
    var onStateChange: Container
    var onIceStateChange: Container
    var onGatheringStateChange: Container
    var onSignalingStateChange: Container
    var onDataChannel: Container
    var onTrack: Container

    constructor (native: Native, handle: nat)
      ensures this.native == native && this.handle == handle && channels == map[] && !cleaned && Valid()
      ensures onLocalDescription == onLocalCandidate == onStateChange == onIceStateChange == Contents([], false)
      ensures onGatheringStateChange == onSignalingStateChange == onDataChannel == onTrack == Contents([], false)
    {
      this.native, this.handle, channels, cleaned := native, handle, map[], false;
      var none := Contents([], false);
      onLocalDescription, onLocalCandidate, onStateChange, onIceStateChange := none, none, none, none;
      onGatheringStateChange, onSignalingStateChange, onDataChannel, onTrack := none, none, none, none;
    }

    /** The map holds channels of this peer under their handles; a closed one is still being closed by some thread. */
    ghost predicate Valid()
      reads this
    {
      forall h :: h in channels ==> channels[h].peer == this && channels[h].handle == h
    }

    /** The native channels no object of the map stands for. */
    ghost function Unlisted(): set<nat>
      reads this, native
    {
      native.channels - channels.Keys
    }

    method DropChannelState(h: nat)
      modifies this`channels
      ensures channels == old(channels) - {h}
    {
      channels := channels - {h};
    }

    /** `computeIfAbsent`: an existing object is kept. */
    method NewChannel(h: nat) returns (channel: DataChannel)
      requires Valid()
      modifies this`channels
      ensures Valid() && h in channels && channels[h] == channel
      ensures channels == if h in old(channels) then old(channels) else old(channels)[h := channel]
      ensures h !in old(channels) ==> fresh(channel)
    {
      if h in channels { return channels[h]; }
      channel := new DataChannel(this, h);
      channels := channels[h := channel];
    }

    /** Objects of `before` stay closed, are closed or still listed, and everything else in the map is new. */
    twostate predicate Meanwhile(before: map<nat, DataChannel>)
      reads this, channels.Values, before.Values
    {
      && (forall h :: h in before ==> old(before[h].closed) ==> before[h].closed)
      && (forall h :: h in before ==> before[h].closed || (h in channels && channels[h] == before[h]))
      && (forall h :: h in channels ==> channels[h] in before.Values || fresh(channels[h]))
    }

    /** Nothing is listed that was not before. */
    ghost predicate NoneNew(before: map<nat, DataChannel>)
      reads this
    {
      forall h :: h in channels ==> h in before && channels[h] == before[h]
    }

    /** Another thread goes on with the close of a listed channel it has claimed. */
    method FinishOther(h: nat)
      requires Valid() && h in channels && channels[h].closed
      modifies this`channels, native`log, native`channels
      ensures Valid() && channels == old(channels) - {h} && Unlisted() == old(Unlisted())
    {
      var code := native.CloseChannel(h);
      if code != ERR_INVALID { native.DeleteChannel(h); }
      DropChannelState(h);
    }

    /**
     One step of some other thread: a channel arrives, while `arrivals` lasts, alive already, newly alive
     or dead again; or a listed channel is claimed for closing, or the close of a claimed one ends.
     */
    method OtherStep(arrivals: nat) returns (left: nat)
      requires Valid()
      modifies this`channels, native`log, native`channels, channels.Values
      ensures Valid() && left <= arrivals && (left == arrivals ==> NoneNew(old(channels)))
      ensures Meanwhile(old(channels)) && Unlisted() <= old(Unlisted())
      ensures old(channels) == map[] && arrivals == 0 ==> channels == map[] && native.log == old(native.log)
    {
      left := arrivals;
      var h: nat := *;
      var arrives: bool := *;
      if arrives && left > 0 {
        var born: bool := *;
        if born && h !in channels { native.channels := native.channels + {h}; }
        var channel := NewChannel(h);
        left := left - 1;
      } else if h in channels {
        if channels[h].closed { FinishOther(h); } else { channels[h].closed := true; }
      }
    }

    /** Every close that another thread has begun comes to its end. */
    method OthersFinish()
      requires Valid()
      modifies this`channels, native`log, native`channels
      ensures Valid() && NoneNew(old(channels)) && Unlisted() <= old(Unlisted())
      ensures forall h :: h in old(channels) ==> (h in channels <==> !old(channels)[h].closed)
      ensures old(channels) == map[] ==> native.log == old(native.log)
    {
      var rest := channels.Keys;
      while rest != {}
        invariant Valid() && rest <= channels.Keys && NoneNew(old(channels)) && Unlisted() <= old(Unlisted())
        invariant forall h :: h in old(channels) ==> (h in channels <==> h in rest || !old(channels)[h].closed)
        invariant old(channels) == map[] ==> native.log == old(native.log)
      {
        var h :| h in rest;
        rest := rest - {h};
        if channels[h].closed { FinishOther(h); }
      }
    }

    /** Any number of steps of other threads; when patience ends, the closes they began are over. */
    method Interleave(arrivals: nat, patient: bool) returns (left: nat)
      requires Valid()
      modifies this`channels, native`log, native`channels, channels.Values
      ensures Valid() && left <= arrivals && (left == arrivals ==> NoneNew(old(channels)))
      ensures Meanwhile(old(channels)) && Unlisted() <= old(Unlisted())
      ensures !patient ==> forall h :: h in channels ==> !channels[h].closed
      ensures old(channels) == map[] && arrivals == 0 ==> channels == map[] && native.log == old(native.log)
    {
      left := arrivals;
      var any: int := *;
      var steps := if any < 0 then 0 else any;
      for i := 0 to steps
        invariant Valid() && left <= arrivals && (left == arrivals ==> NoneNew(old(channels)))
        invariant Meanwhile(old(channels)) && Unlisted() <= old(Unlisted())
        invariant old(channels) == map[] && arrivals == 0 ==> channels == map[] && native.log == old(native.log)
      {
        left := OtherStep(left);
      }
      if !patient { OthersFinish(); }
    }

    /** One turn of the loop over a copy of the map's objects, after other threads had theirs. */
    method CloseNext(channel: DataChannel, arrivals: nat, patient: bool) returns (left: nat)
      requires Valid() && channel.peer == this && (channel.closed || channel in channels.Values)
      modifies this`channels, native`log, native`channels, channels.Values, channel
      ensures Valid() && left <= arrivals && (left == arrivals ==> NoneNew(old(channels)))
      ensures Meanwhile(old(channels)) && Unlisted() <= old(Unlisted()) && channel.closed
    {
      left := Interleave(arrivals, patient);
      channel.Close();
    }

    /** One pass over a copy of the map's objects; what is then still listed arrived meanwhile or is being closed. */
    method ClosePass(arrivals: nat, patient: bool) returns (left: nat)
      requires Valid()
      modifies this`channels, native`log, native`channels, channels.Values
      ensures Valid() && left <= arrivals
      ensures left == arrivals ==> forall h :: h in channels ==> channels[h].closed
      ensures forall h :: h in old(channels) ==> old(channels)[h].closed
      ensures forall h :: h in channels ==> channels[h] in old(channels.Values) || fresh(channels[h])
      ensures Unlisted() <= old(Unlisted())
      ensures old(channels) == map[] ==> channels == map[] && native.log == old(native.log)
    {
      left := arrivals;
      var snapshot := channels;
      var rest := snapshot.Keys;
      while rest != {}
        invariant rest <= snapshot.Keys && Valid() && left <= arrivals
        invariant left == arrivals ==> NoneNew(snapshot)
        invariant forall h :: h in snapshot.Keys - rest ==> snapshot[h].closed
        invariant Meanwhile(old(channels))
        invariant Unlisted() <= old(Unlisted())
        invariant rest == snapshot.Keys ==> channels == snapshot && native.log == old(native.log)
      {
        var h :| h in rest;
        rest := rest - {h};
        left := CloseNext(snapshot[h], left, patient);
      }
    }

    /**
     If only finitely many channels still arrive, and other threads end the closes they began within
     `patience` passes, it ends: with an empty map, every channel that was in it closed, and no native
     channel alive but those nobody announced.
     */
    method CloseChannels(arrivals: nat, patience: nat) returns (left: nat)
      requires Valid()
      modifies this`channels, native`log, native`channels, channels.Values
      ensures channels == map[] && left <= arrivals
      ensures forall h :: h in old(channels) ==> old(channels)[h].closed
      ensures native.channels <= old(Unlisted())
      ensures old(channels) == map[] && arrivals == 0 ==> native.log == old(native.log)
      decreases arrivals, patience
    {
      left := ClosePass(arrivals, patience > 0);
      var unseen := left;
      left := Interleave(unseen, patience > 0);
      if channels != map[] { left := CloseChannels(left, if patience > 0 then patience - 1 else 0); }
    }

    /** The cleaning action runs at most once, whoever asks for it. */
    method Clean()
      modifies this`cleaned, native`log, native`peers
      ensures cleaned
      ensures old(cleaned) ==> unchanged(native)
      ensures !old(cleaned) ==>
                && native.log == old(native.log) + [ClosePeer(handle)]
                   + (if handle in old(native.peers) then [DeletePeer(handle)] else [])
                && (native.peers == old(native.peers) || native.peers == old(native.peers) - {handle})
    {
      if cleaned { return; }
      cleaned := true;
      var code := native.ClosePeer(handle);
      if code != ERR_INVALID { var deleted := native.DeletePeer(handle); }
    }

    /** None of the eight containers has a listener or takes one any more. */
    ghost predicate AllShut()
      reads this
    {
      && onLocalDescription == onLocalCandidate == onStateChange == onIceStateChange == Contents([], true)
      && onGatheringStateChange == onSignalingStateChange == onDataChannel == onTrack == Contents([], true)
    }

    method CloseContainers()
      modifies this`onLocalDescription, this`onLocalCandidate, this`onStateChange, this`onIceStateChange,
               this`onGatheringStateChange, this`onSignalingStateChange, this`onDataChannel, this`onTrack
      ensures AllShut()
    {
      onLocalDescription := CloseContainer(onLocalDescription);
      onLocalCandidate := CloseContainer(onLocalCandidate);
      onStateChange := CloseContainer(onStateChange);
      onIceStateChange := CloseContainer(onIceStateChange);
      onGatheringStateChange := CloseContainer(onGatheringStateChange);
      onSignalingStateChange := CloseContainer(onSignalingStateChange);
      onDataChannel := CloseContainer(onDataChannel);
      onTrack := CloseContainer(onTrack);
    }

    /** Afterwards everything is closed; closing again with nothing new makes no native call. */
    method Close(arrivals: nat, patience: nat) returns (left: nat)
      requires Valid()
      modifies this, native, channels.Values
      ensures channels == map[] && cleaned && left <= arrivals
      ensures forall h :: h in old(channels) ==> old(channels)[h].closed
      ensures native.channels <= old(Unlisted())
      ensures !old(cleaned) && handle in old(native.peers) ==>
                exists before :: native.log == before + [ClosePeer(handle)] + [DeletePeer(handle)]
      ensures old(cleaned) && old(channels) == map[] && arrivals == 0 ==>
                native.log == old(native.log) && native.peers == old(native.peers)
      ensures AllShut()
    {
      left := CloseChannels(arrivals, patience);
      ghost var before := native.log;
      Clean();
      assert !old(cleaned) && handle in old(native.peers) ==>
               native.log == before + [ClosePeer(handle)] + [DeletePeer(handle)];
      CloseContainers();
    }
  }
}
