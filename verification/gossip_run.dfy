/** Properties that relate several dispatches: the two-phase descriptor
    delivery, repeated readiness reports, freed peers, and whole runs of
    messages from the subdaemon. */
module GossipRun {
  import opened Optional
  import opened Wire
  import opened Peers
  import opened GossipMsg
  import opened GossipControl

  /** One message as the channel delivers it to the dispatcher. */
  datatype Delivery = Delivery(t: GossipWireType, msg: Decoded<StatusFields>, fd: int)

  /** Where a run of deliveries leaves the coordinator. */
  datatype RunState = Running(reg: Registry, effects: seq<Effect>) | Died(reason: FatalReason)

  /** Dispatches the deliveries in order. A delivery answered with NeedFd
      changes nothing; the channel delivers it again once its descriptor has
      arrived, as a later element of the run. The first Fatal outcome ends the run. */
  function Run(accept: PeerAccept, reg: Registry, ds: seq<Delivery>): RunState
    decreases |ds|
  {
    if |ds| == 0 then Running(reg, []) else
      match GossipDispatch(reg, ds[0].t, ds[0].msg, ds[0].fd, accept)
      case NeedFd => Run(accept, reg, ds[1..])
      case Fatal(why) => Died(why)
      case Complete(next, now) =>
        match Run(accept, next, ds[1..])
        case Running(last, later) => Running(last, now + later)
        case Died(why) => Died(why)
  }

  /** How many of the effects complete command `cmd`. */
  function Completions(effects: seq<Effect>, cmd: Command): nat
  {
    if |effects| == 0 then 0
    else
      var here := if effects[0].CommandSuccess? && effects[0].cmd == cmd then 1 else 0;
      here + Completions(effects[1..], cmd)
  }

  lemma {:induction false} CompletionsAppend(a: seq<Effect>, b: seq<Effect>, cmd: Command)
    ensures Completions(a + b, cmd) == Completions(a, cmd) + Completions(b, cmd)
    decreases |a|
  {
    if |a| > 0 {
      assert (a + b)[1..] == a[1..] + b;
      CompletionsAppend(a[1..], b, cmd);
    } else {
      assert a + b == b;
    }
  }

  lemma SubsetCard<T>(a: set<T>, b: set<T>)
    requires a <= b
    ensures |a| <= |b|
  {
    assert b == a + (b - a);
  }

  /** A NeedFd answer leaves the registry as it was: a run that defers a
      delivery ends where the run without it ends. */
  lemma {:induction false} DeferredDeliveryChangesNothing(accept: PeerAccept, reg: Registry, d: Delivery, ds: seq<Delivery>)
    requires CarriesFd(d.t) && d.fd == NoFd
    ensures Run(accept, reg, [d] + ds) == Run(accept, reg, ds)
  {
  }

  /** A peer that has reported ready has no pending connect command, so a
      second readiness report completes nothing and still succeeds. */
  lemma ReadyTwiceCompletesOnce(accept: PeerAccept, reg: Registry, uid: UniqueId, fd1: int, fd2: int)
    requires fd1 != NoFd && fd2 != NoFd
    requires uid in reg
    ensures var first := GossipDispatch(reg, GossipstatusPeerReady, Ok(PeerReadyFields(uid)), fd1, accept);
      && first.Complete?
      && (reg[uid].connectCmd.Some? <==> |first.effects| == 1)
      && var second := GossipDispatch(first.reg, GossipstatusPeerReady, Ok(PeerReadyFields(uid)), fd2, accept);
      && second.Complete?
      && second.effects == []
      && second.reg[uid].gossipClientFd == fd2
  {
  }

  /** After a bad-message report frees a peer, the peer is gone and every
      later report that names it is fatal. */
  lemma FreedPeerIsUnknown(accept: PeerAccept, reg: Registry, uid: UniqueId, err: seq<byte>, later: StatusFields, fd: int)
    requires uid in reg
    requires later.uniqueId == uid
    ensures var out := GossipDispatch(reg, GossipstatusPeerBadMsg, Ok(PeerBadMsgFields(uid, err)), NoFd, accept);
      && out.Complete?
      && uid !in out.reg
      && (later.PeerBadMsgFields? ==>
            GossipDispatch(out.reg, GossipstatusPeerBadMsg, Ok(later), fd, accept) == Fatal(BadPeerId(uid)))
      && (fd != NoFd && later.PeerNongossipFields? ==>
            GossipDispatch(out.reg, GossipstatusPeerNongossip, Ok(later), fd, accept) == Fatal(BadPeerId(uid)))
      && (fd != NoFd && later.PeerReadyFields? ==>
            GossipDispatch(out.reg, GossipstatusPeerReady, Ok(later), fd, accept) == Fatal(BadPeerId(uid)))
  {
  }

  /** A second handoff report for a peer depends only on what the
      channel-opening collaborator left: fatal for the id when the
      collaborator freed the peer, fatal for the owner when it took the peer
      away from the gossip subdaemon, fatal for the occupied slot when the
      peer is still the subdaemon's and still holds a descriptor, and handled
      again only when the peer is back with the subdaemon with an empty slot. */
  lemma SecondHandoffDependsOnCollaborator(accept: PeerAccept, reg: Registry, uid: UniqueId, cs: CryptoState, inner: seq<byte>, fd1: int, fd2: int)
    requires fd1 != NoFd && fd2 != NoFd
    requires uid in reg && reg[uid].owner == GossipDaemon && reg[uid].fd == NoFd
    ensures var report := Ok(PeerNongossipFields(uid, cs, inner));
      var first := GossipDispatch(reg, GossipstatusPeerNongossip, report, fd1, accept);
      && first.Complete?
      && var second := GossipDispatch(first.reg, GossipstatusPeerNongossip, report, fd2, accept);
      && (uid !in first.reg ==> second == Fatal(BadPeerId(uid)))
      && (uid in first.reg ==>
            var accepted := first.reg[uid];
            && (accepted.owner != GossipDaemon ==> second == Fatal(BadPeerOwner(uid, accepted.owner)))
            && (accepted.owner == GossipDaemon && accepted.fd != NoFd ==> second == Fatal(FdSlotOccupied(uid, accepted.fd)))
            && (accepted.owner == GossipDaemon && accepted.fd == NoFd ==> second.Complete?))
  {
  }

  /** The condition a handoff leaves on the peer it hands over reflects the
      inner message's type and nothing else: two handoffs of the same peer
      leave the same condition exactly when their inner messages start with
      the same two type bytes. */
  lemma HandoffConditionReflectsInnerType(accept: PeerAccept, reg: Registry, uid: UniqueId, cs: CryptoState, a: seq<byte>, b: seq<byte>, fd: int)
    requires fd != NoFd
    requires uid in reg && reg[uid].owner == GossipDaemon && reg[uid].fd == NoFd
    requires |a| >= 2 && |b| >= 2
    ensures var ra := GossipDispatch(reg, GossipstatusPeerNongossip, Ok(PeerNongossipFields(uid, cs, a)), fd, accept);
      var rb := GossipDispatch(reg, GossipstatusPeerNongossip, Ok(PeerNongossipFields(uid, cs, b)), fd, accept);
      && ra.Complete? && rb.Complete?
      && (ra.effects[0].handed.condition == rb.effects[0].handed.condition <==> a[..2] == b[..2])
  {
  }

  /** Dispatch never registers a peer, so neither does a run. */
  lemma {:induction false} RunAddsNoPeers(accept: PeerAccept, reg: Registry, ds: seq<Delivery>)
    ensures Run(accept, reg, ds).Running? ==> Run(accept, reg, ds).reg.Keys <= reg.Keys
    decreases |ds|
  {
    if |ds| > 0 {
      var out := GossipDispatch(reg, ds[0].t, ds[0].msg, ds[0].fd, accept);
      if out.NeedFd? {
        RunAddsNoPeers(accept, reg, ds[1..]);
      } else if out.Complete? {
        RunAddsNoPeers(accept, out.reg, ds[1..]);
      }
    }
  }

  /** One dispatch completes `cmd` at most as often as it removes peers
      holding `cmd` from the registry, provided the channel-opening
      collaborator starts no command of its own. */
  lemma DispatchCompletionsBounded(accept: PeerAccept, reg: Registry, t: GossipWireType, msg: Decoded<StatusFields>, fd: int, cmd: Command)
    requires StartsNoCommand(accept)
    requires GossipDispatch(reg, t, msg, fd, accept).Complete?
    ensures var out := GossipDispatch(reg, t, msg, fd, accept);
      Completions(out.effects, cmd) + |Holders(out.reg, cmd)| <= |Holders(reg, cmd)|
  {
    var out := GossipDispatch(reg, t, msg, fd, accept);
    if !Ignored(t) {
      var uid := msg.fields.uniqueId;
      var before := Holders(reg, cmd);
      var after := Holders(out.reg, cmd);
      assert after - {uid} == before - {uid};
      if t.GossipstatusPeerReady? && reg[uid].connectCmd == Some(cmd) {
        assert Completions(out.effects, cmd) == 1;
        assert uid in before && uid !in after;
        assert after == before - {uid};
      } else {
        assert Completions(out.effects, cmd) == 0;
        if t.GossipstatusPeerNongossip? {
          var h := out.effects[0];
          assert uid in out.reg ==> out.reg[uid] == accept(h.handed, h.cs, h.inner).value;
        }
        assert uid in after ==> uid in before;
        SubsetCard(after, before);
      }
    }
  }

  /** Over a whole run, `cmd` completes at most as many times as there were
      peers holding it at the start; a command pending on one peer completes
      at most once. */
  lemma {:induction false} RunCompletesEachCommandAtMostOnce(accept: PeerAccept, reg: Registry, ds: seq<Delivery>, cmd: Command)
    requires StartsNoCommand(accept)
    ensures var r := Run(accept, reg, ds);
      r.Running? ==> Completions(r.effects, cmd) + |Holders(r.reg, cmd)| <= |Holders(reg, cmd)|
    decreases |ds|
  {
    if |ds| > 0 {
      var out := GossipDispatch(reg, ds[0].t, ds[0].msg, ds[0].fd, accept);
      if out.NeedFd? {
        RunCompletesEachCommandAtMostOnce(accept, reg, ds[1..], cmd);
      } else if out.Complete? {
        DispatchCompletionsBounded(accept, reg, ds[0].t, ds[0].msg, ds[0].fd, cmd);
        RunCompletesEachCommandAtMostOnce(accept, out.reg, ds[1..], cmd);
        var rest := Run(accept, out.reg, ds[1..]);
        if rest.Running? {
          CompletionsAppend(out.effects, rest.effects, cmd);
        }
      }
    }
  }

  /** The node-list reply for two entries, one with a hostname and one
      without, has two records and the second hostname is null. */
  method TwoNodeReply(cmd: Command, dec: EntryDecoder, enc: EntryEncoder, fits: GetnodesEntry -> bool, named: GetnodesEntry, anonymous: GetnodesEntry)
    returns (effects: seq<Effect>)
    requires Advances(dec) && Inverts(dec, enc, fits) && WritesSomething(enc)
    requires fits(named) && fits(anonymous)
    requires |named.hostname| > 0 && |anonymous.hostname| == 0
    ensures effects == [CommandSuccess(cmd, NodesResult([
      NodeRecord(named.nodeid, Some(named.hostname), named.port),
      NodeRecord(anonymous.nodeid, None, anonymous.port)]))]
  {
    DecodeEncodeEntries(dec, enc, fits, [named, anonymous]);
    effects := JsonGetnodesReply(cmd, EncodeEntries(enc, [named, anonymous]), dec);
    var nodes := effects[0].response.nodes;
    assert nodes == [ToNodeRecord(named), ToNodeRecord(anonymous)];
  }
}
