/** The coordinator's dispatcher for messages from the gossip subdaemon, and
    the builder of the reply to the `getnodes` command.

    Every handler is a pure function from the registry to an Outcome. A
    protocol violation (a body that does not decode, an id the coordinator
    never handed out, a peer the gossip subdaemon does not own, an occupied
    descriptor slot) is Fatal: the coordinator process ends there, so a Fatal
    outcome carries no registry and no effect at all. */
module GossipControl {
  import opened Optional
  import opened Wire
  import opened Peers
  import opened GossipMsg

  /** One node of the `getnodes` result; a missing hostname is JSON null. */
  datatype NodeRecord = NodeRecord(nodeid: PubKey, hostname: Option<string>, port: u16)

  /** The success payload handed to a completed command. */
  datatype Response = ConnectResult(id: PubKey) | NodesResult(nodes: seq<NodeRecord>)

  /** What a handled message does outside the registry. */
  datatype Effect =
    | PeerFreed(uniqueId: UniqueId, last: Peer)
    | HandedToOpening(uniqueId: UniqueId, handed: Peer, cs: CryptoState, inner: seq<byte>)
    | CommandSuccess(cmd: Command, response: Response)

  /** Why the coordinator gives up. */
  datatype FatalReason =
    | BadStatusMessage(msgType: GossipWireType)
    | BadPeerId(uniqueId: UniqueId)
    | BadPeerOwner(uniqueId: UniqueId, owner: Owner)
    | FdSlotOccupied(uniqueId: UniqueId, fd: int)

  /** The channel-opening collaborator: given the peer as the handoff left
      it, the returned encryption state and the inner message, it yields the
      peer as it stands once it has taken the peer over, or None when it has
      freed the peer. What it does is not part of this model, so it is a
      parameter. */
  type PeerAccept = (Peer, CryptoState, seq<byte>) -> Option<Peer>

  /** The collaborator does not start a connect command of its own: it keeps
      the peer's pending command or drops it. */
  ghost predicate StartsNoCommand(accept: PeerAccept)
  {
    forall p: Peer, cs: CryptoState, inner: seq<byte> ::
      accept(p, cs, inner).Some? ==>
        accept(p, cs, inner).value.connectCmd.None? || accept(p, cs, inner).value.connectCmd == p.connectCmd
  }

  datatype Outcome =
    | Complete(reg: Registry, effects: seq<Effect>)
    | NeedFd
    | Fatal(reason: FatalReason)

  /** The subdaemon reports that a remote peer sent a bad message: the peer's
      condition is set and the peer is freed. The condition names the type of
      the status message itself, so it is the same for every bad message. */
  function PeerBadMessage(reg: Registry, msg: Decoded<StatusFields>): (out: Outcome)
    ensures !out.NeedFd?
    ensures !(msg.Ok? && msg.fields.PeerBadMsgFields?) <==>
      out == Fatal(BadStatusMessage(GossipstatusPeerBadMsg))
    ensures msg.Ok? && msg.fields.PeerBadMsgFields? && msg.fields.uniqueId !in reg <==>
      out.Fatal? && out.reason.BadPeerId?
    ensures out.Fatal? && out.reason.BadPeerId? ==> out.reason.uniqueId == msg.fields.uniqueId
    ensures out.Complete? <==> msg.Ok? && msg.fields.PeerBadMsgFields? && msg.fields.uniqueId in reg
    ensures out.Complete? ==>
      var uid := msg.fields.uniqueId;
      && uid !in out.reg
      && AgreeExcept(reg, out.reg, uid)
      && out.effects == [PeerFreed(uid, reg[uid].(condition := BadMessageDuringGossip(GossipstatusPeerBadMsg)))]
  {
    match msg
    case Ok(PeerBadMsgFields(uid, err)) =>
      if uid !in reg then Fatal(BadPeerId(uid))
      else
        var p := reg[uid].(condition := BadMessageDuringGossip(GossipstatusPeerBadMsg));
        Complete(reg - {uid}, [PeerFreed(uid, p)])
    case _ => Fatal(BadStatusMessage(GossipstatusPeerBadMsg))
  }

  /** The subdaemon hands a peer back because it received a message that is
      not gossip: the connection descriptor returns to the peer, the
      condition records the inner message's type, and the peer goes to the
      channel-opening collaborator with the returned encryption state; the
      registry then holds the peer as the collaborator leaves it. */
  function PeerNongossip(reg: Registry, msg: Decoded<StatusFields>, fd: int, accept: PeerAccept): (out: Outcome)
    ensures !out.NeedFd?
    ensures !(msg.Ok? && msg.fields.PeerNongossipFields?) <==>
      out == Fatal(BadStatusMessage(GossipstatusPeerNongossip))
    ensures out.Complete? <==>
      && msg.Ok? && msg.fields.PeerNongossipFields?
      && msg.fields.uniqueId in reg
      && reg[msg.fields.uniqueId].owner == GossipDaemon
      && reg[msg.fields.uniqueId].fd == NoFd
    ensures msg.Ok? && msg.fields.PeerNongossipFields? ==>
      var uid := msg.fields.uniqueId;
      && (uid !in reg ==> out == Fatal(BadPeerId(uid)))
      && (uid in reg && reg[uid].owner != GossipDaemon ==>
            out == Fatal(BadPeerOwner(uid, reg[uid].owner)))
      && (uid in reg && reg[uid].owner == GossipDaemon && reg[uid].fd != NoFd ==>
            out == Fatal(FdSlotOccupied(uid, reg[uid].fd)))
    ensures out.Complete? ==>
      var uid := msg.fields.uniqueId;
      var p := reg[uid];
      && |out.effects| == 1 && out.effects[0].HandedToOpening?
      && var h := out.effects[0];
      && h.uniqueId == uid && h.cs == msg.fields.cs && h.inner == msg.fields.inner
      && h.handed.fd == fd
      && h.handed.condition == GossipEndedUponReceipt(PeekType(msg.fields.inner))
      && h.handed.id == p.id
      && h.handed.owner == p.owner
      && h.handed.gossipClientFd == p.gossipClientFd
      && h.handed.connectCmd == p.connectCmd
      && (accept(h.handed, h.cs, h.inner).None? <==> uid !in out.reg)
      && (uid in out.reg ==> out.reg[uid] == accept(h.handed, h.cs, h.inner).value)
      && AgreeExcept(reg, out.reg, uid)
  {
    match msg
    case Ok(PeerNongossipFields(uid, cs, inner)) =>
      if uid !in reg then Fatal(BadPeerId(uid))
      else if reg[uid].owner != GossipDaemon then Fatal(BadPeerOwner(uid, reg[uid].owner))
      else if reg[uid].fd != NoFd then Fatal(FdSlotOccupied(uid, reg[uid].fd))
      else
        var handed := reg[uid].(fd := fd, condition := GossipEndedUponReceipt(PeekType(inner)));
        var next := match accept(handed, cs, inner)
          case Some(accepted) => reg[uid := accepted]
          case None => reg - {uid};
        Complete(next, [HandedToOpening(uid, handed, cs, inner)])
    case _ => Fatal(BadStatusMessage(GossipstatusPeerNongossip))
  }

  /** The subdaemon reports that a peer is ready to exchange gossip: a pending
      connect command completes with the peer's id and is cleared, the gossip
      client descriptor is stored, and the peer stays with the subdaemon. */
  function PeerReady(reg: Registry, msg: Decoded<StatusFields>, fd: int): (out: Outcome)
    ensures !out.NeedFd?
    ensures !(msg.Ok? && msg.fields.PeerReadyFields?) <==>
      out == Fatal(BadStatusMessage(GossipstatusPeerReady))
    ensures msg.Ok? && msg.fields.PeerReadyFields? && msg.fields.uniqueId !in reg <==>
      out.Fatal? && out.reason.BadPeerId?
    ensures out.Fatal? && out.reason.BadPeerId? ==> out.reason.uniqueId == msg.fields.uniqueId
    ensures out.Complete? <==> msg.Ok? && msg.fields.PeerReadyFields? && msg.fields.uniqueId in reg
    ensures out.Complete? ==>
      var uid := msg.fields.uniqueId;
      var p := reg[uid];
      && uid in out.reg
      && AgreeExcept(reg, out.reg, uid)
      && out.reg[uid].gossipClientFd == fd
      && out.reg[uid].condition == ExchangingGossip
      && out.reg[uid].connectCmd == None
      && out.reg[uid].id == p.id
      && out.reg[uid].owner == p.owner
      && out.reg[uid].fd == p.fd
      && (p.connectCmd.None? ==> out.effects == [])
      && (p.connectCmd.Some? ==> out.effects == [CommandSuccess(p.connectCmd.value, ConnectResult(p.id))])
  {
    match msg
    case Ok(PeerReadyFields(uid)) =>
      if uid !in reg then Fatal(BadPeerId(uid))
      else
        var p := reg[uid];
        var completed := if p.connectCmd.Some? then [CommandSuccess(p.connectCmd.value, ConnectResult(p.id))] else [];
        var q := p.(connectCmd := None, gossipClientFd := fd, condition := ExchangingGossip);
        Complete(reg[uid := q], completed)
    case _ => Fatal(BadStatusMessage(GossipstatusPeerReady))
  }

  /** Tags the dispatcher lets through without acting: fatal statuses (the
      subdaemon exits after them), requests only the coordinator sends,
      replies the request correlator consumes, and values outside the
      enumeration, which the switch has no case for. */
  predicate Ignored(t: GossipWireType)
  {
    IsFatalStatus(t) || IsOutgoing(t) || IsReply(t) || t.UnknownType?
  }

  /** Routes one message from the gossip subdaemon. A descriptor-carrying
      message that arrives without its descriptor (`fd` is -1) asks the
      channel to call again once the descriptor has arrived; delivered again
      with a real descriptor, the same message never asks a second time. */
  function GossipDispatch(reg: Registry, t: GossipWireType, msg: Decoded<StatusFields>, fd: int, accept: PeerAccept): (out: Outcome)
    ensures out.NeedFd? <==> CarriesFd(t) && fd == NoFd
    ensures Ignored(t) ==> out == Complete(reg, [])
    ensures out.Fatal? ==> t.GossipstatusPeerBadMsg? || (CarriesFd(t) && fd != NoFd)
    ensures out.Complete? && !Ignored(t) ==>
      msg.Ok? && msg.fields.uniqueId in reg && AgreeExcept(reg, out.reg, msg.fields.uniqueId)
    ensures out.Complete? ==> out.reg.Keys <= reg.Keys
    ensures t.GossipstatusPeerBadMsg? ==> out == PeerBadMessage(reg, msg)
    ensures t.GossipstatusPeerNongossip? && fd != NoFd ==> out == PeerNongossip(reg, msg, fd, accept)
    ensures t.GossipstatusPeerReady? && fd != NoFd ==> out == PeerReady(reg, msg, fd)
  {
    match t
    case GossipstatusPeerBadMsg => PeerBadMessage(reg, msg)
    case GossipstatusPeerNongossip =>
      if fd == NoFd then NeedFd else PeerNongossip(reg, msg, fd, accept)
    case GossipstatusPeerReady =>
      if fd == NoFd then NeedFd else PeerReady(reg, msg, fd)
    case _ => Complete(reg, [])
  }

  /** One output record per entry: the hostname becomes null exactly when it
      is empty, and the node id and port are copied through. */
  function ToNodeRecord(e: GetnodesEntry): (r: NodeRecord)
    ensures r.nodeid == e.nodeid && r.port == e.port
    ensures r.hostname.None? <==> |e.hostname| == 0
    ensures r.hostname.Some? ==> r.hostname.value == e.hostname
  {
    NodeRecord(e.nodeid, if |e.hostname| > 0 then Some(e.hostname) else None, e.port)
  }

  /** Completes the `getnodes` command from the node-list reply's blob of
      entries: entries are read until no bytes remain, each becomes one
      record, and the command completes once with the records in order. */
  method JsonGetnodesReply(cmd: Command, inner: seq<byte>, dec: EntryDecoder) returns (effects: seq<Effect>)
    requires Advances(dec)
    ensures |effects| == 1 && effects[0].CommandSuccess? && effects[0].cmd == cmd
    ensures effects[0].response.NodesResult?
    ensures var nodes := effects[0].response.nodes; var es := DecodeEntries(dec, inner);
      && |nodes| == |es|
      && forall i :: 0 <= i < |es| ==> nodes[i] == ToNodeRecord(es[i])
    ensures |inner| == 0 ==> effects[0].response.nodes == []
  {
    var cursor := inner;
    var max := |inner|;
    var nodes: seq<NodeRecord> := [];
    ghost var read: seq<GetnodesEntry> := [];
    while max > 0
      invariant max == |cursor|
      invariant read + DecodeEntries(dec, cursor) == DecodeEntries(dec, inner)
      invariant |nodes| == |read|
      invariant forall i :: 0 <= i < |read| ==> nodes[i] == ToNodeRecord(read[i])
      decreases max
    {
      var r := dec(cursor);
      nodes := nodes + [ToNodeRecord(r.entry)];
      read := read + [r.entry];
      cursor := r.rest;
      max := |cursor|;
    }
    effects := [CommandSuccess(cmd, NodesResult(nodes))];
  }
}
