/** The coordinator's view of a peer, and the registry that maps a peer's
    unique id to it. */
module Peers {
  import opened Optional
  import opened Wire

  /** Which subsystem currently acts on the peer's connection. */
  datatype Owner = NoOwner | GossipDaemon | OtherDaemon(name: string)

  /** A pending user command, kept as an opaque handle. */
  datatype Command = Command(handle: nat)

  /** The human-readable condition of a peer. The gossip dispatcher writes the
      last three; every other condition comes from outside the dispatcher. */
  datatype Condition =
    | Described(text: string)
    | BadMessageDuringGossip(msgType: GossipWireType)
    | GossipEndedUponReceipt(innerType: Option<u16>)
    | ExchangingGossip

  /** The value a descriptor slot holds when it is empty. */
  const NoFd: int := -1

  datatype Peer = Peer(
    id: PubKey,
    owner: Owner,
    fd: int,
    gossipClientFd: int,
    condition: Condition,
    connectCmd: Option<Command>)

  type Registry = map<UniqueId, Peer>

  /** Every peer other than `uid` is present in `after` exactly when it is
      present in `before`, and is unchanged. */
  ghost predicate AgreeExcept(before: Registry, after: Registry, uid: UniqueId)
  {
    forall j :: j != uid ==>
      (j in before <==> j in after) && (j in before ==> after[j] == before[j])
  }

  /** The ids of the peers whose pending connect command is `cmd`. */
  function Holders(reg: Registry, cmd: Command): set<UniqueId>
  {
    set j | j in reg && reg[j].connectCmd == Some(cmd)
  }
}
