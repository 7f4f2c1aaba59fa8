/** Wire-level vocabulary shared by the gossip control channel: bytes, the
    message types of the gossip subdaemon, and the fields its status messages
    decode to. The generated codec bodies are not part of this model; a
    decode is an input that either succeeded with some fields or failed. */
module Wire {
  import opened Optional

  newtype byte = x: int | 0 <= x < 0x100
  newtype u16 = x: int | 0 <= x < 0x1_0000

  /** Peer unique ids travel as 64-bit integers. */
  type UniqueId = x: nat | x < 0x1_0000_0000_0000_0000

  /** A node's public key, kept as its serialised bytes. */
  datatype PubKey = PubKey(key: seq<byte>)

  /** The per-connection encryption state the gossip subdaemon hands back. */
  datatype CryptoState = CryptoState(state: seq<byte>)

  /** The message types of the gossip subdaemon's wire, as read by the
      coordinator's type peek. `UnknownType` stands for a value outside the
      enumeration (the peek yields -1 for a message too short to hold a
      type). The numbering of the enumeration lives in generated code that
      is not part of this model, so `code` is not constrained to avoid the
      numbers of the listed types: the model only ever uses it for values
      that match none of them. */
  datatype GossipWireType =
    | GossipstatusInitFailed
    | GossipstatusBadNewPeerRequest
    | GossipstatusBadRequest
    | GossipstatusFdpassFailed
    | GossipstatusBadReleaseRequest
    | GossipctlNewPeer
    | GossipctlReleasePeer
    | GossipGetnodesRequest
    | GossipctlReleasePeerReply
    | GossipGetnodesReply
    | GossipstatusPeerBadMsg
    | GossipstatusPeerNongossip
    | GossipstatusPeerReady
    | UnknownType(code: int)

  /** Status messages the subdaemon reports about its own fatal errors. */
  predicate IsFatalStatus(t: GossipWireType)
  {
    || t.GossipstatusInitFailed? || t.GossipstatusBadNewPeerRequest?
    || t.GossipstatusBadRequest? || t.GossipstatusFdpassFailed?
    || t.GossipstatusBadReleaseRequest?
  }

  /** Requests that only the coordinator sends. */
  predicate IsOutgoing(t: GossipWireType)
  {
    t.GossipctlNewPeer? || t.GossipctlReleasePeer? || t.GossipGetnodesRequest?
  }

  /** Replies, which the request correlator consumes before dispatch. */
  predicate IsReply(t: GossipWireType)
  {
    t.GossipctlReleasePeerReply? || t.GossipGetnodesReply?
  }

  /** The two status messages that arrive together with a file descriptor. */
  predicate CarriesFd(t: GossipWireType)
  {
    t.GossipstatusPeerNongossip? || t.GossipstatusPeerReady?
  }

  /** The fields of the three status messages the dispatcher handles. */
  datatype StatusFields =
    | PeerBadMsgFields(uniqueId: UniqueId, err: seq<byte>)
    | PeerNongossipFields(uniqueId: UniqueId, cs: CryptoState, inner: seq<byte>)
    | PeerReadyFields(uniqueId: UniqueId)

  /** The outcome of decoding a message body against a schema. */
  datatype Decoded<+T> = Ok(fields: T) | Malformed

  /** The type of a peer wire message: its leading 2-byte big-endian field
      (section "Lightning Message Format" of BOLT #1); a message too short to
      hold one has no type. */
  function PeekType(msg: seq<byte>): (t: Option<u16>)
    ensures t.Some? <==> |msg| >= 2
    ensures t.Some? ==> t.value as int / 0x100 == msg[0] as int
    ensures t.Some? ==> t.value as int % 0x100 == msg[1] as int
  {
    if |msg| < 2 then None
    else Some((msg[0] as int * 0x100 + msg[1] as int) as u16)
  }

  /** Two messages whose first two bytes agree have the same type, and two
      messages of the same type agree on their first two bytes. */
  lemma PeekTypeReadsOnlyPrefix(a: seq<byte>, b: seq<byte>)
    requires |a| >= 2 && |b| >= 2
    ensures PeekType(a) == PeekType(b) <==> a[..2] == b[..2]
  {
  }
}
