# Gossip control dispatcher: a Dafny model

This project models how lightningd, the coordinating process of a Lightning
node, handles messages from its gossip subdaemon (`lightningd/gossip_control.c`).
The subdaemon reports on peers it has been handed. The coordinator routes each
report by its message type, looks up the peer by its 64-bit unique id, and
changes that peer's state:

- a **bad message** report sets the peer's condition and frees the peer;
- a **non-gossip** report returns the peer's connection descriptor. The
  condition then records the type of the inner message, and the peer moves
  on to the channel-opening collaborator (`peer_accept_open`). That
  collaborator is a function parameter of the model. The registry holds the
  peer as the collaborator leaves it, or loses it if the collaborator frees it;
- a **ready** report completes any pending `connect` command with the peer's
  id, stores the gossip client descriptor and sets the condition to
  "Exchanging gossip".

Non-gossip and ready reports carry a file descriptor. If the descriptor has
not arrived yet, the dispatcher answers "need fd" and the channel calls it
again later. Every protocol violation is fatal to the coordinator: a body
that does not decode, an unknown id, a peer the subdaemon does not own, or a
descriptor slot that is already occupied. The model also covers the builder
of the `getnodes` command's reply. It reads entries from the reply blob until
no bytes remain and turns each entry into a record whose hostname is null
when it is empty.

The model is functional. The registry is a `map<UniqueId, Peer>`. The
dispatcher returns `Complete(registry', effects) | NeedFd | Fatal(reason)`.
Each handler returns `Complete` or `Fatal`, never `NeedFd`. A
Fatal outcome carries no registry, because the process ends there. Effects
stand for what happens outside the registry: a command completing, a peer
being freed, a peer being handed to channel opening.

Modules:
- `Optional` (option.dfy) holds `Option`.
- `Wire` (wire.dfy) holds the bytes, the gossip message types, the decoded status fields and the type peek of a peer message.
- `Peers` (peers.dfy) holds the peer record and the registry.
- `GossipMsg` (gossip_msg.dfy) holds the node-list entry and the laws of its codec.
- `GossipControl` (gossip_control.dfy) holds the handlers, the dispatcher and the reply builder.
- `GossipRun` (gossip_run.dfy) holds properties that span several messages.

Two behaviours of the code worth knowing:
- The `switch` has no `default`. A message type outside the enumeration
  falls through to "complete" and changes nothing (`UnknownType`, counted
  as ignored).
- The bad-message condition names the type of the status message itself
  (`fromwire_peektype(msg)`), not the type of the offending message, so it
  is the same for every bad message.

## Model

| member | source | states |
|---|---|---|
| GossipControl.GossipDispatch | lightningd/gossip_control.c:107-143 | need-fd is returned exactly for a non-gossip or ready report without a descriptor, so the same message delivered again with a real descriptor never asks again; every ignored type (five fatal statuses, three outgoing requests, two replies, unknown values) completes with the registry unchanged and no effect; a bad-message report, and a non-gossip or ready report with a real descriptor, gets exactly its handler's outcome; only the three handled types can be fatal; a completed handled report changes no peer but the one it names, and dispatch never adds a peer |
| GossipControl.PeerBadMessage | lightningd/gossip_control.c:23-43 | fatal with the bad-status reason exactly when the body does not decode; fatal with the id exactly when the id is unknown; completes exactly when the body decodes and names a known peer, and then the peer is removed, every other entry is unchanged, and the freed peer carries the bad-message condition |
| GossipControl.PeerNongossip | lightningd/gossip_control.c:45-73 | completes exactly when the body decodes, the id is known, the owner is the gossip subdaemon and the descriptor slot is empty; a bad body, an unknown id, a wrong owner and an occupied slot each give their own fatal reason, carrying the id, the owner or the descriptor found; on success the peer handed to opening has the passed descriptor in its slot and the inner message's type as its condition, with owner, id, gossip descriptor and connect command unchanged; it goes with the crypto state and inner message; the registry then holds the peer the collaborator returns, or no peer at that id if the collaborator freed it; no other peer changes |
| GossipControl.PeerReady | lightningd/gossip_control.c:75-105 | fatal on a bad body or unknown id, and completes exactly when the body decodes and names a known peer; then a pending connect command completes once with the peer's id and is cleared, the gossip client descriptor is the passed one, the condition is "exchanging gossip", and the peer stays with the same owner and descriptor |
| GossipControl.ToNodeRecord | lightningd/gossip_control.c:171-179 | node id and port are copied; the hostname is null exactly when the entry's hostname is empty and is that hostname otherwise |
| GossipControl.JsonGetnodesReply | lightningd/gossip_control.c:154-187 | the command completes exactly once, with one record per entry decoded from the blob, in order; an empty blob gives no records |
| GossipMsg.DecodeEntries | lightningd/gossip_control.c:163-170 | reading stops when no bytes remain: an empty blob gives no entries, and a non-empty blob gives at least one entry and no more entries than it has bytes |
| GossipMsg.EncodeEntries | lightningd/gossip_msg.h:14 | the blob for a list of entries is empty exactly when the list is, and is at least as long as the list |
| GossipMsg.DecodeEncodeEntries | lightningd/gossip_msg.h:13-14 | for a codec whose entry round trip holds on every entry the wire format can carry (`fits`: a fixed-size node id, a hostname within its length field), decoding the blob written for a list of such entries gives back the same list, including the empty list |
| Wire.PeekType | lightningd/gossip_control.c:69-70 | a message has a type exactly when it holds two bytes, and the type is those two bytes read big-endian |
| Wire.PeekTypeReadsOnlyPrefix | lightningd/gossip_control.c:69-70 | two messages have the same type exactly when their first two bytes agree |
| GossipRun.DeferredDeliveryChangesNothing | lightningd/gossip_control.c:130-138 | a delivery answered with need-fd leaves a run exactly where the run without it ends (a corollary of GossipDispatch's need-fd clause and the run's definition) |
| GossipRun.ReadyTwiceCompletesOnce | lightningd/gossip_control.c:91-104 | the first ready report completes a command exactly when one was pending; a second ready report for the same peer completes nothing and stores the new descriptor |
| GossipRun.FreedPeerIsUnknown | lightningd/gossip_control.c:33-42 | after a bad-message report the peer is gone, and any later bad-message, non-gossip or ready report naming it is fatal with that id |
| GossipRun.SecondHandoffDependsOnCollaborator | lightningd/gossip_control.c:57-72 | a second non-gossip report for a handed-off peer is decided by what the collaborator left: fatal for the id if the collaborator freed the peer, fatal for the owner if the peer is no longer the gossip subdaemon's, fatal for the occupied slot if it still is and holds a descriptor, handled again only if it is back with the subdaemon with an empty slot |
| GossipRun.HandoffConditionReflectsInnerType | lightningd/gossip_control.c:69-70 | two handoffs of the same peer leave the same condition on the handed-over peer exactly when their inner messages share the two type bytes |
| GossipRun.RunAddsNoPeers | lightningd/gossip_control.c:107-143 | a run of deliveries that does not die ends with no peer the registry did not already hold |
| GossipRun.DispatchCompletionsBounded | lightningd/gossip_control.c:91-100 | one dispatch completes a command at most as many times as it reduces the number of peers holding that command |
| GossipRun.RunCompletesEachCommandAtMostOnce | lightningd/gossip_control.c:91-100 | over a whole run a command completes at most as many times as there were peers holding it at the start, so a command pending on one peer completes at most once |
| GossipRun.TwoNodeReply | lightningd/gossip_control.c:154-187 | for any codec obeying the entry laws and two entries the wire format can carry, one with a hostname and one without, the reply completes the command with two records, the second with a null hostname |

## Left out

- `gossip_init` and the spawning of the subdaemon (`new_subd`): process plumbing.
- `gossip_finished`: it reads the exit status with `WIFEXITED`/`WTERMSIG`, and both paths exit the process.
- JSON construction (`json_object_start`, `json_add_*`, `new_json_result`) is not modelled. A command's completion is the effect `CommandSuccess(cmd, response)`, with the response as an abstract record.
- Logging (`log_debug`, `log_debug_struct`) and tal memory management (`tal_free`) are not modelled. The effect `PeerFreed`, which carries the peer's last state, stands only for the `tal_free` of a peer that sent a bad message (gossip_control.c:42). A peer freed by the channel-opening collaborator leaves only `HandedToOpening` and its absence from the registry.
- `peer_accept_open` is an external collaborator and is not part of this model. It is the parameter `accept`, which may change any field of the peer or free it (`None`). The effect `HandedToOpening` records the peer as the handoff left it.
- The generated `fromwire_*`/`towire_*` codec bodies and `fromwire_peektype` are not part of this model. A status body arrives as `Decoded<StatusFields>`. A handler's decoder fails when the body is `Malformed` or decodes to another message's fields. The node-list entry codec is a pair of function parameters constrained by `Advances`, `Inverts` and `WritesSomething`. `Inverts` holds only on the entries the wire format can carry, given as the parameter `fits`. For the real codec these are entries with a fixed-size node id and a hostname within the range of its length field. Those sizes are in the codec, which is not part of this model, so `fits` is a parameter rather than a fixed predicate.
- `json_getnodes`, the `getnodes` command registration and `subd_req` request correlation are not modelled: they only send the request, and the correlator is not part of this model.
- `fromwire_gossip_getroute_entry`/`towire_gossip_getroute_entry` (gossip_msg.h:16-17) are declarations with no user in this file.
- GossipControl.JsonGetnodesReply: takes the reply's inner blob as given. The source ignores the result of `fromwire_gossip_getnodes_reply`, and what `inner` holds when that decode fails depends on generated code.
- GossipRun.RunCompletesEachCommandAtMostOnce: holds only for a channel-opening collaborator that starts no connect command of its own (`StartsNoCommand`), because what `peer_accept_open` does is not part of this model.
- GossipRun.DispatchCompletionsBounded: same assumption on the collaborator as the run lemma above.
- GossipControl.PeerNongossip: models `assert(peer->fd == -1)` as a fatal outcome. A build with assertions disabled would overwrite the descriptor instead.
- Wire.PeekType: reads the type as the 2-byte big-endian field of BOLT #1. A message shorter than two bytes has no type here; the name tables (`wire_type_name`, `gossip_wire_type_name`) are not modelled, and a condition records the type itself.
- Descriptors are unbounded integers and only the value -1 means "none", as in the source's `fd == -1` tests.
