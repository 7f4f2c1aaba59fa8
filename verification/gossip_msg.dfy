/** One entry of the gossip subdaemon's node-list reply, and the laws the
    entry codec obeys. The codec bodies are not part of this model: they are
    parameters, and the reply builder relies only on these laws. */
module GossipMsg {
  import opened Wire

  datatype GetnodesEntry = GetnodesEntry(nodeid: PubKey, hostname: string, port: u16)

  /** What one entry read leaves behind: the entry and the unread bytes. */
  datatype EntryRead = EntryRead(entry: GetnodesEntry, rest: seq<byte>)

  type EntryDecoder = seq<byte> -> EntryRead
  type EntryEncoder = GetnodesEntry -> seq<byte>

  /** Reading an entry from a non-empty buffer moves the cursor forward: what
      is left is a strictly shorter tail of the buffer. A failed read leaves
      nothing, which is also a strictly shorter tail. */
  ghost predicate Advances(dec: EntryDecoder)
  {
    forall b: seq<byte> :: |b| > 0 ==>
      |dec(b).rest| < |b| && dec(b).rest == b[|b| - |dec(b).rest|..]
  }

  /** The decoder reads back exactly what the encoder wrote, whatever follows
      it, for every entry the wire format can carry. `fits` says which entries
      those are: on the wire a node id is a fixed-size public key and the
      hostname has a length field, so an entry outside those bounds is not
      expected to survive the round trip. */
  ghost predicate Inverts(dec: EntryDecoder, enc: EntryEncoder, fits: GetnodesEntry -> bool)
  {
    forall e: GetnodesEntry, rest: seq<byte> :: fits(e) ==> dec(enc(e) + rest) == EntryRead(e, rest)
  }

  /** Every encoded entry occupies at least one byte. */
  ghost predicate WritesSomething(enc: EntryEncoder)
  {
    forall e: GetnodesEntry :: |enc(e)| > 0
  }

  /** The blob a node-list reply carries for `entries`: their encodings, back to back. */
  function EncodeEntries(enc: EntryEncoder, entries: seq<GetnodesEntry>): (blob: seq<byte>)
    requires WritesSomething(enc)
    ensures |blob| >= |entries|
    ensures |blob| == 0 <==> |entries| == 0
  {
    if |entries| == 0 then [] else enc(entries[0]) + EncodeEntries(enc, entries[1..])
  }

  /** The entries read from `blob` while bytes remain, in order. */
  function DecodeEntries(dec: EntryDecoder, blob: seq<byte>): (entries: seq<GetnodesEntry>)
    requires Advances(dec)
    ensures |entries| <= |blob|
    ensures |entries| == 0 <==> |blob| == 0
    decreases |blob|
  {
    if |blob| == 0 then [] else
      var r := dec(blob);
      [r.entry] + DecodeEntries(dec, r.rest)
  }

  /** Decoding the blob written for a list of entries the wire format can
      carry gives back that list. */
  lemma {:induction false} DecodeEncodeEntries(dec: EntryDecoder, enc: EntryEncoder, fits: GetnodesEntry -> bool, entries: seq<GetnodesEntry>)
    requires Advances(dec) && Inverts(dec, enc, fits) && WritesSomething(enc)
    requires forall e <- entries :: fits(e)
    ensures DecodeEntries(dec, EncodeEntries(enc, entries)) == entries
    decreases |entries|
  {
    if |entries| > 0 {
      var tail := EncodeEntries(enc, entries[1..]);
      assert dec(enc(entries[0]) + tail) == EntryRead(entries[0], tail);
      DecodeEncodeEntries(dec, enc, fits, entries[1..]);
      assert entries == [entries[0]] + entries[1..];
    }
  }
}
