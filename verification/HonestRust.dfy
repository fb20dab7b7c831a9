/** What the Rust client reads out of an honest Roughtime server's reply. */
module HonestRust {
  import opened Wrappers
  import opened ByteOrder
  import opened Tlv
  import opened MerkleWalk
  import opened RoughtimeValidation
  import opened RoughtimeWire
  import opened HonestServer

  predicate FewTags(r: Reply) {
    |r.top| <= 64 && |r.cert| <= 64 && |r.dele| <= 64 && |r.srep| <= 64
  }

  lemma EncodedIsReadable(fields: seq<Field>)
    requires fields != [] && Fits(fields) && |fields| <= 64
    ensures RustReadable(Encode(fields))
  {
    HeaderReadsBack(fields, 0);
  }

  lemma ListedHasWidth(fields: seq<Field>, tag: u32, value: Bytes)
    requires Fits(fields) && Lists(fields, tag, value)
    ensures HasWidth(Encode(fields), tag, |value|)
  {
    ListedIsCarried(fields, tag, value);
  }

  lemma MagicReads(packet: Bytes)
    requires |packet| >= 8 && packet[..8] == MAGIC
    ensures ReadLe64(packet, 0) == ROUGHTIME_MAGIC
  {
    assert forall k :: 0 <= k < 8 ==> packet[k] == packet[..8][k] == MAGIC[k];
  }

  lemma ReplyWidths(c: Crypto, s: Server, requests: seq<Bytes>, depth: nat, i: nat, nonce: Bytes, r: Reply)
    requires i < |requests| == Pow2(depth) && i < TWO_32 && Encodable(r) && |s.delegatedKey| == 32
    requires DelegationAssembled(s, r) && ReportAssembled(c, s, requests, depth, r)
    requires TopAssembled(c, s, requests, depth, i, nonce, r)
    ensures ExactWidths(Encode(r.top), Proof(c, s, requests, depth, i, r))
  {
    ListedHasWidth(r.top, INDX, Le32(i));
    ListedHasWidth(r.srep, MIDP, Le64(s.midp));
    ListedHasWidth(r.srep, RADI, Le32(s.radi));
    ListedHasWidth(r.dele, MINT, Le64(s.mint));
    ListedHasWidth(r.dele, MAXT, Le64(s.maxt));
  }

  /** What the Rust client returns for an honest reply to request i. */
  function Reading(c: Crypto, s: Server, requests: seq<Bytes>, depth: nat, i: nat, r: Reply): RoughtimeResponse
    requires i < |requests| == Pow2(depth) && i < TWO_32
  {
    var leaves := Leaves(c.hash, requests);
    RoughtimeResponse(s.midp, s.radi, Root(c.hash, leaves, depth), s.signDelegated(SREP_CONTEXT + Encode(r.srep)),
                      s.delegatedKey, s.mint, s.maxt, i, PathFor(c.hash, leaves, depth, i))
  }

  /** From a reply of at most 64 tags a message the Rust client reads the server's midpoint, radius, root, delegation
      and path, and the position in the batch, also where the TypeScript client refuses that position. */
  lemma HonestReplyRead(c: Crypto, s: Server, requests: seq<Bytes>, depth: nat, i: nat, nonce: Bytes, r: Reply,
      tail: Bytes)
    requires i < |requests| == Pow2(depth) && i < TWO_32 && Encodable(r) && FewTags(r) && |s.delegatedKey| == 32
    requires DelegationAssembled(s, r) && ReportAssembled(c, s, requests, depth, r)
    requires TopAssembled(c, s, requests, depth, i, nonce, r)
    ensures ParseResponse(Packet(Encode(r.top)) + tail) == Some(Reading(c, s, requests, depth, i, r))
  {
    var packet, e := Packet(Encode(r.top)) + tail, Proof(c, s, requests, depth, i, r);
    MessageOfPacket(Encode(r.top), tail);
    MagicReads(packet);
    ProofHeld(c, s, requests, depth, i, nonce, r);
    DelegationHeld(c, s, requests, depth, i, r);
    ListedIsCarried(r.top, CERT, Encode(r.cert));
    EncodedIsReadable(r.top);
    EncodedIsReadable(r.cert);
    EncodedIsReadable(r.dele);
    EncodedIsReadable(r.srep);
    ReplyWidths(c, s, requests, depth, i, nonce, r);
    ClientsReadTheSame(packet, nonce, Encode(r.cert), e);
    NodesOfJoin(PathFor(c.hash, Leaves(c.hash, requests), depth, i));
  }

  /** The reply with only the required fields is one of these. */
  lemma PlainReplyRead(c: Crypto, s: Server, requests: seq<Bytes>, depth: nat, i: nat, nonce: Bytes, tail: Bytes)
    requires |s.delegatedKey| == 32 && i < |requests| == Pow2(depth) && depth <= 31 && |nonce| == 32
    ensures i < TWO_32
    ensures var r := PlainReply(c, s, requests, depth, i, nonce);
            ParseResponse(Packet(Encode(r.top)) + tail) == Some(Reading(c, s, requests, depth, i, r))
  {
    PlainReplyAssembled(c, s, requests, depth, i, nonce);
    HonestReplyRead(c, s, requests, depth, i, nonce, PlainReply(c, s, requests, depth, i, nonce), tail);
  }
}
