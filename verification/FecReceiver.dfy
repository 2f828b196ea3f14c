// FecReceiverImpl: RED packets are unpacked and decoded, and what is new is handed up.
module FecReceiver {
  import opened Bytes
  import opened SeqNum
  import opened ParityCode
  import opened FecEncoder
  import opened FecDecoder
  import opened FecMachine

  // ---- RED encapsulation, one block (RFC 2198 section 3) ---------------------------

  // An RTP header with its payload type replaced.
  function WithType(header: seq<byte>, payloadType: byte): (h: seq<byte>)
    requires |header| >= RTP_HEADER_SIZE
    ensures |h| == |header|
  {
    header[1 := (header[1] & 0x80) + payloadType]
  }

  // The packet inside a RED packet with the given RTP header length: behind the RED
  // octet is an FEC packet, or the payload of a media packet of the type named there.
  function StripRed(incoming: seq<byte>, headerLength: nat, seqNum: u16, ulpfecType: byte): ReceivedPacket
    requires RTP_HEADER_SIZE <= headerLength < |incoming| <= IP_PACKET_SIZE
  {
    var payloadType := incoming[headerLength] & 0x7f;
    var rest := incoming[headerLength + 1..];
    if payloadType == ulpfecType then ReceivedFec(seqNum, incoming[8..12], rest)
    else ReceivedMedia(seqNum, WithType(incoming[..headerLength], payloadType) + rest)
  }

  // The encapsulation that a sender applies, to a media packet and to an FEC packet.

  function WrapMedia(media: Packet, headerLength: nat, redType: byte): seq<byte>
    requires RTP_HEADER_SIZE <= headerLength <= |media|
  {
    WithType(media[..headerLength], redType) + [media[1] & 0x7f] + media[headerLength..]
  }

  function WrapFec(fec: Packet, header: seq<byte>, ulpfecType: byte): seq<byte> {
    header + [ulpfecType] + fec
  }

  lemma MarkerAndType(b: byte, t: byte)
    requires t < 0x80
    ensures (((b & 0x80) + t) & 0x80) + (b & 0x7f) == b && (b & 0x7f) & 0x7f == b & 0x7f && t & 0x7f == t
  {
  }

  lemma TypeRestored(header: seq<byte>, t: byte)
    requires |header| >= RTP_HEADER_SIZE && t < 0x80
    ensures WithType(WithType(header, t), header[1] & 0x7f) == header
  {
    MarkerAndType(header[1], t);
  }

  // Unpacking undoes the encapsulation, of media packets and of FEC packets.

  lemma StripRedInvertsWrapMedia(media: Packet, headerLength: nat, redType: byte, s: u16, ulpfecType: byte)
    requires RTP_HEADER_SIZE <= headerLength <= |media| && |media| < IP_PACKET_SIZE && redType < 0x80
    requires media[1] & 0x7f != ulpfecType
    ensures StripRed(WrapMedia(media, headerLength, redType), headerLength, s, ulpfecType) == ReceivedMedia(s, media)
  {
    MarkerAndType(media[1], redType);
    TypeRestored(media[..headerLength], redType);
    var t := media[1] & 0x7f;
    assert t & 0x7f == t;
    hide WithType;
    var red := WrapMedia(media, headerLength, redType);
    assert red[headerLength] == t && red[headerLength + 1..] == media[headerLength..];
    assert red[..headerLength] == WithType(media[..headerLength], redType);
    assert media[..headerLength] + media[headerLength..] == media;
  }

  lemma StripRedInvertsWrapFec(fec: Packet, header: seq<byte>, s: u16, ulpfecType: byte)
    requires ulpfecType < 0x80 && RTP_HEADER_SIZE <= |header| && |header| + 1 + |fec| <= IP_PACKET_SIZE
    ensures StripRed(WrapFec(fec, header, ulpfecType), |header|, s, ulpfecType) == ReceivedFec(s, header[8..12], fec)
  {
    MarkerAndType(0, ulpfecType);
    hide WithType;
    var red := WrapFec(fec, header, ulpfecType);
    assert red[|header|] == ulpfecType && red[|header| + 1..] == fec && red[8..12] == header[8..12];
  }

  // ---- Handing up ------------------------------------------------------------------

  // The entries that have not been handed up, in order, and their data.

  function Fresh(list: seq<RecoveredPacket>): seq<RecoveredPacket> {
    if list == [] then [] else
      var rest := Fresh(list[..|list| - 1]);
      var r := list[|list| - 1];
      if r.returned then rest else rest + [r]
  }

  function Datas(list: seq<RecoveredPacket>): (ps: seq<Packet>)
    ensures |ps| == |list| && forall i :: 0 <= i < |ps| ==> ps[i] == list[i].pkt
  {
    seq(|list|, i requires 0 <= i < |list| => list[i].pkt)
  }

  function MarkAll(list: seq<RecoveredPacket>): (s: seq<RecoveredPacket>)
    ensures |s| == |list| && forall i :: 0 <= i < |s| ==> s[i] == list[i].(returned := true)
  {
    seq(|list|, i requires 0 <= i < |list| => list[i].(returned := true))
  }

  // A received media packet is handed up at once, if it is the first of its batch.
  function FrontMedia(batch: seq<ReceivedPacket>): seq<Packet> {
    if batch != [] && batch[0].ReceivedMedia? then [batch[0].media] else []
  }

  // One ProcessReceivedFec: the state afterwards, and what was handed up.
  function Process(st: State, batch: seq<ReceivedPacket>): (State, seq<Packet>) {
    var decoded := if batch == [] then st else Decode(st, batch);
    (decoded.(recovered := MarkAll(decoded.recovered)), FrontMedia(batch) + Datas(Fresh(decoded.recovered)))
  }

  ghost predicate AllReturned(list: seq<RecoveredPacket>) {
    forall i :: 0 <= i < |list| ==> list[i].returned
  }

  class FecReceiverImpl {
    var received: seq<ReceivedPacket>
    var recovered: seq<RecoveredPacket>
    const fec: ForwardErrorCorrection
    // What the callback OnRecoveredPacket has been given.
    var delivered: seq<Packet>

    constructor ()
      ensures received == [] && recovered == [] && delivered == [] && fec.fecs == [] && fresh(fec)
    {
      received, recovered, delivered := [], [], [];
      fec := new ForwardErrorCorrection();
    }

    // AddReceivedRedPacket, for a RED packet of a single block.
    method AddReceivedRedPacket(headerLength: nat, seqNum: u16, incoming: seq<byte>, ulpfecType: byte) returns (code: int)
      requires RTP_HEADER_SIZE <= headerLength < |incoming| <= IP_PACKET_SIZE
      requires incoming[headerLength] & 0x80 == 0
      modifies this`received
      ensures code == 0
      ensures var rx := StripRed(incoming, headerLength, seqNum, ulpfecType);
        received == if rx.ReceivedFec? && rx.fec == [] then old(received) else old(received) + [rx]
    {
      var payloadType := incoming[headerLength] & 0x7f;
      var payload := incoming[headerLength + 1..];
      if payloadType == ulpfecType {
        if |payload| > 0 {
          received := received + [ReceivedFec(seqNum, incoming[8..12], payload)];
        }
      } else {
        hide WithType;
        var header := WithType(incoming[..headerLength], payloadType);
        received := received + [ReceivedMedia(seqNum, header + payload)];
      }
      code := 0;
    }

    // The loop over the recovered list, with a callback that always accepts.
    method HandUp()
      modifies this`recovered, this`delivered
      ensures recovered == MarkAll(old(recovered)) && delivered == old(delivered) + Datas(Fresh(old(recovered)))
    {
      ghost var before, list := delivered, recovered;
      assert list[..0] == [];
      for i := 0 to |recovered|
        invariant |recovered| == |list|
        invariant forall j :: 0 <= j < |list| ==> recovered[j] == if j < i then list[j].(returned := true) else list[j]
        invariant delivered == before + Datas(Fresh(list[..i]))
      {
        assert list[..i + 1][..i] == list[..i];
        if recovered[i].returned {
          continue;
        }
        delivered := delivered + [recovered[i].pkt];
        recovered := recovered[i := recovered[i].(returned := true)];
      }
      assert list[..|list|] == list;
      assert recovered == MarkAll(list);
    }

    // ProcessReceivedFec.
    method ProcessReceivedFec(ghost b: int) returns (code: int)
      requires Decodable(b, State(fec.fecs, recovered), received)
      modifies this, fec
      ensures code == 0 && received == []
      ensures var (st, up) := Process(State(old(fec.fecs), old(recovered)), old(received));
        State(fec.fecs, recovered) == st && delivered == old(delivered) + up
      ensures AllReturned(recovered)
    {
      hide Decodable, Decode, Fresh;
      if received != [] {
        if received[0].ReceivedMedia? {
          delivered := delivered + [received[0].media];
        }
        recovered := fec.DecodeFEC(received, recovered, b);
        received := [];
      }
      HandUp();
      code := 0;
    }
  }
}
