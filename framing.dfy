/**
  Packet framing of the call-audio transport (chime-call-audio.c, audio_receive_packet).

  Every packet starts with a four-byte xrp header `{ type, len }`, both 16-bit fields in
  network (big-endian) byte order; `len` counts the header itself.  The type tags are
  defined in a header file that is not part of this model: the model gives them distinct
  values, and nothing below depends on which values they are.
*/
module Framing {
  import opened Wrappers

  const XRP_RT_MESSAGE: nat := 2
  const XRP_AUTH_MESSAGE: nat := 3
  const XRP_DATA_MESSAGE: nat := 4
  const XRP_STREAM_MESSAGE: nat := 5

  /** sizeof(struct xrp_header) */
  const HEADER_SIZE: nat := 4

  /** ntohs of the two bytes `hi, lo` as they lie in the packet. */
  function Be16(hi: byte, lo: byte): (v: nat)
    ensures v < 0x1_0000
  {
    hi as nat * 256 + lo as nat
  }

  /** The two bytes that carry `v` in network byte order (the inverse of Be16). */
  function Be16Bytes(v: nat): (b: seq<byte>)
    requires v < 0x1_0000
    ensures |b| == 2 && Be16(b[0], b[1]) == v
  {
    [(v / 256) as byte, (v % 256) as byte]
  }

  lemma Be16BytesOfBe16(hi: byte, lo: byte)
    ensures Be16Bytes(Be16(hi, lo)) == [hi, lo]
  {
    var v := Be16(hi, lo);
    assert v / 256 == hi as nat && v % 256 == lo as nat;
  }

  /** The three packet kinds audio_receive_packet dispatches on. */
  datatype Kind = Rt | Auth | Data

  function TagOf(k: Kind): (tag: nat)
  {
    match k
    case Rt => XRP_RT_MESSAGE
    case Auth => XRP_AUTH_MESSAGE
    case Data => XRP_DATA_MESSAGE
  }

  function KindOf(tag: nat): (r: Option<Kind>)
    ensures r.Some? ==> TagOf(r.value) == tag
    ensures forall k: Kind :: TagOf(k) == tag ==> r == Some(k)
  {
    if tag == XRP_RT_MESSAGE then Some(Rt)
    else if tag == XRP_AUTH_MESSAGE then Some(Auth)
    else if tag == XRP_DATA_MESSAGE then Some(Data)
    else None
  }

  datatype FrameError = TooShort | LengthMismatch | UnknownType(tag: nat)

  /** A packet that passed the header checks: its kind and the bytes after the header. */
  datatype Frame = Frame(kind: Kind, payload: seq<byte>)

  /** The header checks and the dispatch decision of audio_receive_packet. */
  function Demux(pkt: seq<byte>): (r: Result<Frame, FrameError>)
    ensures r.Ok? ==> && |pkt| >= HEADER_SIZE && r.value.payload == pkt[HEADER_SIZE..]
                      && TagOf(r.value.kind) == Be16(pkt[0], pkt[1]) && Be16(pkt[2], pkt[3]) == |pkt|
  {
    if |pkt| < HEADER_SIZE then Err(TooShort)
    else if |pkt| != Be16(pkt[2], pkt[3]) then Err(LengthMismatch)
    else match KindOf(Be16(pkt[0], pkt[1]))
      case None => Err(UnknownType(Be16(pkt[0], pkt[1])))
      case Some(k) => Ok(Frame(k, pkt[HEADER_SIZE..]))
  }

  /** The packet a sender builds for a payload of kind `k`: header, then payload. */
  function Encode(k: Kind, payload: seq<byte>): (pkt: seq<byte>)
    requires |payload| + HEADER_SIZE < 0x1_0000
    ensures |pkt| == |payload| + HEADER_SIZE
  {
    Be16Bytes(TagOf(k)) + Be16Bytes(|payload| + HEADER_SIZE) + payload
  }

  /** Every well-formed packet is accepted, with its kind and payload intact. */
  lemma DemuxEncode(k: Kind, payload: seq<byte>)
    requires |payload| + HEADER_SIZE < 0x1_0000
    ensures Demux(Encode(k, payload)) == Ok(Frame(k, payload))
  {
    var pkt := Encode(k, payload);
    assert pkt[HEADER_SIZE..] == payload;
    assert Be16(pkt[0], pkt[1]) == TagOf(k);
    assert Be16(pkt[2], pkt[3]) == |pkt|;
  }

  /** Conversely, whatever the framer accepts is exactly such an encoding. */
  lemma DemuxOnlyEncodings(pkt: seq<byte>)
    requires Demux(pkt).Ok?
    ensures |Demux(pkt).value.payload| + HEADER_SIZE < 0x1_0000
    ensures Encode(Demux(pkt).value.kind, Demux(pkt).value.payload) == pkt
  {
    var f := Demux(pkt).value;
    Be16BytesOfBe16(pkt[0], pkt[1]);
    Be16BytesOfBe16(pkt[2], pkt[3]);
    assert pkt == pkt[..2] + pkt[2..4] + pkt[HEADER_SIZE..];
  }

  /** The rejections: short packets, a header length other than the packet's, an unknown tag. */
  lemma DemuxRejects(pkt: seq<byte>)
    ensures |pkt| < HEADER_SIZE ==> Demux(pkt) == Err(TooShort)
    ensures |pkt| >= HEADER_SIZE && Be16(pkt[2], pkt[3]) != |pkt| ==> Demux(pkt) == Err(LengthMismatch)
    ensures |pkt| >= HEADER_SIZE && Be16(pkt[2], pkt[3]) == |pkt| && KindOf(Be16(pkt[0], pkt[1])).None?
            ==> Demux(pkt).Err? && Demux(pkt).error.UnknownType?
    ensures |pkt| >= 0x1_0000 ==> Demux(pkt).Err?
  {
  }
}
