/**
 * The private benchmark wire format shared by the sender and the responder:
 * two packed headers of unsigned 64-bit fields, each field laid out as eight
 * bytes, least significant byte first.
 */
module Wire {

  type byte = b: int | 0 <= b < 256
  type u64 = x: int | 0 <= x < 0x1_0000_0000_0000_0000

  datatype Option<T> = None | Some(value: T)

  /** Total size of a request payload built by the header's encoder. */
  const PayloadBytes: nat := 1024
  /** Size of one encoded unsigned 64-bit field. */
  const FieldBytes: nat := 8
  /** sizeof(ReqHeader): two packed fields, no padding. */
  const ReqHeaderSize: nat := 16
  /** sizeof(AckHeader): three packed fields, no padding. */
  const AckHeaderSize: nat := 24

  datatype ReqHeader = ReqHeader(seqNo: u64, clientSendMonoNs: u64)
  datatype AckHeader = AckHeader(seqNo: u64, serverRecvMonoNs: u64, serverSendMonoNs: u64)

  function Pow256(n: nat): (r: nat)
    ensures r >= 1
  {
    if n == 0 then 1 else 256 * Pow256(n - 1)
  }

  /** The n least significant base-256 digits of x, least significant first. */
  function EncodeLE(x: nat, n: nat): (r: seq<byte>)
    ensures |r| == n
  {
    if n == 0 then [] else [x % 256] + EncodeLE(x / 256, n - 1)
  }

  /** The number whose base-256 digits, least significant first, are s. */
  function DecodeLE(s: seq<byte>): (r: nat)
    ensures r < Pow256(|s|)
  {
    if s == [] then 0 else s[0] + 256 * DecodeLE(s[1..])
  }

  lemma {:induction false} DecodeEncodeLE(x: nat, n: nat)
    requires x < Pow256(n)
    ensures DecodeLE(EncodeLE(x, n)) == x
  {
    if n > 0 {
      DecodeEncodeLE(x / 256, n - 1);
      assert EncodeLE(x, n)[1..] == EncodeLE(x / 256, n - 1);
    }
  }

  lemma {:induction false} EncodeDecodeLE(s: seq<byte>)
    ensures EncodeLE(DecodeLE(s), |s|) == s
  {
    if s != [] {
      EncodeDecodeLE(s[1..]);
      var x := DecodeLE(s);
      assert x % 256 == s[0] && x / 256 == DecodeLE(s[1..]);
    }
  }

  lemma Pow256Of8()
    ensures Pow256(8) == 0x1_0000_0000_0000_0000
  {
  }

  function EncodeU64(x: u64): (r: seq<byte>)
    ensures |r| == FieldBytes
  {
    EncodeLE(x, FieldBytes)
  }

  function DecodeU64(b: seq<byte>): (r: u64)
    requires |b| == FieldBytes
  {
    Pow256Of8();
    DecodeLE(b)
  }

  /** Decoding an encoded field gives the field back. */
  lemma DecodeEncodeU64(x: u64)
    ensures DecodeU64(EncodeU64(x)) == x
  {
    Pow256Of8();
    DecodeEncodeLE(x, FieldBytes);
  }

  /** Every 8-byte group is the encoding of the field it decodes to. */
  lemma EncodeDecodeU64(b: seq<byte>)
    requires |b| == FieldBytes
    ensures EncodeU64(DecodeU64(b)) == b
  {
    EncodeDecodeLE(b);
  }

  /** The raw bytes of a packed ReqHeader: fields in declared order. */
  function EncodeReqHeader(h: ReqHeader): (r: seq<byte>)
    ensures |r| == ReqHeaderSize
    ensures r[0..8] == EncodeU64(h.seqNo) && r[8..16] == EncodeU64(h.clientSendMonoNs)
  {
    EncodeU64(h.seqNo) + EncodeU64(h.clientSendMonoNs)
  }

  /** The raw bytes of a packed AckHeader: fields in declared order. */
  function EncodeAckHeader(h: AckHeader): (r: seq<byte>)
    ensures |r| == AckHeaderSize
    ensures r[0..8] == EncodeU64(h.seqNo)
    ensures r[8..16] == EncodeU64(h.serverRecvMonoNs)
    ensures r[16..24] == EncodeU64(h.serverSendMonoNs)
  {
    EncodeU64(h.seqNo) + EncodeU64(h.serverRecvMonoNs) + EncodeU64(h.serverSendMonoNs)
  }

  function Zeros(n: nat): (r: seq<byte>)
    ensures |r| == n && forall i :: 0 <= i < n ==> r[i] == 0
  {
    seq(n, i => 0)
  }

  /** make_req_payload: a zero-filled buffer of PayloadBytes bytes with the header as prefix. */
  function MakeReqPayload(seqNo: u64, clientSendMonoNs: u64): (r: seq<byte>)
    ensures |r| == PayloadBytes
    ensures r[0..8] == EncodeU64(seqNo) && r[8..16] == EncodeU64(clientSendMonoNs)
    ensures forall i :: ReqHeaderSize <= i < |r| ==> r[i] == 0
  {
    EncodeReqHeader(ReqHeader(seqNo, clientSendMonoNs)) + Zeros(PayloadBytes - ReqHeaderSize)
  }

  /**
   * The request payload the sender asks for: same layout as MakeReqPayload,
   * padded with zeros to the configured size instead of the fixed one.
   */
  function MakeReqPayloadSized(seqNo: u64, clientSendMonoNs: u64, payloadBytes: nat): (r: seq<byte>)
    requires payloadBytes >= ReqHeaderSize
    ensures |r| == payloadBytes
    ensures r[0..8] == EncodeU64(seqNo) && r[8..16] == EncodeU64(clientSendMonoNs)
    ensures forall i :: ReqHeaderSize <= i < |r| ==> r[i] == 0
    ensures payloadBytes == PayloadBytes ==> r == MakeReqPayload(seqNo, clientSendMonoNs)
  {
    EncodeReqHeader(ReqHeader(seqNo, clientSendMonoNs)) + Zeros(payloadBytes - ReqHeaderSize)
  }

  /** make_ack_payload: exactly the 24 header bytes. */
  function MakeAckPayload(seqNo: u64, serverRecvMonoNs: u64, serverSendMonoNs: u64): (r: seq<byte>)
    ensures |r| == AckHeaderSize
    ensures r[0..8] == EncodeU64(seqNo)
    ensures r[8..16] == EncodeU64(serverRecvMonoNs)
    ensures r[16..24] == EncodeU64(serverSendMonoNs)
  {
    EncodeAckHeader(AckHeader(seqNo, serverRecvMonoNs, serverSendMonoNs))
  }

  /** parse_req_payload: fails on fewer than 16 bytes, otherwise reads the 16-byte prefix. */
  function ParseReqPayload(data: seq<byte>): (r: Option<ReqHeader>)
    ensures r.None? <==> |data| < ReqHeaderSize
  {
    if |data| < ReqHeaderSize then None
    else Some(ReqHeader(DecodeU64(data[0..8]), DecodeU64(data[8..16])))
  }

  /** parse_ack_payload: fails on fewer than 24 bytes, otherwise reads the 24-byte prefix. */
  function ParseAckPayload(data: seq<byte>): (r: Option<AckHeader>)
    ensures r.None? <==> |data| < AckHeaderSize
  {
    if |data| < AckHeaderSize then None
    else Some(AckHeader(DecodeU64(data[0..8]), DecodeU64(data[8..16]), DecodeU64(data[16..24])))
  }

  /** A successful request parse recovers exactly the header prefix of the buffer. */
  lemma ParseReqIsPrefix(data: seq<byte>)
    requires |data| >= ReqHeaderSize
    ensures ParseReqPayload(data).Some?
    ensures EncodeReqHeader(ParseReqPayload(data).value) == data[..ReqHeaderSize]
  {
    EncodeDecodeU64(data[0..8]);
    EncodeDecodeU64(data[8..16]);
    assert data[..16] == data[0..8] + data[8..16];
  }

  /** A successful ack parse recovers exactly the header prefix of the buffer. */
  lemma ParseAckIsPrefix(data: seq<byte>)
    requires |data| >= AckHeaderSize
    ensures ParseAckPayload(data).Some?
    ensures EncodeAckHeader(ParseAckPayload(data).value) == data[..AckHeaderSize]
  {
    EncodeDecodeU64(data[0..8]);
    EncodeDecodeU64(data[8..16]);
    EncodeDecodeU64(data[16..24]);
    assert data[..24] == data[0..8] + data[8..16] + data[16..24];
  }

  /** Bytes after the request header never affect the parse. */
  lemma ParseReqIgnoresTrailing(a: seq<byte>, b: seq<byte>)
    requires |a| >= ReqHeaderSize && |b| >= ReqHeaderSize
    requires a[..ReqHeaderSize] == b[..ReqHeaderSize]
    ensures ParseReqPayload(a) == ParseReqPayload(b)
  {
    assert a[0..8] == a[..16][0..8] && b[0..8] == b[..16][0..8];
    assert a[8..16] == a[..16][8..16] && b[8..16] == b[..16][8..16];
  }

  /** Bytes after the ack header never affect the parse. */
  lemma ParseAckIgnoresTrailing(a: seq<byte>, b: seq<byte>)
    requires |a| >= AckHeaderSize && |b| >= AckHeaderSize
    requires a[..AckHeaderSize] == b[..AckHeaderSize]
    ensures ParseAckPayload(a) == ParseAckPayload(b)
  {
    assert a[0..8] == a[..24][0..8] && b[0..8] == b[..24][0..8];
    assert a[8..16] == a[..24][8..16] && b[8..16] == b[..24][8..16];
    assert a[16..24] == a[..24][16..24] && b[16..24] == b[..24][16..24];
  }

  /** Parsing a built request payload, of any configured size, gives back its fields. */
  lemma ReqRoundTrip(seqNo: u64, clientSendMonoNs: u64, payloadBytes: nat)
    requires payloadBytes >= ReqHeaderSize
    ensures ParseReqPayload(MakeReqPayload(seqNo, clientSendMonoNs)) == Some(ReqHeader(seqNo, clientSendMonoNs))
    ensures ParseReqPayload(MakeReqPayloadSized(seqNo, clientSendMonoNs, payloadBytes))
         == Some(ReqHeader(seqNo, clientSendMonoNs))
  {
    DecodeEncodeU64(seqNo);
    DecodeEncodeU64(clientSendMonoNs);
  }

  /** Parsing a built ack payload gives back its three fields. */
  lemma AckRoundTrip(seqNo: u64, serverRecvMonoNs: u64, serverSendMonoNs: u64)
    ensures ParseAckPayload(MakeAckPayload(seqNo, serverRecvMonoNs, serverSendMonoNs))
         == Some(AckHeader(seqNo, serverRecvMonoNs, serverSendMonoNs))
  {
    DecodeEncodeU64(seqNo);
    DecodeEncodeU64(serverRecvMonoNs);
    DecodeEncodeU64(serverSendMonoNs);
  }
}
