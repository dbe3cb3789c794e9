/**
 * A-MSDU aggregation (section 8.3.2.2 of IEEE 802.11-2012): the transmit loop that strings
 * subframes together, the standard's reading of the resulting bytes, and the conversion of a
 * received subframe body back to an Ethernet frame.
 */
module Amsdu {
  import opened Arithmetic
  import opened Common

  const LENGTH_802_3 := 14
  const LENGTH_802_1Q := 4
  const AMSDU_SUBHEAD_LEN := 14
  const SNAP_802_1H: seq<byte> := [0xaa, 0xaa, 0x03, 0x00, 0x00, 0x00]
  const SNAP_BRIDGE_TUNNEL: seq<byte> := [0xaa, 0xaa, 0x03, 0x00, 0x00, 0xf8]
  const IPX: seq<byte> := [0x81, 0x37]
  const APPLE_TALK: seq<byte> := [0x80, 0xf3]

  /** A queued Ethernet frame; `fills` is whether the transmit block could be filled from it. */
  datatype Packet = Packet(buf: seq<byte>, vlan: bool, fills: bool)

  /** Length of the header that is stripped: addresses, an optional VLAN tag, the type field. */
  function HeaderLen(p: Packet): nat {
    LENGTH_802_3 + (if p.vlan then LENGTH_802_1Q else 0)
  }

  predicate WellFormed(p: Packet) {
    |p.buf| >= HeaderLen(p)
  }

  function Uint16(hi: byte, lo: byte): nat {
    0x100 * hi + lo
  }

  // ---------------------------------------------------------------- one subframe

  datatype Subframe = Subframe(da: Mac, sa: Mac, body: seq<byte>)

  function TypeField(p: Packet): seq<byte>
    requires WellFormed(p)
  {
    p.buf[HeaderLen(p) - 2..HeaderLen(p)]
  }

  function Data(p: Packet): seq<byte>
    requires WellFormed(p)
  {
    p.buf[HeaderLen(p)..]
  }

  /** The LLC/SNAP header a frame needs: none when its type field is an 802.3 length. */
  function Encap(typeField: seq<byte>): seq<byte>
    requires |typeField| == 2
  {
    if Uint16(typeField[0], typeField[1]) > 1500 then
      if typeField == IPX || typeField == APPLE_TALK then SNAP_BRIDGE_TUNNEL else SNAP_802_1H
    else []
  }

  /** The eight inserted octets: encapsulation header and type field, or nothing. */
  function Llc(typeField: seq<byte>): (llc: seq<byte>)
    requires |typeField| == 2
    ensures |llc| == if Uint16(typeField[0], typeField[1]) > 1500 then 8 else 0
  {
    var encap := Encap(typeField);
    if encap == [] then [] else encap + typeField
  }

  function Body(p: Packet): seq<byte>
    requires WellFormed(p)
  {
    Llc(TypeField(p)) + Data(p)
  }

  /** What the receiver should get; a repeater interface puts its own source address in. */
  function ToSubframe(p: Packet, sender: Option<Mac>): Subframe
    requires WellFormed(p)
  {
    Subframe(p.buf[..6], if sender.Some? then sender.value else p.buf[6..12], Body(p))
  }

  /** The 16-bit length field keeps the low sixteen bits. */
  function Bytes(s: Subframe): seq<byte> {
    s.da + s.sa + [(|s.body| % 0x10000) / 0x100, |s.body| % 0x100] + s.body
  }

  function Padding(length: nat): (pad: nat)
    ensures pad < 4 && (length + pad) % 4 == 0
  {
    (4 - length % 4) % 4
  }

  function Zeros(n: nat): seq<byte> {
    seq(n, _ => 0)
  }

  function Pad(chunk: seq<byte>): seq<byte> {
    chunk + Zeros(Padding(|chunk|))
  }

  /** Chunks in order, each but the last padded to a multiple of four. */
  function Join(chunks: seq<seq<byte>>): seq<byte> {
    if chunks == [] then []
    else if |chunks| == 1 then chunks[0]
    else Pad(chunks[0]) + Join(chunks[1..])
  }

  function Encode(subs: seq<Subframe>): seq<byte> {
    Join(Chunks(subs))
  }

  function Chunks(subs: seq<Subframe>): (chunks: seq<seq<byte>>)
    ensures |chunks| == |subs|
    ensures forall k :: 0 <= k < |subs| ==> chunks[k] == Bytes(subs[k])
  {
    seq(|subs|, k requires 0 <= k < |subs| => Bytes(subs[k]))
  }

  // ---------------------------------------------------------------- the standard's decoder

  function Parse(b: seq<byte>): Option<seq<Subframe>>
    decreases |b|
  {
    if b == [] then Some([])
    else if |b| < AMSDU_SUBHEAD_LEN then None
    else
      var end := AMSDU_SUBHEAD_LEN + Uint16(b[12], b[13]);
      if |b| < end then None
      else
        var sub := Subframe(b[..6], b[6..12], b[AMSDU_SUBHEAD_LEN..end]);
        var next := end + Padding(end);
        if |b| == end then Some([sub])
        else if |b| < next then None
        else
          match Parse(b[next..])
          case None => None
          case Some(rest) => Some([sub] + rest)
  }

  predicate Fits(s: Subframe) {
    |s.body| < 0x10000
  }

  lemma BytesLayout(s: Subframe)
    ensures |Bytes(s)| == AMSDU_SUBHEAD_LEN + |s.body|
    ensures Bytes(s)[..6] == s.da && Bytes(s)[6..12] == s.sa
    ensures Bytes(s)[AMSDU_SUBHEAD_LEN..] == s.body
    ensures Uint16(Bytes(s)[12], Bytes(s)[13]) == |s.body| % 0x10000
  {
    assert (|s.body| % 0x10000) % 0x100 == |s.body| % 0x100;
  }

  /**
   * The octets of a subframe that is not relayed for a client: both addresses as queued, the length of the
   * body, then the packet from its type field on, behind the LLC/SNAP header of section 5 of IEEE 802.1H
   * (the bridge tunnel for IPX and AppleTalk), or without type field if that is an 802.3 length.
   */
  lemma WireOctets(p: Packet)
    requires WellFormed(p)
    ensures var b, at := Bytes(ToSubframe(p, None)), if p.vlan then 16 else 12;
            var hi: int, lo: int := p.buf[at], p.buf[at + 1];
            && |b| >= 14 && b[..12] == p.buf[..12]
            && b[12] as int * 0x100 + b[13] as int == (|b| - 14) % 0x10000
            && b[14..] ==
               if hi * 0x100 + lo <= 1500 then p.buf[at + 2..]
               else [0xaa, 0xaa, 3, 0, 0, if (hi, lo) in {(0x81, 0x37), (0x80, 0xf3)} then 0xf8 else 0] + p.buf[at..]
  {
    var s, at := ToSubframe(p, None), if p.vlan then 16 else 12;
    BytesLayout(s);
    BodyOctets(p, at);
    hide Bytes, Body;
    assert p.buf[..12] == p.buf[..6] + p.buf[6..12];
    assert Bytes(s)[..12] == Bytes(s)[..6] + Bytes(s)[6..12];
  }

  lemma BodyOctets(p: Packet, at: nat)
    requires WellFormed(p) && at == if p.vlan then 16 else 12
    ensures var hi: int, lo: int := p.buf[at], p.buf[at + 1];
            Body(p) ==
            if hi * 0x100 + lo <= 1500 then p.buf[at + 2..]
            else [0xaa, 0xaa, 3, 0, 0, if (hi, lo) in {(0x81, 0x37), (0x80, 0xf3)} then 0xf8 else 0] + p.buf[at..]
  {
    var t := TypeField(p);
    assert t == [p.buf[at], p.buf[at + 1]] && p.buf[at..] == t + Data(p);
    hide TypeField, Data;
    if Uint16(t[0], t[1]) > 1500 {
      var llc := Encap(t);
      assert (llc + t) + Data(p) == llc + (t + Data(p));
    }
  }

  /** The header fields and the body of `s` stand at the front of `b`. */
  predicate StartsWith(b: seq<byte>, s: Subframe) {
    && |b| >= AMSDU_SUBHEAD_LEN + |s.body|
    && b[..6] == s.da && b[6..12] == s.sa
    && Uint16(b[12], b[13]) == |s.body|
    && b[AMSDU_SUBHEAD_LEN..AMSDU_SUBHEAD_LEN + |s.body|] == s.body
  }

  lemma FrontIs(b: seq<byte>, s: Subframe)
    requires StartsWith(b, s)
    ensures var end := AMSDU_SUBHEAD_LEN + Uint16(b[12], b[13]);
            end == AMSDU_SUBHEAD_LEN + |s.body| <= |b| && Subframe(b[..6], b[6..12], b[AMSDU_SUBHEAD_LEN..end]) == s
  {
    hide Uint16;
  }

  lemma ParseFront(b: seq<byte>, s: Subframe)
    requires StartsWith(b, s)
    ensures var end := AMSDU_SUBHEAD_LEN + |s.body|;
            && (|b| == end ==> Parse(b) == Some([s]))
            && (|b| > end + Padding(end) ==>
                  Parse(b) == (match Parse(b[end + Padding(end)..])
                               case None => None
                               case Some(subs) => Some([s] + subs)))
  {
    hide Padding, Uint16;
    var end := AMSDU_SUBHEAD_LEN + |s.body|;
    FrontIs(b, s);
    hide StartsWith;
  }

  lemma BytesAtFront(s: Subframe, tail: seq<byte>)
    requires Fits(s)
    ensures StartsWith(Bytes(s) + tail, s) && |Bytes(s) + tail| == AMSDU_SUBHEAD_LEN + |s.body| + |tail|
  {
    BytesLayout(s);
    var first := Bytes(s);
    var b := first + tail;
    assert b[..|first|] == first;
    assert b[..6] == first[..6] && b[6..12] == first[6..12];
    assert b[AMSDU_SUBHEAD_LEN..|first|] == first[AMSDU_SUBHEAD_LEN..];
  }

  lemma {:induction false} ParseEncode(subs: seq<Subframe>)
    requires forall s :: s in subs ==> Fits(s)
    ensures Parse(Encode(subs)) == Some(subs)
    decreases |subs|
  {
    if |subs| == 1 {
      BytesAtFront(subs[0], []);
      ParseFront(Bytes(subs[0]) + [], subs[0]);
      assert Bytes(subs[0]) + [] == Bytes(subs[0]) && subs == [subs[0]];
    } else if subs != [] {
      ParseEncode(subs[1..]);
      assert Chunks(subs)[1..] == Chunks(subs[1..]);
      EncodeNonEmpty(subs[1..]);
      ParseHead(subs[0], Encode(subs[1..]));
      assert [subs[0]] + subs[1..] == subs;
    }
  }

  lemma ParseHead(s: Subframe, rest: seq<byte>)
    requires Fits(s) && rest != [] && Parse(rest).Some?
    ensures Parse(Pad(Bytes(s)) + rest) == Some([s] + Parse(rest).value)
  {
    var pad := Zeros(Padding(|Bytes(s)|));
    BytesLayout(s);
    PaddedSplits(Bytes(s), rest);
    hide *;
    BytesAtFront(s, pad + rest);
    ParseFront(Bytes(s) + (pad + rest), s);
  }

  lemma PaddedSplits(chunk: seq<byte>, rest: seq<byte>)
    ensures var pad := Zeros(Padding(|chunk|));
            && |pad| == Padding(|chunk|)
            && chunk + (pad + rest) == Pad(chunk) + rest
            && (chunk + (pad + rest))[|chunk| + |pad|..] == rest
  {
    hide Padding;
  }

  lemma EncodeNonEmpty(subs: seq<Subframe>)
    requires subs != []
    ensures Encode(subs) != []
  {
    BytesLayout(subs[0]);
  }

  lemma {:induction false} ParsedFits(b: seq<byte>)
    ensures Parse(b).Some? ==> forall s :: s in Parse(b).value ==> Fits(s)
    decreases |b|
  {
    if |b| >= AMSDU_SUBHEAD_LEN {
      var next := AMSDU_SUBHEAD_LEN + Uint16(b[12], b[13]) + Padding(AMSDU_SUBHEAD_LEN + Uint16(b[12], b[13]));
      if |b| >= next {
        ParsedFits(b[next..]);
      }
    }
  }

  /** The receiver recovers the subframes exactly when every body fits the 16-bit length field. */
  lemma RoundTripIff(subs: seq<Subframe>)
    ensures Parse(Encode(subs)) == Some(subs) <==> forall s :: s in subs ==> Fits(s)
  {
    ParsedFits(Encode(subs));
    if forall s :: s in subs ==> Fits(s) {
      ParseEncode(subs);
    }
  }

  // ---------------------------------------------------------------- alignment

  /** The bytes in front of chunk `k`. */
  function Before(chunks: seq<seq<byte>>, k: nat): seq<byte>
    requires k < |chunks|
  {
    if k == 0 then [] else Pad(chunks[0]) + Before(chunks[1..], k - 1)
  }

  lemma {:induction false} ChunksAligned(chunks: seq<seq<byte>>, k: nat)
    requires k < |chunks|
    ensures |Before(chunks, k)| % 4 == 0
    ensures Before(chunks, k) + chunks[k] <= Join(chunks)
    ensures k == |chunks| - 1 ==> Join(chunks) == Before(chunks, k) + chunks[k]
  {
    if k > 0 {
      ChunksAligned(chunks[1..], k - 1);
      Behind(Pad(chunks[0]), Before(chunks[1..], k - 1), chunks[k], Join(chunks[1..]));
      PadAligns(chunks[0]);
      hide Pad, Padding;
    } else {
      assert [] + chunks[0] == chunks[0];
    }
  }

  lemma Behind(head: seq<byte>, a: seq<byte>, b: seq<byte>, all: seq<byte>)
    requires a + b <= all
    ensures (head + a) + b <= head + all && (all == a + b ==> (head + a) + b == head + all)
  {
    assert (head + a) + b == head + (a + b);
  }

  lemma PadAligns(chunk: seq<byte>)
    ensures |Pad(chunk)| % 4 == 0
  {
  }

  /** Every subframe starts on a 4-byte boundary relative to the first, and nothing trails the last. */
  lemma SubframesAligned(subs: seq<Subframe>, k: nat)
    requires k < |subs|
    ensures exists front ::
              |front| % 4 == 0 && front + Bytes(subs[k]) <= Encode(subs) &&
              (k == 0 ==> front == []) && (k == |subs| - 1 ==> front + Bytes(subs[k]) == Encode(subs))
  {
    ChunksAligned(Chunks(subs), k);
    var front := Before(Chunks(subs), k);
    assert |front| % 4 == 0 && front + Bytes(subs[k]) <= Encode(subs);
  }

  lemma {:induction false} JoinSnoc(chunks: seq<seq<byte>>, c: seq<byte>)
    requires chunks != []
    ensures Join(chunks + [c]) == Join(chunks) + (Zeros(Padding(|chunks[|chunks| - 1]|)) + c)
  {
    if |chunks| == 1 {
      assert (chunks + [c])[1..] == [c];
    } else {
      JoinSnoc(chunks[1..], c);
      assert (chunks + [c])[1..] == chunks[1..] + [c];
    }
  }

  /** Appending a subframe: padding after the previous one, if there is one, then its bytes. */
  lemma EncodeSnoc(subs: seq<Subframe>, s: Subframe)
    ensures Encode(subs + [s]) ==
            Encode(subs) +
            ((if subs == [] then [] else Zeros(Padding(AMSDU_SUBHEAD_LEN + |subs[|subs| - 1].body|))) + Bytes(s))
  {
    assert Chunks(subs + [s]) == Chunks(subs) + [Bytes(s)];
    if subs != [] {
      BytesLayout(subs[|subs| - 1]);
      JoinSnoc(Chunks(subs), Bytes(s));
    } else {
      assert Chunks(subs) + [Bytes(s)] == [Bytes(s)];
      assert [] + ([] + Bytes(s)) == Bytes(s);
    }
  }

  // ---------------------------------------------------------------- the transmit loop

  /** The subframes of the packets that could be filled, in queue order. */
  function Subframes(packets: seq<Packet>, sender: Option<Mac>): seq<Subframe>
    requires forall p :: p in packets ==> WellFormed(p)
  {
    if packets == [] then []
    else
      var init, last := packets[..|packets| - 1], packets[|packets| - 1];
      Subframes(init, sender) + (if last.fills then [ToSubframe(last, sender)] else [])
  }

  /** ROUND_UP to a multiple of four, by masking. */
  function RoundUp4(x: nat): nat {
    (x + 3) / 4 * 4
  }

  /** The zeros that go in front of a subframe, from the 16-bit length of the body before it. */
  function PaddingBefore(frameNum: nat, payloadLen: nat): seq<byte> {
    if frameNum == 0 then []
    else
      var length := AMSDU_SUBHEAD_LEN + payloadLen;
      Zeros(RoundUp4(length) - length)
  }

  lemma PaddingIsExact(subs: seq<Subframe>, payloadLen: nat)
    requires subs != [] ==> payloadLen == |subs[|subs| - 1].body| % 0x10000
    ensures PaddingBefore(|subs|, payloadLen) ==
            if subs == [] then [] else Zeros(Padding(AMSDU_SUBHEAD_LEN + |subs[|subs| - 1].body|))
  {
    if subs != [] { TruncatedPadding(|subs[|subs| - 1].body|); }
  }

  lemma TruncatedPadding(length: nat)
    ensures RoundUp4(AMSDU_SUBHEAD_LEN + length % 0x10000) - (AMSDU_SUBHEAD_LEN + length % 0x10000)
            == Padding(AMSDU_SUBHEAD_LEN + length)
  {
    var q, r := length / 0x10000, length % 0x10000;
    assert length == 4 * (0x4000 * q) + r;
    Periodic(AMSDU_SUBHEAD_LEN + r, 0x4000 * q);
    RoundsUp(AMSDU_SUBHEAD_LEN + r);
  }

  lemma Periodic(a: nat, q: nat)
    ensures Padding(a + 4 * q) == Padding(a)
  {
  }

  lemma RoundsUp(x: nat)
    ensures RoundUp4(x) == x + Padding(x)
  {
  }

  lemma NextPacket(packets: seq<Packet>, sender: Option<Mac>, i: nat)
    requires i < |packets| && forall p :: p in packets ==> WellFormed(p)
    ensures Subframes(packets[..i + 1], sender) ==
            Subframes(packets[..i], sender) + if packets[i].fills then [ToSubframe(packets[i], sender)] else []
  {
    assert packets[..i + 1][..i] == packets[..i];
  }

  lemma NoPackets(packets: seq<Packet>, sender: Option<Mac>)
    requires forall p :: p in packets ==> WellFormed(p)
    ensures Subframes(packets[..0], sender) == [] && Encode([]) == [] && packets[..|packets|] == packets
  {
  }

  /** AP_AMSDU_Frame_Tx: the bytes handed to the hardware behind the 802.11 header. */
  method Transmit(packets: seq<Packet>, sender: Option<Mac>) returns (out: seq<byte>)
    requires forall p :: p in packets ==> WellFormed(p)
    ensures out == Encode(Subframes(packets, sender))
  {
    hide *;
    out := [];
    var frameNum, subFramePayloadLen, i := 0, 0, 0;
    ghost var done: seq<Subframe> := [];
    NoPackets(packets, sender);
    while i < |packets|
      invariant 0 <= i <= |packets|
      invariant done == Subframes(packets[..i], sender) && out == Encode(done) && frameNum == |done|
      invariant done != [] ==> subFramePayloadLen == |done[|done| - 1].body| % 0x10000
    {
      NextPacket(packets, sender, i);
      var p := packets[i];
      i := i + 1;
      if p.fills {
        EncodeSnoc(done, ToSubframe(p, sender));
        PaddingIsExact(done, subFramePayloadLen);
        var padding := PaddingBefore(frameNum, subFramePayloadLen);
        var bytes;
        bytes, subFramePayloadLen := BuildSubframe(p, sender);
        out := out + (padding + bytes);
        frameNum := frameNum + 1;
        done := done + [ToSubframe(p, sender)];
      }
    }
  }

  /** One turn of the loop: subframe header, LLC/SNAP encapsulation, payload. */
  method BuildSubframe(p: Packet, sender: Option<Mac>) returns (bytes: seq<byte>, payloadLen: nat)
    requires WellFormed(p)
    ensures bytes == Bytes(ToSubframe(p, sender))
    ensures payloadLen == |ToSubframe(p, sender).body| % 0x10000
  {
    var da, sa: Mac := p.buf[..6], p.buf[6..12];
    if sender.Some? {
      sa := sender.value;
    }
    LowByte(|Data(p)|);
    payloadLen := (|p.buf| - HeaderLen(p)) % 0x10000;
    var llc := Llc(TypeField(p));
    if llc != [] {
      payloadLen := (payloadLen + 8) % 0x10000;
    }
    var body := llc + Data(p);
    assert body == Body(p);
    LowByte(|body|);
    bytes := da + sa + [payloadLen / 0x100, payloadLen % 0x100] + body;
  }

  lemma LowByte(n: nat)
    ensures (n % 0x10000) % 0x100 == n % 0x100
    ensures (n % 0x10000 + 8) % 0x10000 == (n + 8) % 0x10000
  {
    var q, r := n / 0x10000, n % 0x10000;
    ModUnique(0x100, 0x100 * q + r / 0x100, r % 0x100);
    if r + 8 < 0x10000 { ModUnique(0x10000, q, r + 8); } else { ModUnique(0x10000, q + 1, r + 8 - 0x10000); }
  }

  // ---------------------------------------------------------------- back to Ethernet

  /**
   * Whether the receive conversion strips the first eight bytes. It compares without looking at the
   * length: `mem` is the memory from the body on, which a short body does not fill.
   */
  predicate Strips(mem: seq<byte>)
    requires |mem| >= 8
  {
    && (mem[..6] == SNAP_802_1H || mem[..6] == SNAP_BRIDGE_TUNNEL)
    && !((mem[6..8] == IPX || mem[6..8] == APPLE_TALK) && mem[..6] == SNAP_802_1H)
  }

  function Uint16Bytes(n: nat): seq<byte> {
    [(n % 0x10000) / 0x100, n % 0x100]
  }

  /** The type or length field, and where in memory the payload is found. */
  datatype Converted = Converted(typeField: seq<byte>, start: nat, size: nat)

  /** CONVERT_TO_802_3; the size is a 16-bit number and wraps. */
  function Convert(mem: seq<byte>, size: nat): Converted
    requires |mem| >= 8
  {
    if Strips(mem) then Converted(mem[6..8], 8, (size + 0x10000 - 8) % 0x10000)
    else Converted(Uint16Bytes(size), 0, size % 0x10000)
  }

  predicate Found(mem: seq<byte>, c: Converted, data: seq<byte>) {
    c.size == |data| && c.start + c.size <= |mem| && mem[c.start..c.start + c.size] == data
  }

  lemma BodyOfType(p: Packet, mem: seq<byte>)
    requires WellFormed(p) && |mem| >= 8 && Body(p) <= mem
    ensures Uint16(TypeField(p)[0], TypeField(p)[1]) > 1500 ==>
              Strips(mem) && mem[6..8] == TypeField(p) && mem[8..|Body(p)|] == Data(p) && |Body(p)| == 8 + |Data(p)|
    ensures Uint16(TypeField(p)[0], TypeField(p)[1]) <= 1500 ==> Body(p) == Data(p)
  {
    var t, d := TypeField(p), Data(p);
    if Uint16(t[0], t[1]) > 1500 {
      var body := Body(p);
      assert body[..6] == Encap(t) && body[6..8] == t && body[8..] == d;
      assert mem[..6] == body[..6] && mem[6..8] == body[6..8];
    }
  }

  /**
   * Type field and payload survive aggregation and the receive conversion exactly when the type field is
   * an Ethernet type, or is the true length of a payload that, with what follows it in memory, does not
   * start like a removable LLC/SNAP header.
   */
  lemma EthernetRoundTripIff(p: Packet, mem: seq<byte>)
    requires WellFormed(p) && |Body(p)| < 0x10000 && |mem| >= 8 && Body(p) <= mem
    ensures var c := Convert(mem, |Body(p)|);
            var len := Uint16(TypeField(p)[0], TypeField(p)[1]);
            c.typeField == TypeField(p) && Found(mem, c, Data(p)) <==>
            len > 1500 || (len == |Data(p)| && !Strips(mem))
  {
    var t, d := TypeField(p), Data(p);
    BodyOfType(p, mem);
    Small16(|Body(p)|);
    LengthField(t, |d|);
    hide Strips, Body, Uint16, Uint16Bytes, TypeField, Data;
    if Uint16(t[0], t[1]) <= 1500 && !Strips(mem) {
      assert Found(mem, Convert(mem, |d|), d);
    }
  }

  lemma Small16(n: nat)
    requires n < 0x10000
    ensures n % 0x10000 == n && (n >= 8 ==> (n + 0x10000 - 8) % 0x10000 == n - 8)
    ensures n < 8 ==> (n + 0x10000 - 8) % 0x10000 != n
  {
  }

  lemma LengthField(t: seq<byte>, n: nat)
    requires |t| == 2 && n < 0x10000
    ensures Uint16Bytes(n) == t <==> Uint16(t[0], t[1]) == n
  {
    Small16(n);
    Digits(t[0], t[1]);
    assert t == [t[0], t[1]];
  }

  lemma Digits(hi: nat, lo: nat)
    requires lo < 0x100
    ensures (0x100 * hi + lo) / 0x100 == hi && (0x100 * hi + lo) % 0x100 == lo
  {
  }
}
