/**
 * The driver's own receiver of an A-MSDU: it walks the subframes, turns each into an Ethernet frame
 * where it lies, and passes up a copy. Unlike the standard's reader it has limits of its own.
 */
module Deaggregation {
  import opened Amsdu
  import opened Common

  const MAX_PAYLOAD := 1518
  const MIN_SUBFRAME := 32
  const MAX_SUBFRAME := 1528

  /** Memory behind the aggregate that short bodies let the conversion reach into. */
  const SLACK := 32

  /** The VLAN tag of the interface, or nothing. */
  type Tag = t: seq<byte> | |t| == 0 || |t| == LENGTH_802_1Q witness []

  /** The Ethernet header, as it is written into memory. */
  function Header(mem: seq<byte>, typeField: seq<byte>, tag: Tag): seq<byte>
    requires |mem| >= 12
  {
    mem[..12] + tag + typeField
  }

  /** How many bytes are passed up; a 16-bit sum. */
  function FrameSize(body: seq<byte>, payload: nat, tag: Tag): nat
    requires |body| >= 8
  {
    (Convert(body, payload).size + (if Strips(body) then LENGTH_802_3 else 0) + |tag|) % 0x10000
  }

  /** Where the header is written: over the octets removed and those before them, or over the body itself. */
  function HeaderAt(body: seq<byte>, tag: Tag): nat
    requires |body| >= 8
  {
    LENGTH_802_3 - |tag| + if Strips(body) then 8 - LENGTH_802_3 else 0
  }

  /** Header, and what stands behind it. */
  function Rewritten(mem: seq<byte>, payload: nat, tag: Tag): seq<byte>
    requires |mem| >= 2 * LENGTH_802_3
  {
    var body := mem[LENGTH_802_3..];
    Header(mem, Convert(body, payload).typeField, tag) + body[if Strips(body) then 8 else LENGTH_802_3..]
  }

  /** The frame passed up for the subframe at the front of `mem`. */
  function Frame(mem: seq<byte>, payload: nat, tag: Tag): seq<byte>
    requires payload <= MAX_PAYLOAD && |mem| >= payload + SLACK
  {
    FrameSizeIs(mem[LENGTH_802_3..], payload, tag);
    Rewritten(mem, payload, tag)[..FrameSize(mem[LENGTH_802_3..], payload, tag)]
  }

  lemma FrameSizeIs(body: seq<byte>, payload: nat, tag: Tag)
    requires |body| >= 8 && payload <= MAX_PAYLOAD
    ensures FrameSize(body, payload, tag) == payload + |tag| + if Strips(body) then LENGTH_802_3 - 8 else 0
  {
    hide Strips;
    Small16(payload);
    if payload < 8 { Small16(payload + 6 + |tag|); } else { Small16(payload - 8); }
  }

  function RoundedSubframe(payload: nat): nat {
    RoundUp4(payload + LENGTH_802_3)
  }

  /** deaggregate_AMSDU_announce: the frames passed up for `size` bytes of `mem`. */
  function Deagg(mem: seq<byte>, size: nat, tag: Tag): seq<seq<byte>>
    requires |mem| >= size + SLACK
    decreases size
  {
    if size <= LENGTH_802_3 then []
    else
      var payload := Uint16(mem[12], mem[13]);
      if payload > MAX_PAYLOAD || size < payload + LENGTH_802_3 then []
      else
        var frame := Frame(mem, payload, tag);
        var step := RoundedSubframe(payload);
        if MIN_SUBFRAME <= step <= MAX_SUBFRAME && size > step then [frame] + Deagg(mem[step..], size - step, tag)
        else [frame]
  }

  /** The header is copied into the buffer. */
  method PutHeader(buf: array<byte>, start: nat, header: seq<byte>)
    requires start + |header| <= buf.Length
    modifies buf
    ensures buf[start..] == header + old(buf[start + |header|..])
    ensures forall k :: 0 <= k < start || start + |header| <= k < buf.Length ==> buf[k] == old(buf[k])
  {
    forall i | 0 <= i < |header| {
      buf[start + i] := header[i];
    }
  }

  /** Converts one subframe where it lies and copies it out. */
  method Announce(buf: array<byte>, pos: nat, payload: nat, tag: Tag) returns (frame: seq<byte>, start: nat)
    requires payload <= MAX_PAYLOAD && pos + payload + SLACK <= buf.Length
    modifies buf
    ensures frame == Frame(old(buf[pos..]), payload, tag)
    ensures pos <= start && start + |frame| <= pos + LENGTH_802_3 + payload && buf[start..start + |frame|] == frame
    ensures forall k :: 0 <= k < pos || pos + 2 * LENGTH_802_3 <= k < buf.Length ==> buf[k] == old(buf[k])
  {
    hide Strips, Convert;
    ghost var mem := buf[pos..];
    var body := buf[pos + LENGTH_802_3..];
    FrameSizeIs(body, payload, tag);
    ConvertedField(body, payload);
    var size, typeField := FrameSize(body, payload, tag), Convert(body, payload).typeField;
    var header := buf[pos..pos + 12] + tag + typeField;
    start := pos + HeaderAt(body, tag);
    assert body == mem[LENGTH_802_3..] && buf[pos..pos + 12] == mem[..12];
    assert buf[start + |header|..] == body[if Strips(body) then 8 else LENGTH_802_3..];
    PutHeader(buf, start, header);
    assert buf[start..start + size] == buf[start..][..size];
    frame := buf[start..start + size];
  }

  lemma ConvertedField(body: seq<byte>, payload: nat)
    requires |body| >= 8
    ensures |Convert(body, payload).typeField| == 2
  {
  }

  /** The frames stand in memory where they were passed up, none of them reaching `limit`. */
  predicate InPlace(mem: seq<byte>, frames: seq<seq<byte>>, starts: seq<nat>, limit: nat) {
    && |starts| == |frames| && limit <= |mem|
    && forall i :: 0 <= i < |frames| ==>
         starts[i] + |frames[i]| <= limit && mem[starts[i]..starts[i] + |frames[i]|] == frames[i]
  }

  lemma StillInPlace(mem: seq<byte>, mem': seq<byte>, frames: seq<seq<byte>>, starts: seq<nat>, limit: nat, limit': nat)
    requires InPlace(mem, frames, starts, limit) && limit <= limit' <= |mem'|
    requires forall k :: 0 <= k < limit ==> mem'[k] == mem[k]
    ensures InPlace(mem', frames, starts, limit')
  {
    forall i | 0 <= i < |frames| ensures mem'[starts[i]..starts[i] + |frames[i]|] == frames[i] {
      assert mem'[starts[i]..starts[i] + |frames[i]|] == mem[starts[i]..starts[i] + |frames[i]|];
    }
  }

  lemma OneMoreInPlace(mem: seq<byte>, frames: seq<seq<byte>>, starts: seq<nat>, limit: nat,
                       frame: seq<byte>, start: nat)
    requires InPlace(mem, frames, starts, limit) && start + |frame| <= limit && mem[start..start + |frame|] == frame
    ensures InPlace(mem, frames + [frame], starts + [start], limit)
  {
  }

  /** One more frame passed up. */
  method PassUp(buf: array<byte>, pos: nat, payload: nat, tag: Tag, frames: seq<seq<byte>>, starts: seq<nat>)
    returns (frames': seq<seq<byte>>, starts': seq<nat>)
    requires payload <= MAX_PAYLOAD && pos + payload + SLACK <= buf.Length && InPlace(buf[..], frames, starts, pos)
    modifies buf
    ensures frames' == frames + [Frame(old(buf[pos..]), payload, tag)]
    ensures InPlace(buf[..], frames', starts', pos + LENGTH_802_3 + payload)
    ensures forall k :: pos + 2 * LENGTH_802_3 <= k < buf.Length ==> buf[k] == old(buf[k])
  {
    hide InPlace, Frame;
    ghost var before := buf[..];
    var frame, start := Announce(buf, pos, payload, tag);
    Passed(before, buf[..], frames, starts, pos, pos + LENGTH_802_3 + payload, frame, start);
    frames', starts' := frames + [frame], starts + [start];
  }

  /**
   * The loop over the subframes. The frames passed up share the buffer; no later turn overwrites an
   * earlier one.
   */
  method Deaggregate(buf: array<byte>, dataSize: nat, tag: Tag) returns (frames: seq<seq<byte>>, starts: seq<nat>)
    requires buf.Length >= dataSize + SLACK
    modifies buf
    ensures frames == Deagg(old(buf[..]), dataSize, tag)
    ensures InPlace(buf[..], frames, starts, dataSize)
  {
    hide Deagg, Frame, Uint16, RoundedSubframe;
    ghost var mem := buf[..];
    frames, starts := [], [];
    assert InPlace(buf[..], frames, starts, 0);
    hide InPlace;
    var pos: nat, size: nat := 0, dataSize;
    assert mem[0..] == mem && frames + Deagg(mem, size, tag) == Deagg(mem, size, tag);
    while size > LENGTH_802_3
      invariant pos + size == dataSize && |mem| == buf.Length && InPlace(buf[..], frames, starts, pos)
      invariant forall k :: pos <= k < |mem| ==> buf[k] == mem[k]
      invariant frames + Deagg(mem[pos..], size, tag) == Deagg(mem, dataSize, tag)
    {
      var payload := Uint16(buf[pos + 12], buf[pos + 13]);
      DeaggTurn(mem, pos, size, tag);
      if size < payload + LENGTH_802_3 || payload > MAX_PAYLOAD {
        StillInPlace(buf[..], buf[..], frames, starts, pos, dataSize);
        return;
      }
      assert buf[pos..] == mem[pos..];
      ghost var done := frames;
      frames, starts := PassUp(buf, pos, payload, tag, frames, starts);
      var step := RoundedSubframe(payload);
      Steps(payload);
      if step > MAX_SUBFRAME || step < MIN_SUBFRAME || size <= step {
        StillInPlace(buf[..], buf[..], frames, starts, pos + LENGTH_802_3 + payload, dataSize);
        return;
      }
      StillInPlace(buf[..], buf[..], frames, starts, pos + LENGTH_802_3 + payload, pos + step);
      pos, size := pos + step, size - step;
      Append(done, Frame(mem[pos - step..], payload, tag), Deagg(mem[pos..], size, tag));
    }
    DeaggEnds(mem[pos..], size, tag);
    StillInPlace(buf[..], buf[..], frames, starts, pos, dataSize);
  }

  lemma Passed(mem: seq<byte>, mem': seq<byte>, frames: seq<seq<byte>>, starts: seq<nat>, pos: nat, limit: nat,
               frame: seq<byte>, start: nat)
    requires InPlace(mem, frames, starts, pos) && pos <= limit <= |mem'|
    requires forall k :: 0 <= k < pos ==> mem'[k] == mem[k]
    requires start + |frame| <= limit && mem'[start..start + |frame|] == frame
    ensures InPlace(mem', frames + [frame], starts + [start], limit)
  {
    StillInPlace(mem, mem', frames, starts, pos, limit);
    OneMoreInPlace(mem', frames, starts, limit, frame, start);
    hide InPlace;
  }

  lemma Append(done: seq<seq<byte>>, frame: seq<byte>, rest: seq<seq<byte>>)
    ensures done + ([frame] + rest) == done + [frame] + rest
  {
  }

  lemma DeaggEnds(mem: seq<byte>, size: nat, tag: Tag)
    requires |mem| >= size + SLACK && size <= LENGTH_802_3
    ensures Deagg(mem, size, tag) == []
  {
  }

  /** One turn of the loop at `pos`. */
  lemma DeaggTurn(mem: seq<byte>, pos: nat, size: nat, tag: Tag)
    requires |mem| >= pos + size + SLACK && size > LENGTH_802_3
    ensures var payload := Uint16(mem[pos + 12], mem[pos + 13]);
            var step := RoundedSubframe(payload);
            Deagg(mem[pos..], size, tag) ==
            if payload > MAX_PAYLOAD || size < payload + LENGTH_802_3 then []
            else if MIN_SUBFRAME <= step <= MAX_SUBFRAME && size > step then
              [Frame(mem[pos..], payload, tag)] + Deagg(mem[pos + step..], size - step, tag)
            else [Frame(mem[pos..], payload, tag)]
  {
    hide Frame, Uint16, RoundedSubframe;
    var step := RoundedSubframe(Uint16(mem[pos + 12], mem[pos + 13]));
    if step <= size { assert mem[pos..][step..] == mem[pos + step..]; }
  }

  // ---------------------------------------------------------------- what it gives back

  /**
   * The Ethernet frame a packet should arrive as: its destination, its source or the repeater's address for
   * it, the tag of the interface that receives it, and the rest from the type field on, behind any VLAN tag.
   */
  function Wanted(p: Packet, sender: Option<Mac>, tag: Tag): seq<byte>
    requires WellFormed(p)
  {
    p.buf[..6] + (if sender.Some? then sender.value else p.buf[6..12]) + tag + p.buf[if p.vlan then 16 else 12..]
  }

  lemma WantedIs(p: Packet, sender: Option<Mac>, tag: Tag)
    requires WellFormed(p)
    ensures var s := ToSubframe(p, sender);
            Wanted(p, sender, tag) == s.da + s.sa + tag + TypeField(p) + Data(p)
  {
    assert p.buf[if p.vlan then 16 else 12..] == TypeField(p) + Data(p);
  }


  predicate AllWellFormed(ps: seq<Packet>) {
    forall p :: p in ps ==> WellFormed(p)
  }

  function AllWanted(ps: seq<Packet>, sender: Option<Mac>, tag: Tag): seq<seq<byte>>
    requires AllWellFormed(ps)
  {
    if ps == [] then [] else [Wanted(ps[0], sender, tag)] + AllWanted(ps[1..], sender, tag)
  }

  function AllSubframes(ps: seq<Packet>, sender: Option<Mac>): (subs: seq<Subframe>)
    requires AllWellFormed(ps)
    ensures |subs| == |ps|
  {
    if ps == [] then [] else [ToSubframe(ps[0], sender)] + AllSubframes(ps[1..], sender)
  }

  /** The type field, behind the addresses and any VLAN tag, is above the 802.3 lengths. */
  predicate EtherType(p: Packet)
    requires WellFormed(p)
  {
    var at := if p.vlan then 16 else 12;
    var hi: int, lo: int := p.buf[at], p.buf[at + 1];
    0x100 * hi + lo > 1500
  }

  /** The packets the driver reads back: typed, short enough, and long enough unless they come last. */
  predicate Readable(ps: seq<Packet>)
    requires AllWellFormed(ps)
  {
    forall i :: 0 <= i < |ps| ==> FitsAs(ps[i], i == |ps| - 1)
  }

  predicate FitsAs(p: Packet, last: bool)
    requires WellFormed(p)
  {
    EtherType(p) && if last then |Data(p)| <= 1510 else 7 <= |Data(p)| <= 1506
  }

  /** The bytes of a packet's subframe at the front of `mem`. */
  predicate AtFront(p: Packet, sender: Option<Mac>, mem: seq<byte>)
    requires WellFormed(p)
  {
    Bytes(ToSubframe(p, sender)) <= mem
  }

  lemma FrontFields(p: Packet, sender: Option<Mac>, mem: seq<byte>)
    requires WellFormed(p) && AtFront(p, sender, mem)
    ensures |mem| >= AMSDU_SUBHEAD_LEN + |Body(p)|
    ensures var s := ToSubframe(p, sender);
            && mem[..12] == s.da + s.sa && Body(p) <= mem[LENGTH_802_3..]
            && Uint16(mem[12], mem[13]) == |Body(p)| % 0x10000
  {
    var s := ToSubframe(p, sender);
    BytesLayout(s);
    var b := Bytes(s);
    hide Bytes, Uint16, ToSubframe, Body;
    assert mem[..12] == b[..6] + b[6..12];
    assert mem[LENGTH_802_3..][..|s.body|] == b[AMSDU_SUBHEAD_LEN..];
    assert s.body == Body(p) by { BodyIs(p, sender); }
  }

  lemma BodyIs(p: Packet, sender: Option<Mac>)
    requires WellFormed(p)
    ensures ToSubframe(p, sender).body == Body(p)
  {
  }

  lemma TakeBoth(a: seq<byte>, b: seq<byte>, d: seq<byte>)
    requires |d| <= |b| && b[..|d|] == d
    ensures (a + b)[..|a| + |d|] == a + d
  {
  }

  lemma EtherTypeIs(p: Packet)
    requires WellFormed(p)
    ensures EtherType(p) <==> Uint16(TypeField(p)[0], TypeField(p)[1]) > 1500
  {
  }

  /** A short enough packet is passed up as it should exactly when it has an Ethernet type. */
  lemma FrameIff(p: Packet, sender: Option<Mac>, mem: seq<byte>, tag: Tag)
    requires WellFormed(p) && AtFront(p, sender, mem) && |Body(p)| <= MAX_PAYLOAD && |mem| >= |Body(p)| + SLACK
    ensures Frame(mem, |Body(p)|, tag) == Wanted(p, sender, tag) <==> EtherType(p)
  {
    var body := mem[LENGTH_802_3..];
    FrontFields(p, sender, mem);
    BodyOfType(p, body);
    FrameSizeIs(body, |Body(p)|, tag);
    WantedIs(p, sender, tag);
    EtherTypeIs(p);
    hide Strips, FrameSize, Wanted, EtherType, Body, TypeField, Data, ToSubframe, Uint16;
    var d := Data(p);
    if EtherType(p) {
      var header := Header(mem, TypeField(p), tag);
      assert body[8..][..|d|] == body[8..8 + |d|];
      TakeBoth(header, body[8..], d);
    }
  }

  /** What the loop makes of the first subframe, if it passes it up. */
  lemma HeadIff(p: Packet, sender: Option<Mac>, mem: seq<byte>, size: nat, tag: Tag)
    requires WellFormed(p) && AtFront(p, sender, mem) && |mem| >= size + SLACK
    requires size >= LENGTH_802_3 + |Body(p)|
    ensures var frames := Deagg(mem, size, tag);
            frames != [] && frames[0] == Wanted(p, sender, tag) <==> EtherType(p) && |Body(p)| <= MAX_PAYLOAD
  {
    FrontFields(p, sender, mem);
    var body, payload := mem[LENGTH_802_3..], |Body(p)| % 0x10000;
    hide EtherType, Frame, Body, ToSubframe, Wanted, Bytes, Uint16, Strips, FrameSize, Rewritten;
    BodyOfType(p, body);
    EtherTypeIs(p);
    DeaggFront(mem, size, tag);
    if payload <= MAX_PAYLOAD {
      FrameSizeIs(body, payload, tag);
      WantedSize(p, sender, tag);
      if |Body(p)| <= MAX_PAYLOAD {
        Small16(|Body(p)|);
        FrameIff(p, sender, mem, tag);
      }
    }
    hide Deagg;
  }

  lemma WantedSize(p: Packet, sender: Option<Mac>, tag: Tag)
    requires WellFormed(p)
    ensures |Wanted(p, sender, tag)| == LENGTH_802_3 + |tag| + |Data(p)| && |Body(p)| <= |Data(p)| + 8
  {
  }

  lemma DeaggFront(mem: seq<byte>, size: nat, tag: Tag)
    requires |mem| >= size + SLACK && size >= LENGTH_802_3
    requires size >= LENGTH_802_3 + Uint16(mem[12], mem[13])
    ensures var payload := Uint16(mem[12], mem[13]);
            var frames := Deagg(mem, size, tag);
            if size == LENGTH_802_3 || payload > MAX_PAYLOAD then frames == []
            else frames != [] && frames[0] == Frame(mem, payload, tag)
  {
  }

  /** Where the loop stands after the first of several subframes. */
  lemma AfterFirst(p: Packet, sender: Option<Mac>, rest: seq<byte>, tail: seq<byte>, tag: Tag)
    requires WellFormed(p) && |Body(p)| <= MAX_PAYLOAD && rest != [] && |tail| >= SLACK
    ensures var first := Pad(Bytes(ToSubframe(p, sender)));
            var mem, size := first + rest + tail, |first + rest|;
            && AtFront(p, sender, mem) && size >= LENGTH_802_3 + |Body(p)|
            && Deagg(mem, size, tag) ==
               [Frame(mem, |Body(p)|, tag)] +
               if 15 <= |Body(p)| <= 1514 then Deagg(rest + tail, |rest|, tag) else []
  {
    var first := Pad(Bytes(ToSubframe(p, sender)));
    var mem, size := first + rest + tail, |first + rest|;
    Layout(p, sender, rest, tail);
    LengthAtFront(p, sender, mem);
    Steps(|Body(p)|);
    hide *;
    FirstTurn(mem, size, |Body(p)|, tag);
  }

  lemma FirstTurn(mem: seq<byte>, size: nat, payload: nat, tag: Tag)
    requires |mem| >= size + SLACK && size > RoundedSubframe(payload) && payload <= MAX_PAYLOAD
    requires |mem| >= AMSDU_SUBHEAD_LEN && Uint16(mem[12], mem[13]) == payload
    ensures |mem| >= payload + SLACK && size >= LENGTH_802_3 + payload
    ensures Deagg(mem, size, tag) ==
            [Frame(mem, payload, tag)] +
            if 15 <= payload <= 1514 then Deagg(mem[RoundedSubframe(payload)..], size - RoundedSubframe(payload), tag)
            else []
  {
    Steps(payload);
    hide Frame, Uint16, RoundedSubframe;
  }

  lemma LengthAtFront(p: Packet, sender: Option<Mac>, mem: seq<byte>)
    requires WellFormed(p) && AtFront(p, sender, mem) && |Body(p)| <= MAX_PAYLOAD
    ensures |mem| >= AMSDU_SUBHEAD_LEN + |Body(p)| && Uint16(mem[12], mem[13]) == |Body(p)|
  {
    FrontFields(p, sender, mem);
    Small16(|Body(p)|);
  }

  /** The memory that holds the first of several subframes. */
  lemma Layout(p: Packet, sender: Option<Mac>, rest: seq<byte>, tail: seq<byte>)
    requires WellFormed(p)
    ensures var first := Pad(Bytes(ToSubframe(p, sender)));
            var mem := first + rest + tail;
            && AtFront(p, sender, mem) && |first| == RoundUp4(AMSDU_SUBHEAD_LEN + |Body(p)|) >= LENGTH_802_3 + |Body(p)|
            && mem[0..] == mem && mem[|first|..] == rest + tail
            && |mem| == |first + rest| + |tail|
  {
    var chunk := Bytes(ToSubframe(p, sender));
    BytesLayout(ToSubframe(p, sender));
    BodyIs(p, sender);
    PaddedSize(chunk);
    Steps(|Body(p)|);
    PadStarts(chunk, rest + tail);
    Slices(Pad(chunk), rest, tail);
    hide Pad, Bytes, ToSubframe, Body, RoundUp4, RoundedSubframe;
  }

  lemma Slices(first: seq<byte>, rest: seq<byte>, tail: seq<byte>)
    ensures var mem := first + rest + tail;
            && first + (rest + tail) == mem && mem[0..] == mem && mem[|first|..] == rest + tail
            && |mem| == |first + rest| + |tail|
  {
  }

  lemma PaddedSize(chunk: seq<byte>)
    ensures |Pad(chunk)| == RoundUp4(|chunk|)
  {
    RoundsUp(|chunk|);
  }

  lemma PadStarts(chunk: seq<byte>, more: seq<byte>)
    ensures chunk <= Pad(chunk) + more
  {
  }

  /** The limits on a subframe as limits on its body. */
  lemma Steps(payload: nat)
    ensures MIN_SUBFRAME <= RoundedSubframe(payload) <= MAX_SUBFRAME <==> 15 <= payload <= 1514
    ensures RoundedSubframe(payload) == RoundUp4(AMSDU_SUBHEAD_LEN + payload) >= payload + LENGTH_802_3
  {
  }

  lemma EncodeMore(ps: seq<Packet>, sender: Option<Mac>)
    requires AllWellFormed(ps) && |ps| > 1
    ensures Encode(AllSubframes(ps, sender)) ==
            Pad(Bytes(ToSubframe(ps[0], sender))) + Encode(AllSubframes(ps[1..], sender))
    ensures Encode(AllSubframes(ps[1..], sender)) != []
  {
    var subs := AllSubframes(ps, sender);
    EncodeNonEmpty(subs[1..]);
    assert Chunks(subs)[1..] == Chunks(subs[1..]);
    hide Pad, Bytes, ToSubframe;
  }

  lemma EncodeOne(ps: seq<Packet>, sender: Option<Mac>)
    requires AllWellFormed(ps) && |ps| == 1
    ensures Encode(AllSubframes(ps, sender)) == Bytes(ToSubframe(ps[0], sender))
    ensures |Encode(AllSubframes(ps, sender))| == LENGTH_802_3 + |Body(ps[0])|
  {
    BytesLayout(ToSubframe(ps[0], sender));
    hide Bytes, ToSubframe;
    BodyIs(ps[0], sender);
  }

  lemma ReadableMore(ps: seq<Packet>)
    requires AllWellFormed(ps) && |ps| > 1
    ensures Readable(ps) <==> EtherType(ps[0]) && 7 <= |Data(ps[0])| <= 1506 && Readable(ps[1..])
  {
    assert FitsAs(ps[0], false) <==> EtherType(ps[0]) && 7 <= |Data(ps[0])| <= 1506;
    hide FitsAs, EtherType, Data;
    if FitsAs(ps[0], false) && Readable(ps[1..]) {
      forall i | 0 <= i < |ps| ensures FitsAs(ps[i], i == |ps| - 1) {
        if i > 0 { assert ps[i] == ps[1..][i - 1]; }
      }
    }
    if Readable(ps) {
      forall i | 0 <= i < |ps[1..]| ensures FitsAs(ps[1..][i], i == |ps[1..]| - 1) {
        assert ps[1..][i] == ps[i + 1];
      }
    }
  }

  /** One packet alone. */
  lemma ReadsOne(p: Packet, sender: Option<Mac>, mem: seq<byte>, tag: Tag)
    requires WellFormed(p) && AtFront(p, sender, mem) && |mem| >= LENGTH_802_3 + |Body(p)| + SLACK
    ensures Deagg(mem, LENGTH_802_3 + |Body(p)|, tag) == [Wanted(p, sender, tag)] <==> Readable([p])
  {
    var size := LENGTH_802_3 + |Body(p)|;
    HeadIff(p, sender, mem, size, tag);
    TypedBody(p);
    ReadableOne(p);
    hide Frame, Wanted, Body, EtherType, Bytes, Readable, RoundedSubframe, RoundUp4, Uint16;
    if EtherType(p) && |Body(p)| <= MAX_PAYLOAD {
      FrontFields(p, sender, mem);
      Small16(|Body(p)|);
      DeaggTurn(mem, 0, size, tag);
      Steps(|Body(p)|);
      assert mem[0..] == mem;
    }
    hide Deagg;
  }

  lemma ReadableOne(p: Packet)
    requires WellFormed(p)
    ensures Readable([p]) <==> EtherType(p) && |Data(p)| <= 1510
  {
    assert Readable([p]) <==> FitsAs([p][0], true);
  }

  lemma TypedBody(p: Packet)
    requires WellFormed(p)
    ensures EtherType(p) ==> |Body(p)| == |Data(p)| + 8
  {
  }

  /**
   * The driver's receiver gives back all packets of an aggregate, each as its Ethernet frame, exactly
   * when all carry an Ethernet type and at most 1510 bytes, all but the last at most 1506 and at least 7.
   */
  lemma {:induction false} DriverReadsIff(ps: seq<Packet>, sender: Option<Mac>, tail: seq<byte>, tag: Tag)
    requires AllWellFormed(ps) && |tail| >= SLACK
    ensures var sent := Encode(AllSubframes(ps, sender));
            Deagg(sent + tail, |sent|, tag) == AllWanted(ps, sender, tag) <==> Readable(ps)
    decreases |ps|
  {
    if |ps| == 1 {
      EncodeOne(ps, sender);
      assert ps == [ps[0]] && AllWanted(ps, sender, tag) == [Wanted(ps[0], sender, tag)];
      ReadsOne(ps[0], sender, Bytes(ToSubframe(ps[0], sender)) + tail, tag);
      hide *;
    } else if |ps| > 1 {
      DriverReadsIff(ps[1..], sender, tail, tag);
      EncodeMore(ps, sender);
      ReadableMore(ps);
      TypedBody(ps[0]);
      ReadsFirst(ps, sender, tail, tag);
      hide Deagg, Encode, Readable, Wanted, EtherType, Body, Data;
    }
  }

  /** The first of several packets. */
  lemma ReadsFirst(ps: seq<Packet>, sender: Option<Mac>, tail: seq<byte>, tag: Tag)
    requires AllWellFormed(ps) && |ps| > 1 && |tail| >= SLACK
    ensures var sent, rest := Encode(AllSubframes(ps, sender)), Encode(AllSubframes(ps[1..], sender));
            Deagg(sent + tail, |sent|, tag) == AllWanted(ps, sender, tag) <==>
            EtherType(ps[0]) && 15 <= |Body(ps[0])| <= 1514 &&
            Deagg(rest + tail, |rest|, tag) == AllWanted(ps[1..], sender, tag)
  {
    var p, rest := ps[0], Encode(AllSubframes(ps[1..], sender));
    var first := Pad(Bytes(ToSubframe(p, sender)));
    EncodeMore(ps, sender);
    var mem := first + rest + tail;
    Layout(p, sender, rest, tail);
    HeadIff(p, sender, mem, |first + rest|, tag);
    if |Body(p)| <= MAX_PAYLOAD { AfterFirst(p, sender, rest, tail, tag); }
    hide Deagg, Encode, Readable, Wanted, EtherType, Body, Data, Pad, Bytes, Frame, RoundUp4, AtFront, ToSubframe;
    assert AllWanted(ps, sender, tag)[0] == Wanted(p, sender, tag);
    assert AllWanted(ps, sender, tag)[1..] == AllWanted(ps[1..], sender, tag) != [];
  }

  // ---------------------------------------------------------------- from queue to frames

  /** The packets that could be filled. */
  function Filled(packets: seq<Packet>): seq<Packet> {
    if packets == [] then []
    else
      var init, last := packets[..|packets| - 1], packets[|packets| - 1];
      Filled(init) + if last.fills then [last] else []
  }

  lemma {:induction false} AllSubframesSnoc(ps: seq<Packet>, p: Packet, sender: Option<Mac>)
    requires AllWellFormed(ps) && WellFormed(p)
    ensures AllSubframes(ps + [p], sender) == AllSubframes(ps, sender) + [ToSubframe(p, sender)]
  {
    hide ToSubframe;
    if ps != [] {
      AllSubframesSnoc(ps[1..], p, sender);
      assert (ps + [p])[1..] == ps[1..] + [p];
    }
  }

  lemma {:induction false} SentSubframes(packets: seq<Packet>, sender: Option<Mac>)
    requires AllWellFormed(packets)
    ensures AllWellFormed(Filled(packets)) && AllSubframes(Filled(packets), sender) == Subframes(packets, sender)
  {
    if packets != [] {
      var init, last := packets[..|packets| - 1], packets[|packets| - 1];
      SentSubframes(init, sender);
      AllSubframesSnoc(Filled(init), last, sender);
      assert Filled(init) + [] == Filled(init);
    }
  }

  /**
   * From the transmit queue to the frames passed up by the driver at the other end: all packets that could
   * be filled arrive, in order, exactly when they are readable.
   */
  lemma QueueArrivesIff(packets: seq<Packet>, sender: Option<Mac>, tail: seq<byte>, tag: Tag)
    requires AllWellFormed(packets) && |tail| >= SLACK
    ensures AllWellFormed(Filled(packets))
    ensures var sent := Encode(Subframes(packets, sender));
            Deagg(sent + tail, |sent|, tag) == AllWanted(Filled(packets), sender, tag) <==> Readable(Filled(packets))
  {
    SentSubframes(packets, sender);
    DriverReadsIff(Filled(packets), sender, tail, tag);
  }

  /** The frames as they were queued. */
  function Buffers(ps: seq<Packet>): seq<seq<byte>> {
    seq(|ps|, i requires 0 <= i < |ps| => ps[i].buf)
  }

  lemma {:induction false} WantedAreSent(ps: seq<Packet>)
    requires AllWellFormed(ps) && forall p :: p in ps ==> !p.vlan
    ensures AllWanted(ps, None, []) == Buffers(ps)
  {
    if ps != [] {
      WantedAreSent(ps[1..]);
      var b := ps[0].buf;
      assert WellFormed(ps[0]);
      assert b == b[..6] + b[6..12] + [] + b[12..];
      assert Buffers(ps) == [b] + Buffers(ps[1..]);
    }
  }

  /** Between interfaces without VLAN tags, and without a repeater, the packets themselves arrive, byte for byte. */
  lemma PacketsArriveIff(packets: seq<Packet>, tail: seq<byte>)
    requires AllWellFormed(packets) && |tail| >= SLACK && forall p :: p in packets ==> !p.vlan
    ensures AllWellFormed(Filled(packets))
    ensures var sent := Encode(Subframes(packets, None));
            Deagg(sent + tail, |sent|, []) == Buffers(Filled(packets)) <==> Readable(Filled(packets))
  {
    QueueArrivesIff(packets, None, tail, []);
    FilledAreQueued(packets);
    WantedAreSent(Filled(packets));
  }

  lemma {:induction false} FilledAreQueued(packets: seq<Packet>)
    ensures forall p :: p in Filled(packets) <==> p in packets && p.fills
  {
    if packets != [] {
      var init, last := packets[..|packets| - 1], packets[|packets| - 1];
      FilledAreQueued(init);
      assert packets == init + [last];
    }
  }
}
