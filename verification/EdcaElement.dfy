/**
 * The WMM parameter element: the beacon of the access point carries the EDCA parameters of its
 * four access categories, and the association response parser of the AP client reads them back.
 */
module EdcaElement {
  import opened Common

  const IE_VENDOR_SPECIFIC: byte := 221
  const WME_PARM_ELEM: seq<byte> := [0x00, 0x50, 0xf2, 0x02, 0x01, 0x01]

  type ushort = n: int | 0 <= n < 0x10000

  datatype Ac = Ac(acm: bool, aifsn: byte, cwmin: byte, cwmax: byte, txop: ushort)

  datatype Parms = Parms(valid: bool, updateCount: byte, apsd: bool, acs: seq<Ac>)

  /** The four octets of access category `i`. */
  function Packed(i: nat, a: Ac): (r: seq<byte>)
    requires i < 4
    ensures |r| == 4
  {
    [i * 32 + (if a.acm then 16 else 0) + a.aifsn % 16, (a.cwmax * 16 + a.cwmin % 16) % 0x100,
     a.txop % 0x100, a.txop / 0x100]
  }

  function AciOf(b: byte): (i: nat)
    ensures i < 4
  {
    b / 32 % 4
  }

  function Unpacked(b0: byte, b1: byte, b2: byte, b3: byte): Ac {
    Ac(b0 / 16 % 2 == 1, b0 % 16, b1 % 16, b1 / 16, b2 + 0x100 * b3)
  }

  function PackedFrom(acs: seq<Ac>, i: nat): (r: seq<byte>)
    requires |acs| == 4 && i <= 4
    ensures |r| == 4 * (4 - i)
    decreases 4 - i
  {
    if i == 4 then [] else Packed(i, acs[i]) + PackedFrom(acs, i + 1)
  }

  /** Everything behind the element ID and the length. */
  function Octets(p: Parms): (r: seq<byte>)
    requires |p.acs| == 4
    ensures |r| == 24
  {
    WME_PARM_ELEM + [p.updateCount % 16 + (if p.apsd then 0x80 else 0), 0] + PackedFrom(p.acs, 0)
  }

  function Element(p: Parms): seq<byte>
    requires |p.acs| == 4
  {
    [IE_VENDOR_SPECIFIC, 24] + Octets(p)
  }

  function Head(p: Parms): seq<byte> {
    [IE_VENDOR_SPECIFIC, 24, 0x00, 0x50, 0xf2, 0x02, 0x01, 0x01, p.updateCount % 16 + (if p.apsd then 0x80 else 0), 0]
  }

  lemma ElementSplits(p: Parms)
    requires |p.acs| == 4
    ensures Element(p) == Head(p) + PackedFrom(p.acs, 0)
  {
  }

  lemma Assembled(bytes: seq<byte>, p: Parms)
    requires |bytes| == 26 && |p.acs| == 4 && bytes[..10] == Head(p)
    requires bytes[10..14] == Packed(0, p.acs[0]) && bytes[14..18] == Packed(1, p.acs[1])
    requires bytes[18..22] == Packed(2, p.acs[2]) && bytes[22..26] == Packed(3, p.acs[3])
    ensures bytes == Element(p)
  {
    Unrolled(p.acs);
    ElementSplits(p);
    SplitAt(bytes, 18, 22, 26);
    SplitAt(bytes, 14, 18, 26);
    SplitAt(bytes, 10, 14, 26);
    SplitAt(bytes, 0, 10, 26);
    hide *;
  }

  lemma Unrolled(acs: seq<Ac>)
    requires |acs| == 4
    ensures PackedFrom(acs, 0) == Packed(0, acs[0]) + (Packed(1, acs[1]) + (Packed(2, acs[2]) + Packed(3, acs[3])))
  {
    hide Packed;
    assert PackedFrom(acs, 4) == [] && PackedFrom(acs, 3) == Packed(3, acs[3]) + [];
    assert PackedFrom(acs, 2) == Packed(2, acs[2]) + PackedFrom(acs, 3);
    assert PackedFrom(acs, 1) == Packed(1, acs[1]) + PackedFrom(acs, 2);
  }

  lemma SplitAt(s: seq<byte>, i: nat, j: nat, k: nat)
    requires i <= j <= k <= |s|
    ensures s[i..k] == s[i..j] + s[j..k]
    ensures i == 0 && k == |s| ==> s == s[..j] + s[j..k]
  {
  }

  // ---------------------------------------------------------------- the parser

  function ReadAc(octet: seq<byte>, i: nat): Ac
    requires |octet| == 24 && i < 4
  {
    Unpacked(octet[8 + 4 * i], octet[9 + 4 * i], octet[10 + 4 * i], octet[11 + 4 * i])
  }

  /** Each entry is stored under the index it names. */
  function ReadAcs(acs: seq<Ac>, octet: seq<byte>, n: nat): (r: seq<Ac>)
    requires |acs| == 4 && |octet| == 24 && n <= 4
    ensures |r| == 4
  {
    if n == 0 then acs
    else ReadAcs(acs, octet, n - 1)[AciOf(octet[8 + 4 * (n - 1)]) := ReadAc(octet, n - 1)]
  }

  predicate IsWmm(eid: byte, octet: seq<byte>) {
    eid == IE_VENDOR_SPECIFIC && |octet| == 24 && octet[..6] == WME_PARM_ELEM
  }

  /** What one element does to the parameters read so far. */
  function Take(p: Parms, eid: byte, octet: seq<byte>): (r: Parms)
    requires |p.acs| == 4
    ensures |r.acs| == 4
  {
    if IsWmm(eid, octet) then Parms(true, octet[6] % 16, octet[6] / 0x80 == 1, ReadAcs(p.acs, octet, 4)) else p
  }

  /** Nothing here that the parser would read as an element. */
  predicate Ends(msg: seq<byte>) {
    |msg| < 2 || |msg| - 2 < msg[1]
  }

  function Parse(p: Parms, msg: seq<byte>): (r: Parms)
    requires |p.acs| == 4
    ensures |r.acs| == 4
    decreases |msg|
  {
    if Ends(msg) then p
    else
      var n: nat := msg[1];
      Parse(Take(p, msg[0], msg[2..2 + n]), msg[2 + n..])
  }

  /** The element at `at`, and the rest of the message behind it. */
  lemma ParseNext(p: Parms, msg: seq<byte>, at: nat)
    requires |p.acs| == 4 && at + 2 <= |msg| && at + 2 + msg[at + 1] <= |msg|
    ensures var next := at + 2 + msg[at + 1];
            Parse(p, msg[at..]) == Parse(Take(p, msg[at], msg[at + 2..next]), msg[next..])
  {
    var m := msg[at..];
    var n: nat := m[1];
    assert m[2..2 + n] == msg[at + 2..at + 2 + n] && m[2 + n..] == msg[at + 2 + n..];
    ParseFirst(p, m);
    hide *;
  }

  lemma ParseFirst(p: Parms, m: seq<byte>)
    requires |p.acs| == 4 && !Ends(m)
    ensures Parse(p, m) == Parse(Take(p, m[0], m[2..2 + m[1]]), m[2 + m[1]..])
  {
  }

  lemma ParseEnds(p: Parms, msg: seq<byte>, at: nat)
    requires |p.acs| == 4 && at <= |msg| && (at + 2 > |msg| || at + 2 + msg[at + 1] > |msg|)
    ensures Parse(p, msg[at..]) == p
  {
    hide Take;
  }

  // ---------------------------------------------------------------- in place

  class EdcaParm {
    var valid: bool
    var updateCount: byte
    var apsd: bool
    const acs: array<Ac>

    ghost function Contents(): Parms
      reads this, acs
    {
      Parms(valid, updateCount, apsd, acs[..])
    }

    constructor ()
      ensures acs.Length == 4 && !valid && fresh(acs)
    {
      valid, updateCount, apsd := false, 0, false;
      acs := new Ac[4](_ => Ac(false, 0, 0, 0, 0));
    }

    /** The WMM step of APUpdateBeaconFrame: fills the 26-byte element. */
    method Fill(ie: array<byte>)
      requires acs.Length == 4 && ie.Length == 26
      modifies ie
      ensures ie[..] == Element(Contents())
    {
      FillHead(ie);
      ghost var head := ie[..10];
      for i := 0 to 4
        invariant ie[..10] == head
        invariant forall j {:trigger acs[j]} :: 0 <= j < i ==> ie[10 + 4 * j..14 + 4 * j] == Packed(j, acs[j])
      {
        FillAc(ie, i);
      }
      ghost var bytes, p := ie[..], Contents();
      hide Element, Packed, Head;
      assert bytes[..10] == head;
      assert acs[0] == p.acs[0] && acs[1] == p.acs[1] && acs[2] == p.acs[2] && acs[3] == p.acs[3];
      assert bytes[10..14] == ie[10..14] && bytes[14..18] == ie[14..18];
      assert bytes[18..22] == ie[18..22] && bytes[22..26] == ie[22..26];
      Assembled(bytes, p);
    }

    method FillHead(ie: array<byte>)
      requires acs.Length == 4 && ie.Length == 26
      modifies ie
      ensures ie[..10] == Head(Contents())
    {
      ie[0], ie[1], ie[2], ie[3], ie[4] := IE_VENDOR_SPECIFIC, 24, 0x00, 0x50, 0xf2;
      ie[5], ie[6], ie[7], ie[8], ie[9] := 0x02, 0x01, 0x01, updateCount % 16, 0;
      if apsd {
        ie[8] := ie[8] + 0x80;
      }
    }

    method FillAc(ie: array<byte>, i: nat)
      requires acs.Length == 4 && ie.Length == 26 && i < 4
      modifies ie
      ensures ie[10 + 4 * i..14 + 4 * i] == Packed(i, acs[i])
      ensures forall k :: 0 <= k < 26 && !(10 + 4 * i <= k < 14 + 4 * i) ==> ie[k] == old(ie[k])
    {
      var a := acs[i];
      ie[10 + 4 * i] := i * 32 + (if a.acm then 16 else 0) + a.aifsn % 16;
      ie[11 + 4 * i] := (a.cwmax * 16 + a.cwmin % 16) % 0x100;
      ie[12 + 4 * i] := a.txop % 0x100;
      ie[13 + 4 * i] := a.txop / 0x100;
    }

    method TakeElement(eid: byte, octet: seq<byte>)
      requires acs.Length == 4
      modifies this, acs
      ensures Contents() == Take(old(Contents()), eid, octet)
    {
      if eid == IE_VENDOR_SPECIFIC && |octet| == 24 && octet[..6] == WME_PARM_ELEM {
        ghost var before := acs[..];
        valid := true;
        updateCount := octet[6] % 16;
        apsd := octet[6] / 0x80 == 1;
        for i := 0 to 4
          invariant acs[..] == ReadAcs(before, octet, i)
          invariant valid && updateCount == octet[6] % 16 && apsd == (octet[6] / 0x80 == 1)
        {
          var aci := AciOf(octet[8 + 4 * i]);
          acs[aci] := ReadAc(octet, i);
        }
      }
    }

    /** The element loop of ApCliPeerAssocRspSanity, from offset `length` of the message. */
    method ParseElements(msg: seq<byte>, start: nat)
      requires acs.Length == 4 && start <= |msg|
      modifies this, acs
      ensures Contents() == Parse(old(Contents()), msg[start..])
    {
      hide Parse, Take;
      var length := start;
      while length + 2 <= |msg| && length + 2 + msg[length + 1] as int <= |msg|
        invariant start <= length <= |msg|
        invariant Parse(Contents(), msg[length..]) == Parse(old(Contents()), msg[start..])
        decreases |msg| - length
      {
        var n: nat := msg[length + 1];
        ParseNext(Contents(), msg, length);
        TakeElement(msg[length], msg[length + 2..length + 2 + n]);
        length := length + 2 + n;
      }
      ParseEnds(Contents(), msg, length);
    }
  }

  // ---------------------------------------------------------------- round trip

  /** What the field widths leave of a parameter. */
  function Clipped(a: Ac): Ac {
    Ac(a.acm, a.aifsn % 16, a.cwmin % 16, a.cwmax % 16, a.txop)
  }

  function ClippedAll(acs: seq<Ac>): (r: seq<Ac>)
    requires |acs| == 4
    ensures |r| == 4
  {
    [Clipped(acs[0]), Clipped(acs[1]), Clipped(acs[2]), Clipped(acs[3])]
  }

  lemma UnpackPacked(i: nat, a: Ac)
    requires i < 4
    ensures var r := Packed(i, a); AciOf(r[0]) == i && Unpacked(r[0], r[1], r[2], r[3]) == Clipped(a)
  {
    HighNibble(a.cwmax, a.cwmin % 16);
  }

  lemma HighNibble(c: byte, low: nat)
    requires low < 16
    ensures (c * 16 + low) % 0x100 == c % 16 * 16 + low
    ensures (c % 16 * 16 + low) / 16 == c % 16 && (c % 16 * 16 + low) % 16 == low
  {
  }

  lemma {:induction false} PackedAt(acs: seq<Ac>, j: nat, i: nat)
    requires |acs| == 4 && j <= i < 4
    ensures PackedFrom(acs, j)[4 * (i - j)..4 * (i - j) + 4] == Packed(i, acs[i])
    decreases i - j
  {
    if j < i {
      PackedAt(acs, j + 1, i);
      var head, rest := Packed(j, acs[j]), PackedFrom(acs, j + 1);
      assert (head + rest)[4 * (i - j)..4 * (i - j) + 4] == rest[4 * (i - j - 1)..4 * (i - j - 1) + 4];
    }
  }

  lemma OctetsAt(p: Parms, i: nat)
    requires |p.acs| == 4 && i < 4
    ensures AciOf(Octets(p)[8 + 4 * i]) == i && ReadAc(Octets(p), i) == Clipped(p.acs[i])
  {
    PackedAt(p.acs, 0, i);
    UnpackPacked(i, p.acs[i]);
    var r, o := PackedFrom(p.acs, 0), Octets(p);
    assert o[8..] == r;
    hide Octets, PackedFrom, Packed;
    assert Packed(i, p.acs[i]) == o[8..][4 * i..4 * i + 4] == o[8 + 4 * i..12 + 4 * i];
    assert o[8 + 4 * i] == o[8 + 4 * i..12 + 4 * i][0] && o[9 + 4 * i] == o[8 + 4 * i..12 + 4 * i][1];
    assert o[10 + 4 * i] == o[8 + 4 * i..12 + 4 * i][2] && o[11 + 4 * i] == o[8 + 4 * i..12 + 4 * i][3];
  }

  /** Reading an element overwrites all parameters with the sender's, clipped to their fields. */
  lemma TakeOctets(p: Parms, prev: Parms)
    requires |p.acs| == 4 && |prev.acs| == 4
    ensures Take(prev, IE_VENDOR_SPECIFIC, Octets(p)) == Parms(true, p.updateCount % 16, p.apsd, ClippedAll(p.acs))
  {
    FirstOctets(p);
    ReadOctets(prev.acs, p, 4);
    AllOverlaid(prev.acs, p.acs);
    hide Octets, ReadAcs, ClippedAll, Overlaid;
  }

  lemma FirstOctets(p: Parms)
    requires |p.acs| == 4
    ensures Octets(p)[..6] == WME_PARM_ELEM && Octets(p)[6] == p.updateCount % 16 + (if p.apsd then 0x80 else 0)
  {
  }

  lemma AllOverlaid(prev: seq<Ac>, acs: seq<Ac>)
    requires |prev| == |acs| == 4
    ensures Overlaid(prev, acs, 4) == ClippedAll(acs)
  {
    var r, c := Overlaid(prev, acs, 4), ClippedAll(acs);
    assert c[0] == Clipped(acs[0]) && c[1] == Clipped(acs[1]) && c[2] == Clipped(acs[2]) && c[3] == Clipped(acs[3]);
    hide Clipped, ClippedAll, Overlaid;
    assert forall k :: 0 <= k < 4 ==> r[k] == c[k];
  }

  /** The first `n` categories overwritten. */
  function Overlaid(prev: seq<Ac>, acs: seq<Ac>, n: nat): (r: seq<Ac>)
    requires |prev| == |acs| == 4 && n <= 4
    ensures |r| == 4 && forall k :: 0 <= k < 4 ==> r[k] == if k < n then Clipped(acs[k]) else prev[k]
  {
    if n == 0 then prev else Overlaid(prev, acs, n - 1)[n - 1 := Clipped(acs[n - 1])]
  }

  lemma {:induction false} ReadOctets(prev: seq<Ac>, p: Parms, n: nat)
    requires |prev| == |p.acs| == 4 && n <= 4
    ensures ReadAcs(prev, Octets(p), n) == Overlaid(prev, p.acs, n)
  {
    if n > 0 {
      ReadOctets(prev, p, n - 1);
      OctetsAt(p, n - 1);
      hide Octets, AciOf, ReadAc, Clipped;
    }
  }

  datatype Ie = Ie(id: byte, body: seq<byte>)

  function IeBytes(ie: Ie): seq<byte>
    requires |ie.body| < 0x100
  {
    [ie.id, |ie.body|] + ie.body
  }

  function ListBytes(ies: seq<Ie>): seq<byte>
    requires forall ie :: ie in ies ==> |ie.body| < 0x100
  {
    if ies == [] then [] else IeBytes(ies[0]) + ListBytes(ies[1..])
  }

  lemma ParseFront(prev: Parms, ie: Ie, rest: seq<byte>)
    requires |prev.acs| == 4 && |ie.body| < 0x100
    ensures Parse(prev, IeBytes(ie) + rest) == Parse(Take(prev, ie.id, ie.body), rest)
  {
    var msg := IeBytes(ie) + rest;
    assert msg[0] == ie.id && msg[1] == |ie.body|;
    assert msg[2..2 + |ie.body|] == ie.body && msg[2 + |ie.body|..] == rest;
  }

  /** A list without a WMM element, and whatever no longer forms an element, changes nothing. */
  lemma {:induction false} ParseIgnores(prev: Parms, ies: seq<Ie>, tail: seq<byte>)
    requires |prev.acs| == 4 && Ends(tail)
    requires forall ie :: ie in ies ==> |ie.body| < 0x100 && !IsWmm(ie.id, ie.body)
    ensures Parse(prev, ListBytes(ies) + tail) == prev
    decreases |ies|
  {
    if ies == [] {
      assert [] + tail == tail;
    } else {
      ParseFront(prev, ies[0], ListBytes(ies[1..]) + tail);
      ParseIgnores(prev, ies[1..], tail);
      assert ListBytes(ies) + tail == IeBytes(ies[0]) + (ListBytes(ies[1..]) + tail);
    }
  }

  lemma ParseElement(prev: Parms, p: Parms, rest: seq<byte>)
    requires |prev.acs| == 4 && |p.acs| == 4
    ensures Parse(prev, Element(p) + rest) == Parse(Parms(true, p.updateCount % 16, p.apsd, ClippedAll(p.acs)), rest)
  {
    var ie := Ie(IE_VENDOR_SPECIFIC, Octets(p));
    assert IeBytes(ie) == Element(p);
    ParseFront(prev, ie, rest);
    TakeOctets(p, prev);
  }

  /** Wherever the element sits in a list of elements, the last of its kind, it is read back. */
  lemma {:induction false} RoundTrip(prev: Parms, before: seq<Ie>, p: Parms, after: seq<Ie>, tail: seq<byte>)
    requires |prev.acs| == 4 && |p.acs| == 4 && Ends(tail)
    requires forall ie :: ie in before ==> |ie.body| < 0x100
    requires forall ie :: ie in after ==> |ie.body| < 0x100 && !IsWmm(ie.id, ie.body)
    ensures Parse(prev, ListBytes(before) + (Element(p) + (ListBytes(after) + tail))) ==
            Parms(true, p.updateCount % 16, p.apsd, ClippedAll(p.acs))
    decreases |before|
  {
    hide Parse, Take, Element, IsWmm, ClippedAll, Ends;
    var rest := Element(p) + (ListBytes(after) + tail);
    if before == [] {
      assert [] + rest == rest;
      ParseElement(prev, p, ListBytes(after) + tail);
      ParseIgnores(Parms(true, p.updateCount % 16, p.apsd, ClippedAll(p.acs)), after, tail);
    } else {
      ParseFront(prev, before[0], ListBytes(before[1..]) + rest);
      RoundTrip(Take(prev, before[0].id, before[0].body), before[1..], p, after, tail);
      assert ListBytes(before) + rest == IeBytes(before[0]) + (ListBytes(before[1..]) + rest);
    }
  }

  predicate Fits(a: Ac) {
    a.aifsn < 16 && a.cwmin < 16 && a.cwmax < 16
  }

  predicate WithinWidths(p: Parms) {
    p.updateCount < 16 && forall k :: 0 <= k < |p.acs| ==> Fits(p.acs[k])
  }

  /** The receiver has the sender's parameters exactly when each fits its field. */
  lemma RoundTripIff(prev: Parms, before: seq<Ie>, p: Parms, after: seq<Ie>, tail: seq<byte>)
    requires |prev.acs| == 4 && |p.acs| == 4 && p.valid && Ends(tail)
    requires forall ie :: ie in before ==> |ie.body| < 0x100
    requires forall ie :: ie in after ==> |ie.body| < 0x100 && !IsWmm(ie.id, ie.body)
    ensures Parse(prev, ListBytes(before) + (Element(p) + (ListBytes(after) + tail))) == p <==> WithinWidths(p)
  {
    RoundTrip(prev, before, p, after, tail);
    ClippedResultIff(p, Parms(true, p.updateCount % 16, p.apsd, ClippedAll(p.acs)));
    hide *;
  }

  lemma ClippedResultIff(p: Parms, r: Parms)
    requires |p.acs| == 4 && p.valid && r == Parms(true, p.updateCount % 16, p.apsd, ClippedAll(p.acs))
    ensures r == p <==> WithinWidths(p)
  {
    var c := ClippedAll(p.acs);
    ClippedIff(p.acs[0]);
    ClippedIff(p.acs[1]);
    ClippedIff(p.acs[2]);
    ClippedIff(p.acs[3]);
    assert c[0] == Clipped(p.acs[0]) && c[1] == Clipped(p.acs[1]);
    assert c[2] == Clipped(p.acs[2]) && c[3] == Clipped(p.acs[3]);
    hide Clipped, ClippedAll, Fits;
    assert c == p.acs <==> c[0] == p.acs[0] && c[1] == p.acs[1] && c[2] == p.acs[2] && c[3] == p.acs[3];
    assert p.acs == [p.acs[0], p.acs[1], p.acs[2], p.acs[3]];
  }

  lemma ClippedIff(a: Ac)
    ensures Clipped(a) == a <==> Fits(a)
  {
  }

  /** Bit positions, as the WMM specification numbers them: the four octets of an access category. */
  lemma PackedBits(i: nat, a: Ac)
    requires i < 4
    ensures var r := Packed(i, a);
            && r[0] / 32 == i && (r[0] / 16 % 2 == 1 <==> a.acm) && r[0] % 16 == a.aifsn % 16
            && r[1] % 16 == a.cwmin % 16 && r[1] / 16 == a.cwmax % 16
            && r[2] == a.txop % 0x100 && r[3] == a.txop / 0x100
  {
    HighNibble(a.cwmax, a.cwmin % 16);
  }

  /** The octets of the whole element, and where those of category `i` stand. */
  lemma ElementLayout(p: Parms, i: nat)
    requires |p.acs| == 4 && i < 4
    ensures var e := Element(p);
            && |e| == 26 && e[..8] == [221, 24, 0x00, 0x50, 0xf2, 2, 1, 1]
            && e[8] % 16 == p.updateCount % 16 && (e[8] / 128 == 1 <==> p.apsd) && e[9] == 0
            && e[10 + 4 * i..14 + 4 * i] == Packed(i, p.acs[i])
  {
    PackedAt(p.acs, 0, i);
    ElementSplits(p);
    var e, r, head := Element(p), PackedFrom(p.acs, 0), Head(p);
    hide Element, PackedFrom, Packed;
    assert e[..8] == head[..8] && e[8] == head[8] && e[9] == head[9];
    assert e[10..] == r && e[10 + 4 * i..14 + 4 * i] == r[4 * i..4 * i + 4];
  }
}
