/**
 * The traffic indication map of a beacon (section 8.4.2.7 of IEEE 802.11-2012): a bitmap with one
 * bit per association ID, of which only a middle part is sent.
 */
module Tim {
  import opened Common

  const IE_TIM: byte := 5

  /** The longest virtual bitmap the standard allows. */
  const MAX_TIM := 251

  predicate Bit(b: nat, j: nat) {
    if j == 0 then b % 2 == 1 else Bit(b / 2, j - 1)
  }

  /** A byte of the map without the bit of AID 0, which stands for group traffic. */
  function Stations(tim: seq<byte>, k: nat): nat
    requires k < |tim|
  {
    if k == 0 then tim[0] - tim[0] % 2 else tim[k]
  }

  predicate Stored(tim: seq<byte>, aid: nat)
    requires aid < 8 * |tim|
  {
    Bit(tim[aid / 8], aid % 8)
  }

  datatype Span = Span(first: nat, last: nat)

  /** The scan over the first `n` bytes; `first` 0 also means that none was found. */
  function Scan(tim: seq<byte>, n: nat): (s: Span)
    requires n <= |tim|
    ensures s.first <= s.last && (n > 0 ==> s.last < n) && (n == 0 ==> s.last == 0)
  {
    if n == 0 then Span(0, 0)
    else
      var s := Scan(tim, n - 1);
      if Stations(tim, n - 1) == 0 then s
      else Span(if s.first == 0 then n - 1 else s.first, n - 1)
  }

  /** The part that is sent starts at an even offset. */
  function Sent(tim: seq<byte>): (s: Span)
    requires tim != []
    ensures s.first <= s.last < |tim| && s.first % 2 == 0
  {
    var s := Scan(tim, |tim|);
    Span(s.first - s.first % 2, s.last)
  }

  /** The offset is even, so setting bit 0 adds one. */
  function Control(tim: seq<byte>, dtimCount: byte): (c: nat)
    requires 0 < |tim| <= MAX_TIM
    ensures c < 0x100
  {
    Sent(tim).first + if dtimCount == 0 then tim[0] % 2 else 0
  }

  /** The five bytes in front of a map part of `n` bytes. */
  function Header(n: nat, dtimCount: byte, dtimPeriod: byte, control: byte): (h: seq<byte>)
    requires n <= MAX_TIM
    ensures |h| == 5
  {
    [IE_TIM, 3 + n, dtimCount, dtimPeriod, control]
  }

  function Element(tim: seq<byte>, dtimCount: byte, dtimPeriod: byte): seq<byte>
    requires 0 < |tim| <= MAX_TIM
  {
    var s := Sent(tim);
    Header(s.last - s.first + 1, dtimCount, dtimPeriod, Control(tim, dtimCount)) + tim[s.first..s.last + 1]
  }

  // ---------------------------------------------------------------- in the beacon buffer

  method FindSpan(tim: seq<byte>) returns (timFirst: nat, timLast: nat)
    ensures Scan(tim, |tim|) == Span(timFirst, timLast)
  {
    timFirst, timLast := 0, 0;
    for id := 0 to |tim|
      invariant Scan(tim, id) == Span(timFirst, timLast)
    {
      var tim1B: nat := tim[id];
      if id == 0 {
        tim1B := tim1B - tim1B % 2;
      }
      if tim1B == 0 {
        continue;
      }
      if timFirst == 0 {
        timFirst := id;
      }
      timLast := id;
    }
  }

  /** `b` is `a` with `part` written over the bytes from `at`. */
  ghost predicate Overwritten(a: seq<byte>, b: seq<byte>, at: nat, part: seq<byte>) {
    && |a| == |b| && at + |part| <= |a|
    && b == a[..at] + part + a[at + |part|..]
  }

  lemma OverwriteTwice(a: seq<byte>, b: seq<byte>, c: seq<byte>, at: nat, head: seq<byte>, tail: seq<byte>)
    requires Overwritten(a, b, at, head) && Overwritten(b, c, at + |head|, tail)
    ensures Overwritten(a, c, at, head + tail)
  {
    assert b[..at + |head|] == a[..at] + head;
    assert b[at + |head| + |tail|..] == a[at + |head| + |tail|..];
  }

  method WriteHeader(beacon: array<byte>, at: nat, n: nat, count: byte, period: byte, control: byte)
    requires at + 5 <= beacon.Length && n <= MAX_TIM
    modifies beacon
    ensures Overwritten(old(beacon[..]), beacon[..], at, Header(n, count, period, control))
  {
    beacon[at], beacon[at + 1], beacon[at + 2], beacon[at + 3] := IE_TIM, 3 + n, count, period;
    beacon[at + 4] := control;
  }

  /** Copies the part of the map that is sent. */
  method CopyMap(beacon: array<byte>, at: nat, tim: seq<byte>, first: nat, last: nat)
    requires first <= last < |tim| && at + (last - first) + 1 <= beacon.Length
    modifies beacon
    ensures Overwritten(old(beacon[..]), beacon[..], at, tim[first..last + 1])
  {
    for i := first to last + 1
      invariant forall k :: 0 <= k < beacon.Length ==>
                  beacon[k] == if at <= k < at + (i - first) then tim[k - at + first] else old(beacon[k])
    {
      beacon[at + i - first] := tim[i];
    }
  }

  /** The part to send, from an even offset, and the control byte. */
  method Bounds(tim: seq<byte>, dtimCount: byte) returns (first: nat, last: nat, control: byte)
    requires 0 < |tim| <= MAX_TIM
    ensures first <= last < |tim| && Sent(tim) == Span(first, last) && control == Control(tim, dtimCount)
  {
    first, last := FindSpan(tim);
    if first % 2 == 1 {
      first := first - 1;
    }
    control := first;
    if dtimCount == 0 {
      control := control + tim[0] % 2;
    }
  }

  /** Writes the element at `at` and returns its length. */
  method UpdateTim(beacon: array<byte>, at: nat, tim: seq<byte>, dtimCount: byte, dtimPeriod: byte) returns (len: nat)
    requires 0 < |tim| <= MAX_TIM && at + 5 + |tim| <= beacon.Length
    modifies beacon
    ensures len == |Element(tim, dtimCount, dtimPeriod)|
    ensures Overwritten(old(beacon[..]), beacon[..], at, Element(tim, dtimCount, dtimPeriod))
  {
    hide *;
    ghost var before := beacon[..];
    var timFirst, timLast, control := Bounds(tim, dtimCount);
    len := 5 + (timLast - timFirst + 1);
    WriteHeader(beacon, at, timLast - timFirst + 1, dtimCount, dtimPeriod, control);
    ghost var headed := beacon[..];
    CopyMap(beacon, at + 5, tim, timFirst, timLast);
    ghost var after := beacon[..];
    ghost var head, part := Header(timLast - timFirst + 1, dtimCount, dtimPeriod, control), tim[timFirst..timLast + 1];
    OverwriteTwice(before, headed, after, at, head, part);
    assert Element(tim, dtimCount, dtimPeriod) == head + part by { ElementIs(tim, dtimCount, dtimPeriod); }
  }

  lemma ElementIs(tim: seq<byte>, dtimCount: byte, dtimPeriod: byte)
    requires 0 < |tim| <= MAX_TIM
    ensures var s := Sent(tim);
            Element(tim, dtimCount, dtimPeriod) ==
            Header(s.last - s.first + 1, dtimCount, dtimPeriod, Control(tim, dtimCount)) + tim[s.first..s.last + 1]
  {
  }

  // ---------------------------------------------------------------- the station's side

  datatype Decoded = Decoded(count: nat, period: nat, group: bool, offset: nat, bitmap: seq<byte>)

  /** The element taken apart as the standard says. */
  function Decode(e: seq<byte>): Option<Decoded> {
    if |e| < 6 || e[0] != IE_TIM || e[1] < 4 || |e| - 2 != e[1] then None
    else Some(Decoded(e[2], e[3], e[4] % 2 == 1, e[4] - e[4] % 2, e[5..]))
  }

  /** Whether traffic is announced for `aid`. */
  predicate Announced(d: Decoded, aid: nat) {
    var k := aid / 8 - d.offset;
    0 <= k < |d.bitmap| && Bit(d.bitmap[k], aid % 8)
  }

  lemma DecodeElement(tim: seq<byte>, dtimCount: byte, dtimPeriod: byte)
    requires 0 < |tim| <= MAX_TIM
    ensures var s := Sent(tim);
            Decode(Element(tim, dtimCount, dtimPeriod)) ==
            Some(Decoded(dtimCount, dtimPeriod, dtimCount == 0 && tim[0] % 2 == 1, s.first, tim[s.first..s.last + 1]))
  {
    var e, s := Element(tim, dtimCount, dtimPeriod), Sent(tim);
    assert e[4] == Control(tim, dtimCount);
    assert e[5..] == tim[s.first..s.last + 1];
  }

  lemma {:induction false} ScanBounds(tim: seq<byte>, n: nat, k: nat)
    requires k < n <= |tim| && Stations(tim, k) != 0
    ensures var s := Scan(tim, n);
            k <= s.last && (k > 0 ==> 0 < s.first <= k) && (s.first == 0 ==> k == 0)
  {
    if k < n - 1 {
      ScanBounds(tim, n - 1, k);
    }
  }

  /** If `first` is not 0 it is the lowest byte other than byte 0 with a station bit. */
  lemma {:induction false} ScanFirst(tim: seq<byte>, n: nat)
    requires n <= |tim|
    ensures var s := Scan(tim, n);
            && (s.first > 0 ==> s.first < n && Stations(tim, s.first) != 0)
            && (forall k :: 1 <= k < n && (s.first == 0 || k < s.first) ==> Stations(tim, k) == 0)
  {
    if n > 0 {
      ScanFirst(tim, n - 1);
    }
  }

  lemma {:induction false} ScanLast(tim: seq<byte>, n: nat)
    requires n <= |tim|
    ensures Scan(tim, n).last > 0 ==> tim[Scan(tim, n).last] != 0
  {
    if n > 0 { ScanLast(tim, n - 1); }
  }

  /**
   * No shorter part would do: it ends with a byte in use, or is one byte, and unless it starts with byte 0
   * one of its first two bytes is in use.
   */
  lemma SentIsShortest(tim: seq<byte>)
    requires tim != []
    ensures var s := Sent(tim);
            && (s.last > s.first ==> tim[s.last] != 0)
            && (s.first > 0 ==> tim[s.first] != 0 || (s.first < s.last && tim[s.first + 1] != 0))
  {
    ScanLast(tim, |tim|);
    ScanFirst(tim, |tim|);
    var s := Scan(tim, |tim|);
    if s.first > 0 { ScanBounds(tim, |tim|, s.first); }
  }

  function PowerOf2(n: nat): nat {
    if n == 0 then 1 else 2 * PowerOf2(n - 1)
  }

  lemma {:induction false} SomeBit(b: nat, n: nat) returns (j: nat)
    requires 0 < b < PowerOf2(n)
    ensures j < n && Bit(b, j)
  {
    if b % 2 == 1 {
      j := 0;
    } else {
      j := SomeBit(b / 2, n - 1);
      j := j + 1;
    }
  }

  lemma {:induction false} NoBit(j: nat)
    ensures !Bit(0, j)
  {
    if j > 0 { NoBit(j - 1); }
  }

  lemma StationBit(b: byte) returns (j: nat)
    requires b >= 2
    ensures 1 <= j < 8 && Bit(b, j)
  {
    assert PowerOf2(7) == 128;
    j := SomeBit(b / 2, 7);
    j := j + 1;
  }

  lemma BitNeeds(b: byte, j: nat)
    ensures Bit(b, j) ==> b >= (if j == 0 then 1 else 2)
  {
    if b == 0 { NoBit(j); }
    if b == 1 && j > 0 { NoBit(j - 1); }
  }

  lemma StoredIsUsed(tim: seq<byte>, aid: nat)
    requires 1 <= aid < 8 * |tim| && Stored(tim, aid)
    ensures Stations(tim, aid / 8) != 0
  {
    BitNeeds(tim[aid / 8], aid % 8);
  }

  function Received(tim: seq<byte>, dtimCount: byte, dtimPeriod: byte): Decoded
    requires 0 < |tim| <= MAX_TIM
  {
    DecodeElement(tim, dtimCount, dtimPeriod);
    Decode(Element(tim, dtimCount, dtimPeriod)).value
  }

  /** Byte 0 is not sent although it has a station bit: the lowest other byte in use is 2 or higher. */
  predicate DropsFirstByte(tim: seq<byte>)
    requires tim != []
  {
    tim[0] >= 2 && (|tim| > 1 ==> tim[1] == 0) && exists k :: 2 <= k < |tim| && tim[k] != 0
  }

  lemma SentFromIff(tim: seq<byte>)
    requires tim != []
    ensures tim[0] >= 2 ==> (Sent(tim).first > 0 <==> DropsFirstByte(tim))
  {
    ScanFirst(tim, |tim|);
    if k :| 2 <= k < |tim| && tim[k] != 0 {
      ScanBounds(tim, |tim|, k);
    }
    if |tim| > 1 && tim[1] != 0 {
      ScanBounds(tim, |tim|, 1);
    }
  }

  /** What is announced for an association ID: its bit, unless its byte is not sent. */
  lemma AnnouncedIs(tim: seq<byte>, dtimCount: byte, dtimPeriod: byte, aid: nat)
    requires 0 < |tim| <= MAX_TIM && 1 <= aid < 8 * |tim|
    ensures Announced(Received(tim, dtimCount, dtimPeriod), aid) <==>
            Stored(tim, aid) && !(aid < 8 && DropsFirstByte(tim))
  {
    var s, k := Sent(tim), aid / 8;
    DecodeElement(tim, dtimCount, dtimPeriod);
    if Stored(tim, aid) {
      StoredIsUsed(tim, aid);
      ScanBounds(tim, |tim|, k);
      if k == 0 { SentFromIff(tim); }
    }
  }

  /** All bits arrive exactly when byte 0 is not dropped; from AID 8 on they always do. */
  lemma MapArrivesIff(tim: seq<byte>, dtimCount: byte, dtimPeriod: byte)
    requires 0 < |tim| <= MAX_TIM
    ensures (forall aid :: 1 <= aid < 8 * |tim| ==>
               (Announced(Received(tim, dtimCount, dtimPeriod), aid) <==> Stored(tim, aid)))
            <==> !DropsFirstByte(tim)
    ensures forall aid :: 8 <= aid < 8 * |tim| ==>
              (Announced(Received(tim, dtimCount, dtimPeriod), aid) <==> Stored(tim, aid))
  {
    forall aid | 1 <= aid < 8 * |tim|
      ensures Announced(Received(tim, dtimCount, dtimPeriod), aid) <==>
              Stored(tim, aid) && !(aid < 8 && DropsFirstByte(tim))
    {
      AnnouncedIs(tim, dtimCount, dtimPeriod, aid);
    }
    if DropsFirstByte(tim) {
      var j := StationBit(tim[0]);
      assert Stored(tim, j);
    }
  }

  /** The group bit is sent only in a DTIM beacon, and then as stored. */
  lemma GroupBit(tim: seq<byte>, dtimCount: byte, dtimPeriod: byte)
    requires 0 < |tim| <= MAX_TIM
    ensures Received(tim, dtimCount, dtimPeriod).group <==> dtimCount == 0 && Stored(tim, 0)
    ensures Received(tim, dtimCount, dtimPeriod).offset % 2 == 0
  {
    DecodeElement(tim, dtimCount, dtimPeriod);
  }
}
