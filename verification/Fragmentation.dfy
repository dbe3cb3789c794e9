/**
 * Transmit fragmentation (section 9.5 of IEEE 802.11-2012): the loop that cuts one frame into
 * MPDUs, and the estimate of their number that an earlier stage reserves descriptors for.
 */
module Fragmentation {
  import opened Arithmetic
  import opened Common

  const LENGTH_802_3 := 14
  const LENGTH_802_1Q := 4
  const LENGTH_802_1_H := 8
  const LENGTH_802_11 := 24
  const LENGTH_CRC := 4
  const UINT32 := 0x1_0000_0000

  datatype FragId = No | First | Middle | Last

  /** One transmitted MPDU; `num` is the 4-bit fragment number of the sequence control field. */
  datatype Fragment = Fragment(num: nat, more: bool, id: FragId, headerLen: nat, payload: seq<byte>)

  /** A 32-bit unsigned difference. */
  function Minus32(a: nat, b: nat): nat {
    if a >= b then a - b else if UINT32 + a >= b then UINT32 + a - b else 0
  }

  /** FreeMpduSize: a header that is too long for the threshold wraps to a huge room. */
  function Free(threshold: nat, headerLen: nat): nat {
    Minus32(threshold, LENGTH_CRC + headerLen)
  }

  /** A counter of `size` values, incremented `k` times from 0. */
  function Counter(size: nat, k: nat): (n: nat)
    ensures size > 0 ==> n < size
  {
    if k == 0 then 0 else Succ(size, Counter(size, k - 1))
  }

  function Succ(size: nat, n: nat): nat {
    if n + 1 == size then 0 else n + 1
  }

  /** The 8-bit header length less the LLC/SNAP octets. */
  function Shrunk(headerLen: nat): nat {
    if headerLen >= LENGTH_802_1_H then headerLen - LENGTH_802_1_H else 0x100 + headerLen - LENGTH_802_1_H
  }

  lemma {:induction false} CounterIsMod(size: nat, k: nat)
    requires size > 0
    ensures Counter(size, k) == k % size
  {
    if k > 0 {
      CounterIsMod(size, k - 1);
      ModSucc(size, k - 1);
    }
  }

  lemma ModSucc(size: nat, n: nat)
    requires size > 0
    ensures (n + 1) % size == Succ(size, n % size)
  {
    var q, r := n / size, n % size;
    assert n == q * size + r;
    if r + 1 == size {
      assert n + 1 == (q + 1) * size;
      ModUnique(size, q + 1, 0);
    } else {
      ModUnique(size, q, r + 1);
    }
  }

  /**
   * The 8-bit header length of fragment `k`. With encapsulation the eight LLC/SNAP octets are
   * taken off after fragment 0; the 8-bit fragment counter makes that happen after every 256th.
   */
  function HeaderAt(headerLen: nat, encap: bool, k: nat): nat {
    if k == 0 then headerLen
    else
      var before := HeaderAt(headerLen, encap, k - 1);
      if encap && Counter(0x100, k - 1) == 0 then Shrunk(before) else before
  }

  function Payloads(frags: seq<Fragment>): seq<byte> {
    if frags == [] then [] else Payloads(frags[..|frags| - 1]) + frags[|frags| - 1].payload
  }

  /** What a finished fragmentation of `payload` is. */
  ghost predicate IsFragmentation(frags: seq<Fragment>, payload: seq<byte>, headerLen: nat, encap: bool, threshold: nat)
  {
    && |frags| > 0
    && Payloads(frags) == payload
    && Pieces(frags, headerLen, encap, threshold)
    && (forall k :: 0 <= k < |frags| ==> frags[k].more == (k < |frags| - 1))
    && (forall k :: 0 <= k < |frags| - 1 ==> |frags[k].payload| == Free(threshold, HeaderAt(headerLen, encap, k)))
    && var last := |frags| - 1;
       |frags[last].payload| <= Free(threshold, HeaderAt(headerLen, encap, last)) &&
       (last > 0 ==> |frags[last].payload| > 0)
  }

  ghost predicate Pieces(frags: seq<Fragment>, headerLen: nat, encap: bool, threshold: nat)
  {
    forall k {:trigger frags[k]} :: 0 <= k < |frags| ==>
      && frags[k].num == Counter(16, k)
      && frags[k].headerLen == HeaderAt(headerLen, encap, k)
      && frags[k].id == IdAt(Counter(0x100, k), frags[k].more)
  }

  /** By the 8-bit fragment counter. */
  function IdAt(k: nat, more: bool): FragId {
    if more then (if k == 0 then First else Middle) else (if k == 0 then No else Last)
  }

  /** The one configuration in which a turn of the loop changes nothing. */
  predicate Stuck(length: nat, headerLen: nat, encap: bool, threshold: nat) {
    !encap && threshold == headerLen + LENGTH_CRC && length > 0
  }

  lemma PushPiece(frags: seq<Fragment>, f: Fragment, headerLen: nat, encap: bool, threshold: nat)
    requires Pieces(frags, headerLen, encap, threshold) && AllFull(frags, headerLen, encap, threshold)
    requires f.num == Counter(16, |frags|) && f.headerLen == HeaderAt(headerLen, encap, |frags|)
    requires f.id == IdAt(Counter(0x100, |frags|), f.more)
    ensures Pieces(frags + [f], headerLen, encap, threshold)
    ensures Payloads(frags + [f]) == Payloads(frags) + f.payload
    ensures f.more && |f.payload| == Free(threshold, f.headerLen) ==>
              AllFull(frags + [f], headerLen, encap, threshold)
    ensures !f.more && |f.payload| <= Free(threshold, f.headerLen) && (|frags| > 0 ==> |f.payload| > 0) ==>
              IsFragmentation(frags + [f], Payloads(frags) + f.payload, headerLen, encap, threshold)
  {
    assert (frags + [f])[..|frags|] == frags;
  }

  lemma TakeMore(s: seq<byte>, a: nat, b: nat)
    requires a <= b <= |s|
    ensures s[..b] == s[..a] + s[a..b]
    ensures b == |s| ==> s[..b] == s
  {
  }

  /** A turn that leaves bytes behind either sent some or brought the next header shrink closer. */
  lemma Progress(remaining: nat, headerLen: nat, encap: bool, threshold: nat, fragNum: nat)
    requires headerLen < 0x100 && threshold < 0x10000 && fragNum < 0x100
    requires !encap && remaining > 0 ==> Free(threshold, headerLen) > 0
    ensures var room := Free(threshold, headerLen);
            var header' := if fragNum == 0 && encap then Shrunk(headerLen) else headerLen;
            remaining > room ==>
              room > 0 || Delay(Free(threshold, header'), Succ(0x100, fragNum)) < Delay(room, fragNum)
  {
  }

  /** What holds while bytes remain: full fragments of the first `sent` bytes. */
  ghost predicate Cutting(frags: seq<Fragment>, payload: seq<byte>, sent: nat, headerLen: nat, encap: bool,
                          threshold: nat)
  {
    && sent <= |payload| && Payloads(frags) == payload[..sent]
    && Pieces(frags, headerLen, encap, threshold) && AllFull(frags, headerLen, encap, threshold)
    && (sent < |payload| || |frags| == 0)
  }

  lemma CutMore(frags: seq<Fragment>, f: Fragment, payload: seq<byte>, sent: nat, headerLen: nat, encap: bool,
                threshold: nat)
    requires Cutting(frags, payload, sent, headerLen, encap, threshold)
    requires var room, remaining, k := Free(threshold, HeaderAt(headerLen, encap, |frags|)), |payload| - sent, |frags|;
             f == Fragment(Counter(16, k), remaining > room, IdAt(Counter(0x100, k), remaining > room),
                           HeaderAt(headerLen, encap, k),
                           payload[sent..sent + if remaining <= room then remaining else room])
    ensures |payload| - sent > Free(threshold, f.headerLen) ==>
              Cutting(frags + [f], payload, sent + Free(threshold, f.headerLen), headerLen, encap, threshold)
    ensures |payload| - sent <= Free(threshold, f.headerLen) ==>
              IsFragmentation(frags + [f], payload, headerLen, encap, threshold)
    ensures HeaderAt(headerLen, encap, |frags| + 1) ==
            if encap && Counter(0x100, |frags|) == 0 then Shrunk(f.headerLen) else f.headerLen
  {
    hide Pieces, AllFull, IsFragmentation, Payloads, Free;
    PushPiece(frags, f, headerLen, encap, threshold);
    TakeMore(payload, sent, sent + |f.payload|);
  }

  // ---------------------------------------------------------------- the loop

  class TxBlk {
    var mpduHeaderLen: nat
    var srcBufLen: nat
    var srcBufData: nat
    var totalFragNum: nat
    const payload: seq<byte>

    constructor (payload: seq<byte>, mpduHeaderLen: nat)
      ensures this.payload == payload && this.mpduHeaderLen == mpduHeaderLen
      ensures srcBufLen == |payload| && srcBufData == 0
    {
      this.payload := payload;
      this.mpduHeaderLen := mpduHeaderLen;
      srcBufLen, srcBufData, totalFragNum := |payload|, 0, 0xff;
    }

    /** One turn: size the fragment, hand it out, advance; the header may shrink behind it. */
    method Turn(encap: bool, threshold: nat, remaining: nat, fragNum: nat, frag: nat) returns (f: Fragment)
      requires srcBufData + remaining == |payload| && mpduHeaderLen < 0x100 && fragNum < 0x100
      modifies this
      ensures var room := Free(threshold, old(mpduHeaderLen));
              && srcBufLen == (if remaining <= room then remaining else room)
              && f == Fragment(frag, remaining > room, IdAt(fragNum, remaining > room), old(mpduHeaderLen),
                               payload[old(srcBufData)..old(srcBufData) + srcBufLen])
              && totalFragNum == (if remaining <= room then fragNum else old(totalFragNum))
      ensures mpduHeaderLen ==
              if fragNum == 0 && encap then Shrunk(old(mpduHeaderLen)) else old(mpduHeaderLen)
      ensures srcBufData == old(srcBufData) + srcBufLen
    {
      var freeMpduSize := Free(threshold, mpduHeaderLen);
      var more, id := false, No;
      if remaining <= freeMpduSize {
        srcBufLen := remaining;
        totalFragNum := fragNum;
        id := if fragNum == 0 then No else Last;
      } else {
        srcBufLen := freeMpduSize;
        more := true;
        id := if fragNum == 0 then First else Middle;
      }
      f := Fragment(frag, more, id, mpduHeaderLen, payload[srcBufData..srcBufData + srcBufLen]);
      if fragNum == 0 && encap {
        mpduHeaderLen := Shrunk(mpduHeaderLen);
      }
      srcBufData := srcBufData + srcBufLen;
    }

    /** The state between two turns, `remaining` bytes of the payload still to be sent. */
    ghost predicate Between(frags: seq<Fragment>, remaining: nat, header: nat, encap: bool, threshold: nat)
      reads this
    {
      && srcBufData + remaining == |payload|
      && mpduHeaderLen == HeaderAt(header, encap, |frags|) && mpduHeaderLen < 0x100
      && (!encap && remaining > 0 ==> Free(threshold, mpduHeaderLen) > 0)
    }

    /** One turn together with its counters; it finishes, sends something, or brings a shrink closer. */
    method Round(frags: seq<Fragment>, encap: bool, threshold: nat, ghost header: nat, remaining: nat, fragNum: nat,
                 frag: nat)
      returns (frags': seq<Fragment>, remaining': nat, fragNum': nat, frag': nat)
      requires Between(frags, remaining, header, encap, threshold) && threshold < 0x10000
      requires Cutting(frags, payload, srcBufData, header, encap, threshold)
      requires fragNum == Counter(0x100, |frags|) && frag == Counter(16, |frags|)
      modifies this
      ensures Between(frags', remaining', header, encap, threshold)
      ensures fragNum' == Counter(0x100, |frags'|) && frag' == Counter(16, |frags'|)
      ensures remaining' > 0 ==> Cutting(frags', payload, srcBufData, header, encap, threshold)
      ensures remaining' == 0 ==>
                IsFragmentation(frags', payload, header, encap, threshold) &&
                totalFragNum == Counter(0x100, |frags'| - 1)
      ensures remaining' > 0 ==>
                remaining' < remaining ||
                (remaining' == remaining && Delay(Free(threshold, mpduHeaderLen), fragNum') <
                                            Delay(Free(threshold, old(mpduHeaderLen)), fragNum))
    {
      hide IsFragmentation, Cutting, Free, Delay;
      Progress(remaining, mpduHeaderLen, encap, threshold, fragNum);
      var f := Turn(encap, threshold, remaining, fragNum, frag);
      CutMore(frags, f, payload, old(srcBufData), header, encap, threshold);
      frags' := frags + [f];
      remaining' := remaining - srcBufLen;
      fragNum' := Succ(0x100, fragNum);
      frag' := Succ(16, frag);
    }

    /** The loop of AP_Fragment_Frame_Tx; the result is what is handed to the hardware. */
    method Cut(encap: bool, threshold: nat) returns (frags: seq<Fragment>)
      requires srcBufLen == |payload| < UINT32 && srcBufData == 0
      requires mpduHeaderLen < 0x100 && threshold < 0x10000
      requires !Stuck(|payload|, mpduHeaderLen, encap, threshold)
      modifies this
      ensures IsFragmentation(frags, payload, old(mpduHeaderLen), encap, threshold)
      ensures srcBufData == |payload| && totalFragNum == Counter(0x100, |frags| - 1)
    {
      ghost var header := mpduHeaderLen;
      var remaining := srcBufLen;
      totalFragNum := 0xff;
      frags := [];
      var fragNum, frag := 0, 0;
      var again := true;
      while again
        invariant remaining >= 0 && Between(frags, remaining, header, encap, threshold)
        invariant fragNum == Counter(0x100, |frags|) && frag == Counter(16, |frags|)
        invariant again ==> Cutting(frags, payload, srcBufData, header, encap, threshold)
        invariant !again ==> IsFragmentation(frags, payload, header, encap, threshold)
        invariant !again ==> remaining == 0 && totalFragNum == Counter(0x100, |frags| - 1)
        decreases again, remaining, Delay(Free(threshold, mpduHeaderLen), fragNum)
      {
        frags, remaining, fragNum, frag := Round(frags, encap, threshold, header, remaining, fragNum, frag);
        again := remaining > 0;
      }
    }
  }

  ghost predicate AllFull(frags: seq<Fragment>, headerLen: nat, encap: bool, threshold: nat) {
    forall k {:trigger frags[k]} :: 0 <= k < |frags| ==>
      frags[k].more && |frags[k].payload| == Free(threshold, HeaderAt(headerLen, encap, k))
  }

  /** With no room at all, the turns that pass until the header shrinks again. */
  function Delay(room: nat, fragNum: nat): nat {
    if room > 0 then 0 else if fragNum == 0 then 1 else if fragNum < 0x100 then 0x101 - fragNum else 0
  }

  // ---------------------------------------------------------------- when the loop is stuck

  datatype Turning = Turning(remaining: nat, headerLen: nat, fragNum: nat)

  /** What one turn of the loop does to the quantities its guard depends on. */
  function Next(t: Turning, encap: bool, threshold: nat): Turning {
    var room := Free(threshold, t.headerLen);
    Turning(if t.remaining <= room then 0 else t.remaining - room,
            if t.fragNum == 0 && encap then Shrunk(t.headerLen) else t.headerLen,
            Succ(0x100, t.fragNum))
  }

  function Turns(t: Turning, encap: bool, threshold: nat, n: nat): Turning {
    if n == 0 then t else Next(Turns(t, encap, threshold, n - 1), encap, threshold)
  }

  /** A stuck configuration never makes progress: after any number of turns all bytes remain. */
  lemma {:induction false} StuckForever(length: nat, headerLen: nat, threshold: nat, n: nat)
    requires Stuck(length, headerLen, false, threshold)
    ensures var t := Turns(Turning(length, headerLen, 0), false, threshold, n);
            t.remaining == length && t.headerLen == headerLen
  {
    if n > 0 {
      StuckForever(length, headerLen, threshold, n - 1);
    }
  }

  // ---------------------------------------------------------------- what the receiver sees

  /** Defragmentation: fragment numbers 0, 1, 2, ... and a clear more-fragments bit only at the end. */
  function Reassemble(frags: seq<Fragment>): Option<seq<byte>> {
    if frags == [] || frags[|frags| - 1].more then None
    else if exists k :: 0 <= k < |frags| && (frags[k].num != k || frags[k].more != (k < |frags| - 1)) then None
    else Some(Payloads(frags))
  }

  /**
   * A frame sent whole says so; of several fragments the first and the last are marked as such and all
   * others as middle ones, except that every 256th is marked like a first one, and the last like a whole one.
   */
  lemma IdsTell(frags: seq<Fragment>, payload: seq<byte>, headerLen: nat, encap: bool, threshold: nat, k: nat)
    requires IsFragmentation(frags, payload, headerLen, encap, threshold) && k < |frags|
    ensures frags[k].num == k % 16
    ensures frags[k].id == if k % 0x100 == 0 then (if k < |frags| - 1 then First else No)
                           else if k < |frags| - 1 then Middle else Last
  {
    CounterIsMod(16, k);
    CounterIsMod(0x100, k);
    hide Counter;
  }

  /** The receiver recovers the payload exactly when the 4-bit fragment numbers do not wrap. */
  lemma ReassembledIff(frags: seq<Fragment>, payload: seq<byte>, headerLen: nat, encap: bool, threshold: nat)
    requires IsFragmentation(frags, payload, headerLen, encap, threshold)
    ensures Reassemble(frags) == Some(payload) <==> |frags| <= 16
  {
    forall k | 0 <= k < 16 ensures Counter(16, k) == k { CounterIsMod(16, k); }
    if |frags| > 16 {
      CounterIsMod(16, 16);
      assert frags[16].num == 0;
    }
  }

  /** The MPDU fits the threshold exactly when its header alone leaves room below the checksum. */
  lemma FragmentFitsIff(frags: seq<Fragment>, payload: seq<byte>, headerLen: nat, encap: bool, threshold: nat, k: nat)
    requires IsFragmentation(frags, payload, headerLen, encap, threshold)
    requires headerLen < 0x100 && threshold < 0x10000 && k < |frags|
    ensures frags[k].headerLen + |frags[k].payload| <= threshold - LENGTH_CRC <==>
            HeaderAt(headerLen, encap, k) <= threshold - LENGTH_CRC
  {
    assert frags[k].headerLen == HeaderAt(headerLen, encap, k);
    HeaderSmall(headerLen, encap, k);
  }

  lemma {:induction false} HeaderSmall(headerLen: nat, encap: bool, k: nat)
    requires headerLen < 0x100
    ensures HeaderAt(headerLen, encap, k) < 0x100
    ensures k == 0 || !encap ==> HeaderAt(headerLen, encap, k) == headerLen
    ensures encap && 1 <= k <= 0x100 && headerLen >= LENGTH_802_1_H ==>
              HeaderAt(headerLen, encap, k) == headerLen - LENGTH_802_1_H
  {
    if k > 0 {
      HeaderSmall(headerLen, encap, k - 1);
      CounterIsMod(0x100, k - 1);
    }
  }

  // ---------------------------------------------------------------- the reserved number

  /** Packet bytes behind the 802.11 header, counted as if LLC/SNAP were always inserted. */
  function PacketBytes(total: nat): int {
    total - LENGTH_802_3 + LENGTH_802_1_H
  }

  function FragmentSize(threshold: nat): nat {
    Minus32(threshold, LENGTH_802_11 + LENGTH_CRC)
  }

  /** The estimate before it is stored in one byte. */
  function FullEstimate(total: nat, threshold: nat): nat
    requires total > LENGTH_802_3 && FragmentSize(threshold) > 0
  {
    if PacketBytes(total) < FragmentSize(threshold) then 1 else PacketBytes(total) / FragmentSize(threshold) + 1
  }

  /** NumberOfFrag of APSendPacket. */
  function NumberOfFrag(total: nat, threshold: nat): nat
    requires total > LENGTH_802_3 && FragmentSize(threshold) > 0
  {
    FullEstimate(total, threshold) % 0x100
  }

  lemma {:induction false} SumFull(frags: seq<Fragment>, first: nat, rest: nat)
    requires forall k {:trigger frags[k]} :: 0 <= k < |frags| ==>
               |frags[k].payload| == if k == 0 then first else rest
    ensures |frags| > 0 ==> |Payloads(frags)| == first + (|frags| - 1) * rest
    ensures |frags| == 0 ==> |Payloads(frags)| == 0
  {
    if |frags| > 1 {
      SumFull(frags[..|frags| - 1], first, rest);
    } else if |frags| == 1 {
      assert frags[..0] == [];
    }
  }

  /** With a header that fits: all but the last fragment carry these many bytes. */
  lemma FullSizes(frags: seq<Fragment>, payload: seq<byte>, headerLen: nat, encap: bool, threshold: nat, k: nat)
    requires IsFragmentation(frags, payload, headerLen, encap, threshold)
    requires headerLen < 0x100 && headerLen + LENGTH_CRC <= threshold && k < |frags| && k <= 0x100
    requires encap ==> headerLen >= LENGTH_802_1_H
    ensures var room := threshold - LENGTH_CRC - headerLen + (if encap && k > 0 then LENGTH_802_1_H else 0);
            if k < |frags| - 1 then |frags[k].payload| == room else |frags[k].payload| <= room
  {
    HeaderSmall(headerLen, encap, k);
  }

  /** The payload lies between the first `n` full fragments and the room of one more. */
  lemma PayloadBounds(frags: seq<Fragment>, payload: seq<byte>, headerLen: nat, encap: bool, threshold: nat, n: nat)
    requires IsFragmentation(frags, payload, headerLen, encap, threshold)
    requires headerLen < 0x100 && headerLen + LENGTH_CRC <= threshold && n < |frags| && n <= 0x100
    requires encap ==> headerLen >= LENGTH_802_1_H
    ensures var first := threshold - LENGTH_CRC - headerLen;
            var rest := first + (if encap then LENGTH_802_1_H else 0);
            var front := if n == 0 then 0 else first + (n - 1) * rest;
            && front <= |payload| && (n > 0 ==> front < |payload|)
            && (n == |frags| - 1 ==> |payload| <= front + (if n == 0 then first else rest))
  {
    hide IsFragmentation, Payloads;
    FrontSize(frags, payload, headerLen, encap, threshold, n);
    PrefixLength(frags, n);
    FullSizes(frags, payload, headerLen, encap, threshold, n);
    LastIsThere(frags, payload, headerLen, encap, threshold);
  }

  /** The bytes of the first `n` fragments, none of them the last. */
  lemma FrontSize(frags: seq<Fragment>, payload: seq<byte>, headerLen: nat, encap: bool, threshold: nat, n: nat)
    requires IsFragmentation(frags, payload, headerLen, encap, threshold)
    requires headerLen < 0x100 && headerLen + LENGTH_CRC <= threshold && n < |frags| && n <= 0x100
    requires encap ==> headerLen >= LENGTH_802_1_H
    ensures var first := threshold - LENGTH_CRC - headerLen;
            var rest := first + (if encap then LENGTH_802_1_H else 0);
            |Payloads(frags[..n])| == if n == 0 then 0 else first + (n - 1) * rest
  {
    hide IsFragmentation, Payloads;
    var first := threshold - LENGTH_CRC - headerLen;
    var rest := first + (if encap then LENGTH_802_1_H else 0);
    forall k | 0 <= k < n ensures |frags[..n][k].payload| == if k == 0 then first else rest {
      FullSizes(frags, payload, headerLen, encap, threshold, k);
    }
    SumFull(frags[..n], first, rest);
  }

  /** All bytes are sent, and behind a full fragment there is always some. */
  lemma LastIsThere(frags: seq<Fragment>, payload: seq<byte>, headerLen: nat, encap: bool, threshold: nat)
    requires IsFragmentation(frags, payload, headerLen, encap, threshold)
    ensures Payloads(frags) == payload && (|frags| > 1 ==> |frags[|frags| - 1].payload| > 0)
  {
  }

  lemma {:induction false} PrefixLength(frags: seq<Fragment>, n: nat)
    requires n < |frags|
    ensures |Payloads(frags[..n])| + |frags[|frags| - 1].payload| <= |Payloads(frags)|
    ensures n == |frags| - 1 ==> |Payloads(frags)| == |Payloads(frags[..n])| + |frags[n].payload|
    decreases |frags|
  {
    if n < |frags| - 1 {
      var init := frags[..|frags| - 1];
      PrefixLength(init, n);
      assert init[..n] == frags[..n];
    }
  }

  /**
   * A frame with a bare 24-byte header: how many fragments its bytes come to. Counting the
   * LLC/SNAP octets as data, every full fragment carries `size` bytes.
   */
  lemma CountBounds(frags: seq<Fragment>, payload: seq<byte>, encap: bool, threshold: nat, size: nat, n: nat)
    requires IsFragmentation(frags, payload, LENGTH_802_11 + (if encap then LENGTH_802_1_H else 0), encap, threshold)
    requires size == threshold - LENGTH_802_11 - LENGTH_CRC && size >= (if encap then LENGTH_802_1_H else 0)
    requires n < |frags| && n <= 0x100
    ensures var bytes := |payload| + (if encap then LENGTH_802_1_H else 0);
            && (n > 0 ==> n * size < bytes)
            && (n == |frags| - 1 ==> bytes <= (n + 1) * size)
  {
    PayloadBounds(frags, payload, LENGTH_802_11 + (if encap then LENGTH_802_1_H else 0), encap, threshold, n);
    assert n > 0 ==> size + (n - 1) * size == n * size;
    assert (n + 1) * size == n * size + size;
  }

  /** Frames for which a wrapped room lets a single oversized fragment carry everything. */
  predicate WrapsAtOnce(encap: bool, threshold: nat) {
    threshold < LENGTH_802_11 + LENGTH_CRC + (if encap then LENGTH_802_1_H else 0)
  }

  lemma {:induction false} FirstFits(frags: seq<Fragment>)
    requires |frags| > 0
    ensures |frags[0].payload| <= |Payloads(frags)|
  {
    if |frags| > 1 {
      FirstFits(frags[..|frags| - 1]);
    }
  }

  lemma WrappedIsSingle(frags: seq<Fragment>, payload: seq<byte>, encap: bool, threshold: nat)
    requires IsFragmentation(frags, payload, LENGTH_802_11 + (if encap then LENGTH_802_1_H else 0), encap, threshold)
    requires WrapsAtOnce(encap, threshold) && |payload| < UINT32 - 0x100
    ensures |frags| == 1
  {
    PrefixLength(frags, 0);
    FirstFits(frags);
  }

  lemma DivBounds(bytes: nat, size: nat, n: nat)
    requires size > 0
    ensures bytes < n * size ==> bytes / size < n
    ensures bytes >= n * size ==> bytes / size >= n
    ensures bytes / size * size <= bytes < (bytes / size + 1) * size
  {
    var q, r := bytes / size, bytes % size;
    assert bytes == q * size + r;
    if q >= n { MulMono(n, q, size); }
    if q + 1 <= n { MulMono(q + 1, n, size); }
  }

  /**
   * For a frame with a 24-byte header and no MIC, of every length and for every threshold but
   * 28 (a division by zero): the fragments never exceed the full estimate.
   */
  lemma EstimateCovers(frags: seq<Fragment>, payload: seq<byte>, total: nat, vlan: bool, encap: bool, threshold: nat)
    requires LENGTH_802_3 < total < UINT32 - 0x100 && threshold < 0x10000
    requires threshold != LENGTH_802_11 + LENGTH_CRC
    requires |payload| == total - LENGTH_802_3 - (if vlan then LENGTH_802_1Q else 0)
    requires IsFragmentation(frags, payload, LENGTH_802_11 + (if encap then LENGTH_802_1_H else 0), encap, threshold)
    ensures |frags| <= FullEstimate(total, threshold) || |frags| > 0x100
  {
    if WrapsAtOnce(encap, threshold) {
      WrappedIsSingle(frags, payload, encap, threshold);
    } else {
      var size, bytes, n := FragmentSize(threshold), PacketBytes(total), |frags| - 1;
      if 0 < n <= 0x100 {
        CountBounds(frags, payload, encap, threshold, size, n);
        DivBounds(bytes, size, n);
        if bytes < size { MulMono(1, n, size); }
      }
    }
  }

  /** A frame counted as `full` fragments comes out as at most 13 fewer. */
  lemma EstimateIsClose(frags: seq<Fragment>, payload: seq<byte>, total: nat, vlan: bool, encap: bool, threshold: nat)
    requires LENGTH_802_3 < total < UINT32 - 0x100 && threshold < 0x10000
    requires threshold != LENGTH_802_11 + LENGTH_CRC && !WrapsAtOnce(encap, threshold)
    requires |payload| == total - LENGTH_802_3 - (if vlan then LENGTH_802_1Q else 0)
    requires IsFragmentation(frags, payload, LENGTH_802_11 + (if encap then LENGTH_802_1_H else 0), encap, threshold)
    ensures FullEstimate(total, threshold) <= |frags| + 13 || |frags| > 0x100
  {
    var size, bytes, n := FragmentSize(threshold), PacketBytes(total), |frags| - 1;
    if n < 0x100 {
      CountBounds(frags, payload, encap, threshold, size, n);
      assert bytes < (n + 1) * size + 13 * size == (n + 14) * size;
      DivBounds(bytes, size, n + 14);
    }
  }

  /** What a full estimate below, and above, one byte means when no room wraps. */
  lemma EstimateByte(frags: seq<Fragment>, payload: seq<byte>, total: nat, vlan: bool, encap: bool, threshold: nat)
    requires LENGTH_802_3 < total < UINT32 - 0x100 && threshold < 0x10000
    requires threshold != LENGTH_802_11 + LENGTH_CRC && !WrapsAtOnce(encap, threshold)
    requires |payload| == total - LENGTH_802_3 - (if vlan then LENGTH_802_1Q else 0)
    requires IsFragmentation(frags, payload, LENGTH_802_11 + (if encap then LENGTH_802_1_H else 0), encap, threshold)
    ensures |frags| > 0x100 ==> FullEstimate(total, threshold) > 0x100
    ensures |frags| <= NumberOfFrag(total, threshold) <==> FullEstimate(total, threshold) < 0x100
  {
    var size, bytes := FragmentSize(threshold), PacketBytes(total);
    if |frags| > 0x100 {
      CountBounds(frags, payload, encap, threshold, size, 0x100);
      DivBounds(bytes, size, 0x100);
    }
    EstimateCovers(frags, payload, total, vlan, encap, threshold);
    EstimateIsClose(frags, payload, total, vlan, encap, threshold);
  }

  /**
   * For a frame with a 24-byte header and no MIC, of every length and for every threshold but
   * 28: the reserved number covers the fragments exactly when the estimate fits its byte, or
   * the first room wraps and the byte is not zero.
   */
  lemma ReservationCoversIff(frags: seq<Fragment>, payload: seq<byte>, total: nat, vlan: bool, encap: bool,
                             threshold: nat)
    requires LENGTH_802_3 < total < UINT32 - 0x100 && threshold < 0x10000
    requires threshold != LENGTH_802_11 + LENGTH_CRC
    requires |payload| == total - LENGTH_802_3 - (if vlan then LENGTH_802_1Q else 0)
    requires IsFragmentation(frags, payload, LENGTH_802_11 + (if encap then LENGTH_802_1_H else 0), encap, threshold)
    ensures |frags| <= NumberOfFrag(total, threshold) <==>
            || FullEstimate(total, threshold) < 0x100
            || (WrapsAtOnce(encap, threshold) && FullEstimate(total, threshold) % 0x100 != 0)
  {
    if WrapsAtOnce(encap, threshold) {
      WrappedIsSingle(frags, payload, encap, threshold);
    } else {
      EstimateByte(frags, payload, total, vlan, encap, threshold);
    }
  }

  // ---------------------------------------------------------------- any header

  /** LLC/SNAP octets that travel in the header of the first fragment only. */
  function Extra(encap: bool): nat {
    if encap then LENGTH_802_1_H else 0
  }

  /** How many fragments come out, exactly, for any header that fits. */
  lemma CountExact(frags: seq<Fragment>, payload: seq<byte>, headerLen: nat, encap: bool, threshold: nat)
    requires IsFragmentation(frags, payload, headerLen, encap, threshold) && payload != []
    requires Extra(encap) <= headerLen < 0x100 && headerLen + LENGTH_CRC <= threshold
    requires threshold > headerLen + LENGTH_CRC - Extra(encap)
    ensures var count := (|payload| + Extra(encap) - 1) / (threshold - LENGTH_CRC - headerLen + Extra(encap)) + 1;
            if |frags| <= 0x100 then |frags| == count else count > 0x100
  {
    var m := if |frags| <= 0x100 then |frags| - 1 else 0x100;
    PayloadBounds(frags, payload, headerLen, encap, threshold, m);
    hide IsFragmentation;
    Quotient(|payload|, threshold - LENGTH_CRC - headerLen, Extra(encap), m);
  }

  /** A length between `m` full pieces, the first of them `e` shorter, and one more. */
  lemma Quotient(length: nat, first: nat, e: nat, m: nat)
    requires length > 0 && first + e > 0 && (m > 0 ==> first + (m - 1) * (first + e) < length)
    ensures (length + e - 1) / (first + e) >= m
    ensures length <= (if m == 0 then first else first + (m - 1) * (first + e) + (first + e)) ==>
              (length + e - 1) / (first + e) == m
  {
    var size, bytes := first + e, length + e - 1;
    assert m > 0 ==> (m - 1) * size + size == m * size;
    assert m * size + size == (m + 1) * size;
    DivBounds(bytes, size, m);
    DivBounds(bytes, size, m + 1);
  }

  /** TxPktClassification hands a packet to the loop only when more than one fragment was reserved. */
  predicate ToBeCut(total: nat, threshold: nat)
    requires total > LENGTH_802_3 && FragmentSize(threshold) > 0
  {
    NumberOfFrag(total, threshold) > 1
  }

  /**
   * For the packets that reach the loop, with any header that fits (24 octets, or 26 with QoS, and the
   * LLC/SNAP octets): the reserved number covers the fragments exactly under this arithmetic condition.
   */
  lemma ReservedCoversIff(frags: seq<Fragment>, payload: seq<byte>, total: nat, headerLen: nat, encap: bool,
                          threshold: nat)
    requires IsFragmentation(frags, payload, headerLen, encap, threshold)
    requires total > LENGTH_802_3 && FragmentSize(threshold) > 0 && ToBeCut(total, threshold)
    requires Extra(encap) <= headerLen < 0x100 && headerLen + LENGTH_CRC <= threshold
    requires threshold > headerLen + LENGTH_CRC - Extra(encap)
    ensures |frags| <= NumberOfFrag(total, threshold) <==>
            payload == [] ||
            (|payload| + Extra(encap) - 1) / (threshold - LENGTH_CRC - headerLen + Extra(encap)) <
            NumberOfFrag(total, threshold)
  {
    if payload == [] {
      EmptyIsSingle(frags, payload, headerLen, encap, threshold);
    } else {
      CountExact(frags, payload, headerLen, encap, threshold);
    }
    hide IsFragmentation;
  }

  lemma EmptyIsSingle(frags: seq<Fragment>, payload: seq<byte>, headerLen: nat, encap: bool, threshold: nat)
    requires IsFragmentation(frags, payload, headerLen, encap, threshold) && payload == []
    ensures |frags| == 1
  {
    PrefixLength(frags, 0);
  }

  // ---------------------------------------------------------------- thresholds that can be set

  const MIN_FRAG_THRESHOLD := 256
  const MAX_FRAG_THRESHOLD := 2346

  /** The longest header: four addresses, sequence control, QoS and LLC/SNAP. */
  const MAX_HEADER := LENGTH_802_11 + 6 + 2 + LENGTH_802_1_H

  /** What a configured value is stored as: even, and the maximum for a value out of range. */
  function StoredThreshold(value: int): (t: nat)
    ensures MIN_FRAG_THRESHOLD <= t <= MAX_FRAG_THRESHOLD && t % 2 == 0
    ensures MIN_FRAG_THRESHOLD <= value <= MAX_FRAG_THRESHOLD ==> value - 1 <= t <= value
  {
    if value > MAX_FRAG_THRESHOLD || value < MIN_FRAG_THRESHOLD then MAX_FRAG_THRESHOLD
    else if value % 2 == 1 then value - 1
    else value
  }

  /**
   * Whatever threshold is configured and whatever is sent: the loop is not stuck, no room wraps, the
   * estimate divides by a positive size, and every one of the first 257 fragments fits the threshold.
   */
  lemma ConfiguredIsSafe(value: int, length: nat, headerLen: nat, encap: bool, k: nat)
    requires Extra(encap) <= headerLen <= MAX_HEADER && k <= 0x100
    ensures var t := StoredThreshold(value);
            && !Stuck(length, headerLen, encap, t) && !WrapsAtOnce(encap, t) && FragmentSize(t) > 0
            && HeaderAt(headerLen, encap, k) + LENGTH_CRC < t
            && Free(t, HeaderAt(headerLen, encap, k)) == t - LENGTH_CRC - HeaderAt(headerLen, encap, k)
  {
    HeaderSmall(headerLen, encap, k);
  }

  /**
   * With a configured threshold and a 24-byte header the reserved number covers the fragments exactly
   * when the packet is shorter than 255 full fragments; up to 57343 bytes it always does.
   */
  lemma ConfiguredThresholdsCover(frags: seq<Fragment>, payload: seq<byte>, total: nat, vlan: bool, encap: bool,
                                  value: int)
    requires LENGTH_802_3 < total < UINT32 - 0x100
    requires |payload| == total - LENGTH_802_3 - (if vlan then LENGTH_802_1Q else 0)
    requires IsFragmentation(frags, payload, LENGTH_802_11 + Extra(encap), encap, StoredThreshold(value))
    ensures |frags| <= NumberOfFrag(total, StoredThreshold(value)) <==>
            PacketBytes(total) < 255 * FragmentSize(StoredThreshold(value))
    ensures total < 0xE000 ==> |frags| <= NumberOfFrag(total, StoredThreshold(value))
  {
    var threshold := StoredThreshold(value);
    var size, bytes := FragmentSize(threshold), PacketBytes(total);
    assert 255 * 228 <= 255 * size;
    DivBounds(bytes, size, 255);
    ReservationCoversIff(frags, payload, total, vlan, encap, threshold);
  }

  /**
   * The two octets of a QoS header are not in the estimate: for every configured threshold this packet is
   * handed to the loop with two fragments reserved and comes out as three.
   */
  lemma QosExceeds(frags: seq<Fragment>, payload: seq<byte>, value: int)
    requires var threshold := StoredThreshold(value);
             |payload| == 2 * threshold - 66 &&
             IsFragmentation(frags, payload, LENGTH_802_11 + 2 + LENGTH_802_1_H, true, threshold)
    ensures NumberOfFrag(|payload| + LENGTH_802_3, StoredThreshold(value)) == 2 < |frags| == 3
  {
    hide IsFragmentation;
    var threshold := StoredThreshold(value);
    DivBounds(PacketBytes(|payload| + LENGTH_802_3), threshold - 28, 1);
    DivBounds(PacketBytes(|payload| + LENGTH_802_3), threshold - 28, 2);
    DivBounds(|payload| + 7, threshold - 30, 2);
    DivBounds(|payload| + 7, threshold - 30, 3);
    CountExact(frags, payload, LENGTH_802_11 + 2 + LENGTH_802_1_H, true, threshold);
  }
}
