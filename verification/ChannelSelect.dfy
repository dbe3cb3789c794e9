/**
 * Choice of one channel after a scan by false-CCA counts: least dirty among the quiet channels,
 * else least disturbed among the others, else the first acceptable one from a random start.
 */
module ChannelSelect {
  import opened Arithmetic
  import opened Common

  const CCA_THRESHOLD := 100
  const UINT32 := 0x1_0000_0000
  const UINT32_MAX := 0xffff_ffff

  /** A listed channel with its measurements; `offset` leads to its 40 MHz partner in the 5 GHz band. */
  datatype Channel = Channel(channel: nat, dirty: nat, cca: nat, busyAccepted: bool, offset: int, radar: bool)

  /** `skip` holds the skip-list flags by index, `skipList` the configured channel numbers. */
  datatype Scan = Scan(chans: seq<Channel>, skip: seq<bool>, skipList: seq<nat>, bw40: bool, aband: bool,
                       avoidDfs: bool)

  predicate Shaped(s: Scan) {
    |s.chans| <= |s.skip|
  }

  function Dirty(s: Scan, k: int): nat {
    if 0 <= k < |s.chans| then s.chans[k].dirty else 0
  }

  function Cca(s: Scan, k: int): nat {
    if 0 <= k < |s.chans| then s.chans[k].cca else 0
  }

  /** A 5 GHz channel without a partner is useless at 40 MHz. */
  predicate Unpaired(s: Scan, k: nat)
    requires k < |s.chans|
  {
    s.bw40 && s.aband && s.chans[k].offset == 0
  }

  /** Channel 14 ends the first rule's loop at 40 MHz. */
  predicate Stops(s: Scan, k: nat)
    requires Shaped(s) && k < |s.chans|
  {
    && !s.skip[k] && s.chans[k].cca <= CCA_THRESHOLD && s.chans[k].busyAccepted
    && s.bw40 && !s.aband && s.chans[k].channel == 14
  }

  /** What the first rule compares, if it considers index `k` at all. */
  function Quiet(s: Scan, k: nat): Option<nat>
    requires Shaped(s) && k < |s.chans|
  {
    if s.skip[k] || s.chans[k].cca > CCA_THRESHOLD || !s.chans[k].busyAccepted || Unpaired(s, k) ||
       (exists j :: 0 <= j <= k && Stops(s, j))
    then None
    else
      var total := s.chans[k].dirty +
                   (if !s.bw40 then 0
                    else if s.aband then Dirty(s, k + s.chans[k].offset)
                    else Dirty(s, k - 4) + Dirty(s, k + 4));
      if total % UINT32 == UINT32_MAX then None else Some(total % UINT32)
  }

  /** What the second rule compares. */
  function Noisy(s: Scan, k: nat): Option<nat>
    requires Shaped(s) && k < |s.chans|
  {
    if s.skip[k] || s.chans[k].cca <= CCA_THRESHOLD || !s.chans[k].busyAccepted || Unpaired(s, k) then None
    else
      var partner := k + s.chans[k].offset;
      var total := s.chans[k].cca + s.chans[k].dirty +
                   (if s.chans[k].offset == 0 then 0 else Cca(s, partner) + Dirty(s, partner));
      if total % UINT32 == UINT32_MAX then None else Some(total % UINT32)
  }

  function Score(s: Scan, quiet: bool, k: nat): Option<nat>
    requires Shaped(s) && k < |s.chans|
  {
    if quiet then Quiet(s, k) else Noisy(s, k)
  }

  /** The first index below `n` with the least score; none exactly when no index has a score. */
  ghost predicate FirstLeast(s: Scan, quiet: bool, n: nat, r: Option<nat>)
    requires Shaped(s) && n <= |s.chans|
  {
    match r
    case None => forall j :: 0 <= j < n ==> Score(s, quiet, j) == None
    case Some(k) =>
      && k < n && Score(s, quiet, k).Some?
      && forall j :: 0 <= j < n && Score(s, quiet, j).Some? ==>
           Score(s, quiet, k).value <= Score(s, quiet, j).value &&
           (j < k ==> Score(s, quiet, k).value < Score(s, quiet, j).value)
  }

  /** The two tests of the third rule. */
  predicate Acceptable(s: Scan, k: nat)
    requires k < |s.chans|
  {
    && s.chans[k].channel !in s.skipList
    && !(s.avoidDfs && s.aband && s.chans[k].radar)
  }

  /** The `i`th index visited from `base`. */
  function Visit(base: nat, i: nat, n: nat): (k: nat)
    requires n > 0
    ensures k < n
  {
    (base + i) % n
  }

  /** The third rule: the first acceptable index from `base`, else the last one visited. */
  ghost predicate WrapAround(s: Scan, base: nat, k: nat)
    requires |s.chans| > 0
  {
    var n := |s.chans|;
    exists i {:trigger Visit(base, i, n)} :: 0 <= i < n && k == Visit(base, i, n) &&
      (forall j :: 0 <= j < i ==> !Acceptable(s, Visit(base, j, n))) &&
      (Acceptable(s, k) || i == n - 1)
  }

  // ---------------------------------------------------------------- the loops

  /** Adds to a 32-bit total. */
  function Plus32(a: nat, b: nat): nat {
    (a + b) % UINT32
  }

  lemma PlusPlus(a: nat, b: nat, c: nat)
    ensures Plus32(Plus32(a, b), c) == (a + b + c) % UINT32
    ensures Plus32(a % UINT32, b) == (a + b) % UINT32
  {
  }

  /** Total of the first rule for an index that passed its tests. */
  method QuietTotal(s: Scan, k: nat) returns (dirtyness: nat)
    requires Shaped(s) && k < |s.chans| && (s.bw40 && !s.aband ==> s.chans[k].channel != 14)
    ensures dirtyness == (s.chans[k].dirty +
                          (if !s.bw40 then 0
                           else if s.aband then Dirty(s, k + s.chans[k].offset)
                           else Dirty(s, k - 4) + Dirty(s, k + 4))) % UINT32
  {
    var n := |s.chans|;
    dirtyness := s.chans[k].dirty % UINT32;
    if s.bw40 {
      if s.aband {
        var partner := k + s.chans[k].offset;
        if 0 <= partner < n {
          dirtyness := Plus32(dirtyness, s.chans[partner].dirty);
        }
      } else {
        PlusPlus(s.chans[k].dirty, Dirty(s, k - 4), Dirty(s, k + 4));
        if k - 4 >= 0 {
          dirtyness := Plus32(dirtyness, s.chans[k - 4].dirty);
        }
        if k + 4 < n {
          dirtyness := Plus32(dirtyness, s.chans[k + 4].dirty);
        }
      }
    }
  }

  /** Total of the second rule. */
  method NoisyTotal(s: Scan, k: nat) returns (falsecca: nat)
    requires Shaped(s) && k < |s.chans|
    ensures falsecca == (s.chans[k].cca + s.chans[k].dirty +
                         (if s.chans[k].offset == 0 then 0
                          else Cca(s, k + s.chans[k].offset) + Dirty(s, k + s.chans[k].offset))) % UINT32
  {
    var c := s.chans[k];
    falsecca := Plus32(c.cca, c.dirty);
    var partner := k + c.offset;
    if c.offset != 0 && 0 <= partner < |s.chans| {
      PlusPlus(c.cca + c.dirty, s.chans[partner].cca + s.chans[partner].dirty, 0);
      falsecca := Plus32(falsecca, s.chans[partner].cca + s.chans[partner].dirty);
    }
  }

  /** The score of the candidate so far, or the start value that no score reaches. */
  function Least(s: Scan, quiet: bool, candidate: Option<nat>): nat
    requires Shaped(s) && (candidate.Some? ==> candidate.value < |s.chans|)
  {
    if candidate.Some? && Score(s, quiet, candidate.value).Some? then Score(s, quiet, candidate.value).value
    else UINT32_MAX
  }

  lemma NextLeast(s: Scan, quiet: bool, k: nat, candidate: Option<nat>)
    requires Shaped(s) && k < |s.chans| && FirstLeast(s, quiet, k, candidate)
    ensures candidate.Some? ==> candidate.value < k
    ensures Score(s, quiet, k) == None ==> FirstLeast(s, quiet, k + 1, candidate)
    ensures Score(s, quiet, k).Some? ==>
              FirstLeast(s, quiet, k + 1,
                         if Least(s, quiet, candidate) > Score(s, quiet, k).value then Some(k) else candidate)
  {
  }

  lemma Unscored(s: Scan, quiet: bool, k: nat, candidate: Option<nat>)
    requires Shaped(s) && k <= |s.chans| && FirstLeast(s, quiet, k, candidate)
    requires forall j :: k <= j < |s.chans| ==> Score(s, quiet, j) == None
    ensures FirstLeast(s, quiet, |s.chans|, candidate)
  {
  }

  lemma NoneYet(s: Scan, quiet: bool)
    requires Shaped(s)
    ensures FirstLeast(s, quiet, 0, None)
  {
  }

  method Rule1(s: Scan) returns (candidate: Option<nat>)
    requires Shaped(s)
    ensures FirstLeast(s, true, |s.chans|, candidate)
  {
    hide FirstLeast;
    candidate := None;
    var least := UINT32_MAX;
    var k := 0;
    NoneYet(s, true);
    while k < |s.chans|
      invariant k <= |s.chans| && FirstLeast(s, true, k, candidate)
      invariant (candidate.Some? ==> candidate.value < k) && least == Least(s, true, candidate)
      invariant forall j :: 0 <= j < k ==> !Stops(s, j)
    {
      var c := s.chans[k];
      NextLeast(s, true, k, candidate);
      if !s.skip[k] && c.cca <= CCA_THRESHOLD && c.busyAccepted && !Unpaired(s, k) {
        if s.bw40 && !s.aband && c.channel == 14 {
          assert Stops(s, k);
          Unscored(s, true, k, candidate);
          return;
        }
        var dirtyness := QuietTotal(s, k);
        if least > dirtyness {
          least := dirtyness;
          candidate := Some(k);
        }
      }
      k := k + 1;
    }
  }

  method Rule2(s: Scan) returns (candidate: Option<nat>)
    requires Shaped(s)
    ensures FirstLeast(s, false, |s.chans|, candidate)
  {
    hide FirstLeast;
    candidate := None;
    var least := UINT32_MAX;
    var k := 0;
    NoneYet(s, false);
    while k < |s.chans|
      invariant k <= |s.chans| && FirstLeast(s, false, k, candidate)
      invariant (candidate.Some? ==> candidate.value < k) && least == Least(s, false, candidate)
    {
      NextLeast(s, false, k, candidate);
      if !s.skip[k] && s.chans[k].cca > CCA_THRESHOLD && !Unpaired(s, k) {
        var falsecca := NoisyTotal(s, k);
        if s.chans[k].busyAccepted && least > falsecca {
          least := falsecca;
          candidate := Some(k);
        }
      }
      k := k + 1;
    }
  }

  method Rule3(s: Scan, base: nat) returns (k: nat)
    requires |s.chans| > 0
    ensures k < |s.chans| && WrapAround(s, base, k)
  {
    var i, n := 0, |s.chans|;
    k := Visit(base, 0, n);
    while i < n
      invariant 0 <= i <= n && (i > 0 ==> k == Visit(base, i - 1, n))
      invariant k < n && forall j :: 0 <= j < i ==> !Acceptable(s, Visit(base, j, n))
    {
      k := Visit(base, i, n);
      if Acceptable(s, k) { break; }
      i := i + 1;
    }
    assert i < n ==> k == Visit(base, i, n);
    assert i == n ==> k == Visit(base, n - 1, n);
  }

  /** What the whole choice returns; an empty list yields channel 1. */
  ghost predicate Chosen(s: Scan, base: nat, ch: nat)
    requires Shaped(s)
  {
    var n := |s.chans|;
    if n == 0 then ch == 1
    else if exists k :: 0 <= k < n && Quiet(s, k).Some? then
      exists k :: 0 <= k < n && FirstLeast(s, true, n, Some(k)) && ch == s.chans[k].channel
    else if exists k :: 0 <= k < n && Noisy(s, k).Some? then
      exists k :: 0 <= k < n && FirstLeast(s, false, n, Some(k)) && ch == s.chans[k].channel
    else
      exists k :: 0 <= k < n && WrapAround(s, base, k) && ch == s.chans[k].channel
  }

  method Select(s: Scan, base: nat) returns (ch: nat)
    requires Shaped(s)
    ensures Chosen(s, base, ch)
  {
    ch := 1;
    var candidate := Rule1(s);
    if candidate.Some? {
      assert Score(s, true, candidate.value) == Quiet(s, candidate.value);
      return s.chans[candidate.value].channel;
    }
    assert forall k :: 0 <= k < |s.chans| ==> Score(s, true, k) == Quiet(s, k);
    candidate := Rule2(s);
    if candidate.Some? {
      assert Score(s, false, candidate.value) == Noisy(s, candidate.value);
      return s.chans[candidate.value].channel;
    }
    assert forall k :: 0 <= k < |s.chans| ==> Score(s, false, k) == Noisy(s, k);
    if |s.chans| > 0 {
      var k := Rule3(s, base);
      ch := s.chans[k].channel;
    }
  }

  // ---------------------------------------------------------------- what the choice means

  /** The indices a transmission on channel `k` takes up: itself, and at 40 MHz its partner or its neighbours. */
  function Covered(s: Scan, k: nat): seq<int>
    requires k < |s.chans|
  {
    if !s.bw40 then [k] else if s.aband then [k, k + s.chans[k].offset] else [k - 4, k, k + 4]
  }

  /** The dirtiness of all listed channels among these indices. */
  function DirtOn(s: Scan, indices: seq<int>): nat {
    if indices == [] then 0
    else
      var k := indices[0];
      (if 0 <= k < |s.chans| then s.chans[k].dirty else 0) + DirtOn(s, indices[1..])
  }

  /** May be chosen at all: not flagged, accepted as to its load, and at 40 MHz in the 5 GHz band with a partner. */
  predicate Eligible(s: Scan, k: nat)
    requires Shaped(s) && k < |s.chans|
  {
    !s.skip[k] && s.chans[k].busyAccepted && (s.bw40 && s.aband ==> s.chans[k].offset != 0)
  }

  /** Eligible with at most 100 false alarms; at 40 MHz in the 2.4 GHz band such a channel 14 ends the list. */
  ghost predicate QuietCandidate(s: Scan, k: nat)
    requires Shaped(s) && k < |s.chans|
  {
    && Eligible(s, k) && s.chans[k].cca <= 100
    && (s.bw40 && !s.aband ==>
          forall j :: 0 <= j <= k && s.chans[j].channel == 14 && s.chans[j].cca <= 100 ==> !Eligible(s, j))
  }

  lemma QuietIs(s: Scan, k: nat)
    requires Shaped(s) && k < |s.chans| && DirtOn(s, Covered(s, k)) < UINT32_MAX
    ensures Quiet(s, k) == if QuietCandidate(s, k) then Some(DirtOn(s, Covered(s, k))) else None
  {
    DirtIs(s, k);
    if s.bw40 && !s.aband {
      forall j | 0 <= j <= k
        ensures Stops(s, j) <==> s.chans[j].channel == 14 && s.chans[j].cca <= 100 && Eligible(s, j)
      {
      }
    }
    hide DirtOn, Covered;
  }

  lemma DirtOnCons(s: Scan, k: int, rest: seq<int>)
    ensures DirtOn(s, [k] + rest) == Dirty(s, k) + DirtOn(s, rest) && DirtOn(s, []) == 0
    ensures |rest| == 0 ==> [k] + rest == [k]
    ensures |rest| == 1 ==> [k] + rest == [k, rest[0]]
    ensures |rest| == 2 ==> [k] + rest == [k, rest[0], rest[1]]
  {
    assert ([k] + rest)[1..] == rest;
  }

  lemma DirtIs(s: Scan, k: nat)
    requires k < |s.chans|
    ensures DirtOn(s, Covered(s, k)) ==
            s.chans[k].dirty + (if !s.bw40 then 0
                                else if s.aband then Dirty(s, k + s.chans[k].offset)
                                else Dirty(s, k - 4) + Dirty(s, k + 4))
  {
    DirtOnCons(s, k, []);
    DirtOnCons(s, k + s.chans[k].offset, []);
    DirtOnCons(s, k, [k + s.chans[k].offset]);
    DirtOnCons(s, k + 4, []);
    DirtOnCons(s, k, [k + 4]);
    DirtOnCons(s, k - 4, [k, k + 4]);
  }

  /**
   * While there is a quiet candidate the choice is one, and none is cleaner over the channels its
   * transmission would cover. (Totals of 2^32 - 1 and more wrap, or count as none.)
   */
  lemma CleanestIsChosen(s: Scan, base: nat, ch: nat, other: nat)
    requires Shaped(s) && Chosen(s, base, ch) && other < |s.chans| && QuietCandidate(s, other)
    requires forall k :: 0 <= k < |s.chans| ==> DirtOn(s, Covered(s, k)) < UINT32_MAX
    ensures exists k :: 0 <= k < |s.chans| && s.chans[k].channel == ch && QuietCandidate(s, k) &&
                        DirtOn(s, Covered(s, k)) <= DirtOn(s, Covered(s, other))
  {
    hide QuietCandidate, DirtOn, Covered, Noisy, WrapAround, Quiet;
    QuietIs(s, other);
    var k :| 0 <= k < |s.chans| && FirstLeast(s, true, |s.chans|, Some(k)) && ch == s.chans[k].channel;
    QuietIs(s, k);
    assert Score(s, true, k).value <= Score(s, true, other).value;
  }

  /** Eligible, with more than 100 false alarms. */
  predicate NoisyCandidate(s: Scan, k: nat)
    requires Shaped(s) && k < |s.chans|
  {
    Eligible(s, k) && s.chans[k].cca > 100
  }

  /** False alarms and dirtiness of a channel and of its partner, at any bandwidth. */
  function Disturbance(s: Scan, k: nat): nat
    requires k < |s.chans|
  {
    var c, j := s.chans[k], k + s.chans[k].offset;
    c.cca + c.dirty + if j != k && 0 <= j < |s.chans| then s.chans[j].cca + s.chans[j].dirty else 0
  }

  /** While there are noisy candidates and no quiet ones the choice is a least disturbed one. */
  lemma LeastDisturbedIsChosen(s: Scan, base: nat, ch: nat, other: nat)
    requires Shaped(s) && Chosen(s, base, ch) && other < |s.chans| && NoisyCandidate(s, other)
    requires forall k :: 0 <= k < |s.chans| ==> !QuietCandidate(s, k)
    requires forall k :: 0 <= k < |s.chans| ==> DirtOn(s, Covered(s, k)) < UINT32_MAX && Disturbance(s, k) < UINT32_MAX
    ensures exists k :: 0 <= k < |s.chans| && s.chans[k].channel == ch && NoisyCandidate(s, k) &&
                        Disturbance(s, k) <= Disturbance(s, other)
  {
    forall k | 0 <= k < |s.chans| ensures Quiet(s, k) == None { QuietIs(s, k); }
    hide QuietCandidate, DirtOn, Covered, WrapAround, Quiet, Noisy, Disturbance, NoisyCandidate;
    NoisyIs(s, other);
    var k :| 0 <= k < |s.chans| && FirstLeast(s, false, |s.chans|, Some(k)) && ch == s.chans[k].channel;
    assert Score(s, false, k).value <= Score(s, false, other).value;
    NoisyIs(s, k);
  }

  lemma NoisyIs(s: Scan, k: nat)
    requires Shaped(s) && k < |s.chans| && Disturbance(s, k) < UINT32_MAX
    ensures Noisy(s, k) == if NoisyCandidate(s, k) then Some(Disturbance(s, k)) else None
  {
  }

  // ---------------------------------------------------------------- the skip list

  /** AutoChannelSkipListSetDirty: each skip-listed channel is flagged at its first index only. */
  method SetSkipFlags(skip: array<bool>, channels: seq<nat>, skipList: seq<nat>)
    requires |channels| <= skip.Length
    modifies skip
    ensures forall k :: 0 <= k < |channels| ==> skip[k] == (old(skip[k]) || Flagged(channels, skipList, k))
  {
    for i := 0 to |skipList|
      invariant forall k :: 0 <= k < |channels| ==> skip[k] == (old(skip[k]) || Flagged(channels, skipList[..i], k))
    {
      var idx := 0;
      while idx < |channels| && channels[idx] != skipList[i]
        invariant 0 <= idx <= |channels| && forall k :: 0 <= k < idx ==> channels[k] != skipList[i]
      {
        idx := idx + 1;
      }
      if idx != |channels| {
        skip[idx] := true;
      }
    }
    assert skipList[..|skipList|] == skipList;
  }

  predicate Flagged(channels: seq<nat>, skipList: seq<nat>, k: nat)
    requires k < |channels|
  {
    channels[k] in skipList && forall j :: 0 <= j < k ==> channels[j] != channels[k]
  }

  function Numbers(chans: seq<Channel>): (r: seq<nat>)
    ensures |r| == |chans| && forall k :: 0 <= k < |chans| ==> r[k] == chans[k].channel
  {
    if chans == [] then [] else Numbers(chans[..|chans| - 1]) + [chans[|chans| - 1].channel]
  }

  ghost predicate FlagsSet(s: Scan) {
    Shaped(s) && forall k :: 0 <= k < |s.chans| ==> s.skip[k] == Flagged(Numbers(s.chans), s.skipList, k)
  }

  /** The flags say what the list says exactly when no skip-listed channel is listed twice. */
  lemma FlagsAreExactIff(s: Scan)
    requires FlagsSet(s)
    ensures (forall k :: 0 <= k < |s.chans| ==> (s.skip[k] <==> s.chans[k].channel in s.skipList)) <==>
            (forall j, k :: 0 <= j < k < |s.chans| && s.chans[k].channel in s.skipList ==>
                       s.chans[j].channel != s.chans[k].channel)
  {
    var c := Numbers(s.chans);
    assert forall k :: 0 <= k < |c| ==> c[k] == s.chans[k].channel;
    if forall k :: 0 <= k < |s.chans| ==> (s.skip[k] <==> s.chans[k].channel in s.skipList) {
      forall j, k | 0 <= j < k < |s.chans| && s.chans[k].channel in s.skipList
        ensures s.chans[j].channel != s.chans[k].channel
      {
        assert s.skip[k] && Flagged(c, s.skipList, k);
      }
    }
  }

  /** The wrap-around scan visits every index, whatever the start. */
  lemma VisitsEvery(base: nat, n: nat, k: nat) returns (i: nat)
    requires k < n
    ensures i < n && Visit(base, i, n) == k
  {
    var b := base % n;
    i := if k >= b then k - b else k + n - b;
    VisitFrom(base, i, n);
  }

  lemma VisitFrom(base: nat, i: nat, n: nat)
    requires 0 < n && i < n
    ensures Visit(base, i, n) == if base % n + i < n then base % n + i else base % n + i - n
  {
    var q, b := base / n, base % n;
    assert base == q * n + b;
    if b + i < n {
      ModUnique(n, q, b + i);
    } else {
      assert base + i == (q + 1) * n + (b + i - n);
      ModUnique(n, q + 1, b + i - n);
    }
  }

  /**
   * If any channel is neither skip-listed nor, where radar channels of the 5 GHz band are to be avoided, one
   * of those, then so is the one that the third rule returns.
   */
  lemma WrapAroundFinds(s: Scan, base: nat, k: nat, other: nat)
    requires |s.chans| > 0 && k < |s.chans| && WrapAround(s, base, k) && other < |s.chans|
    requires s.chans[other].channel !in s.skipList && (s.avoidDfs && s.aband ==> !s.chans[other].radar)
    ensures s.chans[k].channel !in s.skipList && (s.avoidDfs && s.aband ==> !s.chans[k].radar)
  {
    var n := |s.chans|;
    var i :| 0 <= i < n && k == Visit(base, i, n) && (forall j :: 0 <= j < i ==> !Acceptable(s, Visit(base, j, n))) &&
             (Acceptable(s, k) || i == n - 1);
    var o := VisitsEvery(base, n, other);
  }

  predicate NoneRepeated(numbers: seq<nat>, skipList: seq<nat>) {
    forall j, k :: 0 <= j < k < |numbers| && numbers[k] in skipList ==> numbers[j] != numbers[k]
  }

  /** A skip-listed channel is never returned while another passes, if no skip-listed one is repeated. */
  lemma NeverSkipListed(s: Scan, base: nat, ch: nat, other: nat)
    requires FlagsSet(s) && Chosen(s, base, ch) && other < |s.chans| && Acceptable(s, other)
    requires NoneRepeated(Numbers(s.chans), s.skipList)
    ensures ch !in s.skipList
  {
    var n := |s.chans|;
    FlagsAreExactIff(s);
    if exists k :: 0 <= k < n && Quiet(s, k).Some? {
      var k :| 0 <= k < n && FirstLeast(s, true, n, Some(k)) && ch == s.chans[k].channel;
      assert !s.skip[k];
    } else if exists k :: 0 <= k < n && Noisy(s, k).Some? {
      var k :| 0 <= k < n && FirstLeast(s, false, n, Some(k)) && ch == s.chans[k].channel;
      assert !s.skip[k];
    } else {
      var k :| 0 <= k < n && WrapAround(s, base, k) && ch == s.chans[k].channel;
      WrapAroundFinds(s, base, k, other);
    }
  }

  /** Measurements under which the repeated entry `k` beats all others. */
  function Clean(numbers: seq<nat>, k: nat, n: nat): (r: seq<Channel>)
    requires n <= |numbers|
    ensures |r| == n
    ensures forall i :: 0 <= i < n ==> r[i] == Channel(numbers[i], if i == k then 0 else 1, 0, true, 0, false)
  {
    if n == 0 then []
    else Clean(numbers, k, n - 1) + [Channel(numbers[n - 1], if n - 1 == k then 0 else 1, 0, true, 0, false)]
  }

  function Flags(numbers: seq<nat>, skipList: seq<nat>, n: nat): (r: seq<bool>)
    requires n <= |numbers|
    ensures |r| == n && forall i :: 0 <= i < n ==> r[i] == Flagged(numbers, skipList, i)
  {
    if n == 0 then [] else Flags(numbers, skipList, n - 1) + [Flagged(numbers, skipList, n - 1)]
  }

  lemma RepeatedIsReturned(numbers: seq<nat>, skipList: seq<nat>, j: nat, k: nat, base: nat) returns (s: Scan)
    requires j < k < |numbers| && numbers[k] in skipList && numbers[j] == numbers[k]
    ensures FlagsSet(s) && Numbers(s.chans) == numbers && s.skipList == skipList && !s.avoidDfs
    ensures Chosen(s, base, numbers[k])
  {
    var n := |numbers|;
    s := Scan(Clean(numbers, k, n), Flags(numbers, skipList, n), skipList, false, false, false);
    assert Numbers(s.chans) == numbers;
    assert Quiet(s, k) == Some(0);
    assert FirstLeast(s, true, n, Some(k));
  }

  /** Some scan of these channels, in which a channel passes both tests of the third rule. */
  ghost predicate Possible(s: Scan, numbers: seq<nat>, skipList: seq<nat>) {
    && Shaped(s) && FlagsSet(s) && Numbers(s.chans) == numbers && s.skipList == skipList
    && exists k :: 0 <= k < |s.chans| && Acceptable(s, k)
  }

  ghost predicate Honoured(numbers: seq<nat>, skipList: seq<nat>) {
    forall s, base, ch :: Possible(s, numbers, skipList) && Chosen(s, base, ch) ==> ch !in skipList
  }

  /**
   * Whether the skip list is honoured under all measurements, whenever some channel passes the
   * tests of the third rule, depends on the channel list alone.
   */
  lemma SkipListHonouredIff(numbers: seq<nat>, skipList: seq<nat>, other: nat)
    requires other < |numbers| && numbers[other] !in skipList
    ensures Honoured(numbers, skipList) <==> NoneRepeated(numbers, skipList)
  {
    hide Chosen, FlagsSet;
    if NoneRepeated(numbers, skipList) {
      forall s, base, ch | Possible(s, numbers, skipList) && Chosen(s, base, ch) ensures ch !in skipList {
        var k :| 0 <= k < |s.chans| && Acceptable(s, k);
        NeverSkipListed(s, base, ch, k);
      }
    } else {
      var j, k :| 0 <= j < k < |numbers| && numbers[k] in skipList && numbers[j] == numbers[k];
      var s := RepeatedIsReturned(numbers, skipList, j, k, 0);
      assert s.chans[other].channel == numbers[other] && Acceptable(s, other);
      assert Possible(s, numbers, skipList) && Chosen(s, 0, numbers[k]);
    }
  }
}
