/** How much each overheard BSS dirties the channels around its own. */
module ChannelDirtiness {
  import BssTable
  import opened Multisets
  import opened ChannelSort
  import opened ChannelRanking

  const STRONG := -50
  const WEAK := -80

  type Bss = BssTable.Bss

  /** Index of the first listed occurrence; the number of listed channels when there is none. */
  function GetChIdx(list: seq<nat>, num: nat, channel: nat, from: nat): (idx: nat)
    requires from <= num <= |list|
    ensures from <= idx <= num
    ensures idx < num ==> list[idx] == channel
    ensures forall k :: from <= k < idx ==> list[k] != channel
    decreases num - from
  {
    if from == num || list[from] == channel then from else GetChIdx(list, num, channel, from + 1)
  }

  function OwnWeight(rssi: int): nat {
    if rssi >= STRONG then 50 else if rssi >= WEAK then 40 else 30
  }

  function AboveBound(b: Bss): nat {
    var wide := b.channel <= 14;
    if b.ext.Above? then (if wide then 8 else 2) else (if wide then 4 else 1)
  }

  function BelowBound(b: Bss): nat {
    var wide := b.channel <= 14;
    if b.ext.Below? then (if wide then 8 else 2) else (if wide then 4 else 1)
  }

  /** No step of more than four channel numbers on the way up from `idx` to `c`. */
  predicate NoGap(list: seq<nat>, idx: nat, c: nat) {
    forall j {:trigger list[j]} :: idx < j <= c && j < |list| ==> list[j] <= list[j - 1] + 4
  }

  function AboveWeight(list: seq<nat>, idx: nat, bound: nat, c: nat): nat
    requires bound <= 8
  {
    if idx < c <= idx + bound && c < MAX_NUM_OF_CHANNELS && NoGap(list, idx, c) then (9 - (c - idx)) * 4 else 0
  }

  /** Below, only the step next to the channel itself counts. */
  function BelowWeight(list: seq<nat>, idx: nat, bound: nat, c: nat): nat
    requires bound <= 8
  {
    if c < idx <= c + bound && c + 1 < |list| && list[c + 1] <= list[c] + 4 then (9 - (idx - c)) * 4 else 0
  }

  /** What one BSS adds to the channel at index `c`. */
  function Weight(list: seq<nat>, num: nat, b: Bss, c: nat): (w: nat)
    requires num <= |list|
    ensures w <= 50
  {
    var idx := GetChIdx(list, num, b.channel, 0);
    if c == idx then OwnWeight(b.rssi)
    else if c > idx then AboveWeight(list, idx, AboveBound(b), c)
    else BelowWeight(list, idx, BelowBound(b), c)
  }

  /**
   * A BSS dirties its own channel by its signal, and those around it less with every index away: four
   * channels to each side in the 2.4 GHz band, one in the 5 GHz band, twice as many on the side of its
   * extension channel. Above, a gap of more than four channel numbers ends its reach; below, a channel is
   * only spared by a gap directly above it.
   */
  lemma WeightIs(list: seq<nat>, num: nat, b: Bss, idx: nat, c: nat)
    requires num <= |list| && idx < num && list[idx] == b.channel && b.channel !in list[..idx]
    requires c < |list| && c < MAX_NUM_OF_CHANNELS
    ensures var distance := if c > idx then c - idx else idx - c;
            var towards := if c > idx then BssTable.Above else BssTable.Below;
            var reach := (if b.channel <= 14 then 4 else 1) * (if b.ext == towards then 2 else 1);
            var joined := if c > idx then forall j :: idx < j <= c ==> list[j] <= list[j - 1] + 4
                          else c < idx ==> list[c + 1] <= list[c] + 4;
            Weight(list, num, b, c) ==
            if c == idx then (if b.rssi >= -50 then 50 else if b.rssi >= -80 then 40 else 30)
            else if distance <= reach && joined then 36 - 4 * distance
            else 0
  {
    FirstListed(list, num, b.channel, idx, 0);
    if c > idx {
      assert NoGap(list, idx, c) <==> forall j :: idx < j <= c ==> list[j] <= list[j - 1] + 4;
    }
    hide NoGap;
  }

  lemma {:induction false} FirstListed(list: seq<nat>, num: nat, channel: nat, idx: nat, from: nat)
    requires num <= |list| && from <= idx < num && list[idx] == channel && channel !in list[..idx]
    ensures GetChIdx(list, num, channel, from) == idx
    decreases idx - from
  {
    if from < idx {
      assert list[from] in list[..idx];
      FirstListed(list, num, channel, idx, from + 1);
    }
  }

  function Sum(list: seq<nat>, num: nat, bsss: seq<Bss>, c: nat): nat
    requires num <= |list|
  {
    if bsss == [] then 0 else Sum(list, num, bsss[..|bsss| - 1], c) + Weight(list, num, bsss[|bsss| - 1], c)
  }

  /** Addition in an unsigned 64-bit word. */
  function Plus(a: ULong, b: nat): ULong
    requires b < ULONG_SIZE
  {
    if a + b < ULONG_SIZE then a + b else a + b - ULONG_SIZE
  }

  // ---------------------------------------------------------------- in place

  method AddAbove(dirtyness: array<ULong>, list: seq<nat>, idx: nat, bound: nat)
    requires dirtyness.Length == MAX_NUM_OF_CHANNELS + 1 && |list| == MAX_NUM_OF_CHANNELS
    requires idx < MAX_NUM_OF_CHANNELS && bound <= 8
    modifies dirtyness
    ensures forall c :: 0 <= c <= MAX_NUM_OF_CHANNELS ==>
              dirtyness[c] == Plus(old(dirtyness[c]), AboveWeight(list, idx, bound, c))
  {
    var loop := idx + 1;
    while loop <= idx + bound
      invariant idx < loop <= idx + bound + 1 && loop <= MAX_NUM_OF_CHANNELS
      invariant NoGap(list, idx, loop - 1)
      invariant forall c :: 0 <= c <= MAX_NUM_OF_CHANNELS ==>
                  dirtyness[c] == Plus(old(dirtyness[c]), if c < loop then AboveWeight(list, idx, bound, c) else 0)
    {
      if loop >= MAX_NUM_OF_CHANNELS { break; }
      if list[loop] > list[loop - 1] + 4 {
        assert forall c :: loop <= c < MAX_NUM_OF_CHANNELS ==> !NoGap(list, idx, c);
        break;
      }
      dirtyness[loop] := Plus(dirtyness[loop], (9 - (loop - idx)) * 4);
      loop := loop + 1;
    }
  }

  method AddBelow(dirtyness: array<ULong>, list: seq<nat>, idx: nat, bound: nat)
    requires dirtyness.Length == MAX_NUM_OF_CHANNELS + 1 && |list| == MAX_NUM_OF_CHANNELS
    requires idx < MAX_NUM_OF_CHANNELS && bound <= 8
    modifies dirtyness
    ensures forall c :: 0 <= c <= MAX_NUM_OF_CHANNELS ==>
              dirtyness[c] == Plus(old(dirtyness[c]), BelowWeight(list, idx, bound, c))
  {
    var loop := idx - 1;
    while loop >= idx - bound
      invariant -1 <= loop < idx && idx - bound - 1 <= loop
      invariant forall c :: 0 <= c <= MAX_NUM_OF_CHANNELS ==>
                  dirtyness[c] == Plus(old(dirtyness[c]), if c > loop then BelowWeight(list, idx, bound, c) else 0)
    {
      if loop < 0 { break; }
      if list[loop + 1] > list[loop] + 4 {
        loop := loop - 1;
        continue;
      }
      dirtyness[loop] := Plus(dirtyness[loop], (9 - (idx - loop)) * 4);
      loop := loop - 1;
    }
  }

  method FindChannel(list: seq<nat>, num: nat, channel: nat) returns (idx: nat)
    requires num <= |list|
    ensures idx == GetChIdx(list, num, channel, 0)
  {
    idx := 0;
    while idx < num
      invariant idx <= num && GetChIdx(list, num, channel, 0) == GetChIdx(list, num, channel, idx)
    {
      if channel == list[idx] { break; }
      idx := idx + 1;
    }
  }

  method AddBss(dirtyness: array<ULong>, list: seq<nat>, num: nat, b: Bss)
    requires dirtyness.Length == MAX_NUM_OF_CHANNELS + 1 && |list| == MAX_NUM_OF_CHANNELS && num < MAX_NUM_OF_CHANNELS
    modifies dirtyness
    ensures forall c :: 0 <= c <= MAX_NUM_OF_CHANNELS ==>
              dirtyness[c] == Plus(old(dirtyness[c]), Weight(list, num, b, c))
  {
    var idx := FindChannel(list, num, b.channel);
    dirtyness[idx] := Plus(dirtyness[idx], OwnWeight(b.rssi));
    AddAbove(dirtyness, list, idx, AboveBound(b));
    AddBelow(dirtyness, list, idx, BelowBound(b));
  }

  /** The dirtiness of every entry after all BSSs were added to `start`. */
  ghost predicate Dirtied(start: seq<ULong>, after: seq<ULong>, list: seq<nat>, num: nat, bsss: seq<Bss>)
    requires num <= |list|
  {
    && |start| == |after| == MAX_NUM_OF_CHANNELS + 1
    && forall c :: 0 <= c <= MAX_NUM_OF_CHANNELS ==>
         after[c] == (start[c] + Sum(list, num, bsss, c)) % ULONG_SIZE
  }

  /** ACS_UpdateDirtinessAll; the channel table keeps one entry in reserve. */
  method UpdateAll(dirtyness: array<ULong>, list: seq<nat>, num: nat, bsss: seq<Bss>)
    requires dirtyness.Length == MAX_NUM_OF_CHANNELS + 1 && |list| == MAX_NUM_OF_CHANNELS && num < MAX_NUM_OF_CHANNELS
    modifies dirtyness
    ensures Dirtied(old(dirtyness[..]), dirtyness[..], list, num, bsss)
  {
    ghost var start := dirtyness[..];
    NoneAdded(start, list, num, bsss);
    hide Dirtied, Weight, Plus;
    for i := 0 to |bsss|
      invariant Dirtied(start, dirtyness[..], list, num, bsss[..i])
    {
      ghost var before := dirtyness[..];
      AddBss(dirtyness, list, num, bsss[i]);
      OneAdded(start, before, dirtyness[..], list, num, bsss, i);
    }
    assert bsss[..|bsss|] == bsss;
  }

  lemma NoneAdded(start: seq<ULong>, list: seq<nat>, num: nat, bsss: seq<Bss>)
    requires num <= |list| && |start| == MAX_NUM_OF_CHANNELS + 1
    ensures Dirtied(start, start, list, num, bsss[..0])
  {
  }

  lemma OneAdded(start: seq<ULong>, before: seq<ULong>, after: seq<ULong>, list: seq<nat>, num: nat, bsss: seq<Bss>,
                 i: nat)
    requires num <= |list| && i < |bsss| && Dirtied(start, before, list, num, bsss[..i]) && |after| == |start|
    requires forall c :: 0 <= c <= MAX_NUM_OF_CHANNELS ==> after[c] == Plus(before[c], Weight(list, num, bsss[i], c))
    ensures Dirtied(start, after, list, num, bsss[..i + 1])
  {
    forall c: nat | c <= MAX_NUM_OF_CHANNELS
      ensures after[c] == (start[c] + Sum(list, num, bsss[..i + 1], c)) % ULONG_SIZE
    {
      NextSum(list, num, bsss, i, c, start[c]);
    }
  }

  lemma NextSum(list: seq<nat>, num: nat, bsss: seq<Bss>, i: nat, c: nat, start: nat)
    requires num <= |list| && i < |bsss|
    ensures (start + Sum(list, num, bsss[..i + 1], c)) % ULONG_SIZE ==
            Plus((start + Sum(list, num, bsss[..i], c)) % ULONG_SIZE, Weight(list, num, bsss[i], c))
  {
    assert bsss[..i + 1][..i] == bsss[..i];
    PlusIsMod(start + Sum(list, num, bsss[..i], c), Weight(list, num, bsss[i], c));
  }

  lemma PlusIsMod(a: nat, b: nat)
    requires b < ULONG_SIZE
    ensures Plus(a % ULONG_SIZE, b) == (a + b) % ULONG_SIZE
  {
  }

  // ---------------------------------------------------------------- order independence

  lemma {:induction false} SumRemoveAt(list: seq<nat>, num: nat, bsss: seq<Bss>, k: nat, c: nat)
    requires num <= |list| && k < |bsss|
    ensures Sum(list, num, bsss, c) == Sum(list, num, bsss[..k] + bsss[k + 1..], c) + Weight(list, num, bsss[k], c)
    decreases |bsss|
  {
    var n := |bsss| - 1;
    var rest := bsss[..k] + bsss[k + 1..];
    if k == n {
      assert rest == bsss[..n];
    } else {
      SumRemoveAt(list, num, bsss[..n], k, c);
      assert rest[..|rest| - 1] == bsss[..n][..k] + bsss[..n][k + 1..];
      assert rest[|rest| - 1] == bsss[n];
    }
  }

  /** The order of the BSS table does not matter. */
  lemma {:induction false} OrderDoesNotMatter(list: seq<nat>, num: nat, s: seq<Bss>, t: seq<Bss>, c: nat)
    requires num <= |list| && multiset(s) == multiset(t)
    ensures Sum(list, num, s, c) == Sum(list, num, t, c)
    decreases |s|
  {
    if s == [] {
      SameMembers(s, t);
    } else {
      var k := MatchLast(s, t);
      SumRemoveAt(list, num, t, k, c);
      OrderDoesNotMatter(list, num, s[..|s| - 1], t[..k] + t[k + 1..], c);
    }
  }

  // ---------------------------------------------------------------- channels that are not listed

  /**
   * The test for "not found" never fires: a BSS on a channel that is not listed is charged to the
   * entry behind the list, and dirties listed channels exactly when some channel within its reach
   * below has at most four channel numbers to the next entry.
   */
  lemma UnlistedDirtiesIff(list: seq<nat>, num: nat, b: Bss)
    requires |list| == MAX_NUM_OF_CHANNELS && num < MAX_NUM_OF_CHANNELS
    requires forall k :: 0 <= k < num ==> list[k] != b.channel
    ensures Weight(list, num, b, num) == OwnWeight(b.rssi)
    ensures (exists c :: 0 <= c < num && Weight(list, num, b, c) > 0) <==>
            (exists c :: 0 <= c < num <= c + BelowBound(b) && list[c + 1] <= list[c] + 4)
  {
    var idx := GetChIdx(list, num, b.channel, 0);
    assert idx == num;
    forall c | 0 <= c < num
      ensures Weight(list, num, b, c) > 0 <==> num <= c + BelowBound(b) && list[c + 1] <= list[c] + 4
    {
    }
  }

  // ---------------------------------------------------------------- the ranking that results

  lemma {:induction false} SumBounded(list: seq<nat>, num: nat, bsss: seq<Bss>, c: nat)
    requires num <= |list|
    ensures Sum(list, num, bsss, c) <= 50 * |bsss|
  {
    if bsss != [] {
      SumBounded(list, num, bsss[..|bsss| - 1], c);
    }
  }

  /** From a reset table, a BSS table of any length its one-byte counter allows stays exact. */
  lemma ResetIsExact(after: seq<ULong>, list: seq<nat>, num: nat, bsss: seq<Bss>, falseCCA: seq<nat>)
    requires |list| == MAX_NUM_OF_CHANNELS && num < MAX_NUM_OF_CHANNELS && |bsss| <= 255 && |falseCCA| > num
    requires Dirtied(seq(MAX_NUM_OF_CHANNELS + 1, _ => 0), after, list, num, bsss)
    ensures AllExact(Listed(list, after, falseCCA, num))
    ensures forall c :: 0 <= c <= MAX_NUM_OF_CHANNELS ==> after[c] == Sum(list, num, bsss, c)
  {
    forall c: nat | c <= MAX_NUM_OF_CHANNELS ensures after[c] == Sum(list, num, bsss, c) && after[c] <= INT_MAX {
      FromZero(after, list, num, bsss, c);
    }
    hide Dirtied, Exact, Sum;
    forall e | e in Listed(list, after, falseCCA, num) ensures Exact(e.dirtyness) {
      var k :| 0 <= k < num && Listed(list, after, falseCCA, num)[k] == e;
      ListedAt(list, after, falseCCA, num, k);
      SmallIsExact(e.dirtyness);
    }
  }

  lemma FromZero(after: seq<ULong>, list: seq<nat>, num: nat, bsss: seq<Bss>, c: nat)
    requires num <= |list| && |bsss| <= 255 && c <= MAX_NUM_OF_CHANNELS
    requires Dirtied(seq(MAX_NUM_OF_CHANNELS + 1, _ => 0), after, list, num, bsss)
    ensures after[c] == Sum(list, num, bsss, c) && after[c] <= INT_MAX
  {
    SumBounded(list, num, bsss, c);
  }

  lemma SmallIsExact(d: ULong)
    ensures d <= INT_MAX ==> Exact(d)
  {
  }

  /** ACS_PerformAlgorithm: dirtiness on top of what is there, then the ranking; after a reset it is exact. */
  method PerformAlgorithm(cfg: ApCfg, dirtyness: array<ULong>, list: seq<nat>, num: nat, bsss: seq<Bss>,
                          falseCCA: seq<nat>)
    returns (total: nat)
    requires cfg.rankList.Length == MAX_NUM_OF_CHANNELS && dirtyness.Length == MAX_NUM_OF_CHANNELS + 1
    requires |list| == MAX_NUM_OF_CHANNELS && num < MAX_NUM_OF_CHANNELS && |bsss| <= 255 && |falseCCA| > num
    modifies cfg, cfg.rankList, dirtyness
    ensures total == num
    ensures Dirtied(old(dirtyness[..]), dirtyness[..], list, num, bsss)
    ensures num > 0 ==>
              cfg.rankCount == num && IsRanking(cfg.rankList[..num], Listed(list, dirtyness[..], falseCCA, num))
    ensures old(dirtyness[..]) == seq(MAX_NUM_OF_CHANNELS + 1, _ => 0) ==>
              AllExact(Listed(list, dirtyness[..], falseCCA, num))
  {
    ghost var start := dirtyness[..];
    UpdateAll(dirtyness, list, num, bsss);
    ghost var after := dirtyness[..];
    if start == seq(MAX_NUM_OF_CHANNELS + 1, _ => 0) {
      ResetIsExact(after, list, num, bsss, falseCCA);
    }
    total := cfg.DoChannelRanking(list[..num], dirtyness[..], falseCCA);
    ListedPrefix(list, after, falseCCA, num, num);
  }

  lemma {:induction false} ListedPrefix(list: seq<nat>, dirtyness: seq<ULong>, falseCCA: seq<nat>, num: nat, n: nat)
    requires n <= num <= |list| && num <= |dirtyness| && num <= |falseCCA|
    ensures Listed(list[..num], dirtyness, falseCCA, n) == Listed(list, dirtyness, falseCCA, n)
  {
    if n > 0 {
      ListedPrefix(list, dirtyness, falseCCA, num, n - 1);
    }
  }
}
