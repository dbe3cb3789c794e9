/**
 * The published channel ranking: channels with few false-CCA events before the others, each
 * group sorted by dirtiness.
 */
module ChannelRanking {
  import opened ChannelSort
  import opened Multisets

  const MAX_NUM_OF_CHANNELS := 59
  const ACS_FALSECCA_THRESHOLD := 100

  predicate Quiet(e: Entry) {
    e.falseCCA <= ACS_FALSECCA_THRESHOLD
  }

  function Channels(es: seq<Entry>): (r: seq<nat>)
    ensures |r| == |es| && forall k :: 0 <= k < |es| ==> r[k] == es[k].ch
  {
    if es == [] then [] else Channels(es[..|es| - 1]) + [es[|es| - 1].ch]
  }

  /** The entries of one group, in list order. */
  function Group(es: seq<Entry>, quiet: bool): seq<Entry> {
    if es == [] then []
    else
      var (init, last) := (es[..|es| - 1], es[|es| - 1]);
      if Quiet(last) == quiet then Group(init, quiet) + [last] else Group(init, quiet)
  }

  lemma {:induction false} GroupMembers(es: seq<Entry>, quiet: bool)
    ensures forall e :: e in Group(es, quiet) <==> e in es && Quiet(e) == quiet
  {
    if es != [] {
      GroupMembers(es[..|es| - 1], quiet);
      assert es == es[..|es| - 1] + [es[|es| - 1]];
    }
  }

  lemma {:induction false} GroupsPartition(es: seq<Entry>)
    ensures multiset(Group(es, true)) + multiset(Group(es, false)) == multiset(es)
    ensures |Group(es, true)| + |Group(es, false)| == |es|
  {
    if es != [] {
      var init, last := es[..|es| - 1], es[|es| - 1];
      GroupsPartition(init);
      assert es == init + [last];
    }
  }

  /** Quiet channels first; within a group by dirtiness, when every dirtiness keeps its value as a pivot. */
  ghost predicate Ordered(es: seq<Entry>) {
    && (forall i, j :: 0 <= i < j < |es| ==> (Quiet(es[j]) ==> Quiet(es[i])))
    && (AllExact(es) ==> InGroupOrder(es))
  }

  predicate InGroupOrder(es: seq<Entry>) {
    forall i, j :: 0 <= i < j < |es| && Quiet(es[i]) == Quiet(es[j]) ==> es[i].dirtyness <= es[j].dirtyness
  }

  ghost predicate IsRanking(rank: seq<nat>, es: seq<Entry>) {
    exists order: seq<Entry> :: multiset(order) == multiset(es) && Ordered(order) && rank == Channels(order)
  }

  /** Each group sorted on its own, one after the other. */
  lemma GroupsRank(es: seq<Entry>, first: seq<Entry>, second: seq<Entry>)
    requires multiset(first) == multiset(Group(es, true)) && multiset(second) == multiset(Group(es, false))
    requires AllExact(Group(es, true)) ==> Sorted(first)
    requires AllExact(Group(es, false)) ==> Sorted(second)
    ensures IsRanking(Channels(first) + Channels(second), es)
  {
    hide Ordered, Quiet, Exact, Sorted, Group, Channels;
    var order := first + second;
    GroupsPartition(es);
    GroupMembers(es, true);
    GroupMembers(es, false);
    SameMembers(first, Group(es, true));
    SameMembers(second, Group(es, false));
    Membership(first, second);
    OrderedBy(order, first, second);
    assert multiset(order) == multiset(es) by { assert multiset(order) == multiset(first) + multiset(second); }
    assert Channels(order) == Channels(first) + Channels(second);
  }

  lemma Membership(first: seq<Entry>, second: seq<Entry>)
    requires forall e :: e in first ==> Quiet(e)
    requires forall e :: e in second ==> !Quiet(e)
    ensures (forall k :: 0 <= k < |first| ==> Quiet(first[k])) && (forall k :: 0 <= k < |second| ==> !Quiet(second[k]))
  {
  }

  lemma OrderedBy(order: seq<Entry>, first: seq<Entry>, second: seq<Entry>)
    requires order == first + second
    requires (forall k :: 0 <= k < |first| ==> Quiet(first[k])) && (forall k :: 0 <= k < |second| ==> !Quiet(second[k]))
    requires (AllExact(first) ==> Sorted(first)) && (AllExact(second) ==> Sorted(second))
    ensures Ordered(order)
  {
    if AllExact(order) {
      assert AllExact(first) && AllExact(second);
      forall i, j | 0 <= i < j < |order| && Quiet(order[i]) == Quiet(order[j])
        ensures order[i].dirtyness <= order[j].dirtyness
      {
        assert order[i] == if i < |first| then first[i] else second[i - |first|];
        assert order[j] == if j < |first| then first[j] else second[j - |first|];
      }
    }
  }

  /** What a ranking of distinct channels says about any two of them. */
  lemma RankingMeans(rank: seq<nat>, es: seq<Entry>, i: nat, j: nat, a: nat, b: nat)
    requires IsRanking(rank, es) && AllExact(es)
    requires forall p, q :: 0 <= p < q < |es| ==> es[p].ch != es[q].ch
    requires i < j < |rank| && a < |es| && b < |es| && es[a].ch == rank[i] && es[b].ch == rank[j]
    ensures es[b].falseCCA <= 100 ==> es[a].falseCCA <= 100
    ensures (es[a].falseCCA <= 100) == (es[b].falseCCA <= 100) ==> es[a].dirtyness <= es[b].dirtyness
  {
    hide Ordered, Exact;
    var order :| multiset(order) == multiset(es) && Ordered(order) && rank == Channels(order);
    SameMembers(order, es);
    Located(order, es, i, a);
    Located(order, es, j, b);
    InOrder(order, i, j);
  }

  lemma InOrder(order: seq<Entry>, i: nat, j: nat)
    requires Ordered(order) && AllExact(order) && i < j < |order|
    ensures Quiet(order[j]) ==> Quiet(order[i])
    ensures Quiet(order[i]) == Quiet(order[j]) ==> order[i].dirtyness <= order[j].dirtyness
  {
  }

  lemma Located(order: seq<Entry>, es: seq<Entry>, i: nat, a: nat)
    requires forall e :: e in order <==> e in es
    requires forall p, q :: 0 <= p < q < |es| ==> es[p].ch != es[q].ch
    requires i < |order| && a < |es| && es[a].ch == order[i].ch
    ensures order[i] == es[a]
  {
    assert order[i] in es;
  }

  lemma ChannelsRemoveAt(t: seq<Entry>, k: nat)
    requires k < |t|
    ensures multiset(Channels(t)) == multiset(Channels(t[..k] + t[k + 1..])) + multiset{t[k].ch}
  {
    hide Channels;
    var c := Channels(t);
    RemoveAt(c, k);
    assert Channels(t[..k] + t[k + 1..]) == c[..k] + c[k + 1..];
  }

  /** Every listed channel is ranked, as often as it is listed. */
  lemma RankingIsPermutation(rank: seq<nat>, es: seq<Entry>)
    requires IsRanking(rank, es)
    ensures multiset(rank) == multiset(Channels(es))
  {
    var order :| multiset(order) == multiset(es) && Ordered(order) && rank == Channels(order);
    ChannelsPermute(order, es);
  }

  lemma {:induction false} ChannelsPermute(s: seq<Entry>, t: seq<Entry>)
    requires multiset(s) == multiset(t)
    ensures multiset(Channels(s)) == multiset(Channels(t))
    decreases |s|
  {
    if s == [] {
      SameMembers(s, t);
    } else {
      var n := |s| - 1;
      var k := MatchLast(s, t);
      ChannelsRemoveAt(s, n);
      ChannelsRemoveAt(t, k);
      assert s[..n] + s[n + 1..] == s[..n];
      ChannelsPermute(s[..n], t[..k] + t[k + 1..]);
    }
  }

  /** The channel list with its measurements, as ranking entries. */
  function Listed(channels: seq<nat>, dirtyness: seq<ULong>, falseCCA: seq<nat>, n: nat): (r: seq<Entry>)
    requires n <= |channels| && n <= |dirtyness| && n <= |falseCCA|
    ensures |r| == n
  {
    if n == 0 then []
    else
      Listed(channels, dirtyness, falseCCA, n - 1) + [Entry(channels[n - 1], dirtyness[n - 1], falseCCA[n - 1])]
  }

  lemma {:induction false} ListedAt(channels: seq<nat>, dirtyness: seq<ULong>, falseCCA: seq<nat>, n: nat, k: nat)
    requires k < n <= |channels| && n <= |dirtyness| && n <= |falseCCA|
    ensures Listed(channels, dirtyness, falseCCA, n)[k] == Entry(channels[k], dirtyness[k], falseCCA[k])
  {
    if k < n - 1 {
      ListedAt(channels, dirtyness, falseCCA, n - 1, k);
    }
  }

  method SortChannelByDirtiness(list: array<Entry>, len: nat) returns (r: int)
    requires len <= list.Length
    modifies list
    ensures multiset(list[..len]) == multiset(old(list[..len]))
    ensures AllExact(old(list[..len])) ==> Sorted(list[..len])
    ensures r == if len == 0 then -1 else 0
  {
    if len == 0 { return -1; }
    ghost var before := list[..];
    Sort(list, 0, len - 1);
    ghost var after := list[..];
    assert before[0..len] == before[..len] == old(list[..len]) && after[0..len] == after[..len] == list[..len];
    SegmentPermuted(before, after, 0, len);
    r := 0;
  }

  class ApCfg {
    const rankList: array<nat>
    var rankCount: nat

    constructor ()
      ensures rankList.Length == MAX_NUM_OF_CHANNELS && rankCount == 0 && fresh(rankList)
    {
      rankList := new nat[MAX_NUM_OF_CHANNELS](_ => 0);
      rankCount := 0;
    }

    /** ACS_UpdateRankList; nothing changes when both lists are empty or too long together. */
    method UpdateRankList(list1: array<Entry>, len1: nat, list2: array<Entry>, len2: nat) returns (r: int)
      requires rankList.Length == MAX_NUM_OF_CHANNELS && len1 <= list1.Length && len2 <= list2.Length
      modifies this, rankList
      ensures var rejected := len1 + len2 == 0 || len1 + len2 > MAX_NUM_OF_CHANNELS;
              && r == (if rejected then -1 else len1 + len2)
              && rankCount == (if rejected then old(rankCount) else len1 + len2)
              && rankList[..] ==
                 if rejected then old(rankList[..])
                 else Channels(list1[..len1]) + Channels(list2[..len2]) + old(rankList[..])[len1 + len2..]
    {
      if len1 + len2 == 0 || len1 + len2 > MAX_NUM_OF_CHANNELS { return -1; }
      ghost var before := rankList[..];
      rankCount := 0;
      CopyChannels(list1, len1, 0);
      rankCount := rankCount + len1;
      CopyChannels(list2, len2, len1);
      rankCount := rankCount + len2;
      ghost var (a, b) := (Channels(list1[..len1]), Channels(list2[..len2]));
      assert rankList[..] == a + b + before[len1 + len2..];
      r := rankCount;
    }

    method CopyChannels(list: array<Entry>, len: nat, at: nat)
      requires len <= list.Length && at + len <= rankList.Length
      modifies rankList
      ensures forall k :: 0 <= k < rankList.Length ==>
                rankList[k] == if at <= k < at + len then list[k - at].ch else old(rankList[k])
    {
      for idx := 0 to len
        invariant forall k :: 0 <= k < rankList.Length ==>
                    rankList[k] == if at <= k < at + idx then list[k - at].ch else old(rankList[k])
      {
        rankList[at + idx] := list[idx].ch;
      }
    }

    /** ACS_DoChannelRanking; with no channel at all the old rank list stays. */
    method DoChannelRanking(channels: seq<nat>, dirtyness: seq<ULong>, falseCCA: seq<nat>) returns (total: nat)
      requires rankList.Length == MAX_NUM_OF_CHANNELS
      requires |channels| <= MAX_NUM_OF_CHANNELS && |channels| <= |dirtyness| && |channels| <= |falseCCA|
      modifies this, rankList
      ensures total == |channels|
      ensures total == 0 ==> rankCount == old(rankCount) && rankList[..] == old(rankList[..])
      ensures total > 0 ==>
                rankCount == total && IsRanking(rankList[..total], Listed(channels, dirtyness, falseCCA, total))
    {
      ghost var es := Listed(channels, dirtyness, falseCCA, |channels|);
      var list1, list2, n1, n2 := SortedGroups(channels, dirtyness, falseCCA);
      total := n1 + n2;
      ghost var rank := Channels(list1[..n1]) + Channels(list2[..n2]);
      var _ := UpdateRankList(list1, n1, list2, n2);
      assert total > 0 ==> rankList[..total] == rank;
    }
  }

  /** Both groups, each sorted if it is not empty. */
  method SortedGroups(channels: seq<nat>, dirtyness: seq<ULong>, falseCCA: seq<nat>)
    returns (list1: array<Entry>, list2: array<Entry>, n1: nat, n2: nat)
    requires |channels| <= MAX_NUM_OF_CHANNELS && |channels| <= |dirtyness| && |channels| <= |falseCCA|
    ensures fresh(list1) && fresh(list2)
    ensures n1 <= list1.Length && n2 <= list2.Length && n1 + n2 == |channels|
    ensures IsRanking(Channels(list1[..n1]) + Channels(list2[..n2]), Listed(channels, dirtyness, falseCCA, |channels|))
  {
    ghost var es := Listed(channels, dirtyness, falseCCA, |channels|);
    list1, list2, n1, n2 := SplitGroups(channels, dirtyness, falseCCA);
    GroupsPartition(es);
    if n1 > 0 {
      var _ := SortChannelByDirtiness(list1, n1);
    }
    ghost var first := list1[..n1];
    if n2 > 0 {
      var _ := SortChannelByDirtiness(list2, n2);
    }
    ghost var second := list2[..n2];
    assert list1[..n1] == first;
    GroupsRank(es, first, second);
  }

  method NewList() returns (list: array<Entry>)
    ensures fresh(list) && list.Length == MAX_NUM_OF_CHANNELS
  {
    list := new Entry[MAX_NUM_OF_CHANNELS](_ => Entry(0, 0, 0));
  }

  /** Distributes the channels over the two sort lists. */
  method SplitGroups(channels: seq<nat>, dirtyness: seq<ULong>, falseCCA: seq<nat>)
    returns (list1: array<Entry>, list2: array<Entry>, n1: nat, n2: nat)
    requires |channels| <= MAX_NUM_OF_CHANNELS && |channels| <= |dirtyness| && |channels| <= |falseCCA|
    ensures fresh(list1) && fresh(list2) && list1 != list2
    ensures n1 <= list1.Length && n2 <= list2.Length
    ensures list1[..n1] == GroupOf(channels, dirtyness, falseCCA, |channels|, true)
    ensures list2[..n2] == GroupOf(channels, dirtyness, falseCCA, |channels|, false)
  {
    list1 := NewList();
    list2 := NewList();
    n1, n2 := 0, 0;
    assert forall quiet :: GroupOf(channels, dirtyness, falseCCA, 0, quiet) == [];
    hide *;
    for idx := 0 to |channels|
      invariant n1 <= idx && n2 <= idx && list1.Length == list2.Length == MAX_NUM_OF_CHANNELS
      invariant list1[..n1] == GroupOf(channels, dirtyness, falseCCA, idx, true)
      invariant list2[..n2] == GroupOf(channels, dirtyness, falseCCA, idx, false)
    {
      NextListed(channels, dirtyness, falseCCA, idx);
      var e := Entry(channels[idx], dirtyness[idx], falseCCA[idx]);
      n1 := Put(list1, n1, e, falseCCA[idx] <= ACS_FALSECCA_THRESHOLD);
      n2 := Put(list2, n2, e, falseCCA[idx] > ACS_FALSECCA_THRESHOLD);
    }
  }

  /** Appends an entry to the list when it belongs there. */
  method Put(list: array<Entry>, n: nat, e: Entry, belongs: bool) returns (m: nat)
    requires n < list.Length
    modifies list
    ensures m <= n + 1 && list[..m] == old(list[..n]) + if belongs then [e] else []
  {
    m := n;
    if belongs {
      list[m] := e;
      m := m + 1;
    }
  }

  /** One group of the first `n` channels. */
  function GroupOf(channels: seq<nat>, dirtyness: seq<ULong>, falseCCA: seq<nat>, n: nat, quiet: bool): seq<Entry>
    requires n <= |channels| && n <= |dirtyness| && n <= |falseCCA|
  {
    Group(Listed(channels, dirtyness, falseCCA, n), quiet)
  }

  lemma NextListed(channels: seq<nat>, dirtyness: seq<ULong>, falseCCA: seq<nat>, n: nat)
    requires n < |channels| && n < |dirtyness| && n < |falseCCA|
    ensures var e := Entry(channels[n], dirtyness[n], falseCCA[n]);
            forall quiet :: GroupOf(channels, dirtyness, falseCCA, n + 1, quiet) ==
                            GroupOf(channels, dirtyness, falseCCA, n, quiet) +
                            if (falseCCA[n] <= ACS_FALSECCA_THRESHOLD) == quiet then [e] else []
  {
    var es := Listed(channels, dirtyness, falseCCA, n + 1);
    assert es[..n] == Listed(channels, dirtyness, falseCCA, n);
  }
}
