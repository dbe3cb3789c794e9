/**
 * Singly linked bucket chains over a fixed array of slots: `head` holds the bucket heads,
 * `next` holds the pNext link that is embedded in every slot. Every hash table of the
 * driver has this shape. A link is the index of a slot, or NULL.
 */
module BucketChains {

  const NULL := -1

  type Chains = seq<seq<nat>>

  /** `first` and the links in `next` spell out exactly the chain `c`. */
  ghost predicate IsChain(first: int, next: seq<int>, c: seq<nat>) {
    && first == (if c == [] then NULL else c[0])
    && forall i {:trigger c[i]} :: 0 <= i < |c| ==>
         && c[i] < |next|
         && next[c[i]] == (if i + 1 < |c| then c[i + 1] else NULL)
  }

  /** Heads and links together spell out all the chains. */
  ghost predicate Represents(head: seq<int>, next: seq<int>, chains: Chains) {
    && |head| == |chains|
    && forall h {:trigger chains[h]} :: 0 <= h < |chains| ==> IsChain(head[h], next, chains[h])
  }

  /** No slot occurs twice, neither on one chain nor on two. */
  ghost predicate Disjoint(chains: Chains) {
    forall h1, i1, h2, i2 {:trigger chains[h1][i1], chains[h2][i2]} ::
      (0 <= h1 < |chains| && 0 <= i1 < |chains[h1]| &&
       0 <= h2 < |chains| && 0 <= i2 < |chains[h2]| &&
       chains[h1][i1] == chains[h2][i2]) ==> h1 == h2 && i1 == i2
  }

  ghost predicate OnChain(chains: Chains, s: nat) {
    exists h :: 0 <= h < |chains| && s in chains[h]
  }

  /** A chain with one slot cut out of it. */
  function Without(c: seq<nat>, s: nat): seq<nat> {
    if c == [] then []
    else if c[0] == s then c[1..]
    else [c[0]] + Without(c[1..], s)
  }

  function AppendTo(chains: Chains, h: nat, s: nat): Chains
    requires h < |chains|
  {
    chains[h := chains[h] + [s]]
  }

  function RemoveFrom(chains: Chains, h: nat, s: nat): Chains
    requires h < |chains|
  {
    chains[h := Without(chains[h], s)]
  }

  lemma {:induction false} WithoutCuts(c: seq<nat>, i: nat)
    requires i < |c| && c[i] !in c[..i]
    ensures Without(c, c[i]) == c[..i] + c[i + 1..]
  {
    if i > 0 {
      assert c[0] in c[..i];
      assert c[1..][..i - 1] == c[1..i];
      WithoutCuts(c[1..], i - 1);
      assert c[..i] == [c[0]] + c[1..][..i - 1];
      assert c[1..][i..] == c[i + 1..];
    } else {
      assert c[..0] + c[1..] == c[1..];
    }
  }

  lemma {:induction false} WithoutAbsent(c: seq<nat>, s: nat)
    requires s !in c
    ensures Without(c, s) == c
  {
    if c != [] {
      WithoutAbsent(c[1..], s);
    }
  }

  function Cut(c: seq<nat>, i: nat): seq<nat>
    requires i < |c|
  {
    c[..i] + c[i + 1..]
  }

  lemma CutAt(c: seq<nat>, i: nat)
    requires i < |c|
    ensures |Cut(c, i)| == |c| - 1
    ensures forall k {:trigger Cut(c, i)[k]} :: 0 <= k < |c| - 1 ==> Cut(c, i)[k] == c[if k < i then k else k + 1]
  {
  }

  lemma CutMembers(c: seq<nat>, i: nat)
    requires i < |c| && forall j, k :: 0 <= j < k < |c| ==> c[j] != c[k]
    ensures forall t: nat :: t in Cut(c, i) <==> t != c[i] && t in c
  {
    CutAt(c, i);
    hide Cut;
    forall t: nat ensures t in Cut(c, i) <==> t != c[i] && t in c {
      if t in Cut(c, i) {
        var k :| 0 <= k < |c| - 1 && Cut(c, i)[k] == t;
        assert c[if k < i then k else k + 1] == t;
      }
      if t != c[i] && t in c {
        var k :| 0 <= k < |c| && c[k] == t;
        assert Cut(c, i)[if k < i then k else k - 1] == t;
      }
    }
  }

  /** On disjoint chains, cutting a slot removes that slot and nothing else, and keeps order. */
  lemma RemoveFromEffect(chains: Chains, h: nat, s: nat)
    requires h < |chains| && Disjoint(chains)
    ensures Disjoint(RemoveFrom(chains, h, s))
    ensures forall t: nat :: t in RemoveFrom(chains, h, s)[h] <==> t != s && t in chains[h]
    ensures |RemoveFrom(chains, h, s)[h]| == |chains[h]| - (if s in chains[h] then 1 else 0)
  {
    var c := chains[h];
    if s in c {
      var i :| 0 <= i < |c| && c[i] == s;
      NoTwin(chains, h, i);
      CutMembers(c, i);
      CutAt(c, i);
      CutKeepsDisjoint(chains, h, i);
    } else {
      WithoutAbsent(c, s);
      assert RemoveFrom(chains, h, s) == chains;
    }
  }

  lemma CutKeepsDisjoint(chains: Chains, h: nat, i: nat)
    requires h < |chains| && i < |chains[h]| && Disjoint(chains)
    ensures Disjoint(chains[h := Cut(chains[h], i)])
  {
    CutAt(chains[h], i);
    hide Cut;
    var after := chains[h := Cut(chains[h], i)];
    forall h1, i1, h2, i2 |
      0 <= h1 < |after| && 0 <= i1 < |after[h1]| && 0 <= h2 < |after| && 0 <= i2 < |after[h2]| &&
      after[h1][i1] == after[h2][i2]
      ensures h1 == h2 && i1 == i2
    {
      var j1 := if h1 == h && i1 >= i then i1 + 1 else i1;
      var j2 := if h2 == h && i2 >= i then i2 + 1 else i2;
      assert after[h1][i1] == chains[h1][j1] && after[h2][i2] == chains[h2][j2];
      assert chains[h1][j1] == chains[h2][j2];
    }
  }

  /** On disjoint chains the slot at position `i` has no earlier twin, so it is the one cut. */
  lemma NoTwin(chains: Chains, h: nat, i: nat)
    requires h < |chains| && i < |chains[h]| && Disjoint(chains)
    ensures forall j, k :: 0 <= j < k < |chains[h]| ==> chains[h][j] != chains[h][k]
    ensures Without(chains[h], chains[h][i]) == Cut(chains[h], i)
  {
    forall j, k | 0 <= j < k < |chains[h]| ensures chains[h][j] != chains[h][k] {}
    WithoutCuts(chains[h], i);
  }

  lemma NotOnOther(chains: Chains, h: nat, i: nat, g: nat)
    requires h < |chains| && i < |chains[h]| && g < |chains| && g != h && Disjoint(chains)
    ensures chains[h][i] !in chains[g]
  {
    forall k | 0 <= k < |chains[g]| ensures chains[g][k] != chains[h][i] {}
  }

  lemma AppendToEffect(chains: Chains, h: nat, s: nat)
    requires h < |chains| && Disjoint(chains) && !OnChain(chains, s)
    ensures Disjoint(AppendTo(chains, h, s))
    ensures forall t: nat :: t in AppendTo(chains, h, s)[h] <==> t == s || t in chains[h]
  {
    var after := AppendTo(chains, h, s);
    forall h1, i1, h2, i2 |
      0 <= h1 < |after| && 0 <= i1 < |after[h1]| && 0 <= h2 < |after| && 0 <= i2 < |after[h2]| &&
      after[h1][i1] == after[h2][i2]
      ensures h1 == h2 && i1 == i2
    {
      assert forall g, i :: 0 <= g < |chains| && 0 <= i < |chains[g]| ==> chains[g][i] in chains[g];
      if !(h1 == h && i1 == |chains[h]|) && !(h2 == h && i2 == |chains[h]|) {
        assert after[h1][i1] == chains[h1][i1] && after[h2][i2] == chains[h2][i2];
      }
    }
  }

  /** Writing the link of a slot that is not on a chain leaves that chain alone. */
  lemma WriteElsewhere(first: int, next: seq<int>, c: seq<nat>, at: nat, v: int)
    requires IsChain(first, next, c) && at < |next| && at !in c
    ensures IsChain(first, next[at := v], c)
  {
    assert forall k :: 0 <= k < |c| ==> c[k] in c;
  }

  /** Splicing position `i` out of a chain takes one pointer write: the head or the link before. */
  lemma Splice(first: int, next: seq<int>, c: seq<nat>, i: nat)
    requires IsChain(first, next, c) && i < |c|
    requires forall j, k :: 0 <= j < k < |c| ==> c[j] != c[k]
    ensures c[i] < |next| && (i > 0 ==> c[i - 1] < |next|)
    ensures IsChain(if i == 0 then next[c[i]] else first,
                    if i == 0 then next else next[c[i - 1] := next[c[i]]],
                    Cut(c, i))
  {
    CutAt(c, i);
    hide Cut;
    var next' := if i == 0 then next else next[c[i - 1] := next[c[i]]];
    forall k | 0 <= k < |c| - 1
      ensures Cut(c, i)[k] < |next'| && next'[Cut(c, i)[k]] == (if k + 2 < |c| then Cut(c, i)[k + 1] else NULL)
    {
      var k' := if k < i then k else k + 1;
      assert Cut(c, i)[k] == c[k'];
    }
  }

  /** The same write seen on the whole table: the other chains are untouched. */
  lemma SpliceKeepsTable(head: seq<int>, next: seq<int>, chains: Chains, h: nat, i: nat)
    requires Represents(head, next, chains) && Disjoint(chains)
    requires h < |chains| && i < |chains[h]|
    ensures chains[h][i] < |next| && (i > 0 ==> chains[h][i - 1] < |next|)
    ensures Represents(if i == 0 then head[h := next[chains[h][i]]] else head,
                       if i == 0 then next else next[chains[h][i - 1] := next[chains[h][i]]],
                       RemoveFrom(chains, h, chains[h][i]))
  {
    NoTwin(chains, h, i);
    Splice(head[h], next, chains[h], i);
    forall g | 0 <= g < |chains| && g != h
      ensures IsChain(head[g], if i == 0 then next else next[chains[h][i - 1] := next[chains[h][i]]], chains[g])
    {
      if i > 0 {
        NotOnOther(chains, h, i - 1, g);
        WriteElsewhere(head[g], next, chains[g], chains[h][i - 1], next[chains[h][i]]);
      }
    }
  }

  /** Hanging a fresh slot behind the tail of bucket `h`: one link cleared, one link written. */
  lemma AppendKeepsTable(head: seq<int>, next: seq<int>, chains: Chains, h: nat, s: nat)
    requires Represents(head, next, chains) && Disjoint(chains)
    requires h < |chains| && s < |next| && !OnChain(chains, s)
    ensures chains[h] != [] ==> chains[h][|chains[h]| - 1] < |next|
    ensures var c := chains[h];
            Represents(if c == [] then head[h := s] else head,
                       if c == [] then next[s := NULL] else next[s := NULL][c[|c| - 1] := s],
                       AppendTo(chains, h, s))
  {
    var c, cleared := chains[h], next[s := NULL];
    forall g | 0 <= g < |chains| ensures IsChain(head[g], cleared, chains[g]) {
      WriteElsewhere(head[g], next, chains[g], s, NULL);
    }
    if c != [] {
      var tail := c[|c| - 1];
      forall g | 0 <= g < |chains| && g != h
        ensures IsChain(head[g], cleared[tail := s], chains[g])
      {
        NotOnOther(chains, h, |c| - 1, g);
        WriteElsewhere(head[g], cleared, chains[g], tail, s);
      }
      NoTwin(chains, h, |c| - 1);
      assert s !in c;
      Grown(head[h], cleared, c, s);
    }
    hide IsChain;
  }

  /** Writing the link of the last slot lengthens its chain. */
  lemma Grown(first: int, next: seq<int>, c: seq<nat>, s: nat)
    requires IsChain(first, next, c) && c != [] && s < |next| && next[s] == NULL && s !in c
    requires forall i :: 0 <= i < |c| - 1 ==> c[i] != c[|c| - 1]
    ensures IsChain(first, next[c[|c| - 1] := s], c + [s])
  {
  }

  /** The total number of linked slots. */
  function TotalLength(chains: Chains): nat {
    if chains == [] then 0 else |chains[0]| + TotalLength(chains[1..])
  }

  lemma {:induction false} TotalLengthUpdate(chains: Chains, h: nat, c: seq<nat>)
    requires h < |chains|
    ensures TotalLength(chains[h := c]) == TotalLength(chains) - |chains[h]| + |c|
  {
    if h > 0 {
      assert chains[h := c][1..] == chains[1..][h - 1 := c];
      TotalLengthUpdate(chains[1..], h - 1, c);
    } else {
      assert chains[h := c][1..] == chains[1..];
    }
  }

  class Buckets {
    const head: array<int>
    const next: array<int>
    ghost var chains: Chains

    ghost predicate Valid()
      reads this, head, next
    {
      && head != next
      && |chains| == head.Length
      && Represents(head[..], next[..], chains)
      && Disjoint(chains)
    }

    constructor (buckets: nat, slots: nat)
      ensures Valid() && fresh(head) && fresh(next)
      ensures head.Length == buckets && next.Length == slots
      ensures chains == seq(buckets, _ => [])
    {
      head := new int[buckets](_ => NULL);
      next := new int[slots](_ => NULL);
      chains := seq(buckets, _ => []);
    }

    /** Walk to the tail of bucket `h` and hang slot `s` there. */
    method Append(h: nat, s: nat)
      requires Valid() && h < head.Length && s < next.Length && !OnChain(chains, s)
      modifies this`chains, head, next
      ensures Valid() && chains == AppendTo(old(chains), h, s)
    {
      AppendToEffect(chains, h, s);
      AppendKeepsTable(head[..], next[..], chains, h, s);
      assert IsChain(head[h], next[..], chains[h]) && s !in chains[h];
      next[s] := NULL;
      if head[h] == NULL {
        head[h] := s;
      } else {
        var cur := head[h];
        ghost var i := 0;
        while next[cur] != NULL
          invariant 0 <= i < |chains[h]| && cur == chains[h][i]
          invariant next[..] == old(next[..])[s := NULL] && head[..] == old(head[..])
          decreases |chains[h]| - i
        {
          cur := next[cur];
          i := i + 1;
        }
        assert i == |chains[h]| - 1;
        next[cur] := s;
      }
      chains := AppendTo(chains, h, s);
    }

    /** Walk bucket `h` with a trailing pointer until slot `s` or the end of the chain. */
    method Probe(h: nat, s: nat) returns (prev: int, probe: int, ghost i: nat)
      requires Valid() && h < head.Length
      ensures i <= |chains[h]| && s !in chains[h][..i]
      ensures probe == if i < |chains[h]| then s else NULL
      ensures i < |chains[h]| ==> chains[h][i] == s
      ensures prev == if i == 0 then NULL else chains[h][i - 1]
    {
      prev, probe, i := NULL, head[h], 0;
      while probe != NULL && probe != s
        invariant 0 <= i <= |chains[h]| && s !in chains[h][..i]
        invariant probe == (if i < |chains[h]| then chains[h][i] else NULL)
        invariant prev == (if i == 0 then NULL else chains[h][i - 1])
        decreases |chains[h]| - i
      {
        assert chains[h][..i + 1] == chains[h][..i] + [chains[h][i]];
        prev, probe := probe, next[probe];
        i := i + 1;
      }
    }

    /** Splice slot `s` out of bucket `h` if it is on that chain. */
    method Unlink(h: nat, s: nat) returns (found: bool)
      requires Valid() && h < head.Length && s < next.Length
      modifies this`chains, head, next
      ensures Valid() && chains == RemoveFrom(old(chains), h, s)
      ensures found == (s in old(chains[h]))
    {
      var prev, probe, i := Probe(h, s);
      found := probe != NULL;
      RemoveFromEffect(chains, h, s);
      if found {
        SpliceKeepsTable(head[..], next[..], chains, h, i);
        if prev == NULL {
          head[h] := next[s];
        } else {
          next[prev] := next[s];
        }
      } else {
        assert chains[h][..i] == chains[h];
        WithoutAbsent(chains[h], s);
        assert RemoveFrom(chains, h, s) == chains;
      }
      chains := RemoveFrom(chains, h, s);
    }
  }
}
