/** Sequences that hold the same elements in different orders. */
module Multisets {
  lemma RemoveAt<T>(t: seq<T>, k: nat)
    requires k < |t|
    ensures multiset(t) == multiset(t[..k] + t[k + 1..]) + multiset{t[k]}
  {
    assert t == t[..k] + [t[k]] + t[k + 1..];
  }

  lemma IndexOf<T>(t: seq<T>, e: T) returns (k: nat)
    requires e in t
    ensures k < |t| && t[k] == e
  {
    k :| 0 <= k < |t| && t[k] == e;
  }

  lemma Uncons<T>(m: multiset<T>, n: multiset<T>, e: T)
    requires m + multiset{e} == n + multiset{e}
    ensures m == n
  {
    assert m == (m + multiset{e}) - multiset{e};
    assert n == (n + multiset{e}) - multiset{e};
  }

  lemma SameMembers<T>(s: seq<T>, t: seq<T>)
    requires multiset(s) == multiset(t)
    ensures |s| == |t| && forall e :: e in s <==> e in t
  {
    assert |multiset(s)| == |multiset(t)|;
    forall e ensures e in s <==> e in t {
      assert e in s <==> e in multiset(s);
      assert e in t <==> e in multiset(t);
    }
  }

  /** The last element of one order, located in the other: what remains are again two orders. */
  lemma MatchLast<T>(s: seq<T>, t: seq<T>) returns (k: nat)
    requires multiset(s) == multiset(t) && s != []
    ensures k < |t| && t[k] == s[|s| - 1]
    ensures multiset(s[..|s| - 1]) == multiset(t[..k] + t[k + 1..])
  {
    var n := |s| - 1;
    SameMembers(s, t);
    k := IndexOf(t, s[n]);
    RemoveAt(s, n);
    RemoveAt(t, k);
    assert s[..n] + s[n + 1..] == s[..n];
    Uncons(multiset(s[..n]), multiset(t[..k] + t[k + 1..]), s[n]);
  }
}
