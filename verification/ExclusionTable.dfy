/** The exclusion list in place: an entry array plus the links and heads of its hash index. */
module ExclusionTable {
  import opened Common
  import opened BucketChains
  import opened ExclusionList

  class ExclusionTable {
    const entries: array<Entry>
    const index: Buckets
    var size: nat

    ghost predicate Valid()
      reads this, entries, index, index.head, index.next
    {
      && index.Valid()
      && index.head.Length == HASH_TABLE_SIZE && index.next.Length == entries.Length == CAPACITY
    }

    ghost function State(): Exclusion
      reads this, entries, index
    {
      Exclusion(entries[..], index.chains, size)
    }

    constructor ()
      ensures Valid() && State() == Initial()
      ensures Consistent(State())
    {
      entries := new Entry[CAPACITY](_ => VACANT);
      index := new Buckets(HASH_TABLE_SIZE, CAPACITY);
      size := 0;
      new;
      assert State() == Initial() == Run([]);
    }

    /** RepeaterInvaildMacLookup: stop at the first entry of the bucket with this address. */
    method Lookup(addr: Mac) returns (found: bool)
      requires Valid() && Consistent(State())
      ensures found == Found(State(), addr)
    {
      var h := HashIndex(addr);
      InBucketMeansInRange(State(), h);
      var entry := index.head[h];
      ghost var chain := index.chains[h];
      ghost var i := 0;
      while entry != NULL && entries[entry].mac != addr
        invariant 0 <= i <= |chain| && entry == (if i < |chain| then chain[i] else NULL)
        invariant FirstMatch(entries[..], chain, addr, 0) == FirstMatch(entries[..], chain, addr, i)
        decreases |chain| - i
      {
        entry := index.next[entry];
        i := i + 1;
      }
      found := entry != NULL && entries[entry].inserted;
    }

    /** RTMPRepeaterInsertInvaildMacEntry. */
    method Insert(addr: Mac)
      requires Valid() && Consistent(State())
      modifies this`size, entries, index`chains, index.head, index.next
      ensures Valid() && State() == ExclusionList.Insert(old(State()), addr)
    {
      if size >= CAPACITY || addr == ZERO_MAC_ADDR {
        return;
      }
      ghost var before := State();
      NeverExhausted(before, addr);
      var idx := 0;
      while idx < CAPACITY && entries[idx].inserted
        invariant 0 <= idx <= CAPACITY
        invariant ScanEntries(before.entries, addr, 0) == ScanEntries(before.entries, addr, idx)
      {
        if entries[idx].mac == addr {
          return;
        }
        idx := idx + 1;
      }
      LinkIndexed(before, addr, idx);
      entries[idx] := Entry(addr, true);
      index.Append(HashIndex(addr), idx);
      size := size + 1;
    }

    /** Link-up: every network device that the lookup does not find is inserted. */
    method LinkUp(devices: seq<Mac>)
      requires Valid() && Consistent(State())
      modifies this`size, entries, index`chains, index.head, index.next
      ensures Valid() && Consistent(State())
      ensures State() == Step(old(State()), ExclusionList.LinkUp(devices))
    {
      hide HashIndex, Disjoint, Consistent, InsertAll, ExclusionList.Insert, Found;
      assert devices[0..] == devices;
      var i := 0;
      while i < |devices|
        invariant 0 <= i <= |devices| && Valid() && Consistent(State())
        invariant InsertAll(old(State()), devices) == InsertAll(State(), devices[i..])
      {
        GuardedInsertKeeps(State(), devices[i]);
        InsertAllNext(State(), devices, i);
        var found := Lookup(devices[i]);
        if !found {
          Insert(devices[i]);
        }
        i := i + 1;
      }
      AllInserted(State(), devices);
    }

    /** RTMPRepeaterRemoveInvaildMacEntry, called under the address stored in the slot. */
    method RemoveAt(idx: nat)
      requires Valid() && Consistent(State()) && idx < CAPACITY
      modifies this`size, entries, index`chains, index.head, index.next
      ensures Valid() && State() == Step(old(State()), RemoveOne(idx))
    {
      var addr := entries[idx].mac;
      if entries[idx].inserted {
        var found := index.Unlink(HashIndex(addr), idx);
        size := if size > 0 then size - 1 else 0xFF;
      }
      entries[idx] := VACANT;
    }

    /** Interface-down: clear all slots; nothing of the list is left. */
    method IfDown()
      requires Valid() && Consistent(State())
      modifies this`size, entries, index`chains, index.head, index.next
      ensures Valid() && State() == Initial()
    {
      hide HashIndex;
      TeardownEmpties(State());
      var idx := 0;
      while idx < CAPACITY
        invariant 0 <= idx <= CAPACITY && Valid() && Consistent(State())
        invariant TeardownFrom(State(), idx) == Initial()
      {
        RemoveKeeps(State(), idx);
        RemoveAt(idx);
        idx := idx + 1;
      }
    }
  }
}
