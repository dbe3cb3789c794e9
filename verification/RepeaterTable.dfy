/** The repeater client table in place: slot arrays, two link arrays and two bucket arrays. */
module RepeaterTable {
  import opened Common
  import opened BucketChains
  import opened RepeaterClients

  lemma RemovedSubset(chains: Chains, h: nat, s: nat)
    requires h < |chains| && Disjoint(chains)
    ensures forall t: nat :: OnChain(RemoveFrom(chains, h, s), t) ==> OnChain(chains, t)
  {
    RemoveFromEffect(chains, h, s);
    assert forall g, t: nat :: 0 <= g < |chains| && t in RemoveFrom(chains, h, s)[g] ==> t in chains[g];
  }

  lemma DisabledIsFree(r: Repeater, s: nat)
    requires Consistent(r) && s < |r.clients| && !r.clients[s].enable
    ensures !OnChain(r.byCurrent, s) && !OnChain(r.byOriginal, s)
  {
  }

  /** A bucket without a valid client for its address: no linked client is one. */
  lemma NoneHolds(chains: Chains, clients: seq<Client>, key: Client -> Mac, addr: Mac)
    requires |chains| == HASH_TABLE_SIZE && Placed(chains, clients, key)
    requires forall j :: 0 <= j < |chains[HashIndex(addr)]| ==>
               var c := clients[chains[HashIndex(addr)][j]]; !(c.valid && key(c) == addr)
    ensures forall s: nat :: OnChain(chains, s) ==> s < |clients| && !(clients[s].valid && key(clients[s]) == addr)
  {
    forall s: nat | OnChain(chains, s) ensures s < |clients| && !(clients[s].valid && key(clients[s]) == addr) {
      OnlyInOwnBucket(chains, clients, key, s);
    }
  }

  lemma InBucket(chains: Chains, h: nat, i: nat)
    requires h < |chains| && i < |chains[h]|
    ensures OnChain(chains, chains[h][i])
  {
    assert chains[h][i] in chains[h];
  }

  class RepeaterTable {
    const apclis: nat
    const clients: array<Client>
    const byCurrent: Buckets       // ReptCliHash with REPEATER_CLIENT_ENTRY.pNext
    const byOriginal: Buckets      // ReptMapHash with REPEATER_CLIENT_ENTRY_MAP.pNext
    const mapClient: array<nat>    // REPEATER_CLIENT_ENTRY_MAP.pReptCliEntry
    var size: nat

    ghost predicate Separate()
      reads this, byCurrent, byOriginal
    {
      && byCurrent != byOriginal
      && byCurrent.head != byCurrent.next && byCurrent.head != byOriginal.head && byCurrent.head != byOriginal.next
      && byCurrent.next != byOriginal.head && byCurrent.next != byOriginal.next && byOriginal.head != byOriginal.next
      && byCurrent.head.Length == byOriginal.head.Length == HASH_TABLE_SIZE
      && byCurrent.next.Length == byOriginal.next.Length == clients.Length == mapClient.Length
      && clients.Length == apclis * MAX_EXT_MAC_ADDR_SIZE
    }

    ghost predicate Valid()
      reads this, clients, mapClient, byCurrent, byCurrent.head, byCurrent.next,
            byOriginal, byOriginal.head, byOriginal.next
    {
      && Separate()
      && byCurrent.Valid() && byOriginal.Valid()
      && (forall s :: 0 <= s < mapClient.Length && OnChain(byOriginal.chains, s) ==> mapClient[s] == s)
    }

    ghost function State(): Repeater
      reads this, clients, byCurrent, byOriginal
    {
      Repeater(clients[..], byCurrent.chains, byOriginal.chains, size)
    }

    constructor (apclis: nat)
      ensures Valid() && State() == Initial(apclis) && this.apclis == apclis
    {
      this.apclis := apclis;
      clients := new Client[apclis * MAX_EXT_MAC_ADDR_SIZE](_ => Client(false, false, 0, ZERO_MAC_ADDR, ZERO_MAC_ADDR));
      mapClient := new nat[apclis * MAX_EXT_MAC_ADDR_SIZE](_ => 0);
      byCurrent := new Buckets(HASH_TABLE_SIZE, apclis * MAX_EXT_MAC_ADDR_SIZE);
      byOriginal := new Buckets(HASH_TABLE_SIZE, apclis * MAX_EXT_MAC_ADDR_SIZE);
      size := 0;
    }

    /** The slot scan of an insert. */
    method FindSlot(apidx: nat, addr: Mac) returns (slot: Option<nat>)
      requires apidx < apclis && clients.Length == apclis * MAX_EXT_MAC_ADDR_SIZE
      ensures slot == FreeSlot(Repeater(clients[..], [], [], 0), apidx, addr)
    {
      var base := apidx * MAX_EXT_MAC_ADDR_SIZE;
      ghost var table := clients[base..base + MAX_EXT_MAC_ADDR_SIZE];
      assert table == TableOf(Repeater(clients[..], [], [], 0), apidx);
      var i := 0;
      while i < MAX_EXT_MAC_ADDR_SIZE
        invariant 0 <= i <= MAX_EXT_MAC_ADDR_SIZE
        invariant ScanTable(table, addr, 0) == ScanTable(table, addr, i)
      {
        assert table[i] == clients[base + i];
        var c := clients[base + i];
        if c.enable && (c.original == addr || c.current == addr) {
          return None;
        }
        if !c.enable {
          return Some(base + i);
        }
        i := i + 1;
      }
      slot := None;
    }

    /** Initialise slot `s` and hang it on both indexes. */
    method Link(s: nat, addr: Mac, current: Mac)
      requires Valid() && s < clients.Length
      requires !OnChain(byCurrent.chains, s) && !OnChain(byOriginal.chains, s)
      modifies this`size, clients, mapClient, byCurrent`chains, byCurrent.head, byCurrent.next,
               byOriginal`chains, byOriginal.head, byOriginal.next
      ensures Valid() && State() == InsertAt(old(State()), s, addr, current)
    {
      hide HashIndex, OnChain, Represents, Disjoint;
      ghost var before := byOriginal.chains;
      AppendedOnChain(before, HashIndex(addr), s);
      mapClient[s] := s;
      clients[s] := Client(true, false, 1, addr, current);
      byCurrent.Append(HashIndex(current), s);
      byOriginal.Append(HashIndex(addr), s);
      size := (size + 1) % 0x100;
    }

    method Insert(apidx: nat, up: bool, ouiMode: nat, ifAddr: Mac, addr: Mac)
      requires Valid() && Consistent(State()) && apidx < apclis
      modifies this`size, clients, mapClient, byCurrent`chains, byCurrent.head, byCurrent.next,
               byOriginal`chains, byOriginal.head, byOriginal.next
      ensures Valid()
      ensures State() == Step(old(State()), OpInsert(apidx, up, ouiMode, ifAddr, addr))
    {
      if size >= MAX_EXT_MAC_ADDR_SIZE || !up {
        return;
      }
      var slot := FindSlot(apidx, addr);
      assert slot == FreeSlot(State(), apidx, addr);
      if slot.Some? {
        DisabledIsFree(State(), slot.value);
        Link(slot.value, addr, Translate(ouiMode, ifAddr, addr));
      }
    }

    /** RTMPRemoveRepeaterEntry: splice the client out of both indexes, clear its slot. */
    method Remove(s: nat)
      requires Valid() && s < clients.Length
      modifies this`size, clients, byCurrent`chains, byCurrent.head, byCurrent.next,
               byOriginal`chains, byOriginal.head, byOriginal.next
      ensures Valid() && State() == RepeaterClients.Remove(old(State()), s)
    {
      hide HashIndex, OnChain, Disjoint, TotalLength, Represents;
      var c := clients[s];
      ghost var wasCurrent, wasOriginal := byCurrent.chains, byOriginal.chains;
      var found := byCurrent.Unlink(HashIndex(c.current), s);
      if found {
        RemovedSubset(wasOriginal, HashIndex(c.original), s);
        var mapFound := byOriginal.Unlink(HashIndex(c.original), s);
        size := (size - 1) % 0x100;
      } else {
        WithoutAbsent(wasCurrent[HashIndex(c.current)], s);
        assert byCurrent.chains == wasCurrent;
      }
      clients[s] := c.(connectState := 0, original := ZERO_MAC_ADDR);
    }

    /** A disconnect request for the client, processed, and then the removal. */
    method TakeDown(s: nat)
      requires Valid() && Consistent(State()) && s < clients.Length
      modifies this`size, clients, byCurrent`chains, byCurrent.head, byCurrent.next,
               byOriginal`chains, byOriginal.head, byOriginal.next
      ensures Valid() && Consistent(State())
      ensures State() == Step(old(State()), OpDown(s))
    {
      hide ConsistentBut, Buckets.Valid, OnChain;
      FlagsKeep(State(), s, false);
      RemoveKeeps(Disable(State(), s), s);
      ghost var disabled := Disable(State(), s);
      clients[s] := clients[s].(enable := false, valid := false);
      assert State() == disabled;
      Remove(s);
    }

    /** Lookup by original address, through the map entries. */
    method LookupOriginal(addr: Mac) returns (r: Option<nat>)
      requires Valid() && Consistent(State())
      ensures r.Some? ==>
                OnChain(State().byOriginal, r.value) && State().clients[r.value].valid &&
                State().clients[r.value].original == addr
      ensures r.None? ==>
                forall s: nat :: OnChain(State().byOriginal, s) && State().clients[s].valid ==>
                  State().clients[s].original != addr
    {
      hide Placed, HashIndex;
      var h := HashIndex(addr);
      var entry := byOriginal.head[h];
      ghost var chain := byOriginal.chains[h];
      ghost var i := 0;
      while entry != NULL
        invariant 0 <= i <= |chain| && entry == (if i < |chain| then chain[i] else NULL)
        invariant forall j :: 0 <= j < i ==> !(clients[chain[j]].valid && clients[chain[j]].original == addr)
        decreases |chain| - i
      {
        InBucket(byOriginal.chains, h, i);
        var s := mapClient[entry];
        if clients[s].valid && clients[s].original == addr {
          return Some(s);
        }
        entry := byOriginal.next[entry];
        i := i + 1;
      }
      r := None;
      NoneHolds(byOriginal.chains, clients[..], OriginalKey(), addr);
    }

    /** Lookup by translated address, through the client entries themselves. */
    method LookupCurrent(addr: Mac) returns (r: Option<nat>)
      requires Valid() && Consistent(State())
      ensures r.Some? ==>
                OnChain(State().byCurrent, r.value) && State().clients[r.value].valid &&
                State().clients[r.value].current == addr
      ensures r.None? ==>
                forall s: nat :: OnChain(State().byCurrent, s) && State().clients[s].valid ==>
                  State().clients[s].current != addr
    {
      hide Placed, HashIndex;
      var h := HashIndex(addr);
      var entry := byCurrent.head[h];
      ghost var chain := byCurrent.chains[h];
      ghost var i := 0;
      while entry != NULL
        invariant 0 <= i <= |chain| && entry == (if i < |chain| then chain[i] else NULL)
        invariant forall j :: 0 <= j < i ==> !(clients[chain[j]].valid && clients[chain[j]].current == addr)
        decreases |chain| - i
      {
        InBucket(byCurrent.chains, h, i);
        if clients[entry].valid && clients[entry].current == addr {
          return Some(entry);
        }
        entry := byCurrent.next[entry];
        i := i + 1;
      }
      r := None;
      NoneHolds(byCurrent.chains, clients[..], CurrentKey(), addr);
    }
  }
}
