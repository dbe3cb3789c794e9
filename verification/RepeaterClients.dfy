/**
 * The client table of MAC repeater mode: fixed slots per AP-client interface, indexed twice,
 * by translated (current) and by original address. This module is the abstract table; class
 * RepeaterTable carries it out on slot arrays and linked chains.
 */
module RepeaterClients {
  import opened Common
  import opened BucketChains

  const MAX_EXT_MAC_ADDR_SIZE := 16

  datatype Client = Client(enable: bool, valid: bool, connectState: nat, original: Mac, current: Mac)

  datatype Repeater = Repeater(clients: seq<Client>, byCurrent: Chains, byOriginal: Chains, size: nat)

  // ---------------------------------------------------------------- operations

  const SPEC_ADDR: seq<seq<byte>> :=
    [[0x02, 0x0F, 0xB5], [0x02, 0x09, 0x5B], [0x02, 0x14, 0x6C],
     [0x02, 0x18, 0x4D], [0x02, 0x1B, 0x2F], [0x02, 0x1E, 0x2A]]

  function OuiIndex(addr: Mac, idx: nat): (r: nat)
    requires idx <= 6
    ensures idx <= r <= 6
    decreases 6 - idx
  {
    if idx == 6 || SPEC_ADDR[idx] == addr[..3] then idx else OuiIndex(addr, idx + 1)
  }

  /** The address under which the repeater speaks for a client. */
  function Translate(ouiMode: nat, ifAddr: Mac, addr: Mac): Mac {
    if ouiMode == 1 then addr
    else if ouiMode == 2 then
      var idx := OuiIndex(addr, 0);
      SPEC_ADDR[if idx < 5 then idx + 1 else 0] + addr[3..]
    else ifAddr[..3] + addr[3..]
  }

  datatype Scan = Duplicate | Free(cli: nat) | Full

  predicate Holds(c: Client, addr: Mac) {
    c.enable && (c.original == addr || c.current == addr)
  }

  /** The slot scan of an insert: it stops at the first disabled slot. */
  function ScanTable(table: seq<Client>, addr: Mac, i: nat): Scan
    requires i <= |table|
    decreases |table| - i
  {
    if i == |table| then Full
    else if Holds(table[i], addr) then Duplicate
    else if !table[i].enable then Free(i)
    else ScanTable(table, addr, i + 1)
  }

  function TableOf(r: Repeater, apidx: nat): seq<Client>
    requires (apidx + 1) * MAX_EXT_MAC_ADDR_SIZE <= |r.clients|
  {
    r.clients[apidx * MAX_EXT_MAC_ADDR_SIZE..(apidx + 1) * MAX_EXT_MAC_ADDR_SIZE]
  }

  predicate Shaped(r: Repeater) {
    |r.byCurrent| == HASH_TABLE_SIZE && |r.byOriginal| == HASH_TABLE_SIZE
  }

  /** Where an insert of `addr` on interface `apidx` goes, if anywhere. */
  function FreeSlot(r: Repeater, apidx: nat, addr: Mac): (slot: Option<nat>)
    requires (apidx + 1) * MAX_EXT_MAC_ADDR_SIZE <= |r.clients|
    ensures slot.Some? ==> slot.value < |r.clients| && !r.clients[slot.value].enable
  {
    var scan := ScanTable(TableOf(r, apidx), addr, 0);
    ScanBounds(TableOf(r, apidx), addr, 0);
    if scan.Free? then
      assert TableOf(r, apidx)[scan.cli] == r.clients[apidx * MAX_EXT_MAC_ADDR_SIZE + scan.cli];
      Some(apidx * MAX_EXT_MAC_ADDR_SIZE + scan.cli)
    else None
  }

  function InsertAt(r: Repeater, slot: nat, addr: Mac, current: Mac): Repeater
    requires Shaped(r) && slot < |r.clients|
  {
    Repeater(r.clients[slot := Client(true, false, 1, addr, current)],
             AppendTo(r.byCurrent, HashIndex(current), slot),
             AppendTo(r.byOriginal, HashIndex(addr), slot),
             (r.size + 1) % 0x100)
  }

  function Insert(r: Repeater, apidx: nat, up: bool, addr: Mac, current: Mac): (r': Repeater)
    requires Shaped(r) && (apidx + 1) * MAX_EXT_MAC_ADDR_SIZE <= |r.clients|
    ensures Shaped(r') && |r'.clients| == |r.clients|
  {
    if r.size >= MAX_EXT_MAC_ADDR_SIZE || !up then r
    else
      match FreeSlot(r, apidx, addr)
      case None => r
      case Some(slot) => InsertAt(r, slot, addr, current)
  }

  /** RTMPRemoveRepeaterEntry; the size counter is an unsigned byte. */
  function Remove(r: Repeater, slot: nat): Repeater
    requires Shaped(r) && slot < |r.clients|
  {
    var c := r.clients[slot];
    var cleared := r.clients[slot := c.(connectState := 0, original := ZERO_MAC_ADDR)];
    if slot in r.byCurrent[HashIndex(c.current)] then
      Repeater(cleared,
               RemoveFrom(r.byCurrent, HashIndex(c.current), slot),
               RemoveFrom(r.byOriginal, HashIndex(c.original), slot),
               (r.size - 1) % 0x100)
    else r.(clients := cleared)
  }

  /** The disconnect request that callers process just before a removal. */
  function Disable(r: Repeater, slot: nat): Repeater
    requires slot < |r.clients|
  {
    r.(clients := r.clients[slot := r.clients[slot].(enable := false, valid := false)])
  }

  function SetValid(r: Repeater, slot: nat, valid: bool): Repeater
    requires slot < |r.clients|
  {
    r.(clients := r.clients[slot := r.clients[slot].(valid := valid)])
  }

  // ---------------------------------------------------------------- the invariant

  /** Every slot of an index sits in the bucket of its key. */
  ghost predicate Placed(chains: Chains, clients: seq<Client>, key: Client -> Mac) {
    forall h, i {:trigger chains[h][i]} :: 0 <= h < |chains| && 0 <= i < |chains[h]| ==>
      chains[h][i] < |clients| && HashIndex(key(clients[chains[h][i]])) == h
  }

  function CurrentKey(): Client -> Mac { (c: Client) => c.current }
  function OriginalKey(): Client -> Mac { (c: Client) => c.original }

  /** Both indexes hold the same slots, in the right buckets, once; `ready` slots may be disabled. */
  ghost predicate ConsistentBut(r: Repeater, ready: set<nat>) {
    && Shaped(r)
    && Disjoint(r.byCurrent) && Disjoint(r.byOriginal)
    && Placed(r.byCurrent, r.clients, CurrentKey())
    && Placed(r.byOriginal, r.clients, OriginalKey())
    && (forall s: nat :: OnChain(r.byCurrent, s) <==> OnChain(r.byOriginal, s))
    && (forall s: nat :: OnChain(r.byCurrent, s) && s !in ready ==> s < |r.clients| && r.clients[s].enable)
    && r.size == TotalLength(r.byCurrent) == TotalLength(r.byOriginal)
    && r.size <= MAX_EXT_MAC_ADDR_SIZE
  }

  ghost predicate Consistent(r: Repeater) {
    ConsistentBut(r, {})
  }

  lemma {:induction false} ScanBounds(table: seq<Client>, addr: Mac, i: nat)
    requires i <= |table|
    ensures var scan := ScanTable(table, addr, i);
            scan.Free? ==> i <= scan.cli < |table| && !table[scan.cli].enable
    ensures var scan := ScanTable(table, addr, i);
            forall k :: i <= k < (if scan.Free? then scan.cli else if scan.Full? then |table| else i) ==>
              table[k].enable && !Holds(table[k], addr)
    decreases |table| - i
  {
    if i < |table| && !Holds(table[i], addr) && table[i].enable {
      ScanBounds(table, addr, i + 1);
    }
  }

  lemma AppendedOnChain(chains: Chains, h: nat, s: nat)
    requires h < |chains|
    ensures forall t: nat :: OnChain(AppendTo(chains, h, s), t) <==> t == s || OnChain(chains, t)
  {
    var after := AppendTo(chains, h, s);
    forall g | 0 <= g < |chains|
      ensures forall t: nat :: t in after[g] <==> (g == h && t == s) || t in chains[g]
    {
    }
    assert s in after[h];
  }

  lemma RemovedOnChain(chains: Chains, h: nat, s: nat)
    requires h < |chains| && Disjoint(chains)
    requires OnChain(chains, s) ==> s in chains[h]
    ensures forall t: nat :: OnChain(RemoveFrom(chains, h, s), t) <==> t != s && OnChain(chains, t)
  {
    RemoveFromEffect(chains, h, s);
    var after := RemoveFrom(chains, h, s);
    forall g | 0 <= g < |chains|
      ensures forall t: nat :: t in after[g] <==> t != s && t in chains[g]
    {
      if g != h && s in chains[h] {
        var i :| 0 <= i < |chains[h]| && chains[h][i] == s;
        NotOnOther(chains, h, i, g);
      }
    }
  }

  /** A linked slot can only be found in the bucket of its key. */
  lemma OnlyInOwnBucket(chains: Chains, clients: seq<Client>, key: Client -> Mac, s: nat)
    requires Placed(chains, clients, key) && OnChain(chains, s) && |chains| == HASH_TABLE_SIZE
    ensures s < |clients| && s in chains[HashIndex(key(clients[s]))]
  {
    var h :| 0 <= h < |chains| && s in chains[h];
    var i :| 0 <= i < |chains[h]| && chains[h][i] == s;
  }

  /** What one index looks like after slot `s` was cut from the bucket `h` of its key. */
  lemma IndexAfterRemove(chains: Chains, clients: seq<Client>, clients': seq<Client>,
                         key: Client -> Mac, s: nat)
    requires |chains| == HASH_TABLE_SIZE && Placed(chains, clients, key) && Disjoint(chains)
    requires |clients'| == |clients| && s < |clients|
    requires forall t :: 0 <= t < |clients| && t != s ==> clients'[t] == clients[t]
    ensures var after := RemoveFrom(chains, HashIndex(key(clients[s])), s);
            && Disjoint(after) && Placed(after, clients', key)
            && (forall t: nat :: OnChain(after, t) <==> t != s && OnChain(chains, t))
            && TotalLength(after) == TotalLength(chains) - (if OnChain(chains, s) then 1 else 0)
  {
    var h := HashIndex(key(clients[s]));
    if OnChain(chains, s) { OnlyInOwnBucket(chains, clients, key, s); }
    RemoveFromEffect(chains, h, s);
    RemovedOnChain(chains, h, s);
    TotalLengthUpdate(chains, h, Without(chains[h], s));
    var after := RemoveFrom(chains, h, s);
    forall g, i | 0 <= g < |after| && 0 <= i < |after[g]|
      ensures after[g][i] < |clients'| && HashIndex(key(clients'[after[g][i]])) == g
    {
      assert after[g][i] in after[g] && OnChain(after, after[g][i]);
      assert after[g][i] in chains[g];
      var j :| 0 <= j < |chains[g]| && chains[g][j] == after[g][i];
    }
  }

  lemma {:induction false} LinkedMeansNonEmpty(chains: Chains, s: nat)
    requires OnChain(chains, s)
    ensures TotalLength(chains) > 0
  {
    if chains[0] == [] {
      var h :| 0 <= h < |chains| && s in chains[h];
      assert s in chains[1..][h - 1];
      LinkedMeansNonEmpty(chains[1..], s);
    }
  }

  // ---------------------------------------------------------------- every operation keeps it

  lemma InsertAtKeeps(r: Repeater, slot: nat, addr: Mac, current: Mac)
    requires Consistent(r) && slot < |r.clients| && !r.clients[slot].enable
    requires r.size < MAX_EXT_MAC_ADDR_SIZE
    ensures !OnChain(r.byCurrent, slot) && !OnChain(r.byOriginal, slot)
    ensures Consistent(InsertAt(r, slot, addr, current))
  {
    hide Disjoint, Placed, OnChain, TotalLength, HashIndex;
    var r' := InsertAt(r, slot, addr, current);
    AppendToEffect(r.byCurrent, HashIndex(current), slot);
    AppendToEffect(r.byOriginal, HashIndex(addr), slot);
    AppendedOnChain(r.byCurrent, HashIndex(current), slot);
    AppendedOnChain(r.byOriginal, HashIndex(addr), slot);
    TotalLengthUpdate(r.byCurrent, HashIndex(current), r.byCurrent[HashIndex(current)] + [slot]);
    TotalLengthUpdate(r.byOriginal, HashIndex(addr), r.byOriginal[HashIndex(addr)] + [slot]);
    PlacedAfterAppend(r.byCurrent, r.clients, r'.clients, CurrentKey(), HashIndex(current), slot);
    PlacedAfterAppend(r.byOriginal, r.clients, r'.clients, OriginalKey(), HashIndex(addr), slot);
  }

  lemma PlacedAfterAppend(chains: Chains, clients: seq<Client>, clients': seq<Client>,
                          key: Client -> Mac, h: nat, s: nat)
    requires Placed(chains, clients, key) && h < |chains| && !OnChain(chains, s)
    requires |clients'| == |clients| && s < |clients| && HashIndex(key(clients'[s])) == h
    requires forall t :: 0 <= t < |clients| && t != s ==> clients'[t] == clients[t]
    ensures Placed(AppendTo(chains, h, s), clients', key)
  {
    var after := AppendTo(chains, h, s);
    forall g, i | 0 <= g < |after| && 0 <= i < |after[g]|
      ensures after[g][i] < |clients'| && HashIndex(key(clients'[after[g][i]])) == g
    {
      if !(g == h && i == |chains[h]|) {
        assert after[g][i] == chains[g][i] && chains[g][i] in chains[g];
      }
    }
  }

  lemma InsertKeeps(r: Repeater, apidx: nat, up: bool, addr: Mac, current: Mac)
    requires Consistent(r) && (apidx + 1) * MAX_EXT_MAC_ADDR_SIZE <= |r.clients|
    ensures Consistent(Insert(r, apidx, up, addr, current))
  {
    var slot := FreeSlot(r, apidx, addr);
    if r.size < MAX_EXT_MAC_ADDR_SIZE && up && slot.Some? {
      InsertAtKeeps(r, slot.value, addr, current);
    }
  }

  /** Removal works after the disconnect was processed, and also when it was dropped. */
  lemma RemoveKeeps(r: Repeater, slot: nat)
    requires ConsistentBut(r, {slot}) && slot < |r.clients|
    ensures Consistent(Remove(r, slot))
    ensures !OnChain(Remove(r, slot).byCurrent, slot)
    ensures Remove(r, slot).size == r.size - (if OnChain(r.byCurrent, slot) then 1 else 0)
  {
    hide Disjoint, Placed, OnChain, TotalLength, HashIndex;
    var c, r' := r.clients[slot], Remove(r, slot);
    var h, g := HashIndex(c.current), HashIndex(c.original);
    IndexAfterRemove(r.byCurrent, r.clients, r'.clients, CurrentKey(), slot);
    IndexAfterRemove(r.byOriginal, r.clients, r'.clients, OriginalKey(), slot);
    if OnChain(r.byCurrent, slot) {
      OnlyInOwnBucket(r.byCurrent, r.clients, CurrentKey(), slot);
      LinkedMeansNonEmpty(r.byCurrent, slot);
    } else {
      NotLinkedNotCut(r.byCurrent, h, slot);
      NotLinkedNotCut(r.byOriginal, g, slot);
    }
  }

  lemma NotLinkedNotCut(chains: Chains, h: nat, s: nat)
    requires h < |chains| && !OnChain(chains, s)
    ensures RemoveFrom(chains, h, s) == chains && s !in chains[h]
  {
    WithoutAbsent(chains[h], s);
  }

  /** Removing a slot twice: the second call touches neither chains nor the counter. */
  lemma SecondRemoveIsIdle(r: Repeater, slot: nat)
    requires ConsistentBut(r, {slot}) && slot < |r.clients|
    ensures var once := Remove(r, slot);
            var twice := Remove(once, slot);
            twice.byCurrent == once.byCurrent && twice.byOriginal == once.byOriginal && twice.size == once.size
  {
    RemoveKeeps(r, slot);
  }

  lemma FlagsKeep(r: Repeater, slot: nat, valid: bool)
    requires Consistent(r) && slot < |r.clients|
    ensures Consistent(SetValid(r, slot, valid))
    ensures ConsistentBut(Disable(r, slot), {slot})
  {
    hide Disjoint, Placed, OnChain, TotalLength, HashIndex;
    forall clients | clients == SetValid(r, slot, valid).clients || clients == Disable(r, slot).clients
      ensures Placed(r.byCurrent, clients, CurrentKey()) && Placed(r.byOriginal, clients, OriginalKey())
    {
      SameKeys(r.byCurrent, r.clients, clients, CurrentKey());
      SameKeys(r.byOriginal, r.clients, clients, OriginalKey());
    }
  }

  lemma SameKeys(chains: Chains, clients: seq<Client>, clients': seq<Client>, key: Client -> Mac)
    requires Placed(chains, clients, key) && |clients'| == |clients|
    requires forall t :: 0 <= t < |clients| ==> key(clients'[t]) == key(clients[t])
    ensures Placed(chains, clients', key)
  {
  }

  // ---------------------------------------------------------------- whole runs

  datatype Op =
    | OpInsert(apidx: nat, up: bool, ouiMode: nat, ifAddr: Mac, addr: Mac)
    | OpDown(slot: nat)            // disconnect request processed, then removal
    | OpRemove(slot: nat)          // removal alone: the disconnect request was dropped, or a repeat
    | OpSetValid(slot: nat, valid: bool)

  predicate InRange(op: Op, slots: nat) {
    match op
    case OpInsert(apidx, _, _, _, _) => (apidx + 1) * MAX_EXT_MAC_ADDR_SIZE <= slots
    case OpDown(slot) => slot < slots
    case OpRemove(slot) => slot < slots
    case OpSetValid(slot, _) => slot < slots
  }

  function Step(r: Repeater, op: Op): (r': Repeater)
    requires Shaped(r) && InRange(op, |r.clients|)
    ensures Shaped(r') && |r'.clients| == |r.clients|
  {
    match op
    case OpInsert(apidx, up, mode, ifAddr, addr) => Insert(r, apidx, up, addr, Translate(mode, ifAddr, addr))
    case OpDown(slot) => Remove(Disable(r, slot), slot)
    case OpRemove(slot) => Remove(r, slot)
    case OpSetValid(slot, valid) => SetValid(r, slot, valid)
  }

  function Initial(apclis: nat): Repeater {
    Repeater(seq(apclis * MAX_EXT_MAC_ADDR_SIZE, _ => Client(false, false, 0, ZERO_MAC_ADDR, ZERO_MAC_ADDR)),
             seq(HASH_TABLE_SIZE, _ => []), seq(HASH_TABLE_SIZE, _ => []), 0)
  }

  function Run(r: Repeater, ops: seq<Op>): (r': Repeater)
    requires Shaped(r) && forall op :: op in ops ==> InRange(op, |r.clients|)
    ensures Shaped(r') && |r'.clients| == |r.clients|
    decreases |ops|
  {
    if ops == [] then r else Run(Step(r, ops[0]), ops[1..])
  }

  lemma StepKeeps(r: Repeater, op: Op)
    requires Consistent(r) && InRange(op, |r.clients|)
    ensures Consistent(Step(r, op))
  {
    match op
    case OpInsert(apidx, up, mode, ifAddr, addr) => InsertKeeps(r, apidx, up, addr, Translate(mode, ifAddr, addr));
    case OpDown(slot) => FlagsKeep(r, slot, false); RemoveKeeps(Disable(r, slot), slot);
    case OpRemove(slot) => RemoveKeeps(r, slot);
    case OpSetValid(slot, valid) => FlagsKeep(r, slot, valid);
  }

  lemma {:induction false} RunKeeps(r: Repeater, ops: seq<Op>)
    requires Consistent(r) && forall op :: op in ops ==> InRange(op, |r.clients|)
    ensures Consistent(Run(r, ops))
    decreases |ops|
  {
    if ops != [] {
      StepKeeps(r, ops[0]);
      RunKeeps(Step(r, ops[0]), ops[1..]);
    }
  }

  lemma {:induction false} EmptyTotal(chains: Chains)
    requires forall h :: 0 <= h < |chains| ==> chains[h] == []
    ensures TotalLength(chains) == 0
  {
    if chains != [] {
      EmptyTotal(chains[1..]);
    }
  }

  /** In every run, both indexes agree with the slots and with the counter. */
  lemma EveryRunIsConsistent(apclis: nat, ops: seq<Op>)
    requires forall op :: op in ops ==> InRange(op, apclis * MAX_EXT_MAC_ADDR_SIZE)
    ensures Consistent(Run(Initial(apclis), ops))
  {
    EmptyTotal(Initial(apclis).byCurrent);
    RunKeeps(Initial(apclis), ops);
  }

  /** A linked slot has exactly one position in each index, in the bucket of its address. */
  lemma LinkedExactlyOnce(r: Repeater, s: nat)
    requires Consistent(r) && OnChain(r.byCurrent, s)
    ensures s < |r.clients| && r.clients[s].enable
    ensures OnceIn(r.byCurrent, HashIndex(r.clients[s].current), s)
    ensures OnceIn(r.byOriginal, HashIndex(r.clients[s].original), s)
  {
    OnlyInOwnBucket(r.byCurrent, r.clients, CurrentKey(), s);
    OnlyInOwnBucket(r.byOriginal, r.clients, OriginalKey(), s);
    OnePosition(r.byCurrent, HashIndex(r.clients[s].current), s);
    OnePosition(r.byOriginal, HashIndex(r.clients[s].original), s);
    hide HashIndex, OnceIn;
  }

  /** Slot `s` has exactly one position in the whole index, on the chain of bucket `h`. */
  ghost predicate OnceIn(chains: Chains, h: nat, s: nat) {
    h < |chains| && exists i :: (0 <= i < |chains[h]| && chains[h][i] == s &&
      forall g, j :: 0 <= g < |chains| && 0 <= j < |chains[g]| && chains[g][j] == s ==> g == h && j == i)
  }

  lemma OnePosition(chains: Chains, h: nat, s: nat)
    requires Disjoint(chains) && h < |chains| && s in chains[h]
    requires forall g :: 0 <= g < |chains| && s in chains[g] ==> g == h
    ensures OnceIn(chains, h, s)
  {
    var i :| 0 <= i < |chains[h]| && chains[h][i] == s;
    forall g, j | 0 <= g < |chains| && 0 <= j < |chains[g]| && chains[g][j] == s ensures g == h && j == i {
      assert s in chains[g];
    }
  }

  // ---------------------------------------------------------------- addresses need not be unique

  /**
   * The duplicate test of an insert only looks at the slots before the first disabled one. An
   * accepted insert therefore leaves its address in two slots of the interface exactly when a
   * slot behind that first gap already held it.
   */
  lemma DuplicateIffBehindGap(r: Repeater, apidx: nat, addr: Mac, current: Mac)
    requires Consistent(r) && (apidx + 1) * MAX_EXT_MAC_ADDR_SIZE <= |r.clients|
    requires r.size < MAX_EXT_MAC_ADDR_SIZE && ScanTable(TableOf(r, apidx), addr, 0).Free?
    ensures var gap := ScanTable(TableOf(r, apidx), addr, 0).cli;
            var after := TableOf(Insert(r, apidx, true, addr, current), apidx);
            gap < |after| && Holds(after[gap], addr) &&
            ((exists k :: 0 <= k < |after| && k != gap && Holds(after[k], addr)) <==>
             (exists k :: gap < k < MAX_EXT_MAC_ADDR_SIZE && Holds(TableOf(r, apidx)[k], addr)))
  {
    var table := TableOf(r, apidx);
    ScanBounds(table, addr, 0);
    var gap := ScanTable(table, addr, 0).cli;
    var after := TableOf(Insert(r, apidx, true, addr, current), apidx);
    assert forall k :: 0 <= k < |after| && k != gap ==> after[k] == table[k];
  }

  /** An insert takes exactly this slot: the first disabled one of the interface, if none before it has the address. */
  predicate Takes(r: Repeater, apidx: nat, up: bool, addr: Mac, s: nat)
    requires (apidx + 1) * MAX_EXT_MAC_ADDR_SIZE <= |r.clients|
  {
    var base := apidx * MAX_EXT_MAC_ADDR_SIZE;
    && up && r.size < MAX_EXT_MAC_ADDR_SIZE && base <= s < base + MAX_EXT_MAC_ADDR_SIZE && !r.clients[s].enable
    && forall t :: base <= t < s ==>
         r.clients[t].enable && r.clients[t].original != addr && r.clients[t].current != addr
  }

  lemma TakesIff(r: Repeater, apidx: nat, addr: Mac, s: nat)
    requires (apidx + 1) * MAX_EXT_MAC_ADDR_SIZE <= |r.clients| && r.size < MAX_EXT_MAC_ADDR_SIZE
    ensures FreeSlot(r, apidx, addr) == Some(s) <==> Takes(r, apidx, true, addr, s)
  {
    var base, table := apidx * MAX_EXT_MAC_ADDR_SIZE, TableOf(r, apidx);
    var scan := ScanTable(table, addr, 0);
    ScanBounds(table, addr, 0);
    ScanStops(table, addr, 0);
    assert forall k :: 0 <= k < MAX_EXT_MAC_ADDR_SIZE ==> table[k] == r.clients[base + k];
    if Takes(r, apidx, true, addr, s) {
      assert forall k :: 0 <= k < s - base ==> table[k].enable && !Holds(table[k], addr);
    }
    if s >= base && scan == Free(s - base) {
      forall t | base <= t < s
        ensures r.clients[t].enable && r.clients[t].original != addr && r.clients[t].current != addr
      {
        assert !Holds(table[t - base], addr);
      }
    }
  }

  /** The scan ends at the first slot that is disabled or has the address. */
  lemma {:induction false} ScanStops(table: seq<Client>, addr: Mac, i: nat)
    requires i <= |table|
    ensures ScanTable(table, addr, i).Duplicate? ==>
              exists k :: i <= k < |table| && Holds(table[k], addr) && forall j :: i <= j < k ==> table[j].enable
    decreases |table| - i
  {
    if i < |table| && !Holds(table[i], addr) && table[i].enable { ScanStops(table, addr, i + 1); }
  }

  /** What an insert does, exactly: it links the slot it takes, as a new client, or nothing at all. */
  lemma InsertLinksIff(r: Repeater, apidx: nat, up: bool, addr: Mac, current: Mac, s: nat)
    requires Consistent(r) && (apidx + 1) * MAX_EXT_MAC_ADDR_SIZE <= |r.clients| && !OnChain(r.byCurrent, s)
    ensures var r' := Insert(r, apidx, up, addr, current);
            && (OnChain(r'.byCurrent, s) <==> Takes(r, apidx, up, addr, s))
            && (Takes(r, apidx, up, addr, s) ==> r'.clients == r.clients[s := Client(true, false, 1, addr, current)])
            && ((forall t: nat :: !Takes(r, apidx, up, addr, t)) ==> r' == r)
  {
    var slot := FreeSlot(r, apidx, addr);
    if up && r.size < MAX_EXT_MAC_ADDR_SIZE {
      forall t: nat ensures slot == Some(t) <==> Takes(r, apidx, up, addr, t) { TakesIff(r, apidx, addr, t); }
      hide Takes, FreeSlot, OnChain, HashIndex, Disjoint, Placed, AppendTo;
      if slot.Some? { AppendedOnChain(r.byCurrent, HashIndex(current), slot.value); }
    }
  }

  lemma InsertFree(r: Repeater, slot: nat, a: Mac)
    requires Consistent(r) && |r.clients| == MAX_EXT_MAC_ADDR_SIZE && r.size < MAX_EXT_MAC_ADDR_SIZE
    requires FreeSlot(r, 0, a) == Some(slot)
    ensures var r' := Step(r, OpInsert(0, true, 1, a, a));
            Consistent(r') && r'.clients == r.clients[slot := Client(true, false, 1, a, a)] &&
            r'.size == r.size + 1 && OnChain(r'.byCurrent, slot)
  {
    hide Disjoint, Placed, OnChain, TotalLength, HashIndex, AppendTo;
    InsertAtKeeps(r, slot, a, a);
    AppendedOnChain(r.byCurrent, HashIndex(a), slot);
  }

  lemma TwoClients(a: Mac, b: Mac)
    requires a != b
    ensures var r := Step(Step(Initial(1), OpInsert(0, true, 1, a, a)), OpInsert(0, true, 1, b, b));
            Consistent(r) && |r.clients| == MAX_EXT_MAC_ADDR_SIZE && r.size == 2 &&
            r.clients[0].enable && r.clients[1] == Client(true, false, 1, b, b) && OnChain(r.byCurrent, 0)
  {
    var r0 := Initial(1);
    EveryRunIsConsistent(1, []);
    InsertFree(r0, 0, a);
    var r1 := Step(r0, OpInsert(0, true, 1, a, a));
    assert ScanTable(TableOf(r1, 0), b, 1) == Free(1);
    AppendedOnChain(r1.byCurrent, HashIndex(b), 1);
    InsertFree(r1, 1, b);
  }

  lemma ReinsertIntoGap(r: Repeater, b: Mac)
    requires Consistent(r) && |r.clients| == MAX_EXT_MAC_ADDR_SIZE && r.size == 2
    requires r.clients[0].enable && r.clients[1] == Client(true, false, 1, b, b) && OnChain(r.byCurrent, 0)
    ensures var r' := Step(Step(r, OpDown(0)), OpInsert(0, true, 1, b, b));
            Consistent(r') && Holds(r'.clients[0], b) && Holds(r'.clients[1], b) && r'.size == 2
  {
    hide Disjoint, Placed, OnChain, TotalLength, HashIndex, AppendTo, RemoveFrom;
    FlagsKeep(r, 0, false);
    RemoveKeeps(Disable(r, 0), 0);
    var r3 := Step(r, OpDown(0));
    assert FreeSlot(r3, 0, b) == Some(0);
    InsertFree(r3, 0, b);
  }

  /** Two clients, the first leaves, the second is inserted again: it now occupies slots 0 and 1. */
  lemma DuplicateRun(a: Mac, b: Mac)
    requires a != b
    ensures var add := OpInsert(0, true, 1, b, b);
            var r2 := Step(Step(Initial(1), OpInsert(0, true, 1, a, a)), add);
            var r4 := Step(Step(r2, OpDown(0)), add);
            Consistent(r4) && Holds(r4.clients[0], b) && Holds(r4.clients[1], b) && r4.size == 2
  {
    TwoClients(a, b);
    ReinsertIntoGap(Step(Step(Initial(1), OpInsert(0, true, 1, a, a)), OpInsert(0, true, 1, b, b)), b);
  }
}
