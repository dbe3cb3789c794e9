/**
 * The list of addresses that must not trigger the repeater: 32 slots and one hash index.
 * First the list as a value with its laws, then class ExclusionTable, which updates it in place.
 */
module ExclusionList {
  import opened Common
  import opened BucketChains

  const CAPACITY := 32

  datatype Entry = Entry(mac: Mac, inserted: bool)
  datatype Exclusion = Exclusion(entries: seq<Entry>, index: Chains, size: nat)

  const VACANT := Entry(ZERO_MAC_ADDR, false)

  predicate Shaped(e: Exclusion) {
    |e.entries| == CAPACITY && |e.index| == HASH_TABLE_SIZE
  }

  function Initial(): Exclusion {
    Exclusion(seq(CAPACITY, _ => VACANT), seq(HASH_TABLE_SIZE, _ => []), 0)
  }

  datatype Scan = Present | Vacancy(idx: nat) | Exhausted

  function ScanEntries(entries: seq<Entry>, addr: Mac, i: nat): (scan: Scan)
    requires i <= |entries|
    ensures scan.Vacancy? ==> i <= scan.idx < |entries| && !entries[scan.idx].inserted
    ensures scan.Present? ==> exists k :: i <= k < |entries| && entries[k] == Entry(addr, true)
    ensures !scan.Present? ==>
              forall k :: i <= k < (if scan.Vacancy? then scan.idx else |entries|) ==>
                entries[k].inserted && entries[k].mac != addr
    decreases |entries| - i
  {
    if i == |entries| then Exhausted
    else if entries[i].mac == addr && entries[i].inserted then Present
    else if !entries[i].inserted then Vacancy(i)
    else ScanEntries(entries, addr, i + 1)
  }

  /** An insert. With all slots taken by other addresses the driver falls through its scan; here nothing changes. */
  function Insert(e: Exclusion, addr: Mac): Exclusion
    requires Shaped(e)
  {
    if e.size >= CAPACITY || addr == ZERO_MAC_ADDR then e
    else
      var scan := ScanEntries(e.entries, addr, 0);
      if scan.Vacancy? then
        Exclusion(e.entries[scan.idx := Entry(addr, true)],
                  AppendTo(e.index, HashIndex(addr), scan.idx), e.size + 1)
      else e
  }

  /** The position on the bucket chain of the first entry with this address. */
  function FirstMatch(entries: seq<Entry>, chain: seq<nat>, addr: Mac, i: nat): (r: Option<nat>)
    requires i <= |chain| && forall k :: 0 <= k < |chain| ==> chain[k] < |entries|
    ensures r.Some? ==> r.value in chain && entries[r.value].mac == addr
    ensures r.None? ==> forall k :: i <= k < |chain| ==> entries[chain[k]].mac != addr
    decreases |chain| - i
  {
    if i == |chain| then None
    else if entries[chain[i]].mac == addr then Some(chain[i])
    else FirstMatch(entries, chain, addr, i + 1)
  }

  /** The hash lookup: the first entry of the bucket with this address, if it is in use. */
  predicate Found(e: Exclusion, addr: Mac)
    requires Consistent(e)
  {
    InBucketMeansInRange(e, HashIndex(addr));
    var first := FirstMatch(e.entries, e.index[HashIndex(addr)], addr, 0);
    first.Some? && e.entries[first.value].inserted
  }

  /** What link-up does for one network device: insert unless the lookup finds it. */
  function GuardedInsert(e: Exclusion, addr: Mac): Exclusion
    requires Consistent(e)
  {
    if Found(e, addr) then e else Insert(e, addr)
  }

  function Remove(e: Exclusion, idx: nat, addr: Mac): Exclusion
    requires Shaped(e) && idx < CAPACITY
  {
    if e.entries[idx].inserted then
      Exclusion(e.entries[idx := VACANT], RemoveFrom(e.index, HashIndex(addr), idx),
                if e.size > 0 then e.size - 1 else 0xFF)
    else e.(entries := e.entries[idx := VACANT])
  }

  /** Interface-down clears the slots in order, each under its own address. */
  function TeardownFrom(e: Exclusion, idx: nat): Exclusion
    requires Shaped(e) && idx <= CAPACITY
    decreases CAPACITY - idx
  {
    if idx == CAPACITY then e else TeardownFrom(Remove(e, idx, e.entries[idx].mac), idx + 1)
  }

  // ---------------------------------------------------------------- the invariant

  function CountInserted(entries: seq<Entry>): nat {
    if entries == [] then 0 else (if entries[0].inserted then 1 else 0) + CountInserted(entries[1..])
  }

  predicate Placed(e: Exclusion)
  {
    forall h, i {:trigger e.index[h][i]} :: 0 <= h < |e.index| && 0 <= i < |e.index[h]| ==>
      e.index[h][i] < |e.entries| && HashIndex(e.entries[e.index[h][i]].mac) == h
      && e.entries[e.index[h][i]].inserted
  }

  predicate Distinct(entries: seq<Entry>) {
    forall i, j :: 0 <= i < j < |entries| && entries[i].inserted && entries[j].inserted ==>
      entries[i].mac != entries[j].mac
  }

  /** The index holds the occupied slots, each once, in the bucket of its address. */
  ghost predicate Indexed(e: Exclusion) {
    && Shaped(e) && Disjoint(e.index) && Placed(e)
    && forall s :: 0 <= s < CAPACITY && e.entries[s].inserted ==> s in e.index[HashIndex(e.entries[s].mac)]
  }

  /** No address twice, vacant slots are zeroed, the counter counts the occupied slots. */
  ghost predicate Tidy(e: Exclusion) {
    && Shaped(e) && Distinct(e.entries)
    && (forall s :: 0 <= s < CAPACITY ==> (e.entries[s].inserted <==> e.entries[s].mac != ZERO_MAC_ADDR))
    && e.size == CountInserted(e.entries)
  }

  ghost predicate Consistent(e: Exclusion) {
    Indexed(e) && Tidy(e)
  }

  /** The occupied slots form a prefix of the table. */
  predicate IsPrefix(entries: seq<Entry>) {
    forall i, j :: 0 <= i < j < |entries| && entries[j].inserted ==> entries[i].inserted
  }

  lemma InBucketMeansInRange(e: Exclusion, h: nat)
    requires Shaped(e) && Placed(e) && h < HASH_TABLE_SIZE
    ensures forall i :: 0 <= i < |e.index[h]| ==> e.index[h][i] < |e.entries|
  {
  }

  lemma {:induction false} CountUpdate(entries: seq<Entry>, i: nat, x: Entry)
    requires i < |entries|
    ensures CountInserted(entries[i := x]) ==
            CountInserted(entries) - (if entries[i].inserted then 1 else 0) + (if x.inserted then 1 else 0)
  {
    if i > 0 {
      assert entries[i := x][1..] == entries[1..][i - 1 := x];
      CountUpdate(entries[1..], i - 1, x);
    } else {
      assert entries[i := x][1..] == entries[1..];
    }
  }

  lemma {:induction false} CountFull(entries: seq<Entry>)
    ensures CountInserted(entries) <= |entries|
    ensures (forall k :: 0 <= k < |entries| ==> entries[k].inserted) ==> CountInserted(entries) == |entries|
    ensures (forall k :: 0 <= k < |entries| ==> !entries[k].inserted) ==> CountInserted(entries) == 0
  {
    if entries != [] {
      CountFull(entries[1..]);
      assert forall k :: 0 <= k < |entries| - 1 ==> entries[1..][k] == entries[k + 1];
    }
  }

  /** The fall-through at the end of the insert scan cannot be reached from a consistent list. */
  lemma NeverExhausted(e: Exclusion, addr: Mac)
    requires Consistent(e) && e.size < CAPACITY
    ensures !ScanEntries(e.entries, addr, 0).Exhausted?
  {
    CountFull(e.entries);
  }

  /** The hash lookup agrees with a scan of all slots. */
  lemma LookupIsLinearScan(e: Exclusion, addr: Mac)
    requires Consistent(e)
    ensures Found(e, addr) <==> exists k :: 0 <= k < CAPACITY && e.entries[k] == Entry(addr, true)
  {
    InBucketMeansInRange(e, HashIndex(addr));
    var chain := e.index[HashIndex(addr)];
    var first := FirstMatch(e.entries, chain, addr, 0);
    if first.Some? {
      var i :| 0 <= i < |chain| && chain[i] == first.value;
      assert e.entries[e.index[HashIndex(addr)][i]].inserted;
    } else {
      forall k | 0 <= k < CAPACITY ensures e.entries[k] != Entry(addr, true) {
        assert e.entries[k] == Entry(addr, true) ==> k in chain;
      }
    }
  }

  function Addresses(entries: seq<Entry>): set<Mac> {
    set k | 0 <= k < |entries| && entries[k].inserted :: entries[k].mac
  }

  function Members(e: Exclusion): set<Mac> {
    Addresses(e.entries)
  }

  // ---------------------------------------------------------------- every operation keeps it

  lemma LinkIndexed(e: Exclusion, addr: Mac, idx: nat)
    requires Shaped(e) && Indexed(e) && idx < CAPACITY && !e.entries[idx].inserted
    ensures !OnChain(e.index, idx)
    ensures Indexed(Exclusion(e.entries[idx := Entry(addr, true)],
                              AppendTo(e.index, HashIndex(addr), idx), e.size + 1))
  {
    AppendToEffect(e.index, HashIndex(addr), idx);
    var e' := Exclusion(e.entries[idx := Entry(addr, true)], AppendTo(e.index, HashIndex(addr), idx), e.size + 1);
    forall h, i | 0 <= h < |e'.index| && 0 <= i < |e'.index[h]|
      ensures e'.index[h][i] < |e'.entries| && HashIndex(e'.entries[e'.index[h][i]].mac) == h
              && e'.entries[e'.index[h][i]].inserted
    {
      if i < |e.index[h]| {
        assert e'.index[h][i] == e.index[h][i];
      }
    }
  }

  lemma InsertKeeps(e: Exclusion, addr: Mac)
    requires Consistent(e) && forall k :: 0 <= k < CAPACITY ==> e.entries[k] != Entry(addr, true)
    ensures Consistent(Insert(e, addr))
  {
    hide HashIndex;
    var scan := ScanEntries(e.entries, addr, 0);
    if e.size < CAPACITY && addr != ZERO_MAC_ADDR && scan.Vacancy? {
      LinkIndexed(e, addr, scan.idx);
      TidyAfterLink(e, addr, scan.idx);
    }
  }

  lemma InsertKeepsPrefix(e: Exclusion, addr: Mac)
    requires Shaped(e) && IsPrefix(e.entries)
    ensures IsPrefix(Insert(e, addr).entries)
  {
  }

  lemma GuardedInsertKeeps(e: Exclusion, addr: Mac)
    requires Consistent(e)
    ensures Consistent(GuardedInsert(e, addr))
    ensures IsPrefix(e.entries) ==> IsPrefix(GuardedInsert(e, addr).entries)
  {
    if !Found(e, addr) {
      LookupIsLinearScan(e, addr);
      InsertKeeps(e, addr);
      if IsPrefix(e.entries) { InsertKeepsPrefix(e, addr); }
    }
  }

  lemma TidyAfterLink(e: Exclusion, addr: Mac, idx: nat)
    requires Shaped(e) && Tidy(e) && idx < CAPACITY && !e.entries[idx].inserted && addr != ZERO_MAC_ADDR
    requires forall k :: 0 <= k < CAPACITY ==> e.entries[k] != Entry(addr, true)
    ensures Tidy(Exclusion(e.entries[idx := Entry(addr, true)],
                           AppendTo(e.index, HashIndex(addr), idx), e.size + 1))
  {
    CountUpdate(e.entries, idx, Entry(addr, true));
  }

  /** As a set of addresses: link-up adds a non-zero address as long as there is room. */
  lemma GuardedInsertAdds(e: Exclusion, addr: Mac)
    requires Consistent(e)
    ensures Members(GuardedInsert(e, addr)) ==
            Members(e) + (if addr != ZERO_MAC_ADDR && e.size < CAPACITY then {addr} else {})
  {
    LookupIsLinearScan(e, addr);
    if Found(e, addr) {
      assert addr in Members(e);
    } else if addr != ZERO_MAC_ADDR && e.size < CAPACITY {
      NeverExhausted(e, addr);
      MembersAfterWrite(e.entries, ScanEntries(e.entries, addr, 0).idx, addr);
    }
  }

  lemma MembersAfterWrite(entries: seq<Entry>, idx: nat, addr: Mac)
    requires idx < |entries| && !entries[idx].inserted
    ensures Addresses(entries[idx := Entry(addr, true)]) == Addresses(entries) + {addr}
  {
    var after := entries[idx := Entry(addr, true)];
    var old_, new_ := Addresses(entries), Addresses(after);
    forall m | m in old_ ensures m in new_ {
      var k :| 0 <= k < |entries| && entries[k].inserted && entries[k].mac == m;
      assert after[k].inserted && after[k].mac == m;
    }
    assert after[idx].inserted && after[idx].mac == addr;
  }

  lemma RemoveKeeps(e: Exclusion, idx: nat)
    requires Consistent(e) && idx < CAPACITY
    ensures var e' := Remove(e, idx, e.entries[idx].mac);
            Consistent(e') && e'.entries == e.entries[idx := VACANT]
  {
    hide HashIndex, Disjoint, Placed;
    var addr := e.entries[idx].mac;
    var e' := Remove(e, idx, addr);
    CountUpdate(e.entries, idx, VACANT);
    if e.entries[idx].inserted {
      RemoveFromEffect(e.index, HashIndex(addr), idx);
      CutFromIndex(e, idx);
    } else {
      assert e.entries[idx] == VACANT;
      assert e' == e;
    }
  }

  lemma CutFromIndex(e: Exclusion, idx: nat)
    requires Consistent(e) && idx < CAPACITY && e.entries[idx].inserted
    ensures Placed(Remove(e, idx, e.entries[idx].mac))
  {
    var g := HashIndex(e.entries[idx].mac);
    var e' := Remove(e, idx, e.entries[idx].mac);
    RemoveFromEffect(e.index, g, idx);
    forall h, i | 0 <= h < |e'.index| && 0 <= i < |e'.index[h]|
      ensures e'.index[h][i] < |e'.entries| && HashIndex(e'.entries[e'.index[h][i]].mac) == h
              && e'.entries[e'.index[h][i]].inserted
    {
      var s := e'.index[h][i];
      assert s in e'.index[h];
      assert s in e.index[h];
      var j :| 0 <= j < |e.index[h]| && e.index[h][j] == s;
      assert s != idx;
    }
  }

  lemma {:induction false} TeardownKeeps(e: Exclusion, idx: nat)
    requires Consistent(e) && idx <= CAPACITY
    requires forall k :: 0 <= k < idx ==> e.entries[k] == VACANT
    ensures Consistent(TeardownFrom(e, idx))
    ensures TeardownFrom(e, idx).entries == Initial().entries
    decreases CAPACITY - idx
  {
    if idx < CAPACITY {
      hide HashIndex, Disjoint, Placed;
      RemoveKeeps(e, idx);
      TeardownKeeps(Remove(e, idx, e.entries[idx].mac), idx + 1);
    }
  }

  lemma NonEmptyBucket(e: Exclusion, h: nat)
    requires Shaped(e) && Placed(e) && h < HASH_TABLE_SIZE && e.index[h] != []
    ensures exists k :: 0 <= k < CAPACITY && e.entries[k].inserted
  {
    assert e.entries[e.index[h][0]].inserted;
  }

  /** Interface-down empties the list: every slot, every bucket and the counter. */
  lemma TeardownEmpties(e: Exclusion)
    requires Consistent(e)
    ensures TeardownFrom(e, 0) == Initial()
  {
    TeardownKeeps(e, 0);
    var e' := TeardownFrom(e, 0);
    CountFull(e'.entries);
    forall h | 0 <= h < |e'.index| ensures e'.index[h] == [] {
      if e'.index[h] != [] { NonEmptyBucket(e', h); }
    }
  }

  // ---------------------------------------------------------------- whole runs

  datatype Op = LinkUp(devices: seq<Mac>) | IfDown | RemoveOne(idx: nat)

  function InsertAll(e: Exclusion, devices: seq<Mac>): Exclusion
    requires Consistent(e)
    decreases |devices|
  {
    if devices == [] then e
    else
      GuardedInsertKeeps(e, devices[0]);
      InsertAll(GuardedInsert(e, devices[0]), devices[1..])
  }

  lemma InsertAllNext(e: Exclusion, devices: seq<Mac>, i: nat)
    requires Consistent(e) && i < |devices|
    ensures Consistent(GuardedInsert(e, devices[i]))
    ensures InsertAll(e, devices[i..]) == InsertAll(GuardedInsert(e, devices[i]), devices[i + 1..])
  {
    GuardedInsertKeeps(e, devices[i]);
    hide Consistent, GuardedInsert;
    assert devices[i..][1..] == devices[i + 1..];
  }

  lemma AllInserted(e: Exclusion, devices: seq<Mac>)
    requires Consistent(e)
    ensures InsertAll(e, devices[|devices|..]) == e
  {
    hide Consistent, GuardedInsert;
  }

  function Step(e: Exclusion, op: Op): Exclusion
    requires Consistent(e) && (op.RemoveOne? ==> op.idx < CAPACITY)
  {
    match op
    case LinkUp(devices) => InsertAll(e, devices)
    case IfDown => TeardownFrom(e, 0)
    case RemoveOne(idx) => Remove(e, idx, e.entries[idx].mac)
  }

  lemma {:induction false} InsertAllKeeps(e: Exclusion, devices: seq<Mac>)
    requires Consistent(e)
    ensures Consistent(InsertAll(e, devices))
    ensures IsPrefix(e.entries) ==> IsPrefix(InsertAll(e, devices).entries)
    decreases |devices|
  {
    if devices != [] {
      GuardedInsertKeeps(e, devices[0]);
      InsertAllKeeps(GuardedInsert(e, devices[0]), devices[1..]);
    }
  }

  lemma StepKeeps(e: Exclusion, op: Op)
    requires Consistent(e) && (op.RemoveOne? ==> op.idx < CAPACITY)
    ensures Consistent(Step(e, op))
    ensures IsPrefix(e.entries) && !op.RemoveOne? ==> IsPrefix(Step(e, op).entries)
  {
    match op
    case LinkUp(devices) => InsertAllKeeps(e, devices);
    case IfDown => TeardownKeeps(e, 0);
    case RemoveOne(idx) => RemoveKeeps(e, idx);
  }

  lemma InitialIsConsistent()
    ensures Consistent(Initial())
  {
    CountFull(Initial().entries);
  }

  /** The states of the runs that start from the empty list. */
  function Run(ops: seq<Op>): (e: Exclusion)
    requires forall op :: op in ops && op.RemoveOne? ==> op.idx < CAPACITY
    ensures Consistent(e)
    decreases |ops|
  {
    if ops == [] then
      InitialIsConsistent();
      Initial()
    else
      var e := Run(ops[..|ops| - 1]);
      var op := ops[|ops| - 1];
      StepKeeps(e, op);
      Step(e, op)
  }

  /** With guarded inserts and whole-table teardown only, the occupied slots are a prefix of length `size`. */
  lemma {:induction false} EveryRunIsPrefix(ops: seq<Op>)
    requires forall op :: op in ops ==> !op.RemoveOne?
    ensures IsPrefix(Run(ops).entries)
    ensures forall k :: 0 <= k < CAPACITY ==> (Run(ops).entries[k].inserted <==> k < Run(ops).size)
    decreases |ops|
  {
    if ops != [] {
      EveryRunIsPrefix(ops[..|ops| - 1]);
      StepKeeps(Run(ops[..|ops| - 1]), ops[|ops| - 1]);
    }
    PrefixCount(Run(ops).entries);
  }

  lemma {:induction false} PrefixCount(entries: seq<Entry>)
    requires IsPrefix(entries)
    ensures forall k :: 0 <= k < |entries| ==> (entries[k].inserted <==> k < CountInserted(entries))
  {
    if entries != [] {
      if entries[0].inserted {
        assert IsPrefix(entries[1..]);
        PrefixCount(entries[1..]);
        assert forall k :: 1 <= k < |entries| ==> entries[k] == entries[1..][k - 1];
      } else {
        CountFull(entries);
      }
    }
  }
}
