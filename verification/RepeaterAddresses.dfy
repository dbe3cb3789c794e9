/** Under which addresses the repeater speaks for its clients, over whole runs. */
module RepeaterAddresses {
  import opened Common
  import opened BucketChains
  import opened RepeaterClients

  predicate FromVendor(a: Mac, i: int) {
    0 <= i < 6 && a[..3] == SPEC_ADDR[i]
  }

  /**
   * `spoken` stands for `addr` at an insert: the device's own three octets stay. Mode 1 keeps the vendor's
   * as well; mode 2 takes the listed vendor after the client's own, cyclically, or the first one for a
   * client of no listed vendor; any other takes the interface's.
   */
  ghost predicate StandsFor(spoken: Mac, mode: nat, ifAddr: Mac, addr: Mac) {
    && spoken[3..] == addr[3..]
    && (mode == 1 ==> spoken[..3] == addr[..3])
    && (mode == 2 ==>
          && (forall i :: FromVendor(addr, i) ==> FromVendor(spoken, (i + 1) % 6))
          && ((forall i :: !FromVendor(addr, i)) ==> FromVendor(spoken, 0)))
    && (mode != 1 && mode != 2 ==> spoken[..3] == ifAddr[..3])
  }

  lemma {:induction false} OuiIndexIs(addr: Mac, from: nat)
    requires from <= 6
    ensures var idx := OuiIndex(addr, from);
            (idx < 6 ==> FromVendor(addr, idx)) && forall i :: from <= i < idx ==> !FromVendor(addr, i)
    decreases 6 - from
  {
    if from < 6 && !FromVendor(addr, from) { OuiIndexIs(addr, from + 1); }
  }

  lemma VendorsDiffer(i: nat, j: nat)
    requires i < 6 && j < 6 && SPEC_ADDR[i] == SPEC_ADDR[j]
    ensures i == j
  {
    assert SPEC_ADDR[i][1] == SPEC_ADDR[j][1];
  }

  lemma TranslateStandsFor(mode: nat, ifAddr: Mac, addr: Mac)
    ensures StandsFor(Translate(mode, ifAddr, addr), mode, ifAddr, addr)
  {
    var spoken := Translate(mode, ifAddr, addr);
    assert spoken[3..] == addr[3..];
    if mode == 2 {
      OuiIndexIs(addr, 0);
      var idx := OuiIndex(addr, 0);
      assert spoken[..3] == SPEC_ADDR[if idx < 5 then idx + 1 else 0];
      forall i | FromVendor(addr, i) ensures FromVendor(spoken, (i + 1) % 6) {
        VendorsDiffer(i, idx);
      }
    }
  }

  /** The event an address pair goes back to: an insert on the client's interface. */
  ghost predicate GoesBackTo(op: Op, s: nat, c: Client) {
    op.OpInsert? && op.up && op.apidx == s / MAX_EXT_MAC_ADDR_SIZE && op.addr == c.original &&
    StandsFor(c.current, op.ouiMode, op.ifAddr, op.addr)
  }

  predicate SameAddresses(c: Client, d: Client) {
    c.original == d.original && c.current == d.current
  }

  lemma RemoveLinks(r: Repeater, slot: nat, s: nat)
    requires ConsistentBut(r, {slot}) && slot < |r.clients| && OnChain(Remove(r, slot).byCurrent, s)
    ensures OnChain(r.byCurrent, s) && s < |r.clients| && Remove(r, slot).clients[s] == r.clients[s]
  {
    RemoveKeeps(r, slot);
    IndexAfterRemove(r.byCurrent, r.clients, r.clients, CurrentKey(), slot);
    OnlyInOwnBucket(Remove(r, slot).byCurrent, Remove(r, slot).clients, CurrentKey(), s);
  }

  lemma InsertLinks(r: Repeater, op: Op, s: nat)
    requires Consistent(r) && InRange(op, |r.clients|) && op.OpInsert?
    requires OnChain(Step(r, op).byCurrent, s) && s < |r.clients|
    ensures (OnChain(r.byCurrent, s) && SameAddresses(Step(r, op).clients[s], r.clients[s])) ||
            GoesBackTo(op, s, Step(r, op).clients[s])
  {
    assert Shaped(r);
    hide ConsistentBut, OnChain, HashIndex, StandsFor, Translate, FreeSlot, AppendTo;
    var OpInsert(apidx, up, mode, ifAddr, addr) := op;
    var current, slot := Translate(mode, ifAddr, addr), FreeSlot(r, apidx, addr);
    TranslateStandsFor(mode, ifAddr, addr);
    if slot.Some? {
      FreeSlotIn(r, apidx, addr);
      AppendedOnChain(r.byCurrent, HashIndex(current), slot.value);
    }
  }

  /** A client linked after a step was linked before under the same addresses, or came with it. */
  lemma StepLinks(r: Repeater, op: Op, s: nat)
    requires Consistent(r) && InRange(op, |r.clients|) && OnChain(Step(r, op).byCurrent, s)
    ensures s < |r.clients|
    ensures (OnChain(r.byCurrent, s) && SameAddresses(Step(r, op).clients[s], r.clients[s])) ||
            GoesBackTo(op, s, Step(r, op).clients[s])
  {
    assert Shaped(r);
    hide ConsistentBut, OnChain, Insert, Remove, GoesBackTo;
    StepKeeps(r, op);
    LinkedInTable(Step(r, op), s);
    match op
    case OpInsert(_, _, _, _, _) => InsertLinks(r, op, s);
    case OpDown(slot) =>
      FlagsKeep(r, slot, false);
      RemoveLinks(Disable(r, slot), slot, s);
    case OpRemove(slot) =>
      assert ConsistentBut(r, {slot}) by { StillConsistent(r, slot); }
      RemoveLinks(r, slot, s);
    case OpSetValid(_, _) =>
  }

  lemma StillConsistent(r: Repeater, slot: nat)
    requires Consistent(r)
    ensures ConsistentBut(r, {slot})
  {
    hide Placed, OnChain, TotalLength, Disjoint;
  }

  lemma LinkedInTable(r: Repeater, s: nat)
    requires Consistent(r) && OnChain(r.byCurrent, s)
    ensures s < |r.clients|
  {
    OnlyInOwnBucket(r.byCurrent, r.clients, CurrentKey(), s);
  }

  lemma FreeSlotIn(r: Repeater, apidx: nat, addr: Mac)
    requires (apidx + 1) * MAX_EXT_MAC_ADDR_SIZE <= |r.clients| && FreeSlot(r, apidx, addr).Some?
    ensures FreeSlot(r, apidx, addr).value / MAX_EXT_MAC_ADDR_SIZE == apidx
  {
    ScanBounds(TableOf(r, apidx), addr, 0);
  }

  lemma {:induction false} LinkedInRun(r: Repeater, ops: seq<Op>, s: nat) returns (n: Option<nat>)
    requires Consistent(r) && forall op :: op in ops ==> InRange(op, |r.clients|)
    requires OnChain(Run(r, ops).byCurrent, s)
    ensures s < |r.clients|
    ensures n.None? ==> OnChain(r.byCurrent, s) && SameAddresses(Run(r, ops).clients[s], r.clients[s])
    ensures n.Some? ==> n.value < |ops| && GoesBackTo(ops[n.value], s, Run(r, ops).clients[s])
    decreases |ops|
  {
    n := None;
    if ops == [] {
      OnlyInOwnBucket(r.byCurrent, r.clients, CurrentKey(), s);
    } else {
      StepKeeps(r, ops[0]);
      n := LinkedInRun(Step(r, ops[0]), ops[1..], s);
      hide Step, Consistent, OnChain;
      if n.None? {
        StepLinks(r, ops[0], s);
        if GoesBackTo(ops[0], s, Step(r, ops[0]).clients[s]) { n := Some(0); }
      } else {
        n := Some(n.value + 1);
      }
    }
  }

  /** Every linked client goes back to an insert of the run, and speaks as that one said. */
  lemma LinkedGoesBack(apclis: nat, ops: seq<Op>, s: nat) returns (n: nat)
    requires forall op :: op in ops ==> InRange(op, apclis * MAX_EXT_MAC_ADDR_SIZE)
    requires OnChain(Run(Initial(apclis), ops).byCurrent, s)
    ensures s < |Run(Initial(apclis), ops).clients|
    ensures n < |ops| && GoesBackTo(ops[n], s, Run(Initial(apclis), ops).clients[s])
  {
    EveryRunIsConsistent(apclis, []);
    var m := LinkedInRun(Initial(apclis), ops, s);
    assert !OnChain(Initial(apclis).byCurrent, s);
    n := m.value;
  }

  /** All inserts on an interface are in the default mode, and its address is the same at all of them. */
  ghost predicate SameInterface(ops: seq<Op>, apidx: nat, ifAddr: Mac) {
    forall op :: op in ops && op.OpInsert? && op.apidx == apidx ==>
      op.ouiMode != 1 && op.ouiMode != 2 && op.ifAddr == ifAddr
  }

  lemma SplitAddress(a: Mac, b: Mac)
    requires a[..3] == b[..3] && a[3..] == b[3..]
    ensures a == b
  {
    assert a == a[..3] + a[3..] && b == b[..3] + b[3..];
  }

  /**
   * In the default mode two clients of one interface are spoken for under the same address exactly when
   * their own addresses differ in no more than the vendor's part.
   */
  lemma SameCurrentIff(apclis: nat, ops: seq<Op>, s: nat, t: nat, ifAddr: Mac)
    requires forall op :: op in ops ==> InRange(op, apclis * MAX_EXT_MAC_ADDR_SIZE)
    requires var r := Run(Initial(apclis), ops); OnChain(r.byCurrent, s) && OnChain(r.byCurrent, t)
    requires s / MAX_EXT_MAC_ADDR_SIZE == t / MAX_EXT_MAC_ADDR_SIZE
    requires SameInterface(ops, s / MAX_EXT_MAC_ADDR_SIZE, ifAddr)
    ensures var r := Run(Initial(apclis), ops);
            && s < |r.clients| && t < |r.clients|
            && r.clients[s].current == ifAddr[..3] + r.clients[s].original[3..]
            && (r.clients[s].current == r.clients[t].current <==>
                r.clients[s].original[3..] == r.clients[t].original[3..])
  {
    var n := LinkedGoesBack(apclis, ops, s);
    var m := LinkedGoesBack(apclis, ops, t);
    var r := Run(Initial(apclis), ops);
    assert ops[n] in ops && ops[m] in ops;
    hide Run, OnChain;
    SplitAddress(r.clients[s].current, ifAddr[..3] + r.clients[s].original[3..]);
    if r.clients[s].current[3..] == r.clients[t].current[3..] {
      SplitAddress(r.clients[s].current, r.clients[t].current);
    }
  }

  lemma InsertAtLinks(r: Repeater, slot: nat, a: Mac, current: Mac)
    requires Shaped(r) && slot < |r.clients|
    ensures var r' := InsertAt(r, slot, a, current);
            && OnChain(r'.byCurrent, slot)
            && (forall s: nat :: OnChain(r'.byCurrent, s) <==> s == slot || OnChain(r.byCurrent, s))
            && r'.clients == r.clients[slot := Client(true, false, 1, a, current)]
            && (r.size < MAX_EXT_MAC_ADDR_SIZE ==> r'.size == r.size + 1)
  {
    AppendedOnChain(r.byCurrent, HashIndex(current), slot);
    hide OnChain, HashIndex, AppendTo;
  }

  lemma StepIsInsertAt(r: Repeater, slot: nat, ifAddr: Mac, a: Mac)
    requires Shaped(r) && |r.clients| == MAX_EXT_MAC_ADDR_SIZE && Takes(r, 0, true, a, slot)
    ensures Step(r, OpInsert(0, true, 0, ifAddr, a)) == InsertAt(r, slot, a, ifAddr[..3] + a[3..])
    ensures slot < |r.clients| && r.size < MAX_EXT_MAC_ADDR_SIZE
  {
    TakesIff(r, 0, a, slot);
    hide InsertAt, FreeSlot;
  }

  /** An insert into the slot it takes, in the default mode. */
  lemma NextInsert(r: Repeater, slot: nat, ifAddr: Mac, a: Mac)
    requires Consistent(r) && |r.clients| == MAX_EXT_MAC_ADDR_SIZE && Takes(r, 0, true, a, slot)
    ensures Shaped(r)
    ensures var r' := Step(r, OpInsert(0, true, 0, ifAddr, a));
            && Consistent(r') && OnChain(r'.byCurrent, slot)
            && r'.clients == r.clients[slot := Client(true, false, 1, a, ifAddr[..3] + a[3..])]
            && (forall s: nat :: OnChain(r'.byCurrent, s) <==> s == slot || OnChain(r.byCurrent, s))
            && r'.size == r.size + 1
  {
    StepKeeps(r, OpInsert(0, true, 0, ifAddr, a));
    assert Shaped(r);
    hide ConsistentBut, Takes, OnChain, HashIndex, AppendTo, Step, InsertAt;
    StepIsInsertAt(r, slot, ifAddr, a);
    InsertAtLinks(r, slot, a, ifAddr[..3] + a[3..]);
  }

  lemma TwoInserts(r: Repeater, a: Mac, b: Mac, ifAddr: Mac)
    requires Consistent(r) && |r.clients| == MAX_EXT_MAC_ADDR_SIZE && r.size == 0
    requires !r.clients[0].enable && !r.clients[1].enable && !OnChain(r.byCurrent, 0) && !OnChain(r.byCurrent, 1)
    requires a != b && a[3..] == b[3..] && b[..3] != ifAddr[..3]
    ensures var r2 := Step(Step(r, OpInsert(0, true, 0, ifAddr, a)), OpInsert(0, true, 0, ifAddr, b));
            && OnChain(r2.byCurrent, 0) && OnChain(r2.byCurrent, 1) && |r2.clients| == MAX_EXT_MAC_ADDR_SIZE
            && r2.clients[0].original == a && r2.clients[1].original == b
            && r2.clients[0].current == r2.clients[1].current
  {
    assert Shaped(r) && Takes(r, 0, true, a, 0);
    hide ConsistentBut, OnChain, Insert, Translate;
    NextInsert(r, 0, ifAddr, a);
    var r1 := Step(r, OpInsert(0, true, 0, ifAddr, a));
    var current := ifAddr[..3] + a[3..];
    assert current[..3] == ifAddr[..3] && r1.clients[0] == Client(true, false, 1, a, current);
    assert Takes(r1, 0, true, b, 1);
    NextInsert(r1, 1, ifAddr, b);
    hide *;
  }

  /** A run in which they clash: two devices of different vendors, the same otherwise. */
  lemma ClashRun(a: Mac, b: Mac, ifAddr: Mac)
    requires a != b && a[3..] == b[3..] && b[..3] != ifAddr[..3]
    ensures var r := Step(Step(Initial(1), OpInsert(0, true, 0, ifAddr, a)), OpInsert(0, true, 0, ifAddr, b));
            && OnChain(r.byCurrent, 0) && OnChain(r.byCurrent, 1) && |r.clients| == MAX_EXT_MAC_ADDR_SIZE
            && r.clients[0].original == a && r.clients[1].original == b
            && r.clients[0].current == r.clients[1].current
  {
    EveryRunIsConsistent(1, []);
    TwoInserts(Initial(1), a, b, ifAddr);
  }
}
