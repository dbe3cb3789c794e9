/** Data frames over whole runs: which slots let them through. */
module StationSafety {
  import opened Common
  import opened Stations
  import opened StationRuns

  // ---------------------------------------------------------------- the state a slot is left with

  /** An authentication request that gets as far as needing an entry. */
  predicate Admits(ap: Ap, ev: Event) {
    && ev.AuthReq? && !ap.banned
    && var x := FindBss(ap.bsss, ev.bssid, 0);
       x < |ap.bsss| && ap.bsss[x].iface.Running? && Passes(ap.bsss[x].acl, ev.addr) &&
       if ev.alg.AlgOpen? then !ap.bsss[x].mode.Shared? else ap.bsss[x].mode.Shared? || ap.bsss[x].mode.AutoSwitch?
  }

  /** The step writes the state of slot `k` without giving it to a station. */
  predicate Touches(ap: Ap, ev: Event, k: nat)
    requires Shaped(ap)
  {
    match ev
    case AuthReq(bssid, a, _, full, _) =>
      Admits(ap, ev) && full && Kept(ap, bssid, a).1 == |ap.slots| && FirstFree(Kept(ap, bssid, a).0, 1) == k
    case AuthConfirm(w, bssid, a, wep, text) => w == k && OnAuthConfirm(ap, w, bssid, a, wep, text).reply == AuthOk(a)
    case _ => false
  }

  /** A request whose association is made and whose entry is removed at once, for its weak signal. */
  predicate WeaklyAssociates(ev: Event, a: Mac) {
    ev.AssocReq? && ev.addr == a && ev.sane && ev.acceptable && ev.weak
  }

  /** What a step leaves in a slot that is unused afterwards. */
  ghost predicate LeavesAssoc(ap: Ap, ev: Event, k: nat)
    requires Shaped(ap) && k < |ap.slots|
  {
    var s := ap.slots[k];
    && !Touches(ap, ev, k)
    && (s.sst == Assoc || (s.used && s.sst == Auth && WeaklyAssociates(ev, s.addr) && !ap.banned))
  }

  lemma AuthReqLeaves(ap: Ap, ev: Event, k: nat)
    requires Shaped(ap) && Distinct(ap.slots) && ev.AuthReq? && k < |ap.slots| && !Step(ap, ev).ap.slots[k].used
    ensures Step(ap, ev).ap.slots[k].sst == Assoc <==> LeavesAssoc(ap, ev, k)
  {
    hide Kept, FindBss, Passes, Distinct, Admitted, DeleteSlot, Effect, Present, Insert, FirstFree;
    var AuthReq(bssid, a, alg, full, text) := ev;
    var (slots, kept) := Kept(ap, bssid, a);
    KeptSst(ap, bssid, a, k);
    KeptIsEffect(ap, bssid, a);
    DeletedSst(slots, kept, k);
    var x := FindBss(ap.bsss, bssid, 0);
    AdmittedSst(slots, kept, a, x, full, k);
  }

  lemma KeptSst(ap: Ap, bssid: Mac, a: Mac, k: nat)
    requires Shaped(ap) && k < |ap.slots|
    ensures Kept(ap, bssid, a).0[k].sst == ap.slots[k].sst
  {
  }

  lemma DeletedSst(slots: seq<Station>, j: nat, k: nat)
    requires k < |slots|
    ensures |DeleteSlot(slots, j)| == |slots| && DeleteSlot(slots, j)[k].sst == slots[k].sst
  {
  }

  lemma AdmittedSst(slots: seq<Station>, kept: nat, a: Mac, x: nat, full: bool, k: nat)
    requires kept <= |slots| && k < |slots| && (kept < |slots| ==> slots[kept].used)
    ensures var (slots', j) := Admitted(slots, kept, a, x, full);
            && (j < |slots'| ==> slots'[j].used)
            && (j == k || slots'[k].sst ==
                          if kept == |slots| && full && FirstFree(slots, 1) == k then NotAuth else slots[k].sst)
  {
  }

  lemma AuthConfirmLeaves(ap: Ap, ev: Event, k: nat)
    requires Shaped(ap) && ev.AuthConfirm? && k < |ap.slots| && !Step(ap, ev).ap.slots[k].used
    ensures Step(ap, ev).ap.slots[k].sst == Assoc <==> LeavesAssoc(ap, ev, k)
  {
    hide FindBss;
  }

  lemma AssocReqLeaves(ap: Ap, ev: Event, k: nat)
    requires Shaped(ap) && Distinct(ap.slots) && ev.AssocReq? && k < |ap.slots| && !Step(ap, ev).ap.slots[k].used
    ensures Step(ap, ev).ap.slots[k].sst == Assoc <==> LeavesAssoc(ap, ev, k)
  {
    if Holds(ap.slots[k], ev.addr) { OthersDoNot(ap.slots, ev.addr, k); }
    hide Distinct, Passes, LeavesPort;
  }

  lemma StepLeaves(ap: Ap, ev: Event, k: nat)
    requires Shaped(ap) && InRange(ap, ev) && Distinct(ap.slots) && k < |ap.slots| && !Step(ap, ev).ap.slots[k].used
    ensures Step(ap, ev).ap.slots[k].sst == Assoc <==> LeavesAssoc(ap, ev, k)
  {
    match ev
    case AuthReq(_, _, _, _, _) => AuthReqLeaves(ap, ev, k); hide *;
    case AuthConfirm(_, _, _, _, _) => AuthConfirmLeaves(ap, ev, k); hide *;
    case AssocReq(_, _, _, _, _) => AssocReqLeaves(ap, ev, k); hide *;
    case ChangeAcl(x, acl) => PurgedSlots(ap.slots, x, acl, 0); hide Purged;
    case _ => hide OnAuthReq, OnAuthConfirm, OnAssocReq, Purged, Distinct, Admits;
  }

  /** After how many events slot `k` was last in use, unless its state was written since. */
  ghost function LastHeld(ap: Ap, evs: seq<Event>, k: nat): (n: Option<nat>)
    requires Shaped(ap) && AllInRange(ap, evs) && k < |ap.slots|
    ensures n.Some? ==> n.value <= |evs|
  {
    if Run(ap, evs).slots[k].used then Some(|evs|)
    else if evs == [] then None
    else
      var before := evs[..|evs| - 1];
      if Touches(Run(ap, before), evs[|evs| - 1], k) then None else LastHeld(ap, before, k)
  }

  /** Associated in the table: by its standing, or by a request refused for the list. */
  ghost predicate StandsAssociated(ap: Ap, evs: seq<Event>, a: Mac)
    requires Shaped(ap) && AllInRange(ap, evs)
  {
    OnlyRefused(ap, evs, a) || Standing(ap, evs, a) == Assoc
  }

  /** The station that held slot `k` after `n` events stood associated, or left by a weak association request. */
  ghost predicate LeftAssociated(ap: Ap, evs: seq<Event>, k: nat, n: nat)
    requires Shaped(ap) && AllInRange(ap, evs) && k < |ap.slots| && n <= |evs|
  {
    var t := Run(ap, evs[..n]);
    var a := t.slots[k].addr;
    StandsAssociated(ap, evs[..n], a) ||
    (n < |evs| && Standing(ap, evs[..n], a) == Auth && WeaklyAssociates(evs[n], a) && !t.banned)
  }

  lemma LeftBefore(ap: Ap, evs: seq<Event>, k: nat, n: nat)
    requires Shaped(ap) && AllInRange(ap, evs) && k < |ap.slots| && n < |evs| - 1
    ensures LeftAssociated(ap, evs, k, n) == LeftAssociated(ap, evs[..|evs| - 1], k, n)
  {
    hide Run, Standing, OnlyRefused;
    assert evs[..|evs| - 1][..n] == evs[..n];
  }

  /** Where the slot is in use. */
  lemma UsedSlotState(ap: Ap, evs: seq<Event>, k: nat)
    requires Initial(ap) && AllInRange(ap, evs) && HonestRun(ap, evs) && k < |ap.slots| && Run(ap, evs).slots[k].used
    ensures Run(ap, evs).slots[k].sst == Assoc <==> LeftAssociated(ap, evs, k, |evs|)
  {
    assert evs[..|evs|] == evs;
    var s := Run(ap, evs).slots[k];
    TableShowsStandingIff(ap, evs, s.addr);
    hide Run, Standing, OnlyRefused, HonestRun, AllInRange, Initial;
    assert Holds(s, s.addr);
  }

  /** Where the last step freed it. */
  lemma FreedSlotState(ap: Ap, evs: seq<Event>, k: nat)
    requires Initial(ap) && AllInRange(ap, evs) && HonestRun(ap, evs) && k < |ap.slots| && evs != []
    requires !Run(ap, evs).slots[k].used && Run(ap, evs[..|evs| - 1]).slots[k].used
    ensures var n := |evs| - 1;
            Run(ap, evs).slots[k].sst == Assoc <==>
            !Touches(Run(ap, evs[..n]), evs[n], k) && LeftAssociated(ap, evs, k, n)
  {
    var before, ev := evs[..|evs| - 1], evs[|evs| - 1];
    assert ev in evs;
    var t := Run(ap, before);
    EveryRunIsDistinct(ap, before);
    StepLeaves(t, ev, k);
    TableShowsStandingIff(ap, before, t.slots[k].addr);
    assert Holds(t.slots[k], t.slots[k].addr);
    assert Step(t, ev).ap == Run(ap, evs);
    hide Run, Standing, OnlyRefused, HonestRun, AllInRange, Initial, Touches, Step, Distinct;
  }

  /** Where it was free before. */
  lemma FreeSlotState(ap: Ap, evs: seq<Event>, k: nat)
    requires Initial(ap) && AllInRange(ap, evs) && k < |ap.slots| && evs != []
    requires !Run(ap, evs).slots[k].used && !Run(ap, evs[..|evs| - 1]).slots[k].used
    ensures var n := |evs| - 1;
            Run(ap, evs).slots[k].sst == Assoc <==>
            !Touches(Run(ap, evs[..n]), evs[n], k) && Run(ap, evs[..n]).slots[k].sst == Assoc
  {
    var before, ev := evs[..|evs| - 1], evs[|evs| - 1];
    assert ev in evs;
    EveryRunIsDistinct(ap, before);
    StepLeaves(Run(ap, before), ev, k);
    assert Step(Run(ap, before), ev).ap == Run(ap, evs);
    hide Run, AllInRange, Initial, Touches, Step, Distinct;
  }

  /** No station ever held slot `k`, and nothing wrote its state. */
  ghost predicate Untouched(ap: Ap, evs: seq<Event>, k: nat)
    requires Shaped(ap) && AllInRange(ap, evs) && k < |ap.slots|
  {
    !Run(ap, evs).slots[k].used &&
    (evs == [] ||
     var before := evs[..|evs| - 1];
     !Touches(Run(ap, before), evs[|evs| - 1], k) && Untouched(ap, before, k))
  }

  /**
   * The state of any slot after any run: what its holder, or its last holder, left in it. Slot 0 is
   * associated from the start, as the multicast entry.
   */
  lemma {:induction false} SlotStateIff(ap: Ap, evs: seq<Event>, k: nat)
    requires Initial(ap) && AllInRange(ap, evs) && HonestRun(ap, evs) && k < |ap.slots|
    ensures var n := LastHeld(ap, evs, k);
            Run(ap, evs).slots[k].sst == Assoc <==>
            (n.Some? && LeftAssociated(ap, evs, k, n.value)) || (k == 0 && Untouched(ap, evs, k))
  {
    if Run(ap, evs).slots[k].used {
      UsedSlotState(ap, evs, k);
      hide Run, LeftAssociated, HonestRun, AllInRange, Initial, Touches;
    } else if evs == [] {
      hide LeftAssociated, HonestRun, AllInRange, Touches;
    } else {
      var before := evs[..|evs| - 1];
      if Run(ap, before).slots[k].used {
        FreedSlotState(ap, evs, k);
        FreedIsTouched(ap, evs, k);
      } else {
        FreeSlotState(ap, evs, k);
        SlotStateIff(ap, before, k);
        LastHeldWasUsed(ap, before, k);
        var n := LastHeld(ap, before, k);
        if n.Some? { LeftBefore(ap, evs, k, n.value); }
      }
      hide Run, LeftAssociated, Touches, HonestRun, AllInRange, Initial;
    }
  }

  lemma FreedIsTouched(ap: Ap, evs: seq<Event>, k: nat)
    requires Shaped(ap) && AllInRange(ap, evs) && k < |ap.slots| && evs != []
    requires Run(ap, evs[..|evs| - 1]).slots[k].used
    ensures !Untouched(ap, evs, k)
  {
    hide Run, Touches;
  }

  lemma {:induction false} LastHeldWasUsed(ap: Ap, evs: seq<Event>, k: nat)
    requires Shaped(ap) && AllInRange(ap, evs) && k < |ap.slots|
    ensures var n := LastHeld(ap, evs, k); n.Some? ==> Run(ap, evs[..n.value]).slots[k].used
  {
    assert evs[..|evs|] == evs;
    if !Run(ap, evs).slots[k].used && evs != [] {
      var before := evs[..|evs| - 1];
      LastHeldWasUsed(ap, before, k);
      var n := LastHeld(ap, before, k);
      if n.Some? { assert before[..n.value] == evs[..n.value]; }
      hide Run, Touches;
    }
  }

  // ---------------------------------------------------------------- names left in free slots

  /** A slot nobody holds that still carries an address: an admission was turned away at its BSS's limit. */
  predicate Shadows(slots: seq<Station>, k: nat, a: Mac) {
    0 < k < |slots| && !slots[k].used && slots[k].addr == a
  }

  lemma KeptNames(ap: Ap, bssid: Mac, a: Mac, j: nat)
    requires Shaped(ap) && j < |ap.slots| && !Kept(ap, bssid, a).0[j].used
    ensures var s := Kept(ap, bssid, a).0[j]; s.addr == ZERO_MAC_ADDR || s == ap.slots[j]
  {
  }

  lemma DeleteNames(slots: seq<Station>, k: nat, a: Mac, j: nat)
    requires j < |slots|
    ensures |Delete(slots, k, a)| == |slots|
    ensures var s := Delete(slots, k, a)[j]; s.addr == ZERO_MAC_ADDR || s == slots[j]
  {
  }

  lemma DeletedNames(slots: seq<Station>, k: nat, j: nat)
    requires j < |slots|
    ensures |DeleteSlot(slots, k)| == |slots|
    ensures var s := DeleteSlot(slots, k)[j]; s.addr == ZERO_MAC_ADDR || s == slots[j]
  {
  }

  lemma AdmittedNames(slots: seq<Station>, kept: nat, a: Mac, x: nat, full: bool, j: nat)
    requires kept <= |slots| && j < |slots| && !Admitted(slots, kept, a, x, full).0[j].used
    ensures var s := Admitted(slots, kept, a, x, full).0[j];
            s == slots[j] || (full && s.addr == a && s.sst == NotAuth)
  {
  }

  lemma AuthReqNames(ap: Ap, ev: Event, j: nat)
    requires Shaped(ap) && Distinct(ap.slots) && ev.AuthReq? && j < |ap.slots| && !Step(ap, ev).ap.slots[j].used
    ensures NameFrom(ap, ev, j)
  {
    hide Kept, FindBss, Passes, Distinct, Admitted, DeleteSlot, Effect, Present, Insert, FirstFree;
    var AuthReq(bssid, a, alg, full, text) := ev;
    var (slots, kept) := Kept(ap, bssid, a);
    KeptIsEffect(ap, bssid, a);
    var x := FindBss(ap.bsss, bssid, 0);
    AdmittedSst(slots, kept, a, x, full, j);
    DeletedNames(slots, kept, j);
    if !Admitted(slots, kept, a, x, full).0[j].used { AdmittedNames(slots, kept, a, x, full, j); }
    if !slots[j].used { KeptNames(ap, bssid, a, j); }
  }

  /** Where the address in a slot comes from that is unused after a step. */
  predicate NameFrom(ap: Ap, ev: Event, j: nat)
    requires Shaped(ap) && InRange(ap, ev) && j < |ap.slots|
  {
    var s, t := ap.slots[j], Step(ap, ev).ap.slots[j];
    || t.addr == ZERO_MAC_ADDR
    || (ev.AuthReq? && ev.full && ev.addr == t.addr && t.sst == NotAuth)
    || (!s.used && s.addr == t.addr && (t.sst == Assoc ==> s.sst == Assoc))
  }

  lemma AuthConfirmNames(ap: Ap, ev: Event, j: nat)
    requires Shaped(ap) && ev.AuthConfirm? && j < |ap.slots| && !Step(ap, ev).ap.slots[j].used
    ensures NameFrom(ap, ev, j)
  {
    hide FindBss;
  }

  lemma AssocReqNames(ap: Ap, ev: Event, j: nat)
    requires Shaped(ap) && ev.AssocReq? && j < |ap.slots| && !Step(ap, ev).ap.slots[j].used
    ensures NameFrom(ap, ev, j)
  {
    hide Lookup, Passes, LeavesPort;
  }

  lemma StepNames(ap: Ap, ev: Event, j: nat)
    requires Shaped(ap) && InRange(ap, ev) && Distinct(ap.slots) && j < |ap.slots| && !Step(ap, ev).ap.slots[j].used
    ensures NameFrom(ap, ev, j)
  {
    hide OnAuthReq, OnAuthConfirm, OnAssocReq, Purged, Distinct, Resolve, Lookup, Delete;
    match ev
    case AuthReq(_, _, _, _, _) => AuthReqNames(ap, ev, j); hide *;
    case AuthConfirm(_, _, _, _, _) => AuthConfirmNames(ap, ev, j); hide *;
    case AssocReq(_, _, _, _, _) => AssocReqNames(ap, ev, j); hide *;
    case PeerDeauth(w, _, b) => DeleteNames(ap.slots, w, b, j);
    case MlmeDeauth(w, b) => DeleteNames(ap.slots, w, b, j);
    case Leave(b) => DeletedNames(ap.slots, Lookup(ap.slots, b, 0), j);
    case AgeOut(w) => DeletedNames(ap.slots, w, j);
    case Data(w, b, _, _) => DeleteNames(ap.slots, Resolve(ap.slots, w, b), b, j);
    case ChangeAcl(x, acl) => PurgedSlots(ap.slots, x, acl, 0);
    case _ =>
  }

  /** Every name left in a free slot goes back to an admission turned away; no such slot is associated. */
  lemma {:induction false} ShadowMeans(ap: Ap, evs: seq<Event>, k: nat, a: Mac) returns (n: nat)
    requires Initial(ap) && AllInRange(ap, evs) && a != ZERO_MAC_ADDR && Shadows(Run(ap, evs).slots, k, a)
    ensures Run(ap, evs).slots[k].sst != Assoc
    ensures n < |evs| && evs[n].AuthReq? && evs[n].full && evs[n].addr == a
  {
    var before, ev := evs[..|evs| - 1], evs[|evs| - 1];
    assert ev in evs;
    var t := Run(ap, before);
    EveryRunIsDistinct(ap, before);
    StepNames(t, ev, k);
    if Shadows(t.slots, k, a) {
      n := ShadowMeans(ap, before, k, a);
    }
    if ev.AuthReq? && ev.full && ev.addr == a {
      n := |evs| - 1;
    }
    hide Step, Distinct, Initial;
  }

  // ---------------------------------------------------------------- data frames

  lemma ResolvesTo(slots: seq<Station>, k: nat, b: Mac)
    requires Distinct(slots) && b != ZERO_MAC_ADDR
    ensures Shadows(slots, k, b) ==> Resolve(slots, k, b) == k
    ensures !Shadows(slots, k, b) ==> Resolve(slots, k, b) == Lookup(slots, b, 0)
  {
    if 0 < k < |slots| && Holds(slots[k], b) { OthersDoNot(slots, b, k); }
  }

  /**
   * Whatever slot the hardware names: data of a sender is accepted exactly when the sender is associated in
   * the table, and any other sender is out of the table afterwards. The one exception is a named slot that
   * carries the sender's address from an admission turned away: it refuses, and changes nothing.
   */
  lemma SenderGateIff(ap: Ap, evs: seq<Event>, k: nat, b: Mac)
    requires Initial(ap) && AllInRange(ap, evs) && HonestRun(ap, evs) && b != ZERO_MAC_ADDR
    ensures var t := Run(ap, evs);
            var o := Step(t, Data(k, b, false, true));
            && (o.passed <==> !t.banned && StandsAssociated(ap, evs, b) && !Shadows(t.slots, k, b))
            && (StandsAssociated(ap, evs, b) ==> Present(t.slots, b))
            && (if StandsAssociated(ap, evs, b) || Shadows(t.slots, k, b) then o.ap == t else !Present(o.ap.slots, b))
  {
    var t := Run(ap, evs);
    EveryRunIsDistinct(ap, evs);
    TableShowsStandingIff(ap, evs, b);
    if Shadows(t.slots, k, b) { var n := ShadowMeans(ap, evs, k, b); }
    hide Run, Standing, OnlyRefused, HonestRun, AllInRange, Initial;
    SenderStep(t, k, b, StandsAssociated(ap, evs, b));
  }

  lemma SenderStep(ap: Ap, k: nat, b: Mac, assoc: bool)
    requires Shaped(ap) && Distinct(ap.slots) && b != ZERO_MAC_ADDR
    requires forall j :: 0 <= j < |ap.slots| && Holds(ap.slots[j], b) ==> (ap.slots[j].sst == Assoc <==> assoc)
    requires assoc ==> Present(ap.slots, b)
    requires Shadows(ap.slots, k, b) ==> ap.slots[k].sst != Assoc
    ensures var o := Step(ap, Data(k, b, false, true));
            && (o.passed <==> !ap.banned && assoc && !Shadows(ap.slots, k, b))
            && (if assoc || Shadows(ap.slots, k, b) then o.ap == ap else !Present(o.ap.slots, b))
  {
    ResolvesTo(ap.slots, k, b);
    LookupIs(ap.slots, b);
    var r := Lookup(ap.slots, b, 0);
    if r < |ap.slots| { DeleteIsEffect(ap.slots, r, b, b); }
    hide Resolve, Lookup, Distinct, Present;
  }

  /** Frames that do not go from a station to the access point are dropped, and change nothing. */
  lemma OnlyToDs(ap: Ap, ev: Event)
    requires Shaped(ap) && ev.Data? && (ev.fromDs || !ev.toDs)
    ensures Step(ap, ev) == Outcome(ap, Silence, false)
  {
    hide Resolve;
  }

  /** In a disciplined run, associated in the table is what the answers sent make of a station. */
  lemma DataGate(ap: Ap, evs: seq<Event>, k: nat, b: Mac)
    requires Initial(ap) && AllInRange(ap, evs) && DisciplinedRun(ap, evs) && b != ZERO_MAC_ADDR
    ensures var t := Run(ap, evs);
            var o := Step(t, Data(k, b, false, true));
            && (o.passed <==> !t.banned && Standing(ap, evs, b) == Assoc && !Shadows(t.slots, k, b))
            && (if Standing(ap, evs, b) == Assoc || Shadows(t.slots, k, b) then o.ap == t
                else !Present(o.ap.slots, b))
  {
    DisciplinedIsHonest(ap, evs);
    NeverOnlyRefused(ap, evs, b);
    SenderGateIff(ap, evs, k, b);
    hide Run, Step, Standing, OnlyRefused, Shadows, Present;
  }

  /**
   * The zero address alone is also the address of every freed slot: under it, a named slot nobody holds
   * lets data through exactly when its last station stood associated, or left by a weak association request.
   */
  lemma ZeroGateIff(ap: Ap, evs: seq<Event>, k: nat)
    requires Initial(ap) && AllInRange(ap, evs) && HonestRun(ap, evs)
    ensures var t := Run(ap, evs);
            Step(t, Data(k, ZERO_MAC_ADDR, false, true)).passed <==>
            !t.banned &&
            if Shadows(t.slots, k, ZERO_MAC_ADDR) then
              LastHeld(ap, evs, k).Some? && LeftAssociated(ap, evs, k, LastHeld(ap, evs, k).value)
            else StandsAssociated(ap, evs, ZERO_MAC_ADDR)
  {
    var t := Run(ap, evs);
    if Shadows(t.slots, k, ZERO_MAC_ADDR) { SlotStateIff(ap, evs, k); }
    TableShowsStandingIff(ap, evs, ZERO_MAC_ADDR);
    hide Run, Standing, OnlyRefused, HonestRun, AllInRange, Initial, LastHeld, LeftAssociated, Untouched;
    ZeroStep(t, k, StandsAssociated(ap, evs, ZERO_MAC_ADDR));
    hide Shadows, Step, StandsAt;
  }

  lemma ZeroStep(ap: Ap, k: nat, assoc: bool)
    requires Shaped(ap)
    requires StandsAt(ap.slots, ZERO_MAC_ADDR, Assoc) || !assoc
    requires forall j :: 0 <= j < |ap.slots| && Holds(ap.slots[j], ZERO_MAC_ADDR) && ap.slots[j].sst == Assoc ==> assoc
    requires assoc ==> Present(ap.slots, ZERO_MAC_ADDR)
    ensures Step(ap, Data(k, ZERO_MAC_ADDR, false, true)).passed <==>
            !ap.banned && if Shadows(ap.slots, k, ZERO_MAC_ADDR) then ap.slots[k].sst == Assoc else assoc
  {
    LookupIs(ap.slots, ZERO_MAC_ADDR);
    var r := Resolve(ap.slots, k, ZERO_MAC_ADDR);
    assert !Shadows(ap.slots, k, ZERO_MAC_ADDR) && r < |ap.slots| ==> Holds(ap.slots[r], ZERO_MAC_ADDR);
    hide Present, Lookup, Shaped, Delete;
  }

  /** A step that shows it: once its station aged out, a slot refuses that station but not the zero address. */
  lemma StaleSlotAccepts(ap: Ap, k: nat)
    requires Shaped(ap) && Distinct(ap.slots) && !ap.banned
    requires 0 < k < |ap.slots| && ap.slots[k].used && ap.slots[k].sst == Assoc && ap.slots[k].addr != ZERO_MAC_ADDR
    ensures var t, a := Step(ap, AgeOut(k)).ap, ap.slots[k].addr;
            && !Present(t.slots, a) && !Step(t, Data(k, a, false, true)).passed
            && Step(t, Data(k, ZERO_MAC_ADDR, false, true)).passed
  {
    var t := Step(ap, AgeOut(k)).ap;
    DeleteSlotIsEffect(ap.slots, k, ap.slots[k].addr);
    DeleteIsEffect(ap.slots, k, ap.slots[k].addr, ap.slots[k].addr);
    LookupIs(t.slots, ap.slots[k].addr);
    hide Present, Distinct, Effect;
  }
}
