/** The controlled port over whole runs. */
module StationPort {
  import opened Common
  import opened Stations
  import opened StationRuns

  /** The station keeps its slot and its BSS. */
  ghost predicate Stays(pre: seq<Station>, post: seq<Station>, a: Mac) {
    exists j :: 0 <= j < |pre| && j < |post| && Holds(pre[j], a) && Holds(post[j], a) && pre[j].bss == post[j].bss
  }

  /** The authenticator reports on station `a`: its handshake succeeded, or its authorization is withdrawn. */
  predicate Reports(t: Ap, ev: Event, a: Mac) {
    (ev.KeysDone? || ev.KeysLost?) && ev.wcid < |t.slots| && Holds(t.slots[ev.wcid], a)
  }

  /** An association request of `a` without a security element, at a WPA BSS that hostapd drives. */
  predicate Bypasses(t: Ap, ev: Event, a: Mac)
    requires Shaped(t)
  {
    && ev.AssocReq? && ev.addr == a && !ev.rsn
    && var k := Lookup(t.slots, a, 0);
       k < |t.slots| && t.bsss[t.slots[k].bss].mode.Wpa? && t.bsss[t.slots[k].bss].hostapd
  }

  /** Whether the key handshake succeeded since the station came or was last associated. */
  ghost predicate Keyed(ap: Ap, evs: seq<Event>, a: Mac)
    requires Shaped(ap) && AllInRange(ap, evs)
  {
    evs != [] &&
    var before, ev := evs[..|evs| - 1], evs[|evs| - 1];
    var t, o := Run(ap, before), LastOutcome(ap, evs);
    if !Stays(t.slots, o.ap.slots, a) || o.reply == AssocOk(a) then false
    else if Reports(t, ev, a) then ev.KeysDone?
    else Keyed(ap, before, a)
  }

  /**
   * Whether the station was associated again while it was keyed, without a security element at a
   * BSS that leaves the port alone, and neither associated properly nor reported on since.
   */
  ghost predicate Bypassed(ap: Ap, evs: seq<Event>, a: Mac)
    requires Shaped(ap) && AllInRange(ap, evs)
  {
    evs != [] &&
    var before, ev := evs[..|evs| - 1], evs[|evs| - 1];
    var t, o := Run(ap, before), LastOutcome(ap, evs);
    if !Stays(t.slots, o.ap.slots, a) then false
    else if o.reply == AssocOk(a) then Bypasses(t, ev, a) && (Keyed(ap, before, a) || Bypassed(ap, before, a))
    else if Reports(t, ev, a) then false
    else Bypassed(ap, before, a)
  }

  /** What a step makes of the openness of station `a`'s port, at a BSS that asks for keys or one that does not. */
  ghost predicate OpenAfter(ap: Ap, ev: Event, a: Mac, keys: bool, open: bool)
    requires Shaped(ap) && InRange(ap, ev)
  {
    var o := Step(ap, ev);
    if !Stays(ap.slots, o.ap.slots, a) then false
    else if o.reply == AssocOk(a) then keys ==> Bypasses(ap, ev, a) && open
    else if Reports(ap, ev, a) then ev.KeysDone?
    else open
  }

  /** At the BSSs that do, or do not, ask for keys (WPA modes and 802.1X) the port of `a` is as said. */
  ghost predicate PortShows(ap: Ap, a: Mac, keys: bool, open: bool)
    requires Shaped(ap)
  {
    forall k :: 0 <= k < |ap.slots| && Holds(ap.slots[k], a) ==>
      var b := ap.bsss[ap.slots[k].bss];
      (b.mode.Wpa? || b.dot1x) == keys ==> (ap.slots[k].port.PortOpen? <==> open)
  }

  /** What a step does to the port of a slot in use afterwards. */
  ghost predicate PortAfter(ap: Ap, ev: Event, o: Outcome, j: nat)
    requires Shaped(ap) && j < |ap.slots| == |o.ap.slots|
  {
    var s, t := ap.slots[j], o.ap.slots[j];
    t.port ==
      if ev.KeysDone? && ev.wcid == j then PortOpen
      else if ev.KeysLost? && ev.wcid == j then PortNotSecured
      else if s.used && s.addr == t.addr && s.bss == t.bss then
        if ev.AssocReq? && o.reply == AssocOk(t.addr) then
          var b := ap.bsss[s.bss];
          if !b.mode.Wpa? && !b.dot1x then PortOpen
          else if b.mode.Wpa? && b.hostapd && !ev.rsn then s.port
          else PortNotSecured
        else s.port
      else PortNotSecured
  }

  lemma AuthReqPort(ap: Ap, bssid: Mac, a: Mac, alg: Alg, full: bool, text: seq<byte>, j: nat)
    requires Shaped(ap) && Distinct(ap.slots) && j < |ap.slots|
    requires OnAuthReq(ap, bssid, a, alg, full, text).ap.slots[j].used
    ensures PortAfter(ap, AuthReq(bssid, a, alg, full, text), OnAuthReq(ap, bssid, a, alg, full, text), j)
  {
    hide Kept, Admitted, FindBss, Passes, Distinct, DeleteSlot, Delete;
    var x := FindBss(ap.bsss, bssid, 0);
    if x < |ap.bsss| {
      AdmittedSlots(ap, bssid, a, x, full, j);
      DeletedSlots(Kept(ap, bssid, a).0, Kept(ap, bssid, a).1, j);
    }
  }

  lemma AuthConfirmPort(ap: Ap, w: nat, bssid: Mac, a: Mac, wep: bool, text: seq<byte>, j: nat)
    requires Shaped(ap) && j < |ap.slots| && OnAuthConfirm(ap, w, bssid, a, wep, text).ap.slots[j].used
    ensures PortAfter(ap, AuthConfirm(w, bssid, a, wep, text), OnAuthConfirm(ap, w, bssid, a, wep, text), j)
  {
    DeletedSlots(ap.slots, w, j);
    hide DeleteSlot, Delete, FindBss;
  }

  lemma AssocReqPort(ap: Ap, ev: Event, j: nat)
    requires Shaped(ap) && AclOk(ap) && ev.AssocReq? && j < |ap.slots| && Step(ap, ev).ap.slots[j].used
    requires Distinct(ap.slots)
    ensures PortAfter(ap, ev, Step(ap, ev), j)
  {
    var f := Lookup(ap.slots, ev.addr, 0);
    if f < |ap.slots| {
      OthersDoNot(ap.slots, ev.addr, f);
      assert Passes(ap.bsss[ap.slots[f].bss].acl, ev.addr);
    }
    hide Distinct, AclOk, Passes, Lookup;
  }

  lemma StepPort(ap: Ap, ev: Event, j: nat)
    requires Shaped(ap) && InRange(ap, ev) && Distinct(ap.slots) && AclOk(ap) && Disciplined(ap, ev)
    requires j < |ap.slots| && Step(ap, ev).ap.slots[j].used
    ensures PortAfter(ap, ev, Step(ap, ev), j)
  {
    hide OnAuthReq, OnAuthConfirm, OnAssocReq, Distinct, AclOk, Purged, RightSlot;
    match ev
    case AuthReq(bssid, a, alg, full, text) => AuthReqPort(ap, bssid, a, alg, full, text, j);
    case AuthConfirm(w, bssid, a, wep, text) => AuthConfirmPort(ap, w, bssid, a, wep, text, j);
    case AssocReq(_, _, _, _, _) => AssocReqPort(ap, ev, j);
    case ChangeAcl(x, acl) => PurgedSlots(ap.slots, x, acl, 0);
    case _ =>
  }

  /** One step of the port, seen from one address. */
  lemma StepShows(ap: Ap, ev: Event, a: Mac, keys: bool, open: bool)
    requires Shaped(ap) && InRange(ap, ev) && Distinct(ap.slots) && AclOk(ap) && Disciplined(ap, ev)
    requires PortShows(ap, a, keys, open)
    ensures PortShows(Step(ap, ev).ap, a, keys, OpenAfter(ap, ev, a, keys, open))
  {
    var o := Step(ap, ev);
    BsssKept(ap, ev);
    StepKeepsDistinct(ap, ev);
    forall j | 0 <= j < |o.ap.slots| && Holds(o.ap.slots[j], a)
      ensures var b := o.ap.bsss[o.ap.slots[j].bss];
              (b.mode.Wpa? || b.dot1x) == keys ==>
                (o.ap.slots[j].port.PortOpen? <==> OpenAfter(ap, ev, a, keys, open))
    {
      StepPort(ap, ev, j);
      if (o.ap.bsss[o.ap.slots[j].bss].mode.Wpa? || o.ap.bsss[o.ap.slots[j].bss].dot1x) == keys {
        SlotShows(ap, ev, o, a, keys, open, j);
      }
      hide *;
    }
  }

  lemma ReportedSlot(ap: Ap, ev: Event, j: nat)
    requires Shaped(ap) && (ev.KeysDone? || ev.KeysLost?) && j < |ap.slots| && Step(ap, ev).ap.slots[j].used
    ensures ap.slots[j].used && Step(ap, ev).ap.slots[j].addr == ap.slots[j].addr
    ensures Step(ap, ev).ap.slots[j].bss == ap.slots[j].bss && Step(ap, ev).reply == Silence
  {
  }

  lemma SlotShows(ap: Ap, ev: Event, o: Outcome, a: Mac, keys: bool, open: bool, j: nat)
    requires Shaped(ap) && InRange(ap, ev) && o == Step(ap, ev) && Distinct(ap.slots) && Distinct(o.ap.slots)
    requires PortShows(ap, a, keys, open) && j < |ap.slots| && Holds(o.ap.slots[j], a) && PortAfter(ap, ev, o, j)
    requires forall x :: 0 <= x < |ap.bsss| ==> SameBut(o.ap.bsss[x], ap.bsss[x])
    requires var b := o.ap.bsss[o.ap.slots[j].bss]; (b.mode.Wpa? || b.dot1x) == keys
    ensures o.ap.slots[j].port.PortOpen? <==> OpenAfter(ap, ev, a, keys, open)
  {
    OthersDoNot(o.ap.slots, a, j);
    OnlyRequestsAssociate(ap, ev);
    if ev.KeysDone? || ev.KeysLost? { ReportedSlot(ap, ev, j); }
    hide Step;
    if Holds(ap.slots[j], a) {
      OthersDoNot(ap.slots, a, j);
      assert ap.slots[j].bss == o.ap.slots[j].bss ==> Stays(ap.slots, o.ap.slots, a);
      assert SameBut(o.ap.bsss[o.ap.slots[j].bss], ap.bsss[o.ap.slots[j].bss]);
    }
  }

  lemma OnlyRequestsAssociate(ap: Ap, ev: Event)
    requires Shaped(ap) && InRange(ap, ev)
    ensures Step(ap, ev).reply.AssocOk? ==> ev.AssocReq? && Step(ap, ev).reply == AssocOk(ev.addr)
  {
  }

  /** In every disciplined run the port of a station that needs keys is open exactly when it has them, or bypassed. */
  lemma {:induction false} PortShowsKeys(ap: Ap, evs: seq<Event>, a: Mac)
    requires Initial(ap) && AllInRange(ap, evs) && DisciplinedRun(ap, evs)
    ensures PortShows(Run(ap, evs), a, true, Keyed(ap, evs, a) || Bypassed(ap, evs, a))
  {
    if evs != [] {
      var before, ev := evs[..|evs| - 1], evs[|evs| - 1];
      PortShowsKeys(ap, before, a);
      EveryRunPassesAcl(ap, before);
      assert ev in evs;
      StepShows(Run(ap, before), ev, a, true, Keyed(ap, before, a) || Bypassed(ap, before, a));
      hide Step, PortShows, Bypasses, Reports, Stays;
    }
  }

  /** No station is both: the gate fails open for the bypassed ones, and only for them. */
  lemma {:induction false} BypassedIsNotKeyed(ap: Ap, evs: seq<Event>, a: Mac)
    requires Shaped(ap) && AllInRange(ap, evs)
    ensures !(Keyed(ap, evs, a) && Bypassed(ap, evs, a))
  {
    if evs != [] {
      BypassedIsNotKeyed(ap, evs[..|evs| - 1], a);
    }
  }

  /**
   * To a station that needs keys, EAPOL and WAI packets always go out, any others exactly when it
   * is keyed or bypassed.
   */
  lemma SendGate(ap: Ap, evs: seq<Event>, k: nat, eapol: bool)
    requires Initial(ap) && AllInRange(ap, evs) && DisciplinedRun(ap, evs)
    requires k < |ap.slots| && Run(ap, evs).slots[k].used
    requires var b := Run(ap, evs).bsss[Run(ap, evs).slots[k].bss]; b.mode.Wpa? || b.dot1x
    ensures var a := Run(ap, evs).slots[k].addr;
            Step(Run(ap, evs), Send(k, eapol)).passed <==> eapol || Keyed(ap, evs, a) || Bypassed(ap, evs, a)
  {
    var t := Run(ap, evs);
    PortShowsKeys(ap, evs, t.slots[k].addr);
    hide Run, Keyed, Bypassed, DisciplinedRun, AllInRange;
    PortDecides(t, k, eapol, true, Keyed(ap, evs, t.slots[k].addr) || Bypassed(ap, evs, t.slots[k].addr));
  }

  lemma PortDecides(ap: Ap, k: nat, eapol: bool, keys: bool, open: bool)
    requires Shaped(ap) && k < |ap.slots| && ap.slots[k].used && PortShows(ap, ap.slots[k].addr, keys, open)
    requires var b := ap.bsss[ap.slots[k].bss]; (b.mode.Wpa? || b.dot1x) == keys
    ensures Step(ap, Send(k, eapol)).passed <==> (keys && eapol) || open
  {
    assert Holds(ap.slots[k], ap.slots[k].addr);
  }

  /** Whether the station was associated, or reported keyed, since it came and last lost its authorization. */
  ghost predicate Freed(ap: Ap, evs: seq<Event>, a: Mac)
    requires Shaped(ap) && AllInRange(ap, evs)
  {
    evs != [] &&
    var before, ev := evs[..|evs| - 1], evs[|evs| - 1];
    var t, o := Run(ap, before), LastOutcome(ap, evs);
    if !Stays(t.slots, o.ap.slots, a) then false
    else if Reports(t, ev, a) then ev.KeysDone?
    else o.reply == AssocOk(a) || Freed(ap, before, a)
  }

  lemma {:induction false} PortShowsFreed(ap: Ap, evs: seq<Event>, a: Mac)
    requires Initial(ap) && AllInRange(ap, evs) && DisciplinedRun(ap, evs)
    ensures PortShows(Run(ap, evs), a, false, Freed(ap, evs, a))
  {
    if evs != [] {
      var before, ev := evs[..|evs| - 1], evs[|evs| - 1];
      PortShowsFreed(ap, before, a);
      EveryRunPassesAcl(ap, before);
      assert ev in evs;
      StepShows(Run(ap, before), ev, a, false, Freed(ap, before, a));
      OnlyRequestsAssociate(Run(ap, before), ev);
      hide Step, PortShows, Bypasses, Stays;
    }
  }

  /** To a station that needs no keys everything goes out once it is associated, and nothing, EAPOL included, before. */
  lemma FreeGate(ap: Ap, evs: seq<Event>, k: nat, eapol: bool)
    requires Initial(ap) && AllInRange(ap, evs) && DisciplinedRun(ap, evs)
    requires k < |ap.slots| && Run(ap, evs).slots[k].used
    requires var b := Run(ap, evs).bsss[Run(ap, evs).slots[k].bss]; !b.mode.Wpa? && !b.dot1x
    ensures Step(Run(ap, evs), Send(k, eapol)).passed <==> Freed(ap, evs, Run(ap, evs).slots[k].addr)
  {
    var t := Run(ap, evs);
    PortShowsFreed(ap, evs, t.slots[k].addr);
    hide Run, Freed, DisciplinedRun, AllInRange;
    PortDecides(t, k, eapol, false, Freed(ap, evs, t.slots[k].addr));
  }

  // ---------------------------------------------------------------- when the gate holds

  /** Payload goes out to the stations that need keys exactly when they have them. */
  ghost predicate GateHolds(ap: Ap, evs: seq<Event>)
    requires Shaped(ap) && AllInRange(ap, evs)
  {
    var t := Run(ap, evs);
    forall k :: 0 <= k < |t.slots| && t.slots[k].used ==>
      var b := t.bsss[t.slots[k].bss];
      b.mode.Wpa? || b.dot1x ==> (Sends(t, k, false) <==> Keyed(ap, evs, t.slots[k].addr))
  }

  /** Event `n` associates a keyed station again without a security element, and leaves its port open. */
  ghost predicate BypassAt(ap: Ap, evs: seq<Event>, n: nat)
    requires Shaped(ap) && AllInRange(ap, evs) && n < |evs|
  {
    var ev := evs[n];
    && ev.AssocReq? && Bypasses(Run(ap, evs[..n]), ev, ev.addr) && Keyed(ap, evs[..n], ev.addr)
    && LastOutcome(ap, evs[..n + 1]).reply == AssocOk(ev.addr)
  }

  lemma {:induction false} PrefixIsDisciplined(ap: Ap, evs: seq<Event>, n: nat)
    requires Shaped(ap) && AllInRange(ap, evs) && DisciplinedRun(ap, evs) && n <= |evs|
    ensures DisciplinedRun(ap, evs[..n])
  {
    if n == |evs| {
      assert evs[..n] == evs;
    } else {
      PrefixIsDisciplined(ap, evs[..|evs| - 1], n);
      assert evs[..|evs| - 1][..n] == evs[..n];
    }
  }

  /** Every bypassed station was associated so while it was keyed. */
  lemma {:induction false} BypassStarts(ap: Ap, evs: seq<Event>, a: Mac) returns (n: nat)
    requires Shaped(ap) && AllInRange(ap, evs) && Bypassed(ap, evs, a)
    ensures n < |evs| && BypassAt(ap, evs, n) && evs[n].addr == a
  {
    var before := evs[..|evs| - 1];
    if LastOutcome(ap, evs).reply == AssocOk(a) && Keyed(ap, before, a) {
      n := |evs| - 1;
      BypassNow(ap, evs, a);
    } else {
      n := BypassStarts(ap, before, a);
      BypassInPrefix(ap, evs, |evs| - 1, n);
    }
    hide *;
  }

  lemma BypassNow(ap: Ap, evs: seq<Event>, a: Mac)
    requires Shaped(ap) && AllInRange(ap, evs) && evs != []
    requires var before, ev := evs[..|evs| - 1], evs[|evs| - 1];
             LastOutcome(ap, evs).reply == AssocOk(a) && Keyed(ap, before, a) && Bypasses(Run(ap, before), ev, a)
    ensures BypassAt(ap, evs, |evs| - 1) && evs[|evs| - 1].addr == a
  {
    hide Run, LastOutcome, Keyed;
    assert evs[..|evs|] == evs;
  }

  /** An accepted association concerns a station that was in its slot before and still is. */
  lemma AssociatedStays(ap: Ap, ev: Event, a: Mac)
    requires Shaped(ap) && InRange(ap, ev) && Step(ap, ev).reply == AssocOk(a)
    ensures var k := Lookup(ap.slots, a, 0);
            ev.AssocReq? && ev.addr == a && k < |ap.slots| && Holds(Step(ap, ev).ap.slots[k], a) &&
            Step(ap, ev).ap.slots[k].bss == ap.slots[k].bss && Stays(ap.slots, Step(ap, ev).ap.slots, a) &&
            Step(ap, ev).ap.bsss == ap.bsss
  {
    OnlyRequestsAssociate(ap, ev);
    var k := Lookup(ap.slots, a, 0);
    hide Passes, Lookup, Associated;
    assert k < |ap.slots| && Holds(ap.slots[k], a) && Holds(Step(ap, ev).ap.slots[k], a);
  }

  /** Payload passes to station `a` through a slot that needs keys. */
  ghost predicate PayloadPasses(ap: Ap, evs: seq<Event>, a: Mac)
    requires Shaped(ap) && AllInRange(ap, evs)
  {
    var t := Run(ap, evs);
    exists k :: 0 <= k < |t.slots| && Holds(t.slots[k], a) && Sends(t, k, false) &&
                (t.bsss[t.slots[k].bss].mode.Wpa? || t.bsss[t.slots[k].bss].dot1x)
  }

  /** The last event associated the station again and left open a port that was open. */
  ghost predicate AssociatedOpen(ap: Ap, evs: seq<Event>, a: Mac)
    requires Shaped(ap) && AllInRange(ap, evs) && evs != []
  {
    var before := evs[..|evs| - 1];
    && LastOutcome(ap, evs).reply == AssocOk(a) && Bypasses(Run(ap, before), evs[|evs| - 1], a)
    && (Keyed(ap, before, a) || Bypassed(ap, before, a))
  }

  lemma AssociatedOpenPasses(ap: Ap, evs: seq<Event>, a: Mac)
    requires Initial(ap) && AllInRange(ap, evs) && DisciplinedRun(ap, evs) && evs != [] && AssociatedOpen(ap, evs, a)
    ensures PayloadPasses(ap, evs, a) && Bypassed(ap, evs, a) && !Keyed(ap, evs, a) && !GateHolds(ap, evs)
  {
    var before, ev := evs[..|evs| - 1], evs[|evs| - 1];
    assert ev in evs;
    var t := Run(ap, before);
    AssociatedStays(t, ev, a);
    var k := Lookup(t.slots, a, 0);
    assert Run(ap, evs) == Step(t, ev).ap && LastOutcome(ap, evs) == Step(t, ev);
    assert Bypassed(ap, evs, a);
    BypassedIsNotKeyed(ap, evs, a);
    SendGate(ap, evs, k, false);
    hide Run, Step, LastOutcome, Keyed, Bypassed, DisciplinedRun, Initial;
    assert Sends(Run(ap, evs), k, false) by { SendsIsStep(Run(ap, evs), k); }
  }

  lemma SendsIsStep(ap: Ap, k: nat)
    requires Shaped(ap)
    ensures Step(ap, Send(k, false)).passed == Sends(ap, k, false)
  {
  }

  lemma GateHoldsWithout(ap: Ap, evs: seq<Event>)
    requires Initial(ap) && AllInRange(ap, evs) && DisciplinedRun(ap, evs)
    requires forall n :: 0 <= n < |evs| ==> !BypassAt(ap, evs, n)
    ensures GateHolds(ap, evs)
  {
    var t := Run(ap, evs);
    forall k | 0 <= k < |t.slots| && t.slots[k].used &&
               (t.bsss[t.slots[k].bss].mode.Wpa? || t.bsss[t.slots[k].bss].dot1x)
      ensures Sends(t, k, false) <==> Keyed(ap, evs, t.slots[k].addr)
    {
      if Bypassed(ap, evs, t.slots[k].addr) {
        var n := BypassStarts(ap, evs, t.slots[k].addr);
      }
      SendGate(ap, evs, k, false);
      SendsIsStep(t, k);
      hide *;
    }
  }

  /** The gate holds all along a run exactly when no keyed station is associated past its port. */
  lemma GateHoldsIff(ap: Ap, evs: seq<Event>)
    requires Initial(ap) && AllInRange(ap, evs) && DisciplinedRun(ap, evs)
    ensures (forall n :: 0 <= n <= |evs| ==> GateHolds(ap, evs[..n])) <==>
            (forall n :: 0 <= n < |evs| ==> !BypassAt(ap, evs, n))
  {
    if forall n :: 0 <= n < |evs| ==> !BypassAt(ap, evs, n) {
      forall n | 0 <= n <= |evs| ensures GateHolds(ap, evs[..n]) {
        PrefixIsDisciplined(ap, evs, n);
        forall m | 0 <= m < n ensures !BypassAt(ap, evs[..n], m) { BypassInPrefix(ap, evs, n, m); }
        GateHoldsWithout(ap, evs[..n]);
      }
    }
    if n :| 0 <= n < |evs| && BypassAt(ap, evs, n) {
      PrefixIsDisciplined(ap, evs, n + 1);
      assert evs[..n + 1][..n] == evs[..n];
      AssociatedOpenPasses(ap, evs[..n + 1], evs[n].addr);
      assert !GateHolds(ap, evs[..n + 1]);
    }
    hide *;
  }

  /** Where every association request carries a security element the gate holds. */
  lemma GateHoldsWithElements(ap: Ap, evs: seq<Event>)
    requires Initial(ap) && AllInRange(ap, evs) && DisciplinedRun(ap, evs)
    requires forall ev :: ev in evs && ev.AssocReq? ==> ev.rsn
    ensures GateHolds(ap, evs)
  {
    forall n | 0 <= n < |evs| ensures !BypassAt(ap, evs, n) {
      assert evs[n] in evs;
      hide Run, LastOutcome, Keyed;
    }
    GateHoldsWithout(ap, evs);
    hide *;
  }

  lemma BypassInPrefix(ap: Ap, evs: seq<Event>, n: nat, m: nat)
    requires Shaped(ap) && AllInRange(ap, evs) && m < n <= |evs|
    ensures BypassAt(ap, evs[..n], m) == BypassAt(ap, evs, m)
  {
    hide Run, LastOutcome, Keyed;
    assert evs[..n][..m] == evs[..m] && evs[..n][..m + 1] == evs[..m + 1];
  }

  /** Slot 1 of an empty table as station `a` of BSS 0 goes through open authentication and association. */
  function Joined(ap: Ap, a: Mac, sst: Sst, port: Port): Ap
    requires |ap.slots| >= 2
  {
    WithSlots(ap, ap.slots[1 := Station(true, a, 0, sst, AsOpen, port)])
  }

  /** BSS 0 is up, open to everybody, and driven by hostapd in a WPA mode. */
  predicate Joinable(ap: Ap) {
    |ap.slots| >= 2 && !ap.banned && |ap.bsss| > 0 &&
    var b := ap.bsss[0]; b.mode.Wpa? && b.hostapd && b.iface.Running? && b.acl.policy == 0
  }

  lemma JoinSteps(ap: Ap, a: Mac, text: seq<byte>)
    requires Initial(ap) && Joinable(ap)
    ensures var t0, t1 := Joined(ap, a, Auth, PortNotSecured), Joined(ap, a, Assoc, PortNotSecured);
            var t2 := Joined(ap, a, Assoc, PortOpen);
            && Step(ap, AuthReq(ap.bsss[0].bssid, a, AlgOpen, false, text)) == Outcome(t0, AuthOk(a), false)
            && Step(t0, AssocReq(a, true, true, true, false)) == Outcome(t1, AssocOk(a), false)
            && Step(t1, KeysDone(1)) == Outcome(t2, Silence, false)
            && Step(t2, AssocReq(a, true, true, false, false)) == Outcome(t2, AssocOk(a), false)
  {
    var slots := ap.slots;
    assert FindBss(ap.bsss, ap.bsss[0].bssid, 0) == 0 && FirstFree(slots, 1) == 1 && Lookup(slots, a, 0) == |slots|;
    forall sst, port ensures Lookup(Joined(ap, a, sst, port).slots, a, 0) == 1 {
      assert Holds(Joined(ap, a, sst, port).slots[1], a);
    }
    assert slots[1 := Fresh(a, 0)][1 := Fresh(a, 0).(authState := AsOpen, sst := Auth)] ==
           Joined(ap, a, Auth, PortNotSecured).slots;
    assert Joined(ap, a, Assoc, PortOpen).slots[1 := Joined(ap, a, Assoc, PortOpen).slots[1]] ==
           Joined(ap, a, Assoc, PortOpen).slots;
    hide FindBss, FirstFree, Lookup;
  }

  lemma JoinedSends(ap: Ap, a: Mac)
    requires Shaped(ap) && Joinable(ap)
    ensures Shaped(Joined(ap, a, Assoc, PortOpen)) && Sends(Joined(ap, a, Assoc, PortOpen), 1, false)
  {
  }

  /** A run in which it does not: join, handshake, and the same station associates once more, without an element. */
  lemma BypassRun(ap: Ap, a: Mac, text: seq<byte>)
    requires Initial(ap) && Joinable(ap)
    ensures var evs := [AuthReq(ap.bsss[0].bssid, a, AlgOpen, false, text), AssocReq(a, true, true, true, false),
                        KeysDone(1), AssocReq(a, true, true, false, false)];
            AllInRange(ap, evs) && DisciplinedRun(ap, evs) && Sends(Run(ap, evs), 1, false) && !Keyed(ap, evs, a)
  {
    JoinSteps(ap, a, text);
    var e0, e1 := AuthReq(ap.bsss[0].bssid, a, AlgOpen, false, text), AssocReq(a, true, true, true, false);
    var e2, e3 := KeysDone(1), AssocReq(a, true, true, false, false);
    var t0, t1 := Joined(ap, a, Auth, PortNotSecured), Joined(ap, a, Assoc, PortNotSecured);
    var t2 := Joined(ap, a, Assoc, PortOpen);
    EmptyRun(ap);
    JoinedSends(ap, a);
    hide *;
    PlainEvent(ap, ap, e0);
    PlainEvent(ap, t0, e1);
    PlainEvent(ap, t1, e2);
    PlainEvent(ap, t2, e3);
    RunSnoc(ap, [], e0);
    assert [] + [e0] == [e0] && [e0] + [e1] == [e0, e1];
    RunSnoc(ap, [e0], e1);
    assert [e0, e1] + [e2] == [e0, e1, e2] && [e0, e1, e2] + [e3] == [e0, e1, e2, e3];
    RunSnoc(ap, [e0, e1], e2);
    RunSnoc(ap, [e0, e1, e2], e3);
    AssociatedIsNotKeyed(ap, [e0, e1, e2, e3], a);
  }

  lemma AssociatedIsNotKeyed(ap: Ap, evs: seq<Event>, a: Mac)
    requires Shaped(ap) && AllInRange(ap, evs) && evs != [] && LastOutcome(ap, evs).reply == AssocOk(a)
    ensures !Keyed(ap, evs, a)
  {
  }

  // ---------------------------------------------------------------- until the handshake

  /** None of the events from `i` on completes the handshake of station `a` itself. */
  ghost predicate NoHandshake(ap: Ap, evs: seq<Event>, a: Mac, i: nat)
    requires Shaped(ap) && AllInRange(ap, evs)
  {
    forall n :: i <= n < |evs| ==> !(evs[n].KeysDone? && Reports(Run(ap, evs[..n]), evs[n], a))
  }

  lemma ShorterNoHandshake(ap: Ap, evs: seq<Event>, a: Mac, i: nat)
    requires Shaped(ap) && AllInRange(ap, evs) && NoHandshake(ap, evs, a, i) && i < |evs|
    ensures var before, ev := evs[..|evs| - 1], evs[|evs| - 1];
            NoHandshake(ap, before, a, i) && !(ev.KeysDone? && Reports(Run(ap, before), ev, a))
  {
    hide Run, Reports;
    var before := evs[..|evs| - 1];
    forall n | i <= n < |before| ensures !(before[n].KeysDone? && Reports(Run(ap, before[..n]), before[n], a)) {
      assert before[..n] == evs[..n];
    }
  }

  /** After an accepted association only the station's own handshake makes it keyed, whatever others do. */
  lemma {:induction false} NotKeyedBefore(ap: Ap, evs: seq<Event>, a: Mac, i: nat)
    requires Shaped(ap) && AllInRange(ap, evs) && 0 < i <= |evs| && LastOutcome(ap, evs[..i]).reply == AssocOk(a)
    requires NoHandshake(ap, evs, a, i)
    ensures !Keyed(ap, evs, a)
    ensures !AssociatedOpen(ap, evs[..i], a) ==> !Bypassed(ap, evs, a)
  {
    assert evs[..|evs|] == evs;
    if i < |evs| {
      ShorterNoHandshake(ap, evs, a, i);
      assert evs[..|evs| - 1][..i] == evs[..i];
      NotKeyedBefore(ap, evs[..|evs| - 1], a, i);
    }
    hide Run, LastOutcome, Reports, Bypasses, Stays, NoHandshake;
  }

  /**
   * Between an accepted association of a station and its own handshake, whatever else happens: payload
   * passes to it at some point exactly when that association left an open port open.
   */
  lemma PassesBeforeHandshakeIff(ap: Ap, evs: seq<Event>, a: Mac, i: nat)
    requires Initial(ap) && AllInRange(ap, evs) && DisciplinedRun(ap, evs)
    requires 0 < i <= |evs| && LastOutcome(ap, evs[..i]).reply == AssocOk(a) && NoHandshake(ap, evs, a, i)
    ensures (exists n :: i <= n <= |evs| && PayloadPasses(ap, evs[..n], a)) <==> AssociatedOpen(ap, evs[..i], a)
  {
    if AssociatedOpen(ap, evs[..i], a) {
      PrefixIsDisciplined(ap, evs, i);
      AssociatedOpenPasses(ap, evs[..i], a);
    } else {
      forall n | i <= n <= |evs| ensures !PayloadPasses(ap, evs[..n], a) {
        PrefixIsDisciplined(ap, evs, n);
        NoHandshakeInPrefix(ap, evs, a, i, n);
        assert evs[..n][..i] == evs[..i];
        NotKeyedBefore(ap, evs[..n], a, i);
        ClosedWithout(ap, evs[..n], a);
      }
    }
    hide *;
  }

  lemma NoHandshakeInPrefix(ap: Ap, evs: seq<Event>, a: Mac, i: nat, n: nat)
    requires Shaped(ap) && AllInRange(ap, evs) && NoHandshake(ap, evs, a, i) && i <= n <= |evs|
    ensures NoHandshake(ap, evs[..n], a, i)
  {
    hide Run, Reports;
    forall m | i <= m < n ensures !(evs[..n][m].KeysDone? && Reports(Run(ap, evs[..n][..m]), evs[..n][m], a)) {
      assert evs[..n][..m] == evs[..m];
    }
  }

  lemma ClosedWithout(ap: Ap, evs: seq<Event>, a: Mac)
    requires Initial(ap) && AllInRange(ap, evs) && DisciplinedRun(ap, evs)
    requires !Keyed(ap, evs, a) && !Bypassed(ap, evs, a)
    ensures !PayloadPasses(ap, evs, a)
  {
    var t := Run(ap, evs);
    forall k | 0 <= k < |t.slots| && Holds(t.slots[k], a) &&
               (t.bsss[t.slots[k].bss].mode.Wpa? || t.bsss[t.slots[k].bss].dot1x)
      ensures !Sends(t, k, false)
    {
      SendGate(ap, evs, k, false);
      SendsIsStep(t, k);
    }
    hide *;
  }
}
