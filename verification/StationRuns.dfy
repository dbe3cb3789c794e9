/** What holds in every run of the station table. */
module StationRuns {
  import opened Common
  import opened Stations

  ghost predicate Distinct(slots: seq<Station>) {
    forall i, j :: 0 <= i < j < |slots| && slots[i].used && slots[j].used ==> slots[i].addr != slots[j].addr
  }

  ghost predicate Present(slots: seq<Station>, a: Mac) {
    exists k :: 0 <= k < |slots| && Holds(slots[k], a)
  }

  predicate SameLife(s: Station, t: Station) {
    s.used == t.used && s.addr == t.addr && s.bss == t.bss && s.sst == t.sst && s.authState == t.authState
  }

  /**
   * A step at slot `k` for address `a`: that slot holds `a` afterwards, any other that held it is
   * gone, and every other slot is as before but for its port, or unused. `k` may be no slot at all.
   */
  ghost predicate Effect(pre: seq<Station>, post: seq<Station>, k: nat, a: Mac) {
    && |pre| == |post| && k <= |pre|
    && (forall j :: 0 <= j < |pre| && j != k ==> SameLife(pre[j], post[j]) || !post[j].used)
    && (k < |pre| ==> Holds(post[k], a))
    && (k < |pre| ==> forall j :: 0 <= j < |pre| && j != k && Holds(pre[j], a) ==> !post[j].used)
  }

  lemma EffectKeepsDistinct(pre: seq<Station>, post: seq<Station>, k: nat, a: Mac)
    requires Distinct(pre) && Effect(pre, post, k, a)
    ensures Distinct(post)
  {
    forall i, j | 0 <= i < j < |post| && post[i].used && post[j].used ensures post[i].addr != post[j].addr {
      if i == k || j == k {
        var o := if i == k then j else i;
        assert SameLife(pre[o], post[o]);
      }
    }
  }

  // ---------------------------------------------------------------- the table operations

  lemma Unchanged(slots: seq<Station>, a: Mac)
    ensures Effect(slots, slots, |slots|, a)
  {
  }

  lemma DeleteIsEffect(slots: seq<Station>, k: nat, b: Mac, a: Mac)
    ensures Effect(slots, Delete(slots, k, b), |slots|, a)
    ensures Holds(if k < |slots| then slots[k] else Fresh(a, 0), b) && k < |slots| && Distinct(slots) ==>
              !Present(Delete(slots, k, b), b)
  {
  }

  lemma DeleteSlotIsEffect(slots: seq<Station>, k: nat, a: Mac)
    ensures Effect(slots, DeleteSlot(slots, k), |slots|, a)
    ensures k < |slots| && slots[k].used ==> DeleteSlot(slots, k) == Delete(slots, k, slots[k].addr)
    ensures k < |slots| ==> !DeleteSlot(slots, k)[k].used
  {
  }

  lemma LookupIs(slots: seq<Station>, a: Mac)
    ensures Lookup(slots, a, 0) < |slots| <==> Present(slots, a)
  {
  }

  lemma OthersDoNot(slots: seq<Station>, a: Mac, k: nat)
    requires Distinct(slots) && k < |slots| && Holds(slots[k], a)
    ensures forall j :: 0 <= j < |slots| && j != k ==> !Holds(slots[j], a)
  {
    assert forall j :: 0 <= j < k && slots[j].used ==> slots[j].addr != slots[k].addr;
    assert forall j :: k < j < |slots| && slots[j].used ==> slots[k].addr != slots[j].addr;
  }

  lemma InsertIsEffect(slots: seq<Station>, a: Mac, bss: nat, full: bool)
    requires |slots| > 0 && !Present(slots, a)
    ensures var (slots', j) := Insert(slots, a, bss, full);
            Effect(slots, slots', j, a) && (j < |slots| ==> slots'[j] == Fresh(a, bss))
  {
  }

  lemma KeptIsEffect(ap: Ap, bssid: Mac, a: Mac)
    requires Shaped(ap) && Distinct(ap.slots)
    ensures var (slots, k) := Kept(ap, bssid, a);
            && |slots| == |ap.slots| && k <= |slots| && (k < |slots| ==> slots == ap.slots && Holds(slots[k], a))
            && Effect(ap.slots, slots, k, a) && Effect(ap.slots, DeleteSlot(slots, k), |slots|, a)
            && (k == |slots| ==> !Present(slots, a))
  {
    var (slots, k) := Kept(ap, bssid, a);
    var first := Lookup(ap.slots, a, 0);
    LookupIs(ap.slots, a);
    DeleteSlotIsEffect(ap.slots, first, a);
    if k < |slots| {
      OthersDoNot(slots, a, k);
    } else if first < |ap.slots| {
      DeleteIsEffect(ap.slots, first, a, a);
    }
  }

  lemma EffectThen(pre: seq<Station>, mid: seq<Station>, post: seq<Station>, k: nat, a: Mac)
    requires Effect(pre, mid, |pre|, a) && !Present(mid, a) && Effect(mid, post, k, a)
    ensures Effect(pre, post, k, a)
  {
    forall j | 0 <= j < |pre| && j != k ensures SameLife(pre[j], post[j]) || !post[j].used {
      assert SameLife(pre[j], mid[j]) || !mid[j].used;
    }
    if k < |pre| {
      forall j | 0 <= j < |pre| && j != k && Holds(pre[j], a) ensures !post[j].used {
        assert SameLife(pre[j], mid[j]) || !mid[j].used;
      }
    }
  }

  /** The slot kept or made for an authenticating station. */
  lemma AdmittedIsEffect(ap: Ap, bssid: Mac, a: Mac, x: nat, full: bool)
    requires Shaped(ap) && Distinct(ap.slots)
    ensures var (slots, k) := Kept(ap, bssid, a);
            var (slots', j) := Admitted(slots, k, a, x, full);
            && |slots'| == |ap.slots| && j <= |slots'| && Effect(ap.slots, slots', j, a)
            && (j < |slots'| ==> if k < |slots| then slots'[j] == ap.slots[j] else slots'[j] == Fresh(a, x))
  {
    var (slots, k) := Kept(ap, bssid, a);
    KeptIsEffect(ap, bssid, a);
    if k == |slots| {
      InsertIsEffect(slots, a, x, full);
      EffectThen(ap.slots, slots, Insert(slots, a, x, full).0, Insert(slots, a, x, full).1, a);
    }
  }

  /** Writing the state fields of the slot a step is about keeps it such a step. */
  lemma EffectOfWrite(pre: seq<Station>, mid: seq<Station>, k: nat, a: Mac, s: Station)
    requires Effect(pre, mid, k, a) && k < |pre| && Holds(s, a)
    ensures Effect(pre, mid[k := s], k, a)
  {
  }

  /** A slot in use after admission is as before, or fresh. */
  lemma AdmittedSlots(ap: Ap, bssid: Mac, a: Mac, x: nat, full: bool, j: nat)
    requires Shaped(ap) && Distinct(ap.slots) && j < |ap.slots| && x < |ap.bsss| && ap.bsss[x].bssid == bssid
    ensures var (slots, k) := Kept(ap, bssid, a);
            var (slots', i) := Admitted(slots, k, a, x, full);
            && (slots[j].used ==> slots[j] == ap.slots[j])
            && (slots'[j].used ==>
                  slots'[j] == ap.slots[j] ||
                  (slots'[j] == Fresh(a, x) && !(ap.slots[j].used && ap.slots[j].addr == a && ap.slots[j].bss == x)))
  {
    KeptIsEffect(ap, bssid, a);
    LookupIs(ap.slots, a);
    var first := Lookup(ap.slots, a, 0);
    if first < |ap.slots| { OthersDoNot(ap.slots, a, first); }
  }

  lemma DeletedSlots(slots: seq<Station>, k: nat, j: nat)
    requires j < |slots|
    ensures |DeleteSlot(slots, k)| == |slots| && (DeleteSlot(slots, k)[j].used ==> DeleteSlot(slots, k)[j] == slots[j])
  {
  }

  // ---------------------------------------------------------------- every step

  /** The address an event is about. */
  function Subject(ev: Event): Mac {
    match ev
    case AuthReq(_, a, _, _, _) => a
    case AuthConfirm(_, _, a, _, _) => a
    case AssocReq(a, _, _, _, _) => a
    case _ => ZERO_MAC_ADDR
  }

  /** What a step that touches slot `k` made of it, and what it answered. */
  ghost predicate Answered(o: Outcome, ev: Event, k: nat)
    requires Shaped(o.ap) && k <= |o.ap.slots|
  {
    var a := Subject(ev);
    if k == |o.ap.slots| then
      o.reply.Silence? || o.reply.AuthRefused? || o.reply.AssocRefused? || (ev.AuthConfirm? && o.reply == AuthOk(a))
    else
      var s := o.ap.slots[k];
      match ev
      case AuthReq(_, _, alg, _, _) =>
        if alg.AlgOpen? then o.reply == AuthOk(a) && s.sst == Auth && s.authState == AsOpen
        else o.reply == Challenged(a) && s.sst == NotAuth && s.authState == AsAuthenticating
      case AuthConfirm(_, _, _, _, _) => o.reply == AuthOk(a) && s.sst == Auth && s.authState == AsKey
      case AssocReq(_, _, _, _, _) =>
        s.sst == Assoc && if Passes(o.ap.bsss[s.bss].acl, a) then o.reply == AssocOk(a) else o.reply == AssocRefused(a)
      case _ => false
  }

  lemma AuthReqStep(ap: Ap, bssid: Mac, a: Mac, alg: Alg, full: bool, text: seq<byte>) returns (k: nat)
    requires Shaped(ap) && Distinct(ap.slots)
    ensures var o := OnAuthReq(ap, bssid, a, alg, full, text);
            |o.ap.slots| == |ap.slots| && k <= |ap.slots| && Effect(ap.slots, o.ap.slots, k, a) &&
            Answered(o, AuthReq(bssid, a, alg, full, text), k)
  {
    hide Effect, Kept, Admitted, Distinct, DeleteSlot, FindBss, Passes;
    var x := FindBss(ap.bsss, bssid, 0);
    k := |ap.slots|;
    Unchanged(ap.slots, a);
    if !ap.banned && x < |ap.bsss| && ap.bsss[x].iface.Running? {
      var (slots, kept) := Kept(ap, bssid, a);
      KeptIsEffect(ap, bssid, a);
      AdmittedIsEffect(ap, bssid, a, x, full);
      var (slots', j) := Admitted(slots, kept, a, x, full);
      var mode := ap.bsss[x].mode;
      if Passes(ap.bsss[x].acl, a) && j < |slots'| {
        assert Holds(slots'[j], a) by { EffectHolds(ap.slots, slots', j, a); }
        if alg.AlgOpen? && !mode.Shared? {
          k := j;
          EffectOfWrite(ap.slots, slots', j, a, slots'[j].(authState := AsOpen, sst := Auth));
        } else if alg.AlgKey? && (mode.Shared? || mode.AutoSwitch?) {
          k := j;
          EffectOfWrite(ap.slots, slots', j, a, slots'[j].(authState := AsAuthenticating, sst := NotAuth));
        }
      }
    }
  }

  lemma EffectHolds(pre: seq<Station>, post: seq<Station>, k: nat, a: Mac)
    requires Effect(pre, post, k, a) && k < |pre|
    ensures k < |post| && Holds(post[k], a)
  {
  }

  /** The hardware names the slot of the sender, or an unused one if it has none. */
  predicate RightSlot(slots: seq<Station>, k: nat, a: Mac) {
    Lookup(slots, a, 0) == if k < |slots| && slots[k].used then k else |slots|
  }

  lemma AuthConfirmStep(ap: Ap, w: nat, bssid: Mac, a: Mac, wep: bool, text: seq<byte>) returns (k: nat)
    requires Shaped(ap) && Distinct(ap.slots) && RightSlot(ap.slots, w, a)
    ensures var o := OnAuthConfirm(ap, w, bssid, a, wep, text);
            |o.ap.slots| == |ap.slots| && k <= |ap.slots| && Effect(ap.slots, o.ap.slots, k, a) &&
            Answered(o, AuthConfirm(w, bssid, a, wep, text), k) &&
            (k == |ap.slots| && o.reply == AuthOk(a) ==> !Present(o.ap.slots, a))
  {
    var o := OnAuthConfirm(ap, w, bssid, a, wep, text);
    k := |ap.slots|;
    Unchanged(ap.slots, a);
    DeleteSlotIsEffect(ap.slots, w, a);
    LookupIs(ap.slots, a);
    if o.reply == AuthOk(a) && ap.slots[w].used {
      k := w;
      OthersDoNot(ap.slots, a, w);
    }
  }

  /** The access point makes the association, whatever it answers. */
  predicate Makes(ap: Ap, ev: Event) {
    && ev.AssocReq? && !ap.banned && ev.sane && ev.acceptable && !ev.weak
    && var k := Lookup(ap.slots, ev.addr, 0); k < |ap.slots| && !ap.slots[k].sst.NotAuth?
  }

  lemma AssocReqStep(ap: Ap, ev: Event) returns (k: nat)
    requires Shaped(ap) && Distinct(ap.slots) && ev.AssocReq?
    ensures var o := Step(ap, ev);
            |o.ap.slots| == |ap.slots| && k <= |ap.slots| && Effect(ap.slots, o.ap.slots, k, ev.addr) &&
            Answered(o, ev, k) && (k < |ap.slots| <==> Makes(ap, ev))
  {
    var AssocReq(a, sane, acceptable, rsn, weak) := ev;
    var f := Lookup(ap.slots, a, 0);
    k := |ap.slots|;
    Unchanged(ap.slots, a);
    if !ap.banned && sane && f < |ap.slots| {
      var s := ap.slots[f];
      var accepted := acceptable && !s.sst.NotAuth?;
      var slots := if accepted then ap.slots[f := Associated(s, ap.bsss[s.bss], rsn)] else ap.slots;
      if weak {
        DeleteSlotIsEffect(slots, f, a);
      } else if accepted {
        k := f;
        OthersDoNot(ap.slots, a, f);
      }
    }
  }

  lemma {:induction false} PurgedSlots(slots: seq<Station>, x: nat, acl: Acl, k: nat)
    requires k <= |slots|
    ensures forall j :: 0 <= j < |slots| ==>
              Purged(slots, x, acl, k)[j] ==
              if j >= k && slots[j].used && slots[j].bss == x && Drops(acl, slots[j].addr)
              then slots[j].(used := false, addr := ZERO_MAC_ADDR) else slots[j]
    decreases |slots| - k
  {
    if k < |slots| {
      var s := slots[k];
      PurgedSlots(if s.used && s.bss == x && Drops(acl, s.addr) then DeleteSlot(slots, k) else slots, x, acl, k + 1);
    }
  }

  lemma PurgedIsEffect(slots: seq<Station>, x: nat, acl: Acl, a: Mac)
    ensures Effect(slots, Purged(slots, x, acl, 0), |slots|, a)
  {
    PurgedSlots(slots, x, acl, 0);
  }

  lemma PortIsNoEffect(slots: seq<Station>, w: nat, port: Port, a: Mac)
    ensures Effect(slots, WithPort(slots, w, port), |slots|, a)
  {
  }

  /** Every step is a step at one slot or none. */
  lemma StepIsEffect(ap: Ap, ev: Event) returns (k: nat)
    requires Shaped(ap) && InRange(ap, ev) && Distinct(ap.slots)
    requires ev.AuthConfirm? ==> RightSlot(ap.slots, ev.wcid, ev.addr)
    ensures var o := Step(ap, ev);
            |o.ap.slots| == |ap.slots| && k <= |ap.slots| && Effect(ap.slots, o.ap.slots, k, Subject(ev)) &&
            Answered(o, ev, k) && (ev.AssocReq? ==> (k < |ap.slots| <==> Makes(ap, ev))) &&
            (ev.AuthConfirm? && k == |ap.slots| && o.reply == AuthOk(Subject(ev)) ==> !Present(o.ap.slots, Subject(ev)))
  {
    k := |ap.slots|;
    var a := Subject(ev);
    Unchanged(ap.slots, a);
    hide Effect, OnAuthReq, OnAuthConfirm, OnAssocReq, Distinct, Purged;
    match ev
    case AuthReq(bssid, _, alg, full, text) => k := AuthReqStep(ap, bssid, a, alg, full, text);
    case AuthConfirm(w, bssid, _, wep, text) => k := AuthConfirmStep(ap, w, bssid, a, wep, text);
    case AssocReq(_, _, _, _, _) => k := AssocReqStep(ap, ev);
    case PeerDeauth(w, _, b) => DeleteIsEffect(ap.slots, w, b, a);
    case MlmeDeauth(w, b) => DeleteIsEffect(ap.slots, w, b, a);
    case Leave(b) => DeleteSlotIsEffect(ap.slots, Lookup(ap.slots, b, 0), a);
    case AgeOut(w) => DeleteSlotIsEffect(ap.slots, w, a);
    case Data(w, b, _, _) => DeleteIsEffect(ap.slots, Resolve(ap.slots, w, b), b, a);
    case ChangeAcl(x, acl) => PurgedIsEffect(ap.slots, x, acl, a);
    case KeysDone(w) => PortIsNoEffect(ap.slots, w, PortOpen, a);
    case KeysLost(w) => PortIsNoEffect(ap.slots, w, PortNotSecured, a);
    case _ =>
  }

  // ---------------------------------------------------------------- who is answered what, and who is removed

  /** `x` is the BSS a frame with this BSSID is for. */
  ghost predicate Serves(bsss: seq<Bss>, x: nat, bssid: Mac) {
    x < |bsss| && bsss[x].bssid == bssid && forall y :: 0 <= y < x ==> bsss[y].bssid != bssid
  }

  lemma {:induction false} FindBssIs(bsss: seq<Bss>, x: nat, bssid: Mac, from: nat)
    requires Serves(bsss, x, bssid) && from <= x
    ensures FindBss(bsss, bssid, from) == x
    decreases x - from
  {
    if from < x { FindBssIs(bsss, x, bssid, from + 1); }
  }

  /** An open BSS takes open requests, a shared-key BSS key requests, an automatic one both, a WPA one open ones. */
  predicate Offers(b: Bss, alg: Alg) {
    match b.mode
    case Open => alg == AlgOpen
    case Shared => alg == AlgKey
    case AutoSwitch => true
    case Wpa => alg == AlgOpen
  }

  /** The station has its slot at this BSS, or may have one: a free one, or the one it has at another BSS. */
  ghost predicate HasRoom(ap: Ap, ev: Event)
    requires Shaped(ap) && ev.AuthReq?
  {
    exists k :: 0 <= k < |ap.slots| &&
      ((Holds(ap.slots[k], ev.addr) && ap.bsss[ap.slots[k].bss].bssid == ev.bssid) ||
       (k > 0 && !ev.full && (ap.slots[k].used ==> Holds(ap.slots[k], ev.addr))))
  }

  lemma {:induction false} FirstFreeIs(slots: seq<Station>, from: nat, k: nat)
    requires from <= k < |slots| && !slots[k].used
    ensures FirstFree(slots, from) < |slots|
    decreases k - from
  {
    if from < k { FirstFreeIs(slots, from + 1, k); }
  }

  lemma RoomIsAdmission(ap: Ap, ev: Event, x: nat)
    requires Shaped(ap) && Distinct(ap.slots) && ev.AuthReq?
    ensures var (slots, k) := Kept(ap, ev.bssid, ev.addr);
            var (slots', j) := Admitted(slots, k, ev.addr, x, ev.full);
            j < |slots'| <==> HasRoom(ap, ev)
  {
    var f := Lookup(ap.slots, ev.addr, 0);
    LookupIs(ap.slots, ev.addr);
    var (slots, k) := Kept(ap, ev.bssid, ev.addr);
    if f < |ap.slots| { OthersDoNot(ap.slots, ev.addr, f); }
    if k == |slots| {
      if i :| 0 < i < |slots| && !slots[i].used { FirstFreeIs(slots, 1, i); }
      hide Distinct, Lookup;
      assert HasRoom(ap, ev) <==> !ev.full && exists i :: 0 < i < |slots| && !slots[i].used;
    }
  }

  /** Which answer an authentication request is given, exactly, and whether the station is in the table after it. */
  lemma AuthAnswerIff(ap: Ap, ev: Event, x: nat)
    requires Shaped(ap) && Distinct(ap.slots) && ev.AuthReq? && Serves(ap.bsss, x, ev.bssid)
    ensures var o, b, a := Step(ap, ev), ap.bsss[x], ev.addr;
            var listed := b.acl.policy == 0 || (if b.acl.policy == 1 then a in b.acl.list else a !in b.acl.list);
            if ap.banned || b.iface != Running then o == Outcome(ap, Silence, false)
            else
              && (o.reply == AuthRefused(a) <==> !listed || !Offers(b, ev.alg))
              && (o.reply == AuthOk(a) <==> listed && Offers(b, ev.alg) && HasRoom(ap, ev) && ev.alg == AlgOpen)
              && (o.reply == Challenged(a) <==> listed && Offers(b, ev.alg) && HasRoom(ap, ev) && ev.alg == AlgKey)
              && (Present(o.ap.slots, a) <==> o.reply == AuthOk(a) || o.reply == Challenged(a))
  {
    hide HasRoom, Kept, Admitted, Insert, Lookup, FirstFree, DeleteSlot, Effect, Distinct, Present;
    var AuthReq(bssid, a, alg, full, text) := ev;
    FindBssIs(ap.bsss, x, bssid, 0);
    RoomIsAdmission(ap, ev, x);
    KeptIsEffect(ap, bssid, a);
    AdmittedIsEffect(ap, bssid, a, x, full);
    var (slots, k) := Kept(ap, bssid, a);
    var (slots', j) := Admitted(slots, k, a, x, full);
    KeptIsGone(ap, bssid, a);
    if j < |slots'| {
      EffectHolds(ap.slots, slots', j, a);
      NowPresent(slots', j, slots'[j].(authState := AsOpen, sst := Auth), a);
      NowPresent(slots', j, slots'[j].(authState := AsAuthenticating, sst := NotAuth), a);
    } else {
      NotAdmitted(slots, k, a, x, full);
    }
  }

  lemma NowPresent(slots: seq<Station>, j: nat, s: Station, a: Mac)
    requires j < |slots| && Holds(s, a)
    ensures Present(slots[j := s], a)
  {
    assert Holds(slots[j := s][j], a);
  }

  lemma KeptIsGone(ap: Ap, bssid: Mac, a: Mac)
    requires Shaped(ap) && Distinct(ap.slots)
    ensures var (slots, k) := Kept(ap, bssid, a); !Present(DeleteSlot(slots, k), a)
  {
    KeptIsEffect(ap, bssid, a);
    var (slots, k) := Kept(ap, bssid, a);
    if k < |slots| { DeleteIsEffect(slots, k, a, a); }
  }

  lemma NotAdmitted(slots: seq<Station>, k: nat, a: Mac, x: nat, full: bool)
    requires k <= |slots| && |slots| > 0 && (k == |slots| ==> !Present(slots, a))
    requires Admitted(slots, k, a, x, full).1 == |slots|
    ensures !Present(Admitted(slots, k, a, x, full).0, a)
  {
  }

  /** The station that a removal event names, where its conditions are met. */
  predicate Removes(ap: Ap, ev: Event, a: Mac)
    requires Shaped(ap)
  {
    match ev
    case Leave(b) => a == b
    case AgeOut(k) => k < |ap.slots| && Holds(ap.slots[k], a)
    case MlmeDeauth(k, b) => a == b && k < |ap.slots| && Holds(ap.slots[k], a)
    case PeerDeauth(k, bssid, b) =>
      a == b && k < |ap.slots| && Holds(ap.slots[k], a) && ap.bsss[ap.slots[k].bss].bssid == bssid
    case _ => false
  }

  lemma DeleteRemoves(slots: seq<Station>, k: nat, b: Mac, a: Mac)
    requires Distinct(slots)
    ensures Present(Delete(slots, k, b), a) <==> Present(slots, a) && !(a == b && k < |slots| && Holds(slots[k], b))
  {
    var post := Delete(slots, k, b);
    if k < |slots| && Holds(slots[k], b) { OthersDoNot(slots, b, k); }
    if j :| 0 <= j < |slots| && Holds(post[j], a) { assert Holds(slots[j], a); }
    if j :| 0 <= j < |slots| && Holds(slots[j], a) { assert j != k || a != b ==> Holds(post[j], a); }
  }

  /** A removal takes exactly the station it names out of the table, and leaves every other slot as it was. */
  lemma RemovesExactly(ap: Ap, ev: Event, a: Mac, j: nat)
    requires Shaped(ap) && Distinct(ap.slots) && (ev.Leave? || ev.AgeOut? || ev.MlmeDeauth? || ev.PeerDeauth?)
    requires j < |ap.slots|
    ensures var o := Step(ap, ev);
            && (Present(o.ap.slots, a) <==> Present(ap.slots, a) && !Removes(ap, ev, a))
            && (!(ap.slots[j].used && Removes(ap, ev, ap.slots[j].addr)) ==> o.ap.slots[j] == ap.slots[j])
            && o == Outcome(WithSlots(ap, o.ap.slots), Silence, false)
  {
    var k := if ev.Leave? then Lookup(ap.slots, ev.addr, 0) else ev.wcid;
    if ev.Leave? { LookupIs(ap.slots, ev.addr); }
    if k < |ap.slots| {
      DeleteRemoves(ap.slots, k, if ev.MlmeDeauth? || ev.PeerDeauth? then ev.addr else ap.slots[k].addr, a);
    }
    hide Distinct, Lookup, Present;
  }

  /** Which answer an association request is given, exactly, and whether the station keeps its entry. */
  lemma AssocAnswerIff(ap: Ap, ev: Event, k: nat)
    requires Shaped(ap) && Distinct(ap.slots) && ev.AssocReq? && k < |ap.slots| && Holds(ap.slots[k], ev.addr)
    ensures var o, a, s := Step(ap, ev), ev.addr, ap.slots[k];
            var acl := ap.bsss[s.bss].acl;
            var listed := acl.policy == 0 || (if acl.policy == 1 then a in acl.list else a !in acl.list);
            if ap.banned || !ev.sane then o == Outcome(ap, Silence, false)
            else
              && o.reply == (if ev.acceptable && s.sst != NotAuth && !ev.weak && listed then AssocOk(a)
                             else AssocRefused(a))
              && (Present(o.ap.slots, a) <==> !ev.weak)
  {
    LookupIs(ap.slots, ev.addr);
    var f := Lookup(ap.slots, ev.addr, 0);
    assert Present(ap.slots, ev.addr) by { assert Holds(ap.slots[k], ev.addr); }
    OthersDoNot(ap.slots, ev.addr, k);
    assert f == k;
    var post := Step(ap, ev).ap.slots;
    forall j | 0 <= j < |post| && j != k ensures !Holds(post[j], ev.addr) {}
    assert !ev.weak ==> Holds(post[k], ev.addr);
    hide Distinct, Lookup;
  }

  /** A station that is not in the table gets no answer to an association request. */
  lemma AbsentGetsNoAnswer(ap: Ap, ev: Event)
    requires Shaped(ap) && ev.AssocReq? && !Present(ap.slots, ev.addr)
    ensures Step(ap, ev) == Outcome(ap, Silence, false)
  {
    LookupIs(ap.slots, ev.addr);
  }

  // ---------------------------------------------------------------- runs

  predicate AllInRange(ap: Ap, evs: seq<Event>) {
    forall ev :: ev in evs ==> InRange(ap, ev)
  }

  function Run(ap: Ap, evs: seq<Event>): (r: Ap)
    requires Shaped(ap) && AllInRange(ap, evs)
    ensures SameShape(ap, r)
  {
    if evs == [] then ap
    else
      var last := evs[|evs| - 1];
      var r := Run(ap, evs[..|evs| - 1]);
      assert last in evs && InRange(ap, last) && InRange(r, last);
      Step(r, last).ap
  }

  /** The multicast entry, an otherwise zeroed table, and the zeroed challenge memory. */
  ghost predicate Initial(ap: Ap) {
    && Shaped(ap) && ap.slots[0] == MulticastEntry() && ap.auxAddr == ZERO_MAC_ADDR
    && forall k :: 0 < k < |ap.slots| ==>
         !ap.slots[k].used && ap.slots[k].addr == ZERO_MAC_ADDR && ap.slots[k].sst == NotAuth
  }

  /** The hardware names the right slot. */
  predicate Honest(ap: Ap, ev: Event) {
    ev.AuthConfirm? ==> RightSlot(ap.slots, ev.wcid, ev.addr)
  }

  ghost predicate HonestRun(ap: Ap, evs: seq<Event>)
    requires Shaped(ap) && AllInRange(ap, evs)
  {
    evs == [] || (HonestRun(ap, evs[..|evs| - 1]) && Honest(Run(ap, evs[..|evs| - 1]), evs[|evs| - 1]))
  }

  /** Moreover every change of a list is followed by its update, as all commands of the driver do. */
  ghost predicate Disciplined(ap: Ap, ev: Event) {
    Honest(ap, ev) && !ev.WriteAcl? && (ev.ChangeAcl? ==> ev.acl.policy <= 2)
  }

  ghost predicate DisciplinedRun(ap: Ap, evs: seq<Event>)
    requires Shaped(ap) && AllInRange(ap, evs)
  {
    evs == [] || (DisciplinedRun(ap, evs[..|evs| - 1]) && Disciplined(Run(ap, evs[..|evs| - 1]), evs[|evs| - 1]))
  }

  lemma {:induction false} DisciplinedIsHonest(ap: Ap, evs: seq<Event>)
    requires Shaped(ap) && AllInRange(ap, evs) && DisciplinedRun(ap, evs)
    ensures HonestRun(ap, evs)
  {
    if evs != [] { DisciplinedIsHonest(ap, evs[..|evs| - 1]); }
  }

  /** No step puts an address into the table twice, whatever slot the hardware names. */
  lemma StepKeepsDistinct(ap: Ap, ev: Event)
    requires Shaped(ap) && InRange(ap, ev) && Distinct(ap.slots)
    ensures Distinct(Step(ap, ev).ap.slots)
  {
    if ev.AuthConfirm? {
      var post := Step(ap, ev).ap.slots;
      forall j | 0 <= j < |post| && post[j].used ensures ap.slots[j].used && post[j].addr == ap.slots[j].addr {
        ConfirmedSlot(ap, ev, j);
      }
    } else {
      var k := StepIsEffect(ap, ev);
      EffectKeepsDistinct(ap.slots, Step(ap, ev).ap.slots, k, Subject(ev));
    }
  }

  /** The list of BSS `x`, and whether admissions are suspended: as the last command said. */
  function Commanded(ap: Ap, evs: seq<Event>, x: nat): (Acl, bool)
    requires x < |ap.bsss|
  {
    if evs == [] then (ap.bsss[x].acl, ap.banned)
    else
      var (acl, banned) := Commanded(ap, evs[..|evs| - 1], x);
      match evs[|evs| - 1]
      case ChangeAcl(y, acl') => (if x == y then acl' else acl, banned)
      case WriteAcl(y, acl') => (if x == y then acl' else acl, banned)
      case Ban(on) => (acl, on)
      case _ => (acl, banned)
  }

  /** Every run leaves the lists and the suspension as commanded, and everything else of the BSSs as it was. */
  lemma {:induction false} CommandsHold(ap: Ap, evs: seq<Event>, x: nat)
    requires Shaped(ap) && AllInRange(ap, evs) && x < |ap.bsss|
    ensures var t := Run(ap, evs);
            (t.bsss[x].acl, t.banned) == Commanded(ap, evs, x) && SameBut(t.bsss[x], ap.bsss[x])
  {
    if evs != [] {
      CommandsHold(ap, evs[..|evs| - 1], x);
      assert evs[|evs| - 1] in evs;
      StepCommands(Run(ap, evs[..|evs| - 1]), evs[|evs| - 1], x);
      hide Step;
    }
  }

  lemma StepCommands(ap: Ap, ev: Event, x: nat)
    requires Shaped(ap) && InRange(ap, ev) && x < |ap.bsss|
    ensures var t := Step(ap, ev).ap;
            && SameBut(t.bsss[x], ap.bsss[x])
            && t.bsss[x].acl == (if (ev.ChangeAcl? || ev.WriteAcl?) && ev.bss == x then ev.acl else ap.bsss[x].acl)
            && t.banned == if ev.Ban? then ev.on else ap.banned
  {
    hide Purged, Kept, Admitted, DeleteSlot, FindBss, Passes, Lookup, Associated;
  }

  lemma {:induction false} EveryRunIsDistinct(ap: Ap, evs: seq<Event>)
    requires Initial(ap) && AllInRange(ap, evs)
    ensures Distinct(Run(ap, evs).slots)
  {
    if evs != [] {
      EveryRunIsDistinct(ap, evs[..|evs| - 1]);
      assert evs[|evs| - 1] in evs;
      StepKeepsDistinct(Run(ap, evs[..|evs| - 1]), evs[|evs| - 1]);
    }
  }

  // ---------------------------------------------------------------- access control

  /** Every station in the table may be there, by the list of its BSS. */
  ghost predicate AclOk(ap: Ap)
    requires Shaped(ap)
  {
    forall k :: 0 <= k < |ap.slots| && ap.slots[k].used ==>
      var acl, a := ap.bsss[ap.slots[k].bss].acl, ap.slots[k].addr;
      (acl.policy == 1 ==> a in acl.list) && (acl.policy > 1 ==> a !in acl.list)
  }

  /** The removal test and the admission test are complements exactly for the defined policies. */
  lemma DropsIffNotPasses(policy: nat, list: seq<Mac>)
    ensures (forall a: Mac :: Drops(Acl(policy, list), a) <==> !Passes(Acl(policy, list), a)) <==>
            policy <= 2 || list == []
  {
    if policy > 2 && list != [] {
      assert !Drops(Acl(policy, list), list[0]) && !Passes(Acl(policy, list), list[0]);
    }
  }

  lemma PurgeKeepsAclOk(ap: Ap, x: nat, acl: Acl)
    requires Shaped(ap) && AclOk(ap) && x < |ap.bsss| && acl.policy <= 2
    ensures AclOk(Step(ap, ChangeAcl(x, acl)).ap)
  {
    PurgedSlots(ap.slots, x, acl, 0);
    hide Purged;
    var o := Step(ap, ChangeAcl(x, acl)).ap;
    forall k | 0 <= k < |o.slots| && o.slots[k].used
      ensures var list, a := o.bsss[o.slots[k].bss].acl, o.slots[k].addr;
              (list.policy == 1 ==> a in list.list) && (list.policy > 1 ==> a !in list.list)
    {
      assert o.slots[k] == ap.slots[k];
    }
  }

  /** A step other than a new list: each station left was there before, or passed the test of its BSS just now. */
  lemma NewcomersPass(ap: Ap, ev: Event, j: nat)
    requires Shaped(ap) && InRange(ap, ev) && !ev.ChangeAcl? && !ev.WriteAcl? && Distinct(ap.slots)
    requires ev.AuthConfirm? ==> RightSlot(ap.slots, ev.wcid, ev.addr)
    requires AclOk(ap) && j < |ap.slots| && Step(ap, ev).ap.slots[j].used
    ensures var o := Step(ap, ev).ap; Passes(ap.bsss[o.slots[j].bss].acl, o.slots[j].addr)
  {
    var o := Step(ap, ev);
    var k := StepIsEffect(ap, ev);
    if j != k {
      assert SameLife(ap.slots[j], o.ap.slots[j]);
    } else {
      match ev
      case AuthReq(bssid, a, alg, full, text) =>
        AdmittedIsEffect(ap, bssid, a, FindBss(ap.bsss, bssid, 0), full);
        AuthReqNewcomer(ap, bssid, a, alg, full, text, j);
      case AuthConfirm(w, _, a, _, _) => ConfirmedSlot(ap, ev, j);
      case AssocReq(a, _, _, _, _) => AssociatedSlot(ap, ev, j);
    }
  }

  lemma AuthReqNewcomer(ap: Ap, bssid: Mac, a: Mac, alg: Alg, full: bool, text: seq<byte>, j: nat)
    requires Shaped(ap) && Distinct(ap.slots) && AclOk(ap) && j < |ap.slots|
    requires var o := OnAuthReq(ap, bssid, a, alg, full, text);
             (o.reply == AuthOk(a) || o.reply == Challenged(a)) && Holds(o.ap.slots[j], a)
    ensures var s := OnAuthReq(ap, bssid, a, alg, full, text).ap.slots[j]; Passes(ap.bsss[s.bss].acl, a)
  {
    var x := FindBss(ap.bsss, bssid, 0);
    var (slots, kept) := Kept(ap, bssid, a);
    var (slots', i) := Admitted(slots, kept, a, x, full);
    KeptIsEffect(ap, bssid, a);
    AdmittedIsEffect(ap, bssid, a, x, full);
    EffectKeepsDistinct(ap.slots, slots', i, a);
    if i < |slots'| {
      OthersDoNot(slots', a, i);
    }
  }

  /** A confirmation changes neither address nor BSS. */
  lemma ConfirmedSlot(ap: Ap, ev: Event, j: nat)
    requires Shaped(ap) && ev.AuthConfirm? && j < |ap.slots| && Step(ap, ev).ap.slots[j].used
    ensures var s := Step(ap, ev).ap.slots[j];
            ap.slots[j].used && s.addr == ap.slots[j].addr && s.bss == ap.slots[j].bss
  {
  }

  lemma AssociatedSlot(ap: Ap, ev: Event, j: nat)
    requires Shaped(ap) && ev.AssocReq? && j < |ap.slots| && Step(ap, ev).ap.slots[j].used
    ensures var s := Step(ap, ev).ap.slots[j];
            ap.slots[j].used && s.addr == ap.slots[j].addr && s.bss == ap.slots[j].bss
  {
  }

  lemma StepKeepsAclOk(ap: Ap, ev: Event)
    requires Shaped(ap) && InRange(ap, ev) && Distinct(ap.slots) && AclOk(ap) && Disciplined(ap, ev)
    ensures AclOk(Step(ap, ev).ap)
  {
    if ev.ChangeAcl? {
      PurgeKeepsAclOk(ap, ev.bss, ev.acl);
    } else {
      var o := Step(ap, ev).ap;
      BsssKept(ap, ev);
      forall j | 0 <= j < |o.slots| && o.slots[j].used ensures Passes(o.bsss[o.slots[j].bss].acl, o.slots[j].addr) {
        NewcomersPass(ap, ev, j);
      }
    }
  }

  /** The same BSS, but for its list. */
  predicate SameBut(b: Bss, c: Bss) {
    b.bssid == c.bssid && b.mode == c.mode && b.dot1x == c.dot1x && b.iface == c.iface && b.hostapd == c.hostapd
  }

  /** Only a new list changes a BSS, and only its list. */
  lemma BsssKept(ap: Ap, ev: Event)
    requires Shaped(ap) && InRange(ap, ev)
    ensures !ev.ChangeAcl? && !ev.WriteAcl? ==> Step(ap, ev).ap.bsss == ap.bsss
    ensures forall x :: 0 <= x < |ap.bsss| ==> SameBut(Step(ap, ev).ap.bsss[x], ap.bsss[x])
  {
  }

  /**
   * In every disciplined run no address is in the table twice, and every station is on the list of its
   * BSS where the policy is 1, and not on it where the policy is another but 0.
   */
  lemma {:induction false} EveryRunPassesAcl(ap: Ap, evs: seq<Event>)
    requires Initial(ap) && AllInRange(ap, evs)
    requires DisciplinedRun(ap, evs)
    ensures Distinct(Run(ap, evs).slots) && AclOk(Run(ap, evs))
  {
    if evs != [] {
      var before, ev := evs[..|evs| - 1], evs[|evs| - 1];
      EveryRunPassesAcl(ap, before);
      var t := Run(ap, before);
      assert ev in evs;
      var k := StepIsEffect(t, ev);
      EffectKeepsDistinct(t.slots, Step(t, ev).ap.slots, k, Subject(ev));
      StepKeepsAclOk(t, ev);
    }
  }

  // ---------------------------------------------------------------- authentication and association

  /** The last frame of a run, in the state before it. */
  function LastOutcome(ap: Ap, evs: seq<Event>): Outcome
    requires Shaped(ap) && evs != [] && AllInRange(ap, evs)
  {
    var r := Run(ap, evs[..|evs| - 1]);
    var last := evs[|evs| - 1];
    assert last in evs && InRange(ap, last) && InRange(r, last);
    Step(r, last)
  }

  /**
   * The standing of a station as the standard's state machine sees it, from the answers the access
   * point sent and from whether the station is in its table.
   */
  ghost function Standing(ap: Ap, evs: seq<Event>, a: Mac): Sst
    requires Shaped(ap) && AllInRange(ap, evs)
  {
    if evs == [] then NotAuth
    else
      var o := LastOutcome(ap, evs);
      if !Present(o.ap.slots, a) then NotAuth
      else if o.reply == AuthOk(a) then Auth
      else if o.reply == Challenged(a) then NotAuth
      else if o.reply == AssocOk(a) then Assoc
      else Standing(ap, evs[..|evs| - 1], a)
  }

  ghost predicate StandsAt(slots: seq<Station>, a: Mac, sst: Sst) {
    && (forall k :: 0 <= k < |slots| && Holds(slots[k], a) ==> slots[k].sst == sst)
    && (!Present(slots, a) ==> sst == NotAuth)
  }

  lemma OthersStand(pre: seq<Station>, post: seq<Station>, k: nat, a: Mac, b: Mac, sst: Sst)
    requires Effect(pre, post, k, a) && StandsAt(pre, b, sst) && (b != a || k == |pre|)
    ensures StandsAt(post, b, if Present(post, b) then sst else NotAuth)
  {
    forall j | 0 <= j < |post| && Holds(post[j], b) ensures post[j].sst == sst {
      assert SameLife(pre[j], post[j]);
    }
  }

  lemma SubjectStands(post: seq<Station>, k: nat, a: Mac)
    requires Distinct(post) && k < |post| && Holds(post[k], a)
    ensures StandsAt(post, a, post[k].sst) && Present(post, a)
  {
    OthersDoNot(post, a, k);
  }

  /** One step, seen from one address. */
  lemma StepStands(ap: Ap, ev: Event, a: Mac, sst: Sst)
    requires Shaped(ap) && InRange(ap, ev) && Distinct(ap.slots) && Honest(ap, ev) && StandsAt(ap.slots, a, sst)
    ensures var o := Step(ap, ev);
            StandsAt(o.ap.slots, a,
                     if !Present(o.ap.slots, a) then NotAuth
                     else if o.reply == AuthOk(a) then Auth
                     else if o.reply == Challenged(a) then NotAuth
                     else if Makes(ap, ev) && ev.addr == a then Assoc
                     else sst)
  {
    hide Step, Effect, Present, RightSlot, Distinct, StandsAt, Makes;
    var o := Step(ap, ev);
    var k := StepIsEffect(ap, ev);
    var b := Subject(ev);
    MakesOnlyOnRequest(ap, ev);
    EffectKeepsDistinct(ap.slots, o.ap.slots, k, b);
    if k < |ap.slots| {
      EffectHolds(ap.slots, o.ap.slots, k, b);
      SubjectStands(o.ap.slots, k, b);
    }
    if a != b || k == |ap.slots| {
      OthersStand(ap.slots, o.ap.slots, k, b, a, sst);
    }
  }

  lemma MakesOnlyOnRequest(ap: Ap, ev: Event)
    ensures Makes(ap, ev) ==> ev.AssocReq?
  {
  }

  /** The last frame was an association request of `a`, fit to be accepted, and was refused for the list. */
  ghost predicate RefusedForList(ap: Ap, evs: seq<Event>, a: Mac)
    requires Shaped(ap) && AllInRange(ap, evs) && evs != []
  {
    var ev := evs[|evs| - 1];
    && ev.AssocReq? && ev.addr == a && ev.acceptable && !ev.weak && LastOutcome(ap, evs).reply == AssocRefused(a)
    && Standing(ap, evs[..|evs| - 1], a) != NotAuth
  }

  /**
   * Since the station was last authenticated, the last association it was fit for was refused for
   * the list, and none was confirmed.
   */
  ghost predicate OnlyRefused(ap: Ap, evs: seq<Event>, a: Mac)
    requires Shaped(ap) && AllInRange(ap, evs)
  {
    evs != [] &&
    var before, o := evs[..|evs| - 1], LastOutcome(ap, evs);
    && Present(o.ap.slots, a) && o.reply != AuthOk(a) && o.reply != Challenged(a) && o.reply != AssocOk(a)
    && if RefusedForList(ap, evs, a) then Standing(ap, before, a) != Assoc else OnlyRefused(ap, before, a)
  }

  /** What the answer to an association request says about whether the association was made. */
  lemma MakesIff(ap: Ap, ev: Event, a: Mac, sst: Sst)
    requires Shaped(ap) && InRange(ap, ev) && StandsAt(ap.slots, a, sst)
    ensures var o := Step(ap, ev);
            && (o.reply == AssocOk(a) ==> Makes(ap, ev) && ev.addr == a && sst != NotAuth)
            && (Makes(ap, ev) && ev.addr == a && o.reply != AssocOk(a) ==>
                  o.reply == AssocRefused(a) && sst != NotAuth && ev.acceptable && !ev.weak)
            && (ev.AssocReq? && ev.addr == a && ev.acceptable && !ev.weak && o.reply == AssocRefused(a) ==>
                  Makes(ap, ev) || sst == NotAuth)
  {
    if ev.AssocReq? {
      var k := Lookup(ap.slots, ev.addr, 0);
      assert k < |ap.slots| ==> Holds(ap.slots[k], ev.addr);
    }
  }

  /**
   * Where the hardware names the right slots, whatever is done to the lists: each entry's state is
   * its standing, except that it is associated against it exactly when the last association it was
   * fit for since its authentication failed the list.
   */
  lemma {:induction false} TableShowsStandingIff(ap: Ap, evs: seq<Event>, a: Mac)
    requires Initial(ap) && AllInRange(ap, evs) && HonestRun(ap, evs)
    ensures StandsAt(Run(ap, evs).slots, a, if OnlyRefused(ap, evs, a) then Assoc else Standing(ap, evs, a))
    ensures OnlyRefused(ap, evs, a) ==> Standing(ap, evs, a) == Auth
  {
    if evs != [] {
      var before, ev := evs[..|evs| - 1], evs[|evs| - 1];
      TableShowsStandingIff(ap, before, a);
      EveryRunIsDistinct(ap, before);
      assert ev in evs;
      var t := Run(ap, before);
      var sst := if OnlyRefused(ap, before, a) then Assoc else Standing(ap, before, a);
      StepStands(t, ev, a, sst);
      MakesIff(t, ev, a, sst);
      hide Step, StandsAt, Makes, Present;
    }
  }

  /** A step that does it: the list was changed without its update, and the refused association is made. */
  lemma RefusedStillAssociates(ap: Ap, k: nat, rsn: bool)
    requires Shaped(ap) && !ap.banned && k < |ap.slots| && Lookup(ap.slots, ap.slots[k].addr, 0) == k
    requires ap.slots[k].sst == Auth && !Passes(ap.bsss[ap.slots[k].bss].acl, ap.slots[k].addr)
    ensures var o := Step(ap, AssocReq(ap.slots[k].addr, true, true, rsn, false));
            o.reply == AssocRefused(ap.slots[k].addr) && o.ap.slots[k].used && o.ap.slots[k].sst == Assoc
  {
  }

  /** A refusal for the list needs a station that its BSS's list does not let pass. */
  lemma RefusedFails(ap: Ap, ev: Event)
    requires Shaped(ap) && InRange(ap, ev) && AclOk(ap) && Makes(ap, ev)
    ensures Step(ap, ev).reply == AssocOk(ev.addr)
  {
  }

  lemma {:induction false} NeverOnlyRefused(ap: Ap, evs: seq<Event>, a: Mac)
    requires Initial(ap) && AllInRange(ap, evs) && DisciplinedRun(ap, evs)
    ensures !OnlyRefused(ap, evs, a)
  {
    if evs != [] {
      var before, ev := evs[..|evs| - 1], evs[|evs| - 1];
      NeverOnlyRefused(ap, before, a);
      DisciplinedIsHonest(ap, evs);
      TableShowsStandingIff(ap, before, a);
      EveryRunPassesAcl(ap, before);
      assert ev in evs;
      var t := Run(ap, before);
      MakesIff(t, ev, a, Standing(ap, before, a));
      if Makes(t, ev) { RefusedFails(t, ev); }
      hide Step, StandsAt, Makes, Present;
    }
  }

  /** In every disciplined run the table shows each station's standing, exactly. */
  lemma TableShowsStanding(ap: Ap, evs: seq<Event>, a: Mac)
    requires Initial(ap) && AllInRange(ap, evs) && DisciplinedRun(ap, evs)
    ensures StandsAt(Run(ap, evs).slots, a, Standing(ap, evs, a))
  {
    DisciplinedIsHonest(ap, evs);
    NeverOnlyRefused(ap, evs, a);
    TableShowsStandingIff(ap, evs, a);
  }

  lemma Prefixes(evs: seq<Event>, n: nat)
    requires n <= |evs| && evs != []
    ensures n < |evs| ==> evs[..|evs| - 1][..n] == evs[..n]
  {
  }

  lemma LastIsRun(ap: Ap, evs: seq<Event>)
    requires Shaped(ap) && evs != [] && AllInRange(ap, evs)
    ensures LastOutcome(ap, evs).ap == Run(ap, evs)
  {
  }

  lemma EmptyRun(ap: Ap)
    requires Shaped(ap)
    ensures AllInRange(ap, []) && Run(ap, []) == ap && DisciplinedRun(ap, [])
  {
  }

  lemma RunSnoc(ap: Ap, evs: seq<Event>, ev: Event)
    requires Shaped(ap) && AllInRange(ap, evs) && InRange(ap, ev)
    ensures AllInRange(ap, evs + [ev]) && LastOutcome(ap, evs + [ev]) == Step(Run(ap, evs), ev)
    ensures Run(ap, evs + [ev]) == Step(Run(ap, evs), ev).ap
    ensures DisciplinedRun(ap, evs + [ev]) <==> DisciplinedRun(ap, evs) && Disciplined(Run(ap, evs), ev)
  {
    assert (evs + [ev])[..|evs|] == evs;
    hide Step, Disciplined;
  }

  lemma PlainEvent(ap: Ap, t: Ap, ev: Event)
    requires !ev.AuthConfirm? && !ev.ChangeAcl? && !ev.WriteAcl?
    ensures InRange(ap, ev) && Disciplined(t, ev)
  {
  }

  /** An association is only accepted from a station that was authenticated before. */
  lemma AcceptedWasAuthenticated(ap: Ap, evs: seq<Event>, a: Mac)
    requires Initial(ap) && evs != [] && AllInRange(ap, evs)
    requires HonestRun(ap, evs) && LastOutcome(ap, evs).reply == AssocOk(a)
    ensures Standing(ap, evs[..|evs| - 1], a) != NotAuth
  {
    var before, ev := evs[..|evs| - 1], evs[|evs| - 1];
    TableShowsStandingIff(ap, before, a);
    assert ev in evs;
    MakesIff(Run(ap, before), ev, a, if OnlyRefused(ap, before, a) then Assoc else Standing(ap, before, a));
  }

  /** A standing other than the lowest: the station is present, and was authenticated now or stood so before. */
  lemma StandingMeans(ap: Ap, evs: seq<Event>, a: Mac)
    requires Initial(ap) && AllInRange(ap, evs)
    requires HonestRun(ap, evs) && Standing(ap, evs, a) != NotAuth
    ensures evs != [] && Present(Run(ap, evs).slots, a)
    ensures LastOutcome(ap, evs).reply == AuthOk(a) ||
            (Standing(ap, evs[..|evs| - 1], a) != NotAuth && LastOutcome(ap, evs).reply != Challenged(a))
  {
    LastIsRun(ap, evs);
    if LastOutcome(ap, evs).reply == AssocOk(a) { AcceptedWasAuthenticated(ap, evs, a); }
  }

  /**
   * The entry made or renewed by event `i`: the station is in the table after it and ever since, and no
   * later answer authenticated or challenged it, which is the only way to a new entry.
   */
  ghost predicate EntrySince(ap: Ap, evs: seq<Event>, a: Mac, i: nat)
    requires Shaped(ap) && AllInRange(ap, evs)
  {
    && (forall n :: i <= n <= |evs| ==> Present(Run(ap, evs[..n]).slots, a))
    && (forall n :: i < n <= |evs| ==> !Renews(LastOutcome(ap, evs[..n]).reply, a))
  }

  predicate Renews(reply: Reply, a: Mac) {
    reply == AuthOk(a) || reply == Challenged(a)
  }

  /** Only an answer that authenticates or challenges a station comes with a new entry for it. */
  lemma NewEntryRenews(ap: Ap, ev: Event, j: nat)
    requires Shaped(ap) && InRange(ap, ev) && Distinct(ap.slots) && Honest(ap, ev)
    requires j < |ap.slots| && Step(ap, ev).ap.slots[j].used
    ensures var s, o := ap.slots[j], Step(ap, ev);
            (s.used && s.addr == o.ap.slots[j].addr && s.bss == o.ap.slots[j].bss) ||
            Renews(o.reply, o.ap.slots[j].addr)
  {
    var k := StepIsEffect(ap, ev);
    if j != k {
      assert SameLife(ap.slots[j], Step(ap, ev).ap.slots[j]);
    } else if ev.AuthConfirm? {
      ConfirmedSlot(ap, ev, j);
    } else if ev.AssocReq? {
      AssociatedSlot(ap, ev, j);
    }
    hide Step;
  }

  lemma StillEntry(ap: Ap, evs: seq<Event>, a: Mac, i: nat)
    requires Shaped(ap) && AllInRange(ap, evs) && evs != [] && Present(Run(ap, evs).slots, a)
    requires i == |evs| || (EntrySince(ap, evs[..|evs| - 1], a, i) && !Renews(LastOutcome(ap, evs).reply, a))
    ensures EntrySince(ap, evs, a, i)
  {
    hide Run, LastOutcome, Present, Renews;
    var before := evs[..|evs| - 1];
    assert evs[..|evs|] == evs;
    forall n | i <= n <= |evs| ensures Present(Run(ap, evs[..n]).slots, a) {
      if n < |evs| { assert before[..n] == evs[..n]; }
    }
    forall n | i < n <= |evs| ensures !Renews(LastOutcome(ap, evs[..n]).reply, a) {
      if n < |evs| { assert before[..n] == evs[..n]; }
    }
  }

  /** A standing above the lowest was reached by a successful authentication, and the entry is still that one. */
  lemma {:induction false} AuthMeans(ap: Ap, evs: seq<Event>, a: Mac) returns (i: nat)
    requires Initial(ap) && AllInRange(ap, evs)
    requires HonestRun(ap, evs) && Standing(ap, evs, a) != NotAuth
    ensures 0 < i <= |evs| && LastOutcome(ap, evs[..i]).reply == AuthOk(a) && EntrySince(ap, evs, a, i)
  {
    StandingMeans(ap, evs, a);
    assert evs[..|evs|] == evs;
    if LastOutcome(ap, evs).reply == AuthOk(a) {
      i := |evs|;
    } else {
      hide Run, LastOutcome, Present, Standing, EntrySince, AllInRange;
      i := AuthMeans(ap, evs[..|evs| - 1], a);
      Prefixes(evs, i);
      assert !Renews(LastOutcome(ap, evs).reply, a);
    }
    hide *;
    StillEntry(ap, evs, a, i);
  }

  /** An associated standing was reached, in the same entry, by an authentication and then an accepted association. */
  lemma {:induction false} AssocMeans(ap: Ap, evs: seq<Event>, a: Mac) returns (i: nat, j: nat)
    requires Initial(ap) && AllInRange(ap, evs)
    requires HonestRun(ap, evs) && Standing(ap, evs, a) == Assoc
    ensures 0 < i < j <= |evs|
    ensures LastOutcome(ap, evs[..i]).reply == AuthOk(a) && LastOutcome(ap, evs[..j]).reply == AssocOk(a)
    ensures EntrySince(ap, evs, a, i)
  {
    StandingMeans(ap, evs, a);
    var before := evs[..|evs| - 1];
    assert evs[..|evs|] == evs;
    assert !Renews(LastOutcome(ap, evs).reply, a);
    if LastOutcome(ap, evs).reply == AssocOk(a) {
      j := |evs|;
      i := AuthMeans(ap, before, a);
    } else {
      i, j := AssocMeans(ap, before, a);
    }
    hide *;
    Prefixes(evs, i);
    Prefixes(evs, j);
    StillEntry(ap, evs, a, i);
  }
}
