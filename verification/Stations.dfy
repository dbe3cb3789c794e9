/**
 * The station table of the access point and what each frame or command does to it (section 10.3
 * of IEEE 802.11-2012): authentication, association, port control, access control lists and
 * class 2/3 errors. Class StationTable carries these steps out on the slot array.
 */
module Stations {
  import opened Common

  datatype Sst = NotAuth | Auth | Assoc
  datatype AuthState = AsNotAuth | AsOpen | AsAuthenticating | AsKey
  datatype Port = PortOpen | PortNotSecured

  /** The driver's order: modes from Wpa on need a key handshake. */
  datatype AuthMode = Open | Shared | AutoSwitch | Wpa

  datatype Alg = AlgOpen | AlgKey
  datatype Iface = Absent | Down | Running

  datatype Acl = Acl(policy: nat, list: seq<Mac>)
  /** `hostapd`: a user-space authenticator drives the BSS through cfg80211. */
  datatype Bss = Bss(bssid: Mac, mode: AuthMode, dot1x: bool, iface: Iface, hostapd: bool, acl: Acl)

  /** One slot; an unused one keeps what its last owner left. */
  datatype Station = Station(used: bool, addr: Mac, bss: nat, sst: Sst, authState: AuthState, port: Port)

  /** The table, the BSSs, and the one pending shared-key challenge. */
  datatype Ap = Ap(slots: seq<Station>, bsss: seq<Bss>, auxAddr: Mac, auxText: seq<byte>, banned: bool)

  predicate Shaped(ap: Ap) {
    |ap.slots| > 0 && forall k :: 0 <= k < |ap.slots| ==> ap.slots[k].bss < |ap.bsss|
  }

  predicate SameShape(ap: Ap, r: Ap) {
    Shaped(r) && |r.slots| == |ap.slots| && |r.bsss| == |ap.bsss|
  }

  const MCAST_ADDR: Mac := [1, 0, 0, 0, 0, 0]

  /** Slot 0 is no station: mgmt_tb_set_mcast_entry marks it associated at start-up. */
  function MulticastEntry(): Station {
    Station(false, MCAST_ADDR, 0, Assoc, AsNotAuth, PortOpen)
  }

  // ---------------------------------------------------------------- table operations

  predicate Holds(s: Station, a: Mac) {
    s.used && s.addr == a
  }

  /** The slot of an address, or the table's length. */
  function Lookup(slots: seq<Station>, a: Mac, from: nat): (k: nat)
    requires from <= |slots|
    ensures from <= k <= |slots|
    ensures k < |slots| ==> Holds(slots[k], a)
    ensures forall j :: from <= j < k ==> !Holds(slots[j], a)
    decreases |slots| - from
  {
    if from == |slots| || Holds(slots[from], a) then from else Lookup(slots, a, from + 1)
  }

  function FirstFree(slots: seq<Station>, from: nat): (k: nat)
    requires from <= |slots|
    ensures from <= k <= |slots| && (k < |slots| ==> !slots[k].used)
    decreases |slots| - from
  {
    if from == |slots| || !slots[from].used then from else FirstFree(slots, from + 1)
  }

  function Fresh(a: Mac, bss: nat): Station {
    Station(true, a, bss, NotAuth, AsNotAuth, PortNotSecured)
  }

  /** MacTableInsertEntry from slot 1 on; a BSS at its station limit leaves the slot initialised but unused. */
  function Insert(slots: seq<Station>, a: Mac, bss: nat, full: bool): (seq<Station>, nat)
    requires |slots| > 0
  {
    var k := FirstFree(slots, 1);
    if k == |slots| then (slots, |slots|)
    else if full then (slots[k := Fresh(a, bss).(used := false)], |slots|)
    else (slots[k := Fresh(a, bss)], k)
  }

  /** MacTableDeleteEntry: only with the entry's own address; the state fields stay behind. */
  function Delete(slots: seq<Station>, k: nat, a: Mac): seq<Station> {
    if k < |slots| && Holds(slots[k], a) then slots[k := slots[k].(used := false, addr := ZERO_MAC_ADDR)] else slots
  }

  function DeleteSlot(slots: seq<Station>, k: nat): seq<Station> {
    if k < |slots| then Delete(slots, k, slots[k].addr) else slots
  }

  function FindBss(bsss: seq<Bss>, bssid: Mac, from: nat): (k: nat)
    requires from <= |bsss|
    ensures from <= k <= |bsss| && (k < |bsss| ==> bsss[k].bssid == bssid)
    decreases |bsss| - from
  {
    if from == |bsss| || bsss[from].bssid == bssid then from else FindBss(bsss, bssid, from + 1)
  }

  /** ApCheckAccessControlList: policy 1 lists who may come, any other but 0 who may not. */
  predicate Passes(acl: Acl, a: Mac) {
    acl.policy == 0 || (acl.policy == 1 <==> a in acl.list)
  }

  /** The drop test of ApUpdateAccessControlList. */
  predicate Drops(acl: Acl, a: Mac) {
    (acl.policy == 1 && a !in acl.list) || (acl.policy == 2 && a in acl.list)
  }

  // ---------------------------------------------------------------- frames and commands

  datatype Event =
    | AuthReq(bssid: Mac, addr: Mac, alg: Alg, full: bool, text: seq<byte>)
    | AuthConfirm(wcid: nat, bssid: Mac, addr: Mac, wep: bool, text: seq<byte>)
    | AssocReq(addr: Mac, sane: bool, acceptable: bool, rsn: bool, weak: bool)
    | PeerDeauth(wcid: nat, bssid: Mac, addr: Mac)
    | MlmeDeauth(wcid: nat, addr: Mac)
    | Leave(addr: Mac)                  // a disassociation by the peer, or a kick-out
    | AgeOut(wcid: nat)                 // a removal by the table's maintenance
    | Data(wcid: nat, addr: Mac, fromDs: bool, toDs: bool)
    | Send(wcid: nat, eapol: bool)      // a unicast packet for the client; `eapol` also stands for WAI
    | KeysDone(wcid: nat)               // the key handshake succeeded
    | KeysLost(wcid: nat)               // the authenticator took the station's authorization back
    | ChangeAcl(bss: nat, acl: Acl)     // a new list and ApUpdateAccessControlList
    | WriteAcl(bss: nat, acl: Acl)      // a new list alone
    | Ban(on: bool)

  datatype Reply =
    | Silence
    | AuthOk(addr: Mac)
    | Challenged(addr: Mac)
    | AuthRefused(addr: Mac)
    | AssocOk(addr: Mac)
    | AssocRefused(addr: Mac)

  /** The new state, the management frame sent, and whether a data frame was let through. */
  datatype Outcome = Outcome(ap: Ap, reply: Reply, passed: bool)

  function Quiet(ap: Ap): Outcome {
    Outcome(ap, Silence, false)
  }

  function WithSlots(ap: Ap, slots: seq<Station>): Ap {
    ap.(slots := slots)
  }

  /** The slot a station keeps when it authenticates again, or the table's length: a change of BSS removes it. */
  function Kept(ap: Ap, bssid: Mac, a: Mac): (r: (seq<Station>, nat))
    requires Shaped(ap)
    ensures |r.0| == |ap.slots| && r.1 <= |r.0| && forall j :: 0 <= j < |r.0| ==> r.0[j].bss == ap.slots[j].bss
  {
    var k := Lookup(ap.slots, a, 0);
    if k < |ap.slots| && ap.bsss[ap.slots[k].bss].bssid != bssid then (DeleteSlot(ap.slots, k), |ap.slots|)
    else (ap.slots, k)
  }

  /** The slot to authenticate: the one kept, or a new one. */
  function Admitted(slots: seq<Station>, k: nat, a: Mac, bss: nat, full: bool): (r: (seq<Station>, nat))
    requires k <= |slots| && |slots| > 0
    ensures |r.0| == |slots| && r.1 <= |slots| && forall j :: 0 <= j < |slots| ==> r.0[j].bss in {slots[j].bss, bss}
  {
    if k < |slots| then (slots, k) else Insert(slots, a, bss, full)
  }

  /** APPeerAuthReqAtIdleAction. */
  function OnAuthReq(ap: Ap, bssid: Mac, a: Mac, alg: Alg, full: bool, text: seq<byte>): (o: Outcome)
    requires Shaped(ap)
    ensures SameShape(ap, o.ap)
  {
    var x := FindBss(ap.bsss, bssid, 0);
    if ap.banned || x == |ap.bsss| || !ap.bsss[x].iface.Running? then Quiet(ap)
    else
      var (slots, k) := Kept(ap, bssid, a);
      var mode := ap.bsss[x].mode;
      if !Passes(ap.bsss[x].acl, a) then Outcome(WithSlots(ap, DeleteSlot(slots, k)), AuthRefused(a), false)
      else if alg.AlgOpen? && !mode.Shared? then
        var (slots', j) := Admitted(slots, k, a, x, full);
        if j < |slots'| then
          Outcome(WithSlots(ap, slots'[j := slots'[j].(authState := AsOpen, sst := Auth)]), AuthOk(a), false)
        else Quiet(WithSlots(ap, slots'))
      else if alg.AlgKey? && (mode.Shared? || mode.AutoSwitch?) then
        var (slots', j) := Admitted(slots, k, a, x, full);
        if j < |slots'| then
          Outcome(WithSlots(ap, slots'[j := slots'[j].(authState := AsAuthenticating, sst := NotAuth)])
                  .(auxAddr := a, auxText := text), Challenged(a), false)
        else Quiet(WithSlots(ap, slots'))
      else Outcome(WithSlots(ap, DeleteSlot(slots, k)), AuthRefused(a), false)
  }

  /** APPeerAuthConfirmAction; the slot is the one the hardware names. */
  function OnAuthConfirm(ap: Ap, k: nat, bssid: Mac, a: Mac, wep: bool, text: seq<byte>): (o: Outcome)
    requires Shaped(ap)
    ensures SameShape(ap, o.ap)
  {
    var x := FindBss(ap.bsss, bssid, 0);
    if x == |ap.bsss| || ap.bsss[x].iface.Down? || k >= |ap.slots| then Quiet(ap)
    else if (ap.slots[k].used && ap.bsss[ap.slots[k].bss].bssid != bssid) ||
            a != ap.auxAddr || !wep || text != ap.auxText then
      Outcome(WithSlots(ap, DeleteSlot(ap.slots, k)), AuthRefused(a), false)
    else Outcome(WithSlots(ap, ap.slots[k := ap.slots[k].(authState := AsKey, sst := Auth)]), AuthOk(a), false)
  }

  predicate NeedsKeys(b: Bss) {
    b.mode.Wpa? || b.dot1x
  }

  /** An accepted request without a security element leaves the port of a WPA station under hostapd as it was. */
  predicate LeavesPort(b: Bss, rsn: bool) {
    !rsn && b.mode.Wpa? && b.hostapd
  }

  /** A slot after APBuildAssociation accepted its request. */
  function Associated(s: Station, b: Bss, rsn: bool): Station {
    s.(sst := Assoc,
       port := if LeavesPort(b, rsn) then s.port else if NeedsKeys(b) then PortNotSecured else PortOpen)
  }

  /**
   * The decision path of an association request: `acceptable` sums up the rates and, where the
   * request carries one (`rsn`), its security element. The list and the signal are only consulted
   * for the answer, after the state was changed.
   */
  function OnAssocReq(ap: Ap, a: Mac, sane: bool, acceptable: bool, rsn: bool, weak: bool): (o: Outcome)
    requires Shaped(ap)
    ensures SameShape(ap, o.ap)
  {
    var k := Lookup(ap.slots, a, 0);
    if ap.banned || !sane || k == |ap.slots| then Quiet(ap)
    else
      var s := ap.slots[k];
      var b := ap.bsss[s.bss];
      var accepted := acceptable && !s.sst.NotAuth?;
      var slots := if accepted then ap.slots[k := Associated(s, b, rsn)] else ap.slots;
      if weak then Outcome(WithSlots(ap, DeleteSlot(slots, k)), AssocRefused(a), false)
      else Outcome(WithSlots(ap, slots), if accepted && Passes(b.acl, a) then AssocOk(a) else AssocRefused(a), false)
  }

  /** dev_rx_data_frm: the named slot if it carries the sender's address, used or not, else the sender's own. */
  function Resolve(slots: seq<Station>, k: nat, a: Mac): (r: nat)
    ensures r <= |slots|
  {
    if 0 < k < |slots| && slots[k].addr == a then k else Lookup(slots, a, 0)
  }

  /** ap_rx_pkt_allow with APChkCls2Cls3Err; a sender that resolves to no slot is dropped before. */
  function OnData(ap: Ap, k: nat, a: Mac, fromDs: bool, toDs: bool): (o: Outcome)
    requires Shaped(ap)
    ensures SameShape(ap, o.ap)
  {
    var r := Resolve(ap.slots, k, a);
    if r == |ap.slots| || fromDs || !toDs then Quiet(ap)
    else if ap.slots[r].sst.Assoc? then Outcome(ap, Silence, !ap.banned)
    else Quiet(WithSlots(ap, Delete(ap.slots, r, a)))
  }

  /** The port gate of APSendPacket. */
  predicate Sends(ap: Ap, k: nat, eapol: bool)
    requires Shaped(ap)
  {
    k < |ap.slots| && ap.slots[k].used &&
    (ap.slots[k].port.PortNotSecured? ==> NeedsKeys(ap.bsss[ap.slots[k].bss]) && eapol)
  }

  /** The slots from `k` on after the removal loop of ApUpdateAccessControlList. */
  function Purged(slots: seq<Station>, x: nat, acl: Acl, k: nat): (r: seq<Station>)
    requires k <= |slots|
    ensures |r| == |slots| && forall j :: 0 <= j < |slots| ==> r[j].bss == slots[j].bss
    decreases |slots| - k
  {
    if k == |slots| then slots
    else
      var s := slots[k];
      Purged(if s.used && s.bss == x && Drops(acl, s.addr) then DeleteSlot(slots, k) else slots, x, acl, k + 1)
  }

  function WithPort(slots: seq<Station>, k: nat, port: Port): seq<Station> {
    if k < |slots| && slots[k].used then slots[k := slots[k].(port := port)] else slots
  }

  function WithAcl(ap: Ap, x: nat, acl: Acl): Ap
    requires x < |ap.bsss|
  {
    ap.(bsss := ap.bsss[x := ap.bsss[x].(acl := acl)])
  }

  predicate InRange(ap: Ap, ev: Event) {
    (ev.ChangeAcl? || ev.WriteAcl?) ==> ev.bss < |ap.bsss|
  }

  function Step(ap: Ap, ev: Event): (o: Outcome)
    requires Shaped(ap) && InRange(ap, ev)
    ensures SameShape(ap, o.ap)
  {
    match ev
    case AuthReq(bssid, a, alg, full, text) => OnAuthReq(ap, bssid, a, alg, full, text)
    case AuthConfirm(k, bssid, a, wep, text) => OnAuthConfirm(ap, k, bssid, a, wep, text)
    case AssocReq(a, sane, acceptable, rsn, weak) => OnAssocReq(ap, a, sane, acceptable, rsn, weak)
    case PeerDeauth(k, bssid, a) =>
      Quiet(if k < |ap.slots| && ap.bsss[ap.slots[k].bss].bssid == bssid
            then WithSlots(ap, Delete(ap.slots, k, a)) else ap)
    case MlmeDeauth(k, a) => Quiet(WithSlots(ap, Delete(ap.slots, k, a)))
    case Leave(a) => Quiet(WithSlots(ap, DeleteSlot(ap.slots, Lookup(ap.slots, a, 0))))
    case AgeOut(k) => Quiet(WithSlots(ap, DeleteSlot(ap.slots, k)))
    case Data(k, a, fromDs, toDs) => OnData(ap, k, a, fromDs, toDs)
    case Send(k, eapol) => Outcome(ap, Silence, Sends(ap, k, eapol))
    case KeysDone(k) => Quiet(WithSlots(ap, WithPort(ap.slots, k, PortOpen)))
    case KeysLost(k) => Quiet(WithSlots(ap, WithPort(ap.slots, k, PortNotSecured)))
    case ChangeAcl(x, acl) =>
      Quiet(WithAcl(WithSlots(ap, if acl.policy == 0 then ap.slots else Purged(ap.slots, x, acl, 0)), x, acl))
    case WriteAcl(x, acl) => Quiet(WithAcl(ap, x, acl))
    case Ban(on) => Quiet(ap.(banned := on))
  }
}
