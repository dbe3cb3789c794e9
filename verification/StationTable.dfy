/** The station table in place: the slot array and the handlers that write it. */
module StationTable {
  import opened Common
  import opened Stations

  class StationTable {
    const slots: array<Station>
    var bsss: seq<Bss>
    var auxAddr: Mac
    var auxText: seq<byte>
    var banned: bool

    ghost function State(): Ap
      reads this, slots
    {
      Ap(slots[..], bsss, auxAddr, auxText, banned)
    }

    constructor (size: nat, bsss: seq<Bss>)
      requires size > 0 && bsss != []
      ensures Shaped(State()) && slots.Length == size && this.bsss == bsss && fresh(slots)
      ensures (forall k :: 0 < k < size ==> slots[k] == Station(false, ZERO_MAC_ADDR, 0, NotAuth, AsNotAuth, PortOpen))
      ensures slots[0] == MulticastEntry() && auxAddr == ZERO_MAC_ADDR && !banned
    {
      slots := new Station[size](
        k => if k == 0 then MulticastEntry() else Station(false, ZERO_MAC_ADDR, 0, NotAuth, AsNotAuth, PortOpen));
      this.bsss := bsss;
      auxAddr, auxText, banned := ZERO_MAC_ADDR, [], false;
    }

    method LookupEntry(a: Mac) returns (k: nat)
      ensures k == Lookup(slots[..], a, 0)
    {
      ghost var s := slots[..];
      k := 0;
      while k < slots.Length
        invariant k <= slots.Length && Lookup(s, a, 0) == Lookup(s, a, k)
      {
        assert s[k] == slots[k];
        if Holds(slots[k], a) { return; }
        k := k + 1;
      }
    }

    /** get_apidx_by_addr. */
    method FindMbss(bssid: Mac) returns (x: nat)
      ensures x == FindBss(bsss, bssid, 0)
    {
      x := 0;
      while x < |bsss|
        invariant x <= |bsss| && FindBss(bsss, bssid, 0) == FindBss(bsss, bssid, x)
      {
        if bsss[x].bssid == bssid { return; }
        x := x + 1;
      }
    }

    method CheckAcl(acl: Acl, a: Mac) returns (result: bool)
      ensures result == Passes(acl, a)
    {
      if acl.policy == 0 { return true; }
      result := acl.policy != 1;
      var i := 0;
      while i < |acl.list|
        invariant i <= |acl.list| && a !in acl.list[..i] && result == (acl.policy != 1)
      {
        if acl.list[i] == a {
          return !result;
        }
        i := i + 1;
      }
    }

    method DeleteEntry(k: nat, a: Mac)
      modifies slots
      ensures slots[..] == Delete(old(slots[..]), k, a)
    {
      if k < slots.Length && slots[k].used && slots[k].addr == a {
        slots[k] := slots[k].(used := false, addr := ZERO_MAC_ADDR);
      }
    }

    /** Deletion of an entry by its own address. */
    method DropEntry(k: nat)
      modifies slots
      ensures slots[..] == DeleteSlot(old(slots[..]), k)
    {
      if k < slots.Length {
        DeleteEntry(k, slots[k].addr);
      }
    }

    method InsertEntry(a: Mac, bss: nat, full: bool) returns (k: nat)
      requires slots.Length > 0
      modifies slots
      ensures (slots[..], k) == Insert(old(slots[..]), a, bss, full)
    {
      ghost var s := slots[..];
      k := 1;
      while k < slots.Length && slots[k].used
        invariant 1 <= k <= slots.Length && FirstFree(s, 1) == FirstFree(s, k)
      {
        k := k + 1;
      }
      if k < slots.Length {
        slots[k] := Fresh(a, bss).(used := !full);
        if full {
          k := slots.Length;
        }
      }
    }

    /** The entry a station keeps when it authenticates again; a change of BSS removes it. */
    method KeepEntry(bssid: Mac, a: Mac) returns (k: nat)
      requires Shaped(State())
      modifies slots
      ensures (slots[..], k) == Kept(old(State()), bssid, a)
    {
      k := LookupEntry(a);
      if k < slots.Length && bsss[slots[k].bss].bssid != bssid {
        DropEntry(k);
        k := slots.Length;
      }
    }

    method AdmitEntry(kept: nat, a: Mac, x: nat, full: bool) returns (k: nat)
      requires kept <= slots.Length && slots.Length > 0
      modifies slots
      ensures (slots[..], k) == Admitted(old(slots[..]), kept, a, x, full)
    {
      k := kept;
      if k == slots.Length {
        k := InsertEntry(a, x, full);
      }
    }

    method PeerAuthReq(bssid: Mac, a: Mac, alg: Alg, full: bool, text: seq<byte>) returns (reply: Reply)
      requires Shaped(State())
      modifies slots, this`auxAddr, this`auxText
      ensures var o := Step(old(State()), AuthReq(bssid, a, alg, full, text)); State() == o.ap && reply == o.reply
    {
      hide Kept, Admitted, FindBss, Passes, DeleteSlot;
      if banned { return Silence; }
      var x := FindMbss(bssid);
      if x == |bsss| || !bsss[x].iface.Running? { return Silence; }
      var k := KeepEntry(bssid, a);
      var mode := bsss[x].mode;
      var allowed := CheckAcl(bsss[x].acl, a);
      if !allowed {
        reply := AuthRefused(a);
        DropEntry(k);
      } else if alg.AlgOpen? && !mode.Shared? {
        k := AdmitEntry(k, a, x, full);
        reply := Silence;
        if k < slots.Length {
          slots[k] := slots[k].(authState := AsOpen, sst := Auth);
          reply := AuthOk(a);
        }
      } else if alg.AlgKey? && (mode.Shared? || mode.AutoSwitch?) {
        k := AdmitEntry(k, a, x, full);
        reply := Silence;
        if k < slots.Length {
          slots[k] := slots[k].(authState := AsAuthenticating, sst := NotAuth);
          auxAddr, auxText := a, text;
          reply := Challenged(a);
        }
      } else {
        reply := AuthRefused(a);
        DropEntry(k);
      }
    }

    method PeerAuthConfirm(k: nat, bssid: Mac, a: Mac, wep: bool, text: seq<byte>) returns (reply: Reply)
      requires Shaped(State())
      modifies slots
      ensures var o := Step(old(State()), AuthConfirm(k, bssid, a, wep, text)); State() == o.ap && reply == o.reply
    {
      hide FindBss;
      var x := FindMbss(bssid);
      if x == |bsss| || bsss[x].iface.Down? || k >= slots.Length { return Silence; }
      if slots[k].used && bsss[slots[k].bss].bssid != bssid {
        DropEntry(k);
        return AuthRefused(a);
      }
      if a == auxAddr && wep && text == auxText {
        reply := AuthOk(a);
        slots[k] := slots[k].(authState := AsKey, sst := Auth);
      } else {
        reply := AuthRefused(a);
        DropEntry(k);
      }
    }

    /** APBuildAssociation: the state is changed before the answer is decided. */
    method BuildAssociation(k: nat, acceptable: bool, rsn: bool) returns (success: bool)
      requires Shaped(State()) && k < slots.Length
      modifies slots
      ensures success == (acceptable && !old(slots[k]).sst.NotAuth?)
      ensures slots[..] ==
              if success then old(slots[..])[k := Associated(old(slots[k]), bsss[old(slots[k]).bss], rsn)]
              else old(slots[..])
    {
      success := acceptable && (slots[k].sst.Auth? || slots[k].sst.Assoc?);
      if success {
        var b := bsss[slots[k].bss];
        slots[k] := slots[k].(sst := Assoc);
        if rsn || !b.mode.Wpa? || !b.hostapd {
          slots[k] := slots[k].(port := if b.mode.Wpa? || b.dot1x then PortNotSecured else PortOpen);
        }
      }
    }

    method PeerAssocReq(a: Mac, sane: bool, acceptable: bool, rsn: bool, weak: bool) returns (reply: Reply)
      requires Shaped(State())
      modifies slots
      ensures var o := Step(old(State()), AssocReq(a, sane, acceptable, rsn, weak)); State() == o.ap && reply == o.reply
    {
      hide Lookup, Passes, Associated, DeleteSlot;
      if banned || !sane { return Silence; }
      var k := LookupEntry(a);
      if k == slots.Length { return Silence; }
      var allowed := CheckAcl(bsss[slots[k].bss].acl, a);
      var success := BuildAssociation(k, acceptable, rsn);
      if weak {
        DropEntry(k);
      }
      reply := if success && allowed && !weak then AssocOk(a) else AssocRefused(a);
    }

    /** The slot a data frame is for: the driver does not rely on the one the hardware names. */
    method ResolveEntry(k: nat, a: Mac) returns (r: nat)
      ensures r == Resolve(slots[..], k, a)
    {
      if 0 < k < slots.Length && slots[k].addr == a {
        return k;
      }
      r := LookupEntry(a);
    }

    /** dev_rx_data_frm up to and with ap_rx_pkt_allow. */
    method ReceiveData(k: nat, a: Mac, fromDs: bool, toDs: bool) returns (passed: bool)
      requires Shaped(State())
      modifies slots
      ensures var o := Step(old(State()), Data(k, a, fromDs, toDs)); State() == o.ap && passed == o.passed
    {
      hide Resolve;
      var r := ResolveEntry(k, a);
      if r == slots.Length || fromDs || !toDs { return false; }
      if !slots[r].sst.Assoc? {
        DeleteEntry(r, a);
        return false;
      }
      passed := !banned;
    }

    /** The removal loop of ApUpdateAccessControlList. */
    method Purge(x: nat, acl: Acl)
      modifies slots
      ensures slots[..] == Purged(old(slots[..]), x, acl, 0)
    {
      ghost var start := slots[..];
      var k := 0;
      while k < slots.Length
        invariant k <= slots.Length && Purged(slots[..], x, acl, k) == Purged(start, x, acl, 0)
      {
        if slots[k].used && slots[k].bss == x {
          var matched := slots[k].addr in acl.list;
          if (!matched && acl.policy == 1) || (matched && acl.policy == 2) {
            DropEntry(k);
          }
        }
        k := k + 1;
      }
    }

    /** A new list, and ApUpdateAccessControlList. */
    method ReplaceAcl(x: nat, acl: Acl)
      requires Shaped(State()) && x < |bsss|
      modifies slots, this`bsss
      ensures State() == Step(old(State()), ChangeAcl(x, acl)).ap
    {
      hide Purged;
      bsss := bsss[x := bsss[x].(acl := acl)];
      if acl.policy != 0 {
        Purge(x, acl);
      }
    }

    /** CFG80211_StaPortSecured: the authenticator's verdict on a station. */
    method SetAuthorized(a: Mac, authorized: bool)
      requires Shaped(State())
      modifies slots
      ensures var k := Lookup(old(slots[..]), a, 0);
              State() == Step(old(State()), if authorized then KeysDone(k) else KeysLost(k)).ap
    {
      var k := LookupEntry(a);
      if k < slots.Length {
        slots[k] := slots[k].(port := if authorized then PortOpen else PortNotSecured);
      }
    }

    /** The port gate of APSendPacket. */
    method SendPacket(k: nat, eapol: bool) returns (queued: bool)
      requires Shaped(State())
      ensures queued == Step(State(), Send(k, eapol)).passed
    {
      if k >= slots.Length || !slots[k].used { return false; }
      if slots[k].port.PortNotSecured? {
        var b := bsss[slots[k].bss];
        if !((b.mode.Wpa? || b.dot1x) && eapol) { return false; }
      }
      queued := true;
    }
  }
}
