/** Shared-key authentication over whole runs. */
module SharedKey {
  import opened Common
  import opened Stations
  import opened StationRuns

  /** The challenge issued last, and to whom. */
  function LastChallenge(ap: Ap, evs: seq<Event>): Option<(Mac, seq<byte>)>
    requires Shaped(ap) && AllInRange(ap, evs)
  {
    if evs == [] then None
    else
      var ev, o := evs[|evs| - 1], LastOutcome(ap, evs);
      if ev.AuthReq? && o.reply == Challenged(ev.addr) then Some((ev.addr, ev.text))
      else LastChallenge(ap, evs[..|evs| - 1])
  }

  lemma StepAux(ap: Ap, ev: Event)
    requires Shaped(ap) && InRange(ap, ev)
    ensures var o := Step(ap, ev);
            if ev.AuthReq? && o.reply == Challenged(ev.addr) then o.ap.auxAddr == ev.addr && o.ap.auxText == ev.text
            else o.ap.auxAddr == ap.auxAddr && o.ap.auxText == ap.auxText
  {
  }

  /** Only the latest challenge is remembered: the late comer wins. */
  lemma {:induction false} AuxIsLastChallenge(ap: Ap, evs: seq<Event>)
    requires Shaped(ap) && AllInRange(ap, evs)
    ensures var t := Run(ap, evs);
            match LastChallenge(ap, evs)
            case None => t.auxAddr == ap.auxAddr && t.auxText == ap.auxText
            case Some(c) => t.auxAddr == c.0 && t.auxText == c.1
  {
    if evs != [] {
      AuxIsLastChallenge(ap, evs[..|evs| - 1]);
      assert evs[|evs| - 1] in evs;
      StepAux(Run(ap, evs[..|evs| - 1]), evs[|evs| - 1]);
    }
  }

  /** What a confirmation is compared with: the challenge issued last, at first the memory's initial contents. */
  function Pending(ap: Ap, evs: seq<Event>): (c: (Mac, seq<byte>))
    requires Shaped(ap) && AllInRange(ap, evs)
  {
    match LastChallenge(ap, evs)
    case None => (ap.auxAddr, ap.auxText)
    case Some(c) => c
  }

  /** Where a confirmation gets as far as the comparison: its BSSID is served by a BSS that is not down. */
  ghost predicate Comparable(ap: Ap, k: nat, bssid: Mac) {
    k < |ap.slots| && exists x: nat :: Serves(ap.bsss, x, bssid) && ap.bsss[x].iface != Down
  }

  /** The BSSID of a confirmation is that of the BSS its slot is in, if the slot is in use. */
  predicate SameNetwork(ap: Ap, k: nat, bssid: Mac)
    requires Shaped(ap) && k < |ap.slots|
  {
    ap.slots[k].used ==> ap.bsss[ap.slots[k].bss].bssid == bssid
  }

  /**
   * Where the hardware names the sender's slot, a confirmation succeeds exactly when it is protected, is for
   * the sender's own BSS and returns the challenge issued last, and that one was issued to its sender; else the
   * sender is no longer in the table. For a BSS that is not there or down nothing happens.
   */
  lemma ConfirmedIff(ap: Ap, evs: seq<Event>, ev: Event)
    requires Initial(ap) && AllInRange(ap, evs)
    requires ev.AuthConfirm? && Honest(Run(ap, evs), ev)
    ensures var t := Run(ap, evs);
            var o := Step(t, ev);
            if !Comparable(t, ev.wcid, ev.bssid) then o == Outcome(t, Silence, false)
            else
              && (o.reply == AuthOk(ev.addr) <==>
                  SameNetwork(t, ev.wcid, ev.bssid) && ev.wep && Pending(ap, evs) == (ev.addr, ev.text))
              && (o.reply != AuthOk(ev.addr) ==> o.reply == AuthRefused(ev.addr) && !Present(o.ap.slots, ev.addr))
    ensures ev.addr != ZERO_MAC_ADDR ==>
              (Pending(ap, evs) == (ev.addr, ev.text) <==> LastChallenge(ap, evs) == Some((ev.addr, ev.text)))
  {
    AuxIsLastChallenge(ap, evs);
    EveryRunIsDistinct(ap, evs);
    var t := Run(ap, evs);
    hide Run, LastChallenge, AllInRange;
    RefusedIsGone(t, ev);
  }

  lemma FoundServes(bsss: seq<Bss>, bssid: Mac, from: nat)
    requires from <= |bsss| && forall y :: 0 <= y < from ==> bsss[y].bssid != bssid
    ensures FindBss(bsss, bssid, from) < |bsss| ==> Serves(bsss, FindBss(bsss, bssid, from), bssid)
    ensures FindBss(bsss, bssid, from) == |bsss| ==> forall x: nat :: !Serves(bsss, x, bssid)
    decreases |bsss| - from
  {
    if from < |bsss| && bsss[from].bssid != bssid { FoundServes(bsss, bssid, from + 1); }
  }

  lemma ServesIsOne(bsss: seq<Bss>, x: nat, y: nat, bssid: Mac)
    requires Serves(bsss, x, bssid) && Serves(bsss, y, bssid)
    ensures x == y
  {
  }

  lemma RefusedIsGone(ap: Ap, ev: Event)
    requires Shaped(ap) && Distinct(ap.slots) && ev.AuthConfirm? && Honest(ap, ev)
    ensures var o := Step(ap, ev);
            if !Comparable(ap, ev.wcid, ev.bssid) then o == Outcome(ap, Silence, false)
            else if SameNetwork(ap, ev.wcid, ev.bssid) && ev.wep && ap.auxAddr == ev.addr && ap.auxText == ev.text then
              o.reply == AuthOk(ev.addr)
            else o.reply == AuthRefused(ev.addr) && !Present(o.ap.slots, ev.addr)
  {
    LookupIs(ap.slots, ev.addr);
    var x := FindBss(ap.bsss, ev.bssid, 0);
    FoundServes(ap.bsss, ev.bssid, 0);
    forall y: nat | Serves(ap.bsss, y, ev.bssid) ensures y == x { ServesIsOne(ap.bsss, x, y, ev.bssid); }
    assert x < |ap.bsss| ==> Serves(ap.bsss, x, ev.bssid);
    if ev.wcid < |ap.slots| && ap.slots[ev.wcid].used { DeleteIsEffect(ap.slots, ev.wcid, ev.addr, ev.addr); }
    hide Serves, FindBss, Distinct, Lookup;
  }

  // ---------------------------------------------------------------- who is marked

  /** The last event was a confirmation of `a` that was answered with success. */
  predicate Confirms(ap: Ap, evs: seq<Event>, a: Mac)
    requires Shaped(ap) && AllInRange(ap, evs) && evs != []
  {
    evs[|evs| - 1].AuthConfirm? && LastOutcome(ap, evs).reply == AuthOk(a)
  }

  /** The last event authenticated `a` openly, or challenged it. */
  predicate Restarts(ap: Ap, evs: seq<Event>, a: Mac)
    requires Shaped(ap) && AllInRange(ap, evs) && evs != []
  {
    evs[|evs| - 1].AuthReq? && Renews(LastOutcome(ap, evs).reply, a)
  }

  /** Whether a station's last authentication was a returned challenge, the last one issued and its own. */
  ghost predicate Proven(ap: Ap, evs: seq<Event>, a: Mac)
    requires Shaped(ap) && AllInRange(ap, evs)
  {
    evs != [] &&
    var before, ev := evs[..|evs| - 1], evs[|evs| - 1];
    Present(LastOutcome(ap, evs).ap.slots, a) && !Restarts(ap, evs, a) &&
    if Confirms(ap, evs, a) then ev.wep && Pending(ap, before) == (a, ev.text) else Proven(ap, before, a)
  }

  /** Whether the last authentication through a station's slot was a confirmation, whoever sent it. */
  ghost predicate Marked(ap: Ap, evs: seq<Event>, a: Mac)
    requires Shaped(ap) && AllInRange(ap, evs)
  {
    evs != [] &&
    var before, ev := evs[..|evs| - 1], evs[|evs| - 1];
    var t, o := Run(ap, before), LastOutcome(ap, evs);
    Present(o.ap.slots, a) && !Restarts(ap, evs, a) &&
    ((ev.AuthConfirm? && o.reply == AuthOk(ev.addr) && ev.wcid < |t.slots| && Holds(t.slots[ev.wcid], a)) ||
     Marked(ap, before, a))
  }

  ghost predicate KeyShows(slots: seq<Station>, a: Mac, key: bool) {
    && (forall k :: 0 <= k < |slots| && Holds(slots[k], a) ==> (slots[k].authState.AsKey? <==> key))
    && (!Present(slots, a) ==> !key)
  }

  lemma OthersShow(pre: seq<Station>, post: seq<Station>, k: nat, a: Mac, b: Mac, key: bool)
    requires Effect(pre, post, k, a) && KeyShows(pre, b, key) && (b != a || k == |pre|)
    ensures KeyShows(post, b, Present(post, b) && key)
  {
    forall j | 0 <= j < |post| && Holds(post[j], b) ensures post[j].authState.AsKey? <==> key {
      assert SameLife(pre[j], post[j]);
    }
  }

  lemma SubjectShows(post: seq<Station>, k: nat, a: Mac)
    requires Distinct(post) && k < |post| && Holds(post[k], a)
    ensures KeyShows(post, a, post[k].authState.AsKey?) && Present(post, a)
  {
    OthersDoNot(post, a, k);
  }

  /** An association leaves the authentication as it was. */
  lemma AssocKeepsKey(ap: Ap, ev: Event, a: Mac, key: bool)
    requires Shaped(ap) && ev.AssocReq? && KeyShows(ap.slots, a, key) && Distinct(ap.slots)
    ensures KeyShows(Step(ap, ev).ap.slots, a, Present(Step(ap, ev).ap.slots, a) && key)
  {
    var o := Step(ap, ev);
    forall j | 0 <= j < |ap.slots| && Holds(o.ap.slots[j], a) ensures o.ap.slots[j].authState.AsKey? <==> key {
      AssociatedSlot(ap, ev, j);
      AssocKeepsAuthState(ap, ev, j);
    }
  }

  lemma AssocKeepsAuthState(ap: Ap, ev: Event, j: nat)
    requires Shaped(ap) && ev.AssocReq? && j < |ap.slots|
    ensures Step(ap, ev).ap.slots[j].authState == ap.slots[j].authState
  {
  }

  /** A confirmation marks the slot it names, if it succeeds, and changes no other mark. */
  lemma ConfirmMarks(ap: Ap, ev: Event, a: Mac, key: bool)
    requires Shaped(ap) && ev.AuthConfirm? && KeyShows(ap.slots, a, key) && Distinct(ap.slots)
    ensures var o := Step(ap, ev);
            KeyShows(o.ap.slots, a,
                     Present(o.ap.slots, a) &&
                     ((o.reply == AuthOk(ev.addr) && ev.wcid < |ap.slots| && Holds(ap.slots[ev.wcid], a)) || key))
  {
    var o := Step(ap, ev);
    var w := ev.wcid;
    forall j | 0 <= j < |ap.slots| && Holds(o.ap.slots[j], a)
      ensures o.ap.slots[j].authState.AsKey? <==>
              (o.reply == AuthOk(ev.addr) && w < |ap.slots| && Holds(ap.slots[w], a)) || key
    {
      ConfirmedSlot(ap, ev, j);
      ConfirmedState(ap, ev, j);
      OthersDoNot(ap.slots, a, j);
    }
  }

  lemma ConfirmedState(ap: Ap, ev: Event, j: nat)
    requires Shaped(ap) && ev.AuthConfirm? && j < |ap.slots| && Step(ap, ev).ap.slots[j].used
    ensures Step(ap, ev).ap.slots[j].authState ==
            if Step(ap, ev).reply == AuthOk(ev.addr) && j == ev.wcid then AsKey else ap.slots[j].authState
  {
  }

  lemma StepShowsKey(ap: Ap, ev: Event, a: Mac, key: bool)
    requires Shaped(ap) && InRange(ap, ev) && Distinct(ap.slots) && KeyShows(ap.slots, a, key)
    ensures var o := Step(ap, ev);
            KeyShows(o.ap.slots, a,
                     && Present(o.ap.slots, a) && !(ev.AuthReq? && Renews(o.reply, a))
                     && ((ev.AuthConfirm? && o.reply == AuthOk(ev.addr) &&
                          ev.wcid < |ap.slots| && Holds(ap.slots[ev.wcid], a)) || key))
  {
    if ev.AssocReq? {
      AssocKeepsKey(ap, ev, a, key);
    } else if ev.AuthConfirm? {
      ConfirmMarks(ap, ev, a, key);
    } else {
      hide Step, Effect, Present, Distinct, KeyShows;
      var o := Step(ap, ev);
      var k := StepIsEffect(ap, ev);
      var b := Subject(ev);
      StepKeepsDistinct(ap, ev);
      if k < |ap.slots| {
        EffectHolds(ap.slots, o.ap.slots, k, b);
        SubjectShows(o.ap.slots, k, b);
      }
      if a != b || k == |ap.slots| {
        OthersShow(ap.slots, o.ap.slots, k, b, a, key);
      }
    }
  }

  /** In any run at all, a station is shown as shared-key authenticated exactly when its slot was confirmed. */
  lemma {:induction false} KeyShowsMarked(ap: Ap, evs: seq<Event>, a: Mac)
    requires Initial(ap) && AllInRange(ap, evs)
    ensures KeyShows(Run(ap, evs).slots, a, Marked(ap, evs, a))
  {
    if evs != [] {
      var before, ev := evs[..|evs| - 1], evs[|evs| - 1];
      KeyShowsMarked(ap, before, a);
      EveryRunIsDistinct(ap, before);
      assert ev in evs;
      StepShowsKey(Run(ap, before), ev, a, Marked(ap, before, a));
      hide Step, KeyShows, Distinct;
    }
  }

  /** A confirmation that was answered with success returned the remembered challenge. */
  lemma SuccessMeans(ap: Ap, evs: seq<Event>, a: Mac)
    requires Initial(ap) && AllInRange(ap, evs) && evs != [] && Confirms(ap, evs, a)
    ensures var ev := evs[|evs| - 1]; ev.addr == a && ev.wep && Pending(ap, evs[..|evs| - 1]) == (a, ev.text)
  {
    var before, ev := evs[..|evs| - 1], evs[|evs| - 1];
    AuxIsLastChallenge(ap, before);
    assert ev in evs;
    hide Run, LastChallenge;
  }

  /**
   * A successful confirmation whose slot is not its sender's, and where that matters: somebody else is
   * marked who proved nothing, or the sender is in the table and goes unmarked.
   */
  ghost predicate Misdirects(ap: Ap, evs: seq<Event>)
    requires Shaped(ap) && AllInRange(ap, evs) && evs != []
  {
    var before, ev := evs[..|evs| - 1], evs[|evs| - 1];
    var t := Run(ap, before);
    && ev.AuthConfirm? && Confirms(ap, evs, ev.addr) && ev.wcid < |t.slots| && !Holds(t.slots[ev.wcid], ev.addr)
    && ((t.slots[ev.wcid].used && !Proven(ap, before, t.slots[ev.wcid].addr)) ||
        (Present(t.slots, ev.addr) && !Proven(ap, before, ev.addr)))
  }

  /** What a successful confirmation does to who is in the table and what they proved. */
  lemma ConfirmedStep(ap: Ap, evs: seq<Event>, a: Mac)
    requires Initial(ap) && AllInRange(ap, evs) && evs != [] && evs[|evs| - 1].AuthConfirm?
    requires Confirms(ap, evs, evs[|evs| - 1].addr)
    ensures var before, ev := evs[..|evs| - 1], evs[|evs| - 1];
            var t := Run(ap, before);
            && ev.wcid < |t.slots| && (Present(LastOutcome(ap, evs).ap.slots, a) <==> Present(t.slots, a))
            && (Proven(ap, evs, a) <==> Present(t.slots, a) && (a == ev.addr || Proven(ap, before, a)))
            && (Marked(ap, evs, a) <==> Present(t.slots, a) && (Holds(t.slots[ev.wcid], a) || Marked(ap, before, a)))
  {
    var before, ev := evs[..|evs| - 1], evs[|evs| - 1];
    var t, o := Run(ap, before), LastOutcome(ap, evs);
    assert ev in evs;
    SuccessMeans(ap, evs, ev.addr);
    ConfirmKeepsSlots(t, ev);
    assert Present(o.ap.slots, a) <==> Present(t.slots, a) by {
      if k :| 0 <= k < |t.slots| && Holds(t.slots[k], a) { assert Holds(o.ap.slots[k], a); }
      if k :| 0 <= k < |t.slots| && Holds(o.ap.slots[k], a) { assert Holds(t.slots[k], a); }
    }
    assert !Restarts(ap, evs, a);
    hide Step, Run, LastOutcome, Present;
  }

  lemma ConfirmKeepsSlots(ap: Ap, ev: Event)
    requires Shaped(ap) && ev.AuthConfirm? && Step(ap, ev).reply == AuthOk(ev.addr)
    ensures ev.wcid < |ap.slots| && |Step(ap, ev).ap.slots| == |ap.slots|
    ensures forall j :: 0 <= j < |ap.slots| ==>
              Step(ap, ev).ap.slots[j].used == ap.slots[j].used && Step(ap, ev).ap.slots[j].addr == ap.slots[j].addr
  {
  }

  ghost predicate MarksAgree(ap: Ap, evs: seq<Event>)
    requires Shaped(ap) && AllInRange(ap, evs)
  {
    forall a :: Marked(ap, evs, a) <==> Proven(ap, evs, a)
  }

  lemma AgreeStep(ap: Ap, evs: seq<Event>)
    requires Initial(ap) && AllInRange(ap, evs) && evs != [] && MarksAgree(ap, evs[..|evs| - 1])
    ensures MarksAgree(ap, evs) <==> !Misdirects(ap, evs)
  {
    var before, ev := evs[..|evs| - 1], evs[|evs| - 1];
    if ev.AuthConfirm? && Confirms(ap, evs, ev.addr) {
      var t := Run(ap, before);
      ConfirmedStep(ap, evs, ev.addr);
      ConfirmedStep(ap, evs, t.slots[ev.wcid].addr);
      hide Run, LastOutcome, Confirms, AllInRange, Initial;
      assert t.slots[ev.wcid].used ==> Present(t.slots, t.slots[ev.wcid].addr) by {
        assert t.slots[ev.wcid].used ==> Holds(t.slots[ev.wcid], t.slots[ev.wcid].addr);
      }
      hide Present;
      if !Misdirects(ap, evs) {
        forall a ensures Marked(ap, evs, a) <==> Proven(ap, evs, a) {
          ConfirmedStep(ap, evs, a);
          hide Marked, Proven;
        }
      }
      hide Marked, Proven;
    } else {
      ConfirmsItsSender(ap, evs);
      forall a ensures Marked(ap, evs, a) <==> Proven(ap, evs, a) {
        hide Run, LastOutcome, Present, Pending;
      }
    }
  }

  lemma ConfirmsItsSender(ap: Ap, evs: seq<Event>)
    requires Initial(ap) && AllInRange(ap, evs) && evs != []
    ensures forall a :: Confirms(ap, evs, a) ==> evs[|evs| - 1].AuthConfirm? && evs[|evs| - 1].addr == a
  {
    forall a | Confirms(ap, evs, a) ensures evs[|evs| - 1].addr == a { SuccessMeans(ap, evs, a); }
  }

  /**
   * In any run at all: all along it the stations marked as shared-key authenticated are those that
   * proved themselves, exactly when no confirmation was misdirected.
   */
  lemma MarksAgreeIff(ap: Ap, evs: seq<Event>)
    requires Initial(ap) && AllInRange(ap, evs)
    ensures (forall n :: 0 <= n <= |evs| ==> MarksAgree(ap, evs[..n])) <==>
            (forall n :: 0 < n <= |evs| ==> !Misdirects(ap, evs[..n]))
  {
    if forall n :: 0 <= n <= |evs| ==> MarksAgree(ap, evs[..n]) {
      forall n | 0 < n <= |evs| ensures !Misdirects(ap, evs[..n]) { AgreeAt(ap, evs, n); }
    }
    if forall n :: 0 < n <= |evs| ==> !Misdirects(ap, evs[..n]) {
      forall n | 0 <= n <= |evs| ensures MarksAgree(ap, evs[..n]) { AgreeUpTo(ap, evs, n); }
    }
    hide *;
  }

  lemma AgreeAt(ap: Ap, evs: seq<Event>, n: nat)
    requires Initial(ap) && AllInRange(ap, evs) && 0 < n <= |evs| && MarksAgree(ap, evs[..n - 1])
    ensures MarksAgree(ap, evs[..n]) <==> !Misdirects(ap, evs[..n])
  {
    assert evs[..n][..n - 1] == evs[..n - 1];
    AgreeStep(ap, evs[..n]);
  }

  lemma {:induction false} AgreeUpTo(ap: Ap, evs: seq<Event>, n: nat)
    requires Initial(ap) && AllInRange(ap, evs) && n <= |evs|
    requires forall m :: 0 < m <= |evs| ==> !Misdirects(ap, evs[..m])
    ensures MarksAgree(ap, evs[..n])
  {
    if n > 0 {
      AgreeUpTo(ap, evs, n - 1);
      AgreeAt(ap, evs, n);
      hide *;
    }
  }

  lemma {:induction false} HonestMarksAgree(ap: Ap, evs: seq<Event>)
    requires Initial(ap) && AllInRange(ap, evs) && HonestRun(ap, evs)
    ensures MarksAgree(ap, evs)
  {
    if evs != [] {
      var before, ev := evs[..|evs| - 1], evs[|evs| - 1];
      HonestMarksAgree(ap, before);
      AgreeStep(ap, evs);
      LookupIs(Run(ap, before).slots, if ev.AuthConfirm? then ev.addr else ZERO_MAC_ADDR);
      hide Run, LastOutcome, MarksAgree, Proven, Present, Confirms;
    }
  }

  /**
   * Where the hardware names the right slots, a station is marked shared-key authenticated exactly when
   * its last authentication was a protected return of the challenge issued last, to itself.
   */
  lemma KeyAuthenticatedIffProven(ap: Ap, evs: seq<Event>, a: Mac)
    requires Initial(ap) && AllInRange(ap, evs) && HonestRun(ap, evs)
    ensures KeyShows(Run(ap, evs).slots, a, Proven(ap, evs, a))
  {
    KeyShowsMarked(ap, evs, a);
    HonestMarksAgree(ap, evs);
    hide Run, KeyShows, Proven, Marked;
  }

  /** A successful confirmation newly marks its sender exactly when the named slot holds the sender, unmarked. */
  lemma ConfirmMarksSenderIff(ap: Ap, ev: Event)
    requires Shaped(ap) && Distinct(ap.slots) && ev.AuthConfirm? && Step(ap, ev).reply == AuthOk(ev.addr)
    ensures var post, w := Step(ap, ev).ap.slots, ev.wcid;
            && w < |ap.slots|
            && ((exists k :: 0 <= k < |post| && Holds(post[k], ev.addr) && post[k].authState.AsKey? &&
                             !ap.slots[k].authState.AsKey?) <==>
                Holds(ap.slots[w], ev.addr) && !ap.slots[w].authState.AsKey?)
            && (ap.slots[w].used ==> Holds(post[w], ap.slots[w].addr) && post[w].authState.AsKey?)
  {
    var post, w := Step(ap, ev).ap.slots, ev.wcid;
    ConfirmKeepsSlots(ap, ev);
    forall j | 0 <= j < |post| && post[j].used
      ensures post[j].authState == if j == w then AsKey else ap.slots[j].authState
    {
      ConfirmedState(ap, ev, j);
    }
    hide Step;
    if Holds(ap.slots[w], ev.addr) && !ap.slots[w].authState.AsKey? { assert Holds(post[w], ev.addr); }
  }

  // ---------------------------------------------------------------- shared-key networks

  /**
   * A station's slot names the BSS its BSSID is served by, and at a shared-key BSS it stands above the
   * lowest only by a confirmation.
   */
  ghost predicate SlotOk(bsss: seq<Bss>, s: Station)
    requires s.bss < |bsss|
  {
    s.used ==>
      && Serves(bsss, s.bss, bsss[s.bss].bssid)
      && (bsss[s.bss].mode.Shared? && s.sst != NotAuth ==> s.authState.AsKey?)
  }

  ghost predicate SharedOk(ap: Ap)
    requires Shaped(ap)
  {
    forall k :: 0 <= k < |ap.slots| ==> SlotOk(ap.bsss, ap.slots[k])
  }

  /** The slot of an authenticating station is at the BSS it asks for. */
  lemma AdmittedBss(ap: Ap, bssid: Mac, a: Mac, x: nat, full: bool)
    requires Shaped(ap) && Distinct(ap.slots) && SharedOk(ap) && Serves(ap.bsss, x, bssid)
    ensures var (slots, k) := Kept(ap, bssid, a);
            var (slots', j) := Admitted(slots, k, a, x, full);
            j < |slots'| ==> slots'[j].bss == x
  {
    var (slots, k) := Kept(ap, bssid, a);
    AdmittedIsEffect(ap, bssid, a, x, full);
    KeptIsEffect(ap, bssid, a);
    if k < |slots| {
      assert SlotOk(ap.bsss, ap.slots[k]);
      ServesIsOne(ap.bsss, x, ap.slots[k].bss, bssid);
    }
    hide Effect, Distinct, SharedOk, Serves, Present;
  }

  lemma AuthReqSlotOk(ap: Ap, ev: Event, j: nat)
    requires Shaped(ap) && SharedOk(ap) && ev.AuthReq? && Distinct(ap.slots) && j < |ap.slots|
    ensures SlotOk(ap.bsss, Step(ap, ev).ap.slots[j])
  {
    hide Kept, Admitted, Passes, Distinct, DeleteSlot, Serves, FindBss;
    var AuthReq(bssid, a, alg, full, text) := ev;
    var x := FindBss(ap.bsss, bssid, 0);
    assert SlotOk(ap.bsss, ap.slots[j]);
    if x < |ap.bsss| {
      FoundServes(ap.bsss, bssid, 0);
      AdmittedSlots(ap, bssid, a, x, full, j);
      AdmittedBss(ap, bssid, a, x, full);
      DeletedSlots(Kept(ap, bssid, a).0, Kept(ap, bssid, a).1, j);
      hide SharedOk;
    }
  }

  lemma StepSlotOk(ap: Ap, ev: Event, j: nat)
    requires Shaped(ap) && InRange(ap, ev) && SharedOk(ap) && Distinct(ap.slots) && j < |ap.slots|
    ensures SlotOk(ap.bsss, Step(ap, ev).ap.slots[j])
  {
    hide OnAuthReq, Purged, Serves;
    assert SlotOk(ap.bsss, ap.slots[j]);
    match ev
    case AuthReq(_, _, _, _, _) => AuthReqSlotOk(ap, ev, j); hide *;
    case ChangeAcl(x, acl) => PurgedSlots(ap.slots, x, acl, 0); hide SharedOk, Distinct;
    case _ => hide SharedOk, Distinct, FindBss, Lookup, Passes;
  }

  lemma ServesStill(bsss: seq<Bss>, after: seq<Bss>, s: Station)
    requires |bsss| == |after| && s.bss < |bsss| && SlotOk(bsss, s)
    requires forall x :: 0 <= x < |bsss| ==> SameBut(after[x], bsss[x])
    ensures SlotOk(after, s)
  {
    assert SameBut(after[s.bss], bsss[s.bss]);
    if s.used {
      forall y | 0 <= y < s.bss ensures after[y].bssid != after[s.bss].bssid {
        assert SameBut(after[y], bsss[y]);
      }
    }
  }

  /** At a shared-key BSS nobody gets past the lowest state but by a confirmation, whatever the hardware names. */
  lemma {:induction false} EveryRunIsSharedOk(ap: Ap, evs: seq<Event>)
    requires Initial(ap) && AllInRange(ap, evs)
    ensures SharedOk(Run(ap, evs))
  {
    if evs != [] {
      var before, ev := evs[..|evs| - 1], evs[|evs| - 1];
      EveryRunIsSharedOk(ap, before);
      EveryRunIsDistinct(ap, before);
      assert ev in evs;
      var t := Run(ap, before);
      var o := Step(t, ev);
      BsssKept(t, ev);
      forall j | 0 <= j < |o.ap.slots| ensures SlotOk(o.ap.bsss, o.ap.slots[j]) {
        StepSlotOk(t, ev, j);
        ServesStill(t.bsss, o.ap.bsss, o.ap.slots[j]);
      }
      hide Step, SlotOk, Distinct;
    }
  }

  /**
   * In a run in which the hardware names the right slots, every station that is authenticated or
   * associated at a shared-key BSS proved itself there: its last authentication was a protected return
   * of the challenge issued last, to itself.
   */
  lemma SharedMeansProven(ap: Ap, evs: seq<Event>, k: nat)
    requires Initial(ap) && AllInRange(ap, evs) && HonestRun(ap, evs) && k < |ap.slots|
    requires var t := Run(ap, evs); t.slots[k].used && t.bsss[t.slots[k].bss].mode.Shared? && t.slots[k].sst != NotAuth
    ensures Proven(ap, evs, Run(ap, evs).slots[k].addr)
  {
    var s := Run(ap, evs).slots[k];
    EveryRunIsSharedOk(ap, evs);
    KeyAuthenticatedIffProven(ap, evs, s.addr);
    assert SlotOk(Run(ap, evs).bsss, s) && Holds(s, s.addr);
    hide Run, Proven, HonestRun, AllInRange, Initial, Serves, Present;
  }

  // ---------------------------------------------------------------- a run that gets there

  /** BSS 0 is up, open to everybody, and in shared-key mode. */
  predicate Challenging(ap: Ap) {
    |ap.slots| >= 2 && !ap.banned && |ap.bsss| > 0 &&
    var b := ap.bsss[0]; b.mode.Shared? && b.iface.Running? && b.acl.policy == 0
  }

  /** Slot 1 of an empty table as station `a` of BSS 0 on its way through shared-key authentication. */
  function Sharing(ap: Ap, a: Mac, text: seq<byte>, sst: Sst, authState: AuthState, port: Port): Ap
    requires |ap.slots| >= 2
  {
    WithSlots(ap, ap.slots[1 := Station(true, a, 0, sst, authState, port)]).(auxAddr := a, auxText := text)
  }

  lemma ShareSteps(ap: Ap, a: Mac, text: seq<byte>, rsn: bool)
    requires Initial(ap) && Challenging(ap)
    ensures var b := ap.bsss[0];
            var t0 := Sharing(ap, a, text, NotAuth, AsAuthenticating, PortNotSecured);
            var t1 := Sharing(ap, a, text, Auth, AsKey, PortNotSecured);
            var t2 := Sharing(ap, a, text, Assoc, AsKey, if b.dot1x then PortNotSecured else PortOpen);
            && Step(ap, AuthReq(b.bssid, a, AlgKey, false, text)) == Outcome(t0, Challenged(a), false)
            && Step(t0, AuthConfirm(1, b.bssid, a, true, text)) == Outcome(t1, AuthOk(a), false)
            && Step(t1, AssocReq(a, true, true, rsn, false)) == Outcome(t2, AssocOk(a), false)
            && Honest(t0, AuthConfirm(1, b.bssid, a, true, text))
  {
    var slots := ap.slots;
    assert FindBss(ap.bsss, ap.bsss[0].bssid, 0) == 0 && FirstFree(slots, 1) == 1 && Lookup(slots, a, 0) == |slots|;
    forall sst, authState, port ensures Lookup(Sharing(ap, a, text, sst, authState, port).slots, a, 0) == 1 {
      assert Holds(Sharing(ap, a, text, sst, authState, port).slots[1], a);
    }
    assert slots[1 := Fresh(a, 0)][1 := Fresh(a, 0).(authState := AsAuthenticating, sst := NotAuth)] ==
           Sharing(ap, a, text, NotAuth, AsAuthenticating, PortNotSecured).slots;
    hide FindBss, FirstFree, Lookup;
  }

  /** Challenge, confirmation and association end associated, with the data gate open and the station proven. */
  lemma ShareRun(ap: Ap, a: Mac, text: seq<byte>, rsn: bool)
    requires Initial(ap) && Challenging(ap)
    ensures var b := ap.bsss[0];
            var evs := [AuthReq(b.bssid, a, AlgKey, false, text), AuthConfirm(1, b.bssid, a, true, text),
                        AssocReq(a, true, true, rsn, false)];
            AllInRange(ap, evs) && DisciplinedRun(ap, evs) && Standing(ap, evs, a) == Assoc && Proven(ap, evs, a)
  {
    ShareSteps(ap, a, text, rsn);
    var b := ap.bsss[0];
    var e0, e1 := AuthReq(b.bssid, a, AlgKey, false, text), AuthConfirm(1, b.bssid, a, true, text);
    var e2 := AssocReq(a, true, true, rsn, false);
    var evs := [e0, e1, e2];
    var t0 := Sharing(ap, a, text, NotAuth, AsAuthenticating, PortNotSecured);
    var t1 := Sharing(ap, a, text, Auth, AsKey, PortNotSecured);
    EmptyRun(ap);
    PlainEvent(ap, ap, e0);
    PlainEvent(ap, t1, e2);
    SharedAtLast(ap, a, text, if b.dot1x then PortNotSecured else PortOpen);
    assert InRange(ap, e1) && Disciplined(t0, e1);
    hide *;
    RunSnoc(ap, [], e0);
    assert [] + [e0] == [e0] && [e0] + [e1] == [e0, e1] && [e0, e1] + [e2] == evs;
    RunSnoc(ap, [e0], e1);
    RunSnoc(ap, [e0, e1], e2);
    DisciplinedIsHonest(ap, evs);
    TableShowsStanding(ap, evs, a);
    SharedMeansProven(ap, evs, 1);
    ShownStanding(Run(ap, evs).slots, 1, a, Standing(ap, evs, a));
  }

  lemma SharedAtLast(ap: Ap, a: Mac, text: seq<byte>, port: Port)
    requires Initial(ap) && Challenging(ap)
    ensures var t := Sharing(ap, a, text, Assoc, AsKey, port);
            && 1 < |ap.slots| && |t.slots| == |ap.slots| && t.slots[1].bss < |t.bsss| && Holds(t.slots[1], a)
            && t.bsss[t.slots[1].bss].mode.Shared? && t.slots[1].sst == Assoc && t.slots[1].used && t.slots[1].addr == a
  {
  }

  lemma ShownStanding(slots: seq<Station>, k: nat, a: Mac, sst: Sst)
    requires k < |slots| && Holds(slots[k], a) && StandsAt(slots, a, sst)
    ensures slots[k].sst == sst
  {
  }
}
