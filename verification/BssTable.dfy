/**
 * The table of BSSs overheard during a channel scan. Access points that hide their SSID send it
 * empty or all zero; such a beacon matches whatever is known of the same station.
 */
module BssTable {
  import opened Common

  const MAX_LEN_OF_BSS_TABLE := 128

  /** Where the 40 MHz extension channel lies. */
  datatype Extension = Above | Below | NoExtension

  datatype Bss = Bss(bssid: Mac, ssid: seq<byte>, channel: nat, ext: Extension, rssi: int)

  const VACANT: Bss := Bss(ZERO_MAC_ADDR, [], 0, NoExtension, 0)

  predicate Hidden(ssid: seq<byte>) {
    forall k :: 0 <= k < |ssid| ==> ssid[k] == 0
  }

  /** Same address in the same band. */
  predicate SameStation(a: Bss, b: Bss) {
    (a.channel <= 14 <==> b.channel <= 14) && a.bssid == b.bssid
  }

  predicate Matches(a: Bss, b: Bss) {
    SameStation(a, b) && (a.ssid == b.ssid || Hidden(a.ssid) || Hidden(b.ssid))
  }

  /** The first matching entry, or the length of the table. */
  function Search(t: seq<Bss>, b: Bss, from: nat): (idx: nat)
    requires from <= |t|
    ensures from <= idx <= |t|
    ensures idx < |t| ==> Matches(t[idx], b)
    ensures forall k :: from <= k < idx ==> !Matches(t[k], b)
    decreases |t| - from
  {
    if from == |t| || Matches(t[from], b) then from else Search(t, b, from + 1)
  }

  /** An entry after a beacon: a hidden SSID leaves the known one alone. */
  function Learned(e: Bss, b: Bss): Bss {
    Bss(b.bssid, if Hidden(b.ssid) then e.ssid else b.ssid, b.channel, b.ext, b.rssi)
  }

  predicate Accepts(t: seq<Bss>, b: Bss) {
    Search(t, b, 0) < |t| || |t| < MAX_LEN_OF_BSS_TABLE
  }

  function Insert(t: seq<Bss>, b: Bss): seq<Bss> {
    var idx := Search(t, b, 0);
    if idx < |t| then t[idx := Learned(t[idx], b)]
    else if |t| < MAX_LEN_OF_BSS_TABLE then t + [Learned(VACANT, b)]
    else t
  }

  function Run(t: seq<Bss>, beacons: seq<Bss>): seq<Bss> {
    if beacons == [] then t else Insert(Run(t, beacons[..|beacons| - 1]), beacons[|beacons| - 1])
  }

  /** The beacons of a run that were not turned away by a full table. */
  function Accepted(t: seq<Bss>, beacons: seq<Bss>): seq<Bss> {
    if beacons == [] then []
    else
      var init, last := beacons[..|beacons| - 1], beacons[|beacons| - 1];
      Accepted(t, init) + if Accepts(Run(t, init), last) then [last] else []
  }

  // ---------------------------------------------------------------- in place

  class Table {
    const entries: array<Bss>
    var bssNr: nat

    ghost predicate Valid()
      reads this, entries
    {
      && entries.Length == MAX_LEN_OF_BSS_TABLE && bssNr <= MAX_LEN_OF_BSS_TABLE
      && forall k :: bssNr <= k < entries.Length ==> entries[k] == VACANT
    }

    ghost function Contents(): seq<Bss>
      reads this, entries
      requires bssNr <= entries.Length
    {
      entries[..bssNr]
    }

    constructor ()
      ensures Valid() && Contents() == [] && fresh(entries)
    {
      entries := new Bss[MAX_LEN_OF_BSS_TABLE](_ => VACANT);
      bssNr := 0;
    }

    method SearchWithSsid(b: Bss) returns (idx: Option<nat>)
      requires Valid()
      ensures var i := Search(Contents(), b, 0); idx == if i < bssNr then Some(i) else None
    {
      ghost var t := Contents();
      var i := 0;
      while i < bssNr
        invariant i <= bssNr && Search(t, b, 0) == Search(t, b, i)
      {
        assert t[i] == entries[i];
        if Matches(entries[i], b) {
          return Some(i);
        }
        i := i + 1;
      }
      idx := None;
    }

    /** AutoChBssEntrySet. */
    method EntrySet(idx: nat, b: Bss)
      requires idx < entries.Length
      modifies entries
      ensures entries[..] == old(entries[..])[idx := Learned(old(entries[idx]), b)]
    {
      var e := entries[idx].(bssid := b.bssid);
      if |b.ssid| > 0 && !Hidden(b.ssid) {
        e := e.(ssid := b.ssid);
      }
      entries[idx] := e.(channel := b.channel, ext := b.ext, rssi := b.rssi);
    }

    /** AutoChBssInsertEntry. */
    method InsertEntry(b: Bss) returns (idx: Option<nat>)
      requires Valid()
      modifies this`bssNr, entries
      ensures Valid() && Contents() == Insert(old(Contents()), b)
      ensures idx.Some? <==> Accepts(old(Contents()), b)
      ensures idx.Some? ==> idx.value < bssNr && Matches(Contents()[idx.value], b)
    {
      ghost var t := Contents();
      idx := SearchWithSsid(b);
      if idx.None? {
        if bssNr >= MAX_LEN_OF_BSS_TABLE {
          return None;
        }
        idx := Some(bssNr);
        EntrySet(bssNr, b);
        bssNr := bssNr + 1;
        assert Contents() == t + [Learned(VACANT, b)];
      } else {
        EntrySet(idx.value, b);
        assert Contents() == t[idx.value := Learned(t[idx.value], b)];
      }
    }
  }

  // ---------------------------------------------------------------- invariants of every run

  /** Two entries with one address in one band both show an SSID, and not the same. */
  ghost predicate NoTwoMatch(t: seq<Bss>) {
    forall i, j :: 0 <= i < j < |t| && t[i].bssid == t[j].bssid && (t[i].channel <= 14 <==> t[j].channel <= 14) ==>
      t[i].ssid != t[j].ssid && !Hidden(t[i].ssid) && !Hidden(t[j].ssid)
  }

  /** Every beacon taken is in the table ... */
  ghost predicate Covers(t: seq<Bss>, accepted: seq<Bss>) {
    forall b :: b in accepted ==> exists k :: 0 <= k < |t| && Heard(t[k], b)
  }

  /** ... every entry comes from such a beacon, one with an SSID if the entry has one ... */
  ghost predicate Justified(t: seq<Bss>, accepted: seq<Bss>) {
    forall k {:trigger t[k]} :: 0 <= k < |t| ==>
      exists b :: b in accepted && Heard(t[k], b) && (Hidden(b.ssid) ==> t[k].ssid == [])
  }

  /** ... and an entry without an SSID stands for a station that never showed one. */
  ghost predicate Unknown(t: seq<Bss>, accepted: seq<Bss>) {
    forall k, b :: 0 <= k < |t| && b in accepted && SameStation(t[k], b) && Hidden(t[k].ssid) ==> Hidden(b.ssid)
  }

  /** Entry `e` stands for beacon `b`: the same station, with the SSID that `b` shows, if any. */
  predicate Heard(e: Bss, b: Bss) {
    e.bssid == b.bssid && (e.channel <= 14 <==> b.channel <= 14) && (Hidden(b.ssid) || e.ssid == b.ssid)
  }

  lemma LearnedKeepsStation(e: Bss, b: Bss)
    requires Matches(e, b)
    ensures SameStation(Learned(e, b), e) && Heard(Learned(e, b), b)
    ensures !Hidden(e.ssid) ==> Learned(e, b).ssid == e.ssid
    ensures Hidden(e.ssid) && Hidden(b.ssid) ==> Learned(e, b).ssid == e.ssid
    ensures forall a :: Heard(e, a) && (Hidden(e.ssid) ==> Hidden(a.ssid)) ==> Heard(Learned(e, b), a)
  {
  }

  lemma InsertKeepsApart(t: seq<Bss>, b: Bss)
    requires NoTwoMatch(t)
    ensures NoTwoMatch(Insert(t, b))
  {
    var idx, t' := Search(t, b, 0), Insert(t, b);
    forall i, j | 0 <= i < j < |t'| ensures !Matches(t'[i], t'[j]) {
      if idx < |t| && (i == idx || j == idx) {
        var k := if i == idx then j else i;
        LearnedKeepsStation(t[idx], b);
        assert !Matches(t[i], t[j]);
      }
    }
  }

  /** What an accepted beacon does to the entries. */
  lemma InsertEffect(t: seq<Bss>, b: Bss)
    requires Accepts(t, b)
    ensures var idx, t' := Search(t, b, 0), Insert(t, b);
            && |t'| == (if idx < |t| then |t| else |t| + 1)
            && t'[idx] == Learned(if idx < |t| then t[idx] else VACANT, b)
            && forall k :: 0 <= k < |t| && k != idx ==> t'[k] == t[k]
  {
  }

  lemma InsertKeepsCovers(t: seq<Bss>, b: Bss, accepted: seq<Bss>)
    requires Covers(t, accepted) && Unknown(t, accepted) && Accepts(t, b)
    ensures Covers(Insert(t, b), accepted + [b])
  {
    var idx, t' := Search(t, b, 0), Insert(t, b);
    InsertEffect(t, b);
    hide Insert;
    assert Heard(t'[idx], b);
    forall a | a in accepted ensures exists k :: 0 <= k < |t'| && Heard(t'[k], a) {
      var k :| 0 <= k < |t| && Heard(t[k], a);
      if k == idx { LearnedKeepsStation(t[k], b); }
      assert Heard(t'[k], a);
    }
  }

  lemma InsertKeepsJustified(t: seq<Bss>, b: Bss, accepted: seq<Bss>)
    requires Justified(t, accepted) && Accepts(t, b)
    ensures Justified(Insert(t, b), accepted + [b])
  {
    var idx, t' := Search(t, b, 0), Insert(t, b);
    InsertEffect(t, b);
    hide Insert;
    forall k {:trigger t'[k]} | 0 <= k < |t'|
      ensures exists a :: a in accepted + [b] && Heard(t'[k], a) && (Hidden(a.ssid) ==> t'[k].ssid == [])
    {
      if k < |t| && k != idx {
        var a :| a in accepted && Heard(t[k], a) && (Hidden(a.ssid) ==> t[k].ssid == []);
        assert a in accepted + [b];
      } else if k < |t| && !Hidden(t[k].ssid) {
        var a :| a in accepted && Heard(t[k], a) && (Hidden(a.ssid) ==> t[k].ssid == []);
        LearnedKeepsStation(t[k], b);
        assert a in accepted + [b] && Heard(t'[k], a);
      } else {
        if k < |t| {
          var a :| a in accepted && Heard(t[k], a) && (Hidden(a.ssid) ==> t[k].ssid == []);
          assert t[k].ssid == [];
        }
        assert b in accepted + [b] && Heard(t'[k], b);
      }
    }
  }

  /** A beacon without an SSID that matches nothing is the first of its station. */
  lemma NewStation(t: seq<Bss>, b: Bss, accepted: seq<Bss>)
    requires Covers(t, accepted) && Search(t, b, 0) == |t| && Hidden(b.ssid)
    ensures forall a :: a in accepted ==> !SameStation(a, b)
  {
    forall a | a in accepted ensures !SameStation(a, b) {
      var j := EntryOf(t, accepted, a);
      assert !Matches(t[j], b);
    }
  }

  /** Apart from the entry found, none stands for the station of `b` without an SSID. */
  lemma OthersShow(t: seq<Bss>, b: Bss, k: nat)
    requires NoTwoMatch(t) && k < |t| && k != Search(t, b, 0)
    ensures !(SameStation(t[k], b) && Hidden(t[k].ssid))
  {
    var idx := Search(t, b, 0);
    if idx < k { assert !Matches(t[idx], t[k]); }
    assert k < idx ==> !Matches(t[k], b);
  }

  lemma EntryOf(t: seq<Bss>, accepted: seq<Bss>, b: Bss) returns (k: nat)
    requires Covers(t, accepted) && b in accepted
    ensures k < |t| && Heard(t[k], b)
  {
    k :| 0 <= k < |t| && Heard(t[k], b);
  }

  lemma BeaconOf(t: seq<Bss>, accepted: seq<Bss>, k: nat) returns (b: Bss)
    requires Justified(t, accepted) && k < |t|
    ensures b in accepted && Heard(t[k], b) && (Hidden(b.ssid) ==> t[k].ssid == [])
  {
    var e := t[k];
    b :| b in accepted && Heard(e, b) && (Hidden(b.ssid) ==> e.ssid == []);
  }

  lemma InsertKeepsUnknown(t: seq<Bss>, b: Bss, accepted: seq<Bss>)
    requires NoTwoMatch(t) && Covers(t, accepted) && Unknown(t, accepted) && Accepts(t, b)
    ensures Unknown(Insert(t, b), accepted + [b])
  {
    var idx, t' := Search(t, b, 0), Insert(t, b);
    InsertEffect(t, b);
    if idx == |t| && Hidden(b.ssid) { NewStation(t, b, accepted); }
    hide Insert, Covers;
    forall k, a | 0 <= k < |t'| && a in accepted + [b] && SameStation(t'[k], a) && Hidden(t'[k].ssid)
      ensures Hidden(a.ssid)
    {
      if k < |t| && k != idx {
        OthersShow(t, b, k);
      } else if k < |t| {
        LearnedKeepsStation(t[k], b);
      }
    }
  }

  /** In every run from the reset table: no two entries match, and they say what was heard. */
  lemma {:induction false} EveryRunIsFaithful(beacons: seq<Bss>)
    ensures var t, accepted := Run([], beacons), Accepted([], beacons);
            && |t| <= MAX_LEN_OF_BSS_TABLE && NoTwoMatch(t)
            && Covers(t, accepted) && Justified(t, accepted) && Unknown(t, accepted)
  {
    if beacons != [] {
      var init, last := beacons[..|beacons| - 1], beacons[|beacons| - 1];
      EveryRunIsFaithful(init);
      var t, accepted := Run([], init), Accepted([], init);
      InsertKeepsApart(t, last);
      if Accepts(t, last) {
        InsertKeepsCovers(t, last, accepted);
        InsertKeepsJustified(t, last, accepted);
        InsertKeepsUnknown(t, last, accepted);
      } else {
        assert accepted + [] == accepted;
      }
    }
  }

  /** The station of `b`, by address and band, with exactly its SSID. */
  predicate Shows(e: Bss, b: Bss) {
    e.bssid == b.bssid && (e.channel <= 14 <==> b.channel <= 14) && e.ssid == b.ssid
  }

  /** The station of `b`, by address and band, without an SSID or with one of zeros only. */
  predicate Hides(e: Bss, b: Bss) {
    e.bssid == b.bssid && (e.channel <= 14 <==> b.channel <= 14) && forall c :: c in e.ssid ==> c == 0
  }

  lemma HidesIs(e: Bss, b: Bss)
    ensures Hides(e, b) <==> SameStation(e, b) && Hidden(e.ssid)
  {
    assert forall k :: 0 <= k < |e.ssid| ==> e.ssid[k] in e.ssid;
  }

  lemma ShownIff(t: seq<Bss>, accepted: seq<Bss>, b: Bss)
    requires Covers(t, accepted) && Justified(t, accepted) && !Hidden(b.ssid)
    ensures (exists k :: 0 <= k < |t| && Shows(t[k], b)) <==> (exists a :: a in accepted && Shows(a, b))
  {
    hide Covers, Justified;
    if a :| a in accepted && Shows(a, b) {
      var k := EntryOf(t, accepted, a);
      assert Shows(t[k], b);
    }
    if k: nat :| k < |t| && Shows(t[k], b) {
      var a := BeaconOf(t, accepted, k);
      assert Shows(a, b);
    }
  }

  lemma HiddenIff(t: seq<Bss>, accepted: seq<Bss>, b: Bss)
    requires Covers(t, accepted) && Justified(t, accepted) && Unknown(t, accepted)
    ensures (exists k :: 0 <= k < |t| && Hides(t[k], b)) <==>
            ((exists a :: a in accepted && SameStation(a, b)) &&
             (forall a :: a in accepted && SameStation(a, b) ==> Hidden(a.ssid)))
  {
    hide Covers, Justified;
    forall e: Bss ensures Hides(e, b) <==> SameStation(e, b) && Hidden(e.ssid) { HidesIs(e, b); }
    if k: nat :| k < |t| && Hides(t[k], b) {
      var a := BeaconOf(t, accepted, k);
      assert SameStation(a, b);
      forall c | c in accepted && SameStation(c, b) ensures Hidden(c.ssid) {
        assert SameStation(t[k], c);
      }
    }
    if a :| a in accepted && SameStation(a, b) && forall c :: c in accepted && SameStation(c, b) ==> Hidden(c.ssid) {
      var k := EntryOf(t, accepted, a);
      var c := BeaconOf(t, accepted, k);
      assert SameStation(c, b);
      assert Hides(t[k], b);
    }
  }

  /** The SSIDs the table lists for a station are exactly the visible ones among the beacons taken. */
  lemma SsidListedIff(beacons: seq<Bss>, b: Bss)
    requires exists c :: c in b.ssid && c != 0
    ensures var t := Run([], beacons);
            (exists k :: 0 <= k < |t| && Shows(t[k], b)) <==> (exists a :: a in Accepted([], beacons) && Shows(a, b))
  {
    EveryRunIsFaithful(beacons);
    ShownIff(Run([], beacons), Accepted([], beacons), b);
  }

  /** A station is listed without an SSID exactly when it was heard and never showed one. */
  lemma HiddenListedIff(beacons: seq<Bss>, b: Bss)
    ensures var t, accepted := Run([], beacons), Accepted([], beacons);
            (exists k :: 0 <= k < |t| && Hides(t[k], b)) <==>
            ((exists a :: a in accepted && Hides(a, b)) &&
             (forall a :: a in accepted && a.bssid == b.bssid && (a.channel <= 14 <==> b.channel <= 14) ==>
                          Hides(a, b)))
  {
    EveryRunIsFaithful(beacons);
    HiddenIff(Run([], beacons), Accepted([], beacons), b);
    forall a: Bss ensures Hides(a, b) <==> SameStation(a, b) && Hidden(a.ssid) { HidesIs(a, b); }
    hide Hides, Hidden;
  }

  /** What one more beacon cannot do: remove an entry, move it to another station, or change a known SSID. */
  lemma InsertKeepsEntries(t: seq<Bss>, b: Bss, k: nat)
    requires k < |t|
    ensures |t| <= |Insert(t, b)| && SameStation(Insert(t, b)[k], t[k])
    ensures !Hidden(t[k].ssid) ==> Insert(t, b)[k].ssid == t[k].ssid
  {
    var idx := Search(t, b, 0);
    if idx < |t| { LearnedKeepsStation(t[idx], b); }
  }

  lemma {:induction false} LearnedIsNeverErased(t: seq<Bss>, beacons: seq<Bss>, k: nat)
    requires k < |t|
    ensures |t| <= |Run(t, beacons)| && SameStation(Run(t, beacons)[k], t[k])
    ensures !Hidden(t[k].ssid) ==> Run(t, beacons)[k].ssid == t[k].ssid
  {
    if beacons != [] {
      LearnedIsNeverErased(t, beacons[..|beacons| - 1], k);
      InsertKeepsEntries(Run(t, beacons[..|beacons| - 1]), beacons[|beacons| - 1], k);
    }
  }

  /** A beacon is turned away exactly when the table holds its 128 entries and none of them may be its own. */
  lemma AcceptsIff(t: seq<Bss>, b: Bss)
    ensures Accepts(t, b) <==>
            |t| < 128 ||
            exists k :: 0 <= k < |t| && t[k].bssid == b.bssid && (t[k].channel <= 14 <==> b.channel <= 14) &&
                        (Hidden(t[k].ssid) || Hidden(b.ssid) || t[k].ssid == b.ssid)
  {
  }

  // ---------------------------------------------------------------- the latest measurements

  predicate SameRadio(e: Bss, b: Bss) {
    e.channel == b.channel && e.ext == b.ext && e.rssi == b.rssi
  }

  /** Beacon `b` can only be meant for entry `e`. */
  predicate MeantFor(e: Bss, b: Bss) {
    e.bssid == b.bssid && (e.channel <= 14 <==> b.channel <= 14) && (Hidden(e.ssid) || e.ssid == b.ssid)
  }

  /** Entry `e` holds what beacon `i` said, and no later one was meant for it. */
  ghost predicate FromBeacon(e: Bss, accepted: seq<Bss>, i: nat) {
    && i < |accepted| && Heard(e, accepted[i]) && SameRadio(e, accepted[i])
    && forall j :: i < j < |accepted| ==> !MeantFor(e, accepted[j])
  }

  ghost predicate UpToDate(e: Bss, accepted: seq<Bss>) {
    exists i: nat :: FromBeacon(e, accepted, i)
  }

  ghost predicate Latest(t: seq<Bss>, accepted: seq<Bss>) {
    forall k :: 0 <= k < |t| ==> UpToDate(t[k], accepted)
  }

  lemma OneMoreBeacon(e: Bss, accepted: seq<Bss>, b: Bss, i: nat)
    requires FromBeacon(e, accepted, i) && !MeantFor(e, b)
    ensures FromBeacon(e, accepted + [b], i)
  {
  }

  lemma FreshBeacon(e: Bss, accepted: seq<Bss>, b: Bss)
    requires Heard(e, b) && SameRadio(e, b)
    ensures FromBeacon(e, accepted + [b], |accepted|)
  {
  }

  lemma NotMeant(t: seq<Bss>, b: Bss, k: nat)
    requires NoTwoMatch(t) && k < |t| && k != Search(t, b, 0)
    ensures !MeantFor(t[k], b)
  {
    assert MeantFor(t[k], b) ==> Matches(t[k], b);
  }

  lemma InsertKeepsLatest(t: seq<Bss>, b: Bss, accepted: seq<Bss>)
    requires NoTwoMatch(t) && Latest(t, accepted) && Accepts(t, b)
    ensures Latest(Insert(t, b), accepted + [b])
  {
    var idx, t' := Search(t, b, 0), Insert(t, b);
    InsertEffect(t, b);
    if idx < |t| { LearnedKeepsStation(t[idx], b); }
    assert Heard(t'[idx], b) && SameRadio(t'[idx], b);
    hide Insert, NoTwoMatch, Hidden, FromBeacon, Heard, SameRadio;
    forall k | 0 <= k < |t'| ensures UpToDate(t'[k], accepted + [b]) {
      if k == idx {
        FreshBeacon(t'[k], accepted, b);
      } else {
        assert t'[k] == t[k];
        var i: nat :| FromBeacon(t[k], accepted, i);
        NotMeant(t, b, k);
        OneMoreBeacon(t[k], accepted, b, i);
      }
    }
  }

  /** In every run each entry holds channel, extension and signal of the last beacon that was meant for it. */
  lemma {:induction false} EveryEntryIsLatest(beacons: seq<Bss>)
    ensures Latest(Run([], beacons), Accepted([], beacons))
  {
    if beacons != [] {
      var init, last := beacons[..|beacons| - 1], beacons[|beacons| - 1];
      EveryEntryIsLatest(init);
      EveryRunIsFaithful(init);
      var t, accepted := Run([], init), Accepted([], init);
      if Accepts(t, last) {
        InsertKeepsLatest(t, last, accepted);
      } else {
        assert accepted + [] == accepted;
      }
      hide Latest, NoTwoMatch;
    }
  }
}
