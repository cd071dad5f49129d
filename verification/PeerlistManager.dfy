/**
  `peerlist_manager` (net_peerlist.h): two containers, each indexed by address and by time, and the
  methods that update and list them. Every method is tied to its function in module PeerTables.
 */
module PeerlistManagers {
  import opened Bits
  import opened PeerTables
  import opened Sequences

  /** The two indexes hold the same entries. */
  ghost predicate IndexesAgree(byAddr: map<NetAddress, PeerEntry>, byTime: seq<PeerEntry>) {
    && byAddr.Keys == Addresses(byTime)
    && forall i :: 0 <= i < |byTime| ==> byTime[i].adr in byAddr && byAddr[byTime[i].adr] == byTime[i]
  }

  lemma {:induction false} AddressCount(order: seq<PeerEntry>)
    requires Distinct(order)
    ensures |Addresses(order)| == |order|
    decreases |order|
  {
    if order != [] {
      AddressCount(order[1..]);
      FirstGone(order);
      assert order[0].adr in Addresses(order);
    }
  }

  lemma AgreeAfterInsert(byAddr: map<NetAddress, PeerEntry>, byTime: seq<PeerEntry>, i: nat, e: PeerEntry)
    requires IndexesAgree(byAddr, byTime) && i <= |byTime| && e.adr !in byAddr
    ensures IndexesAgree(byAddr[e.adr := e], InsertAt(byTime, i, e))
  {
    InsertAtAddresses(byTime, i, e);
    var r := InsertAt(byTime, i, e);
    forall k | 0 <= k < |r| ensures r[k].adr in byAddr[e.adr := e] && byAddr[e.adr := e][r[k].adr] == r[k] {
      if k != i {
        var j := if k < i then k else k - 1;
        assert r[k] == byTime[j] && byTime[j].adr in byAddr;
      }
    }
  }

  lemma AgreeAfterRemove(byAddr: map<NetAddress, PeerEntry>, byTime: seq<PeerEntry>, i: nat)
    requires IndexesAgree(byAddr, byTime) && Sorted(byTime) && Distinct(byTime) && i < |byTime|
    ensures IndexesAgree(byAddr - {byTime[i].adr}, RemoveAt(byTime, i))
  {
    RemoveAtKeeps(byTime, i);
    var r := RemoveAt(byTime, i);
    forall k | 0 <= k < |r| ensures r[k].adr in byAddr - {byTime[i].adr} && byAddr[r[k].adr] == r[k] {
      assert r[k] == byTime[if k < i then k else k + 1];
    }
  }

  predicate PlaceAllowed(order: seq<PeerEntry>, e: PeerEntry, place: nat)
    requires Has(order, e.adr)
  {
    FitsAt(RemoveAt(order, Position(order, e.adr)), place, e.lastSeen)
  }

  lemma AgreeAfterReplace(byAddr: map<NetAddress, PeerEntry>, byTime: seq<PeerEntry>, e: PeerEntry, at: nat)
    requires IndexesAgree(byAddr, byTime) && Sorted(byTime) && Distinct(byTime) && Has(byTime, e.adr)
    ensures IndexesAgree(byAddr[e.adr := e], Replace(byTime, e, at))
  {
    hide IndexesAgree, Replace, RemoveAt, Sorted, Distinct, Has, InsertAt;
    var i := Position(byTime, e.adr);
    var place := PlaceOf(byTime, e, at);
    AgreeAfterRemove(byAddr, byTime, i);
    AgreeAfterInsert(byAddr - {e.adr}, RemoveAt(byTime, i), place, e);
    ReinsertKey(byAddr, e.adr, e);
  }

  lemma ReinsertKey<K, V>(m: map<K, V>, k: K, v: V)
    ensures (m - {k})[k := v] == m[k := v]
  {
  }

  /** Some place keeps the order. */
  lemma PlaceExists(order: seq<PeerEntry>, e: PeerEntry)
    requires Has(order, e.adr)
    ensures exists place: nat :: place <= |order| && PlaceAllowed(order, e, place)
  {
    var rest := RemoveAt(order, Position(order, e.adr));
    var place := UpperBound(rest, e.lastSeen);
    assert place <= |order| && PlaceAllowed(order, e, place);
  }

  /** `peers_indexed`: a multi-index container, unique by address and ordered by time. */
  class PeersIndexed {
    var byAddr: map<NetAddress, PeerEntry>
    var byTime: seq<PeerEntry>

    ghost predicate Valid()
      reads this
    {
      Sorted(byTime) && Distinct(byTime) && IndexesAgree(byAddr, byTime)
    }

    constructor ()
      ensures Valid() && byTime == []
    {
      byAddr, byTime := map[], [];
    }

    /** Both indexes have the size of the container, and an address is indexed exactly if the order has it. */
    lemma Size()
      requires Valid()
      ensures |byAddr| == |byTime|
      ensures forall a :: a in byAddr <==> Has(byTime, a)
    {
      AddressCount(byTime);
      assert |byAddr| == |byAddr.Keys|;
      forall a ensures a in byAddr <==> Has(byTime, a) { HasIsIn(byTime, a); }
    }

    method InsertNew(e: PeerEntry)
      requires Valid() && e.adr !in byAddr
      modifies this
      ensures Valid() && byTime == Insert(old(byTime), e)
    {
      Size();
      InsertKeeps(byTime, e);
      AgreeAfterInsert(byAddr, byTime, UpperBound(byTime, e.lastSeen), e);
      byAddr := byAddr[e.adr := e];
      byTime := Insert(byTime, e);
    }

    /** The container may put an entry whose time changes at any place that keeps the order. */
    method ReplaceEntry(e: PeerEntry) returns (ghost at: nat)
      requires Valid() && e.adr in byAddr
      modifies this
      ensures Valid() && byTime == Replace(old(byTime), e, at)
    {
      Size();
      PlaceExists(byTime, e);
      var place: nat :| place <= |byTime| && PlaceAllowed(byTime, e, place);
      at := place;
      ReplaceKeeps(byTime, e, place);
      AgreeAfterReplace(byAddr, byTime, e, place);
      byAddr := byAddr[e.adr := e];
      byTime := Replace(byTime, e, place);
    }

    method EraseOldest()
      requires Valid() && byTime != []
      modifies this
      ensures Valid() && byTime == old(byTime)[1..]
    {
      assert RemoveAt(byTime, 0) == byTime[1..];
      hide Sorted, Distinct, IndexesAgree, RemoveAt;
      RemoveAtKeeps(byTime, 0);
      AgreeAfterRemove(byAddr, byTime, 0);
      byAddr := byAddr - {byTime[0].adr};
      byTime := byTime[1..];
    }

    method Erase(adr: NetAddress)
      requires Valid() && adr in byAddr
      modifies this
      ensures Valid() && byTime == Remove(old(byTime), adr)
    {
      Size();
      RemoveKeeps(byTime, adr);
      AgreeAfterRemove(byAddr, byTime, Position(byTime, adr));
      byAddr := byAddr - {adr};
      byTime := Remove(byTime, adr);
    }
  }

  class PeerlistManager {
    const loopback: set<Word32>
    const local: set<Word32>
    var allowLocalIp: bool
    const white: PeersIndexed
    const gray: PeersIndexed

    ghost predicate Valid()
      reads this, white, gray
    {
      white != gray && white.Valid() && gray.Valid()
    }

    ghost function View(): Tables
      reads this, white, gray
    {
      Tables(white.byTime, gray.byTime)
    }

    function Policy(): IpPolicy
      reads this
    {
      IpPolicy(loopback, local, allowLocalIp)
    }

    /** The address is white, or there is room, or the entry is no older than the oldest of the newest 1000. */
    ghost predicate WhiteTakes(e: PeerEntry)
      reads white
    {
      var order := white.byTime;
      Has(order, e.adr) || |order| < 1000 || order[|order| - 1000].lastSeen <= e.lastSeen
    }

    constructor (loopback: set<Word32>, local: set<Word32>)
      ensures Valid() && View() == Tables([], [])
      ensures this.loopback == loopback && this.local == local
      ensures fresh(white) && fresh(gray)
    {
      this.loopback, this.local := loopback, local;
      allowLocalIp := false;
      white := new PeersIndexed();
      gray := new PeersIndexed();
    }

    method Init(allowLocalIp: bool) returns (ok: bool)
      requires Valid()
      modifies this
      ensures Valid() && ok && this.allowLocalIp == allowLocalIp && View() == old(View())
    {
      this.allowLocalIp := allowLocalIp;
      ok := true;
    }

    method IsIpAllowed(ip: Word32) returns (ok: bool)
      ensures ok <==> ip !in loopback && (allowLocalIp || ip !in local)
    {
      if ip in loopback {
        return false;
      }
      if !allowLocalIp && ip in local {
        return false;
      }
      return true;
    }

    method TrimWhitePeerlist()
      requires Valid()
      modifies white
      ensures Valid() && white.byTime == Newest(old(white.byTime), 1000)
    {
      while |white.byTime| > WHITE_LIMIT
        invariant Valid() && gray.byTime == old(gray.byTime)
        invariant Newest(white.byTime, WHITE_LIMIT) == Newest(old(white.byTime), WHITE_LIMIT)
        decreases |white.byTime|
      {
        DropFirst(white.byTime[0], white.byTime[1..], WHITE_LIMIT);
        assert [white.byTime[0]] + white.byTime[1..] == white.byTime;
        white.EraseOldest();
      }
    }

    method TrimGrayPeerlist()
      requires Valid()
      modifies gray
      ensures Valid() && gray.byTime == Newest(old(gray.byTime), 5000)
    {
      while |gray.byTime| > GRAY_LIMIT
        invariant Valid() && white.byTime == old(white.byTime)
        invariant Newest(gray.byTime, GRAY_LIMIT) == Newest(old(gray.byTime), GRAY_LIMIT)
        decreases |gray.byTime|
      {
        DropFirst(gray.byTime[0], gray.byTime[1..], GRAY_LIMIT);
        assert [gray.byTime[0]] + gray.byTime[1..] == gray.byTime;
        gray.EraseOldest();
      }
    }

    method AppendWithPeerWhite(ple: PeerEntry) returns (ok: bool, ghost at: nat)
      requires Valid()
      modifies white, gray
      ensures Valid() && ok && View() == AppendWhite(old(View()), Policy(), ple, at)
      ensures View() == Serve(old(View()), Policy(), White(ple, at))
      ensures (ple.adr.ip in loopback || (!allowLocalIp && ple.adr.ip in local)) ==> View() == old(View())
      ensures ple.adr.ip !in loopback && (allowLocalIp || ple.adr.ip !in local) ==>
                && !Has(gray.byTime, ple.adr)
                && (ple in white.byTime <==> old(WhiteTakes(ple)))
    {
      hide Insert, Replace, Newest, Has, IndexesAgree, Remove;
      at, ok := 0, true;
      var allowed := IsIpAllowed(ple.adr.ip);
      if !allowed {
        return;
      }
      white.Size();
      gray.Size();
      RemoveKeeps(gray.byTime, ple.adr);
      NothingToRemove(gray.byTime, ple.adr);
      HasIsIn(Remove(gray.byTime, ple.adr), ple.adr);
      if Has(white.byTime, ple.adr) {
        EveryReplacedIsIn(white.byTime, ple);
      } else {
        NewEntryStays(white.byTime, ple, WHITE_LIMIT);
      }
      if ple.adr !in white.byAddr {
        white.InsertNew(ple);
        TrimWhitePeerlist();
      } else {
        at := white.ReplaceEntry(ple);
      }
      if ple.adr in gray.byAddr {
        gray.Erase(ple.adr);
      }
    }

    method AppendWithPeerGray(ple: PeerEntry) returns (ok: bool, ghost at: nat)
      requires Valid()
      modifies gray
      ensures Valid() && ok && View() == Serve(old(View()), Policy(), Gray(ple, at))
      ensures View() == AppendGray(old(View()), Policy(), ple, at)
      ensures (ple.adr.ip in loopback || (!allowLocalIp && ple.adr.ip in local)) ==> View() == old(View())
    {
      hide Insert, Replace, Newest, Has, IndexesAgree;
      at, ok := 0, true;
      var allowed := IsIpAllowed(ple.adr.ip);
      if !allowed {
        return;
      }
      white.Size();
      gray.Size();
      if ple.adr in white.byAddr {
        return;
      }
      if ple.adr !in gray.byAddr {
        gray.InsertNew(ple);
        TrimGrayPeerlist();
      } else {
        at := gray.ReplaceEntry(ple);
      }
    }

    method MergePeerlist(outerBs: seq<PeerEntry>) returns (ok: bool, ghost ats: seq<nat>)
      requires Valid()
      modifies gray
      ensures Valid() && ok && |ats| == |outerBs|
      ensures View() == Merge(5000, old(View()), Policy(), outerBs, ats)
      ensures View() == Serve(old(View()), Policy(), MergeList(outerBs, ats))
    {
      hide AppendGrayWithin, Newest;
      ats := [];
      for i := 0 to |outerBs|
        invariant Valid() && |ats| == i
        invariant View() == AppendAllGray(GRAY_LIMIT, old(View()), Policy(), outerBs[..i], ats)
      {
        ghost var before := View();
        var be := outerBs[i];
        var done, at := AppendWithPeerGray(be);
        AppendOneMore(GRAY_LIMIT, old(View()), Policy(), outerBs[..i], ats, be, at);
        assert outerBs[..i] + [be] == outerBs[..i + 1];
        ats := ats + [at];
      }
      assert outerBs[..|outerBs|] == outerBs;
      TrimGrayPeerlist();
      ok := true;
    }

    /** The clock is a parameter. */
    method SetPeerJustSeen(peer: Word64, addr: NetAddress, now: Int64) returns (ok: bool, ghost at: nat)
      requires Valid()
      modifies white, gray
      ensures Valid() && ok && View() == Serve(old(View()), Policy(), JustSeen(peer, addr, now, at))
      ensures (addr.ip in loopback || (!allowLocalIp && addr.ip in local)) ==> View() == old(View())
      ensures addr.ip !in loopback && (allowLocalIp || addr.ip !in local) ==>
                && !Has(gray.byTime, addr)
                && (PeerEntry(addr, peer, now) in white.byTime <==> old(WhiteTakes(PeerEntry(addr, peer, now))))
    {
      ok, at := AppendWithPeerWhite(PeerEntry(addr, peer, now));
    }

    method GetWhitePeerByIndex(i: nat) returns (found: bool, p: PeerEntry)
      requires Valid()
      ensures found == (i < |white.byTime|)
      ensures found ==> p == NewestFirst(white.byTime)[i]
    {
      p := PeerEntry(NetAddress(0, 0), 0, 0);
      if i >= |white.byTime| {
        return false, p;
      }
      return true, white.byTime[|white.byTime| - 1 - i];
    }

    method GetGrayPeerByIndex(i: nat) returns (found: bool, p: PeerEntry)
      requires Valid()
      ensures found == (i < |gray.byTime|)
      ensures found ==> p == NewestFirst(gray.byTime)[i]
    {
      p := PeerEntry(NetAddress(0, 0), 0, 0);
      if i >= |gray.byTime| {
        return false, p;
      }
      return true, gray.byTime[|gray.byTime| - 1 - i];
    }

    /**
      Appends the newest white entries with a known time. The counter is tested before it is increased,
      so the loop stops after `depth + 2` entries; the largest depth is one that the counter never exceeds.
     */
    method GetPeerlistHead(bsHead: seq<PeerEntry>, depth: Word32) returns (ok: bool, bsHead': seq<PeerEntry>)
      requires Valid()
      ensures ok
      ensures var seen := Seen(white.byTime);
              bsHead' == bsHead + seen[..if depth == 0xFFFF_FFFF || |seen| <= depth + 2 then |seen| else depth + 2]
    {
      hide Seen;
      var cnt: Word32 := 0;
      ghost var pushed: nat := 0;
      bsHead' := bsHead;
      ok := true;
      ghost var all := bsHead + Seen(white.byTime);
      SeenSize(white.byTime);
      var k := |white.byTime|;
      assert white.byTime[..k] == white.byTime;
      while k > 0
        invariant 0 <= k <= |white.byTime|
        invariant bsHead' + Seen(white.byTime[..k]) == all && |bsHead'| == |bsHead| + pushed
        invariant depth < 0xFFFF_FFFF ==> cnt == pushed <= depth as nat + 1
      {
        var vl := white.byTime[k - 1];
        SeenStep(white.byTime, k);
        k := k - 1;
        if vl.lastSeen == 0 {
          continue;
        }
        Regroup(bsHead', [vl], Seen(white.byTime[..k]));
        bsHead' := bsHead' + [vl];
        pushed := pushed + 1;
        var before := cnt;
        cnt := (cnt + 1) % 0x1_0000_0000;
        if before > depth {
          HeadOf(bsHead, Seen(white.byTime), bsHead', Seen(white.byTime[..k]));
          return;
        }
      }
      SeenNone();
      assert white.byTime[..0] == [];
      HeadOf(bsHead, Seen(white.byTime), bsHead', []);
    }

    method GetPeerlistFull(plGray: seq<PeerEntry>, plWhite: seq<PeerEntry>)
      returns (ok: bool, plGray': seq<PeerEntry>, plWhite': seq<PeerEntry>)
      requires Valid()
      ensures ok
      ensures plGray' == plGray + NewestFirst(gray.byTime) && plWhite' == plWhite + NewestFirst(white.byTime)
    {
      hide NewestFirst, Sorted, Distinct, IndexesAgree;
      ok, plGray', plWhite' := true, plGray, plWhite;
      ghost var (grays, whites) := (NewestFirst(gray.byTime), NewestFirst(white.byTime));
      var k := |gray.byTime|;
      while k > 0
        invariant 0 <= k <= |gray.byTime| && plGray' == plGray + grays[..|gray.byTime| - k]
      {
        k := k - 1;
        assert grays[..|grays| - k] == grays[..|grays| - k - 1] + [gray.byTime[k]];
        plGray' := plGray' + [gray.byTime[k]];
      }
      assert grays[..|grays|] == grays;
      k := |white.byTime|;
      while k > 0
        invariant 0 <= k <= |white.byTime| && plWhite' == plWhite + whites[..|white.byTime| - k]
      {
        k := k - 1;
        assert whites[..|whites| - k] == whites[..|whites| - k - 1] + [white.byTime[k]];
        plWhite' := plWhite' + [white.byTime[k]];
      }
      assert whites[..|whites|] == whites;
    }
  }

  lemma NothingToRemove(order: seq<PeerEntry>, adr: NetAddress)
    ensures !Has(order, adr) ==> Remove(order, adr) == order
  {
  }

  lemma EveryReplacedIsIn(order: seq<PeerEntry>, e: PeerEntry)
    requires Has(order, e.adr)
    ensures forall at: nat :: e in Replace(order, e, at)
  {
    hide Replace, Has;
    forall at: nat ensures e in Replace(order, e, at) { ReplacedIsIn(order, e, at); }
  }

  lemma {:induction false} AppendOneMore(limit: nat, t: Tables, policy: IpPolicy, batch: seq<PeerEntry>, ats: seq<nat>,
                                         e: PeerEntry, at: nat)
    requires |ats| == |batch|
    ensures AppendAllGray(limit, t, policy, batch + [e], ats + [at])
         == AppendGrayWithin(limit, AppendAllGray(limit, t, policy, batch, ats), policy, e, at)
    decreases |batch|
  {
    hide AppendGrayWithin;
    if batch == [] {
      assert batch + [e] == [e] && ats + [at] == [at];
      assert [e][1..] == [] && [at][1..] == [];
    } else {
      assert (batch + [e])[1..] == batch[1..] + [e] && (ats + [at])[1..] == ats[1..] + [at];
      AppendOneMore(limit, AppendGrayWithin(limit, t, policy, batch[0], ats[0]), policy, batch[1..], ats[1..], e, at);
    }
  }

  lemma {:induction false} SeenSize(order: seq<PeerEntry>)
    ensures |Seen(order)| <= |order|
    decreases |order|
  {
    if order != [] { SeenSize(order[..|order| - 1]); }
  }

  lemma SeenStep(order: seq<PeerEntry>, k: nat)
    requires 0 < k <= |order|
    ensures Seen(order[..k]) == (if order[k - 1].lastSeen == 0 then [] else [order[k - 1]]) + Seen(order[..k - 1])
  {
    assert order[..k][..k - 1] == order[..k - 1];
  }

  lemma SeenNone()
    ensures Seen([]) == []
  {
  }

  lemma HeadOf<T>(base: seq<T>, all: seq<T>, done: seq<T>, rest: seq<T>)
    requires done + rest == base + all && |done| >= |base|
    ensures done == base + all[..|done| - |base|]
  {
    assert done == (base + all)[..|done|];
  }

  /** Reading white peers stored in the previous format; `pio` lists them by id, its first index. */
  method PeersIndexedFromOld(pio: seq<PeerEntry>, pi: PeersIndexed) returns (ok: bool)
    requires pi.Valid()
    modifies pi
    ensures pi.Valid() && ok && pi.byTime == AddMissing(old(pi.byTime), pio)
  {
    for i := 0 to |pio|
      invariant pi.Valid() && AddMissing(pi.byTime, pio[i..]) == AddMissing(old(pi.byTime), pio)
    {
      var x := pio[i];
      assert pio[i..][1..] == pio[i + 1..];
      pi.Size();
      if x.adr !in pi.byAddr {
        pi.InsertNew(x);
      }
    }
    ok := true;
  }
}
