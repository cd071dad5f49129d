/**
  The white and gray peer tables (net_peerlist.h) as values: each table is the order of its entries
  by `last_seen`, and each request of the manager is a function on the two orders.
 */
module PeerTables {
  import opened Bits

  type Int64 = x: int | -0x8000_0000_0000_0000 <= x < 0x8000_0000_0000_0000

  datatype NetAddress = NetAddress(ip: Word32, port: Word32)

  datatype PeerEntry = PeerEntry(adr: NetAddress, id: Word64, lastSeen: Int64)

  /** `local_ip.h` is not part of this model: the loopback and local addresses are given. */
  datatype IpPolicy = IpPolicy(loopback: set<Word32>, local: set<Word32>, allowLocal: bool) {
    predicate Allows(ip: Word32) {
      ip !in loopback && (allowLocal || ip !in local)
    }
  }

  const WHITE_LIMIT: nat := 1000
  const GRAY_LIMIT: nat := 5000

  // ---------------------------------------------------------------- one order

  ghost predicate Sorted(order: seq<PeerEntry>) {
    forall i, j :: 0 <= i < j < |order| ==> order[i].lastSeen <= order[j].lastSeen
  }

  ghost predicate Distinct(order: seq<PeerEntry>) {
    forall i, j :: 0 <= i < j < |order| ==> order[i].adr != order[j].adr
  }

  ghost function Addresses(order: seq<PeerEntry>): set<NetAddress> {
    set i | 0 <= i < |order| :: order[i].adr
  }

  predicate Has(order: seq<PeerEntry>, adr: NetAddress) {
    exists i :: 0 <= i < |order| && order[i].adr == adr
  }

  function Position(order: seq<PeerEntry>, adr: NetAddress): (i: nat)
    requires Has(order, adr)
    ensures i < |order| && order[i].adr == adr
  {
    if order[0].adr == adr then 0 else 1 + Position(order[1..], adr)
  }

  /** Where an entry seen at time `t` is inserted: behind all entries that are not newer. */
  function UpperBound(order: seq<PeerEntry>, t: int): (i: nat)
    ensures i <= |order|
    ensures i < |order| ==> order[i].lastSeen > t
    ensures 0 < i ==> order[i - 1].lastSeen <= t
  {
    if order == [] || order[0].lastSeen > t then 0 else 1 + UpperBound(order[1..], t)
  }

  function InsertAt(order: seq<PeerEntry>, i: nat, e: PeerEntry): seq<PeerEntry>
    requires i <= |order|
  {
    order[..i] + [e] + order[i..]
  }

  function Insert(order: seq<PeerEntry>, e: PeerEntry): seq<PeerEntry> {
    InsertAt(order, UpperBound(order, e.lastSeen), e)
  }

  function RemoveAt(order: seq<PeerEntry>, i: nat): seq<PeerEntry>
    requires i < |order|
  {
    order[..i] + order[i + 1..]
  }

  function Remove(order: seq<PeerEntry>, adr: NetAddress): seq<PeerEntry> {
    if Has(order, adr) then RemoveAt(order, Position(order, adr)) else order
  }

  predicate FitsAt(order: seq<PeerEntry>, i: nat, t: int) {
    i <= |order| && (0 < i ==> order[i - 1].lastSeen <= t) && (i < |order| ==> t <= order[i].lastSeen)
  }

  /**
    The container's `replace`. An entry whose time does not change stays where it is. Otherwise it goes
    to some place that keeps the order: the container is free to choose among entries of the same time,
    and `at` is its choice.
   */
  function Replace(order: seq<PeerEntry>, e: PeerEntry, at: nat): seq<PeerEntry>
    requires Has(order, e.adr)
  {
    var i := Position(order, e.adr);
    var rest := RemoveAt(order, i);
    if order[i].lastSeen == e.lastSeen then order[i := e]
    else if FitsAt(rest, at, e.lastSeen) then InsertAt(rest, at, e)
    else Insert(rest, e)
  }

  /** The newest `limit` entries. */
  function Newest(order: seq<PeerEntry>, limit: nat): seq<PeerEntry> {
    if |order| <= limit then order else order[|order| - limit..]
  }

  // ---------------------------------------------------------------- what the container keeps

  lemma InsertAtSorted(order: seq<PeerEntry>, i: nat, e: PeerEntry)
    requires Sorted(order) && FitsAt(order, i, e.lastSeen)
    ensures Sorted(InsertAt(order, i, e))
  {
  }

  lemma InsertAtDistinct(order: seq<PeerEntry>, i: nat, e: PeerEntry)
    requires Distinct(order) && !Has(order, e.adr) && i <= |order|
    ensures Distinct(InsertAt(order, i, e))
  {
    var r := InsertAt(order, i, e);
    forall k | 0 <= k < |r| && k != i ensures r[k].adr != e.adr && r[k] == order[if k < i then k else k - 1] {}
  }

  lemma InsertAtMultiset(order: seq<PeerEntry>, i: nat, e: PeerEntry)
    requires i <= |order|
    ensures multiset(InsertAt(order, i, e)) == multiset(order) + multiset{e}
  {
    assert order == order[..i] + order[i..];
  }

  lemma InsertAtAddresses(order: seq<PeerEntry>, i: nat, e: PeerEntry)
    requires i <= |order|
    ensures Addresses(InsertAt(order, i, e)) == Addresses(order) + {e.adr}
  {
    var r := InsertAt(order, i, e);
    forall a | a in Addresses(order) ensures a in Addresses(r) {
      var k :| 0 <= k < |order| && order[k].adr == a;
      assert r[if k < i then k else k + 1].adr == a;
    }
    assert r[i].adr == e.adr;
    forall a | a in Addresses(r) ensures a in Addresses(order) + {e.adr} {
      var k :| 0 <= k < |r| && r[k].adr == a;
      if k != i { assert order[if k < i then k else k - 1].adr == a; }
    }
  }

  lemma InsertAtKeeps(order: seq<PeerEntry>, i: nat, e: PeerEntry)
    requires Sorted(order) && FitsAt(order, i, e.lastSeen)
    ensures Sorted(InsertAt(order, i, e)) && |InsertAt(order, i, e)| == |order| + 1
    ensures Distinct(order) && !Has(order, e.adr) ==> Distinct(InsertAt(order, i, e))
    ensures multiset(InsertAt(order, i, e)) == multiset(order) + multiset{e}
    ensures Addresses(InsertAt(order, i, e)) == Addresses(order) + {e.adr}
  {
    InsertAtSorted(order, i, e);
    InsertAtMultiset(order, i, e);
    InsertAtAddresses(order, i, e);
    if Distinct(order) && !Has(order, e.adr) { InsertAtDistinct(order, i, e); }
  }

  /** An order is one of its entries inserted into the others. */
  lemma InsertRemoved(order: seq<PeerEntry>, i: nat)
    requires i < |order|
    ensures InsertAt(RemoveAt(order, i), i, order[i]) == order
  {
  }

  lemma RemoveAtKeeps(order: seq<PeerEntry>, i: nat)
    requires Sorted(order) && Distinct(order) && i < |order|
    ensures Sorted(RemoveAt(order, i)) && Distinct(RemoveAt(order, i))
    ensures multiset(RemoveAt(order, i)) + multiset{order[i]} == multiset(order)
    ensures Addresses(RemoveAt(order, i)) == Addresses(order) - {order[i].adr}
    ensures !Has(RemoveAt(order, i), order[i].adr)
  {
    var r := RemoveAt(order, i);
    InsertRemoved(order, i);
    InsertAtMultiset(r, i, order[i]);
    InsertAtAddresses(r, i, order[i]);
    RemoveAtElements(order, i);
    HasIsIn(r, order[i].adr);
  }

  lemma RemoveAtElements(order: seq<PeerEntry>, i: nat)
    requires Sorted(order) && Distinct(order) && i < |order|
    ensures Sorted(RemoveAt(order, i)) && Distinct(RemoveAt(order, i))
    ensures !Has(RemoveAt(order, i), order[i].adr)
  {
    var r := RemoveAt(order, i);
    forall k | 0 <= k < |r| ensures r[k] == order[if k < i then k else k + 1] {}
  }

  lemma RemoveKeeps(order: seq<PeerEntry>, adr: NetAddress)
    requires Sorted(order) && Distinct(order)
    ensures Sorted(Remove(order, adr)) && Distinct(Remove(order, adr))
    ensures Addresses(Remove(order, adr)) == Addresses(order) - {adr}
    ensures |Remove(order, adr)| <= |order|
  {
    if Has(order, adr) {
      RemoveAtKeeps(order, Position(order, adr));
    } else {
      HasIsIn(order, adr);
    }
  }

  lemma HasIsIn(order: seq<PeerEntry>, adr: NetAddress)
    ensures Has(order, adr) <==> adr in Addresses(order)
  {
  }

  lemma ReplaceKeeps(order: seq<PeerEntry>, e: PeerEntry, at: nat)
    requires Sorted(order) && Distinct(order) && Has(order, e.adr)
    ensures Sorted(Replace(order, e, at)) && Distinct(Replace(order, e, at))
    ensures Addresses(Replace(order, e, at)) == Addresses(order)
    ensures |Replace(order, e, at)| == |order|
    ensures multiset(Replace(order, e, at)) + multiset{order[Position(order, e.adr)]} == multiset(order) + multiset{e}
  {
    var i := Position(order, e.adr);
    var rest := RemoveAt(order, i);
    RemoveAtKeeps(order, i);
    HasIsIn(order, e.adr);
    var place := PlaceOf(order, e, at);
    assert |rest| == |order| - 1;
    hide InsertAt, Addresses, Sorted, Distinct, Has, RemoveAt, Replace, FitsAt;
    InsertAtKeeps(rest, place, e);
    SwapInMultiset(multiset(rest), e, order[i]);
  }

  lemma SwapInMultiset(m: multiset<PeerEntry>, x: PeerEntry, y: PeerEntry)
    ensures m + multiset{x} + multiset{y} == m + multiset{y} + multiset{x}
  {
  }

  lemma InsertInOldPlace(order: seq<PeerEntry>, i: nat, e: PeerEntry)
    requires i < |order|
    ensures order[i := e] == InsertAt(RemoveAt(order, i), i, e)
  {
  }

  lemma OldPlaceFits(order: seq<PeerEntry>, i: nat)
    requires Sorted(order) && i < |order|
    ensures FitsAt(RemoveAt(order, i), i, order[i].lastSeen)
  {
  }

  lemma UpperBoundFits(order: seq<PeerEntry>, t: int)
    ensures FitsAt(order, UpperBound(order, t), t)
  {
  }

  /** Replacing is inserting into the others, at the old place if the time is the same. */
  lemma PlaceOf(order: seq<PeerEntry>, e: PeerEntry, at: nat) returns (place: nat)
    requires Sorted(order) && Has(order, e.adr)
    ensures var rest := RemoveAt(order, Position(order, e.adr));
            FitsAt(rest, place, e.lastSeen) && Replace(order, e, at) == InsertAt(rest, place, e)
  {
    hide Sorted, Has, Position, RemoveAt, InsertAt, FitsAt, UpperBound;
    var i := Position(order, e.adr);
    var rest := RemoveAt(order, i);
    if order[i].lastSeen == e.lastSeen {
      place := i;
      OldPlaceFits(order, i);
      InsertInOldPlace(order, i, e);
    } else {
      UpperBoundFits(rest, e.lastSeen);
      place := if FitsAt(rest, at, e.lastSeen) then at else UpperBound(rest, e.lastSeen);
    }
  }

  lemma NewestKeeps(order: seq<PeerEntry>, limit: nat)
    requires Sorted(order) && Distinct(order)
    ensures Sorted(Newest(order, limit)) && Distinct(Newest(order, limit))
    ensures |Newest(order, limit)| == if |order| <= limit then |order| else limit
    ensures Addresses(Newest(order, limit)) <= Addresses(order)
  {
    var n := if |order| <= limit then 0 else |order| - limit;
    assert Newest(order, limit) == order[n..];
    forall k | 0 <= k < |order| - n ensures order[n..][k] == order[k + n] {}
  }

  /** What is dropped is no newer than what is kept, and together they are the whole order. */
  lemma NewestAreLargest(order: seq<PeerEntry>, limit: nat)
    requires Sorted(order)
    ensures var dropped := order[..|order| - |Newest(order, limit)|];
            && multiset(Newest(order, limit)) + multiset(dropped) == multiset(order)
            && forall x, y :: x in dropped && y in Newest(order, limit) ==> x.lastSeen <= y.lastSeen
  {
    var n := |order| - |Newest(order, limit)|;
    assert order == order[..n] + order[n..];
    forall x, y | x in order[..n] && y in order[n..] ensures x.lastSeen <= y.lastSeen {
      var i :| 0 <= i < n && order[i] == x;
      var j :| 0 <= j < |order| - n && order[n..][j] == y;
      assert order[n + j] == y;
    }
  }

  // ---------------------------------------------------------------- the two tables

  datatype Tables = Tables(white: seq<PeerEntry>, gray: seq<PeerEntry>)

  function AppendWhite(t: Tables, policy: IpPolicy, e: PeerEntry, at: nat): Tables {
    if !policy.Allows(e.adr.ip) then t
    else
      var white := if Has(t.white, e.adr) then Replace(t.white, e, at) else Newest(Insert(t.white, e), WHITE_LIMIT);
      Tables(white, Remove(t.gray, e.adr))
  }

  /** `append_with_peer_gray`, for a gray table of at most `limit` entries. */
  function AppendGrayWithin(limit: nat, t: Tables, policy: IpPolicy, e: PeerEntry, at: nat): Tables {
    if !policy.Allows(e.adr.ip) || Has(t.white, e.adr) then t
    else if Has(t.gray, e.adr) then t.(gray := Replace(t.gray, e, at))
    else t.(gray := Newest(Insert(t.gray, e), limit))
  }

  function AppendGray(t: Tables, policy: IpPolicy, e: PeerEntry, at: nat): Tables {
    AppendGrayWithin(GRAY_LIMIT, t, policy, e, at)
  }

  /** The loop of `merge_peerlist`; `ats[i]` is the container's choice for the i-th entry. */
  function AppendAllGray(limit: nat, t: Tables, policy: IpPolicy, batch: seq<PeerEntry>, ats: seq<nat>): Tables
    requires |ats| == |batch|
    decreases |batch|
  {
    if batch == [] then t
    else AppendAllGray(limit, AppendGrayWithin(limit, t, policy, batch[0], ats[0]), policy, batch[1..], ats[1..])
  }

  function Merge(limit: nat, t: Tables, policy: IpPolicy, batch: seq<PeerEntry>, ats: seq<nat>): Tables
    requires |ats| == |batch|
  {
    var t' := AppendAllGray(limit, t, policy, batch, ats);
    t'.(gray := Newest(t'.gray, limit))
  }

  /** Both orders sorted and free of repeated addresses, no address in both, every address allowed, sizes bounded. */
  ghost predicate WellFormed(t: Tables, policy: IpPolicy) {
    && Sorted(t.white) && Distinct(t.white) && |t.white| <= WHITE_LIMIT
    && Sorted(t.gray) && Distinct(t.gray) && |t.gray| <= GRAY_LIMIT
    && Addresses(t.white) !! Addresses(t.gray)
    && (forall a :: a in Addresses(t.white) + Addresses(t.gray) ==> policy.Allows(a.ip))
  }

  lemma AppendWhiteKeeps(t: Tables, policy: IpPolicy, e: PeerEntry, at: nat)
    requires WellFormed(t, policy)
    ensures WellFormed(AppendWhite(t, policy, e, at), policy)
  {
    hide Replace, Remove, Insert, Newest, Sorted, Distinct, Has;
    if policy.Allows(e.adr.ip) {
      RemoveKeeps(t.gray, e.adr);
      HasIsIn(t.white, e.adr);
      if Has(t.white, e.adr) {
        ReplaceKeeps(t.white, e, at);
      } else {
        InsertKeeps(t.white, e);
        NewestKeeps(Insert(t.white, e), WHITE_LIMIT);
      }
    }
  }

  lemma InsertKeeps(order: seq<PeerEntry>, e: PeerEntry)
    requires Sorted(order)
    ensures Sorted(Insert(order, e))
    ensures Distinct(order) && !Has(order, e.adr) ==> Distinct(Insert(order, e))
    ensures multiset(Insert(order, e)) == multiset(order) + multiset{e} && |Insert(order, e)| == |order| + 1
    ensures Addresses(Insert(order, e)) == Addresses(order) + {e.adr}
  {
    InsertAtKeeps(order, UpperBound(order, e.lastSeen), e);
  }

  lemma AppendGrayKeeps(t: Tables, policy: IpPolicy, e: PeerEntry, at: nat)
    requires WellFormed(t, policy)
    ensures WellFormed(AppendGray(t, policy, e, at), policy)
    ensures AppendGray(t, policy, e, at).white == t.white
  {
    hide Replace, Insert, Newest, Sorted, Distinct, Has;
    if policy.Allows(e.adr.ip) && !Has(t.white, e.adr) {
      HasIsIn(t.white, e.adr);
      if Has(t.gray, e.adr) {
        ReplaceKeeps(t.gray, e, at);
      } else {
        InsertKeeps(t.gray, e);
        NewestKeeps(Insert(t.gray, e), GRAY_LIMIT);
      }
    }
  }

  lemma {:induction false} AppendAllGrayKeeps(t: Tables, policy: IpPolicy, batch: seq<PeerEntry>, ats: seq<nat>)
    requires WellFormed(t, policy) && |ats| == |batch|
    ensures WellFormed(AppendAllGray(GRAY_LIMIT, t, policy, batch, ats), policy)
    ensures AppendAllGray(GRAY_LIMIT, t, policy, batch, ats).white == t.white
    decreases |batch|
  {
    hide WellFormed, AppendGrayWithin;
    if batch != [] {
      AppendGrayKeeps(t, policy, batch[0], ats[0]);
      AppendAllGrayKeeps(AppendGray(t, policy, batch[0], ats[0]), policy, batch[1..], ats[1..]);
    }
  }

  // ---------------------------------------------------------------- every run

  datatype Request =
    | White(e: PeerEntry, at: nat)
    | Gray(e: PeerEntry, at: nat)
    | MergeList(batch: seq<PeerEntry>, ats: seq<nat>)
    | JustSeen(peer: Word64, adr: NetAddress, now: Int64, at: nat)

  predicate Wanted(r: Request) {
    r.MergeList? ==> |r.ats| == |r.batch|
  }

  function Serve(t: Tables, policy: IpPolicy, r: Request): Tables
    requires Wanted(r)
  {
    match r
    case White(e, at) => AppendWhite(t, policy, e, at)
    case Gray(e, at) => AppendGray(t, policy, e, at)
    case MergeList(batch, ats) => Merge(GRAY_LIMIT, t, policy, batch, ats)
    case JustSeen(peer, adr, now, at) => AppendWhite(t, policy, PeerEntry(adr, peer, now), at)
  }

  function ServeAll(t: Tables, policy: IpPolicy, rs: seq<Request>): Tables
    requires forall i :: 0 <= i < |rs| ==> Wanted(rs[i])
    decreases |rs|
  {
    if rs == [] then t else ServeAll(Serve(t, policy, rs[0]), policy, rs[1..])
  }

  lemma ServeKeeps(t: Tables, policy: IpPolicy, r: Request)
    requires WellFormed(t, policy) && Wanted(r)
    ensures WellFormed(Serve(t, policy, r), policy)
  {
    match r
    case White(e, at) => AppendWhiteKeeps(t, policy, e, at);
    case Gray(e, at) => AppendGrayKeeps(t, policy, e, at);
    case MergeList(batch, ats) =>
      AppendAllGrayKeeps(t, policy, batch, ats);
      NewestKeeps(AppendAllGray(GRAY_LIMIT, t, policy, batch, ats).gray, GRAY_LIMIT);
    case JustSeen(peer, adr, now, at) => AppendWhiteKeeps(t, policy, PeerEntry(adr, peer, now), at);
  }

  lemma {:induction false} ServeAllKeeps(t: Tables, policy: IpPolicy, rs: seq<Request>)
    requires WellFormed(t, policy)
    requires forall i :: 0 <= i < |rs| ==> Wanted(rs[i])
    ensures WellFormed(ServeAll(t, policy, rs), policy)
    decreases |rs|
  {
    hide WellFormed, Serve;
    if rs != [] {
      ServeKeeps(t, policy, rs[0]);
      ServeAllKeeps(Serve(t, policy, rs[0]), policy, rs[1..]);
    }
  }

  /**
    After any run of requests from empty tables, whatever places the containers choose: at most 1000
    white and 5000 gray entries, no address twice, none in both tables, no loopback address, no local one
    unless these are allowed, both orders sorted.
   */
  lemma EveryRunWellFormed(policy: IpPolicy, rs: seq<Request>)
    requires forall i :: 0 <= i < |rs| ==> Wanted(rs[i])
    ensures var t := ServeAll(Tables([], []), policy, rs);
            && |t.white| <= 1000 && |t.gray| <= 5000
            && Sorted(t.white) && Sorted(t.gray) && Distinct(t.white) && Distinct(t.gray)
            && Addresses(t.white) !! Addresses(t.gray)
            && (forall a :: a in Addresses(t.white) + Addresses(t.gray) ==>
                  a.ip !in policy.loopback && (policy.allowLocal || a.ip !in policy.local))
  {
    ServeAllKeeps(Tables([], []), policy, rs);
  }

  // ---------------------------------------------------------------- merging

  function InsertAll(order: seq<PeerEntry>, es: seq<PeerEntry>): seq<PeerEntry>
    decreases |es|
  {
    if es == [] then order else InsertAll(Insert(order, es[0]), es[1..])
  }

  /** The entries of a batch that may enter the gray table: allowed and not white. */
  function Admissible(batch: seq<PeerEntry>, policy: IpPolicy, white: seq<PeerEntry>): seq<PeerEntry> {
    if batch == [] then []
    else (if policy.Allows(batch[0].adr.ip) && !Has(white, batch[0].adr) then [batch[0]] else [])
         + Admissible(batch[1..], policy, white)
  }

  /** The oldest entry stays first when something no older is inserted. */
  lemma InsertBehindFirst(order: seq<PeerEntry>, e: PeerEntry)
    requires order != []
    ensures Insert(order, e)
         == if order[0].lastSeen > e.lastSeen then [e] + order else [order[0]] + Insert(order[1..], e)
  {
    if order[0].lastSeen <= e.lastSeen {
      var i := UpperBound(order[1..], e.lastSeen);
      assert UpperBound(order, e.lastSeen) == i + 1;
      assert order[..i + 1] == [order[0]] + order[1..][..i];
      assert order[i + 1..] == order[1..][i..];
    }
  }

  /** Dropping the oldest entries before or after an insertion leaves the same newest ones. */
  lemma {:induction false} TrimThenInsert(order: seq<PeerEntry>, e: PeerEntry, limit: nat)
    requires Sorted(order)
    ensures Newest(Insert(Newest(order, limit), e), limit) == Newest(Insert(order, e), limit)
    decreases |order|
  {
    if |order| > limit {
      var first, rest := order[0], order[1..];
      assert order == [first] + rest && Sorted(rest);
      assert rest != [] ==> first.lastSeen <= rest[0].lastSeen;
      InsertBehindFirst(order, e);
      assert |Insert(rest, e)| == |rest| + 1;
      hide Sorted, Insert, Newest;
      TrimThenInsert(rest, e, limit);
      DropFirst(first, rest, limit);
      if first.lastSeen > e.lastSeen {
        FirstOfOlder(rest, e);
        DropFirst(e, order, limit);
        DropFirst(e, rest, limit);
      } else {
        DropFirst(first, Insert(rest, e), limit);
      }
    } else {
      assert Newest(order, limit) == order;
    }
  }

  lemma FirstOfOlder(order: seq<PeerEntry>, e: PeerEntry)
    requires order != [] ==> order[0].lastSeen > e.lastSeen
    ensures Insert(order, e) == [e] + order
  {
  }

  lemma DropFirst(x: PeerEntry, order: seq<PeerEntry>, limit: nat)
    requires |order| >= limit
    ensures Newest([x] + order, limit) == Newest(order, limit)
  {
  }

  lemma {:induction false} TrimThenInsertAll(order: seq<PeerEntry>, es: seq<PeerEntry>, limit: nat)
    requires Sorted(order)
    ensures Newest(InsertAll(Newest(order, limit), es), limit) == Newest(InsertAll(order, es), limit)
    decreases |es|
  {
    hide Sorted, Insert, Newest;
    if es == [] {
      NewestTwice(order, limit);
    } else {
      var kept := Newest(order, limit);
      NewestSorted(order, limit);
      InsertSorted(kept, es[0]);
      InsertSorted(order, es[0]);
      TrimThenInsert(order, es[0], limit);
      TrimThenInsertAll(Insert(kept, es[0]), es[1..], limit);
      TrimThenInsertAll(Insert(order, es[0]), es[1..], limit);
    }
  }

  lemma NewestTwice(order: seq<PeerEntry>, limit: nat)
    ensures Newest(Newest(order, limit), limit) == Newest(order, limit)
  {
  }

  lemma NewestSorted(order: seq<PeerEntry>, limit: nat)
    requires Sorted(order)
    ensures Sorted(Newest(order, limit))
  {
  }

  lemma InsertSorted(order: seq<PeerEntry>, e: PeerEntry)
    requires Sorted(order)
    ensures Sorted(Insert(order, e))
  {
    InsertAtSorted(order, UpperBound(order, e.lastSeen), e);
  }

  /** Nothing in the batch is in the gray table, and no address is in the batch twice. */
  ghost predicate NewToGray(gray: seq<PeerEntry>, batch: seq<PeerEntry>) {
    Distinct(batch) && forall i :: 0 <= i < |batch| ==> !Has(gray, batch[i].adr)
  }

  lemma NewestHasOnly(order: seq<PeerEntry>, limit: nat, a: NetAddress)
    requires Has(Newest(order, limit), a)
    ensures Has(order, a)
  {
    var r := Newest(order, limit);
    var k :| 0 <= k < |r| && r[k].adr == a;
    assert order[k + (|order| - |r|)] == r[k];
  }

  lemma NewToGrayNext(gray: seq<PeerEntry>, batch: seq<PeerEntry>, limit: nat)
    requires batch != [] && NewToGray(gray, batch)
    ensures NewToGray(gray, batch[1..])
    ensures NewToGray(Newest(Insert(gray, batch[0]), limit), batch[1..])
  {
    var e := batch[0];
    var inserted := Insert(gray, e);
    InsertAtAddresses(gray, UpperBound(gray, e.lastSeen), e);
    var r := Newest(inserted, limit);
    forall i | 0 <= i < |batch[1..]| ensures !Has(r, batch[1..][i].adr) {
      var a := batch[i + 1].adr;
      assert a != e.adr && !Has(gray, a);
      HasIsIn(gray, a);
      HasIsIn(inserted, a);
      if Has(r, a) { NewestHasOnly(inserted, limit, a); }
    }
  }

  lemma {:induction false} AppendAllGrayIs(limit: nat, t: Tables, policy: IpPolicy,
                                           batch: seq<PeerEntry>, ats: seq<nat>)
    requires |ats| == |batch| && Sorted(t.gray) && NewToGray(t.gray, batch)
    ensures var t' := AppendAllGray(limit, t, policy, batch, ats);
            && t'.white == t.white
            && Newest(t'.gray, limit) == Newest(InsertAll(t.gray, Admissible(batch, policy, t.white)), limit)
    decreases |batch|
  {
    hide Sorted, Insert, Newest, NewToGray, Has;
    if batch != [] {
      var e, rest := batch[0], Admissible(batch[1..], policy, t.white);
      var t1 := AppendGrayWithin(limit, t, policy, e, ats[0]);
      NewToGrayNext(t.gray, batch, limit);
      if policy.Allows(e.adr.ip) && !Has(t.white, e.adr) {
        FirstIsNew(t.gray, batch);
        assert t1 == t.(gray := Newest(Insert(t.gray, e), limit));
        InsertSorted(t.gray, e);
        NewestSorted(Insert(t.gray, e), limit);
        AppendAllGrayIs(limit, t1, policy, batch[1..], ats[1..]);
        TrimThenInsertAll(Insert(t.gray, e), rest, limit);
        assert Admissible(batch, policy, t.white) == [e] + rest;
      } else {
        AppendAllGrayIs(limit, t1, policy, batch[1..], ats[1..]);
        assert Admissible(batch, policy, t.white) == rest;
      }
    }
  }

  lemma FirstIsNew(gray: seq<PeerEntry>, batch: seq<PeerEntry>)
    requires batch != [] && NewToGray(gray, batch)
    ensures !Has(gray, batch[0].adr)
  {
  }

  lemma {:induction false} InsertAllKeeps(order: seq<PeerEntry>, es: seq<PeerEntry>)
    requires Sorted(order)
    ensures Sorted(InsertAll(order, es)) && multiset(InsertAll(order, es)) == multiset(order) + multiset(es)
    decreases |es|
  {
    hide Sorted, Insert;
    if es != [] {
      InsertKeeps(order, es[0]);
      InsertAllKeeps(Insert(order, es[0]), es[1..]);
      assert es == [es[0]] + es[1..];
    }
  }

  lemma NewestSize(order: seq<PeerEntry>, limit: nat)
    ensures |Newest(order, limit)| == if |order| <= limit then |order| else limit
  {
  }

  /**
    Merging a batch of new, pairwise distinct addresses: trimming after each insertion refines inserting
    all and trimming once. White is unchanged, and gray keeps the newest of all that old gray and the
    admissible entries hold together: what is dropped is no newer than anything that is kept.
   */
  lemma MergeOfNewPeers(limit: nat, t: Tables, policy: IpPolicy, batch: seq<PeerEntry>, ats: seq<nat>)
    requires |ats| == |batch| && Sorted(t.gray) && NewToGray(t.gray, batch)
    ensures var t', all := Merge(limit, t, policy, batch, ats), InsertAll(t.gray, Admissible(batch, policy, t.white));
            && t'.white == t.white
            && t'.gray == Newest(all, limit)
            && multiset(all) == multiset(t.gray) + multiset(Admissible(batch, policy, t.white))
            && var dropped := all[..|all| - |t'.gray|];
               && multiset(t'.gray) + multiset(dropped) == multiset(all)
               && |t'.gray| == (if |all| <= limit then |all| else limit)
               && forall x, y :: x in dropped && y in t'.gray ==> x.lastSeen <= y.lastSeen
  {
    hide InsertAll, Admissible, Sorted, AppendAllGray, NewToGray, Newest;
    AppendAllGrayIs(limit, t, policy, batch, ats);
    NewestSize(InsertAll(t.gray, Admissible(batch, policy, t.white)), limit);
    InsertAllKeeps(t.gray, Admissible(batch, policy, t.white));
    NewestAreLargest(InsertAll(t.gray, Admissible(batch, policy, t.white)), limit);
  }

  // ---------------------------------------------------------------- merging what is partly known

  /** A table without a limit: an address that is there gets its new entry. */
  function Upsert(order: seq<PeerEntry>, e: PeerEntry): seq<PeerEntry> {
    if Has(order, e.adr) then Replace(order, e, 0) else Insert(order, e)
  }

  function UpsertAll(order: seq<PeerEntry>, es: seq<PeerEntry>): seq<PeerEntry>
    decreases |es|
  {
    if es == [] then order else UpsertAll(Upsert(order, es[0]), es[1..])
  }

  lemma SameEntry(order: seq<PeerEntry>, x: PeerEntry)
    requires Distinct(order) && x in order
    ensures Has(order, x.adr) && order[Position(order, x.adr)] == x
  {
    var k :| 0 <= k < |order| && order[k] == x;
  }

  /** What an entry takes the place of, if anything. */
  function Former(order: seq<PeerEntry>, adr: NetAddress): multiset<PeerEntry> {
    if Has(order, adr) then multiset{order[Position(order, adr)]} else multiset{}
  }

  lemma UpsertKeeps(order: seq<PeerEntry>, e: PeerEntry)
    requires Sorted(order) && Distinct(order)
    ensures Sorted(Upsert(order, e)) && Distinct(Upsert(order, e))
    ensures multiset(Upsert(order, e)) + Former(order, e.adr) == multiset(order) + multiset{e}
  {
    hide Sorted, Distinct, Has, Replace, Insert;
    if Has(order, e.adr) { ReplaceKeeps(order, e, 0); } else { InsertKeeps(order, e); }
  }

  lemma RemoveAtEntries(order: seq<PeerEntry>, i: nat, x: PeerEntry)
    requires Distinct(order) && i < |order|
    ensures x in RemoveAt(order, i) <==> x in order && x.adr != order[i].adr
  {
    var r := RemoveAt(order, i);
    forall k | 0 <= k < |r| ensures r[k] == order[if k < i then k else k + 1] {}
    if x in order && x.adr != order[i].adr {
      var k :| 0 <= k < |order| && order[k] == x;
      assert r[if k < i then k else k - 1] == x;
    }
  }

  lemma InsertAtEntries(order: seq<PeerEntry>, i: nat, e: PeerEntry, x: PeerEntry)
    requires i <= |order|
    ensures x in InsertAt(order, i, e) <==> x in order || x == e
  {
    assert order == order[..i] + order[i..];
  }

  lemma UpsertIs(order: seq<PeerEntry>, e: PeerEntry, x: PeerEntry)
    requires Sorted(order) && Distinct(order)
    ensures x in Upsert(order, e) <==> x == e || (x in order && x.adr != e.adr)
  {
    hide Sorted, Distinct, Replace, InsertAt, RemoveAt;
    if Has(order, e.adr) {
      var place := PlaceOf(order, e, 0);
      RemoveAtEntries(order, Position(order, e.adr), x);
      InsertAtEntries(RemoveAt(order, Position(order, e.adr)), place, e, x);
    } else {
      InsertAtEntries(order, UpperBound(order, e.lastSeen), e, x);
    }
  }

  /** `x` is the last entry of its address in the batch. */
  ghost predicate IsLatest(es: seq<PeerEntry>, x: PeerEntry) {
    exists i :: 0 <= i < |es| && es[i] == x && forall j :: i < j < |es| ==> es[j].adr != x.adr
  }

  lemma LatestOfTail(es: seq<PeerEntry>, x: PeerEntry)
    requires es != []
    ensures IsLatest(es, x) <==> IsLatest(es[1..], x) || (x == es[0] && !Has(es[1..], x.adr))
  {
    if IsLatest(es, x) {
      var i :| 0 <= i < |es| && es[i] == x && forall j :: i < j < |es| ==> es[j].adr != x.adr;
      if i > 0 { assert es[1..][i - 1] == x; }
    }
    if IsLatest(es[1..], x) {
      var i :| 0 <= i < |es[1..]| && es[1..][i] == x && forall j :: i < j < |es[1..]| ==> es[1..][j].adr != x.adr;
      assert es[i + 1] == x;
      forall j | i + 1 < j < |es| ensures es[j].adr != x.adr { assert es[j] == es[1..][j - 1]; }
    }
    if x == es[0] && !Has(es[1..], x.adr) {
      forall j | 0 < j < |es| ensures es[j].adr != x.adr { assert es[j] == es[1..][j - 1]; }
    }
  }

  /** The table without a limit holds the last entry of every address: from the batch, or else the old one. */
  lemma {:induction false} UpsertAllIs(order: seq<PeerEntry>, es: seq<PeerEntry>, x: PeerEntry)
    requires Sorted(order) && Distinct(order)
    ensures Sorted(UpsertAll(order, es)) && Distinct(UpsertAll(order, es))
    ensures x in UpsertAll(order, es) <==> IsLatest(es, x) || (x in order && !Has(es, x.adr))
    decreases |es|
  {
    hide Sorted, Distinct, Upsert, IsLatest;
    if es == [] {
      assert !IsLatest(es, x) by { NoneLatest(x); }
    } else {
      UpsertKeeps(order, es[0]);
      UpsertIs(order, es[0], x);
      UpsertAllIs(Upsert(order, es[0]), es[1..], x);
      LatestOfTail(es, x);
      HasOfTail(es, x.adr);
    }
  }

  lemma NoneLatest(x: PeerEntry)
    ensures !IsLatest([], x)
  {
  }

  lemma HasOfTail(es: seq<PeerEntry>, adr: NetAddress)
    requires es != []
    ensures Has(es, adr) <==> es[0].adr == adr || Has(es[1..], adr)
  {
    if Has(es, adr) {
      var i :| 0 <= i < |es| && es[i].adr == adr;
      if i > 0 { assert es[1..][i - 1].adr == adr; }
    }
    if Has(es[1..], adr) {
      var i :| 0 <= i < |es[1..]| && es[1..][i].adr == adr;
      assert es[i + 1].adr == adr;
    }
  }

  /** No address is seen earlier than before: not within the batch, and not against its entry in the table. */
  ghost predicate TimesGoOn(order: seq<PeerEntry>, es: seq<PeerEntry>) {
    && (forall i, j :: 0 <= i < j < |es| && es[i].adr == es[j].adr ==> es[i].lastSeen <= es[j].lastSeen)
    && (forall x, j :: x in order && 0 <= j < |es| && x.adr == es[j].adr ==> x.lastSeen <= es[j].lastSeen)
  }

  lemma TimesGoOnNext(order: seq<PeerEntry>, es: seq<PeerEntry>)
    requires Sorted(order) && Distinct(order) && es != [] && TimesGoOn(order, es)
    ensures TimesGoOn(Upsert(order, es[0]), es[1..])
  {
    hide Sorted, Distinct, Upsert;
    forall x, j | x in Upsert(order, es[0]) && 0 <= j < |es[1..]| && x.adr == es[1..][j].adr
      ensures x.lastSeen <= es[1..][j].lastSeen
    {
      UpsertIs(order, es[0], x);
      assert es[1..][j] == es[j + 1];
    }
  }

  /** What the trimmed table is missing. */
  function Missing(kept: seq<PeerEntry>, all: seq<PeerEntry>): multiset<PeerEntry> {
    multiset(all) - multiset(kept)
  }

  ghost predicate NoNewer(missing: multiset<PeerEntry>, kept: seq<PeerEntry>) {
    forall x, y :: x in missing && y in kept ==> x.lastSeen <= y.lastSeen
  }

  /**
    The trimmed table holds `limit` of all entries, or all of them, and nothing it is missing is newer
    than one it holds.
   */
  ghost predicate HoldsNewest(kept: seq<PeerEntry>, all: seq<PeerEntry>, limit: nat) {
    && multiset(kept) <= multiset(all)
    && (|kept| >= limit || multiset(kept) == multiset(all))
    && NoNewer(Missing(kept, all), kept)
  }

  /** The gray order after `append_with_peer_gray` of an entry that may enter. */
  function GrayStep(limit: nat, kept: seq<PeerEntry>, e: PeerEntry, at: nat): seq<PeerEntry> {
    if Has(kept, e.adr) then Replace(kept, e, at) else Newest(Insert(kept, e), limit)
  }

  lemma GrayStepKeeps(limit: nat, kept: seq<PeerEntry>, e: PeerEntry, at: nat)
    requires Sorted(kept) && Distinct(kept)
    ensures Sorted(GrayStep(limit, kept, e, at)) && Distinct(GrayStep(limit, kept, e, at))
  {
    hide Sorted, Distinct, Has, Replace, Insert, Newest;
    if Has(kept, e.adr) {
      ReplaceKeeps(kept, e, at);
    } else {
      InsertKeeps(kept, e);
      NewestKeeps(Insert(kept, e), limit);
    }
  }

  lemma SameFormer(kept: seq<PeerEntry>, all: seq<PeerEntry>, adr: NetAddress)
    requires Distinct(kept) && Distinct(all) && multiset(kept) <= multiset(all) && Has(kept, adr)
    ensures Has(all, adr) && Former(all, adr) == Former(kept, adr)
  {
    var x := kept[Position(kept, adr)];
    assert x in multiset(kept);
    assert x in multiset(all);
    SameEntry(all, x);
  }

  lemma NoNewerIff(missing: multiset<PeerEntry>, kept: seq<PeerEntry>, e: PeerEntry, kept': seq<PeerEntry>)
    requires NoNewer(missing, kept) && e in kept' && forall y :: y in kept' ==> y == e || y in kept
    ensures NoNewer(missing, kept') <==> forall x :: x in missing ==> x.lastSeen <= e.lastSeen
  {
  }

  lemma ReplacedEntries(kept: seq<PeerEntry>, e: PeerEntry, at: nat)
    requires Sorted(kept) && Distinct(kept) && Has(kept, e.adr)
    ensures e in Replace(kept, e, at) && forall y :: y in Replace(kept, e, at) ==> y == e || y in kept
    ensures multiset(Replace(kept, e, at)) + Former(kept, e.adr) == multiset(kept) + multiset{e}
    ensures |Replace(kept, e, at)| == |kept|
  {
    hide Sorted, Distinct, Replace, Has;
    ReplacedIsIn(kept, e, at);
    ReplaceKeeps(kept, e, at);
    forall y | y in Replace(kept, e, at) ensures y == e || y in kept {
      assert y in multiset(Replace(kept, e, at)) + Former(kept, e.adr);
      assert y in multiset(kept) + multiset{e};
    }
  }

  /** Replacing keeps the newest exactly if the new time is not below anything that is missing. */
  lemma ReplaceStep(limit: nat, kept: seq<PeerEntry>, all: seq<PeerEntry>, e: PeerEntry, at: nat)
    requires Sorted(kept) && Distinct(kept) && Sorted(all) && Distinct(all)
    requires HoldsNewest(kept, all, limit) && Has(kept, e.adr)
    ensures HoldsNewest(Replace(kept, e, at), Upsert(all, e), limit)
       <==> forall x :: x in Missing(kept, all) ==> x.lastSeen <= e.lastSeen
  {
    hide Sorted, Distinct, Replace, Upsert, Has, NoNewer, Former;
    var kept', all' := Replace(kept, e, at), Upsert(all, e);
    SameFormer(kept, all, e.adr);
    ReplacedEntries(kept, e, at);
    UpsertKeeps(all, e);
    SameExchange(multiset(kept), multiset(all), multiset(kept'), multiset(all'), Former(kept, e.adr), multiset{e});
    NoNewerIff(Missing(kept, all), kept, e, kept');
  }

  lemma SameExchange(k: multiset<PeerEntry>, a: multiset<PeerEntry>, k': multiset<PeerEntry>, a': multiset<PeerEntry>,
                     f: multiset<PeerEntry>, e: multiset<PeerEntry>)
    requires k <= a && k' + f == k + e && a' + f == a + e
    ensures k' <= a' && a' - k' == a - k && (k == a <==> k' == a')
  {
    forall x: PeerEntry ensures k'[x] <= a'[x] && a'[x] - k'[x] == a[x] - k[x] {
      assert (k' + f)[x] == (k + e)[x] && (a' + f)[x] == (a + e)[x];
    }
  }

  lemma FormerIsMissing(kept: seq<PeerEntry>, all: seq<PeerEntry>, adr: NetAddress)
    requires multiset(kept) <= multiset(all) && !Has(kept, adr)
    ensures Former(all, adr) <= Missing(kept, all)
  {
    if Has(all, adr) {
      var x := all[Position(all, adr)];
      assert x in multiset(all);
      assert x !in kept;
    }
  }

  lemma InsertExchange(k: multiset<PeerEntry>, a: multiset<PeerEntry>, k': multiset<PeerEntry>, a': multiset<PeerEntry>,
                       f: multiset<PeerEntry>, e: multiset<PeerEntry>, lost: multiset<PeerEntry>)
    requires k <= a && f <= a - k && k' + lost == k + e && a' + f == a + e
    ensures k' <= a' && a' - k' == a - k - f + lost
    ensures k == a && lost == multiset{} ==> k' == a'
  {
    forall x: PeerEntry ensures k'[x] <= a'[x] && a'[x] - k'[x] == a[x] - k[x] - f[x] + lost[x] {
      assert (k' + lost)[x] == (k + e)[x] && (a' + f)[x] == (a + e)[x];
    }
  }

  /** Inserting a new address puts out the oldest entries, which are not older than what is missing already. */
  lemma InsertNoNewer(limit: nat, kept: seq<PeerEntry>, e: PeerEntry, missing: multiset<PeerEntry>)
    requires Sorted(kept) && Distinct(kept) && !Has(kept, e.adr)
    requires NoNewer(missing, kept) && (missing == multiset{} || |kept| >= limit)
    ensures NoNewer(missing, Newest(Insert(kept, e), limit))
  {
    var order := Insert(kept, e);
    InsertKeeps(kept, e);
    NewestSize(order, limit);
    hide Insert, Has;
    forall x, y | x in missing && y in Newest(order, limit) ensures x.lastSeen <= y.lastSeen {
      KeptInTrim(order, limit, y);
      OldestIsKept(kept, e, order[0]);
      InsertKeepsEntries(kept, e, y);
    }
  }

  /** An entry that survives a trim is not the first one, if anything is dropped, and not older than it. */
  lemma KeptInTrim(order: seq<PeerEntry>, limit: nat, y: PeerEntry)
    requires Sorted(order) && Distinct(order) && y in Newest(order, limit)
    ensures y in order && order[0].lastSeen <= y.lastSeen
    ensures |order| > limit ==> y != order[0]
  {
    var n := |order| - |Newest(order, limit)|;
    assert Newest(order, limit) == order[n..];
    var j :| 0 <= j < |order| - n && order[n..][j] == y;
    assert order[n + j] == y;
  }

  lemma OldestIsKept(kept: seq<PeerEntry>, e: PeerEntry, x: PeerEntry)
    requires Distinct(Insert(kept, e)) && x == Insert(kept, e)[0] && |kept| > 0
    ensures x == e || x in kept
  {
    InsertKeepsEntries(kept, e, x);
  }

  /** After the insertion, what was lost joins what is missing, and the former entry leaves it. */
  lemma NoNewerAfterInsert(missing: multiset<PeerEntry>, f: multiset<PeerEntry>, lost: seq<PeerEntry>,
                           kept: seq<PeerEntry>)
    requires NoNewer(missing, kept) && forall x, y :: x in lost && y in kept ==> x.lastSeen <= y.lastSeen
    ensures NoNewer(missing - f + multiset(lost), kept)
  {
  }

  lemma InsertStep(limit: nat, kept: seq<PeerEntry>, all: seq<PeerEntry>, e: PeerEntry)
    requires Sorted(kept) && Distinct(kept) && Sorted(all) && Distinct(all)
    requires HoldsNewest(kept, all, limit) && !Has(kept, e.adr)
    ensures HoldsNewest(Newest(Insert(kept, e), limit), Upsert(all, e), limit)
  {
    hide Sorted, Distinct, Insert, Upsert, Has, Newest, Former, NoNewer;
    var order, all', f := Insert(kept, e), Upsert(all, e), Former(all, e.adr);
    var kept', missing := Newest(order, limit), Missing(kept, all);
    InsertKeeps(kept, e);
    UpsertKeeps(all, e);
    NewestSize(order, limit);
    NewestAreLargest(order, limit);
    FormerIsMissing(kept, all, e.adr);
    var lost := order[..|order| - |kept'|];
    InsertNoNewer(limit, kept, e, missing);
    InsertExchange(multiset(kept), multiset(all), multiset(kept'), multiset(all'), f, multiset{e}, multiset(lost));
    NoNewerAfterInsert(missing, f, lost, kept');
    if |kept'| < limit { assert lost == []; }
  }

  /** A gray peer is put back behind something that the table is missing. */
  ghost predicate GoesBehind(kept: seq<PeerEntry>, all: seq<PeerEntry>, e: PeerEntry) {
    Has(kept, e.adr) && exists x :: x in Missing(kept, all) && x.lastSeen > e.lastSeen
  }

  /**
    One more gray peer: the table keeps holding the newest if and only if the peer is not one of its own
    that goes back behind something the table is missing.
   */
  lemma GrayStepIff(limit: nat, kept: seq<PeerEntry>, all: seq<PeerEntry>, e: PeerEntry, at: nat)
    requires Sorted(kept) && Distinct(kept) && Sorted(all) && Distinct(all) && HoldsNewest(kept, all, limit)
    ensures HoldsNewest(GrayStep(limit, kept, e, at), Upsert(all, e), limit)
       <==> !GoesBehind(kept, all, e)
  {
    hide Sorted, Distinct, HoldsNewest, Upsert;
    if Has(kept, e.adr) {
      ReplaceStep(limit, kept, all, e, at);
    } else {
      InsertStep(limit, kept, all, e);
    }
  }

  /** A time that does not go back is above everything that is missing. */
  lemma GoingOnIsSafe(limit: nat, kept: seq<PeerEntry>, all: seq<PeerEntry>, e: PeerEntry)
    requires Distinct(kept) && Distinct(all) && HoldsNewest(kept, all, limit)
    requires forall x :: x in all && x.adr == e.adr ==> x.lastSeen <= e.lastSeen
    ensures !GoesBehind(kept, all, e)
  {
    if Has(kept, e.adr) {
      var y := kept[Position(kept, e.adr)];
      assert y in multiset(kept);
      assert y in multiset(all);
    }
  }

  lemma FirstGoesOn(order: seq<PeerEntry>, es: seq<PeerEntry>)
    requires es != [] && TimesGoOn(order, es)
    ensures forall x :: x in order && x.adr == es[0].adr ==> x.lastSeen <= es[0].lastSeen
  {
  }

  lemma {:induction false} AppendAllGrayHolds(limit: nat, t: Tables, all: seq<PeerEntry>, policy: IpPolicy,
                                              batch: seq<PeerEntry>, ats: seq<nat>)
    requires |ats| == |batch|
    requires Sorted(t.gray) && Distinct(t.gray) && Sorted(all) && Distinct(all)
    requires HoldsNewest(t.gray, all, limit) && TimesGoOn(all, Admissible(batch, policy, t.white))
    ensures var t' := AppendAllGray(limit, t, policy, batch, ats);
            && t'.white == t.white && Sorted(t'.gray) && Distinct(t'.gray)
            && HoldsNewest(t'.gray, UpsertAll(all, Admissible(batch, policy, t.white)), limit)
    decreases |batch|
  {
    hide Sorted, Distinct, HoldsNewest, TimesGoOn, Upsert, Has, GrayStep, GoesBehind;
    if batch != [] {
      var e, rest := batch[0], Admissible(batch[1..], policy, t.white);
      var t1 := AppendGrayWithin(limit, t, policy, e, ats[0]);
      if policy.Allows(e.adr.ip) && !Has(t.white, e.adr) {
        var es := [e] + rest;
        assert es[1..] == rest && Admissible(batch, policy, t.white) == es;
        GrayStepIs(limit, t, policy, e, ats[0]);
        GrayStepKeeps(limit, t.gray, e, ats[0]);
        GrayStepIff(limit, t.gray, all, e, ats[0]);
        FirstGoesOn(all, es);
        GoingOnIsSafe(limit, t.gray, all, e);
        UpsertKeeps(all, e);
        TimesGoOnNext(all, es);
        AppendAllGrayHolds(limit, t1, Upsert(all, e), policy, batch[1..], ats[1..]);
      } else {
        assert Admissible(batch, policy, t.white) == rest;
        AppendAllGrayHolds(limit, t1, all, policy, batch[1..], ats[1..]);
      }
    }
  }

  /** The gray table holds the newest before the batch and after each of its entries. */
  ghost predicate NewestThroughout(limit: nat, kept: seq<PeerEntry>, all: seq<PeerEntry>, es: seq<PeerEntry>,
                                   ats: seq<nat>)
    requires |ats| == |es|
    decreases |es|
  {
    && HoldsNewest(kept, all, limit)
    && (es == [] ||
        NewestThroughout(limit, GrayStep(limit, kept, es[0], ats[0]), Upsert(all, es[0]), es[1..], ats[1..]))
  }

  ghost predicate NeverBehind(limit: nat, kept: seq<PeerEntry>, all: seq<PeerEntry>, es: seq<PeerEntry>,
                              ats: seq<nat>)
    requires |ats| == |es|
    decreases |es|
  {
    es == [] ||
    (!GoesBehind(kept, all, es[0]) &&
     NeverBehind(limit, GrayStep(limit, kept, es[0], ats[0]), Upsert(all, es[0]), es[1..], ats[1..]))
  }

  /** For every list of admissible peers: the table holds the newest all along exactly if none of them goes behind. */
  lemma {:induction false} NewestThroughoutIff(limit: nat, kept: seq<PeerEntry>, all: seq<PeerEntry>,
                                               es: seq<PeerEntry>, ats: seq<nat>)
    requires |ats| == |es| && Sorted(kept) && Distinct(kept) && Sorted(all) && Distinct(all)
    requires HoldsNewest(kept, all, limit)
    ensures NewestThroughout(limit, kept, all, es, ats) <==> NeverBehind(limit, kept, all, es, ats)
    decreases |es|
  {
    hide Sorted, Distinct, HoldsNewest, Upsert, GrayStep, GoesBehind;
    if es != [] {
      GrayStepIff(limit, kept, all, es[0], ats[0]);
      GrayStepKeeps(limit, kept, es[0], ats[0]);
      UpsertKeeps(all, es[0]);
      var next := GrayStep(limit, kept, es[0], ats[0]);
      if HoldsNewest(next, Upsert(all, es[0]), limit) {
        NewestThroughoutIff(limit, next, Upsert(all, es[0]), es[1..], ats[1..]);
      }
    }
  }

  lemma GrayStepIs(limit: nat, t: Tables, policy: IpPolicy, e: PeerEntry, at: nat)
    requires policy.Allows(e.adr.ip) && !Has(t.white, e.adr)
    ensures AppendGrayWithin(limit, t, policy, e, at) == t.(gray := GrayStep(limit, t.gray, e, at))
  {
  }

  /** The times of all entries, each as often as it occurs. */
  function Times(order: seq<PeerEntry>): multiset<int> {
    if order == [] then multiset{} else multiset{order[0].lastSeen as int} + Times(order[1..])
  }

  lemma BagSizes(kept: seq<PeerEntry>, all: seq<PeerEntry>)
    requires multiset(kept) <= multiset(all)
    ensures |kept| <= |all| && (multiset(kept) == multiset(all) ==> |kept| == |all|)
  {
    BagGrows(multiset(kept), multiset(all));
    assert |multiset(kept)| == |kept| && |multiset(all)| == |all|;
  }

  lemma TrimSize(kept: seq<PeerEntry>, all: seq<PeerEntry>, limit: nat)
    requires multiset(kept) <= multiset(all) && (|kept| >= limit || multiset(kept) == multiset(all))
    ensures var r := Newest(kept, limit);
            && |r| == (if |all| <= limit then |all| else limit)
            && (|r| >= limit || (r == kept && multiset(r) == multiset(all)))
  {
    BagSizes(kept, all);
    NewestSize(kept, limit);
  }

  /** Trimming a table that holds the newest leaves one that does. */
  lemma TrimHolds(kept: seq<PeerEntry>, all: seq<PeerEntry>, limit: nat)
    requires Sorted(kept) && HoldsNewest(kept, all, limit)
    ensures HoldsNewest(Newest(kept, limit), all, limit)
    ensures |Newest(kept, limit)| == if |all| <= limit then |all| else limit
  {
    hide Sorted, Newest, NoNewer;
    var r := Newest(kept, limit);
    TrimSize(kept, all, limit);
    NewestSize(kept, limit);
    NewestAreLargest(kept, limit);
    var lost := kept[..|kept| - |r|];
    LessIsMissing(multiset(kept), multiset(all), multiset(r), multiset(lost));
    NoNewerAfterTrim(Missing(kept, all), kept, r, lost);
  }

  lemma NoNewerAfterTrim(missing: multiset<PeerEntry>, kept: seq<PeerEntry>, r: seq<PeerEntry>, lost: seq<PeerEntry>)
    requires NoNewer(missing, kept) && multiset(r) + multiset(lost) == multiset(kept)
    requires forall x, y :: x in lost && y in r ==> x.lastSeen <= y.lastSeen
    ensures NoNewer(missing + multiset(lost), r)
  {
    forall y | y in r ensures y in kept { assert y in multiset(kept); }
  }

  lemma BagGrows(k: multiset<PeerEntry>, a: multiset<PeerEntry>)
    requires k <= a
    ensures |k| <= |a|
  {
    assert a == k + (a - k);
  }

  lemma LessIsMissing(k: multiset<PeerEntry>, a: multiset<PeerEntry>, r: multiset<PeerEntry>, lost: multiset<PeerEntry>)
    requires k <= a && r + lost == k
    ensures r <= a && a - r == a - k + lost
  {
  }

  /** However a bag is cut in two with nothing higher below the cut, the upper parts of one size are the same. */
  lemma SameUpperPart(a: multiset<int>, b: multiset<int>, c: multiset<int>, d: multiset<int>)
    requires a + b == c + d && |b| == |d|
    requires forall x, y :: x in a && y in b ==> x <= y
    requires forall x, y :: x in c && y in d ==> x <= y
    ensures b == d
  {
    if b != d {
      var v := MoreOf(b, d);
      var w := MoreOf(d, b);
      NotBothMore(a, b, c, d, v, w);
    }
  }

  lemma NotBothMore(a: multiset<int>, b: multiset<int>, c: multiset<int>, d: multiset<int>, v: int, w: int)
    requires a + b == c + d && b[v] > d[v]
    requires forall x, y :: x in a && y in b ==> x <= y
    requires forall x, y :: x in c && y in d ==> x <= y
    ensures d[w] <= b[w]
  {
    assert (a + b)[v] == (c + d)[v] && (a + b)[w] == (c + d)[w];
    assert v in c && v in b;
  }

  lemma MoreOf<T>(b: multiset<T>, d: multiset<T>) returns (v: T)
    requires |b| == |d| && b != d
    ensures b[v] > d[v]
  {
    if b - d == multiset{} {
      SameSize(b, d);
    }
    v :| v in b - d;
  }

  lemma SameSize<T>(b: multiset<T>, d: multiset<T>)
    requires b - d == multiset{} && |b| == |d|
    ensures b == d
  {
    forall x | x in b ensures b[x] <= d[x] { assert (b - d)[x] == 0; }
    assert d == b + (d - b);
  }

  lemma {:induction false} TimesHas(order: seq<PeerEntry>, v: int)
    ensures v in Times(order) <==> exists x :: x in order && x.lastSeen == v
    decreases |order|
  {
    if order != [] {
      TimesHas(order[1..], v);
      assert order == [order[0]] + order[1..];
    }
  }

  lemma {:induction false} TimesConcat(a: seq<PeerEntry>, b: seq<PeerEntry>)
    ensures Times(a + b) == Times(a) + Times(b)
    decreases |a|
  {
    if a == [] {
      assert a + b == b;
    } else {
      assert (a + b)[1..] == a[1..] + b;
      TimesConcat(a[1..], b);
    }
  }

  lemma {:induction false} TakeOutTime(b: seq<PeerEntry>, i: nat)
    requires i < |b|
    ensures Times(b) == Times(RemoveAt(b, i)) + multiset{b[i].lastSeen as int}
    decreases i
  {
    var r := RemoveAt(b, i);
    if i == 0 {
      assert r == b[1..];
    } else {
      TakeOutTime(b[1..], i - 1);
      assert r[0] == b[0] && r[1..] == RemoveAt(b[1..], i - 1);
    }
  }

  /** The same entries have the same times. */
  lemma {:induction false} TimesPermuted(a: seq<PeerEntry>, b: seq<PeerEntry>)
    requires multiset(a) == multiset(b)
    ensures Times(a) == Times(b)
    decreases |a|
  {
    if a == [] {
      assert |b| == |multiset(b)| == 0;
    } else {
      assert a[0] in multiset(b);
      var i :| 0 <= i < |b| && b[i] == a[0];
      InsertRemoved(a, 0);
      InsertRemoved(b, i);
      InsertAtMultiset(RemoveAt(a, 0), 0, a[0]);
      InsertAtMultiset(RemoveAt(b, i), i, b[i]);
      TakeOutTime(a, 0);
      TakeOutTime(b, i);
      hide RemoveAt, InsertAt, Times;
      SameLess(multiset(RemoveAt(a, 0)), multiset(RemoveAt(b, i)), a[0]);
      assert |RemoveAt(a, 0)| < |a| by { assert |multiset(a)| == |multiset(RemoveAt(a, 0))| + 1; }
      TimesPermuted(RemoveAt(a, 0), RemoveAt(b, i));
    }
  }

  lemma SameLess(m: multiset<PeerEntry>, n: multiset<PeerEntry>, x: PeerEntry)
    requires m + multiset{x} == n + multiset{x}
    ensures m == n
  {
    forall y: PeerEntry ensures m[y] == n[y] {
      assert (m + multiset{x})[y] == (n + multiset{x})[y];
    }
  }

  lemma TimesSplit(kept: seq<PeerEntry>, missing: seq<PeerEntry>, all: seq<PeerEntry>)
    requires multiset(kept) + multiset(missing) == multiset(all)
    requires forall x, y :: x in missing && y in kept ==> x.lastSeen <= y.lastSeen
    ensures Times(missing) + Times(kept) == Times(all)
    ensures forall v, w :: v in Times(missing) && w in Times(kept) ==> v <= w
  {
    hide Times;
    assert multiset(missing + kept) == multiset(missing) + multiset(kept);
    TimesPermuted(missing + kept, all);
    TimesConcat(missing, kept);
    forall v, w | v in Times(missing) && w in Times(kept) ensures v <= w {
      TimesHas(missing, v);
      TimesHas(kept, w);
    }
  }

  lemma {:induction false} TimesSize(order: seq<PeerEntry>)
    ensures |Times(order)| == |order|
    decreases |order|
  {
    if order != [] { TimesSize(order[1..]); }
  }

  lemma {:induction false} Listing(m: multiset<PeerEntry>) returns (s: seq<PeerEntry>)
    ensures multiset(s) == m
    decreases |m|
  {
    if m == multiset{} {
      s := [];
    } else {
      var x :| x in m;
      s := Listing(m - multiset{x});
      s := s + [x];
    }
  }

  /** A table that holds the newest holds the same times as the newest part of all entries. */
  lemma NewestTimes(kept: seq<PeerEntry>, all: seq<PeerEntry>, limit: nat)
    requires Sorted(all) && HoldsNewest(kept, all, limit)
    requires |kept| == if |all| <= limit then |all| else limit
    ensures Times(kept) == Times(Newest(all, limit))
  {
    var newest := Newest(all, limit);
    var missing := Listing(Missing(kept, all));
    var older := all[..|all| - |newest|];
    NewestSize(all, limit);
    NewestAreLargest(all, limit);
    hide Sorted, Newest, Times;
    PutTogether(multiset(kept), multiset(all));
    forall x, y | x in missing && y in kept ensures x.lastSeen <= y.lastSeen {
      assert x in multiset(missing);
    }
    TimesSplit(kept, missing, all);
    TimesSplit(newest, older, all);
    TimesSize(kept);
    TimesSize(newest);
    SameUpperPart(Times(missing), Times(kept), Times(older), Times(newest));
  }

  lemma PutTogether(k: multiset<PeerEntry>, a: multiset<PeerEntry>)
    requires k <= a
    ensures k + (a - k) == a
  {
  }

  lemma HoldsItself(order: seq<PeerEntry>, limit: nat)
    ensures HoldsNewest(order, order, limit)
  {
  }

  /**
    Merging any list in which no address is seen earlier than before, whether its addresses are new, gray
    already, white or repeated: white is unchanged, and gray is the newest part, up to the limit, of the
    table that has the last entry of every address. Nothing it lacks is newer than anything it has, and
    its times are those of inserting or replacing everything first and trimming once.
   */
  lemma MergeKeepsNewest(limit: nat, t: Tables, policy: IpPolicy, batch: seq<PeerEntry>, ats: seq<nat>)
    requires |ats| == |batch| && Sorted(t.gray) && Distinct(t.gray)
    requires TimesGoOn(t.gray, Admissible(batch, policy, t.white))
    ensures var t', all := Merge(limit, t, policy, batch, ats), UpsertAll(t.gray, Admissible(batch, policy, t.white));
            && t'.white == t.white
            && |t'.gray| == (if |all| <= limit then |all| else limit)
            && multiset(t'.gray) <= multiset(all)
            && (forall x, y :: x in multiset(all) - multiset(t'.gray) && y in t'.gray ==> x.lastSeen <= y.lastSeen)
            && Times(t'.gray) == Times(Newest(all, limit))
  {
    var es := Admissible(batch, policy, t.white);
    var grown, all := AppendAllGray(limit, t, policy, batch, ats).gray, UpsertAll(t.gray, es);
    HoldsItself(t.gray, limit);
    AppendAllGrayHolds(limit, t, t.gray, policy, batch, ats);
    TrimHolds(grown, all, limit);
    UpsertAllIs(t.gray, es, PeerEntry(NetAddress(0, 0), 0, 0));
    NewestTimes(Newest(grown, limit), all, limit);
    hide Sorted, Distinct, Newest, Times, UpsertAll, TimesGoOn, IsLatest, Has;
  }

  /** A new peer older than all of a full table leaves it as it is; without the limit it would be its first entry. */
  lemma NewOldest(limit: nat, t: Tables, policy: IpPolicy, b: PeerEntry, at: nat)
    requires |t.gray| == limit > 0 && !Has(t.gray, b.adr) && b.lastSeen < t.gray[0].lastSeen
    ensures AppendGrayWithin(limit, t, policy, b, at) == t
    ensures Upsert(t.gray, b) == [b] + t.gray
  {
    FirstOfOlder(t.gray, b);
    DropFirst(b, t.gray, limit);
  }

  lemma OlderThanAll(order: seq<PeerEntry>, b: PeerEntry)
    requires Sorted(order) && Distinct(order) && order != [] && !Has(order, b.adr) && b.lastSeen < order[0].lastSeen
    ensures Sorted([b] + order) && Distinct([b] + order)
    ensures forall x :: x in [b] + order ==> x.lastSeen >= b.lastSeen
  {
    FirstOfOlder(order, b);
    InsertKeeps(order, b);
    forall x | x in [b] + order ensures x.lastSeen >= b.lastSeen {
      var k :| 0 <= k < |[b] + order| && ([b] + order)[k] == x;
      assert ([b] + order)[0] == b;
    }
  }

  lemma TailEntries(all: seq<PeerEntry>, x: PeerEntry)
    requires Distinct(all) && all != []
    ensures x in all[1..] <==> x in all && x != all[0]
  {
    if x in all && x != all[0] {
      var k :| 0 <= k < |all| && all[k] == x;
      assert all[1..][k - 1] == x;
    }
  }

  lemma UpsertSize(order: seq<PeerEntry>, e: PeerEntry)
    requires Sorted(order) && Distinct(order) && Has(order, e.adr)
    ensures |Upsert(order, e)| == |order| > 0
  {
    hide Sorted, Distinct, Replace;
    ReplaceKeeps(order, e, 0);
  }

  /** Put back behind all others, the entry is the one that a trim drops, and the only one as old as it is. */
  lemma BackBehindAll(more: seq<PeerEntry>, e: PeerEntry, x: PeerEntry)
    requires Sorted(more) && Distinct(more) && Has(more, e.adr) && forall y :: y in more ==> y.lastSeen > e.lastSeen
    ensures |Upsert(more, e)| == |more| > 0
    ensures x in Upsert(more, e)[1..] <==> x in more && x.adr != e.adr
  {
    hide Sorted, Distinct, Upsert, Has;
    var all := Upsert(more, e);
    UpsertKeeps(more, e);
    UpsertSize(more, e);
    UpsertIs(more, e, e);
    UpsertIs(more, e, x);
    UpsertIs(more, e, all[0]);
    OldestIs(all, e);
    TailEntries(all, x);
  }

  lemma OldestIs(all: seq<PeerEntry>, e: PeerEntry)
    requires Sorted(all) && e in all && (all[0] == e || all[0].lastSeen > e.lastSeen)
    ensures all[0] == e
  {
    var k :| 0 <= k < |all| && all[k] == e;
    assert k > 0 ==> all[0].lastSeen <= all[k].lastSeen;
  }

  lemma BackBehind(order: seq<PeerEntry>, b: PeerEntry, e: PeerEntry)
    requires Sorted(order) && Distinct(order) && order != [] && !Has(order, b.adr) && Has(order, e.adr)
    requires b.lastSeen < order[0].lastSeen && e.lastSeen < b.lastSeen
    ensures var newest := Newest(Upsert([b] + order, e), |order|);
            b in newest && forall x :: x in newest ==> x.lastSeen > e.lastSeen
  {
    var more := [b] + order;
    OlderThanAll(order, b);
    assert more[1..] == order && Has(more, e.adr) by { HasOfTail(more, e.adr); }
    hide Sorted, Distinct, Has, Upsert;
    BackBehindAll(more, e, b);
    forall x | x in Newest(Upsert(more, e), |order|) ensures x.lastSeen > e.lastSeen {
      BackBehindAll(more, e, x);
    }
  }

  lemma TwoSteps(t: Tables, policy: IpPolicy, b: PeerEntry, e: PeerEntry, ats: seq<nat>, t': Tables)
    requires |ats| == 2 && policy.Allows(b.adr.ip) && policy.Allows(e.adr.ip)
    requires !Has(t.white, b.adr) && !Has(t.white, e.adr)
    requires AppendGrayWithin(GRAY_LIMIT, t, policy, b, ats[0]) == t
    requires AppendGrayWithin(GRAY_LIMIT, t, policy, e, ats[1]) == t' && |t'.gray| <= GRAY_LIMIT
    ensures Merge(GRAY_LIMIT, t, policy, [b, e], ats) == t'
    ensures UpsertAll(t.gray, Admissible([b, e], policy, t.white)) == Upsert(Upsert(t.gray, b), e)
  {
    hide AppendGrayWithin, Upsert, Has;
    assert [b, e][1..] == [e];
    assert Admissible([e], policy, t.white) == [e];
    assert Admissible([b, e], policy, t.white) == [b] + [e];
    assert AppendAllGray(GRAY_LIMIT, t, policy, [e], ats[1..]) == t';
    assert UpsertAll(Upsert(t.gray, b), [e]) == Upsert(Upsert(t.gray, b), e);
    assert ([b] + [e])[1..] == [e];
  }

  /**
    A time that goes back breaks this. Take any well-formed tables with a full gray table, a new peer `b`
    older than all of it, and an entry `e` that puts a gray address back behind `b`: the merge keeps `e`
    and has lost `b`, so its times are not those of the newest.
   */
  lemma GoingBackLosesNewer(t: Tables, policy: IpPolicy, b: PeerEntry, e: PeerEntry, ats: seq<nat>)
    requires WellFormed(t, policy) && |t.gray| == 5000 && |ats| == 2
    requires policy.Allows(b.adr.ip) && !Has(t.white, b.adr) && !Has(t.gray, b.adr)
    requires b.lastSeen < t.gray[0].lastSeen && Has(t.gray, e.adr) && e.lastSeen < b.lastSeen
    ensures var merged := Merge(GRAY_LIMIT, t, policy, [b, e], ats).gray;
            var all := UpsertAll(t.gray, Admissible([b, e], policy, t.white));
            && e in merged && b !in merged
            && b in Newest(all, GRAY_LIMIT) && e !in Newest(all, GRAY_LIMIT)
            && Times(merged) != Times(Newest(all, GRAY_LIMIT))
  {
    var order, at, batch := t.gray, ats[1], [b, e];
    NewOldest(GRAY_LIMIT, t, policy, b, ats[0]);
    HasIsIn(t.white, e.adr);
    HasIsIn(order, e.adr);
    GrayStepIs(GRAY_LIMIT, t, policy, e, at);
    ReplacedEntries(order, e, at);
    BackBehind(order, b, e);
    assert policy.Allows(e.adr.ip) && !Has(t.white, e.adr) && b !in order;
    hide WellFormed, Sorted, Distinct, Has, Newest, Times, Upsert, Replace;
    TwoSteps(t, policy, b, e, ats, t.(gray := Replace(order, e, at)));
    var merged, all := Replace(order, e, at), Upsert([b] + order, e);
    TimesHas(merged, e.lastSeen);
    TimesHas(Newest(all, GRAY_LIMIT), e.lastSeen);
  }

  /** Such tables exist: 5000 allowed peers, all seen at the same time. */
  lemma FullGrayTable() returns (t: Tables, policy: IpPolicy, b: PeerEntry, e: PeerEntry)
    ensures WellFormed(t, policy) && |t.gray| == 5000
    ensures policy.Allows(b.adr.ip) && !Has(t.white, b.adr) && !Has(t.gray, b.adr)
    ensures b.lastSeen < t.gray[0].lastSeen && Has(t.gray, e.adr) && e.lastSeen < b.lastSeen
  {
    var gray := seq(GRAY_LIMIT, i requires 0 <= i < GRAY_LIMIT => PeerEntry(NetAddress(i, 0), 0, 3));
    t, policy := Tables([], gray), IpPolicy({}, {}, true);
    b, e := PeerEntry(NetAddress(GRAY_LIMIT, 0), 0, 2), PeerEntry(NetAddress(0, 0), 0, 1);
    assert gray[0].adr == e.adr;
  }

  // ---------------------------------------------------------------- promotion

  /** Inserting into a full table puts one address out: the oldest, which may be the new one itself. */
  lemma InsertIntoFull(order: seq<PeerEntry>, e: PeerEntry, limit: nat)
    requires |order| == limit > 0
    ensures Newest(Insert(order, e), limit)
         == if order[0].lastSeen <= e.lastSeen then Insert(order[1..], e) else order
  {
    InsertBehindFirst(order, e);
    if order[0].lastSeen <= e.lastSeen {
      DropFirst(order[0], Insert(order[1..], e), limit);
    } else {
      DropFirst(e, order, limit);
    }
  }

  lemma InsertedIsIn(order: seq<PeerEntry>, e: PeerEntry)
    ensures e in Insert(order, e)
  {
    assert Insert(order, e)[UpperBound(order, e.lastSeen)] == e;
  }

  lemma ReplacedIsIn(order: seq<PeerEntry>, e: PeerEntry, at: nat)
    requires Has(order, e.adr)
    ensures e in Replace(order, e, at)
  {
    var i := Position(order, e.adr);
    var rest := RemoveAt(order, i);
    if order[i].lastSeen == e.lastSeen {
      assert order[i := e][i] == e;
    } else if FitsAt(rest, at, e.lastSeen) {
      assert InsertAt(rest, at, e)[at] == e;
    } else {
      InsertedIsIn(rest, e);
    }
  }

  lemma FirstGone(order: seq<PeerEntry>)
    requires order != [] && Distinct(order)
    ensures Addresses(order[1..]) == Addresses(order) - {order[0].adr}
  {
    forall a | a in Addresses(order) && a != order[0].adr ensures a in Addresses(order[1..]) {
      var k :| 0 <= k < |order| && order[k].adr == a;
      assert order[1..][k - 1].adr == a;
    }
    forall k | 0 <= k < |order[1..]| ensures order[1..][k] == order[k + 1] {}
  }

  /**
    What becomes of the addresses when a peer is appended to the white table. The entry is there
    afterwards exactly if the address was white already, or there was room, or it is no older than the
    oldest white peer. In the remaining case the white table does not change, and since the address leaves
    the gray table all the same, it is then in neither.
   */
  lemma WhiteArrival(t: Tables, policy: IpPolicy, e: PeerEntry, at: nat)
    requires WellFormed(t, policy)
    requires e.adr.ip !in policy.loopback && (policy.allowLocal || e.adr.ip !in policy.local)
    ensures var t' := AppendWhite(t, policy, e, at);
            && (e in t'.white <==>
                  Has(t.white, e.adr) || |t.white| < 1000 || t.white[0].lastSeen <= e.lastSeen)
            && Addresses(t'.gray) == Addresses(t.gray) - {e.adr}
            && Addresses(t'.white) ==
                 if Has(t.white, e.adr) then Addresses(t.white)
                 else if |t.white| < 1000 then Addresses(t.white) + {e.adr}
                 else if t.white[0].lastSeen <= e.lastSeen then Addresses(t.white) - {t.white[0].adr} + {e.adr}
                 else Addresses(t.white)
  {
    RemoveKeeps(t.gray, e.adr);
    HasIsIn(t.white, e.adr);
    if Has(t.white, e.adr) {
      ReplacedIsIn(t.white, e, at);
      ReplaceKeeps(t.white, e, at);
    } else {
      InsertedIsIn(t.white, e);
      InsertKeeps(t.white, e);
      if |t.white| == WHITE_LIMIT {
        InsertIntoFull(t.white, e, WHITE_LIMIT);
        if t.white[0].lastSeen <= e.lastSeen {
          InsertedIsIn(t.white[1..], e);
          FirstGone(t.white);
          InsertAtAddresses(t.white[1..], UpperBound(t.white[1..], e.lastSeen), e);
        }
      }
    }
  }

  /** A peer just seen arrives in the white table with the address, id and time it was seen at, as any entry does. */
  lemma JustSeenArrives(t: Tables, policy: IpPolicy, peer: Word64, adr: NetAddress, now: Int64, at: nat)
    requires WellFormed(t, policy)
    requires adr.ip !in policy.loopback && (policy.allowLocal || adr.ip !in policy.local)
    ensures var t' := Serve(t, policy, JustSeen(peer, adr, now, at));
            && (PeerEntry(adr, peer, now) in t'.white <==>
                  Has(t.white, adr) || |t.white| < 1000 || t.white[0].lastSeen <= now)
            && !Has(t'.gray, adr)
  {
    hide WellFormed, Has, AppendWhite;
    var e := PeerEntry(adr, peer, now);
    WhiteArrival(t, policy, e, at);
    HasIsIn(AppendWhite(t, policy, e, at).gray, adr);
  }

  /** A refused address, loopback or local without leave, changes neither table, whichever it is appended to. */
  lemma RefusedChangesNothing(t: Tables, policy: IpPolicy, e: PeerEntry, at: nat)
    requires e.adr.ip in policy.loopback || (!policy.allowLocal && e.adr.ip in policy.local)
    ensures AppendWhite(t, policy, e, at) == t && AppendGray(t, policy, e, at) == t
  {
  }

  lemma {:induction false} UpperBoundIs(order: seq<PeerEntry>, t: int, i: nat)
    requires Sorted(order) && i < |order|
    ensures i < UpperBound(order, t) <==> order[i].lastSeen <= t
    decreases |order|
  {
    if i > 0 && order[0].lastSeen <= t { UpperBoundIs(order[1..], t, i - 1); }
  }

  lemma NewestEntries(order: seq<PeerEntry>, limit: nat, k: nat)
    requires Distinct(order) && k < |order|
    ensures order[k] in Newest(order, limit) <==> |order| - |Newest(order, limit)| <= k
  {
    var n := |order| - |Newest(order, limit)|;
    assert Newest(order, limit) == order[n..];
    if n <= k { assert order[n..][k - n] == order[k]; }
    if order[k] in order[n..] {
      var j :| 0 <= j < |order| - n && order[n..][j] == order[k];
      assert order[n + j] == order[k];
    }
  }

  /**
    A new entry survives the trim exactly if there is room, or it is no older than the oldest of the newest
    `limit` entries.
   */
  lemma NewEntryStays(order: seq<PeerEntry>, e: PeerEntry, limit: nat)
    requires Sorted(order) && Distinct(order) && !Has(order, e.adr) && limit > 0
    ensures e in Newest(Insert(order, e), limit) <==>
            |order| < limit || order[|order| - limit].lastSeen <= e.lastSeen
  {
    var i := UpperBound(order, e.lastSeen);
    InsertKeeps(order, e);
    assert Insert(order, e)[i] == e;
    NewestEntries(Insert(order, e), limit, i);
    NewestSize(Insert(order, e), limit);
    if limit <= |order| { UpperBoundIs(order, e.lastSeen, |order| - limit); }
  }

  /** What is pushed out of a table of `limit` entries when `e` comes in: its oldest entry, if that is no newer. */
  ghost predicate PushedOut(order: seq<PeerEntry>, e: PeerEntry, limit: nat, x: PeerEntry) {
    !Has(order, e.adr) && |order| == limit > 0 && order[0].lastSeen <= e.lastSeen && x == order[0]
  }

  lemma InsertedOthers(order: seq<PeerEntry>, e: PeerEntry, limit: nat, x: PeerEntry)
    requires Sorted(order) && Distinct(order) && !Has(order, e.adr) && x.adr != e.adr
    requires |order| <= limit && limit > 0
    ensures x in Newest(Insert(order, e), limit) <==> x in order && !PushedOut(order, e, limit, x)
  {
    InsertKeepsEntries(order, e, x);
    if |order| == limit {
      InsertIntoFull(order, e, limit);
      InsertKeepsEntries(order[1..], e, x);
      TailEntries(order, x);
    } else {
      NewestSize(Insert(order, e), limit);
      InsertKeeps(order, e);
    }
  }

  lemma ReplacedOthers(order: seq<PeerEntry>, e: PeerEntry, at: nat, x: PeerEntry)
    requires Sorted(order) && Distinct(order) && Has(order, e.adr) && x.adr != e.adr
    ensures x in Replace(order, e, at) <==> x in order
  {
    hide Sorted, Distinct, Replace, InsertAt, RemoveAt;
    var place := PlaceOf(order, e, at);
    RemoveAtEntries(order, Position(order, e.adr), x);
    InsertAtEntries(RemoveAt(order, Position(order, e.adr)), place, e, x);
  }

  lemma RemovedOthers(order: seq<PeerEntry>, adr: NetAddress, x: PeerEntry)
    requires Distinct(order) && x.adr != adr
    ensures x in Remove(order, adr) <==> x in order
  {
    hide Distinct, RemoveAt;
    if Has(order, adr) { RemoveAtEntries(order, Position(order, adr), x); }
  }

  /**
    The other entries when an allowed peer is appended to the white table: gray keeps all of them, and
    white all but its oldest one where that is pushed out.
   */
  lemma WhiteOthers(t: Tables, policy: IpPolicy, e: PeerEntry, at: nat, x: PeerEntry)
    requires WellFormed(t, policy) && x.adr != e.adr
    requires e.adr.ip !in policy.loopback && (policy.allowLocal || e.adr.ip !in policy.local)
    ensures var t' := AppendWhite(t, policy, e, at);
            && (x in t'.gray <==> x in t.gray)
            && (x in t'.white <==> x in t.white && !PushedOut(t.white, e, 1000, x))
  {
    hide Sorted, Distinct, Has, Replace, Insert, Newest, Remove;
    RemovedOthers(t.gray, e.adr, x);
    if Has(t.white, e.adr) {
      ReplacedOthers(t.white, e, at, x);
    } else {
      InsertedOthers(t.white, e, WHITE_LIMIT, x);
    }
  }

  /**
    What an allowed peer does to the gray table: nothing if it is white; else it is there afterwards
    exactly if it was gray, or there was room for 5000, or it is no older than the oldest gray peer, and of
    the other entries at most that oldest one goes.
   */
  lemma GrayArrival(t: Tables, policy: IpPolicy, e: PeerEntry, at: nat, x: PeerEntry)
    requires WellFormed(t, policy) && x.adr != e.adr
    requires e.adr.ip !in policy.loopback && (policy.allowLocal || e.adr.ip !in policy.local)
    ensures var t' := AppendGray(t, policy, e, at);
            && t'.white == t.white && (Has(t.white, e.adr) ==> t' == t)
            && (!Has(t.white, e.adr) ==>
                  && (e in t'.gray <==>
                        Has(t.gray, e.adr) || |t.gray| < 5000 || t.gray[0].lastSeen <= e.lastSeen)
                  && (x in t'.gray <==> x in t.gray && !PushedOut(t.gray, e, 5000, x)))
  {
    hide Sorted, Distinct, Has, Replace, Insert, Newest;
    if Has(t.white, e.adr) {
    } else if Has(t.gray, e.adr) {
      ReplacedIsIn(t.gray, e, at);
      ReplacedOthers(t.gray, e, at, x);
    } else {
      NewEntryStays(t.gray, e, GRAY_LIMIT);
      InsertedOthers(t.gray, e, GRAY_LIMIT, x);
    }
  }

  /** An entry whose time is as before is exchanged where it stands. */
  lemma SameTimeStays(order: seq<PeerEntry>, e: PeerEntry, at: nat, i: nat)
    requires Distinct(order) && i < |order| && order[i].adr == e.adr && order[i].lastSeen == e.lastSeen
    ensures Replace(order, e, at) == order[..i] + [e] + order[i + 1..]
  {
    SameEntry(order, order[i]);
    assert Position(order, e.adr) == i;
  }

  // ---------------------------------------------------------------- listings

  function NewestFirst(order: seq<PeerEntry>): (r: seq<PeerEntry>)
    ensures |r| == |order|
    ensures forall i :: 0 <= i < |r| ==> r[i] == order[|order| - 1 - i]
  {
    if order == [] then [] else [order[|order| - 1]] + NewestFirst(order[..|order| - 1])
  }

  /** The entries with a known time, newest first. */
  function Seen(order: seq<PeerEntry>): seq<PeerEntry> {
    if order == [] then []
    else
      var last := order[|order| - 1];
      (if last.lastSeen == 0 then [] else [last]) + Seen(order[..|order| - 1])
  }

  lemma CountLast(s: seq<PeerEntry>, x: PeerEntry, e: PeerEntry)
    ensures multiset(s + [x])[e] == multiset(s)[e] + if x == e then 1 else 0
    ensures multiset([x] + s)[e] == multiset(s)[e] + if x == e then 1 else 0
  {
  }

  lemma SeenLast(s: seq<PeerEntry>, x: PeerEntry)
    ensures Seen(s + [x]) == if x.lastSeen == 0 then Seen(s) else [x] + Seen(s)
  {
    assert (s + [x])[..|s|] == s;
  }

  lemma {:induction false} SeenCount(order: seq<PeerEntry>, e: PeerEntry)
    ensures multiset(Seen(order))[e] == if e.lastSeen == 0 then 0 else multiset(order)[e]
    decreases |order|
  {
    if order != [] {
      var n := |order| - 1;
      var short, x := order[..n], order[n];
      assert order == short + [x];
      SeenCount(short, e);
      SeenLast(short, x);
      CountLast(short, x, e);
      CountLast(Seen(short), x, e);
      hide Seen;
    }
  }

  lemma {:induction false} SeenFrom(order: seq<PeerEntry>, x: PeerEntry)
    requires x in Seen(order)
    ensures x in order
    decreases |order|
  {
    var n := |order| - 1;
    if x in Seen(order[..n]) { SeenFrom(order[..n], x); }
  }

  lemma {:induction false} SeenOrder(order: seq<PeerEntry>)
    requires Sorted(order)
    ensures forall i, j :: 0 <= i < j < |Seen(order)| ==> Seen(order)[i].lastSeen >= Seen(order)[j].lastSeen
    decreases |order|
  {
    if order != [] {
      var n := |order| - 1;
      var tail := Seen(order[..n]);
      SeenOrder(order[..n]);
      forall j | 0 <= j < |tail| ensures tail[j].lastSeen <= order[n].lastSeen {
        SeenFrom(order[..n], tail[j]);
      }
    }
  }

  /** `Seen` lists each entry with a known time as often as the table holds it, and never an older one first. */
  lemma SeenIs(order: seq<PeerEntry>)
    requires Sorted(order)
    ensures forall e :: multiset(Seen(order))[e] == if e.lastSeen == 0 then 0 else multiset(order)[e]
    ensures forall i, j :: 0 <= i < j < |Seen(order)| ==> Seen(order)[i].lastSeen >= Seen(order)[j].lastSeen
  {
    hide Seen, Sorted;
    forall e ensures multiset(Seen(order))[e] == if e.lastSeen == 0 then 0 else multiset(order)[e] {
      SeenCount(order, e);
    }
    SeenOrder(order);
  }

  // ---------------------------------------------------------------- tables of the previous format

  /** `peers_indexed_from_old`: the entries of `old` whose address is still missing, in their order. */
  function AddMissing(order: seq<PeerEntry>, old_: seq<PeerEntry>): seq<PeerEntry>
    decreases |old_|
  {
    if old_ == [] then order
    else AddMissing(if Has(order, old_[0].adr) then order else Insert(order, old_[0]), old_[1..])
  }

  function CountMissing(order: seq<PeerEntry>, old_: seq<PeerEntry>): nat {
    if old_ == [] then 0 else (if Has(order, old_[0].adr) then 0 else 1) + CountMissing(order, old_[1..])
  }

  lemma InsertKeepsEntries(order: seq<PeerEntry>, e: PeerEntry, x: PeerEntry)
    ensures x in Insert(order, e) <==> x in order || x == e
  {
    var i := UpperBound(order, e.lastSeen);
    assert Insert(order, e) == order[..i] + [e] + order[i..];
    assert order == order[..i] + order[i..];
  }

  lemma {:induction false} CountMissingAfter(order: seq<PeerEntry>, e: PeerEntry, rest: seq<PeerEntry>)
    requires forall i :: 0 <= i < |rest| ==> rest[i].adr != e.adr
    ensures CountMissing(Insert(order, e), rest) == CountMissing(order, rest)
    decreases |rest|
  {
    if rest != [] {
      InsertAtAddresses(order, UpperBound(order, e.lastSeen), e);
      HasIsIn(order, rest[0].adr);
      HasIsIn(Insert(order, e), rest[0].adr);
      CountMissingAfter(order, e, rest[1..]);
    }
  }

  /**
    The table afterwards holds everything it held, and of the old format exactly the entries whose
    address it lacked. Nothing is trimmed: its size grows by the number of those.
   */
  lemma {:induction false} FromOldIsUnion(order: seq<PeerEntry>, old_: seq<PeerEntry>)
    requires Sorted(order) && Distinct(order) && Distinct(old_)
    ensures var r := AddMissing(order, old_);
            && Sorted(r) && Distinct(r)
            && |r| == |order| + CountMissing(order, old_)
            && forall x :: x in r <==> x in order || (x in old_ && !Has(order, x.adr))
    decreases |old_|
  {
    if old_ != [] {
      var e, rest := old_[0], old_[1..];
      assert old_ == [e] + rest;
      if Has(order, e.adr) {
        FromOldIsUnion(order, rest);
      } else {
        InsertKeeps(order, e);
        CountMissingAfter(order, e, rest);
        FromOldIsUnion(Insert(order, e), rest);
        forall x ensures x in AddMissing(order, old_) <==> x in order || (x in old_ && !Has(order, x.adr)) {
          InsertKeepsEntries(order, e, x);
          HasIsIn(order, x.adr);
          HasIsIn(Insert(order, e), x.adr);
        }
      }
    }
  }

  /** So a white table read from the previous format exceeds the limit exactly if more is missing than there is room. */
  lemma FromOldOverLimit(order: seq<PeerEntry>, old_: seq<PeerEntry>)
    requires Sorted(order) && Distinct(order) && Distinct(old_)
    ensures |AddMissing(order, old_)| <= 1000 <==> CountMissing(order, old_) <= 1000 - |order|
  {
    FromOldIsUnion(order, old_);
  }

  /** It can be exceeded: 1001 old entries with different addresses are all taken over. */
  lemma OldTableOverLimit() returns (old_: seq<PeerEntry>)
    ensures Distinct(old_) && |old_| == 1001 && |AddMissing([], old_)| == 1001
  {
    old_ := seq(WHITE_LIMIT + 1, i requires 0 <= i <= WHITE_LIMIT => PeerEntry(NetAddress(i, 0), i, 0));
    forall i | 0 <= i < |old_| ensures !Has([], old_[i].adr) {}
    FromOldIsUnion([], old_);
    AllMissing(old_);
  }

  lemma {:induction false} AllMissing(old_: seq<PeerEntry>)
    ensures CountMissing([], old_) == |old_|
    decreases |old_|
  {
    if old_ != [] { AllMissing(old_[1..]); }
  }

  /**
    Such a table comes back within the limit by the first append of an allowed address that is not white,
    and only so: updates of white peers leave its size alone.
   */
  lemma WhiteRecovers(t: Tables, policy: IpPolicy, e: PeerEntry, at: nat)
    requires Sorted(t.white) && Distinct(t.white) && |t.white| > 1000
    requires e.adr.ip !in policy.loopback && (policy.allowLocal || e.adr.ip !in policy.local)
    ensures |AppendWhite(t, policy, e, at).white| <= 1000 <==> !Has(t.white, e.adr)
    ensures Has(t.white, e.adr) ==> |AppendWhite(t, policy, e, at).white| == |t.white|
  {
    hide Sorted, Distinct, Has, Replace, Insert, Newest, Remove;
    if Has(t.white, e.adr) {
      ReplaceKeeps(t.white, e, at);
    } else {
      NewestSize(Insert(t.white, e), WHITE_LIMIT);
    }
  }
}
