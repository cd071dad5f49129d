/**
  The fork-join protocol of a task region (task_region.h): one spawning thread and any number of
  workers act on a chain of `ready`/`pending` masks, one atomic step at a time.
 */
module TaskRegion {
  import opened Bits

  // ---------------------------------------------------------------- masks

  /** `state::id`: an unsigned int. */
  type Mask = Word32

  /** `mask |= id` */
  function SetBits(mask: Mask, id: Mask): Mask {
    Word32Fits(mask);
    Word32Fits(id);
    FitsOr(mask, id, 32);
    Word32Fits(Or(mask, id));
    Or(mask, id)
  }

  /** `mask & ~id`, what `mask.fetch_and(~id)` leaves. */
  function ClearBits(mask: Mask, id: Mask): Mask {
    Word32Fits(mask);
    FitsAnd(mask, 0xFFFF_FFFF - id, 32);
    Word32Fits(And(mask, 0xFFFF_FFFF - id));
    And(mask, 0xFFFF_FFFF - id)
  }

  lemma IdBelow(b: nat)
    requires b < 32
    ensures Pow2(b) < 0x1_0000_0000
  {
    Pow2Values();
    Pow2Monotone(b, 31);
  }

  lemma SetBitsBit(mask: Mask, b: nat, i: nat)
    requires b < 32
    ensures Pow2(b) < 0x1_0000_0000
    ensures Bit(SetBits(mask, Pow2(b)), i) <==> i == b || Bit(mask, i)
  {
    IdBelow(b);
    OrBit(mask, Pow2(b), i);
    Pow2Bit(b, i);
  }

  lemma ClearBitsBit(mask: Mask, b: nat, i: nat)
    requires b < 32
    ensures Pow2(b) < 0x1_0000_0000
    ensures Bit(ClearBits(mask, Pow2(b)), i) <==> i != b && Bit(mask, i)
  {
    hide Pow2;
    IdBelow(b);
    Pow2Values();
    Word32Fits(Pow2(b));
    NotBit(32, Pow2(b), i);
    Pow2Bit(b, i);
    AndBit(mask, 0xFFFF_FFFF - Pow2(b), i);
    if i >= 32 {
      Word32Fits(mask);
      FitsBit(mask, 32, i);
    }
  }

  /** `mask & id` is non-zero exactly if the bit of `id` is set. */
  lemma TestBit(mask: Mask, b: nat)
    requires b < 32
    ensures And(mask, Pow2(b)) != 0 <==> Bit(mask, b)
  {
    hide Pow2, And, Fits, Bit;
    AndBit(mask, Pow2(b), b);
    Pow2Bit(b, b);
    ZeroWord(32, b);
    Word32Fits(mask);
    FitsAnd(mask, Pow2(b), 32);
    if !Bit(mask, b) {
      forall i: nat | i < 32 ensures Bit(And(mask, Pow2(b)), i) <==> Bit(0, i) {
        AndBit(mask, Pow2(b), i);
        Pow2Bit(b, i);
        ZeroWord(32, i);
      }
      SameBits(And(mask, Pow2(b)), 0, 32);
    }
  }

  lemma NoBits(mask: Mask)
    requires forall i: nat :: i < 32 ==> !Bit(mask, i)
    ensures mask == 0
  {
    hide Fits, Bit;
    forall i: nat | i < 32 ensures Bit(mask, i) <==> Bit(0, i) { ZeroWord(32, i); }
    Word32Fits(mask);
    ZeroWord(32, 0);
    SameBits(mask, 0, 32);
  }

  // ---------------------------------------------------------------- states of the protocol

  /** One `state`: its `next` is the one before it in the chain. */
  datatype Node = Node(ready: Mask, pending: Mask)

  /** What a wrapped task carries: its state, by position in the chain, and its id. */
  datatype TaskId = TaskId(node: nat, id: Mask)

  /** A running copy of `wrapper::operator()`: before `can_run`, in `f`, before `mark_completed`, returned. */
  datatype Phase = Entered | Running | Closing | Left

  /** `ran` records whether `can_run` returned true for this copy. */
  datatype Call = Call(task: nat, phase: Phase, ran: bool)

  /**
    The spawning thread: between calls, inside `run` after `pending |= id` or after `ready |= id`,
    inside `wait`, or inside the destructor; `left` counts the states of the chain still to visit.
   */
  datatype Spawner =
    | Idle
    | HalfTracked
    | Tracked
    | Waiting(left: nat)
    | Aborting(left: nat)
    | Joining(left: nat)
    | Gone

  datatype Region = Region(chain: seq<Node>, nextId: Mask, tasks: seq<TaskId>, calls: seq<Call>, spawner: Spawner)

  /** A region just constructed, on a group with threads. */
  const FreshRegion := Region([], 0, [], [], Idle)

  datatype Action =
    | Spawn             // run: create a state if the id is used up, take the id, `pending |= id`
    | SetReady          // run: `ready |= id`
    | Dispatch          // run: hand the wrapper to the group
    | Enter(task: nat)  // some thread invokes a copy of the wrapper of a dispatched task
    | TestReady(call: nat)
    | Finish(call: nat)
    | Complete(call: nat)
    | WaitBegin
    | WaitNode          // the next state of the chain has no pending bit
    | WaitEnd
    | DestroyBegin
    | AbortNode         // `ready = 0` on the next state of the chain
    | AbortEnd
    | JoinNode
    | JoinEnd

  function Dispatched(s: Region): nat {
    if (s.spawner.HalfTracked? || s.spawner.Tracked?) && |s.tasks| > 0 then |s.tasks| - 1 else |s.tasks|
  }

  predicate InPhase(s: Region, c: nat, phase: Phase) {
    c < |s.calls| && s.calls[c].phase == phase
      && s.calls[c].task < |s.tasks| && s.tasks[s.calls[c].task].node < |s.chain|
  }

  predicate Enabled(s: Region, a: Action) {
    match a
    case Spawn => s.spawner.Idle?
    case SetReady => s.spawner.HalfTracked? && |s.tasks| > 0 && s.tasks[|s.tasks| - 1].node < |s.chain|
    case Dispatch => s.spawner.Tracked?
    case Enter(k) => k < Dispatched(s)
    case TestReady(c) => InPhase(s, c, Entered)
    case Finish(c) => InPhase(s, c, Running)
    case Complete(c) => InPhase(s, c, Closing)
    case WaitBegin => s.spawner.Idle?
    case WaitNode => s.spawner.Waiting? && 0 < s.spawner.left <= |s.chain| && s.chain[s.spawner.left - 1].pending == 0
    case WaitEnd => s.spawner == Waiting(0)
    case DestroyBegin => s.spawner.Idle?
    case AbortNode => s.spawner.Aborting? && 0 < s.spawner.left <= |s.chain|
    case AbortEnd => s.spawner == Aborting(0)
    case JoinNode => s.spawner.Joining? && 0 < s.spawner.left <= |s.chain| && s.chain[s.spawner.left - 1].pending == 0
    case JoinEnd => s.spawner == Joining(0)
  }

  function SetPending(chain: seq<Node>, t: TaskId): seq<Node>
    requires t.node < |chain|
  {
    chain[t.node := chain[t.node].(pending := SetBits(chain[t.node].pending, t.id))]
  }

  function SetReadyBit(chain: seq<Node>, t: TaskId): seq<Node>
    requires t.node < |chain|
  {
    chain[t.node := chain[t.node].(ready := SetBits(chain[t.node].ready, t.id))]
  }

  function ClearReady(chain: seq<Node>, t: TaskId): seq<Node>
    requires t.node < |chain|
  {
    chain[t.node := chain[t.node].(ready := ClearBits(chain[t.node].ready, t.id))]
  }

  function ClearPending(chain: seq<Node>, t: TaskId): seq<Node>
    requires t.node < |chain|
  {
    chain[t.node := chain[t.node].(pending := ClearBits(chain[t.node].pending, t.id))]
  }

  /** `next_id << 1` on an unsigned int. */
  function ShiftId(id: Mask): Mask {
    id * 2 % 0x1_0000_0000
  }

  /** The chain and id that `run` works with: a new state, linked before the others, once the ids are used up. */
  function WithRoom(s: Region): (seq<Node>, Mask) {
    if s.chain == [] || s.nextId == 0 then (s.chain + [Node(0, 0)], 1) else (s.chain, s.nextId)
  }

  function Apply(s: Region, a: Action): Region
    requires Enabled(s, a)
  {
    match a
    case Spawn =>
      var (chain, id) := WithRoom(s);
      var t := TaskId(|chain| - 1, id);
      Region(SetPending(chain, t), ShiftId(id), s.tasks + [t], s.calls, HalfTracked)
    case SetReady => s.(chain := SetReadyBit(s.chain, s.tasks[|s.tasks| - 1]), spawner := Tracked)
    case Dispatch => s.(spawner := Idle)
    case Enter(k) => s.(calls := s.calls + [Call(k, Entered, false)])
    case TestReady(c) =>
      var t := s.tasks[s.calls[c].task];
      var canRun := And(s.chain[t.node].ready, t.id) != 0;
      s.(chain := ClearReady(s.chain, t),
         calls := s.calls[c := Call(s.calls[c].task, if canRun then Running else Closing, canRun)])
    case Finish(c) => s.(calls := s.calls[c := s.calls[c].(phase := Closing)])
    case Complete(c) =>
      s.(chain := ClearPending(s.chain, s.tasks[s.calls[c].task]),
         calls := s.calls[c := s.calls[c].(phase := Left)])
    case WaitBegin => s.(spawner := Waiting(|s.chain|))
    case WaitNode => s.(spawner := Waiting(s.spawner.left - 1))
    case WaitEnd => s.(spawner := Idle)
    case DestroyBegin => s.(spawner := Aborting(|s.chain|))
    case AbortNode =>
      var j := s.spawner.left - 1;
      s.(chain := s.chain[j := s.chain[j].(ready := 0)], spawner := Aborting(j))
    case AbortEnd => s.(spawner := Joining(|s.chain|))
    case JoinNode => s.(spawner := Joining(s.spawner.left - 1))
    case JoinEnd => s.(spawner := Gone)
  }

  /** `acts` is an interleaving that can happen from `s`. */
  predicate Runs(s: Region, acts: seq<Action>)
    decreases |acts|
  {
    acts == [] || (Enabled(s, acts[0]) && Runs(Apply(s, acts[0]), acts[1..]))
  }

  function After(s: Region, acts: seq<Action>): Region
    requires Runs(s, acts)
    decreases |acts|
  {
    if acts == [] then s else After(Apply(s, acts[0]), acts[1..])
  }

  // ---------------------------------------------------------------- the masks as sets of tasks

  predicate ReadyBit(chain: seq<Node>, k: nat) {
    k / 32 < |chain| && Bit(chain[k / 32].ready, k % 32)
  }

  predicate PendingBit(chain: seq<Node>, k: nat) {
    k / 32 < |chain| && Bit(chain[k / 32].pending, k % 32)
  }

  function Slot(k: nat): TaskId {
    IdBelow(k % 32);
    TaskId(k / 32, Pow2(k % 32))
  }

  lemma SlotParts(k: nat, m: nat)
    ensures k == m <==> k / 32 == m / 32 && k % 32 == m % 32
  {
  }

  lemma SetPendingView(chain: seq<Node>, k: nat, m: nat)
    requires k / 32 < |chain|
    ensures ReadyBit(SetPending(chain, Slot(k)), m) <==> ReadyBit(chain, m)
    ensures PendingBit(SetPending(chain, Slot(k)), m) <==> m == k || PendingBit(chain, m)
  {
    hide Bit, Pow2, SetBits;
    SlotParts(k, m);
    SetBitsBit(chain[k / 32].pending, k % 32, m % 32);
  }

  lemma SetReadyView(chain: seq<Node>, k: nat, m: nat)
    requires k / 32 < |chain|
    ensures PendingBit(SetReadyBit(chain, Slot(k)), m) <==> PendingBit(chain, m)
    ensures ReadyBit(SetReadyBit(chain, Slot(k)), m) <==> m == k || ReadyBit(chain, m)
  {
    hide Bit, Pow2, SetBits;
    SlotParts(k, m);
    SetBitsBit(chain[k / 32].ready, k % 32, m % 32);
  }

  lemma ClearReadyView(chain: seq<Node>, k: nat, m: nat)
    requires k / 32 < |chain|
    ensures PendingBit(ClearReady(chain, Slot(k)), m) <==> PendingBit(chain, m)
    ensures ReadyBit(ClearReady(chain, Slot(k)), m) <==> m != k && ReadyBit(chain, m)
    ensures And(chain[k / 32].ready, Slot(k).id) != 0 <==> ReadyBit(chain, k)
  {
    hide Bit, Pow2, ClearBits, And;
    SlotParts(k, m);
    ClearBitsBit(chain[k / 32].ready, k % 32, m % 32);
    TestBit(chain[k / 32].ready, k % 32);
  }

  lemma ClearPendingView(chain: seq<Node>, k: nat, m: nat)
    requires k / 32 < |chain|
    ensures ReadyBit(ClearPending(chain, Slot(k)), m) <==> ReadyBit(chain, m)
    ensures PendingBit(ClearPending(chain, Slot(k)), m) <==> m != k && PendingBit(chain, m)
  {
    hide Bit, Pow2, ClearBits;
    SlotParts(k, m);
    ClearBitsBit(chain[k / 32].pending, k % 32, m % 32);
  }

  // ---------------------------------------------------------------- the invariant

  /** The k-th task has bit `k mod 32` of the `k div 32`-th state, and `next_id` is the bit of the next one. */
  ghost predicate Numbered(s: Region) {
    && |s.chain| == (|s.tasks| + 31) / 32
    && s.nextId == NextId(|s.tasks|)
    && forall k :: 0 <= k < |s.tasks| ==> s.tasks[k] == Slot(k)
  }

  function NextId(n: nat): Mask {
    IdBelow(n % 32);
    if n % 32 == 0 then 0 else Pow2(n % 32)
  }

  /** A set bit belongs to a task that exists; ready implies pending. */
  ghost predicate MasksAgree(s: Region) {
    && (forall k: nat :: PendingBit(s.chain, k) ==> k < |s.tasks|)
    && (forall k: nat :: ReadyBit(s.chain, k) ==> PendingBit(s.chain, k))
  }

  ghost predicate CallsAgree(s: Region) {
    && (forall c :: 0 <= c < |s.calls| ==> s.calls[c].task < Dispatched(s))
    && (forall c :: 0 <= c < |s.calls| && s.calls[c].phase != Entered ==> !ReadyBit(s.chain, s.calls[c].task))
    && (forall c :: 0 <= c < |s.calls| && s.calls[c].phase == Entered ==> !s.calls[c].ran)
    && (forall c :: 0 <= c < |s.calls| && s.calls[c].phase == Running ==> s.calls[c].ran)
    && (forall c :: 0 <= c < |s.calls| && s.calls[c].phase == Left ==> !PendingBit(s.chain, s.calls[c].task))
  }

  /** No two copies of one task have both been allowed to run it. */
  ghost predicate StartedOnce(s: Region) {
    forall c, d :: 0 <= c < d < |s.calls| && s.calls[c].ran && s.calls[d].ran ==> s.calls[c].task != s.calls[d].task
  }

  ghost predicate SpawnerAgrees(s: Region) {
    match s.spawner
    case Idle => true
    case HalfTracked => |s.tasks| > 0 && PendingBit(s.chain, |s.tasks| - 1) && !ReadyBit(s.chain, |s.tasks| - 1)
    case Tracked => |s.tasks| > 0 && ReadyBit(s.chain, |s.tasks| - 1)
    case Waiting(left) => left <= |s.chain| && forall k: nat :: PendingBit(s.chain, k) ==> k / 32 < left
    case Aborting(left) => left <= |s.chain| && forall k: nat :: ReadyBit(s.chain, k) ==> k / 32 < left
    case Joining(left) =>
      && left <= |s.chain|
      && (forall k: nat :: !ReadyBit(s.chain, k))
      && (forall k: nat :: PendingBit(s.chain, k) ==> k / 32 < left)
    case Gone => forall k: nat :: !PendingBit(s.chain, k)
  }

  ghost predicate Inv(s: Region) {
    Numbered(s) && MasksAgree(s) && CallsAgree(s) && StartedOnce(s) && SpawnerAgrees(s)
  }

  lemma FreshRegionInv()
    ensures Inv(FreshRegion)
  {
  }

  lemma TopId()
    ensures Pow2(31) == 0x8000_0000
  {
    Pow2Values();
    assert Pow2(32) == 2 * Pow2(31);
  }

  lemma NextIdStep(n: nat)
    ensures var id := if n % 32 == 0 then 1 else NextId(n); id == Slot(n).id && ShiftId(id) == NextId(n + 1)
  {
    var b := n % 32;
    if b == 31 {
      assert (n + 1) % 32 == 0;
      TopId();
    } else {
      assert (n + 1) % 32 == b + 1;
      IdBelow(b + 1);
      assert Pow2(b + 1) == 2 * Pow2(b);
    }
  }

  lemma SpawnKeeps(s: Region)
    requires Inv(s) && Enabled(s, Spawn)
    ensures Inv(Apply(s, Spawn))
    ensures forall k: nat :: ReadyBit(Apply(s, Spawn).chain, k) <==> ReadyBit(s.chain, k)
    ensures forall k: nat :: PendingBit(Apply(s, Spawn).chain, k) <==> k == |s.tasks| || PendingBit(s.chain, k)
  {
    hide Pow2, Bit, SetBits;
    var n := |s.tasks|;
    var (chain, id) := WithRoom(s);
    var s' := Apply(s, Spawn);
    NextIdStep(n);
    RoomFor(s);
    forall k: nat ensures ReadyBit(s'.chain, k) <==> ReadyBit(s.chain, k)
                  ensures PendingBit(s'.chain, k) <==> k == n || PendingBit(s.chain, k) {
      SetPendingView(chain, n, k);
      NewNodeView(s.chain, k);
    }
  }

  lemma NewNodeView(chain: seq<Node>, k: nat)
    ensures ReadyBit(chain + [Node(0, 0)], k) <==> ReadyBit(chain, k)
    ensures PendingBit(chain + [Node(0, 0)], k) <==> PendingBit(chain, k)
  {
    ZeroWord(32, k % 32);
  }

  /** The state that `run` uses is the one the numbering gives to the next task. */
  lemma RoomFor(s: Region)
    requires Numbered(s)
    ensures var (chain, id) := WithRoom(s);
            && |s.tasks| / 32 == |chain| - 1 && |chain| == (|s.tasks| + 1 + 31) / 32
            && id == (if |s.tasks| % 32 == 0 then 1 else NextId(|s.tasks|))
  {
    hide Pow2;
  }

  lemma SetReadyKeeps(s: Region)
    requires Inv(s) && Enabled(s, SetReady)
    ensures Inv(Apply(s, SetReady))
    ensures forall k: nat :: PendingBit(Apply(s, SetReady).chain, k) <==> PendingBit(s.chain, k)
    ensures forall k: nat :: ReadyBit(Apply(s, SetReady).chain, k) <==> k == |s.tasks| - 1 || ReadyBit(s.chain, k)
  {
    hide Pow2, Bit, SetBits;
    var n := |s.tasks|;
    var s' := Apply(s, SetReady);
    forall k: nat ensures PendingBit(s'.chain, k) <==> PendingBit(s.chain, k)
                  ensures ReadyBit(s'.chain, k) <==> k == n - 1 || ReadyBit(s.chain, k) {
      SetReadyView(s.chain, n - 1, k);
    }
  }

  lemma TestReadyKeeps(s: Region, c: nat)
    requires Inv(s) && Enabled(s, TestReady(c))
    ensures Inv(Apply(s, TestReady(c)))
    ensures forall k: nat :: PendingBit(Apply(s, TestReady(c)).chain, k) <==> PendingBit(s.chain, k)
    ensures forall k: nat :: ReadyBit(Apply(s, TestReady(c)).chain, k) <==> k != s.calls[c].task && ReadyBit(s.chain, k)
    ensures Apply(s, TestReady(c)).calls[c].ran <==> ReadyBit(s.chain, s.calls[c].task)
  {
    hide Pow2, Bit, ClearBits, And;
    var t := s.calls[c].task;
    var s' := Apply(s, TestReady(c));
    forall k: nat ensures PendingBit(s'.chain, k) <==> PendingBit(s.chain, k)
                  ensures ReadyBit(s'.chain, k) <==> k != t && ReadyBit(s.chain, k) {
      ClearReadyView(s.chain, t, k);
    }
    ClearReadyView(s.chain, t, t);
  }

  lemma CompleteKeeps(s: Region, c: nat)
    requires Inv(s) && Enabled(s, Complete(c))
    ensures Inv(Apply(s, Complete(c)))
    ensures forall k: nat :: ReadyBit(Apply(s, Complete(c)).chain, k) <==> ReadyBit(s.chain, k)
    ensures forall k: nat :: PendingBit(Apply(s, Complete(c)).chain, k)
                        <==> k != s.calls[c].task && PendingBit(s.chain, k)
  {
    hide Pow2, Bit, ClearBits;
    var t := s.calls[c].task;
    var s' := Apply(s, Complete(c));
    forall k: nat ensures ReadyBit(s'.chain, k) <==> ReadyBit(s.chain, k)
                  ensures PendingBit(s'.chain, k) <==> k != t && PendingBit(s.chain, k) {
      ClearPendingView(s.chain, t, k);
    }
  }

  lemma AbortNodeKeeps(s: Region)
    requires Inv(s) && Enabled(s, AbortNode)
    ensures Inv(Apply(s, AbortNode))
    ensures forall k: nat :: PendingBit(Apply(s, AbortNode).chain, k) <==> PendingBit(s.chain, k)
    ensures forall k: nat :: ReadyBit(Apply(s, AbortNode).chain, k) ==> ReadyBit(s.chain, k)
  {
    hide Pow2, Bit;
    var s' := Apply(s, AbortNode);
    forall k: nat ensures PendingBit(s'.chain, k) <==> PendingBit(s.chain, k)
                  ensures ReadyBit(s'.chain, k) <==> k / 32 != s.spawner.left - 1 && ReadyBit(s.chain, k) {
      ZeroWord(32, k % 32);
    }
  }

  /** Once a state's pending word is zero, none of its tasks is pending. */
  lemma NoPendingIn(chain: seq<Node>, j: nat, k: nat)
    requires j < |chain| && chain[j].pending == 0 && k / 32 == j
    ensures !PendingBit(chain, k)
  {
    ZeroWord(32, k % 32);
  }

  lemma VisitNodeKeeps(s: Region, a: Action)
    requires Inv(s) && Enabled(s, a) && (a.WaitNode? || a.JoinNode?)
    ensures Inv(Apply(s, a))
  {
    hide Pow2, Bit;
    forall k: nat | PendingBit(s.chain, k) ensures k / 32 < s.spawner.left - 1 {
      if k / 32 == s.spawner.left - 1 { NoPendingIn(s.chain, k / 32, k); }
    }
  }

  lemma EnterKeeps(s: Region, k: nat)
    requires Inv(s) && Enabled(s, Enter(k))
    ensures Inv(Apply(s, Enter(k)))
  {
    hide Pow2, Bit, PendingBit, ReadyBit;
  }

  lemma FinishKeeps(s: Region, c: nat)
    requires Inv(s) && Enabled(s, Finish(c))
    ensures Inv(Apply(s, Finish(c)))
  {
    hide Pow2, Bit, PendingBit, ReadyBit;
  }

  /** The invariant is kept where only the spawning thread has moved, and no task is less dispatched than before. */
  lemma SameMasks(s: Region, s': Region)
    requires Inv(s) && SpawnerAgrees(s') && Dispatched(s) <= Dispatched(s')
    requires s'.chain == s.chain && s'.tasks == s.tasks && s'.calls == s.calls && s'.nextId == s.nextId
    ensures Inv(s')
  {
    hide SpawnerAgrees, PendingBit, ReadyBit, Slot, NextId, Dispatched;
  }

  /** The spawning thread moves on without touching a mask. */
  lemma SpawnerStepKeeps(s: Region, a: Action)
    requires Inv(s) && Enabled(s, a)
    requires a.Dispatch? || a.WaitBegin? || a.WaitEnd? || a.DestroyBegin? || a.AbortEnd? || a.JoinEnd?
    ensures Inv(Apply(s, a))
  {
    assert forall k: nat :: PendingBit(s.chain, k) ==> k / 32 < |s.chain|;
    assert forall k: nat :: ReadyBit(s.chain, k) ==> PendingBit(s.chain, k);
    hide Numbered, MasksAgree, CallsAgree, StartedOnce, PendingBit, ReadyBit;
    assert SpawnerAgrees(Apply(s, a));
    SameMasks(s, Apply(s, a));
  }

  /** Every atomic step keeps the invariant. */
  lemma StepKeeps(s: Region, a: Action)
    requires Inv(s) && Enabled(s, a)
    ensures Inv(Apply(s, a))
  {
    hide Inv, Apply;
    match a
    case Spawn => SpawnKeeps(s);
    case SetReady => SetReadyKeeps(s);
    case TestReady(c) => TestReadyKeeps(s, c);
    case Complete(c) => CompleteKeeps(s, c);
    case AbortNode => AbortNodeKeeps(s);
    case WaitNode => VisitNodeKeeps(s, a);
    case JoinNode => VisitNodeKeeps(s, a);
    case Enter(k) => EnterKeeps(s, k);
    case Finish(c) => FinishKeeps(s, c);
    case _ => SpawnerStepKeeps(s, a);
  }

  // ---------------------------------------------------------------- every run

  lemma {:induction false} RunKeeps(s: Region, acts: seq<Action>)
    requires Inv(s) && Runs(s, acts)
    ensures Inv(After(s, acts))
    decreases |acts|
  {
    hide Inv, Apply;
    if acts != [] {
      StepKeeps(s, acts[0]);
      RunKeeps(Apply(s, acts[0]), acts[1..]);
    }
  }

  /**
    On every interleaving, with any number of copies of any wrapper: ready bits are a subset of the
    pending bits, no task is allowed to run twice, and a task whose ready bit is gone is never allowed again.
   */
  lemma Safety(acts: seq<Action>)
    requires Runs(FreshRegion, acts)
    ensures var s := After(FreshRegion, acts);
            && (forall k: nat :: ReadyBit(s.chain, k) ==> PendingBit(s.chain, k))
            && (forall c, d :: 0 <= c < d < |s.calls| && s.calls[c].ran && s.calls[d].ran
                  ==> s.calls[c].task != s.calls[d].task)
            && (forall c :: 0 <= c < |s.calls| && s.calls[c].ran ==> !ReadyBit(s.chain, s.calls[c].task))
  {
    FreshRegionInv();
    RunKeeps(FreshRegion, acts);
  }

  /**
    After any run, the k-th task has bit `2^(k mod 32)` of the `k div 32`-th state, through every
    wrap of `next_id` to zero; so no two tasks share a state and a bit.
   */
  lemma Numbering(acts: seq<Action>, k: nat)
    requires Runs(FreshRegion, acts)
    requires k < |After(FreshRegion, acts).tasks|
    ensures var s := After(FreshRegion, acts);
            && s.tasks[k].node == k / 32 < |s.chain| && s.tasks[k].id == Pow2(k % 32)
            && |s.chain| == (|s.tasks| + 31) / 32
            && (s.nextId == 0 <==> |s.tasks| % 32 == 0)
            && forall m :: 0 <= m < |s.tasks| && m != k ==> s.tasks[m] != s.tasks[k]
  {
    FreshRegionInv();
    RunKeeps(FreshRegion, acts);
    var s := After(FreshRegion, acts);
    forall m | 0 <= m < |s.tasks| && m != k ensures s.tasks[m] != s.tasks[k] {
      SlotsDiffer(k, m);
    }
  }

  lemma SlotsDiffer(k: nat, m: nat)
    requires k != m
    ensures Slot(k) != Slot(m)
  {
    SlotParts(k, m);
    if Pow2(k % 32) == Pow2(m % 32) { Pow2Injective(k % 32, m % 32); }
  }

  lemma Pow2Injective(a: nat, b: nat)
    requires Pow2(a) == Pow2(b)
    ensures a == b
  {
    Pow2Bit(a, a);
    Pow2Bit(b, a);
  }

  /** The tasks that some copy has been allowed to run. */
  ghost function Started(s: Region): set<nat> {
    set c | 0 <= c < |s.calls| && s.calls[c].ran :: s.calls[c].task
  }

  lemma StartedGrows(s: Region, a: Action)
    requires Inv(s) && Enabled(s, a)
    ensures Started(s) <= Started(Apply(s, a))
  {
    CallsGrow(s, a);
    var s' := Apply(s, a);
    hide Inv, Apply, Enabled;
    forall k | k in Started(s) ensures k in Started(s') {
      var c :| 0 <= c < |s.calls| && s.calls[c].ran && s.calls[c].task == k;
      assert s'.calls[c].ran && s'.calls[c].task == k;
    }
  }

  /** Only a claim lets a copy run, and then its task was ready. */
  lemma RanAfter(s: Region, a: Action, c: nat)
    requires Inv(s) && Enabled(s, a) && c < |Apply(s, a).calls| && Apply(s, a).calls[c].ran
    ensures var k := Apply(s, a).calls[c].task;
            (c < |s.calls| && s.calls[c].ran && s.calls[c].task == k) || (a.TestReady? && ReadyBit(s.chain, k))
  {
    if a.TestReady? { TestReadyKeeps(s, a.call); }
    hide Inv, PendingBit, ReadyBit, SetPending, SetReadyBit, ClearReady, ClearPending, And;
  }

  /** A step starts a body only by finding the ready bit of its task. */
  lemma StepStarts(s: Region, a: Action)
    requires Inv(s) && Enabled(s, a)
    ensures Started(s) <= Started(Apply(s, a))
    ensures forall k :: k in Started(Apply(s, a)) && k !in Started(s) ==> a.TestReady? && ReadyBit(s.chain, k)
  {
    StartedGrows(s, a);
    var s' := Apply(s, a);
    forall k | k in Started(s') ensures k in Started(s) || (a.TestReady? && ReadyBit(s.chain, k)) {
      var c :| 0 <= c < |s'.calls| && s'.calls[c].ran && s'.calls[c].task == k;
      RanAfter(s, a, c);
      hide Inv, Apply, Enabled, ReadyBit;
    }
  }

  /** Only `ready |= id` makes a task ready. */
  lemma ReadyAfter(s: Region, a: Action, k: nat)
    requires Inv(s) && Enabled(s, a) && ReadyBit(Apply(s, a).chain, k)
    ensures ReadyBit(s.chain, k) || (a.SetReady? && k == |s.tasks| - 1)
  {
    match a
    case Spawn => SpawnKeeps(s);
    case SetReady => SetReadyKeeps(s);
    case TestReady(c) => TestReadyKeeps(s, c);
    case Complete(c) => CompleteKeeps(s, c);
    case AbortNode => AbortNodeKeeps(s);
    case _ => hide Inv, ReadyBit;
  }

  lemma DispatchedGrows(s: Region, a: Action)
    requires Inv(s) && Enabled(s, a)
    ensures Dispatched(s) <= Dispatched(Apply(s, a))
  {
    hide Inv, PendingBit, ReadyBit, SetPending, SetReadyBit, ClearReady, ClearPending, And;
  }

  /** A dispatched task that is not ready stays so, and no step starts it. */
  lemma RetiredStays(s: Region, a: Action, k: nat)
    requires Inv(s) && Enabled(s, a) && k < Dispatched(s) && !ReadyBit(s.chain, k)
    ensures k < Dispatched(Apply(s, a)) && !ReadyBit(Apply(s, a).chain, k)
    ensures k in Started(Apply(s, a)) <==> k in Started(s)
  {
    StepStarts(s, a);
    DispatchedGrows(s, a);
    if ReadyBit(Apply(s, a).chain, k) { ReadyAfter(s, a, k); }
    hide Inv, Apply, ReadyBit, Started;
  }

  lemma {:induction false} RetiredNeverStarts(s: Region, acts: seq<Action>, k: nat)
    requires Inv(s) && Runs(s, acts) && k < Dispatched(s) && !ReadyBit(s.chain, k)
    ensures k in Started(After(s, acts)) <==> k in Started(s)
    decreases |acts|
  {
    hide Inv, Started, Apply, Dispatched;
    if acts != [] {
      StepKeeps(s, acts[0]);
      RetiredStays(s, acts[0], k);
      RetiredNeverStarts(Apply(s, acts[0]), acts[1..], k);
    }
  }

  /** No task is ready and none is in the middle of being tracked. */
  ghost predicate Quiet(s: Region) {
    && (forall k: nat :: !ReadyBit(s.chain, k))
    && !s.spawner.HalfTracked? && !s.spawner.Tracked?
  }

  lemma StaysQuiet(s: Region, a: Action)
    requires Inv(s) && Enabled(s, a) && Quiet(s) && !a.Spawn?
    ensures Quiet(Apply(s, a)) && Started(Apply(s, a)) == Started(s)
  {
    StepStarts(s, a);
    var s' := Apply(s, a);
    if a.TestReady? { TestReadyKeeps(s, a.call); }
    if a.Complete? { CompleteKeeps(s, a.call); }
    if a.AbortNode? { AbortNodeKeeps(s); }
    hide Pow2, Bit, PendingBit, ReadyBit, SetPending, SetReadyBit, ClearReady, ClearPending, And;
  }

  lemma {:induction false} NothingStarts(s: Region, acts: seq<Action>)
    requires Inv(s) && Runs(s, acts) && Quiet(s)
    requires s.spawner.Joining? || s.spawner.Gone?
    ensures Started(After(s, acts)) == Started(s)
    decreases |acts|
  {
    hide Inv, Started, Quiet;
    if acts != [] {
      StepKeeps(s, acts[0]);
      StaysQuiet(s, acts[0]);
      NothingStarts(Apply(s, acts[0]), acts[1..]);
    }
  }

  /** From the moment its bit is not pending, a task never starts again, whatever `run` adds later. */
  lemma NoStartOncePendingIsClear(before: seq<Action>, after: seq<Action>, k: nat)
    requires Runs(FreshRegion, before)
    requires var s := After(FreshRegion, before); k < |s.tasks| && !PendingBit(s.chain, k)
    requires Runs(After(FreshRegion, before), after)
    ensures k in Started(After(After(FreshRegion, before), after)) <==> k in Started(After(FreshRegion, before))
  {
    hide Inv, Started, PendingBit, ReadyBit, Dispatched, Apply;
    var s := After(FreshRegion, before);
    FreshRegionInv();
    RunKeeps(FreshRegion, before);
    ClearIsRetired(s, k);
    RetiredNeverStarts(s, after, k);
  }

  lemma ClearIsRetired(s: Region, k: nat)
    requires Inv(s) && k < |s.tasks| && !PendingBit(s.chain, k)
    ensures k < Dispatched(s) && !ReadyBit(s.chain, k)
  {
    hide PendingBit, ReadyBit;
  }

  /** Once the destructor has aborted every state, no body starts any more, whatever the workers do. */
  lemma NoStartAfterAbort(before: seq<Action>, after: seq<Action>)
    requires Runs(FreshRegion, before)
    requires var s := After(FreshRegion, before); s.spawner.Joining? || s.spawner.Gone?
    requires Runs(After(FreshRegion, before), after)
    ensures Started(After(After(FreshRegion, before), after)) == Started(After(FreshRegion, before))
  {
    FreshRegionInv();
    RunKeeps(FreshRegion, before);
    NothingStarts(After(FreshRegion, before), after);
  }

  // ---------------------------------------------------------------- joining

  /** The wrapper of task `k` has been invoked at most once. */
  ghost predicate InvokedOnce(s: Region, k: nat) {
    forall c, d :: 0 <= c < d < |s.calls| ==> s.calls[c].task != k || s.calls[d].task != k
  }

  ghost predicate Aborted(s: Region) {
    s.spawner.Aborting? || s.spawner.Joining? || s.spawner.Gone?
  }

  /** Some copy of task `k` was allowed to run it. */
  ghost predicate HasRun(s: Region, k: nat) {
    exists c :: 0 <= c < |s.calls| && s.calls[c].task == k && s.calls[c].ran
  }

  /** Some copy of task `k` has returned. */
  ghost predicate HasLeft(s: Region, k: nat) {
    exists c :: 0 <= c < |s.calls| && s.calls[c].task == k && s.calls[c].phase == Left
  }

  /** What the masks say about the bodies, however often wrappers are invoked. */
  ghost predicate Accounted(s: Region) {
    && (forall k: nat :: k < |s.tasks| && !PendingBit(s.chain, k) ==> HasLeft(s, k))
    && (!Aborted(s) ==> forall k: nat :: k < Dispatched(s) && !ReadyBit(s.chain, k) ==> HasRun(s, k))
  }

  lemma FreshRegionAccounted()
    ensures Accounted(FreshRegion)
  {
  }

  /** Calls are only added, keep their task, and move from phase to phase. */
  lemma CallsGrow(s: Region, a: Action)
    requires Inv(s) && Enabled(s, a)
    ensures |s.calls| <= |Apply(s, a).calls|
    ensures forall c :: 0 <= c < |s.calls| ==> Apply(s, a).calls[c].task == s.calls[c].task
    ensures forall c :: 0 <= c < |s.calls| && s.calls[c].ran ==> Apply(s, a).calls[c].ran
    ensures forall c :: 0 <= c < |s.calls| && s.calls[c].phase == Left ==> Apply(s, a).calls[c].phase == Left
  {
    hide SetPending, SetReadyBit, ClearReady, ClearPending, And, ReadyBit, PendingBit;
  }

  lemma HasRunStays(s: Region, a: Action, k: nat)
    requires Inv(s) && Enabled(s, a)
    ensures HasRun(s, k) ==> HasRun(Apply(s, a), k)
    ensures HasLeft(s, k) ==> HasLeft(Apply(s, a), k)
  {
    CallsGrow(s, a);
    hide Apply, Inv;
    if HasRun(s, k) {
      var c :| 0 <= c < |s.calls| && s.calls[c].task == k && s.calls[c].ran;
      assert Apply(s, a).calls[c].task == k;
    }
    if HasLeft(s, k) {
      var c :| 0 <= c < |s.calls| && s.calls[c].task == k && s.calls[c].phase == Left;
      assert Apply(s, a).calls[c].task == k;
    }
  }

  lemma EveryHasRunStays(s: Region, a: Action)
    requires Inv(s) && Enabled(s, a)
    ensures forall k: nat :: HasRun(s, k) ==> HasRun(Apply(s, a), k)
    ensures forall k: nat :: HasLeft(s, k) ==> HasLeft(Apply(s, a), k)
  {
    hide Apply, Inv, Enabled, HasRun, HasLeft;
    forall k: nat ensures HasRun(s, k) ==> HasRun(Apply(s, a), k)
                  ensures HasLeft(s, k) ==> HasLeft(Apply(s, a), k) {
      HasRunStays(s, a, k);
    }
  }

  lemma TestReadyAccounts(s: Region, c: nat)
    requires Inv(s) && Accounted(s) && Enabled(s, TestReady(c))
    ensures Accounted(Apply(s, TestReady(c)))
  {
    var s', t := Apply(s, TestReady(c)), s.calls[c].task;
    TestReadyKeeps(s, c);
    EveryHasRunStays(s, TestReady(c));
    hide Pow2, Bit, PendingBit, ReadyBit, ClearReady, And;
    assert s'.calls[c].task == t;
    if ReadyBit(s.chain, t) { assert HasRun(s', t); }
    hide HasRun, HasLeft;
  }

  lemma CompleteAccounts(s: Region, c: nat)
    requires Inv(s) && Accounted(s) && Enabled(s, Complete(c))
    ensures Accounted(Apply(s, Complete(c)))
  {
    var s', t := Apply(s, Complete(c)), s.calls[c].task;
    CompleteKeeps(s, c);
    EveryHasRunStays(s, Complete(c));
    hide Pow2, Bit, PendingBit, ReadyBit, ClearPending;
    assert s'.calls[c].task == t;
    assert HasLeft(s', t);
    hide HasRun, HasLeft;
  }

  /** A new task is pending, and it is not dispatched yet. */
  lemma SpawnAccounts(s: Region)
    requires Inv(s) && Accounted(s) && Enabled(s, Spawn)
    ensures Accounted(Apply(s, Spawn))
  {
    EveryHasRunStays(s, Spawn);
    SpawnKeeps(s);
    hide Inv, PendingBit, ReadyBit, SetPending, WithRoom, HasRun, HasLeft;
  }

  lemma SetReadyAccounts(s: Region)
    requires Inv(s) && Accounted(s) && Enabled(s, SetReady)
    ensures Accounted(Apply(s, SetReady))
  {
    EveryHasRunStays(s, SetReady);
    SetReadyKeeps(s);
    hide Inv, PendingBit, ReadyBit, SetReadyBit, HasRun, HasLeft;
  }

  /** The other steps clear at most a ready word, when the region is being aborted; a newly dispatched task is ready. */
  lemma OtherStepAccounts(s: Region, a: Action)
    requires Inv(s) && Accounted(s) && Enabled(s, a)
    requires !a.Spawn? && !a.SetReady? && !a.TestReady? && !a.Complete?
    ensures Accounted(Apply(s, a))
  {
    EveryHasRunStays(s, a);
    if a.AbortNode? { AbortNodeKeeps(s); }
    hide Numbered, MasksAgree, CallsAgree, StartedOnce, PendingBit, ReadyBit, HasRun, HasLeft;
  }

  /** Every step keeps the account. */
  lemma StepAccounts(s: Region, a: Action)
    requires Inv(s) && Accounted(s) && Enabled(s, a)
    ensures Accounted(Apply(s, a))
  {
    hide Inv, Accounted, Apply;
    match a
    case TestReady(c) => TestReadyAccounts(s, c);
    case Complete(c) => CompleteAccounts(s, c);
    case Spawn => SpawnAccounts(s);
    case SetReady => SetReadyAccounts(s);
    case _ => OtherStepAccounts(s, a);
  }

  lemma {:induction false} RunAccounts(s: Region, acts: seq<Action>)
    requires Inv(s) && Accounted(s) && Runs(s, acts)
    ensures Accounted(After(s, acts))
    decreases |acts|
  {
    hide Inv, Accounted, Apply;
    if acts != [] {
      StepKeeps(s, acts[0]);
      StepAccounts(s, acts[0]);
      RunAccounts(Apply(s, acts[0]), acts[1..]);
    }
  }

  /** The body of task `k` has run to its end. */
  ghost predicate Finished(s: Region, k: nat) {
    exists c :: 0 <= c < |s.calls| && s.calls[c].task == k && s.calls[c].ran
      && (s.calls[c].phase == Closing || s.calls[c].phase == Left)
  }

  lemma OnlyCopy(s: Region, k: nat, c: nat, d: nat)
    requires InvokedOnce(s, k) && c < |s.calls| && d < |s.calls|
    requires s.calls[c].task == k && s.calls[d].task == k
    ensures c == d
  {
  }

  /** When `wait` returns, every body given to `run` has finished whose wrapper was not invoked twice. */
  lemma WaitJoins(acts: seq<Action>, k: nat)
    requires Runs(FreshRegion, acts)
    requires var s := After(FreshRegion, acts); s.spawner == Waiting(0) && k < |s.tasks| && InvokedOnce(s, k)
    ensures Finished(After(FreshRegion, acts), k)
  {
    var s := After(FreshRegion, acts);
    FreshRegionInv();
    FreshRegionAccounted();
    RunKeeps(FreshRegion, acts);
    RunAccounts(FreshRegion, acts);
    hide After, Runs, PendingBit, ReadyBit;
    assert HasLeft(s, k) && HasRun(s, k);
    var c :| 0 <= c < |s.calls| && s.calls[c].task == k && s.calls[c].phase == Left;
    var d :| 0 <= d < |s.calls| && s.calls[d].task == k && s.calls[d].ran;
    OnlyCopy(s, k, c, d);
  }

  /**
    When the destructor returns, a task whose wrapper was not invoked twice is not running any more, and
    it has either finished or never starts in any continuation.
   */
  lemma DestructorJoins(acts: seq<Action>, k: nat, later: seq<Action>)
    requires Runs(FreshRegion, acts)
    requires var s := After(FreshRegion, acts); s.spawner == Gone && k < |s.tasks| && InvokedOnce(s, k)
    requires Runs(After(FreshRegion, acts), later)
    ensures var s := After(FreshRegion, acts);
            && (Finished(s, k) || k !in Started(After(s, later)))
            && (forall c :: 0 <= c < |s.calls| && s.calls[c].task == k ==> s.calls[c].phase == Left)
  {
    var s := After(FreshRegion, acts);
    FreshRegionInv();
    FreshRegionAccounted();
    RunKeeps(FreshRegion, acts);
    RunAccounts(FreshRegion, acts);
    NoStartAfterAbort(acts, later);
    hide After, Runs, PendingBit, ReadyBit;
    assert HasLeft(s, k);
    var d :| 0 <= d < |s.calls| && s.calls[d].task == k && s.calls[d].phase == Left;
    forall c | 0 <= c < |s.calls| && s.calls[c].task == k ensures s.calls[c].phase == Left {
      OnlyCopy(s, k, c, d);
    }
    if k in Started(s) {
      var c :| 0 <= c < |s.calls| && s.calls[c].ran && s.calls[c].task == k;
      assert s.calls[c].phase == Left;
    }
  }

  // ---------------------------------------------------------------- work for those who wait

  /** The task is still to be invoked, or one of its copies can take a step. */
  ghost predicate HasWork(s: Region, k: nat) {
    || (Enabled(s, Enter(k)) && forall c :: 0 <= c < |s.calls| ==> s.calls[c].task != k)
    || exists c: nat :: CanMove(s, k, c)
  }

  ghost predicate CanMove(s: Region, k: nat, c: nat) {
    && c < |s.calls| && s.calls[c].task == k
    && (Enabled(s, TestReady(c)) || Enabled(s, Finish(c)) || Enabled(s, Complete(c)))
  }

  /** Nobody is stuck with a pending task. */
  lemma PendingHasWork(s: Region, k: nat)
    requires Inv(s) && PendingBit(s.chain, k) && k < Dispatched(s)
    ensures HasWork(s, k)
  {
    assert s.tasks[k].node < |s.chain|;
    if c: nat :| c < |s.calls| && s.calls[c].task == k {
      assert s.calls[c].phase != Left;
      assert CanMove(s, k, c);
    }
  }

  lemma SomePending(chain: seq<Node>, j: nat) returns (k: nat)
    requires j < |chain| && chain[j].pending != 0
    ensures k / 32 == j && PendingBit(chain, k)
  {
    if forall i: nat :: i < 32 ==> !Bit(chain[j].pending, i) {
      NoBits(chain[j].pending);
    }
    var i: nat :| i < 32 && Bit(chain[j].pending, i);
    k := 32 * j + i;
  }

  /**
    A thread is held back, in `wait` or in the destructor, only by a pending word that is not zero, and
    then some task of that state is still to be invoked or a copy of it is on its way.
   */
  lemma BlockedHasWork(acts: seq<Action>) returns (k: nat)
    requires Runs(FreshRegion, acts)
    requires var s := After(FreshRegion, acts);
             && ((s.spawner.Waiting? && s.spawner.left > 0) || (s.spawner.Joining? && s.spawner.left > 0))
             && !Enabled(s, WaitNode) && !Enabled(s, JoinNode)
    ensures var s := After(FreshRegion, acts);
            k / 32 == s.spawner.left - 1 && PendingBit(s.chain, k) && HasWork(s, k)
  {
    var s := After(FreshRegion, acts);
    FreshRegionInv();
    RunKeeps(FreshRegion, acts);
    k := SomePending(s.chain, s.spawner.left - 1);
    PendingHasWork(s, k);
  }

  // ---------------------------------------------------------------- where the joins fail

  ghost predicate Leads(s: Region, acts: seq<Action>, e: Region) {
    Runs(s, acts) && After(s, acts) == e
  }

  lemma {:induction false} LeadsOn(s: Region, a: seq<Action>, m: Region, b: seq<Action>, e: Region)
    requires Leads(s, a, m) && Leads(m, b, e)
    ensures Leads(s, a + b, e)
    decreases |a|
  {
    hide Apply, Enabled;
    if a == [] {
      assert a + b == b;
    } else {
      assert (a + b)[1..] == a[1..] + b;
      LeadsOn(Apply(s, a[0]), a[1..], m, b, e);
    }
  }

  lemma OneStep(s: Region, a: Action)
    requires Enabled(s, a)
    ensures Leads(s, [a], Apply(s, a))
  {
    hide Apply, Enabled;
    var e := Apply(s, a);
    assert [a][1..] == [];
    assert Runs(e, []) && After(e, []) == e;
  }

  /** A step of a copy of task `k`, or the entry of a new one. */
  predicate StepOf(s: Region, a: Action, k: nat) {
    match a
    case Enter(m) => m == k
    case TestReady(c) => c < |s.calls| && s.calls[c].task == k
    case Finish(c) => c < |s.calls| && s.calls[c].task == k
    case Complete(c) => c < |s.calls| && s.calls[c].task == k
    case _ => false
  }

  /** From `s` to `e`, the thread that spawns and the tasks other than `k` have stayed where they were. */
  ghost predicate Only(s: Region, e: Region, k: nat) {
    && e.spawner == s.spawner && e.tasks == s.tasks && |s.calls| <= |e.calls|
    && (forall c :: 0 <= c < |s.calls| ==>
          e.calls[c].task == s.calls[c].task && (s.calls[c].task != k ==> e.calls[c] == s.calls[c]))
    && (forall c :: |s.calls| <= c < |e.calls| ==> e.calls[c].task == k)
    && (forall m: nat :: PendingBit(e.chain, m) ==> PendingBit(s.chain, m))
    && (forall m: nat :: m != k && PendingBit(s.chain, m) ==> PendingBit(e.chain, m))
  }

  lemma StepIsOnly(s: Region, a: Action, k: nat)
    requires Inv(s) && Enabled(s, a) && StepOf(s, a, k)
    ensures Inv(Apply(s, a)) && Only(s, Apply(s, a), k)
  {
    StepKeeps(s, a);
    if a.TestReady? { TestReadyKeeps(s, a.call); }
    if a.Complete? { CompleteKeeps(s, a.call); }
    hide Inv, PendingBit, ReadyBit, ClearReady, ClearPending, And;
  }

  lemma OnlyTwice(s: Region, m: Region, e: Region, k: nat)
    requires Only(s, m, k) && Only(m, e, k)
    ensures Only(s, e, k)
  {
    hide PendingBit;
  }

  /** A copy that has not returned is brought to its end. */
  lemma FinishCopy(s: Region, c: nat) returns (acts: seq<Action>, e: Region)
    requires Inv(s) && c < |s.calls| && s.calls[c].phase != Left
    ensures Leads(s, acts, e) && Inv(e) && Only(s, e, s.calls[c].task)
    ensures |e.calls| == |s.calls| && !PendingBit(e.chain, s.calls[c].task)
    ensures forall d :: 0 <= d < |s.calls| && d != c ==> e.calls[d] == s.calls[d]
    decreases if s.calls[c].phase.Entered? then 2 else if s.calls[c].phase.Running? then 1 else 0
  {
    var k := s.calls[c].task;
    assert k < |s.tasks| && s.tasks[k].node < |s.chain|;
    var a := if s.calls[c].phase.Entered? then TestReady(c)
             else if s.calls[c].phase.Running? then Finish(c) else Complete(c);
    var m := Apply(s, a);
    StepIsOnly(s, a, k);
    OneStep(s, a);
    if a.Complete? {
      CompleteKeeps(s, c);
      acts, e := [a], m;
    } else {
      assert m.calls[c].task == k && |m.calls| == |s.calls|;
      assert forall d :: 0 <= d < |s.calls| && d != c ==> m.calls[d] == s.calls[d];
      hide Inv, Apply, Enabled, Only, Leads;
      acts, e := FinishCopy(m, c);
      LeadsOn(s, [a], m, acts, e);
      OnlyTwice(s, m, e, k);
      acts := [a] + acts;
    }
  }

  /** A new copy of the wrapper of task `k`. */
  lemma EnterCopy(s: Region, k: nat) returns (acts: seq<Action>, e: Region)
    requires Inv(s) && k < Dispatched(s)
    ensures Leads(s, acts, e) && Inv(e) && Only(s, e, k)
    ensures e.chain == s.chain && e.calls == s.calls + [Call(k, Entered, false)]
  {
    StepIsOnly(s, Enter(k), k);
    OneStep(s, Enter(k));
    acts, e := [Enter(k)], Apply(s, Enter(k));
  }

  /** The first copy of a ready task starts its body. */
  lemma StartCopy(s: Region, k: nat) returns (acts: seq<Action>, e: Region)
    requires Inv(s) && k < Dispatched(s) && ReadyBit(s.chain, k)
    ensures Leads(s, acts, e) && Inv(e) && Only(s, e, k)
    ensures e.calls == s.calls + [Call(k, Running, true)] && PendingBit(e.chain, k)
  {
    var first, m := EnterCopy(s, k);
    var c := |s.calls|;
    assert s.tasks[k].node < |s.chain|;
    StepIsOnly(m, TestReady(c), k);
    OneStep(m, TestReady(c));
    TestReadyKeeps(m, c);
    e := Apply(m, TestReady(c));
    hide Inv, Apply, Enabled, Only, Leads, ReadyBit, PendingBit;
    LeadsOn(s, first, m, [TestReady(c)], e);
    OnlyTwice(s, m, e, k);
    acts := first + [TestReady(c)];
  }

  /** While a copy is in the body, another one goes past it and clears the pending bit. */
  lemma LateCopy(s: Region, c: nat) returns (acts: seq<Action>, e: Region)
    requires Inv(s) && c < |s.calls| && s.calls[c].phase.Running?
    ensures Leads(s, acts, e) && Inv(e) && Only(s, e, s.calls[c].task)
    ensures |e.calls| == |s.calls| + 1 && e.calls[c] == s.calls[c]
    ensures !PendingBit(e.chain, s.calls[c].task)
  {
    var k := s.calls[c].task;
    assert k < Dispatched(s);
    hide Inv, Only, Leads, ReadyBit, PendingBit;
    var first, m := EnterCopy(s, k);
    var rest;
    rest, e := FinishCopy(m, |s.calls|);
    LeadsOn(s, first, m, rest, e);
    OnlyTwice(s, m, e, k);
    acts := first + rest;
  }

  /**
    From `s` to `e` the spawning thread has not moved, tasks that were not pending have been left
    alone, and no wrapper has been invoked a second time.
   */
  ghost predicate Settles(s: Region, e: Region) {
    && e.spawner == s.spawner && e.tasks == s.tasks && |s.calls| <= |e.calls|
    && (forall c :: 0 <= c < |s.calls| && !PendingBit(s.chain, s.calls[c].task) ==> e.calls[c] == s.calls[c])
    && (forall c :: 0 <= c < |s.calls| ==> e.calls[c].task == s.calls[c].task)
    && (forall m: nat :: PendingBit(e.chain, m) ==> PendingBit(s.chain, m))
    && (forall m: nat :: InvokedOnce(s, m) ==> InvokedOnce(e, m))
  }

  lemma SettlesTwice(s: Region, m: Region, e: Region)
    requires Settles(s, m) && Settles(m, e)
    ensures Settles(s, e)
  {
    hide PendingBit, InvokedOnce;
  }

  lemma SameCallsSettle(s: Region, e: Region, k: nat)
    requires Only(s, e, k) && PendingBit(s.chain, k)
    requires |e.calls| == |s.calls|
             || (|e.calls| == |s.calls| + 1 && forall c :: 0 <= c < |s.calls| ==> s.calls[c].task != k)
    ensures Settles(s, e)
  {
    hide PendingBit;
    forall m: nat | InvokedOnce(s, m) ensures InvokedOnce(e, m) {
      forall c, d | 0 <= c < d < |e.calls| ensures e.calls[c].task != m || e.calls[d].task != m {
        if d < |s.calls| { assert s.calls[c].task != m || s.calls[d].task != m; }
      }
    }
  }

  /** A pending task is brought to its end by a copy on its way, or by its first one. */
  lemma SettleTask(s: Region, k: nat) returns (acts: seq<Action>, e: Region)
    requires Inv(s) && k < Dispatched(s) && PendingBit(s.chain, k)
    ensures Leads(s, acts, e) && Inv(e) && Settles(s, e) && !PendingBit(e.chain, k)
  {
    if c: nat :| c < |s.calls| && s.calls[c].task == k {
      assert s.calls[c].phase != Left;
      hide Inv, Leads, PendingBit, Settles;
      acts, e := FinishCopy(s, c);
      SameCallsSettle(s, e, k);
    } else {
      hide Inv, Leads, PendingBit, Settles;
      var first, m := EnterCopy(s, k);
      acts, e := FinishCopy(m, |s.calls|);
      LeadsOn(s, first, m, acts, e);
      OnlyTwice(s, m, e, k);
      SameCallsSettle(s, e, k);
      acts := first + acts;
    }
  }

  /** All tasks below `n` are brought to their end. */
  lemma {:induction false} SettleAll(s: Region, n: nat) returns (acts: seq<Action>, e: Region)
    requires Inv(s) && n <= Dispatched(s)
    ensures Leads(s, acts, e) && Inv(e) && Settles(s, e)
    ensures forall k: nat :: k < n ==> !PendingBit(e.chain, k)
    decreases n
  {
    hide Inv, PendingBit;
    if n == 0 {
      acts, e := [], s;
    } else {
      var m;
      acts, m := SettleAll(s, n - 1);
      assert Dispatched(m) == Dispatched(s);
      hide Leads, Settles;
      e := m;
      if PendingBit(m.chain, n - 1) {
        var more;
        more, e := SettleTask(m, n - 1);
        LeadsOn(s, acts, m, more, e);
        SettlesTwice(s, m, e);
        acts := acts + more;
        assert Settles(m, e);
      }
      StillSettled(m, e, n);
    }
  }

  lemma StillSettled(m: Region, e: Region, n: nat)
    requires n > 0 && (e == m || Settles(m, e)) && !PendingBit(e.chain, n - 1)
    requires forall k: nat :: k < n - 1 ==> !PendingBit(m.chain, k)
    ensures forall k: nat :: k < n ==> !PendingBit(e.chain, k)
  {
    hide PendingBit;
  }

  // ---------------------------------------------------------------- walking the chain

  lemma NothingPending(s: Region, j: nat)
    requires j < |s.chain| && forall k: nat :: !PendingBit(s.chain, k)
    ensures s.chain[j].pending == 0
  {
    if s.chain[j].pending != 0 {
      var k := SomePending(s.chain, j);
    }
  }

  /** With nothing pending, the walk of `wait` or of the destructor reaches the end of the chain. */
  lemma {:induction false} WalkPending(s: Region) returns (acts: seq<Action>, e: Region)
    requires Inv(s) && (s.spawner.Waiting? || s.spawner.Joining?)
    requires forall k: nat :: !PendingBit(s.chain, k)
    ensures Leads(s, acts, e) && Inv(e) && e.calls == s.calls && e.tasks == s.tasks && e.chain == s.chain
    ensures e.spawner == if s.spawner.Waiting? then Waiting(0) else Joining(0)
    decreases s.spawner.left
  {
    hide PendingBit;
    if s.spawner.left == 0 {
      acts, e := [], s;
    } else {
      var a := if s.spawner.Waiting? then WaitNode else JoinNode;
      NothingPending(s, s.spawner.left - 1);
      OneStep(s, a);
      StepKeeps(s, a);
      var m := Apply(s, a);
      hide Inv, Leads;
      acts, e := WalkPending(m);
      LeadsOn(s, [a], m, acts, e);
      acts := [a] + acts;
    }
  }

  lemma {:induction false} WalkAbort(s: Region) returns (acts: seq<Action>, e: Region)
    requires Inv(s) && s.spawner.Aborting? && forall k: nat :: !PendingBit(s.chain, k)
    ensures Leads(s, acts, e) && Inv(e) && e.calls == s.calls && e.tasks == s.tasks && e.spawner == Aborting(0)
    ensures forall k: nat :: !PendingBit(e.chain, k)
    decreases s.spawner.left
  {
    hide PendingBit;
    if s.spawner.left == 0 {
      acts, e := [], s;
    } else {
      OneStep(s, AbortNode);
      AbortNodeKeeps(s);
      var m := Apply(s, AbortNode);
      hide Inv, Leads;
      acts, e := WalkAbort(m);
      LeadsOn(s, [AbortNode], m, acts, e);
      acts := [AbortNode] + acts;
    }
  }

  lemma ToWaitEnd(s: Region) returns (acts: seq<Action>, e: Region)
    requires Inv(s) && s.spawner.Idle? && forall k: nat :: !PendingBit(s.chain, k)
    ensures Leads(s, acts, e) && e.calls == s.calls && e.spawner == Waiting(0)
  {
    hide PendingBit;
    OneStep(s, WaitBegin);
    StepKeeps(s, WaitBegin);
    var m := Apply(s, WaitBegin);
    hide Inv, Leads;
    acts, e := WalkPending(m);
    LeadsOn(s, [WaitBegin], m, acts, e);
    acts := [WaitBegin] + acts;
  }

  /** The destructor's way from its joining walk to its end. */
  lemma JoinToGone(s: Region) returns (acts: seq<Action>, e: Region)
    requires Inv(s) && s.spawner.Joining? && forall k: nat :: !PendingBit(s.chain, k)
    ensures Leads(s, acts, e) && e.calls == s.calls && e.tasks == s.tasks && e.spawner == Gone
  {
    hide Inv, PendingBit, Leads;
    var walk, m := WalkPending(s);
    OneStep(m, JoinEnd);
    e := Apply(m, JoinEnd);
    LeadsOn(s, walk, m, [JoinEnd], e);
    acts := walk + [JoinEnd];
  }

  /** And from the end of its abort walk. */
  lemma JoinAborted(s: Region) returns (acts: seq<Action>, e: Region)
    requires Inv(s) && s.spawner == Aborting(0) && forall k: nat :: !PendingBit(s.chain, k)
    ensures Leads(s, acts, e) && e.calls == s.calls && e.tasks == s.tasks && e.spawner == Gone
  {
    OneStep(s, AbortEnd);
    StepKeeps(s, AbortEnd);
    var m := Apply(s, AbortEnd);
    hide Inv, Leads, PendingBit;
    acts, e := JoinToGone(m);
    LeadsOn(s, [AbortEnd], m, acts, e);
    acts := [AbortEnd] + acts;
  }

  lemma ToGone(s: Region) returns (acts: seq<Action>, e: Region)
    requires Inv(s) && s.spawner.Idle? && forall k: nat :: !PendingBit(s.chain, k)
    ensures Leads(s, acts, e) && e.calls == s.calls && e.tasks == s.tasks && e.spawner == Gone
  {
    hide PendingBit, Leads;
    var s1 := Apply(s, DestroyBegin);
    OneStep(s, DestroyBegin);
    StepKeeps(s, DestroyBegin);
    hide Inv;
    var abort, s2 := WalkAbort(s1);
    var join, s3 := JoinAborted(s2);
    LeadsOn(s, [DestroyBegin], s1, abort, s2);
    LeadsOn(s, [DestroyBegin] + abort, s2, join, s3);
    acts, e := [DestroyBegin] + abort + join, s3;
  }

  /** Everything is brought to its end, and no wrapper is invoked a second time for it. */
  lemma Settle(s: Region) returns (acts: seq<Action>, e: Region)
    requires Inv(s) && !s.spawner.HalfTracked? && !s.spawner.Tracked?
    ensures Leads(s, acts, e) && Inv(e) && Settles(s, e) && forall k: nat :: !PendingBit(e.chain, k)
  {
    hide PendingBit, Leads, InvokedOnce;
    acts, e := SettleAll(s, |s.tasks|);
    assert e.tasks == s.tasks;
    assert forall k: nat :: PendingBit(e.chain, k) ==> k < |e.tasks|;
  }

  /**
    A join can always complete: from every reachable state in which a thread waits or the destructor
    joins, some continuation lets it return, and no wrapper is invoked a second time for that.
   */
  lemma JoinCanComplete(before: seq<Action>) returns (acts: seq<Action>)
    requires Runs(FreshRegion, before)
    requires var s := After(FreshRegion, before); s.spawner.Waiting? || s.spawner.Joining?
    ensures var s := After(FreshRegion, before);
            && Runs(s, acts)
            && var e := After(s, acts);
               && e.spawner == (if s.spawner.Waiting? then Waiting(0) else Joining(0))
               && forall m: nat :: InvokedOnce(s, m) ==> InvokedOnce(e, m)
  {
    var s := After(FreshRegion, before);
    FreshRegionInv();
    RunKeeps(FreshRegion, before);
    hide Inv, PendingBit, InvokedOnce;
    var run, m := Settle(s);
    var rest, e := WalkPending(m);
    LeadsOn(s, run, m, rest, e);
    acts := run + rest;
    SameCalls(m, e);
  }

  /** While copy `c` is in the body, another copy of its wrapper and the end of all else leave nothing pending. */
  lemma RunningUnseen(s: Region, c: nat) returns (acts: seq<Action>, e: Region)
    requires Inv(s) && !s.spawner.HalfTracked? && !s.spawner.Tracked? && c < |s.calls| && s.calls[c].phase.Running?
    ensures Leads(s, acts, e) && Inv(e) && e.spawner == s.spawner
    ensures c < |e.calls| && e.calls[c] == s.calls[c]
    ensures forall m: nat :: !PendingBit(e.chain, m)
    ensures forall m: nat :: m != s.calls[c].task && InvokedOnce(s, m) ==> InvokedOnce(e, m)
  {
    hide Inv, PendingBit, Leads, InvokedOnce;
    var first, m := LateCopy(s, c);
    OthersInvokedOnce(s, m, s.calls[c].task);
    var rest;
    rest, e := Settle(m);
    LeadsOn(s, first, m, rest, e);
    acts := first + rest;
  }

  lemma OthersInvokedOnce(s: Region, e: Region, k: nat)
    requires Only(s, e, k)
    ensures forall m: nat :: m != k && InvokedOnce(s, m) ==> InvokedOnce(e, m)
  {
    hide PendingBit;
    forall m: nat | m != k && InvokedOnce(s, m) ensures InvokedOnce(e, m) {
      forall c, d | 0 <= c < d < |e.calls| ensures e.calls[c].task != m || e.calls[d].task != m {
        if d < |s.calls| { assert s.calls[c].task != m || s.calls[d].task != m; }
      }
    }
  }

  /** `e` is `s` with copy `c` still in the body, and no other wrapper invoked a second time. */
  ghost predicate StillRunning(s: Region, c: nat, e: Region) {
    && c < |s.calls| && c < |e.calls| && e.calls[c] == s.calls[c] && e.calls[c].phase.Running?
    && forall m: nat :: m != s.calls[c].task && InvokedOnce(s, m) ==> InvokedOnce(e, m)
  }

  /**
    The proviso of `WaitJoins` is about this very task: whenever a copy of its wrapper is in the body and
    the spawning thread is free or waiting, a later copy admits a run in which `wait` returns with the
    body still running, although no other wrapper is invoked a second time for it.
   */
  lemma LaterCopyReleasesWait(before: seq<Action>, c: nat) returns (acts: seq<Action>)
    requires Runs(FreshRegion, before)
    requires var s := After(FreshRegion, before);
             (s.spawner.Idle? || s.spawner.Waiting?) && c < |s.calls| && s.calls[c].phase.Running?
    ensures var s := After(FreshRegion, before);
            && Runs(s, acts)
            && After(s, acts).spawner == Waiting(0) && StillRunning(s, c, After(s, acts))
  {
    var s := After(FreshRegion, before);
    FreshRegionInv();
    RunKeeps(FreshRegion, before);
    hide Inv, PendingBit, InvokedOnce;
    var run, m := RunningUnseen(s, c);
    var rest, e;
    if s.spawner.Idle? { rest, e := ToWaitEnd(m); } else { rest, e := WalkPending(m); }
    LeadsOn(s, run, m, rest, e);
    acts := run + rest;
    SameCalls(m, e);
  }

  /** The same for the destructor, begun or not. */
  lemma LaterCopyReleasesDestructor(before: seq<Action>, c: nat) returns (acts: seq<Action>)
    requires Runs(FreshRegion, before)
    requires var s := After(FreshRegion, before);
             (s.spawner.Idle? || s.spawner.Joining?) && c < |s.calls| && s.calls[c].phase.Running?
    ensures var s := After(FreshRegion, before);
            && Runs(s, acts)
            && After(s, acts).spawner == Gone && StillRunning(s, c, After(s, acts))
  {
    var s := After(FreshRegion, before);
    FreshRegionInv();
    RunKeeps(FreshRegion, before);
    hide Inv, PendingBit, InvokedOnce;
    var run, m := RunningUnseen(s, c);
    var rest, e;
    if s.spawner.Idle? { rest, e := ToGone(m); } else { rest, e := JoinToGone(m); }
    LeadsOn(s, run, m, rest, e);
    acts := run + rest;
    SameCalls(m, e);
  }

  /** The body of `k` is still running in a copy entered after `s`, and no other wrapper is invoked a second time. */
  ghost predicate NewlyRunning(s: Region, k: nat, e: Region) {
    && |s.calls| < |e.calls| && e.calls[|s.calls|] == Call(k, Running, true)
    && forall m: nat :: m != k && InvokedOnce(s, m) ==> InvokedOnce(e, m)
  }

  lemma StartedIsNew(s: Region, k: nat, m: Region, e: Region)
    requires Only(s, m, k) && m.calls == s.calls + [Call(k, Running, true)] && StillRunning(m, |s.calls|, e)
    ensures NewlyRunning(s, k, e)
  {
    OthersInvokedOnce(s, m, k);
    hide Only, InvokedOnce;
  }

  /** So two copies are enough wherever the spawning thread is free and the task is still ready. */
  lemma SecondCopyReleasesWait(before: seq<Action>, k: nat) returns (acts: seq<Action>)
    requires Runs(FreshRegion, before)
    requires var s := After(FreshRegion, before); s.spawner.Idle? && k < |s.tasks| && ReadyBit(s.chain, k)
    ensures var s := After(FreshRegion, before);
            && Runs(s, acts)
            && After(s, acts).spawner == Waiting(0) && NewlyRunning(s, k, After(s, acts))
  {
    var s := After(FreshRegion, before);
    FreshRegionInv();
    RunKeeps(FreshRegion, before);
    var first, m := StartCopy(s, k);
    assert m.spawner == s.spawner;
    assert Leads(FreshRegion, before, s);
    hide Inv, StillRunning, NewlyRunning, ReadyBit, PendingBit, Only;
    LeadsOn(FreshRegion, before, s, first, m);
    var rest := LaterCopyReleasesWait(before + first, |s.calls|);
    var e := After(m, rest);
    StartedIsNew(s, k, m, e);
    LeadsOn(s, first, m, rest, e);
    acts := first + rest;
  }

  /** The same for the destructor: it returns with the body still running. */
  lemma SecondCopyReleasesDestructor(before: seq<Action>, k: nat) returns (acts: seq<Action>)
    requires Runs(FreshRegion, before)
    requires var s := After(FreshRegion, before); s.spawner.Idle? && k < |s.tasks| && ReadyBit(s.chain, k)
    ensures var s := After(FreshRegion, before);
            && Runs(s, acts)
            && After(s, acts).spawner == Gone && NewlyRunning(s, k, After(s, acts))
  {
    var s := After(FreshRegion, before);
    FreshRegionInv();
    RunKeeps(FreshRegion, before);
    var first, m := StartCopy(s, k);
    assert m.spawner == s.spawner;
    assert Leads(FreshRegion, before, s);
    hide Inv, StillRunning, NewlyRunning, ReadyBit, PendingBit, Only;
    LeadsOn(FreshRegion, before, s, first, m);
    var rest := LaterCopyReleasesDestructor(before + first, |s.calls|);
    var e := After(m, rest);
    StartedIsNew(s, k, m, e);
    LeadsOn(s, first, m, rest, e);
    acts := first + rest;
  }

  lemma SameCalls(m: Region, e: Region)
    requires m.calls == e.calls
    ensures forall k: nat :: InvokedOnce(m, k) ==> InvokedOnce(e, k)
  {
  }

  // ---------------------------------------------------------------- the region stays usable

  /** An undisturbed `run`. */
  lemma RunOnce(s: Region) returns (acts: seq<Action>, e: Region)
    requires Inv(s) && s.spawner.Idle?
    ensures Leads(s, acts, e) && Inv(e) && e.spawner.Idle? && e.calls == s.calls
    ensures e.tasks == s.tasks + [Slot(|s.tasks|)] && ReadyBit(e.chain, |s.tasks|)
  {
    var s1 := Apply(s, Spawn);
    OneStep(s, Spawn);
    SpawnKeeps(s);
    var s2 := Apply(s1, SetReady);
    OneStep(s1, SetReady);
    SetReadyKeeps(s1);
    e := Apply(s2, Dispatch);
    OneStep(s2, Dispatch);
    StepKeeps(s2, Dispatch);
    assert e.chain == s2.chain && e.tasks[|s.tasks|] == Slot(|s.tasks|);
    hide Inv, ReadyBit, PendingBit, Leads;
    LeadsOn(s, [Spawn], s1, [SetReady], s2);
    LeadsOn(s, [Spawn] + [SetReady], s2, [Dispatch], e);
    acts := [Spawn] + [SetReady] + [Dispatch];
  }

  /** A wait brought to its end: the thread is free again, and nothing is pending. */
  lemma FinishWait(s: Region) returns (acts: seq<Action>, e: Region)
    requires Inv(s) && s.spawner.Waiting?
    ensures Leads(s, acts, e) && Inv(e) && e.spawner.Idle? && e.tasks == s.tasks
    ensures forall m: nat :: InvokedOnce(s, m) ==> InvokedOnce(e, m)
    ensures forall k: nat :: !PendingBit(e.chain, k)
  {
    hide Inv, PendingBit, InvokedOnce, Leads;
    var run, m := Settle(s);
    var walk, n := WalkPending(m);
    OneStep(n, WaitEnd);
    StepKeeps(n, WaitEnd);
    e := Apply(n, WaitEnd);
    LeadsOn(s, run, m, walk, n);
    LeadsOn(s, run + walk, n, [WaitEnd], e);
    acts := run + walk + [WaitEnd];
    SameCalls(m, e);
  }

  lemma WaitOnce(s: Region) returns (acts: seq<Action>, e: Region)
    requires Inv(s) && s.spawner.Idle?
    ensures Leads(s, acts, e) && Inv(e) && e.spawner.Idle? && e.tasks == s.tasks
    ensures forall m: nat :: InvokedOnce(s, m) ==> InvokedOnce(e, m)
  {
    hide PendingBit, InvokedOnce, Leads;
    OneStep(s, WaitBegin);
    StepKeeps(s, WaitBegin);
    var m := Apply(s, WaitBegin);
    SameCalls(s, m);
    hide Inv;
    var rest;
    rest, e := FinishWait(m);
    LeadsOn(s, [WaitBegin], m, rest, e);
    acts := [WaitBegin] + rest;
  }

  /** What the user of a region asks of it. */
  datatype Request = RunTask | WaitForAll

  function RunCount(requests: seq<Request>): nat {
    if requests == [] then 0 else (if requests[0].RunTask? then 1 else 0) + RunCount(requests[1..])
  }

  lemma {:induction false} ServeRequests(s: Region, requests: seq<Request>) returns (acts: seq<Action>, e: Region)
    requires Inv(s) && s.spawner.Idle?
    ensures Leads(s, acts, e) && Inv(e) && e.spawner.Idle?
    ensures s.tasks <= e.tasks && |e.tasks| == |s.tasks| + RunCount(requests)
    ensures forall m: nat :: InvokedOnce(s, m) ==> InvokedOnce(e, m)
    decreases |requests|
  {
    hide Inv, PendingBit, ReadyBit, InvokedOnce;
    if requests == [] {
      acts, e := [], s;
    } else {
      hide Leads;
      var first, m;
      if requests[0].RunTask? {
        first, m := RunOnce(s);
        SameCalls(s, m);
      } else {
        first, m := WaitOnce(s);
      }
      acts, e := ServeRequests(m, requests[1..]);
      LeadsOn(s, first, m, acts, e);
      acts := first + acts;
    }
  }

  /** From a free thread the destructor can run to its end. */
  lemma Destroy(s: Region) returns (acts: seq<Action>, e: Region)
    requires Inv(s) && s.spawner.Idle?
    ensures Leads(s, acts, e) && e.spawner == Gone && e.tasks == s.tasks
  {
    hide Inv, PendingBit, InvokedOnce, Leads;
    var run, m := Settle(s);
    var rest;
    rest, e := ToGone(m);
    LeadsOn(s, run, m, rest, e);
    acts := run + rest;
  }

  /**
    A region can be used for as long as its user likes: from every reachable state in which the thread is
    free, any list of `run` and `wait` calls can be served one after the other, with no task lost and no
    wrapper invoked a second time, and then the destructor can run to its end.
   */
  lemma RegionServes(before: seq<Action>, requests: seq<Request>) returns (acts: seq<Action>, destroy: seq<Action>)
    requires Runs(FreshRegion, before) && After(FreshRegion, before).spawner.Idle?
    ensures var s := After(FreshRegion, before);
            && Runs(s, acts)
            && var e := After(s, acts);
               && e.spawner.Idle? && s.tasks <= e.tasks && |e.tasks| == |s.tasks| + RunCount(requests)
               && (forall m: nat :: InvokedOnce(s, m) ==> InvokedOnce(e, m))
               && Runs(e, destroy) && After(e, destroy).spawner == Gone && After(e, destroy).tasks == e.tasks
  {
    var s := After(FreshRegion, before);
    FreshRegionInv();
    RunKeeps(FreshRegion, before);
    hide Inv, InvokedOnce;
    var e, gone;
    acts, e := ServeRequests(s, requests);
    destroy, gone := Destroy(e);
  }

  /**
    `wait` gives the region back: from every reachable state in which the thread waits, some continuation
    ends the wait, runs one more task and leaves the thread free with that task ready and the earlier tasks
    kept, and from there the destructor can run to its end.
   */
  lemma WaitGivesBack(before: seq<Action>) returns (acts: seq<Action>, destroy: seq<Action>)
    requires Runs(FreshRegion, before) && After(FreshRegion, before).spawner.Waiting?
    ensures var s := After(FreshRegion, before);
            && Runs(s, acts)
            && var e := After(s, acts);
               && e.spawner.Idle? && e.tasks == s.tasks + [Slot(|s.tasks|)] && ReadyBit(e.chain, |s.tasks|)
               && (forall m: nat :: InvokedOnce(s, m) ==> InvokedOnce(e, m))
               && Runs(e, destroy) && After(e, destroy).spawner == Gone && After(e, destroy).tasks == e.tasks
  {
    var s := After(FreshRegion, before);
    FreshRegionInv();
    RunKeeps(FreshRegion, before);
    hide Inv, PendingBit, ReadyBit, InvokedOnce;
    var wait, m := FinishWait(s);
    var run, e := RunOnce(m);
    LeadsOn(s, wait, m, run, e);
    acts := wait + run;
    SameCalls(m, e);
    var gone;
    destroy, gone := Destroy(e);
  }

  /** A wait that has seen every state of the chain returns, and changes nothing else. */
  lemma WaitReturns(before: seq<Action>)
    requires Runs(FreshRegion, before) && After(FreshRegion, before).spawner == Waiting(0)
    ensures var s := After(FreshRegion, before);
            Runs(s, [WaitEnd]) && After(s, [WaitEnd]) == Region(s.chain, s.nextId, s.tasks, s.calls, Idle)
  {
    OneStep(After(FreshRegion, before), WaitEnd);
  }

  /** Workers need no leave of the spawning thread: any dispatched wrapper can be invoked, any copy can go on. */
  lemma WorkersAreFree(before: seq<Action>, k: nat, c: nat)
    requires Runs(FreshRegion, before)
    ensures var s := After(FreshRegion, before);
            && (Enabled(s, Enter(k)) <==>
                  k < |s.tasks| && !((s.spawner.HalfTracked? || s.spawner.Tracked?) && k == |s.tasks| - 1))
            && (Enabled(s, TestReady(c)) <==> c < |s.calls| && s.calls[c].phase == Entered)
            && (Enabled(s, Finish(c)) <==> c < |s.calls| && s.calls[c].phase == Running)
            && (Enabled(s, Complete(c)) <==> c < |s.calls| && s.calls[c].phase == Closing)
  {
    FreshRegionInv();
    RunKeeps(FreshRegion, before);
    var s := After(FreshRegion, before);
    hide PendingBit, ReadyBit, Runs, After;
    if c < |s.calls| { assert s.tasks[s.calls[c].task] == Slot(s.calls[c].task); }
  }

  /** The next step of the spawning thread is open to it, except a visit to a state with pending tasks. */
  ghost predicate ThreadCanStep(s: Region) {
    match s.spawner
    case Idle => Enabled(s, Spawn) && Enabled(s, WaitBegin) && Enabled(s, DestroyBegin)
    case HalfTracked => Enabled(s, SetReady)
    case Tracked => Enabled(s, Dispatch)
    case Waiting(left) =>
      left <= |s.chain| &&
      if left == 0 then Enabled(s, WaitEnd) else Enabled(s, WaitNode) <==> s.chain[left - 1].pending == 0
    case Aborting(left) => if left == 0 then Enabled(s, AbortEnd) else Enabled(s, AbortNode)
    case Joining(left) =>
      left <= |s.chain| &&
      if left == 0 then Enabled(s, JoinEnd) else Enabled(s, JoinNode) <==> s.chain[left - 1].pending == 0
    case Gone => true
  }

  lemma InvariantOpensStep(s: Region)
    requires Inv(s)
    ensures ThreadCanStep(s)
  {
    hide MasksAgree, CallsAgree, StartedOnce, PendingBit, ReadyBit, Pow2, NextId;
    if s.spawner.HalfTracked? { assert s.tasks[|s.tasks| - 1] == Slot(|s.tasks| - 1); }
  }

  /** The spawning thread can always take a step, unless the region is gone or it joins a state with pending tasks. */
  lemma SpawnerMoves(before: seq<Action>)
    requires Runs(FreshRegion, before)
    ensures ThreadCanStep(After(FreshRegion, before))
  {
    hide Inv, ThreadCanStep;
    FreshRegionInv();
    RunKeeps(FreshRegion, before);
    InvariantOpensStep(After(FreshRegion, before));
  }

  /** Every undisturbed `run` leaves its task ready. */
  lemma RunLeavesReady(before: seq<Action>) returns (acts: seq<Action>)
    requires Runs(FreshRegion, before) && After(FreshRegion, before).spawner.Idle?
    ensures var s := After(FreshRegion, before);
            && Runs(s, acts)
            && var e := After(s, acts);
               e.spawner.Idle? && |e.tasks| == |s.tasks| + 1 && ReadyBit(e.chain, |s.tasks|)
  {
    FreshRegionInv();
    RunKeeps(FreshRegion, before);
    hide Inv, ReadyBit;
    var e;
    acts, e := RunOnce(After(FreshRegion, before));
  }
}
