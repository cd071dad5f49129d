/**
  The objects of task_region.h: `task_region_handle::state`, its atomic operations, and
  `task_region_handle::run`. Each method, executed without interruption, is a sequence of the
  protocol steps of module TaskRegion.
 */
module TaskRegionObjects {
  import opened Bits
  import opened TaskRegion

  /** `run` on a group with threads: three steps of the spawning thread. */
  function RunSteps(s: Region): Region
    requires s.spawner.Idle?
  {
    var s1 := Apply(s, Spawn);
    var s2 := Apply(s1, SetReady);
    Apply(s2, Dispatch)
  }

  /** A copy of the wrapper of task `k` from entry to return. */
  function InvokeSteps(s: Region, k: nat): Region
    requires k < Dispatched(s) && s.tasks[k].node < |s.chain|
  {
    var c := |s.calls|;
    var s1 := Apply(s, Enter(k));
    var s2 := Apply(s1, TestReady(c));
    var s3 := if s2.calls[c].ran then Apply(s2, Finish(c)) else s2;
    Apply(s3, Complete(c))
  }

  /** The masks after `track_id` on the newest state. */
  ghost function LastTracked(masks: seq<Node>, id: Mask): seq<Node>
    requires |masks| > 0
  {
    var j := |masks| - 1;
    masks[j := Node(SetBits(masks[j].ready, id), SetBits(masks[j].pending, id))]
  }

  /** The three steps of `run` at once: both bits of the new task set, everything else as it was. */
  lemma RunStepsForm(s: Region)
    requires s.spawner.Idle?
    ensures var (chain, id) := WithRoom(s);
            RunSteps(s) == Region(
              LastTracked(chain, id), ShiftId(id), s.tasks + [TaskId(|chain| - 1, id)], s.calls, Idle)
  {
    hide SetBits, ShiftId;
  }

  /** A whole invocation: the task's ready and pending bits are cleared, and the copy ran if the ready bit was set. */
  lemma InvokeStepsForm(s: Region, k: nat)
    requires k < Dispatched(s) && s.tasks[k].node < |s.chain|
    ensures var t := s.tasks[k];
            var node := s.chain[t.node];
            InvokeSteps(s, k) == s.(
              chain := s.chain[t.node := Node(ClearBits(node.ready, t.id), ClearBits(node.pending, t.id))],
              calls := s.calls + [Call(k, Left, And(node.ready, t.id) != 0)])
  {
    hide ClearBits, And;
  }

  /** The destructor's walk over the chain. */
  function AbortSteps(s: Region): (r: Region)
    requires s.spawner.Aborting? && s.spawner.left <= |s.chain|
    ensures r.spawner == Aborting(0) && |r.chain| == |s.chain|
    ensures r.tasks == s.tasks && r.calls == s.calls && r.nextId == s.nextId
    ensures forall j :: 0 <= j < |s.chain| ==>
              r.chain[j] == if j < s.spawner.left then s.chain[j].(ready := 0) else s.chain[j]
    decreases s.spawner.left
  {
    if s.spawner.left == 0 then s else AbortSteps(Apply(s, AbortNode))
  }

  lemma RunStepsKeep(s: Region)
    requires Inv(s) && s.spawner.Idle?
    ensures Inv(RunSteps(s)) && RunSteps(s).spawner.Idle?
    ensures RunSteps(s).tasks == s.tasks + [Slot(|s.tasks|)] && RunSteps(s).calls == s.calls
  {
    SpawnKeeps(s);
    var s1 := Apply(s, Spawn);
    SetReadyKeeps(s1);
    SpawnerStepKeeps(Apply(s1, SetReady), Dispatch);
    assert RunSteps(s).tasks[|s.tasks|] == Slot(|s.tasks|);
  }

  class State {
    const next: State?
    var ready: Mask
    var pending: Mask
    /** This state and those behind it, the oldest first. */
    ghost const chain: seq<State>

    ghost predicate Linked()
      decreases |chain|
    {
      && |chain| > 0 && chain[|chain| - 1] == this
      && (forall i, j :: 0 <= i < j < |chain| ==> chain[i] != chain[j])
      && if next == null then |chain| == 1 else next.chain == chain[..|chain| - 1] && next.Linked()
    }

    constructor (nextSrc: State?)
      requires nextSrc != null ==> nextSrc.Linked()
      ensures Linked() && next == nextSrc && ready == 0 && pending == 0
      ensures chain == (if nextSrc == null then [] else nextSrc.chain) + [this]
    {
      next := nextSrc;
      ready := 0;
      pending := 0;
      chain := (if nextSrc == null then [] else nextSrc.chain) + [this];
    }

    method TrackId(taskId: Mask)
      modifies this
      ensures pending == SetBits(old(pending), taskId) && ready == SetBits(old(ready), taskId)
    {
      pending := SetBits(pending, taskId);
      ready := SetBits(ready, taskId);
    }

    method CanRun(taskId: Mask) returns (can: bool)
      modifies this`ready
      ensures can <==> And(old(ready), taskId) != 0
      ensures ready == ClearBits(old(ready), taskId)
    {
      var before := ready;
      ready := ClearBits(ready, taskId);
      can := And(before, taskId) != 0;
    }

    method MarkCompleted(taskId: Mask)
      modifies this`pending
      ensures pending == ClearBits(old(pending), taskId)
    {
      pending := ClearBits(pending, taskId);
    }

    /** Clears `ready` on this state and on every one behind it. */
    method Abort()
      requires Linked()
      modifies chain
      ensures forall s :: s in chain ==> s.ready == 0 && s.pending == old(s.pending)
    {
      var current: State? := this;
      ghost var left := |chain|;
      while current != null
        invariant 0 <= left <= |chain|
        invariant current == null <==> left == 0
        invariant current != null ==> current.Linked() && current.chain == chain[..left]
        invariant forall i :: left <= i < |chain| ==> chain[i].ready == 0
        invariant forall i :: 0 <= i < |chain| ==> chain[i].pending == old(chain[i].pending)
        decreases left
      {
        assert chain[left - 1] == current && current in chain;
        current.ready := 0;
        current := current.next;
        left := left - 1;
      }
    }
  }

  /** A wrapped task in the group's queue; `f` names its body. */
  datatype Wrapper = Wrapper(taskId: Mask, st: State, f: nat)

  ghost function Masks(chain: seq<State>): (r: seq<Node>)
    reads chain
    ensures |r| == |chain|
    ensures forall j :: 0 <= j < |chain| ==> r[j] == Node(chain[j].ready, chain[j].pending)
  {
    if chain == [] then []
    else Masks(chain[..|chain| - 1]) + [Node(chain[|chain| - 1].ready, chain[|chain| - 1].pending)]
  }

  /** Only one state of the chain differs from what `before` says. */
  lemma MasksWithUpdate(chain: seq<State>, before: seq<Node>, j: nat)
    requires |chain| == |before| && j < |chain|
    requires forall i :: 0 <= i < |chain| && i != j ==> before[i] == Node(chain[i].ready, chain[i].pending)
    ensures Masks(chain) == before[j := Node(chain[j].ready, chain[j].pending)]
  {
    hide Masks;
  }

  class TaskRegionHandle {
    var st: State?
    var nextId: Mask
    const threadCount: nat
    /** What `dispatch` has handed to the group so far, in order; `tasks` says the same by positions in the chain. */
    var dispatched: seq<Wrapper>
    ghost var tasks: seq<TaskId>
    /** Bodies that were run at once, in order. */
    var executed: seq<nat>

    ghost function Chain(): seq<State>
      reads this
    {
      if st == null then [] else st.chain
    }

    ghost predicate Valid()
      reads this
    {
      && (st != null ==> st.Linked())
      && |tasks| == |dispatched|
      && forall k :: 0 <= k < |tasks| ==>
           && tasks[k].node < |Chain()| && dispatched[k].st == Chain()[tasks[k].node]
           && dispatched[k].taskId == tasks[k].id
    }

    /** The protocol state, given the copies of wrappers in progress. */
    ghost function View(calls: seq<Call>): Region
      reads this, Chain()
    {
      Region(Masks(Chain()), nextId, tasks, calls, Idle)
    }

    /** The protocol state after an uninterrupted copy of the `k`-th dispatched wrapper. */
    ghost function Invoked(k: nat, calls: seq<Call>): Region
      requires Valid() && k < |dispatched|
      reads this, Chain()
    {
      hide Masks;
      InvokeSteps(View(calls), k)
    }

    constructor (count: nat)
      ensures Valid() && threadCount == count && executed == []
      ensures st == null && View([]) == FreshRegion
    {
      st, nextId, threadCount := null, 0, count;
      dispatched, tasks, executed := [], [], [];
    }

    /** The body of `create_state`: a new state in front of the chain. */
    method CreateState()
      requires Valid()
      modifies this`st, this`nextId
      ensures Valid() && st != null && nextId == 1 && fresh(st)
      ensures Chain() == old(Chain()) + [st]
      ensures Masks(Chain()) == old(Masks(Chain())) + [Node(0, 0)]
    {
      st := new State(st);
      nextId := 1;
      assert forall j :: 0 <= j < |old(Chain())| ==> Chain()[j] == old(Chain())[j];
    }

    /** The part of `run` after a state with room has been found. */
    method TrackAndDispatch(f: nat)
      requires Valid() && st != null
      modifies this`nextId, this`dispatched, this`tasks, st
      ensures Valid() && nextId == ShiftId(old(nextId))
      ensures dispatched == old(dispatched) + [Wrapper(old(nextId), st, f)]
      ensures tasks == old(tasks) + [TaskId(|Chain()| - 1, old(nextId))]
      ensures Masks(Chain()) == LastTracked(old(Masks(Chain())), old(nextId))
    {
      ghost var before := Masks(Chain());
      var thisId := nextId;
      nextId := ShiftId(nextId);
      st.TrackId(thisId);
      dispatched := dispatched + [Wrapper(thisId, st, f)];
      tasks := tasks + [TaskId(|Chain()| - 1, thisId)];
      MasksWithUpdate(Chain(), before, |Chain()| - 1);
    }

    /** Before a task is tracked: a new state if there is none, or if its ids are used up. */
    method FindRoom()
      requires Valid()
      modifies this`st, this`nextId
      ensures Valid() && st != null
      ensures (Masks(Chain()), nextId) == WithRoom(old(View([])))
      ensures old(Chain()) <= Chain()
      ensures forall i :: |old(Chain())| <= i < |Chain()| ==> fresh(Chain()[i])
    {
      hide Masks;
      if st == null || nextId == 0 {
        CreateState();
      }
    }

    /** `run` on a group with threads. */
    method Fork(f: nat, ghost calls: seq<Call>)
      requires Valid()
      modifies this, Chain()
      ensures Valid() && executed == old(executed)
      ensures View(calls) == RunSteps(old(View(calls)))
      ensures |dispatched| == |old(dispatched)| + 1 && dispatched[..|old(dispatched)|] == old(dispatched)
      ensures dispatched[|old(dispatched)|].f == f
      ensures old(Chain()) <= Chain()
      ensures forall i :: |old(Chain())| <= i < |Chain()| ==> fresh(Chain()[i])
    {
      hide SetBits, ShiftId, RunSteps, Masks, LastTracked;
      ghost var s := View(calls);
      RunStepsForm(s);
      FindRoom();
      TrackAndDispatch(f);
    }

    method Run(f: nat, ghost calls: seq<Call>)
      requires Valid()
      modifies this, Chain()
      ensures Valid()
      ensures threadCount == 0 ==> executed == old(executed) + [f] && View(calls) == old(View(calls))
      ensures threadCount > 0 ==> executed == old(executed) && View(calls) == RunSteps(old(View(calls)))
      ensures threadCount > 0 ==>
                |dispatched| == |old(dispatched)| + 1 && dispatched[..|old(dispatched)|] == old(dispatched)
                && dispatched[|old(dispatched)|].f == f
      ensures old(Chain()) <= Chain()
      ensures forall i :: |old(Chain())| <= i < |Chain()| ==> fresh(Chain()[i])
    {
      hide RunSteps, Masks;
      if threadCount == 0 {
        executed := executed + [f];
      } else {
        Fork(f, calls);
      }
    }

    /** What the destructor does before it waits. */
    method AbortAll(ghost calls: seq<Call>)
      requires Valid()
      modifies Chain()
      ensures Valid()
      ensures View(calls).(spawner := Aborting(0)) == AbortSteps(old(View(calls)).(spawner := Aborting(|Chain()|)))
    {
      hide AbortSteps;
      ghost var s := View(calls);
      if st != null {
        st.Abort();
      }
      assert Masks(Chain()) == AbortSteps(s.(spawner := Aborting(|Chain()|))).chain;
    }

    /** One copy of the `k`-th dispatched wrapper: `ran` tells whether it called the body. */
    method Invoke(k: nat, ghost calls: seq<Call>) returns (ran: bool)
      requires Valid() && k < |dispatched|
      modifies Chain()
      ensures Valid()
      ensures var s := old(Invoked(k, calls));
              View(s.calls) == s && |s.calls| == |calls| + 1 && ran == s.calls[|calls|].ran
    {
      var w := dispatched[k];
      ghost var s := View(calls);
      InvokeStepsForm(s, k);
      hide ClearBits, And, InvokeSteps, Masks;
      ran := w.st.CanRun(w.taskId);
      w.st.MarkCompleted(w.taskId);
      MasksWithUpdate(Chain(), s.chain, tasks[k].node);
    }
  }

  lemma TasksAreSlots(region: TaskRegionHandle)
    requires region.Valid() && Inv(region.View([]))
    ensures |region.Chain()| == (|region.dispatched| + 31) / 32
    ensures forall k :: 0 <= k < |region.dispatched| ==>
              && region.dispatched[k].taskId == Pow2(k % 32)
              && k / 32 < |region.Chain()| && region.dispatched[k].st == region.Chain()[k / 32]
  {
    hide Masks, Bit, Pow2;
    var s := region.View([]);
    assert |s.chain| == |region.Chain()|;
    forall k | 0 <= k < |region.dispatched| ensures region.dispatched[k].taskId == Pow2(k % 32)
                                            ensures k / 32 < |region.Chain()|
                                            ensures region.dispatched[k].st == region.Chain()[k / 32] {
      assert s.tasks[k] == Slot(k);
    }
  }

  /** `n` consecutive calls of `run` on a new region: where each task ends up. */
  method RunMany(count: nat, fs: seq<nat>) returns (region: TaskRegionHandle)
    requires count > 0
    ensures region.Valid() && |region.dispatched| == |fs|
    ensures |region.Chain()| == (|fs| + 31) / 32
    ensures forall k :: 0 <= k < |fs| ==>
              && region.dispatched[k].f == fs[k]
              && region.dispatched[k].taskId == Pow2(k % 32)
              && region.dispatched[k].st == region.Chain()[k / 32]
  {
    hide Inv, RunSteps, Masks, Bit, Pow2, TaskRegionHandle.Valid;
    region := new TaskRegionHandle(count);
    FreshRegionInv();
    for i := 0 to |fs|
      invariant region.Valid() && region.threadCount > 0
      invariant fresh(region) && fresh(region.Chain())
      invariant Inv(region.View([]))
      invariant |region.dispatched| == i
      invariant forall k :: 0 <= k < i ==> region.dispatched[k].f == fs[k]
    {
      RunStepsKeep(region.View([]));
      ghost var before, chain := region.dispatched, region.Chain();
      region.Run(fs[i], []);
      assert forall k :: 0 <= k < i ==> region.dispatched[k] == before[k];
      assert forall j :: 0 <= j < |chain| ==> region.Chain()[j] == chain[j];
    }
    TasksAreSlots(region);
  }
}
