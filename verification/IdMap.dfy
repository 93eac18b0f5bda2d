/** The session ids: a FIFO of idle ids, a map of live ones, and the manager whose locked
    Register and UnRegister are the only steps. */
module IdMap {
  import opened Sequences

  const INVALID_ID := -1

  // ---------- one step, as a change of state ----------

  datatype State<T> = State(live: map<int, T>, idle: seq<int>)

  datatype Step<T> = Register(p: T) | UnRegister(id: int)

  function FirstIds(n: nat): (ids: seq<int>)
    ensures |ids| == n && forall i :: 0 <= i < n ==> ids[i] == i + 1
  {
    seq(n, i => i + 1)
  }

  function Initial<T>(maxIdCount: nat): State<T> {
    State(map[], FirstIds(maxIdCount))
  }

  function After<T>(s: State<T>, step: Step<T>): State<T> {
    match step
    case Register(p) => if s.idle == [] then s else State(s.live[s.idle[0] := p], s.idle[1..])
    case UnRegister(id) => if id in s.live then State(s.live - {id}, s.idle + [id]) else s
  }

  ghost predicate NoDuplicates(ids: seq<int>) {
    forall i, j :: 0 <= i < j < |ids| ==> ids[i] != ids[j]
  }

  /** Every id is idle or live and none is both. */
  ghost predicate Conserved<T>(s: State<T>, maxIdCount: nat) {
    && NoDuplicates(s.idle)
    && (forall id :: id in s.idle || id in s.live <==> 1 <= id <= maxIdCount)
    && (forall id :: id in s.idle ==> id !in s.live)
  }

  lemma StepConserves<T>(s: State<T>, step: Step<T>, maxIdCount: nat)
    requires Conserved(s, maxIdCount)
    ensures Conserved(After(s, step), maxIdCount)
  {
    var s' := After(s, step);
    match step {
      case Register(p) =>
        if s.idle != [] {
          var id := s.idle[0];
          assert s.idle == [id] + s.idle[1..];
          assert id in s.idle && id !in s.idle[1..];
          forall k
            ensures k in s'.idle || k in s'.live <==> 1 <= k <= maxIdCount
          {
            assert k in s.idle <==> k == id || k in s.idle[1..];
          }
        }
      case UnRegister(id) =>
        if id in s.live {
          forall k
            ensures k in s'.idle <==> k == id || k in s.idle
          {
          }
        }
    }
  }

  // ---------- every run ----------

  function Run<T>(s: State<T>, steps: seq<Step<T>>): State<T>
    decreases |steps|
  {
    if steps == [] then s else Run(After(s, steps[0]), steps[1..])
  }

  /** Conservation: in every reachable state the ids 1..MaxIDCount are split between idle and
      live. */
  lemma {:induction false} RunConserves<T>(s: State<T>, steps: seq<Step<T>>, maxIdCount: nat)
    requires Conserved(s, maxIdCount)
    ensures Conserved(Run(s, steps), maxIdCount)
    decreases |steps|
  {
    if steps != [] {
      StepConserves(s, steps[0], maxIdCount);
      RunConserves(After(s, steps[0]), steps[1..], maxIdCount);
    }
  }

  lemma InitialConserved<T>(maxIdCount: nat)
    ensures Conserved<T>(Initial(maxIdCount), maxIdCount)
  {
    var s := Initial<T>(maxIdCount);
    forall id
      ensures id in s.idle <==> 1 <= id <= maxIdCount
    {
      if 1 <= id <= maxIdCount {
        assert s.idle[id - 1] == id;
      }
    }
  }

  /** What Register returns in a state. */
  function IssuedId<T>(s: State<T>): int {
    if s.idle == [] then INVALID_ID else s.idle[0]
  }

  /** In every reachable state Register fails exactly when every id is live, and what it issues
      was not live. */
  lemma RegisterFailsExactlyWhenFull<T>(steps: seq<Step<T>>, maxIdCount: nat)
    ensures var s := Run(Initial(maxIdCount), steps);
            && (IssuedId(s) == INVALID_ID <==> forall id :: 1 <= id <= maxIdCount ==> id in s.live)
            && (IssuedId(s) != INVALID_ID ==> 1 <= IssuedId(s) <= maxIdCount && IssuedId(s) !in s.live)
  {
    InitialConserved<T>(maxIdCount);
    RunConserves(Initial(maxIdCount), steps, maxIdCount);
    var s := Run(Initial(maxIdCount), steps);
    if s.idle != [] {
      assert s.idle[0] in s.idle;
    }
  }

  // ---------- the order in which ids come back ----------

  /** The id a step issues, and the id it frees, if any. */
  function IssuedBy<T>(s: State<T>, step: Step<T>): seq<int> {
    if step.Register? && s.idle != [] then [s.idle[0]] else []
  }

  function FreedBy<T>(s: State<T>, step: Step<T>): seq<int> {
    if step.UnRegister? && step.id in s.live then [step.id] else []
  }

  /** The ids issued by a run, in order. */
  function Issued<T>(s: State<T>, steps: seq<Step<T>>): seq<int>
    decreases |steps|
  {
    if steps == [] then [] else IssuedBy(s, steps[0]) + Issued(After(s, steps[0]), steps[1..])
  }

  /** The ids freed by a run, in order. */
  function Freed<T>(s: State<T>, steps: seq<Step<T>>): seq<int>
    decreases |steps|
  {
    if steps == [] then [] else FreedBy(s, steps[0]) + Freed(After(s, steps[0]), steps[1..])
  }

  lemma StepQueueLaw<T>(s: State<T>, step: Step<T>)
    ensures s.idle + FreedBy(s, step) == IssuedBy(s, step) + After(s, step).idle
  {
  }

  /** The queue law: what was idle, followed by what was freed, is what was issued, followed by
      what is idle now. */
  lemma {:induction false} QueueLaw<T>(s: State<T>, steps: seq<Step<T>>)
    ensures s.idle + Freed(s, steps) == Issued(s, steps) + Run(s, steps).idle
    decreases |steps|
  {
    if steps != [] {
      hide After, IssuedBy, FreedBy;
      var s' := After(s, steps[0]);
      QueueLaw(s', steps[1..]);
      StepQueueLaw(s, steps[0]);
      Assoc(s.idle, FreedBy(s, steps[0]), Freed(s', steps[1..]));
      Assoc(IssuedBy(s, steps[0]), s'.idle, Freed(s', steps[1..]));
      Assoc(IssuedBy(s, steps[0]), Issued(s', steps[1..]), Run(s, steps).idle);
    }
  }

  /** A freed id waits its turn: if the idle queue then holds q ids, the next q - 1 ids issued
      are others, and the q-th is this one. */
  lemma FreedIdWaits<T>(s: State<T>, id: int, steps: seq<Step<T>>, maxIdCount: nat)
    requires Conserved(s, maxIdCount) && id in s.live
    ensures var s' := After(s, UnRegister(id));
            var q, issued := |s'.idle|, Issued(s', steps);
            && (forall j :: 0 <= j < |issued| && j < q - 1 ==> issued[j] != id)
            && (|issued| >= q ==> issued[q - 1] == id)
  {
    var s' := After(s, UnRegister(id));
    var issued := Issued(s', steps);
    StepConserves(s, UnRegister(id), maxIdCount);
    QueueLaw(s', steps);
    var all := s'.idle + Freed(s', steps);
    assert forall j :: 0 <= j < |issued| ==> issued[j] == all[j];
  }

  /** A live id keeps its object, and is issued to no one else, until it is freed. */
  lemma {:induction false} HeldUntilFreed<T>(s: State<T>, id: int, steps: seq<Step<T>>, maxIdCount: nat)
    requires Conserved(s, maxIdCount) && id in s.live
    requires Step<T>.UnRegister(id) !in steps
    ensures id in Run(s, steps).live && Run(s, steps).live[id] == s.live[id]
    ensures id !in Issued(s, steps)
    decreases |steps|
  {
    if steps != [] {
      assert steps[0] in steps;
      assert s.idle != [] ==> s.idle[0] in s.idle;
      StepConserves(s, steps[0], maxIdCount);
      HeldUntilFreed(After(s, steps[0]), id, steps[1..], maxIdCount);
    }
  }

  lemma {:induction false} RunOneMore<T>(s: State<T>, steps: seq<Step<T>>, last: Step<T>)
    ensures Run(s, steps + [last]) == After(Run(s, steps), last)
    decreases |steps|
  {
    if steps == [] {
      assert ([] + [last])[1..] == [];
    } else {
      assert (steps + [last])[1..] == steps[1..] + [last];
      RunOneMore(After(s, steps[0]), steps[1..], last);
    }
  }

  /** Step k issues id, for the object p. */
  ghost predicate IssuesAt<T>(s: State<T>, steps: seq<Step<T>>, k: int, id: int) {
    0 <= k < |steps| && steps[k].Register? && Run(s, steps[..k]).idle != [] && Run(s, steps[..k]).idle[0] == id
  }

  /** The last step that issued id, and no step freed it since. */
  ghost predicate LastIssue<T>(s: State<T>, steps: seq<Step<T>>, k: int, id: int) {
    && IssuesAt(s, steps, k, id)
    && (forall j :: k < j < |steps| ==> !IssuesAt(s, steps, j, id) && steps[j] != Step<T>.UnRegister(id))
  }

  /** A live id's object is the argument of the last Register step that issued it. */
  lemma {:induction false} LiveIsLastRegistered<T>(maxIdCount: nat, steps: seq<Step<T>>, id: int) returns (k: nat)
    requires id in Run(Initial<T>(maxIdCount), steps).live
    ensures LastIssue(Initial<T>(maxIdCount), steps, k, id)
    ensures Run(Initial<T>(maxIdCount), steps).live[id] == steps[k].p
    decreases |steps|
  {
    hide NoDuplicates;
    var start := Initial<T>(maxIdCount);
    assert steps != [];
    var front, last, end := steps[..|steps| - 1], steps[|steps| - 1], |steps| - 1;
    assert steps == front + [last];
    RunOneMore(start, front, last);
    var s := Run(start, front);
    InitialConserved<T>(maxIdCount);
    RunConserves(start, front, maxIdCount);
    if last.Register? && s.idle != [] && s.idle[0] == id {
      k := end;
    } else {
      assert id in s.live && s.live[id] == Run(start, steps).live[id];
      k := LiveIsLastRegistered(maxIdCount, front, id);
      assert forall j :: 0 <= j <= end ==> steps[..j] == front[..j];
      assert steps[..end] == front;
    }
  }

  // ---------- the classes ----------

  class IDQueue {
    const maxIdCount: nat
    const offset: int
    var queue: seq<int>

    constructor (maxIdCount: nat, offset: int)
      ensures this.maxIdCount == maxIdCount && this.offset == offset
      ensures |queue| == maxIdCount && forall i :: 0 <= i < maxIdCount ==> queue[i] == i + offset
    {
      this.maxIdCount, this.offset := maxIdCount, offset;
      queue := [];
      new;
      for i := 0 to maxIdCount
        invariant |queue| == i && forall k :: 0 <= k < i ==> queue[k] == k + offset
      {
        queue := queue + [i + offset];
      }
    }

    /** The oldest idle id, or INVALID_ID when there is none. */
    method Pop() returns (id: int)
      modifies this`queue
      ensures old(queue) == [] ==> id == INVALID_ID && queue == []
      ensures old(queue) != [] ==> id == old(queue)[0] && queue == old(queue)[1..]
    {
      id := INVALID_ID;
      if queue != [] {
        id := queue[0];
        queue := queue[1..];
      }
    }

    predicate IsValidId(id: int) {
      id != INVALID_ID && offset <= id < maxIdCount + offset
    }

    method Push(id: int)
      modifies this`queue
      ensures queue == if id != -1 && offset <= id < maxIdCount + offset then old(queue) + [id] else old(queue)
    {
      if IsValidId(id) {
        queue := queue + [id];
      }
    }
  }

  class SFIDMap<T> {
    const maxIdCount: nat
    const idleIds: IDQueue
    var ids: map<int, T>

    ghost function Snapshot(): State<T>
      reads this, idleIds
    {
      State(ids, idleIds.queue)
    }

    ghost predicate Valid()
      reads this, idleIds
    {
      Conserved(Snapshot(), maxIdCount) && idleIds.maxIdCount == maxIdCount && idleIds.offset == 1
    }

    constructor (maxIdCount: nat)
      ensures Valid() && this.maxIdCount == maxIdCount && Snapshot() == Initial(maxIdCount) && fresh(idleIds)
    {
      this.maxIdCount := maxIdCount;
      idleIds := new IDQueue(maxIdCount, 1);
      ids := map[];
      new;
      assert idleIds.queue == FirstIds(maxIdCount);
      InitialConserved<T>(maxIdCount);
    }

    /** bind leaves an existing entry alone; here there never is one. */
    method Register(p: T) returns (id: int)
      requires Valid()
      modifies this`ids, idleIds
      ensures Valid() && Snapshot() == After(old(Snapshot()), Step.Register(p))
      ensures id == IssuedId(old(Snapshot()))
      ensures id != INVALID_ID ==> id !in old(ids) && ids == old(ids)[id := p]
      ensures id != INVALID_ID ==> old(idleIds.queue) == [id] + idleIds.queue
      ensures id == INVALID_ID ==> ids == old(ids) && old(idleIds.queue) == idleIds.queue == []
    {
      StepConserves(Snapshot(), Step.Register(p), maxIdCount);
      assert idleIds.queue != [] ==> idleIds.queue[0] in Snapshot().idle;
      id := idleIds.Pop();
      if id == INVALID_ID {
        return;
      }
      if id !in ids {
        ids := ids[id := p];
      }
    }

    /** Freeing an id that is not live changes nothing. */
    method UnRegister(id: int)
      requires Valid()
      modifies this`ids, idleIds
      ensures Valid() && Snapshot() == After(old(Snapshot()), Step<T>.UnRegister(id))
      ensures id in old(ids) ==> ids == old(ids) - {id} && idleIds.queue == old(idleIds.queue) + [id]
      ensures id !in old(ids) ==> ids == old(ids) && idleIds.queue == old(idleIds.queue)
    {
      StepConserves(Snapshot(), Step<T>.UnRegister(id), maxIdCount);
      if id in ids {
        ids := ids - {id};
        idleIds.Push(id);
      }
    }

    method Get(id: int) returns (p: Option<T>)
      requires Valid()
      ensures p.Some? <==> id in ids
      ensures p.Some? ==> p.value == ids[id] && 1 <= id <= maxIdCount && id !in idleIds.queue
    {
      p := None;
      if id in ids {
        assert id in Snapshot().live;
        p := Some(ids[id]);
      }
    }

    method Size() returns (n: int)
      requires Valid()
      ensures n == |ids| && n + |idleIds.queue| == maxIdCount
    {
      n := |ids|;
      SizesAddUp(Snapshot(), maxIdCount);
    }
  }

  lemma {:induction false} CountOfDistinct(ids: seq<int>)
    requires NoDuplicates(ids)
    ensures |SetOf(ids)| == |ids|
  {
    if ids != [] {
      var rest := ids[1..];
      CountOfDistinct(rest);
      assert SetOf(ids) == {ids[0]} + SetOf(rest);
      assert ids[0] !in rest;
    }
  }

  function SetOf(ids: seq<int>): set<int> {
    set id | id in ids
  }

  lemma SizesAddUp<T>(s: State<T>, maxIdCount: nat)
    requires Conserved(s, maxIdCount)
    ensures |s.live| + |s.idle| == maxIdCount
  {
    hide NoDuplicates;
    var first := Initial<T>(maxIdCount).idle;
    InitialConserved<T>(maxIdCount);
    CountOfDistinct(s.idle);
    CountOfDistinct(first);
    forall id
      ensures id in SetOf(first) <==> id in s.live.Keys || id in SetOf(s.idle)
    {
      assert id in first <==> 1 <= id <= maxIdCount;
    }
    TwoHalves(s.live.Keys, SetOf(s.idle), SetOf(first));
  }

  lemma TwoHalves(a: set<int>, b: set<int>, whole: set<int>)
    requires a !! b
    requires forall id :: id in whole <==> (id in a || id in b)
    ensures |a| + |b| == |whole|
  {
    assert forall id :: id in whole <==> id in a + b;
    assert whole == a + b;
  }

  /** The manager runs each step under its lock, so any interleaving of threads is one sequence
      of steps; the ids it hands out are the ids that sequence issues. */
  method Serve<T>(ids: SFIDMap<T>, steps: seq<Step<T>>) returns (issued: seq<int>)
    requires ids.Valid()
    modifies ids, ids.idleIds
    ensures ids.Valid() && ids.Snapshot() == Run(old(ids.Snapshot()), steps)
    ensures issued == Issued(old(ids.Snapshot()), steps)
  {
    issued := [];
    for i := 0 to |steps|
      invariant ids.Valid()
      invariant Run(old(ids.Snapshot()), steps) == Run(ids.Snapshot(), steps[i..])
      invariant Issued(old(ids.Snapshot()), steps) == issued + Issued(ids.Snapshot(), steps[i..])
    {
      assert steps[i..][1..] == steps[i + 1..];
      ghost var before, sofar := ids.Snapshot(), issued;
      Assoc(sofar, IssuedBy(before, steps[i]), Issued(After(before, steps[i]), steps[i + 1..]));
      match steps[i] {
        case Register(p) =>
          var id := ids.Register(p);
          assert before.idle != [] ==> before.idle[0] in before.idle;
          if id != INVALID_ID {
            issued := issued + [id];
          }
        case UnRegister(id) =>
          ids.UnRegister(id);
      }
      assert issued == sofar + IssuedBy(before, steps[i]);
    }
  }
}
