/** TransferNotifier: a queue of transfers worked off one at a time, driven by interleaved events. */
module TransferQueue {
  import opened Bytes

  datatype Status = Queued | InProgress | Completed | Failed | Cancelled

  /** The fields of a TransferTask that change, and what they are compared with. */
  datatype Task = Task(id: nat, totalBytes: nat, transferredBytes: nat, status: Status)

  /**
   * tasks are the task objects by order of creation; list is the visible state, a list of references to them.
   * flight is the task whose transfer the processing loop awaits: the loop holds on to the object even when
   * the list no longer does.
   */
  datatype Queue = Queue(tasks: seq<Task>, list: seq<nat>, isProcessing: bool, flight: Option<nat>)

  const EMPTY := Queue([], [], false, None)

  /** Transfer attempts that throw before their first await: creating the local directory of a download. */
  type SyncFailure = nat -> bool

  // ---- what the events do ----

  predicate Has(tasks: seq<Task>, r: nat, s: Status) {
    r < |tasks| && tasks[r].status == s
  }

  function WithStatus(q: Queue, r: nat, s: Status): Queue
    requires r < |q.tasks|
  {
    q.(tasks := q.tasks[r := q.tasks[r].(status := s)])
  }

  function QueuedIn(tasks: seq<Task>, list: seq<nat>): nat {
    if list == [] then 0
    else (if list[0] < |tasks| && tasks[list[0]].status == Queued then 1 else 0) + QueuedIn(tasks, list[1..])
  }

  /** state.indexWhere((t) => t.status == queued) */
  function FirstQueued(tasks: seq<Task>, list: seq<nat>): Option<nat> {
    if list == [] then None
    else if list[0] < |tasks| && tasks[list[0]].status == Queued then Some(list[0])
    else FirstQueued(tasks, list[1..])
  }

  /** list[k] is the first queued entry of the list. */
  predicate FirstAt(tasks: seq<Task>, list: seq<nat>, k: nat) {
    k < |list| && Has(tasks, list[k], Queued) && forall j | 0 <= j < k :: !Has(tasks, list[j], Queued)
  }

  lemma {:induction false} FirstQueuedIsFirst(tasks: seq<Task>, list: seq<nat>) returns (k: nat)
    ensures FirstQueued(tasks, list) == None ==>
      QueuedIn(tasks, list) == 0 && forall i | 0 <= i < |list| :: !Has(tasks, list[i], Queued)
    ensures FirstQueued(tasks, list).Some? ==>
      FirstAt(tasks, list, k) && list[k] == FirstQueued(tasks, list).value && QueuedIn(tasks, list) > 0
  {
    k := 0;
    if list != [] && !Has(tasks, list[0], Queued) {
      k := FirstQueuedIsFirst(tasks, list[1..]);
      assert forall j | 1 <= j < |list| :: list[j] == list[1..][j - 1];
      k := k + 1;
    }
  }

  lemma {:induction false} FirstQueuedFacts(tasks: seq<Task>, list: seq<nat>)
    ensures FirstQueued(tasks, list) == None ==> forall r | r in list :: !Has(tasks, r, Queued)
    ensures FirstQueued(tasks, list).Some? ==>
      FirstQueued(tasks, list).value in list && Has(tasks, FirstQueued(tasks, list).value, Queued)
  {
    var k := FirstQueuedIsFirst(tasks, list);
  }

  predicate Distinct(list: seq<nat>) {
    forall i, j | 0 <= i < j < |list| :: list[i] != list[j]
  }

  lemma {:induction false} LeavingQueued(tasks: seq<Task>, list: seq<nat>, r: nat, s: Status)
    requires Distinct(list) && r < |tasks| && tasks[r].status == Queued && s != Queued
    ensures QueuedIn(tasks[r := tasks[r].(status := s)], list) == QueuedIn(tasks, list) - if r in list then 1 else 0
  {
    if list != [] {
      LeavingQueued(tasks, list[1..], r, s);
      assert list == [list[0]] + list[1..];
      if list[0] == r {
        assert r !in list[1..];
      }
    }
  }

  /** _processQueue from the head of its loop to the next await or the end of the loop. */
  function Pump(q: Queue, fails: SyncFailure): Queue
    requires Distinct(q.list)
    decreases QueuedIn(q.tasks, q.list)
  {
    FirstQueuedFacts(q.tasks, q.list);
    match FirstQueued(q.tasks, q.list)
    case None => q.(isProcessing := false)
    case Some(r) =>
      if fails(r) then
        LeavingQueued(q.tasks, q.list, r, Failed);
        Pump(WithStatus(q, r, Failed), fails)
      else WithStatus(q, r, InProgress).(flight := Some(r))
  }

  /** _processQueue as called by the other events. */
  function Process(q: Queue, fails: SyncFailure): Queue
    requires Distinct(q.list)
  {
    if q.isProcessing then q else Pump(q.(isProcessing := true), fails)
  }

  function Enqueue(q: Queue, id: nat, total: nat, fails: SyncFailure): Queue
    requires Wf(q)
  {
    Process(q.(tasks := q.tasks + [Task(id, total, 0, Queued)], list := q.list + [|q.tasks|]), fails)
  }

  function CancelOne(t: Task, id: nat): Task {
    if t.id == id && (t.status == Queued || t.status == InProgress) then t.(status := Cancelled) else t
  }

  function RetryOne(t: Task, id: nat): Task {
    if t.id == id && t.status == Failed then t.(status := Queued, transferredBytes := 0) else t
  }

  /** state.map with a callback that updates the task objects in the list. */
  function OnListed(tasks: seq<Task>, list: seq<nat>, f: Task -> Task): seq<Task> {
    seq(|tasks|, r requires 0 <= r < |tasks| => if r in list then f(tasks[r]) else tasks[r])
  }

  function Cancel(q: Queue, id: nat): Queue {
    q.(tasks := OnListed(q.tasks, q.list, t => CancelOne(t, id)))
  }

  function Retry(q: Queue, id: nat, fails: SyncFailure): Queue
    requires Distinct(q.list)
  {
    Process(q.(tasks := OnListed(q.tasks, q.list, t => RetryOne(t, id))), fails)
  }

  function Kept(tasks: seq<Task>, list: seq<nat>): seq<nat> {
    if list == [] then []
    else (if list[0] < |tasks| && tasks[list[0]].status != Completed && tasks[list[0]].status != Cancelled
          then [list[0]] else []) + Kept(tasks, list[1..])
  }

  function Clear(q: Queue): Queue {
    q.(list := Kept(q.tasks, q.list))
  }

  function FirstActive(tasks: seq<Task>, list: seq<nat>): Option<nat> {
    if list == [] then None
    else if list[0] < |tasks| && tasks[list[0]].status == InProgress then Some(list[0])
    else FirstActive(tasks, list[1..])
  }

  /** A progress report of the client; None is a report without a count. */
  function Report(q: Queue, sent: Option<nat>): Queue {
    match (FirstActive(q.tasks, q.list), sent)
    case (Some(r), Some(n)) =>
      if r < |q.tasks| then q.(tasks := q.tasks[r := q.tasks[r].(transferredBytes := n)]) else q
    case _ => q
  }

  /** The queue right after the awaited transfer has ended. */
  function AfterTransfer(q: Queue, ok: bool): Queue
    requires Wf(q) && q.flight.Some?
  {
    var r := q.flight.value;
    var t := if ok then q.tasks[r].(transferredBytes := q.tasks[r].totalBytes, status := Completed)
             else q.tasks[r].(status := Failed);
    q.(tasks := q.tasks[r := t], flight := None)
  }

  /** The awaited transfer ends, and the loop goes on. */
  function Finished(q: Queue, ok: bool, fails: SyncFailure): Queue
    requires Wf(q)
  {
    if q.flight == None then q else Pump(AfterTransfer(q, ok), fails)
  }

  // ---- the invariant ----

  /** The list refers to task objects, each once, and the awaited task exists. */
  predicate Wf(q: Queue) {
    && Distinct(q.list)
    && (forall i | 0 <= i < |q.list| :: q.list[i] < |q.tasks|)
    && (q.flight.Some? ==> q.flight.value < |q.tasks|)
  }

  /**
   * At most one transfer is under way and it is the awaited one; the loop is running exactly while one is awaited;
   * a queued task is in the list, and while there is one the loop is running: no wake-up is lost.
   */
  ghost predicate Inv(q: Queue) {
    && Wf(q)
    && (q.isProcessing <==> q.flight.Some?)
    && (q.flight.Some? ==> q.tasks[q.flight.value].status in {InProgress, Cancelled})
    && (forall r | 0 <= r < |q.tasks| && q.tasks[r].status == InProgress :: q.flight == Some(r))
    && (forall r | 0 <= r < |q.tasks| && q.tasks[r].status == Queued :: r in q.list && q.isProcessing)
  }

  /** The invariant as it is inside the loop, with nothing awaited. */
  ghost predicate LoopInv(q: Queue) {
    && Wf(q) && q.flight == None
    && (forall r | 0 <= r < |q.tasks| :: q.tasks[r].status != InProgress)
    && (forall r | 0 <= r < |q.tasks| && q.tasks[r].status == Queued :: r in q.list)
  }

  /** What a task may turn into when the loop goes on. */
  ghost predicate OnlyStarted(a: Queue, b: Queue) {
    && |b.tasks| == |a.tasks| && b.list == a.list
    && forall r | 0 <= r < |a.tasks| ::
         b.tasks[r] == a.tasks[r] ||
         (a.tasks[r].status == Queued && b.tasks[r].status in {InProgress, Failed}
          && b.tasks[r] == a.tasks[r].(status := b.tasks[r].status))
  }

  lemma {:induction false} PumpKeeps(q: Queue, fails: SyncFailure)
    requires LoopInv(q) && q.isProcessing
    ensures Inv(Pump(q, fails)) && OnlyStarted(q, Pump(q, fails))
    decreases QueuedIn(q.tasks, q.list)
  {
    FirstQueuedFacts(q.tasks, q.list);
    match FirstQueued(q.tasks, q.list)
    case None =>
    case Some(r) =>
      if fails(r) {
        LeavingQueued(q.tasks, q.list, r, Failed);
        PumpKeeps(WithStatus(q, r, Failed), fails);
      }
  }

  /** The task at list[k] starts: everything queued before it threw before its await. */
  ghost predicate StartsAt(q: Queue, p: Queue, fails: SyncFailure, k: nat) {
    && k < |q.list| && p.flight == Some(q.list[k])
    && Has(q.tasks, q.list[k], Queued) && !fails(q.list[k])
    && |p.tasks| == |q.tasks| && p.tasks[q.list[k]] == q.tasks[q.list[k]].(status := InProgress)
    && (forall j | 0 <= j < k && Has(q.tasks, q.list[j], Queued) ::
          fails(q.list[j]) && q.list[j] < |p.tasks| && p.tasks[q.list[j]] == q.tasks[q.list[j]].(status := Failed))
    && (forall r | 0 <= r < |q.tasks| && (!Has(q.tasks, r, Queued) || r in q.list[k + 1..]) :: p.tasks[r] == q.tasks[r])
  }

  /** Tasks start in list order among those queued; when none starts, every queued task threw before its await. */
  lemma {:induction false} PumpStartsInListOrder(q: Queue, fails: SyncFailure) returns (k: nat)
    requires LoopInv(q) && q.isProcessing
    ensures Pump(q, fails).flight.Some? ==> StartsAt(q, Pump(q, fails), fails, k)
    ensures Pump(q, fails).flight == None ==>
      forall r: nat | Has(q.tasks, r, Queued) :: fails(r) && Has(Pump(q, fails).tasks, r, Failed)
    decreases QueuedIn(q.tasks, q.list)
  {
    hide LoopInv, Wf, Inv;
    var at := FirstQueuedIsFirst(q.tasks, q.list);
    k := at;
    DistinctList(q);
    if FirstQueued(q.tasks, q.list).Some? {
      var r := q.list[at];
      if fails(r) {
        var q' := WithStatus(q, r, Failed);
        LeavingQueued(q.tasks, q.list, r, Failed);
        FailedKeepsLoop(q, r);
        k := PumpStartsInListOrder(q', fails);
        PumpKeeps(q', fails);
        assert Pump(q, fails) == Pump(q', fails);
        if Pump(q', fails).flight.Some? {
          StartsBehindFailed(q, q', Pump(q', fails), fails, at, k);
        } else {
          AllFailedBehind(q, q', Pump(q', fails), fails, r);
        }
      } else {
        FirstStartsAt(q, fails, at);
      }
    } else {
      NoneIsQueued(q);
    }
  }

  lemma NoneIsQueued(q: Queue)
    requires LoopInv(q) && FirstQueued(q.tasks, q.list) == None
    ensures forall r: nat :: !Has(q.tasks, r, Queued)
  {
    FirstQueuedFacts(q.tasks, q.list);
  }

  lemma DistinctList(q: Queue)
    requires LoopInv(q)
    ensures Distinct(q.list) && q.flight == None && forall i | 0 <= i < |q.list| :: q.list[i] < |q.tasks|
  {
  }

  lemma FailedKeepsLoop(q: Queue, r: nat)
    requires LoopInv(q) && Has(q.tasks, r, Queued)
    ensures LoopInv(WithStatus(q, r, Failed))
  {
  }

  lemma FirstStartsAt(q: Queue, fails: SyncFailure, k: nat)
    requires Distinct(q.list) && FirstAt(q.tasks, q.list, k) && !fails(q.list[k])
    ensures StartsAt(q, WithStatus(q, q.list[k], InProgress).(flight := Some(q.list[k])), fails, k)
  {
    assert q.list[k] !in q.list[k + 1..];
  }

  lemma StartsBehindFailed(q: Queue, q': Queue, p: Queue, fails: SyncFailure, at: nat, k: nat)
    requires Distinct(q.list) && FirstAt(q.tasks, q.list, at) && fails(q.list[at])
    requires q' == WithStatus(q, q.list[at], Failed) && StartsAt(q', p, fails, k)
    ensures StartsAt(q, p, fails, k)
  {
    var r := q.list[at];
    assert at < k;
    assert p.tasks[r] == q'.tasks[r];
    forall j | 0 <= j < k && Has(q.tasks, q.list[j], Queued)
      ensures fails(q.list[j]) && q.list[j] < |p.tasks|
      ensures p.tasks[q.list[j]] == q.tasks[q.list[j]].(status := Failed)
    {
      assert q'.list[j] == q.list[j];
    }
    assert r !in q.list[k + 1..] by {
      assert forall j | k < j < |q.list| :: q.list[j] != r;
    }
    forall x | 0 <= x < |q.tasks| && (!Has(q.tasks, x, Queued) || x in q.list[k + 1..])
      ensures p.tasks[x] == q.tasks[x]
    {
      assert x != r;
    }
  }

  lemma AllFailedBehind(q: Queue, q': Queue, p: Queue, fails: SyncFailure, r: nat)
    requires Has(q.tasks, r, Queued) && fails(r) && q' == WithStatus(q, r, Failed) && OnlyStarted(q', p)
    requires forall x: nat | Has(q'.tasks, x, Queued) :: fails(x) && Has(p.tasks, x, Failed)
    ensures forall x: nat | Has(q.tasks, x, Queued) :: fails(x) && Has(p.tasks, x, Failed)
  {
    forall x: nat | Has(q.tasks, x, Queued)
      ensures fails(x) && Has(p.tasks, x, Failed)
    {
      if x != r {
        assert Has(q'.tasks, x, Queued);
      }
    }
  }

  // ---- events ----

  datatype Event =
    | EnqueueE(id: nat, total: nat)
    | CancelE(id: nat)
    | ClearE
    | RetryE(id: nat)
    | ReportE(sent: Option<nat>)
    | FinishedE(ok: bool)

  function Apply(q: Queue, e: Event, fails: SyncFailure): Queue
    requires Wf(q)
  {
    match e
    case EnqueueE(id, total) => Enqueue(q, id, total, fails)
    case CancelE(id) => Cancel(q, id)
    case ClearE => Clear(q)
    case RetryE(id) => Retry(q, id, fails)
    case ReportE(sent) => Report(q, sent)
    case FinishedE(ok) => Finished(q, ok, fails)
  }

  lemma {:induction false} KeptIsSublist(tasks: seq<Task>, list: seq<nat>)
    ensures forall r :: r in Kept(tasks, list) <==>
              r in list && r < |tasks| && tasks[r].status != Completed && tasks[r].status != Cancelled
    ensures Distinct(list) ==> Distinct(Kept(tasks, list))
  {
    if list != [] {
      KeptIsSublist(tasks, list[1..]);
      assert list == [list[0]] + list[1..];
      if Distinct(list) {
        assert list[0] !in list[1..];
        assert Distinct(list[1..]);
      }
    }
  }

  lemma {:induction false} FirstActiveIsListed(tasks: seq<Task>, list: seq<nat>)
    ensures match FirstActive(tasks, list)
      case None => forall r | r in list && r < |tasks| :: tasks[r].status != InProgress
      case Some(r) => r in list && r < |tasks| && tasks[r].status == InProgress
  {
    if list != [] {
      FirstActiveIsListed(tasks, list[1..]);
    }
  }

  /** A report can only reach the awaited task, and reaches none after that task was cancelled. */
  lemma ReportReachesOnlyTheFlight(q: Queue)
    requires Inv(q)
    ensures match FirstActive(q.tasks, q.list)
      case None => q.flight == None || q.tasks[q.flight.value].status == Cancelled || q.flight.value !in q.list
      case Some(r) => q.flight == Some(r)
  {
    FirstActiveIsListed(q.tasks, q.list);
  }

  lemma ProcessKeeps(q: Queue, q': Queue, fails: SyncFailure)
    requires Inv(q) && Wf(q') && q'.isProcessing == q.isProcessing && q'.flight == q.flight
    requires q.flight.Some? ==> q'.tasks[q.flight.value].status in {InProgress, Cancelled}
    requires forall r | 0 <= r < |q'.tasks| && q'.tasks[r].status == InProgress :: q'.flight == Some(r)
    requires forall r | 0 <= r < |q'.tasks| && q'.tasks[r].status == Queued :: r in q'.list
    ensures Inv(Process(q', fails)) && OnlyStarted(q', Process(q', fails))
  {
    if !q'.isProcessing {
      PumpKeeps(q'.(isProcessing := true), fails);
    }
  }

  lemma EnqueueKeepsInv(q: Queue, id: nat, total: nat, fails: SyncFailure)
    requires Inv(q)
    ensures Inv(Enqueue(q, id, total, fails))
  {
    var q' := q.(tasks := q.tasks + [Task(id, total, 0, Queued)], list := q.list + [|q.tasks|]);
    assert |q.tasks| in q'.list && forall r | r in q.list :: r in q'.list;
    ProcessKeeps(q, q', fails);
  }

  lemma RetryKeepsInv(q: Queue, id: nat, fails: SyncFailure)
    requires Inv(q)
    ensures Inv(Retry(q, id, fails))
  {
    ProcessKeeps(q, q.(tasks := OnListed(q.tasks, q.list, t => RetryOne(t, id))), fails);
  }

  lemma ClearKeepsInv(q: Queue)
    requires Inv(q)
    ensures Inv(Clear(q))
  {
    KeptIsSublist(q.tasks, q.list);
    var kept := Kept(q.tasks, q.list);
    assert forall i | 0 <= i < |kept| :: kept[i] in kept;
  }

  /** Every event keeps the invariant. */
  lemma EventKeepsInv(q: Queue, e: Event, fails: SyncFailure)
    requires Inv(q)
    ensures Inv(Apply(q, e, fails))
  {
    match e
    case EnqueueE(id, total) => EnqueueKeepsInv(q, id, total, fails);
    case CancelE(id) =>
    case ClearE => ClearKeepsInv(q);
    case RetryE(id) => RetryKeepsInv(q, id, fails);
    case ReportE(sent) => FirstActiveIsListed(q.tasks, q.list);
    case FinishedE(ok) =>
      if q.flight.Some? {
        FinishedLoop(q, ok);
        PumpKeeps(AfterTransfer(q, ok), fails);
      }
  }

  lemma FinishedLoop(q: Queue, ok: bool)
    requires Inv(q) && q.flight.Some?
    ensures LoopInv(AfterTransfer(q, ok)) && AfterTransfer(q, ok).isProcessing
  {
  }

  /** The loop touches only queued tasks. */
  lemma ProcessKeepsFinal(q: Queue, q': Queue, fails: SyncFailure, r: nat)
    requires Inv(q) && Wf(q') && q'.isProcessing == q.isProcessing && q'.flight == q.flight
    requires q.flight.Some? ==> q'.tasks[q.flight.value].status in {InProgress, Cancelled}
    requires forall r | 0 <= r < |q'.tasks| && q'.tasks[r].status == InProgress :: q'.flight == Some(r)
    requires forall r | 0 <= r < |q'.tasks| && q'.tasks[r].status == Queued :: r in q'.list
    requires r < |q'.tasks| && q'.tasks[r].status in {Completed, Cancelled}
    ensures r < |Process(q', fails).tasks| && Process(q', fails).tasks[r] == q'.tasks[r]
  {
    ProcessKeeps(q, q', fails);
  }

  lemma EnqueueKeepsFinal(q: Queue, id: nat, total: nat, fails: SyncFailure, r: nat)
    requires Inv(q) && r < |q.tasks| && q.tasks[r].status in {Completed, Cancelled}
    ensures r < |Enqueue(q, id, total, fails).tasks| && Enqueue(q, id, total, fails).tasks[r] == q.tasks[r]
  {
    var q' := q.(tasks := q.tasks + [Task(id, total, 0, Queued)], list := q.list + [|q.tasks|]);
    assert q'.tasks[r] == q.tasks[r];
    assert |q.tasks| in q'.list && forall r | r in q.list :: r in q'.list;
    ProcessKeepsFinal(q, q', fails, r);
  }

  lemma RetryKeepsFinal(q: Queue, id: nat, fails: SyncFailure, r: nat)
    requires Inv(q) && r < |q.tasks| && q.tasks[r].status in {Completed, Cancelled}
    ensures r < |Retry(q, id, fails).tasks| && Retry(q, id, fails).tasks[r] == q.tasks[r]
  {
    var q' := q.(tasks := OnListed(q.tasks, q.list, t => RetryOne(t, id)));
    assert q'.tasks[r] == q.tasks[r];
    ProcessKeepsFinal(q, q', fails, r);
  }

  lemma TasksStay(q: Queue, e: Event, fails: SyncFailure)
    requires Inv(q)
    ensures |q.tasks| <= |Apply(q, e, fails).tasks|
  {
    match e
    case EnqueueE(id, total) =>
      var q' := q.(tasks := q.tasks + [Task(id, total, 0, Queued)], list := q.list + [|q.tasks|]);
      assert |q.tasks| in q'.list && forall r | r in q.list :: r in q'.list;
      ProcessKeeps(q, q', fails);
    case RetryE(id) =>
      ProcessKeeps(q, q.(tasks := OnListed(q.tasks, q.list, t => RetryOne(t, id))), fails);
    case FinishedE(ok) =>
      if q.flight.Some? {
        FinishedLoop(q, ok);
        PumpKeeps(AfterTransfer(q, ok), fails);
      }
    case _ =>
  }

  /**
   * One task over one event: a completed task stays completed, and a cancelled one stays cancelled exactly unless it
   * is the awaited one and its transfer ends. So a task cancelled while queued never starts.
   */
  lemma FinalStatuses(q: Queue, e: Event, fails: SyncFailure, r: nat)
    requires Inv(q) && r < |q.tasks|
    ensures r < |Apply(q, e, fails).tasks|
    ensures q.tasks[r].status == Completed ==> Apply(q, e, fails).tasks[r].status == Completed
    ensures q.tasks[r].status == Cancelled ==>
      (Apply(q, e, fails).tasks[r].status == Cancelled <==> !(e.FinishedE? && q.flight == Some(r)))
  {
    TasksStay(q, e, fails);
    if q.tasks[r].status in {Completed, Cancelled} {
      match e
      case EnqueueE(id, total) => EnqueueKeepsFinal(q, id, total, fails, r);
      case CancelE(id) =>
      case ClearE =>
      case RetryE(id) => RetryKeepsFinal(q, id, fails, r);
      case ReportE(sent) => FirstActiveIsListed(q.tasks, q.list);
      case FinishedE(ok) =>
        if q.flight.Some? {
          FinishedLoop(q, ok);
          PumpKeeps(AfterTransfer(q, ok), fails);
        }
    }
  }

  // ---- what each event does, task by task ----

  /** Cancel: exactly the listed queued and running tasks with this id become cancelled; nothing else changes. */
  lemma CancelExactly(q: Queue, id: nat, fails: SyncFailure)
    requires Inv(q)
    ensures var q' := Apply(q, CancelE(id), fails);
      && q' == q.(tasks := q'.tasks) && |q'.tasks| == |q.tasks|
      && forall r | 0 <= r < |q.tasks| ::
           if r in q.list && q.tasks[r].id == id && q.tasks[r].status in {Queued, InProgress}
           then q'.tasks[r] == q.tasks[r].(status := Cancelled)
           else q'.tasks[r] == q.tasks[r]
  {
  }

  /** The task is listed, has failed, and has this id. */
  predicate Retried(q: Queue, r: nat, id: nat) {
    r in q.list && r < |q.tasks| && q.tasks[r].status == Failed && q.tasks[r].id == id
  }

  /**
   * Retry: exactly the listed failed tasks with this id are queued again, with no bytes transferred; all others are as
   * they were. On an idle queue the first of them in list order that does not throw starts; those before it, or all of
   * them if none starts, have thrown.
   */
  lemma RetryExactly(q: Queue, id: nat, fails: SyncFailure) returns (k: nat)
    requires Inv(q)
    ensures var q' := Apply(q, RetryE(id), fails);
      && |q'.tasks| == |q.tasks| && q'.list == q.list
      && (forall r | 0 <= r < |q.tasks| && !Retried(q, r, id) :: q'.tasks[r] == q.tasks[r])
      && (forall r | 0 <= r < |q.tasks| && Retried(q, r, id) ::
            q'.tasks[r] == Task(id, q.tasks[r].totalBytes, 0, q'.tasks[r].status))
      && (q.isProcessing ==>
            && q'.flight == q.flight
            && forall r | 0 <= r < |q.tasks| && Retried(q, r, id) :: q'.tasks[r].status == Queued)
      && (!q.isProcessing && q'.flight.Some? ==>
            && k < |q.list| && q'.flight == Some(q.list[k]) && Retried(q, q.list[k], id) && !fails(q.list[k])
            && q'.tasks[q.list[k]].status == InProgress
            && (forall j | 0 <= j < k && Retried(q, q.list[j], id) ::
                  fails(q.list[j]) && q'.tasks[q.list[j]].status == Failed)
            && (forall j | k < j < |q.list| && Retried(q, q.list[j], id) :: q'.tasks[q.list[j]].status == Queued))
      && (!q.isProcessing && q'.flight == None ==>
            forall r | 0 <= r < |q.tasks| && Retried(q, r, id) :: fails(r) && q'.tasks[r].status == Failed)
  {
    k := 0;
    var queued := q.(tasks := OnListed(q.tasks, q.list, t => RetryOne(t, id)));
    Requeued(q, id);
    if !q.isProcessing {
      var start := queued.(isProcessing := true);
      assert LoopInv(start);
      PumpKeeps(start, fails);
      k := PumpStartsInListOrder(start, fails);
      hide Pump, Inv, LoopInv;
      if Pump(start, fails).flight.Some? {
        LaterOnesWait(start, k);
      }
    }
  }

  lemma Requeued(q: Queue, id: nat)
    requires Inv(q)
    ensures var tasks := OnListed(q.tasks, q.list, t => RetryOne(t, id));
      && |tasks| == |q.tasks|
      && (forall r | 0 <= r < |q.tasks| && !Retried(q, r, id) :: tasks[r] == q.tasks[r])
      && (forall r | 0 <= r < |q.tasks| && Retried(q, r, id) :: tasks[r] == Task(id, q.tasks[r].totalBytes, 0, Queued))
  {
  }

  lemma LaterOnesWait(q: Queue, k: nat)
    requires Wf(q) && k < |q.list|
    ensures forall j | k < j < |q.list| :: q.list[j] in q.list[k + 1..]
  {
    forall j | k < j < |q.list|
      ensures q.list[j] in q.list[k + 1..]
    {
      assert q.list[j] == q.list[k + 1..][j - k - 1];
    }
  }

  /**
   * Enqueue: the new task is the last of the list, with no bytes transferred. It waits while the loop is running, and
   * otherwise starts at once, or fails if its attempt throws; no other task changes.
   */
  lemma EnqueueExactly(q: Queue, id: nat, total: nat, fails: SyncFailure)
    requires Inv(q)
    ensures var q' := Apply(q, EnqueueE(id, total), fails);
      var r := |q.tasks|;
      && |q'.tasks| == r + 1 && q'.list == q.list + [r] && q'.tasks[..r] == q.tasks
      && q'.tasks[r] == Task(id, total, 0, if q.isProcessing then Queued else if fails(r) then Failed else InProgress)
      && q'.flight == (if q.isProcessing then q.flight else if fails(r) then None else Some(r))
  {
    var t := Task(id, total, 0, Queued);
    var added := q.(tasks := q.tasks + [t], list := q.list + [|q.tasks|]);
    assert added.tasks[..|q.tasks|] == q.tasks;
    if !q.isProcessing {
      var start := added.(isProcessing := true);
      assert |q.tasks| in start.list && forall r | r in q.list :: r in start.list;
      assert forall r | 0 <= r < |q.tasks| :: !Has(start.tasks, r, Queued);
      OnlyOneQueued(start, |q.tasks|, fails);
    }
  }

  /** The loop on a queue with one queued task. */
  lemma OnlyOneQueued(q: Queue, r: nat, fails: SyncFailure)
    requires LoopInv(q) && q.isProcessing && r in q.list && Has(q.tasks, r, Queued)
    requires forall x | 0 <= x < |q.tasks| && x != r :: q.tasks[x].status != Queued
    ensures Pump(q, fails) ==
      if fails(r) then WithStatus(q, r, Failed).(isProcessing := false)
      else WithStatus(q, r, InProgress).(flight := Some(r))
  {
    FirstQueuedFacts(q.tasks, q.list);
    if fails(r) {
      LeavingQueued(q.tasks, q.list, r, Failed);
      var rest := WithStatus(q, r, Failed);
      FirstQueuedFacts(rest.tasks, rest.list);
    }
  }

  /** x stands before y in the list. */
  predicate Before(list: seq<nat>, x: nat, y: nat) {
    exists a, b | 0 <= a < b < |list| :: list[a] == x && list[b] == y
  }

  /** Clear: completed and cancelled tasks leave the list, the others stay in it in their order; no task changes. */
  lemma ClearExactly(q: Queue, fails: SyncFailure)
    requires Inv(q)
    ensures var q' := Apply(q, ClearE, fails);
      && q' == q.(list := q'.list)
      && (forall r :: r in q'.list <==> r in q.list && q.tasks[r].status !in {Completed, Cancelled})
      && (forall i, j | 0 <= i < j < |q'.list| :: Before(q.list, q'.list[i], q'.list[j]))
  {
    KeptIsSublist(q.tasks, q.list);
    KeptKeepsOrder(q.tasks, q.list);
  }

  lemma {:induction false} KeptKeepsOrder(tasks: seq<Task>, list: seq<nat>)
    ensures forall i, j | 0 <= i < j < |Kept(tasks, list)| :: Before(list, Kept(tasks, list)[i], Kept(tasks, list)[j])
  {
    if list != [] {
      KeptKeepsOrder(tasks, list[1..]);
      var all, rest := Kept(tasks, list), Kept(tasks, list[1..]);
      KeptIsSublist(tasks, list[1..]);
      assert all == rest || all == [list[0]] + rest;
      hide Kept, Before;
      if all == rest {
        forall i, j | 0 <= i < j < |all| {
          BeforeLater(list, rest[i], rest[j]);
        }
      } else {
        OrderBehindFirst(list, rest);
      }
    }
  }

  lemma OrderBehindFirst(list: seq<nat>, rest: seq<nat>)
    requires list != [] && forall x | x in rest :: x in list[1..]
    requires forall i, j | 0 <= i < j < |rest| :: Before(list[1..], rest[i], rest[j])
    ensures forall i, j | 0 <= i < j < |rest| + 1 :: Before(list, ([list[0]] + rest)[i], ([list[0]] + rest)[j])
  {
    hide Before;
    var all := [list[0]] + rest;
    forall i, j | 0 <= i < j < |all|
      ensures Before(list, all[i], all[j])
    {
      assert all[j] == rest[j - 1] && rest[j - 1] in rest;
      if i == 0 {
        BeforeFirst(list, rest[j - 1]);
      } else {
        assert all[i] == rest[i - 1];
        BeforeLater(list, rest[i - 1], rest[j - 1]);
      }
    }
  }

  lemma BeforeFirst(list: seq<nat>, y: nat)
    requires list != [] && y in list[1..]
    ensures Before(list, list[0], y)
  {
    var b :| 0 <= b < |list[1..]| && list[1..][b] == y;
    assert list[b + 1] == y;
  }

  lemma BeforeLater(list: seq<nat>, x: nat, y: nat)
    requires list != [] && Before(list[1..], x, y)
    ensures Before(list, x, y)
  {
    var a, b :| 0 <= a < b < |list[1..]| && list[1..][a] == x && list[1..][b] == y;
    assert list[a + 1] == x && list[b + 1] == y;
  }

  /** A report sets the byte count of the awaited task, if it is still listed and running, and changes nothing else. */
  lemma ReportExactly(q: Queue, sent: Option<nat>, fails: SyncFailure)
    requires Inv(q)
    ensures var q' := Apply(q, ReportE(sent), fails);
      if q.flight.Some? && q.flight.value in q.list && q.tasks[q.flight.value].status == InProgress && sent.Some?
      then var r := q.flight.value;
        q' == q.(tasks := q.tasks[r := q.tasks[r].(transferredBytes := sent.value)])
      else q' == q
  {
    FirstActiveIsListed(q.tasks, q.list);
  }

  /**
   * The end of the awaited transfer: its task is completed with all its bytes, or failed; the loop goes on, and only
   * queued tasks may start or fail.
   */
  lemma FinishedExactly(q: Queue, ok: bool, fails: SyncFailure)
    requires Inv(q) && q.flight.Some?
    ensures var q' := Apply(q, FinishedE(ok), fails);
      var r := q.flight.value;
      && |q'.tasks| == |q.tasks| && q'.list == q.list
      && (if ok then q'.tasks[r] == q.tasks[r].(transferredBytes := q.tasks[r].totalBytes, status := Completed)
          else q'.tasks[r] == q.tasks[r].(status := Failed))
      && (forall x | 0 <= x < |q.tasks| && x != r ::
            q'.tasks[x] == q.tasks[x] || (q.tasks[x].status == Queued && q'.tasks[x].status in {InProgress, Failed}))
  {
    FinishedLoop(q, ok);
    PumpKeeps(AfterTransfer(q, ok), fails);
  }

  lemma CancelledNeverStarts(q: Queue, e: Event, fails: SyncFailure, r: nat)
    requires Inv(q) && r < |q.tasks| && q.tasks[r].status == Cancelled && q.flight != Some(r)
    ensures Apply(q, e, fails).flight != Some(r)
  {
    match e
    case EnqueueE(id, total) =>
      var q' := q.(tasks := q.tasks + [Task(id, total, 0, Queued)], list := q.list + [|q.tasks|]);
      assert q'.tasks[r] == q.tasks[r];
      ProcessStartsQueued(q', fails);
    case CancelE(id) =>
    case ClearE =>
    case RetryE(id) =>
      var q' := q.(tasks := OnListed(q.tasks, q.list, t => RetryOne(t, id)));
      assert q'.tasks[r] == if r in q.list then RetryOne(q.tasks[r], id) else q.tasks[r];
      ProcessStartsQueued(q', fails);
    case ReportE(sent) =>
    case FinishedE(ok) =>
      if q.flight.Some? {
        PumpStartsQueued(AfterTransfer(q, ok), fails);
      }
  }

  lemma ProcessStartsQueued(q: Queue, fails: SyncFailure)
    requires Distinct(q.list)
    ensures var p := Process(q, fails);
      p.flight != q.flight ==> p.flight.Some? && p.flight.value < |q.tasks| && q.tasks[p.flight.value].status == Queued
  {
    PumpStartsQueued(q.(isProcessing := true), fails);
  }

  lemma {:induction false} PumpStartsQueued(q: Queue, fails: SyncFailure)
    requires Distinct(q.list)
    ensures var p := Pump(q, fails);
      p.flight != q.flight ==> p.flight.Some? && p.flight.value < |q.tasks| && q.tasks[p.flight.value].status == Queued
    decreases QueuedIn(q.tasks, q.list)
  {
    FirstQueuedFacts(q.tasks, q.list);
    match FirstQueued(q.tasks, q.list)
    case None =>
    case Some(r) =>
      if fails(r) {
        LeavingQueued(q.tasks, q.list, r, Failed);
        PumpStartsQueued(WithStatus(q, r, Failed), fails);
      }
  }

  /** A task cancelled while its transfer is under way: when the transfer ends, the cancellation is overwritten. */
  lemma CancelInFlightIsOverwritten(id: nat, total: nat, ok: bool, fails: SyncFailure)
    requires !fails(0)
    ensures var started := Apply(EMPTY, EnqueueE(id, total), fails);
      var cancelled := Apply(started, CancelE(id), fails);
      var ended := Apply(cancelled, FinishedE(ok), fails);
      && Has(started.tasks, 0, InProgress) && Has(cancelled.tasks, 0, Cancelled)
      && Has(ended.tasks, 0, if ok then Completed else Failed)
  {
    hide Apply;
    EmptyKeepsInv();
    EnqueueExactly(EMPTY, id, total, fails);
    EventKeepsInv(EMPTY, EnqueueE(id, total), fails);
    var started := Apply(EMPTY, EnqueueE(id, total), fails);
    assert started.list == [0] && 0 in started.list;
    CancelExactly(started, id, fails);
    EventKeepsInv(started, CancelE(id), fails);
    FinishedExactly(Apply(started, CancelE(id), fails), ok, fails);
  }

  lemma EmptyKeepsInv()
    ensures Inv(EMPTY)
  {
  }

  // ---- runs ----

  /** The events in turn; fails(k) says which attempts throw at the k-th, so that a retry may go through. */
  function Run(q: Queue, es: seq<Event>, fails: nat -> SyncFailure, k: nat): Queue
    requires Inv(q)
    decreases |es|
  {
    if es == [] then q else
    EventKeepsInv(q, es[0], fails(k));
    Run(Apply(q, es[0], fails(k)), es[1..], fails, k + 1)
  }

  /**
   * Over any run of events from any good state, completed tasks stay completed and idle cancelled tasks stay
   * cancelled.
   */
  lemma {:induction false} RunKeepsInvAndFinality(q: Queue, es: seq<Event>, fails: nat -> SyncFailure, k: nat, r: nat)
    requires Inv(q)
    ensures Inv(Run(q, es, fails, k))
    ensures r < |q.tasks| ==> r < |Run(q, es, fails, k).tasks|
    ensures r < |q.tasks| && q.tasks[r].status == Completed ==> Run(q, es, fails, k).tasks[r].status == Completed
    ensures r < |q.tasks| && q.tasks[r].status == Cancelled && q.flight != Some(r) ==>
      Run(q, es, fails, k).tasks[r].status == Cancelled && Run(q, es, fails, k).flight != Some(r)
    decreases |es|
  {
    if es != [] {
      EventKeepsInv(q, es[0], fails(k));
      if r < |q.tasks| {
        FinalStatuses(q, es[0], fails(k), r);
        if q.tasks[r].status == Cancelled && q.flight != Some(r) {
          CancelledNeverStarts(q, es[0], fails(k), r);
        }
      }
      RunKeepsInvAndFinality(Apply(q, es[0], fails(k)), es[1..], fails, k + 1, r);
    }
  }

  // ---- the loop ends ----

  /** Transfers still to be awaited at most. */
  function Pending(q: Queue): nat {
    QueuedIn(q.tasks, q.list) + if q.flight.Some? then 1 else 0
  }

  predicate AddsWork(e: Event) {
    e.EnqueueE? || e.RetryE?
  }

  lemma {:induction false} FewerQueued(a: seq<Task>, b: seq<Task>, list: seq<nat>)
    requires |a| == |b| && forall r | 0 <= r < |a| :: b[r].status == Queued ==> a[r].status == Queued
    ensures QueuedIn(b, list) <= QueuedIn(a, list)
  {
    if list != [] {
      FewerQueued(a, b, list[1..]);
    }
  }

  lemma {:induction false} KeptKeepsQueued(tasks: seq<Task>, list: seq<nat>)
    ensures QueuedIn(tasks, Kept(tasks, list)) == QueuedIn(tasks, list)
  {
    if list != [] {
      KeptKeepsQueued(tasks, list[1..]);
      if list[0] < |tasks| && tasks[list[0]].status != Completed && tasks[list[0]].status != Cancelled {
        assert Kept(tasks, list)[1..] == Kept(tasks, list[1..]);
      } else {
        assert Kept(tasks, list) == Kept(tasks, list[1..]);
      }
    }
  }

  lemma {:induction false} PumpUsesUpWork(q: Queue, fails: SyncFailure)
    requires LoopInv(q)
    ensures Pending(Pump(q, fails)) <= QueuedIn(q.tasks, q.list)
    decreases QueuedIn(q.tasks, q.list)
  {
    FirstQueuedFacts(q.tasks, q.list);
    match FirstQueued(q.tasks, q.list)
    case None =>
    case Some(r) =>
      LeavingQueued(q.tasks, q.list, r, InProgress);
      if fails(r) {
        LeavingQueued(q.tasks, q.list, r, Failed);
        PumpUsesUpWork(WithStatus(q, r, Failed), fails);
      }
  }

  /** Without new work no event adds to the pending transfers, and each end of a transfer takes one away. */
  lemma WorkDecreases(q: Queue, e: Event, fails: SyncFailure)
    requires Inv(q) && !AddsWork(e)
    ensures Pending(Apply(q, e, fails)) + (if e.FinishedE? && q.flight.Some? then 1 else 0) <= Pending(q)
  {
    match e
    case CancelE(id) => FewerQueued(q.tasks, Cancel(q, id).tasks, q.list);
    case ClearE => KeptKeepsQueued(q.tasks, q.list);
    case ReportE(sent) => FewerQueued(q.tasks, Report(q, sent).tasks, q.list);
    case FinishedE(ok) =>
      if q.flight.Some? {
        FinishedLoop(q, ok);
        PumpUsesUpWork(AfterTransfer(q, ok), fails);
        FewerQueued(q.tasks, AfterTransfer(q, ok).tasks, q.list);
      }
  }

  /** How many transfers end during the run. */
  function Ends(q: Queue, es: seq<Event>, fails: nat -> SyncFailure, k: nat): nat
    requires Inv(q)
    decreases |es|
  {
    if es == [] then 0 else
    EventKeepsInv(q, es[0], fails(k));
    (if es[0].FinishedE? && q.flight.Some? then 1 else 0) + Ends(Apply(q, es[0], fails(k)), es[1..], fails, k + 1)
  }

  /**
   * Without new work only boundedly many transfers end; once that many have, the loop has stopped with nothing
   * queued.
   */
  lemma {:induction false} LoopEnds(q: Queue, es: seq<Event>, fails: nat -> SyncFailure, k: nat)
    requires Inv(q) && forall i | 0 <= i < |es| :: !AddsWork(es[i])
    ensures Ends(q, es, fails, k) + Pending(Run(q, es, fails, k)) <= Pending(q)
    ensures var end := Run(q, es, fails, k);
      Ends(q, es, fails, k) == Pending(q) ==>
        !end.isProcessing && forall r | 0 <= r < |end.tasks| :: end.tasks[r].status != Queued
    decreases |es|
  {
    RunKeepsInvAndFinality(q, es, fails, k, 0);
    if es != [] {
      EventKeepsInv(q, es[0], fails(k));
      WorkDecreases(q, es[0], fails(k));
      LoopEnds(Apply(q, es[0], fails(k)), es[1..], fails, k + 1);
    }
  }

  // ---- the notifier ----

  lemma KeptNothing(tasks: seq<Task>, list: seq<nat>)
    requires list == []
    ensures Kept(tasks, list) == []
  {
  }

  /** One turn of where(): the next entry is kept or not, and the rest comes behind it. */
  lemma KeptStep(tasks: seq<Task>, list: seq<nat>, i: nat, kept: seq<nat>)
    requires i < |list| && list[i] < |tasks|
    ensures var stays := tasks[list[i]].status != Completed && tasks[list[i]].status != Cancelled;
      kept + Kept(tasks, list[i..]) == (if stays then kept + [list[i]] else kept) + Kept(tasks, list[i + 1..])
  {
    assert list[i..][1..] == list[i + 1..];
    var rest := Kept(tasks, list[i + 1..]);
    Associate(kept, [list[i]], rest);
    assert [] + rest == rest;
  }

  class TransferNotifier {
    var tasks: seq<Task>
    var state: seq<nat>
    var isProcessing: bool
    var flight: Option<nat>

    constructor ()
      ensures Abs() == EMPTY && Inv(Abs())
    {
      tasks, state, isProcessing, flight := [], [], false, None;
    }

    function Abs(): Queue
      reads this
    {
      Queue(tasks, state, isProcessing, flight)
    }

    /** indexWhere over the list. */
    method IndexOfQueued() returns (r: Option<nat>)
      ensures r == FirstQueued(tasks, state)
    {
      var i := 0;
      assert state[0..] == state;
      while i < |state|
        invariant 0 <= i <= |state|
        invariant FirstQueued(tasks, state) == FirstQueued(tasks, state[i..])
      {
        assert state[i..][1..] == state[i + 1..];
        if state[i] < |tasks| && tasks[state[i]].status == Queued {
          return Some(state[i]);
        }
        i := i + 1;
      }
      r := None;
    }

    /** The loop of _processQueue up to its next await. */
    method RunLoop(fails: SyncFailure)
      requires Wf(Abs()) && isProcessing
      modifies this
      ensures Abs() == Pump(old(Abs()), fails)
    {
      ghost var q := Abs();
      while true
        invariant Wf(Abs()) && isProcessing
        invariant Pump(Abs(), fails) == Pump(q, fails)
        decreases QueuedIn(tasks, state)
      {
        var next := IndexOfQueued();
        FirstQueuedFacts(tasks, state);
        if next == None {
          break;
        }
        var r := next.value;
        if fails(r) {
          LeavingQueued(tasks, state, r, Failed);
          tasks := tasks[r := tasks[r].(status := Failed)];
        } else {
          tasks := tasks[r := tasks[r].(status := InProgress)];
          flight := Some(r);
          return;
        }
      }
      isProcessing := false;
    }

    method ProcessQueue(fails: SyncFailure)
      requires Wf(Abs())
      modifies this
      ensures Abs() == Process(old(Abs()), fails)
    {
      if isProcessing {
        return;
      }
      isProcessing := true;
      RunLoop(fails);
    }

    /** enqueueUpload of an existing file, and enqueueDownload. */
    method EnqueueTask(id: nat, totalBytes: nat, fails: SyncFailure)
      requires Inv(Abs())
      modifies this
      ensures Abs() == Apply(old(Abs()), EnqueueE(id, totalBytes), fails) && Inv(Abs())
    {
      EventKeepsInv(Abs(), EnqueueE(id, totalBytes), fails);
      state := state + [|tasks|];
      tasks := tasks + [Task(id, totalBytes, 0, Queued)];
      ProcessQueue(fails);
    }

    /** state.map: visits the listed tasks in order and replaces each by f of it. */
    method MapListed(f: Task -> Task)
      requires Wf(Abs())
      modifies this`tasks
      ensures tasks == OnListed(old(tasks), state, f)
    {
      var i := 0;
      while i < |state|
        invariant 0 <= i <= |state| && |tasks| == |old(tasks)|
        invariant forall r | 0 <= r < |tasks| :: tasks[r] == if r in state[..i] then f(old(tasks)[r]) else old(tasks)[r]
      {
        var r := state[i];
        assert r !in state[..i];
        assert state[..i + 1] == state[..i] + [r];
        tasks := tasks[r := f(tasks[r])];
        i := i + 1;
      }
      assert state[..i] == state;
    }

    method CancelTask(id: nat)
      requires Inv(Abs())
      modifies this
      ensures Abs() == Apply(old(Abs()), CancelE(id), _ => false) && Inv(Abs())
    {
      EventKeepsInv(Abs(), CancelE(id), _ => false);
      MapListed(t => CancelOne(t, id));
    }

    method RetryTask(id: nat, fails: SyncFailure)
      requires Inv(Abs())
      modifies this
      ensures Abs() == Apply(old(Abs()), RetryE(id), fails) && Inv(Abs())
    {
      EventKeepsInv(Abs(), RetryE(id), fails);
      MapListed(t => RetryOne(t, id));
      ProcessQueue(fails);
    }

    /** state.where: visits the listed tasks in order and keeps those that are not over. */
    method WhereUnfinished() returns (kept: seq<nat>)
      requires forall i | 0 <= i < |state| :: state[i] < |tasks|
      ensures kept == Kept(tasks, state)
    {
      hide Kept;
      kept := [];
      var i := 0;
      assert state[0..] == state && kept + Kept(tasks, state) == Kept(tasks, state);
      while i < |state|
        invariant 0 <= i <= |state|
        invariant kept + Kept(tasks, state[i..]) == Kept(tasks, state)
      {
        var r := state[i];
        KeptStep(tasks, state, i, kept);
        if tasks[r].status != Completed && tasks[r].status != Cancelled {
          kept := kept + [r];
        }
        i := i + 1;
      }
      KeptNothing(tasks, state[i..]);
      assert kept + [] == kept;
    }

    method ClearCompleted()
      requires Inv(Abs())
      modifies this
      ensures Abs() == Apply(old(Abs()), ClearE, _ => false) && Inv(Abs())
    {
      EventKeepsInv(Abs(), ClearE, _ => false);
      var kept := WhereUnfinished();
      state := kept;
    }

    /** The listener on the client's progress stream. */
    method OnProgress(sent: Option<nat>)
      requires Inv(Abs())
      modifies this
      ensures Abs() == Apply(old(Abs()), ReportE(sent), _ => false) && Inv(Abs())
    {
      EventKeepsInv(Abs(), ReportE(sent), _ => false);
      var i := 0;
      assert state[0..] == state;
      while i < |state| && tasks[state[i]].status != InProgress
        invariant 0 <= i <= |state|
        invariant FirstActive(tasks, state) == FirstActive(tasks, state[i..])
      {
        assert state[i..][1..] == state[i + 1..];
        i := i + 1;
      }
      if i < |state| && sent.Some? {
        var r := state[i];
        tasks := tasks[r := tasks[r].(transferredBytes := sent.value)];
      }
    }

    /** The awaited transfer returns or throws. */
    method TransferEnded(ok: bool, fails: SyncFailure)
      requires Inv(Abs()) && flight.Some?
      modifies this
      ensures Abs() == Apply(old(Abs()), FinishedE(ok), fails) && Inv(Abs())
    {
      EventKeepsInv(Abs(), FinishedE(ok), fails);
      var r := flight.value;
      if ok {
        tasks := tasks[r := tasks[r].(transferredBytes := tasks[r].totalBytes)];
        tasks := tasks[r := tasks[r].(status := Completed)];
      } else {
        tasks := tasks[r := tasks[r].(status := Failed)];
      }
      flight := None;
      assert Abs() == AfterTransfer(old(Abs()), ok);
      RunLoop(fails);
    }
  }
}
