/** Tasks running on top of the token chains, as a step system.

    A task is submitted in one atomic step, starts once all its token futures are ready, works
    on its objects one operation at a time while other tasks do the same, and when it has finished
    destroys its tokens one after the other, in any order.  Any interleaving of these steps is a run. */
module TaskProtocol {
  import opened Wrappers
  import opened Dataflow

  type Store = map<ObjectId, int>

  /** One access of a kernel: reads `obj` into the task's private register and writes it back.
      An operation that only reads returns the value unchanged. */
  datatype Op = Op(obj: ObjectId, act: (int, int) -> (int, int))

  datatype Task = Task(args: seq<ObjectId>, results: seq<ObjectId>, ops: seq<Op>) {
    function Objs(): seq<ObjectId> { args + results }

    predicate Touches(o: ObjectId) { o in Objs() }

    /** A kernel only reaches the objects it was handed. */
    predicate Wellformed() {
      forall k :: 0 <= k < |ops| ==> Touches(ops[k].obj)
    }

    predicate Distinct() {
      forall p, q :: 0 <= p < q < |Objs()| ==> Objs()[p] != Objs()[q]
    }
  }

  datatype Phase = Waiting | Running(pc: nat, reg: int) | Finished

  /** Promise number `token.event`, created for task `owner`. */
  datatype Request = Request(owner: nat, obj: ObjectId, token: TokenFuture)

  /** `requests` lists the promises in the order they were created; the ones of task `i` start
      at `first[i]`. */
  datatype State = State(
    wavefront: map<ObjectId, EventId>,
    fulfilled: set<EventId>,
    requests: seq<Request>,
    tasks: seq<Task>,
    first: seq<EventId>,
    phases: seq<Phase>,
    store: Store)

  datatype Action = Submit(task: Task) | Start(i: nat) | Exec(i: nat) | Finish(i: nat) | Release(e: EventId)

  function Load(store: Store, o: ObjectId): int {
    if o in store then store[o] else 0
  }

  function Init(store: Store): State {
    State(map[], {}, [], [], [], [], store)
  }

  predicate Shape(s: State) {
    && |s.tasks| == |s.first| == |s.phases|
    && (forall i :: 0 <= i < |s.tasks| ==> s.first[i] + |s.tasks[i].Objs()| <= |s.requests|)
  }

  predicate Ready(s: State, e: EventId)
    requires e < |s.requests|
  {
    s.requests[e].token.awaits == None || s.requests[e].token.awaits.value in s.fulfilled
  }

  predicate Enabled(s: State, a: Action)
    requires Shape(s)
  {
    match a
    case Submit(task) => task.Wellformed()
    case Start(i) =>
      && i < |s.tasks| && s.phases[i] == Waiting
      && forall e :: s.first[i] <= e < s.first[i] + |s.tasks[i].Objs()| ==> Ready(s, e)
    case Exec(i) => i < |s.tasks| && s.phases[i].Running? && s.phases[i].pc < |s.tasks[i].ops|
    case Finish(i) => i < |s.tasks| && s.phases[i].Running? && s.phases[i].pc == |s.tasks[i].ops|
    case Release(e) =>
      && e < |s.requests| && e !in s.fulfilled
      && s.requests[e].owner < |s.tasks| && s.phases[s.requests[e].owner] == Finished
  }

  function ApplyOp(op: Op, reg: int, store: Store): (int, Store) {
    var (reg', value) := op.act(reg, Load(store, op.obj));
    (reg', store[op.obj := value])
  }

  function MakeRequests(owner: nat, objs: seq<ObjectId>, tokens: seq<TokenFuture>): (rs: seq<Request>)
    requires |objs| == |tokens|
  {
    seq(|objs|, p requires 0 <= p < |objs| => Request(owner, objs[p], tokens[p]))
  }

  function Apply(s: State, a: Action): State
    requires Shape(s) && Enabled(s, a)
  {
    match a
    case Submit(task) =>
      var tokens := Tokens(s.wavefront, |s.requests|, task.Objs());
      s.(wavefront := Wave(s.wavefront, |s.requests|, task.Objs()),
         requests := s.requests + MakeRequests(|s.tasks|, task.Objs(), tokens),
         tasks := s.tasks + [task],
         first := s.first + [|s.requests|],
         phases := s.phases + [Waiting])
    case Start(i) => s.(phases := s.phases[i := Running(0, 0)])
    case Exec(i) =>
      var pc := s.phases[i].pc;
      var (reg, store) := ApplyOp(s.tasks[i].ops[pc], s.phases[i].reg, s.store);
      s.(phases := s.phases[i := Running(pc + 1, reg)], store := store)
    case Finish(i) => s.(phases := s.phases[i := Finished])
    case Release(e) => s.(fulfilled := s.fulfilled + {e})
  }

  /** The actions can be taken in this order from `s` and lead to `s'`. */
  ghost predicate IsRun(s: State, actions: seq<Action>, s': State)
    decreases |actions|
  {
    if actions == [] then s == s'
    else Shape(s) && Enabled(s, actions[0]) && IsRun(Apply(s, actions[0]), actions[1..], s')
  }

  predicate AllReleased(s: State) { forall e :: 0 <= e < |s.requests| ==> e in s.fulfilled }

  predicate AllDone(s: State) {
    (forall i :: 0 <= i < |s.phases| ==> s.phases[i] == Finished) && AllReleased(s)
  }

  // The reference: tasks one after the other.

  /** Register and store after the first `pc` operations of `task`. */
  function After(task: Task, pc: nat, store: Store): (int, Store)
    requires pc <= |task.ops|
  {
    if pc == 0 then (0, store)
    else
      var (reg, store') := After(task, pc - 1, store);
      ApplyOp(task.ops[pc - 1], reg, store')
  }

  function Serial(tasks: seq<Task>, k: nat, store: Store): Store
    requires k <= |tasks|
  {
    if k == 0 then store
    else After(tasks[k - 1], |tasks[k - 1].ops|, Serial(tasks, k - 1, store)).1
  }

  // The invariant.

  ghost predicate Started(s: State, i: nat)
    requires Shape(s) && i < |s.tasks|
  {
    s.phases[i] != Waiting
  }

  ghost predicate NumberedAt(s: State, e: EventId)
    requires Shape(s) && e < |s.requests|
  {
    var request := s.requests[e];
    && request.token.event == e
    && request.owner < |s.tasks|
    && s.first[request.owner] <= e < s.first[request.owner] + |s.tasks[request.owner].Objs()|
    && s.tasks[request.owner].Objs()[e - s.first[request.owner]] == request.obj
  }

  ghost predicate ListedAt(s: State, i: nat, p: nat)
    requires Shape(s) && i < |s.tasks| && p < |s.tasks[i].Objs()|
  {
    s.requests[s.first[i] + p].owner == i && s.requests[s.first[i] + p].obj == s.tasks[i].Objs()[p]
  }

  ghost predicate OrderedAt(s: State, d: EventId, e: EventId)
    requires d < e < |s.requests|
  {
    s.requests[d].owner <= s.requests[e].owner
  }

  ghost predicate Numbered(s: State)
    requires Shape(s)
  {
    && (forall e :: 0 <= e < |s.requests| ==> NumberedAt(s, e))
    && (forall i, p :: 0 <= i < |s.tasks| && 0 <= p < |s.tasks[i].Objs()| ==> ListedAt(s, i, p))
    && (forall d, e :: 0 <= d < e < |s.requests| ==> OrderedAt(s, d, e))
  }

  ghost predicate AwaitsSameObject(s: State, e: EventId)
    requires e < |s.requests|
  {
    s.requests[e].token.awaits.Some? ==>
      && s.requests[e].token.awaits.value < e
      && s.requests[s.requests[e].token.awaits.value].obj == s.requests[e].obj
  }

  ghost predicate AwaitsNoEarlier(s: State, d: EventId, e: EventId)
    requires d < e < |s.requests|
  {
    s.requests[d].obj == s.requests[e].obj ==>
      && s.requests[e].token.awaits.Some?
      && d <= s.requests[e].token.awaits.value
  }

  /** Every token awaits the nearest earlier request for its object. */
  ghost predicate Chained(s: State) {
    && (forall e :: 0 <= e < |s.requests| ==> AwaitsSameObject(s, e))
    && (forall d, e :: 0 <= d < e < |s.requests| ==> AwaitsNoEarlier(s, d, e))
  }

  ghost predicate NotBeyondWavefront(s: State, e: EventId)
    requires e < |s.requests|
  {
    s.requests[e].obj in s.wavefront && e <= s.wavefront[s.requests[e].obj]
  }

  /** The wavefront holds the latest request of every object requested so far. */
  ghost predicate WavefrontIsLatest(s: State) {
    && (forall e :: 0 <= e < |s.requests| ==> NotBeyondWavefront(s, e))
    && (forall o :: o in s.wavefront ==> s.wavefront[o] < |s.requests| && s.requests[s.wavefront[o]].obj == o)
  }

  /** Only finished tasks destroy tokens, and only tasks with all their tokens ready have started. */
  ghost predicate HeldAt(s: State, e: EventId)
    requires Shape(s) && e < |s.requests| && NumberedAt(s, e)
  {
    && (e in s.fulfilled ==> s.phases[s.requests[e].owner] == Finished)
    && (Started(s, s.requests[e].owner) ==> Ready(s, e))
  }

  ghost predicate HeldWhileRunning(s: State)
    requires Shape(s) && Numbered(s)
  {
    && (forall e :: 0 <= e < |s.requests| ==> HeldAt(s, e))
    && (forall e :: e in s.fulfilled ==> e < |s.requests|)
  }

  /** A started task has distinct objects and outlived every earlier task it shares one with. */
  ghost predicate InOrder(s: State)
    requires Shape(s)
  {
    && (forall i :: 0 <= i < |s.tasks| && Started(s, i) ==> s.tasks[i].Distinct())
    && (forall i, j, o {:trigger s.tasks[i].Touches(o), s.tasks[j].Touches(o)} ::
          0 <= j < i < |s.tasks| && Started(s, i) && s.tasks[i].Touches(o) && s.tasks[j].Touches(o) ==>
          s.phases[j] == Finished)
  }

  /** Everything before task `i` that touches `o` has finished, and `i` is the next to touch it
      (`i == |s.tasks|` if no task is left). */
  ghost predicate Front(s: State, o: ObjectId, i: nat)
    requires Shape(s)
  {
    && i <= |s.tasks|
    && (forall j :: 0 <= j < i && s.tasks[j].Touches(o) ==> s.phases[j] == Finished)
    && (i < |s.tasks| ==> s.tasks[i].Touches(o) && s.phases[i] != Finished)
  }

  function Pc(phase: Phase): nat {
    if phase.Running? then phase.pc else 0
  }

  ghost predicate PcInRange(s: State)
    requires Shape(s)
  {
    forall i :: 0 <= i < |s.tasks| ==> Pc(s.phases[i]) <= |s.tasks[i].ops| && s.tasks[i].Wellformed()
  }

  /** Register and store of the serial execution when task `i` is where it is now. */
  ghost function Expected(s: State, init: Store, i: nat): (int, Store)
    requires Shape(s) && PcInRange(s) && i <= |s.tasks|
  {
    if i == |s.tasks| then (0, Serial(s.tasks, i, init))
    else After(s.tasks[i], Pc(s.phases[i]), Serial(s.tasks, i, init))
  }

  ghost predicate AgreesWithSerial(s: State, init: Store)
    requires Shape(s) && PcInRange(s)
  {
    && (forall o, i :: Front(s, o, i) ==> Load(s.store, o) == Load(Expected(s, init, i).1, o))
    && (forall i :: 0 <= i < |s.tasks| && s.phases[i].Running? ==> s.phases[i].reg == Expected(s, init, i).0)
  }

  ghost predicate Protocol(s: State) {
    && Shape(s) && PcInRange(s) && Numbered(s)
    && Chained(s) && WavefrontIsLatest(s) && HeldWhileRunning(s) && InOrder(s)
  }

  // Tokens become ready first come, first served.

  /** A token is ready only after every earlier token of its object was destroyed. */
  lemma {:induction false} ReadyInRequestOrder(s: State, d: EventId, e: EventId)
    requires Protocol(s) && d < e < |s.requests|
    requires s.requests[d].obj == s.requests[e].obj && Ready(s, e)
    ensures d in s.fulfilled
    decreases e
  {
    assert AwaitsNoEarlier(s, d, e) && AwaitsSameObject(s, e);
    var c := s.requests[e].token.awaits.value;
    assert NumberedAt(s, c) && HeldAt(s, c);
    if d < c {
      assert Started(s, s.requests[c].owner);
      ReadyInRequestOrder(s, d, c);
    }
  }

  /** At most one ready token of an object is still held. */
  lemma MutualExclusion(s: State, d: EventId, e: EventId)
    requires Protocol(s) && d < |s.requests| && e < |s.requests| && s.requests[d].obj == s.requests[e].obj
    requires Ready(s, d) && d !in s.fulfilled
    requires Ready(s, e) && e !in s.fulfilled
    ensures d == e
  {
    if d < e {
      ReadyInRequestOrder(s, d, e);
    } else if e < d {
      ReadyInRequestOrder(s, e, d);
    }
  }

  // Preservation, one action at a time.

  lemma NewRequest(s: State, task: Task, p: nat)
    requires Shape(s) && task.Wellformed() && p < |task.Objs()|
    ensures Apply(s, Submit(task)).requests[|s.requests| + p] ==
            Request(|s.tasks|, task.Objs()[p], Tokens(s.wavefront, |s.requests|, task.Objs())[p])
    ensures Tokens(s.wavefront, |s.requests|, task.Objs())[p].event == |s.requests| + p
  {
    TokenAwaits(s.wavefront, |s.requests|, task.Objs(), p);
  }

  lemma SubmitNumbersAt(s: State, task: Task, e: EventId)
    requires Shape(s) && Numbered(s) && task.Wellformed() && e < |Apply(s, Submit(task)).requests|
    ensures Shape(Apply(s, Submit(task))) && NumberedAt(Apply(s, Submit(task)), e)
  {
    if e < |s.requests| {
      assert NumberedAt(s, e);
    } else {
      NewRequest(s, task, e - |s.requests|);
    }
  }

  lemma SubmitNumbers(s: State, task: Task)
    requires Shape(s) && Numbered(s) && task.Wellformed()
    ensures Shape(Apply(s, Submit(task))) && Numbered(Apply(s, Submit(task)))
  {
    var s' := Apply(s, Submit(task));
    forall e | 0 <= e < |s'.requests|
      ensures NumberedAt(s', e)
    {
      SubmitNumbersAt(s, task, e);
    }
    forall i, p | 0 <= i < |s'.tasks| && 0 <= p < |s'.tasks[i].Objs()|
      ensures ListedAt(s', i, p)
    {
      if i < |s.tasks| {
        assert ListedAt(s, i, p);
      } else {
        NewRequest(s, task, p);
      }
    }
    forall d, e | 0 <= d < e < |s'.requests|
      ensures OrderedAt(s', d, e)
    {
      SubmitNumbersAt(s, task, d);
      if e < |s.requests| {
        assert OrderedAt(s, d, e);
      } else {
        NewRequest(s, task, e - |s.requests|);
      }
    }
  }

  lemma NewTokenAwaits(s: State, task: Task, p: nat)
    requires Shape(s) && WavefrontIsLatest(s) && task.Wellformed() && p < |task.Objs()|
    ensures AwaitsSameObject(Apply(s, Submit(task)), |s.requests| + p)
  {
    var s' := Apply(s, Submit(task));
    var n, objs := |s.requests|, task.Objs();
    NewRequest(s, task, p);
    if objs[p] in objs[..p] {
      var q :| 0 <= q < p && objs[..p][q] == objs[p];
      var r := BatchPredecessor(s.wavefront, n, objs, p, q);
      NewRequest(s, task, r);
    } else {
      TokenAwaits(s.wavefront, n, objs, p);
    }
  }

  lemma BatchPredecessor(wavefront: map<ObjectId, EventId>, n: EventId, objs: seq<ObjectId>, p: nat, q: nat)
    returns (r: nat)
    requires q < p < |objs| && objs[q] == objs[p]
    ensures q <= r < p && objs[r] == objs[p]
    ensures Tokens(wavefront, n, objs)[p].awaits == Some(n + r)
  {
    TokenAwaits(wavefront, n, objs, p);
    r :| q <= r < p && objs[r] == objs[p] && Tokens(wavefront, n, objs)[p].awaits == Some(n + r);
  }

  lemma NewTokenAwaitsNearest(s: State, task: Task, d: EventId, p: nat)
    requires Shape(s) && WavefrontIsLatest(s) && task.Wellformed() && p < |task.Objs()| && d < |s.requests| + p
    ensures AwaitsNoEarlier(Apply(s, Submit(task)), d, |s.requests| + p)
  {
    var n, objs := |s.requests|, task.Objs();
    NewRequest(s, task, p);
    TokenAwaits(s.wavefront, n, objs, p);
    if d < n {
      assert NotBeyondWavefront(s, d);
      if objs[p] in objs[..p] {
        var q :| 0 <= q < p && objs[..p][q] == objs[p];
        assert objs[q] == objs[p];
      }
    } else {
      NewRequest(s, task, d - n);
    }
  }

  lemma SubmitChains(s: State, task: Task)
    requires Shape(s) && Chained(s) && WavefrontIsLatest(s) && task.Wellformed()
    ensures Chained(Apply(s, Submit(task)))
  {
    var s' := Apply(s, Submit(task));
    var n := |s.requests|;
    forall e | 0 <= e < |s'.requests|
      ensures AwaitsSameObject(s', e)
    {
      if e < n {
        assert AwaitsSameObject(s, e);
      } else {
        NewTokenAwaits(s, task, e - n);
      }
    }
    forall d, e | 0 <= d < e < |s'.requests|
      ensures AwaitsNoEarlier(s', d, e)
    {
      if e < n {
        assert AwaitsNoEarlier(s, d, e);
      } else {
        NewTokenAwaitsNearest(s, task, d, e - n);
      }
    }
  }

  lemma SubmitAdvancesWavefront(s: State, task: Task)
    requires Shape(s) && WavefrontIsLatest(s) && task.Wellformed()
    ensures WavefrontIsLatest(Apply(s, Submit(task)))
  {
    var s' := Apply(s, Submit(task));
    var n, objs := |s.requests|, task.Objs();
    forall e | 0 <= e < |s'.requests|
      ensures NotBeyondWavefront(s', e)
    {
      WaveLookup(s.wavefront, n, objs, s'.requests[e].obj);
      if n <= e {
        assert s'.requests[e].obj == objs[e - n];
      } else {
        assert NotBeyondWavefront(s, e);
      }
    }
    forall o | o in s'.wavefront
      ensures s'.wavefront[o] < |s'.requests| && s'.requests[s'.wavefront[o]].obj == o
    {
      WaveLookup(s.wavefront, n, objs, o);
    }
  }

  lemma SubmitKeepsProtocol(s: State, task: Task)
    requires Protocol(s) && task.Wellformed()
    ensures Protocol(Apply(s, Submit(task)))
  {
    var s' := Apply(s, Submit(task));
    SubmitNumbers(s, task);
    SubmitChains(s, task);
    SubmitAdvancesWavefront(s, task);
    forall e | 0 <= e < |s'.requests|
      ensures HeldAt(s', e)
    {
      assert NumberedAt(s', e);
      if e < |s.requests| {
        assert NumberedAt(s, e) && HeldAt(s, e);
      } else {
        NewRequest(s, task, e - |s.requests|);
      }
    }
  }

  /** The tokens of task `i` are all ready only if its objects are pairwise distinct. */
  lemma ReadyTaskIsDistinct(s: State, i: nat)
    requires Protocol(s) && Enabled(s, Start(i))
    ensures s.tasks[i].Distinct()
  {
    var objs := s.tasks[i].Objs();
    forall p, q | 0 <= p < q < |objs|
      ensures objs[p] != objs[q]
    {
      var d, e := s.first[i] + p, s.first[i] + q;
      assert ListedAt(s, i, p) && ListedAt(s, i, q);
      assert HeldAt(s, d) && Ready(s, e);
      if objs[p] == objs[q] {
        ReadyInRequestOrder(s, d, e);
      }
    }
  }

  lemma ReadyTaskIsNext(s: State, i: nat, j: nat, o: ObjectId)
    requires Protocol(s) && Enabled(s, Start(i)) && j < i
    requires s.tasks[i].Touches(o) && s.tasks[j].Touches(o)
    ensures s.phases[j] == Finished
  {
    var p :| 0 <= p < |s.tasks[i].Objs()| && s.tasks[i].Objs()[p] == o;
    var q :| 0 <= q < |s.tasks[j].Objs()| && s.tasks[j].Objs()[q] == o;
    var e, d := s.first[i] + p, s.first[j] + q;
    assert ListedAt(s, i, p) && ListedAt(s, j, q);
    assert e < d ==> OrderedAt(s, e, d);
    ReadyInRequestOrder(s, d, e);
    assert HeldAt(s, d);
  }

  /** A change of phase that keeps `fulfilled` in step keeps everything about the requests. */
  lemma PhaseKeepsNumbers(s: State, s': State)
    requires Protocol(s) && Shape(s')
    requires s'.requests == s.requests && s'.tasks == s.tasks && s'.first == s.first && s'.wavefront == s.wavefront
    ensures Numbered(s') && Chained(s') && WavefrontIsLatest(s')
  {
    forall e | 0 <= e < |s.requests|
      ensures NumberedAt(s', e) && AwaitsSameObject(s', e) && NotBeyondWavefront(s', e)
    {
      assert NumberedAt(s, e) && AwaitsSameObject(s, e) && NotBeyondWavefront(s, e);
    }
    forall i, p | 0 <= i < |s.tasks| && 0 <= p < |s.tasks[i].Objs()|
      ensures ListedAt(s', i, p)
    {
      assert ListedAt(s, i, p);
    }
    forall d, e | 0 <= d < e < |s.requests|
      ensures OrderedAt(s', d, e) && AwaitsNoEarlier(s', d, e)
    {
      assert OrderedAt(s, d, e) && AwaitsNoEarlier(s, d, e);
    }
  }

  lemma StartKeepsProtocol(s: State, i: nat)
    requires Protocol(s) && Enabled(s, Start(i))
    ensures Protocol(Apply(s, Start(i)))
  {
    var s' := Apply(s, Start(i));
    PhaseKeepsNumbers(s, s');
    ReadyTaskIsDistinct(s, i);
    forall j, o | 0 <= j < i && s.tasks[i].Touches(o) && s.tasks[j].Touches(o)
      ensures s.phases[j] == Finished
    {
      ReadyTaskIsNext(s, i, j, o);
    }
    forall e | 0 <= e < |s.requests|
      ensures HeldAt(s', e)
    {
      assert NumberedAt(s, e) && NumberedAt(s', e) && HeldAt(s, e);
      assert s.requests[e].owner == i ==> Ready(s, e);
    }
  }

  lemma ExecKeepsProtocol(s: State, i: nat)
    requires Protocol(s) && Enabled(s, Exec(i))
    ensures Protocol(Apply(s, Exec(i)))
  {
    var s' := Apply(s, Exec(i));
    PhaseKeepsNumbers(s, s');
    forall e | 0 <= e < |s.requests|
      ensures HeldAt(s', e)
    {
      assert NumberedAt(s, e) && NumberedAt(s', e) && HeldAt(s, e);
    }
  }

  lemma FinishKeepsProtocol(s: State, i: nat)
    requires Protocol(s) && Enabled(s, Finish(i))
    ensures Protocol(Apply(s, Finish(i)))
  {
    var s' := Apply(s, Finish(i));
    PhaseKeepsNumbers(s, s');
    forall e | 0 <= e < |s.requests|
      ensures HeldAt(s', e)
    {
      assert NumberedAt(s, e) && NumberedAt(s', e) && HeldAt(s, e);
    }
  }

  lemma ReleaseKeepsProtocol(s: State, e: EventId)
    requires Protocol(s) && Enabled(s, Release(e))
    ensures Protocol(Apply(s, Release(e)))
  {
    var s' := Apply(s, Release(e));
    PhaseKeepsNumbers(s, s');
    forall d | 0 <= d < |s.requests|
      ensures HeldAt(s', d)
    {
      assert NumberedAt(s, d) && NumberedAt(s', d) && HeldAt(s, d);
    }
  }

  // The store agrees with the serial execution.

  lemma {:induction false} SerialIgnoresLater(tasks: seq<Task>, task: Task, k: nat, store: Store)
    requires k <= |tasks|
    ensures Serial(tasks + [task], k, store) == Serial(tasks, k, store)
  {
    if k > 0 {
      SerialIgnoresLater(tasks, task, k - 1, store);
    }
  }

  lemma {:induction false} AfterFrame(task: Task, pc: nat, store: Store, o: ObjectId)
    requires pc <= |task.ops| && task.Wellformed() && !task.Touches(o)
    ensures Load(After(task, pc, store).1, o) == Load(store, o)
  {
    if pc > 0 {
      AfterFrame(task, pc - 1, store, o);
    }
  }

  /** Tasks that do not touch `o` leave it alone. */
  lemma {:induction false} SerialFrame(tasks: seq<Task>, a: nat, b: nat, store: Store, o: ObjectId)
    requires a <= b <= |tasks|
    requires forall k :: a <= k < b ==> tasks[k].Wellformed() && !tasks[k].Touches(o)
    ensures Load(Serial(tasks, b, store), o) == Load(Serial(tasks, a, store), o)
  {
    if a < b {
      SerialFrame(tasks, a, b - 1, store, o);
      AfterFrame(tasks[b - 1], |tasks[b - 1].ops|, Serial(tasks, b - 1, store), o);
    }
  }

  ghost predicate Inv(s: State, init: Store) {
    Protocol(s) && AgreesWithSerial(s, init)
  }

  lemma InitInv(init: Store)
    ensures Inv(Init(init), init)
  {
  }

  lemma SubmitKeepsFront(s: State, task: Task, o: ObjectId, k: nat)
    requires Shape(s) && task.Wellformed() && Shape(Apply(s, Submit(task)))
    requires Front(Apply(s, Submit(task)), o, k)
    ensures Front(s, o, if k < |s.tasks| then k else |s.tasks|)
  {
    var s', n := Apply(s, Submit(task)), |s.tasks|;
    assert forall j :: 0 <= j < n ==> s'.tasks[j] == s.tasks[j] && s'.phases[j] == s.phases[j];
    forall j | 0 <= j < k && j < n && s.tasks[j].Touches(o)
      ensures s.phases[j] == Finished
    {
      assert s'.tasks[j].Touches(o);
    }
  }

  lemma SubmitKeepsExpected(s: State, init: Store, task: Task, o: ObjectId, k: nat)
    requires Inv(s, init) && task.Wellformed() && Protocol(Apply(s, Submit(task)))
    requires Front(Apply(s, Submit(task)), o, k)
    ensures Load(s.store, o) == Load(Expected(Apply(s, Submit(task)), init, k).1, o)
  {
    hide Numbered, Chained, WavefrontIsLatest, HeldWhileRunning;
    var s', n := Apply(s, Submit(task)), |s.tasks|;
    SubmitKeepsFront(s, task, o, k);
    if k < n {
      SerialIgnoresLater(s.tasks, task, k, init);
    } else {
      SerialIgnoresLater(s.tasks, task, n, init);
      assert s'.tasks[n] == task && s'.phases[n] == Waiting;
      if k == n + 1 {
        SerialFrame(s'.tasks, n, n + 1, init, o);
      }
    }
  }

  lemma SubmitKeepsAgreement(s: State, init: Store, task: Task)
    requires Inv(s, init) && task.Wellformed()
    ensures Inv(Apply(s, Submit(task)), init)
  {
    SubmitKeepsProtocol(s, task);
    var s' := Apply(s, Submit(task));
    forall o: ObjectId, k: nat | Front(s', o, k)
      ensures Load(s'.store, o) == Load(Expected(s', init, k).1, o)
    {
      SubmitKeepsExpected(s, init, task, o, k);
    }
    forall i | 0 <= i < |s'.tasks| && s'.phases[i].Running?
      ensures s'.phases[i].reg == Expected(s', init, i).0
    {
      SerialIgnoresLater(s.tasks, task, i, init);
    }
  }

  lemma StartKeepsAgreement(s: State, init: Store, i: nat)
    requires Inv(s, init) && Enabled(s, Start(i))
    ensures Inv(Apply(s, Start(i)), init)
  {
    StartKeepsProtocol(s, i);
    var s' := Apply(s, Start(i));
    forall o: ObjectId, k: nat | Front(s', o, k)
      ensures Load(s'.store, o) == Load(Expected(s', init, k).1, o)
    {
      assert Front(s, o, k);
    }
  }

  /** A running task is the front of every object it touches. */
  lemma RunningIsFront(s: State, i: nat, o: ObjectId)
    requires Protocol(s) && i < |s.tasks| && s.phases[i].Running? && s.tasks[i].Touches(o)
    ensures Front(s, o, i)
    ensures forall k :: Front(s, o, k) ==> k == i
  {
    assert Started(s, i);
    forall k: nat | Front(s, o, k)
      ensures k == i
    {
      assert k < |s.tasks| ==> s.tasks[k].Touches(o);
    }
  }

  lemma ExecKeepsExpected(s: State, init: Store, i: nat, o: ObjectId, k: nat)
    requires Inv(s, init) && Enabled(s, Exec(i)) && Protocol(Apply(s, Exec(i)))
    requires Front(Apply(s, Exec(i)), o, k)
    ensures Load(Apply(s, Exec(i)).store, o) == Load(Expected(Apply(s, Exec(i)), init, k).1, o)
  {
    hide Numbered, Chained, WavefrontIsLatest, HeldWhileRunning;
    var op := s.tasks[i].ops[s.phases[i].pc];
    RunningIsFront(s, i, op.obj);
    assert Front(s, o, k);
  }

  lemma ExecKeepsAgreement(s: State, init: Store, i: nat)
    requires Inv(s, init) && Enabled(s, Exec(i))
    ensures Inv(Apply(s, Exec(i)), init)
  {
    ExecKeepsProtocol(s, i);
    var s' := Apply(s, Exec(i));
    RunningIsFront(s, i, s.tasks[i].ops[s.phases[i].pc].obj);
    forall o: ObjectId, k: nat | Front(s', o, k)
      ensures Load(s'.store, o) == Load(Expected(s', init, k).1, o)
    {
      ExecKeepsExpected(s, init, i, o, k);
    }
  }

  /** Nobody after a running task has started on an object they share. */
  lemma LaterUsersWait(s: State, i: nat, o: ObjectId)
    requires Protocol(s) && i < |s.tasks| && s.phases[i].Running? && s.tasks[i].Touches(o)
    ensures forall m :: i < m < |s.tasks| && s.tasks[m].Touches(o) ==> s.phases[m] == Waiting
  {
    forall m | i < m < |s.tasks| && s.tasks[m].Touches(o)
      ensures !Started(s, m)
    {
      assert s.tasks[i].Touches(o);
    }
  }

  lemma FinishKeepsExpected(s: State, init: Store, i: nat, o: ObjectId, k: nat)
    requires Inv(s, init) && Enabled(s, Finish(i)) && Protocol(Apply(s, Finish(i)))
    requires Front(Apply(s, Finish(i)), o, k)
    ensures Load(s.store, o) == Load(Expected(Apply(s, Finish(i)), init, k).1, o)
  {
    hide Numbered, Chained, WavefrontIsLatest, HeldWhileRunning;
    var s' := Apply(s, Finish(i));
    if !s.tasks[i].Touches(o) || k < i {
      assert Front(s, o, k);
    } else {
      RunningIsFront(s, i, o);
      LaterUsersWait(s, i, o);
      forall m | i < m < k
        ensures !s.tasks[m].Touches(o)
      {
        assert s'.tasks[m] == s.tasks[m];
      }
      SerialFrame(s.tasks, i + 1, k, init, o);
    }
  }

  lemma FinishKeepsAgreement(s: State, init: Store, i: nat)
    requires Inv(s, init) && Enabled(s, Finish(i))
    ensures Inv(Apply(s, Finish(i)), init)
  {
    FinishKeepsProtocol(s, i);
    var s' := Apply(s, Finish(i));
    forall o: ObjectId, k: nat | Front(s', o, k)
      ensures Load(s'.store, o) == Load(Expected(s', init, k).1, o)
    {
      FinishKeepsExpected(s, init, i, o, k);
    }
  }

  lemma ReleaseKeepsAgreement(s: State, init: Store, e: EventId)
    requires Inv(s, init) && Enabled(s, Release(e))
    ensures Inv(Apply(s, Release(e)), init)
  {
    ReleaseKeepsProtocol(s, e);
    var s' := Apply(s, Release(e));
    forall o: ObjectId, k: nat | Front(s', o, k)
      ensures Load(s'.store, o) == Load(Expected(s', init, k).1, o)
    {
      assert Front(s, o, k);
    }
  }

  lemma StepKeepsInv(s: State, init: Store, a: Action)
    requires Inv(s, init) && Enabled(s, a)
    ensures Inv(Apply(s, a), init)
  {
    match a
    case Submit(task) => SubmitKeepsAgreement(s, init, task);
    case Start(i) => StartKeepsAgreement(s, init, i);
    case Exec(i) => ExecKeepsAgreement(s, init, i);
    case Finish(i) => FinishKeepsAgreement(s, init, i);
    case Release(e) => ReleaseKeepsAgreement(s, init, e);
  }

  lemma {:induction false} RunKeepsInv(s: State, init: Store, actions: seq<Action>, s': State)
    requires Inv(s, init) && IsRun(s, actions, s')
    ensures Inv(s', init)
    decreases |actions|
  {
    if actions != [] {
      StepKeepsInv(s, init, actions[0]);
      RunKeepsInv(Apply(s, actions[0]), init, actions[1..], s');
    }
  }

  // Main results.

  /** Serializability.  In every interleaving, an object whose users have all finished holds what
      running all tasks one by one, in submission order, leaves in it. */
  lemma Serializable(init: Store, actions: seq<Action>, s: State, o: ObjectId)
    requires IsRun(Init(init), actions, s)
    requires forall i :: 0 <= i < |s.tasks| && i < |s.phases| && s.tasks[i].Touches(o) ==> s.phases[i] == Finished
    ensures Load(s.store, o) == Load(Serial(s.tasks, |s.tasks|, init), o)
  {
    InitInv(init);
    RunKeepsInv(Init(init), init, actions, s);
    assert Front(s, o, |s.tasks|);
  }

  /** `finalize` returns exactly when every token handed out has been destroyed, so that every task
      that names an object has finished. */
  lemma FinalizeIsBarrier(init: Store, actions: seq<Action>, s: State)
    requires IsRun(Init(init), actions, s)
    ensures Shape(s)
    ensures (forall o :: o in s.wavefront ==> s.wavefront[o] in s.fulfilled) <==> AllReleased(s)
    ensures AllReleased(s) ==> forall i :: 0 <= i < |s.tasks| && s.tasks[i].Objs() != [] ==> s.phases[i] == Finished
  {
    InitInv(init);
    RunKeepsInv(Init(init), init, actions, s);
    if forall o :: o in s.wavefront ==> s.wavefront[o] in s.fulfilled {
      forall d | 0 <= d < |s.requests|
        ensures d in s.fulfilled
      {
        LatestReleased(s, d);
      }
    }
    if AllReleased(s) {
      forall i | 0 <= i < |s.tasks| && s.tasks[i].Objs() != []
        ensures s.phases[i] == Finished
      {
        assert ListedAt(s, i, 0) && NumberedAt(s, s.first[i]) && HeldAt(s, s.first[i]);
      }
    }
  }

  lemma LatestReleased(s: State, d: EventId)
    requires Protocol(s) && d < |s.requests|
    requires forall o :: o in s.wavefront ==> s.wavefront[o] in s.fulfilled
    ensures d in s.fulfilled
  {
    assert NotBeyondWavefront(s, d);
    var e := s.wavefront[s.requests[d].obj];
    assert NumberedAt(s, e) && HeldAt(s, e);
    if d < e {
      assert Started(s, s.requests[e].owner);
      ReadyInRequestOrder(s, d, e);
    }
  }

  /** A task that names an object twice never starts. */
  lemma DuplicateNeverStarts(init: Store, actions: seq<Action>, s: State, i: nat)
    requires IsRun(Init(init), actions, s) && i < |s.tasks| && !s.tasks[i].Distinct()
    ensures i < |s.phases| && s.phases[i] == Waiting
  {
    InitInv(init);
    RunKeepsInv(Init(init), init, actions, s);
    assert !Started(s, i);
  }

  /** Only the runtime can move: no `Submit`. */
  predicate Internal(a: Action) { !a.Submit? }

  /** Task `i` has finished and destroyed its tokens. */
  predicate Done(s: State, i: nat)
    requires Shape(s) && i < |s.tasks|
  {
    s.phases[i] == Finished && forall e :: s.first[i] <= e < s.first[i] + |s.tasks[i].Objs()| ==> e in s.fulfilled
  }

  /** The earliest task that is not done can always move, provided its objects are distinct. */
  lemma EarliestCanMove(s: State, i: nat) returns (a: Action)
    requires Protocol(s) && i < |s.tasks| && !Done(s, i) && s.tasks[i].Distinct()
    requires forall j :: 0 <= j < i ==> Done(s, j)
    ensures Internal(a) && Enabled(s, a)
  {
    if s.phases[i].Running? {
      a := if s.phases[i].pc < |s.tasks[i].ops| then Exec(i) else Finish(i);
    } else if s.phases[i] == Finished {
      var e :| s.first[i] <= e < s.first[i] + |s.tasks[i].Objs()| && e !in s.fulfilled;
      assert ListedAt(s, i, e - s.first[i]);
      a := Release(e);
    } else {
      a := Start(i);
      forall e | s.first[i] <= e < s.first[i] + |s.tasks[i].Objs()|
        ensures Ready(s, e)
      {
        EarliestIsReady(s, i, e - s.first[i]);
      }
    }
  }

  lemma EarliestIsReady(s: State, i: nat, p: nat)
    requires Protocol(s) && i < |s.tasks| && s.tasks[i].Distinct() && p < |s.tasks[i].Objs()|
    requires forall j :: 0 <= j < i ==> Done(s, j)
    ensures Ready(s, s.first[i] + p)
  {
    var e := s.first[i] + p;
    assert ListedAt(s, i, p) && AwaitsSameObject(s, e);
    if s.requests[e].token.awaits.Some? {
      var d := s.requests[e].token.awaits.value;
      assert OrderedAt(s, d, e) && NumberedAt(s, d);
      assert s.requests[d].owner < i ==> Done(s, s.requests[d].owner);
    }
  }

  function Remaining(task: Task, phase: Phase): nat {
    match phase
    case Waiting => |task.ops| + 2
    case Running(pc, _) => if pc <= |task.ops| then |task.ops| - pc + 1 else 0
    case Finished => 0
  }

  function TaskWork(tasks: seq<Task>, phases: seq<Phase>): nat
    requires |tasks| == |phases|
  {
    if tasks == [] then 0
    else Remaining(tasks[0], phases[0]) + TaskWork(tasks[1..], phases[1..])
  }

  /** Steps the runtime still has to take before everything submitted is done. */
  function Work(s: State): int
    requires Shape(s)
  {
    TaskWork(s.tasks, s.phases) + |s.requests| - |s.fulfilled|
  }

  lemma {:induction false} BelowIsBounded(events: set<EventId>, n: nat)
    requires forall e :: e in events ==> e < n
    ensures |events| <= n
  {
    if n > 0 {
      BelowIsBounded(events - {n - 1}, n - 1);
      assert n - 1 in events ==> events == (events - {n - 1}) + {n - 1};
      assert n - 1 !in events ==> events == events - {n - 1};
    } else {
      assert events == {};
    }
  }

  lemma {:induction false} WorkOfUpdate(tasks: seq<Task>, phases: seq<Phase>, i: nat, phase: Phase)
    requires |tasks| == |phases| && i < |tasks|
    ensures TaskWork(tasks, phases[i := phase]) ==
            TaskWork(tasks, phases) - Remaining(tasks[i], phases[i]) + Remaining(tasks[i], phase)
  {
    if i > 0 {
      WorkOfUpdate(tasks[1..], phases[1..], i - 1, phase);
      assert phases[i := phase][1..] == phases[1..][i - 1 := phase];
    } else {
      assert phases[i := phase][1..] == phases[1..];
    }
  }

  lemma StepDoesWork(s: State, a: Action)
    requires Shape(s) && Internal(a) && Enabled(s, a)
    ensures Shape(Apply(s, a)) && Work(Apply(s, a)) + 1 == Work(s)
  {
    if !a.Release? {
      WorkOfUpdate(s.tasks, s.phases, a.i, Apply(s, a).phases[a.i]);
    }
  }

  /** Without further submissions a run takes exactly as many steps as work it gets done, so it
      cannot go on for ever. */
  lemma {:induction false} RunIsBounded(s: State, init: Store, actions: seq<Action>, s': State)
    requires Inv(s, init) && IsRun(s, actions, s')
    requires forall a :: a in actions ==> Internal(a)
    ensures Inv(s', init) && s'.tasks == s.tasks
    ensures |actions| + Work(s') == Work(s) && Work(s') >= 0
    decreases |actions|
  {
    if actions != [] {
      StepKeepsInv(s, init, actions[0]);
      StepDoesWork(s, actions[0]);
      RunIsBounded(Apply(s, actions[0]), init, actions[1..], s');
    } else {
      BelowIsBounded(s.fulfilled, |s.requests|);
    }
  }

  /** Progress.  Once nothing more is submitted, every run of the runtime that cannot be continued
      has finished all tasks and destroyed all tokens if and only if no task names an object twice. */
  lemma Drains(init: Store, submitted: seq<Action>, s: State, actions: seq<Action>, s': State)
    requires IsRun(Init(init), submitted, s)
    requires IsRun(s, actions, s') && forall a :: a in actions ==> Internal(a)
    requires Shape(s') && forall a :: Internal(a) ==> !Enabled(s', a)
    ensures AllDone(s') <==> forall i :: 0 <= i < |s.tasks| ==> s.tasks[i].Distinct()
  {
    InitInv(init);
    RunKeepsInv(Init(init), init, submitted, s);
    RunIsBounded(s, init, actions, s');
    if AllDone(s') {
      assert forall i :: 0 <= i < |s'.tasks| ==> Started(s', i);
    } else if forall i :: 0 <= i < |s.tasks| ==> s.tasks[i].Distinct() {
      var i := FirstNotDone(s');
      var a := EarliestCanMove(s', i);
    }
  }

  lemma AllTasksDone(s: State)
    requires Protocol(s) && forall i :: 0 <= i < |s.tasks| ==> Done(s, i)
    ensures AllDone(s)
  {
    forall e | 0 <= e < |s.requests|
      ensures e in s.fulfilled
    {
      assert NumberedAt(s, e);
      assert Done(s, s.requests[e].owner);
    }
    forall i | 0 <= i < |s.phases|
      ensures s.phases[i] == Finished
    {
      assert Done(s, i);
    }
  }

  lemma FirstNotDone(s: State) returns (i: nat)
    requires Protocol(s) && !AllDone(s)
    ensures i < |s.tasks| && !Done(s, i) && forall j :: 0 <= j < i ==> Done(s, j)
  {
    if forall i :: 0 <= i < |s.tasks| ==> Done(s, i) {
      AllTasksDone(s);
    }
    i := 0;
    while Done(s, i)
      invariant i < |s.tasks| && exists k :: i <= k < |s.tasks| && !Done(s, k)
      invariant forall j :: 0 <= j < i ==> Done(s, j)
      decreases |s.tasks| - i
    {
      i := i + 1;
    }
  }
}
