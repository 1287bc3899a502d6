/** The token chains of `dataflow_graph`, one per object.

    A promise is named by the number of the request that created it, so an event id doubles
    as its position in the global request order.  A `TokenFuture` stands for the
    `future<access_token>` handed to the requester: it becomes ready once the event it awaits
    has been fulfilled, and destroying the token it carries fulfils `event`. */
module Dataflow {
  import opened Wrappers

  type ObjectId = nat
  type EventId = nat

  datatype TokenFuture = TokenFuture(event: EventId, awaits: Option<EventId>)

  /** The wavefront map after one request per element of `objs`, in order. */
  function Wave(wavefront: map<ObjectId, EventId>, next: EventId, objs: seq<ObjectId>): map<ObjectId, EventId> {
    if objs == [] then wavefront
    else
      var k := |objs| - 1;
      Wave(wavefront, next, objs[..k])[objs[k] := next + k]
  }

  /** The token futures handed out for those requests. */
  function Tokens(wavefront: map<ObjectId, EventId>, next: EventId, objs: seq<ObjectId>): (ts: seq<TokenFuture>)
    ensures |ts| == |objs|
  {
    if objs == [] then []
    else
      var k := |objs| - 1;
      Tokens(wavefront, next, objs[..k]) + [Request(Wave(wavefront, next, objs[..k]), next + k, objs[k])]
  }

  function Request(wavefront: map<ObjectId, EventId>, next: EventId, obj: ObjectId): TokenFuture {
    TokenFuture(next, if obj in wavefront then Some(wavefront[obj]) else None)
  }

  class DataflowGraph {
    var wavefront: map<ObjectId, EventId>
    var nextEvent: EventId

    constructor ()
      ensures wavefront == map[] && nextEvent == 0
    {
      wavefront, nextEvent := map[], 0;
    }

    method ScheduleModification(obj: ObjectId) returns (token: TokenFuture)
      modifies this
      ensures token == Request(old(wavefront), old(nextEvent), obj)
      ensures wavefront == old(wavefront)[obj := old(nextEvent)]
      ensures nextEvent == old(nextEvent) + 1
    {
      var event := nextEvent;
      nextEvent := nextEvent + 1;
      if obj in wavefront {
        token := TokenFuture(event, Some(wavefront[obj]));
        wavefront := wavefront[obj := event];
      } else {
        wavefront := wavefront[obj := event];
        token := TokenFuture(event, None);
      }
    }

    /** Reads are chained exactly like modifications. */
    method ScheduleRead(obj: ObjectId) returns (token: TokenFuture)
      modifies this
      ensures token == Request(old(wavefront), old(nextEvent), obj)
      ensures wavefront == old(wavefront)[obj := old(nextEvent)]
      ensures nextEvent == old(nextEvent) + 1
    {
      token := ScheduleModification(obj);
    }

    /** Waits on every future of the wavefront; `returned` says whether all the waits would
        succeed when exactly the events in `fulfilled` have happened. */
    method Finalize(fulfilled: set<EventId>) returns (returned: bool)
      ensures returned <==> forall o :: o in wavefront ==> wavefront[o] in fulfilled
    {
      var todo := wavefront.Keys;
      while todo != {}
        invariant todo <= wavefront.Keys
        invariant forall o :: o in wavefront && o !in todo ==> wavefront[o] in fulfilled
      {
        var o :| o in todo;
        if wavefront[o] !in fulfilled {
          return false;
        }
        todo := todo - {o};
      }
      return true;
    }
  }

  /** The part of `runtime_server` that collects the tokens of a task. */
  class RuntimeServer {
    const dfGraph: DataflowGraph

    constructor ()
      ensures fresh(dfGraph) && dfGraph.wavefront == map[] && dfGraph.nextEvent == 0
    {
      dfGraph := new DataflowGraph();
    }

    method Execute(args: seq<ObjectId>, results: seq<ObjectId>) returns (dependencies: seq<TokenFuture>)
      modifies dfGraph
      ensures dependencies == Tokens(old(dfGraph.wavefront), old(dfGraph.nextEvent), args + results)
      ensures dfGraph.wavefront == Wave(old(dfGraph.wavefront), old(dfGraph.nextEvent), args + results)
      ensures dfGraph.nextEvent == old(dfGraph.nextEvent) + |args| + |results|
    {
      ghost var wave, next, objs := dfGraph.wavefront, dfGraph.nextEvent, args + results;
      dependencies := [];
      for i := 0 to |args|
        invariant Collected(wave, next, objs, i, dependencies, dfGraph.wavefront, dfGraph.nextEvent)
      {
        CollectOneMore(wave, next, objs, i, dependencies, dfGraph.wavefront, dfGraph.nextEvent);
        var token := dfGraph.ScheduleRead(args[i]);
        dependencies := dependencies + [token];
      }
      for i := 0 to |results|
        invariant Collected(wave, next, objs, |args| + i, dependencies, dfGraph.wavefront, dfGraph.nextEvent)
      {
        CollectOneMore(wave, next, objs, |args| + i, dependencies, dfGraph.wavefront, dfGraph.nextEvent);
        var token := dfGraph.ScheduleModification(results[i]);
        dependencies := dependencies + [token];
      }
      assert objs[..|args| + |results|] == objs;
    }
  }

  /** State of the collection after the first `k` requests. */
  ghost predicate Collected(wave: map<ObjectId, EventId>, next: EventId, objs: seq<ObjectId>, k: nat,
                            dependencies: seq<TokenFuture>, wavefront: map<ObjectId, EventId>, nextEvent: EventId) {
    && k <= |objs|
    && dependencies == Tokens(wave, next, objs[..k]) && wavefront == Wave(wave, next, objs[..k]) && nextEvent == next + k
  }

  lemma CollectOneMore(wave: map<ObjectId, EventId>, next: EventId, objs: seq<ObjectId>, k: nat,
                       dependencies: seq<TokenFuture>, wavefront: map<ObjectId, EventId>, nextEvent: EventId)
    requires k < |objs| && Collected(wave, next, objs, k, dependencies, wavefront, nextEvent)
    ensures Collected(wave, next, objs, k + 1, dependencies + [Request(wavefront, nextEvent, objs[k])],
                      wavefront[objs[k] := nextEvent], nextEvent + 1)
  {
    assert objs[..k + 1][..k] == objs[..k];
  }

  /** Event of the latest request for `o` among `objs`, if any. */
  lemma {:induction false} WaveLookup(wavefront: map<ObjectId, EventId>, next: EventId, objs: seq<ObjectId>, o: ObjectId)
    ensures o in Wave(wavefront, next, objs) <==> o in objs || o in wavefront
    ensures o !in objs && o in wavefront ==> Wave(wavefront, next, objs)[o] == wavefront[o]
    ensures o in objs ==>
              exists r :: 0 <= r < |objs| && objs[r] == o && Wave(wavefront, next, objs)[o] == next + r &&
                          forall q :: r < q < |objs| ==> objs[q] != o
  {
    if objs != [] {
      var k := |objs| - 1;
      WaveLookup(wavefront, next, objs[..k], o);
      assert objs == objs[..k] + [objs[k]];
    }
  }

  lemma {:induction false} TokenAt(wavefront: map<ObjectId, EventId>, next: EventId, objs: seq<ObjectId>, p: nat)
    requires p < |objs|
    ensures Tokens(wavefront, next, objs)[p] == Request(Wave(wavefront, next, objs[..p]), next + p, objs[p])
  {
    var k := |objs| - 1;
    if p < k {
      TokenAt(wavefront, next, objs[..k], p);
      assert objs[..k][..p] == objs[..p];
    }
  }

  /** What a token future awaits: the nearest earlier request of the same batch for the same
      object, otherwise whatever the wavefront held before the batch. */
  lemma TokenAwaits(wavefront: map<ObjectId, EventId>, next: EventId, objs: seq<ObjectId>, p: nat)
    requires p < |objs|
    ensures Tokens(wavefront, next, objs)[p].event == next + p
    ensures objs[p] !in objs[..p] ==>
              Tokens(wavefront, next, objs)[p].awaits ==
              (if objs[p] in wavefront then Some(wavefront[objs[p]]) else None)
    ensures forall q :: 0 <= q < p && objs[q] == objs[p] ==>
              exists r :: q <= r < p && objs[r] == objs[p] &&
                          Tokens(wavefront, next, objs)[p].awaits == Some(next + r)
  {
    TokenAt(wavefront, next, objs, p);
    WaveLookup(wavefront, next, objs[..p], objs[p]);
    if objs[p] in objs[..p] {
      var r :| 0 <= r < p && objs[..p][r] == objs[p] && Wave(wavefront, next, objs[..p])[objs[p]] == next + r &&
               forall q :: r < q < p ==> objs[..p][q] != objs[p];
      assert objs[r] == objs[p];
      forall q | 0 <= q < p && objs[q] == objs[p]
        ensures q <= r
      {
        assert objs[..p][q] == objs[q];
      }
    }
  }
}
