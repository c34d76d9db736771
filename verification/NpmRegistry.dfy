/**
 * The promise cache of `npm-registry.ts` under concurrency. A promise is the number of a request in
 * the log of requests. `Step` is one event: a call, the moment a request settles, or the moment the
 * rejection handler of `view` runs. A rejection only queues that handler; any other event may come
 * between the two, and queued handlers may run in any order.
 */
module NpmRegistry {
  import opened Wrappers

  type Name = string
  type Url = string
  type RequestId = nat

  datatype Status = Pending | Fulfilled | Rejected

  datatype Request = Request(name: Name, registry: Url, status: Status)

  datatype State = State(registry: Url, index: map<Name, RequestId>, requests: seq<Request>, queued: set<RequestId>)

  datatype Event =
    | View(name: Name)
    | Invalidate(name: Name)
    | UpdateProps(registry: Option<Url>)
    | Fulfil(id: RequestId)
    | Reject(id: RequestId)
    | Handle(id: RequestId)

  function ViewStep(s: State, name: Name): State {
    if name in s.index then s
    else s.(index := s.index[name := |s.requests|], requests := s.requests + [Request(name, s.registry, Pending)])
  }

  predicate CanSettle(s: State, id: RequestId) {
    id < |s.requests| && s.requests[id].status.Pending?
  }

  predicate CanHandle(s: State, id: RequestId) {
    id < |s.requests| && id in s.queued
  }

  function Step(s: State, e: Event): State {
    match e
    case View(name) => ViewStep(s, name)
    case Invalidate(name) => if name in s.index then ViewStep(s.(index := s.index - {name}), name) else s
    case UpdateProps(registry) =>
      if registry.None? || registry.value == s.registry then s else s.(registry := registry.value, index := map[])
    case Fulfil(id) =>
      if CanSettle(s, id) then s.(requests := s.requests[id := s.requests[id].(status := Fulfilled)]) else s
    case Reject(id) =>
      if CanSettle(s, id) then
        s.(requests := s.requests[id := s.requests[id].(status := Rejected)], queued := s.queued + {id})
      else s
    case Handle(id) =>
      if CanHandle(s, id) then s.(index := s.index - {s.requests[id].name}, queued := s.queued - {id}) else s
  }

  function Run(s: State, events: seq<Event>): State {
    if events == [] then s else Step(Run(s, events[..|events| - 1]), events[|events| - 1])
  }

  function Initial(registry: Url): State {
    State(registry, map[], [], {})
  }

  /**
   * Every indexed entry is the newest request for its name, came from the current registry, and has
   * not failed, unless the handler of its failure is still queued.
   */
  ghost predicate Consistent(s: State) {
    && (forall n | n in s.index :: EntryConsistent(s, n, s.index[n]))
    && (forall id | id in s.queued :: id < |s.requests| && s.requests[id].status.Rejected?)
  }

  ghost predicate EntryConsistent(s: State, n: Name, id: RequestId) {
    && id < |s.requests|
    && s.requests[id].name == n
    && s.requests[id].registry == s.registry
    && (s.requests[id].status.Rejected? ==> id in s.queued)
    && forall later | id < later < |s.requests| :: s.requests[later].name != n
  }

  lemma StepIsConsistent(s: State, e: Event)
    requires Consistent(s)
    ensures Consistent(Step(s, e))
  {
    var u := Step(s, e);
    forall n | n in u.index ensures EntryConsistent(u, n, u.index[n]) {
      if n in s.index {
        assert EntryConsistent(s, n, s.index[n]);
      }
    }
  }

  /** In every interleaving of any events the index stays consistent. */
  lemma {:induction false} EveryRunIsConsistent(s: State, events: seq<Event>)
    requires Consistent(s)
    ensures Consistent(Run(s, events))
  {
    if events != [] {
      EveryRunIsConsistent(s, events[..|events| - 1]);
      StepIsConsistent(Run(s, events[..|events| - 1]), events[|events| - 1]);
    }
  }

  /** Once the queued handlers have run, in any order, no settled failure remains indexed. */
  lemma NoFailureRemainsIndexed(s: State, events: seq<Event>)
    requires Consistent(s) && forall e | e in events :: e.Handle?
    requires forall id | id in s.queued :: Handle(id) in events
    ensures var t := Run(s, events);
            && t.queued == {} && t.requests == s.requests
            && forall n | n in t.index ::
                 n in s.index && t.index[n] == s.index[n] && !t.requests[t.index[n]].status.Rejected?
  {
    HandlersOnlyRemove(s, events);
    EveryRunIsConsistent(s, events);
    var t := Run(s, events);
    forall n | n in t.index ensures !t.requests[t.index[n]].status.Rejected? {
      assert EntryConsistent(t, n, t.index[n]);
    }
  }

  lemma {:induction false} HandlersOnlyRemove(s: State, events: seq<Event>)
    requires Consistent(s) && forall e | e in events :: e.Handle?
    ensures var t := Run(s, events);
            && t.requests == s.requests && t.index.Keys <= s.index.Keys
            && (forall n | n in t.index :: t.index[n] == s.index[n])
            && t.queued == set id | id in s.queued && Handle(id) !in events
  {
    if events != [] {
      var init := events[..|events| - 1];
      assert events == init + [events[|events| - 1]];
      assert events[|events| - 1] in events;
      HandlersOnlyRemove(s, init);
    }
  }

  /** A request that is pending, or has failed and not been handled, is the one that the index holds for its name. */
  ghost predicate ActiveAreIndexed(s: State) {
    forall id | 0 <= id < |s.requests| && (s.requests[id].status.Pending? || id in s.queued) ::
      s.requests[id].name in s.index && s.index[s.requests[id].name] == id
  }

  predicate Quiet(e: Event) {
    !e.Invalidate? && !e.UpdateProps?
  }

  /**
   * While no registry change or invalidation happens, there is at most one pending request per name,
   * and a handler only removes the entry of its own request (from a state where this is so, such as
   * the initial one).
   */
  lemma {:induction false} QuietRunsSharePendingRequests(s: State, events: seq<Event>)
    requires Consistent(s) && ActiveAreIndexed(s) && forall e | e in events :: Quiet(e)
    ensures ActiveAreIndexed(Run(s, events))
    ensures var r := Run(s, events).requests;
            forall i, j | 0 <= i < |r| && 0 <= j < |r| && r[i].status.Pending? && r[j].status.Pending? ::
              r[i].name == r[j].name ==> i == j
  {
    if events != [] {
      var init := events[..|events| - 1];
      assert forall e | e in init :: e in events;
      QuietRunsSharePendingRequests(s, init);
      EveryRunIsConsistent(s, init);
      QuietStep(Run(s, init), events[|events| - 1]);
    }
  }

  lemma QuietStep(s: State, e: Event)
    requires Consistent(s) && ActiveAreIndexed(s) && Quiet(e)
    ensures ActiveAreIndexed(Step(s, e))
  {
    var u := Step(s, e);
    forall id | 0 <= id < |u.requests| && (u.requests[id].status.Pending? || id in u.queued)
      ensures u.requests[id].name in u.index && u.index[u.requests[id].name] == id
    {
      if id < |s.requests| {
        assert s.requests[id].status.Pending? || id in s.queued;
      }
    }
  }

  /** Who awaits a view shares the indexed request. It has failed only if its handler is still queued. */
  lemma ViewReturnsCurrentRequest(s: State, name: Name)
    requires Consistent(s)
    ensures var t := Step(s, View(name));
            && name in t.index && t.index[name] < |t.requests|
            && t.requests[t.index[name]].name == name && t.requests[t.index[name]].registry == s.registry
            && (t.requests[t.index[name]].status.Rejected? <==> t.index[name] in s.queued)
            && (if name in s.index then t == s
                else |t.requests| == |s.requests| + 1 && t.index == s.index[name := |s.requests|])
  {
    if name in s.index {
      assert EntryConsistent(s, name, s.index[name]);
    }
  }

  /** Between a failure and its handler a view returns the failed promise. */
  lemma ViewBeforeHandler(name: Name, registry: Url)
    ensures var s := Run(Initial(registry), [View(name), Reject(0), View(name)]);
            s == State(registry, map[name := 0], [Request(name, registry, Rejected)], {0})
  {
    var s0, e := Initial(registry), [View(name), Reject(0), View(name)];
    assert e[..0] == [] && e[..1][..0] == [] && e[..2][..1] == e[..1] && e[..|e| - 1] == e[..2];
    assert Run(s0, e[..1]) == State(registry, map[name := 0], [Request(name, registry, Pending)], {});
    assert Run(s0, e[..2]) == Step(Run(s0, e[..1]), Reject(0));
  }

  /** No request older than `from` is indexed for `name` any more. */
  ghost predicate FreshSince(s: State, name: Name, from: RequestId) {
    from <= |s.requests| && (name in s.index ==> s.index[name] >= from)
  }

  lemma {:induction false} FreshStays(s: State, name: Name, from: RequestId, events: seq<Event>)
    requires FreshSince(s, name, from)
    ensures FreshSince(Run(s, events), name, from)
  {
    if events != [] {
      FreshStays(s, name, from, events[..|events| - 1]);
    }
  }

  /**
   * After an invalidation or a registry change, whatever happens next, no view returns a request that
   * was started before it.
   */
  lemma RefreshedForGood(s: State, name: Name, e: Event, events: seq<Event>)
    requires Consistent(s)
    requires e == Invalidate(name) || ChangesRegistry(s, e)
    ensures var t := Run(Step(s, e), events + [View(name)]);
            name in t.index && t.index[name] < |t.requests| && t.index[name] >= |s.requests|
  {
    assert (events + [View(name)])[..|events|] == events;
    FreshStays(Step(s, e), name, |s.requests|, events);
    StepIsConsistent(s, e);
    EveryRunIsConsistent(Step(s, e), events);
    ViewReturnsCurrentRequest(Run(Step(s, e), events), name);
  }

  predicate ChangesRegistry(s: State, e: Event) {
    e.UpdateProps? && e.registry.Some? && e.registry.value != s.registry
  }

  /** An invalidation, a registry change or the handler of an older request takes the entry of request `id` away. */
  predicate Removes(s: State, e: Event, n: Name, id: RequestId) {
    && n in s.index
    && (|| e == Invalidate(n) || ChangesRegistry(s, e)
        || (e.Handle? && e.id < id && CanHandle(s, e.id) && s.requests[e.id].name == n))
  }

  /** Such an event is among `events`. */
  ghost predicate Replaced(s: State, events: seq<Event>, n: Name, id: RequestId) {
    exists k: nat :: k < |events| && RemovesAt(s, events, k, n, id)
  }

  ghost predicate RemovesAt(s: State, events: seq<Event>, k: nat, n: Name, id: RequestId)
    requires k < |events|
  {
    Removes(Run(s, events[..k]), events[k], n, id)
  }

  ghost predicate Handled(s: State, id: RequestId) {
    id < |s.requests| && s.requests[id].status.Rejected? && id !in s.queued
  }

  lemma HandledStays(s: State, e: Event, id: RequestId)
    requires Handled(s, id)
    ensures Handled(Step(s, e), id)
  {
  }

  lemma RemovesAtLonger(s: State, events: seq<Event>, k: nat, n: Name, id: RequestId)
    requires k < |events| - 1
    ensures RemovesAt(s, events, k, n, id) <==> RemovesAt(s, events[..|events| - 1], k, n, id)
  {
    assert events[..|events| - 1][..k] == events[..k];
  }

  lemma ReplacedLonger(s: State, events: seq<Event>, n: Name, id: RequestId)
    requires events != []
    ensures var init := events[..|events| - 1];
            Replaced(s, events, n, id)
            <==> Replaced(s, init, n, id) || RemovesAt(s, events, |events| - 1, n, id)
  {
    var init := events[..|events| - 1];
    if k: nat :| k < |init| && RemovesAt(s, init, k, n, id) {
      RemovesAtLonger(s, events, k, n, id);
    }
    if k: nat :| k < |events| && RemovesAt(s, events, k, n, id) {
      if k < |init| {
        RemovesAtLonger(s, events, k, n, id);
      }
    }
  }

  /** The request `id` for `n` is indexed, or its handler has run. */
  ghost predicate InPlace(s: State, n: Name, id: RequestId) {
    id < |s.requests| && s.requests[id].name == n && (Handled(s, id) || (n in s.index && s.index[n] == id))
  }

  ghost predicate Superseded(s: State, n: Name, id: RequestId) {
    id < |s.requests| && s.requests[id].name == n && FreshSince(s, n, id + 1)
  }

  lemma SupersededStays(s: State, e: Event, n: Name, id: RequestId)
    requires Superseded(s, n, id)
    ensures Superseded(Step(s, e), n, id)
  {
  }

  lemma ReplacedByStep(s: State, e: Event, n: Name, id: RequestId)
    requires Consistent(s) && InPlace(s, n, id)
    ensures if Removes(s, e, n, id) then Superseded(Step(s, e), n, id) else InPlace(Step(s, e), n, id)
  {
    if n in s.index {
      assert EntryConsistent(s, n, s.index[n]);
    }
    if !Removes(s, e, n, id) && Handled(s, id) {
      HandledStays(s, e, id);
    }
  }

  /** A request that is indexed stays in place until it is replaced. */
  lemma {:induction false} InPlaceUntilReplaced(s: State, events: seq<Event>, n: Name, id: RequestId)
    requires Consistent(s) && InPlace(s, n, id)
    ensures var t := Run(s, events); if Replaced(s, events, n, id) then Superseded(t, n, id) else InPlace(t, n, id)
  {
    if events != [] {
      var init, e := events[..|events| - 1], events[|events| - 1];
      InPlaceUntilReplaced(s, init, n, id);
      ReplacedLonger(s, events, n, id);
      EveryRunIsConsistent(s, init);
      if Replaced(s, init, n, id) {
        SupersededStays(Run(s, init), e, n, id);
      } else {
        ReplacedByStep(Run(s, init), e, n, id);
      }
    }
  }

  /**
   * The rejection handler deletes by name. While it is queued, the entry that it will remove is another,
   * newer request exactly when an invalidation, a registry change or the handler of an older request
   * has taken the entry of its own request away since that was indexed.
   */
  lemma LateFailureEvictsExactlyWhenReplaced(s: State, events: seq<Event>, n: Name, id: RequestId)
    requires Consistent(s) && n in s.index && s.index[n] == id
    requires id in Run(s, events).queued && n in Run(s, events).index
    ensures var t := Run(s, events);
            && id < |t.requests| && n !in Step(t, Handle(id)).index && t.index[n] >= id
            && (t.index[n] != id <==> Replaced(s, events, n, id))
  {
    assert EntryConsistent(s, n, id);
    InPlaceUntilReplaced(s, events, n, id);
    EveryRunIsConsistent(s, events);
    var t := Run(s, events);
    assert EntryConsistent(t, n, t.index[n]);
  }

  /** A late failure after a registry change: the fresh request is forgotten, and the next view starts another. */
  lemma LateFailureDuplicatesRequest(name: Name, old_: Url, new_: Url)
    requires old_ != new_
    ensures var e := [View(name), UpdateProps(Some(new_)), View(name), Reject(0), Handle(0), View(name)];
            Run(Initial(old_), e).requests
            == [Request(name, old_, Rejected), Request(name, new_, Pending), Request(name, new_, Pending)]
  {
    var s0 := Initial(old_);
    var e := [View(name), UpdateProps(Some(new_)), View(name), Reject(0), Handle(0), View(name)];
    var s1 := State(old_, map[name := 0], [Request(name, old_, Pending)], {});
    var s3 := State(new_, map[name := 1], [Request(name, old_, Pending), Request(name, new_, Pending)], {});
    var s4 := State(new_, map[name := 1], [Request(name, old_, Rejected), Request(name, new_, Pending)], {0});
    assert e[..0] == [] && e[..1][..0] == [] && Run(s0, e[..1]) == s1;
    assert e[..2][..1] == e[..1] && Run(s0, e[..2]) == s1.(registry := new_, index := map[]);
    assert e[..3][..2] == e[..2] && Run(s0, e[..3]) == s3;
    assert e[..4][..3] == e[..3] && Run(s0, e[..4]) == Step(s3, Reject(0)) == s4;
    assert e[..5][..4] == e[..4] && Run(s0, e[..5]) == Step(s4, Handle(0)) == s4.(index := map[], queued := {});
    assert e[..5] == e[..|e| - 1];
  }

  lemma RunFour(s: State, a: Event, b: Event, c: Event, d: Event)
    ensures Run(s, [a, b, c, d]) == Step(Step(Step(Step(s, a), b), c), d)
  {
    var e := [a, b, c, d];
    assert e[..0] == [] && e[..1][..0] == e[..0] && e[..2][..1] == e[..1] && e[..3][..2] == e[..2];
    assert Run(s, e[..1]) == Step(s, a) && Run(s, e[..2]) == Step(Step(s, a), b);
    assert e[..|e| - 1] == e[..3];
  }

  /**
   * The handler of an older request is enough: request 1 is neither invalidated nor followed by a
   * registry change, and its handler removes request 2, which is pending.
   */
  lemma OlderHandlerReplaces(name: Name, old_: Url, new_: Url)
    ensures var s := State(new_, map[name := 1], [Request(name, old_, Pending), Request(name, new_, Pending)], {});
            var t := Run(s, [Reject(1), Reject(0), Handle(0), View(name)]);
            && t.index == map[name := 2]
            && t.requests
               == [Request(name, old_, Rejected), Request(name, new_, Rejected), Request(name, new_, Pending)]
            && Step(t, Handle(1)).index == map[]
  {
    var s := State(new_, map[name := 1], [Request(name, old_, Pending), Request(name, new_, Pending)], {});
    RunFour(s, Reject(1), Reject(0), Handle(0), View(name));
  }

  /** The class of the source: `props.registry` and `index` are assigned in place. */
  class Registry {
    var registry: Url
    var index: map<Name, RequestId>
    var requests: seq<Request>
    var queued: set<RequestId>

    ghost function Abstract(): State
      reads this
    {
      State(registry, index, requests, queued)
    }

    ghost predicate Valid()
      reads this
    {
      Consistent(Abstract())
    }

    constructor (registry: Url)
      ensures Valid() && Abstract() == Initial(registry)
    {
      this.registry, index, requests, queued := registry, map[], [], {};
    }

    method ViewName(name: Name) returns (result: RequestId)
      requires Valid()
      modifies this
      ensures Valid() && Abstract() == Step(old(Abstract()), View(name))
      ensures name in index && result == index[name]
      ensures if name in old(index) then index == old(index) && requests == old(requests)
              else requests == old(requests) + [Request(name, registry, Pending)]
                   && index == old(index)[name := |old(requests)|]
    {
      StepIsConsistent(Abstract(), View(name));
      if name in index {
        return index[name];
      }
      result := DoView(name);
      index := index[name := result];
    }

    /** `doView`: the request goes to the registry that is current now. */
    method DoView(name: Name) returns (result: RequestId)
      modifies this`requests
      ensures result == old(|requests|) && requests == old(requests) + [Request(name, registry, Pending)]
    {
      result := |requests|;
      requests := requests + [Request(name, registry, Pending)];
    }

    method InvalidateName(name: Name)
      requires Valid()
      modifies this
      ensures Valid() && Abstract() == Step(old(Abstract()), Invalidate(name))
      ensures if name in old(index) then
                && requests == old(requests) + [Request(name, registry, Pending)]
                && index == old(index)[name := |old(requests)|]
              else index == old(index) && requests == old(requests)
    {
      if name in index {
        index := index - {name};
        assert old(index)[name := |old(requests)|] == index[name := |requests|];
        var id := ViewName(name);
      }
    }

    method Update(props: Option<Url>)
      requires Valid()
      modifies this
      ensures Valid() && Abstract() == Step(old(Abstract()), UpdateProps(props))
      ensures registry == if props.Some? then props.value else old(registry)
      ensures requests == old(requests) && index == if registry == old(registry) then old(index) else map[]
    {
      StepIsConsistent(Abstract(), UpdateProps(props));
      var oldRegistry := registry;
      if props.Some? {
        registry := props.value;
      }
      var newRegistry := registry;
      if oldRegistry != newRegistry {
        index := map[]; // resetIndex
      }
    }

    /** A request settles; its failure queues the handler that `view` attached. */
    method Settle(id: RequestId, success: bool)
      requires Valid() && CanSettle(Abstract(), id)
      modifies this
      ensures Valid() && Abstract() == Step(old(Abstract()), if success then Fulfil(id) else Reject(id))
      ensures index == old(index) && queued == if success then old(queued) else old(queued) + {id}
      ensures requests == old(requests)[id := old(requests[id]).(status := if success then Fulfilled else Rejected)]
    {
      StepIsConsistent(Abstract(), if success then Fulfil(id) else Reject(id));
      requests := requests[id := requests[id].(status := if success then Fulfilled else Rejected)];
      if !success {
        queued := queued + {id};
      }
    }

    /** The handler runs. */
    method HandleRejection(id: RequestId)
      requires Valid() && id in queued
      modifies this
      ensures Valid() && Abstract() == Step(old(Abstract()), Handle(id))
      ensures requests == old(requests) && id < |requests| && index == old(index) - {requests[id].name}
    {
      StepIsConsistent(Abstract(), Handle(id));
      queued := queued - {id};
      index := index - {requests[id].name};
    }
  }
}
