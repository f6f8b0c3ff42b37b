/**
 * The ClusterTask cache of the dashboard's store: the `byName` reducer that
 * folds resource events into a map keyed by `metadata.name`, and the
 * selectors that read the combined state.
 */
module ClusterTasks {
  import opened Wrappers

  datatype Metadata = Metadata(name: string)

  /** A ClusterTask document; apart from `metadata.name` its content is opaque here. */
  datatype ClusterTask = ClusterTask(metadata: Metadata, spec: string)

  /** The `byName` slice: resource name to the cached document. */
  type Cache = map<string, ClusterTask>

  /** The actions the reducer distinguishes; every other action type is `Other`. */
  datatype Action =
    | ClusterTaskCreated(payload: ClusterTask)
    | ClusterTaskUpdated(payload: ClusterTask)
    | ClusterTaskDeleted(payload: ClusterTask)
    | FetchSuccess(data: seq<ClusterTask>)
    | Other(kind: string)

  /** The combined ClusterTask state: cache plus the two request-lifecycle fields. */
  datatype State = State(byName: Cache, errorMessage: Option<string>, isFetching: bool)

  /** Every entry is stored under its own name. */
  ghost predicate WellKeyed(c: Cache)
  {
    forall k :: k in c ==> c[k].metadata.name == k
  }

  /** Some element of `data` is named `k`. */
  ghost predicate Named(data: seq<ClusterTask>, k: string)
  {
    exists i :: 0 <= i < |data| && data[i].metadata.name == k
  }

  /** `data[i]` is the last element of `data` named `k`. */
  ghost predicate LastNamed(data: seq<ClusterTask>, i: int, k: string)
  {
    0 <= i < |data| && data[i].metadata.name == k &&
    forall j :: i < j < |data| ==> data[j].metadata.name != k
  }

  /**
   * lodash `keyBy(data, 'metadata.name')`: elements are stored in order, so a
   * later element replaces an earlier one of the same name.
   */
  function KeyBy(data: seq<ClusterTask>): (r: Cache)
    ensures WellKeyed(r)
    decreases |data|
  {
    if data == [] then map[]
    else
      var n := |data| - 1;
      KeyBy(data[..n])[data[n].metadata.name := data[n]]
  }

  /** `keyBy` keeps exactly the names occurring in `data`. */
  lemma {:induction false} KeyByKeys(data: seq<ClusterTask>, k: string)
    ensures k in KeyBy(data) <==> Named(data, k)
    decreases |data|
  {
    if data != [] {
      var n := |data| - 1;
      var front := data[..n];
      KeyByKeys(front, k);
      if Named(front, k) {
        var i :| 0 <= i < |front| && front[i].metadata.name == k;
        assert data[i] == front[i];
      }
      if Named(data, k) && k != data[n].metadata.name {
        var i :| 0 <= i < |data| && data[i].metadata.name == k;
        assert front[i] == data[i];
      }
    }
  }

  /** Under a duplicated name, `keyBy` stores the last element carrying it. */
  lemma {:induction false} KeyByLastWins(data: seq<ClusterTask>, k: string)
    requires k in KeyBy(data)
    ensures exists i :: LastNamed(data, i, k) && data[i] == KeyBy(data)[k]
    decreases |data|
  {
    var n := |data| - 1;
    if k == data[n].metadata.name {
      assert LastNamed(data, n, k);
    } else {
      var front := data[..n];
      KeyByLastWins(front, k);
      var i :| LastNamed(front, i, k) && front[i] == KeyBy(front)[k];
      assert LastNamed(data, i, k);
    }
  }

  /**
   * The `byName` reducer. `state` is `None` when the store calls it with
   * `undefined`, which the default parameter turns into `{}`.
   * Created/Updated: `{ [name]: payload, ...state }`, so an entry already
   * cached under that name wins over the payload.
   */
  function ByName(state: Option<Cache>, action: Action): (r: Cache)
    ensures (action.ClusterTaskCreated? || action.ClusterTaskUpdated?) ==>
      var s, n := state.GetOr(map[]), action.payload.metadata.name;
      (n in s ==> r == s) &&
      (n !in s ==> r.Keys == s.Keys + {n} && r[n] == action.payload && forall k :: k in s ==> r[k] == s[k])
    ensures action.ClusterTaskDeleted? ==>
      var s, n := state.GetOr(map[]), action.payload.metadata.name;
      r.Keys == s.Keys - {n} && forall k :: k in r ==> r[k] == s[k]
    ensures action.FetchSuccess? ==> r == KeyBy(action.data)
    ensures action.Other? ==> r == state.GetOr(map[])
  {
    var s := state.GetOr(map[]);
    match action
    case ClusterTaskCreated(t) => map[t.metadata.name := t] + s
    case ClusterTaskUpdated(t) => map[t.metadata.name := t] + s
    case ClusterTaskDeleted(t) => s - {t.metadata.name}
    case FetchSuccess(data) => KeyBy(data)
    case Other(_) => s
  }

  /** The store's first call, with `undefined` state, starts from the empty cache. */
  lemma InitialStateIsEmpty(kind: string)
    ensures ByName(None, Other(kind)) == map[]
  {
  }

  /** No action breaks "every entry is stored under its own name". */
  lemma ByNamePreservesWellKeyed(state: Option<Cache>, action: Action)
    requires state.Some? ==> WellKeyed(state.value)
    ensures WellKeyed(ByName(state, action))
  {
  }

  /** Delivering the same Created event twice leaves the cache as delivering it once. */
  lemma CreatedIsIdempotent(s: Cache, t: ClusterTask)
    ensures ByName(Some(ByName(Some(s), ClusterTaskCreated(t))), ClusterTaskCreated(t))
         == ByName(Some(s), ClusterTaskCreated(t))
  {
  }

  /** The cache after folding `actions`, first to last, into `s`. */
  function Replay(s: Cache, actions: seq<Action>): Cache
    decreases |actions|
  {
    if actions == [] then s else Replay(ByName(Some(s), actions[0]), actions[1..])
  }

  /** One more event at the end of a replay is one more reducer step. */
  lemma {:induction false} ReplaySnoc(s: Cache, actions: seq<Action>, a: Action)
    ensures Replay(s, actions + [a]) == ByName(Some(Replay(s, actions)), a)
    decreases |actions|
  {
    if actions == [] {
      assert [a][1..] == [];
    } else {
      assert (actions + [a])[1..] == actions[1..] + [a];
      ReplaySnoc(ByName(Some(s), actions[0]), actions[1..], a);
    }
  }

  /**
   * Reference definition of which names a replay leaves cached, read from the
   * last event backwards: the last Created/Updated/Deleted naming `k` or the
   * last list fetch decides.
   */
  ghost predicate Live(k: string, s: Cache, actions: seq<Action>)
    decreases |actions|
  {
    if actions == [] then k in s
    else
      var before := actions[..|actions| - 1];
      match actions[|actions| - 1]
      case ClusterTaskCreated(t) => t.metadata.name == k || Live(k, s, before)
      case ClusterTaskUpdated(t) => t.metadata.name == k || Live(k, s, before)
      case ClusterTaskDeleted(t) => t.metadata.name != k && Live(k, s, before)
      case FetchSuccess(data) => Named(data, k)
      case Other(_) => Live(k, s, before)
  }

  /** The reducer keeps exactly the names the reference definition calls live. */
  lemma {:induction false} ReplayKeys(s: Cache, actions: seq<Action>, k: string)
    ensures k in Replay(s, actions) <==> Live(k, s, actions)
    decreases |actions|
  {
    if actions != [] {
      var before, last := actions[..|actions| - 1], actions[|actions| - 1];
      assert actions == before + [last];
      ReplaySnoc(s, before, last);
      ReplayKeys(s, before, k);
      if last.FetchSuccess? {
        KeyByKeys(last.data, k);
      }
    }
  }

  /** A list fetch makes everything replayed before it irrelevant. */
  lemma FetchSuccessForgetsHistory(s1: Cache, s2: Cache, data: seq<ClusterTask>, rest: seq<Action>)
    ensures Replay(s1, [FetchSuccess(data)] + rest) == Replay(s2, [FetchSuccess(data)] + rest)
  {
    assert ([FetchSuccess(data)] + rest)[1..] == rest;
  }

  /** A Created event repeated at the end of any replay changes nothing. */
  lemma ReplayCreatedTwice(s: Cache, actions: seq<Action>, t: ClusterTask)
    ensures Replay(s, actions + [ClusterTaskCreated(t), ClusterTaskCreated(t)])
         == Replay(s, actions + [ClusterTaskCreated(t)])
  {
    var c := ClusterTaskCreated(t);
    assert actions + [c, c] == (actions + [c]) + [c];
    ReplaySnoc(s, actions + [c], c);
    ReplaySnoc(s, actions, c);
    CreatedIsIdempotent(Replay(s, actions), t);
  }

  /**
   * `getClusterTasks`: the cached documents, one per key. `Object.values`
   * fixes no order the model relies on, so the keys are visited in an
   * unspecified order.
   */
  method GetClusterTasks(state: State) returns (tasks: seq<ClusterTask>)
    ensures |tasks| == |state.byName|
    ensures forall i :: 0 <= i < |tasks| ==> tasks[i] in state.byName.Values
    ensures forall k :: k in state.byName ==> state.byName[k] in tasks
    ensures WellKeyed(state.byName) ==>
      forall i, j :: 0 <= i < j < |tasks| ==> tasks[i].metadata.name != tasks[j].metadata.name
  {
    var rest := state.byName.Keys;
    ghost var order: seq<string> := [];
    tasks := [];
    while rest != {}
      invariant rest <= state.byName.Keys
      invariant forall k :: k in order <==> k in state.byName && k !in rest
      invariant forall i, j :: 0 <= i < j < |order| ==> order[i] != order[j]
      invariant |tasks| == |order| && |order| + |rest| == |state.byName|
      invariant forall i :: 0 <= i < |tasks| ==> order[i] in state.byName && tasks[i] == state.byName[order[i]]
      decreases |rest|
    {
      var k :| k in rest;
      tasks, order := tasks + [state.byName[k]], order + [k];
      rest := rest - {k};
    }
    forall k | k in state.byName ensures state.byName[k] in tasks {
      var i :| 0 <= i < |order| && order[i] == k;
      assert tasks[i] == state.byName[k];
    }
  }

  /** `getClusterTask(state, name)`: the entry cached under `name`, absent otherwise. */
  function GetClusterTask(state: State, name: string): (r: Option<ClusterTask>)
    ensures r.Some? <==> name in state.byName
    ensures r.Some? ==> r.value == state.byName[name]
    ensures r.Some? && WellKeyed(state.byName) ==> r.value.metadata.name == name
  {
    if name in state.byName then Some(state.byName[name]) else None
  }

  /** `getClusterTasksErrorMessage`: the stored error message, unchanged. */
  function GetClusterTasksErrorMessage(state: State): (r: Option<string>)
    ensures r == state.errorMessage
  {
    state.errorMessage
  }

  /** `isFetchingClusterTasks`: the stored fetching flag, unchanged. */
  function IsFetchingClusterTasks(state: State): (r: bool)
    ensures r == state.isFetching
  {
    state.isFetching
  }

  /** After a Created event for an uncached name, the selector returns that payload. */
  lemma CreatedIsSelectable(state: State, t: ClusterTask)
    requires t.metadata.name !in state.byName
    ensures GetClusterTask(state.(byName := ByName(Some(state.byName), ClusterTaskCreated(t))), t.metadata.name)
         == Some(t)
  {
  }
}
