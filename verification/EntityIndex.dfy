/** The entity index (services/tin-graph/entity_index.go): the rebuild and the lookups as
    code, and the protocol of concurrent writers and readers as atomic steps at the
    granularity of its lock. */
module EntityIndex {
  import opened Wrappers

  datatype Entity = Entity(id: string, tinHash: string, data: string)

  // ---------------------------------------------------------------------------
  // The index and its lookups
  // ---------------------------------------------------------------------------

  /** The first entity with the hash: the linear scan the index replaces. */
  function ScanTIN(list: seq<Entity>, hash: string): Option<Entity> {
    if list == [] then None else if list[0].tinHash == hash then Some(list[0]) else ScanTIN(list[1..], hash)
  }

  function ScanID(list: seq<Entity>, id: string): Option<Entity> {
    if list == [] then None else if list[0].id == id then Some(list[0]) else ScanID(list[1..], id)
  }

  /** Where several entities have one id, the last of them. */
  predicate IsLastOf(list: seq<Entity>, i: nat, id: string) {
    i < |list| && list[i].id == id && forall j | i < j < |list| :: list[j].id != id
  }

  predicate UniqueIDs(list: seq<Entity>) {
    forall i, j | 0 <= i < j < |list| :: list[i].id != list[j].id
  }

  /** `byID` holds the last index of each id, `byTIN` the first of each non-empty hash. */
  predicate Indexes(list: seq<Entity>, byID: map<string, nat>, byTIN: map<string, nat>) {
    && (forall id | id in byID :: byID[id] < |list| && list[byID[id]].id == id)
    && (forall i | 0 <= i < |list| :: list[i].id in byID && i <= byID[list[i].id])
    && (forall h | h in byTIN :: h != "" && byTIN[h] < |list| && list[byTIN[h]].tinHash == h)
    && (forall i | 0 <= i < |list| && list[i].tinHash != "" :: list[i].tinHash in byTIN && byTIN[list[i].tinHash] <= i)
  }

  lemma IndexesExtend(list: seq<Entity>, byID: map<string, nat>, byTIN: map<string, nat>, e: Entity)
    requires Indexes(list, byID, byTIN)
    ensures Indexes(list + [e], byID[e.id := |list|],
              if e.tinHash != "" && e.tinHash !in byTIN then byTIN[e.tinHash := |list|] else byTIN)
  {
  }

  class Index {
    var loaded: bool
    var list: seq<Entity>
    var byID: map<string, nat>
    var byTIN: map<string, nat>

    ghost predicate Valid()
      reads this
    {
      Indexes(list, byID, byTIN)
    }

    constructor ()
      ensures Valid() && !loaded && list == []
    {
      loaded, list, byID, byTIN := false, [], map[], map[];
    }

    method Invalidate()
      requires Valid()
      modifies this
      ensures Valid() && !loaded && list == old(list)
    {
      loaded := false;
    }

    /** The part of ensure() that runs under the write lock; `listed` is what the store
        returned, None on an error. */
    method Rebuild(listed: Option<seq<Entity>>)
      requires Valid()
      modifies this
      ensures Valid() && loaded
      ensures list == if old(loaded) then old(list) else if listed.Some? then listed.value else []
    {
      if loaded { return; }
      var ents := if listed.Some? then listed.value else [];
      var ids: map<string, nat> := map[];
      var tins: map<string, nat> := map[];
      var i := 0;
      while i < |ents|
        invariant 0 <= i <= |ents|
        invariant Indexes(ents[..i], ids, tins)
      {
        var e := ents[i];
        IndexesExtend(ents[..i], ids, tins, e);
        assert ents[..i + 1] == ents[..i] + [e];
        ids := ids[e.id := i];
        if e.tinHash != "" {
          if e.tinHash !in tins { tins := tins[e.tinHash := i]; }
        }
        i := i + 1;
      }
      assert ents[..i] == ents;
      list, byID, byTIN, loaded := ents, ids, tins, true;
    }

    method FindByID(id: string) returns (r: Option<Entity>)
      requires Valid()
      ensures UniqueIDs(list) ==> r == ScanID(list, id)
      ensures r.None? <==> forall e | e in list :: e.id != id
      ensures r.Some? ==> exists i: nat :: IsLastOf(list, i, id) && r.value == list[i]
    {
      if id in byID {
        if UniqueIDs(list) { ScanIDFinds(list, id, byID[id]); }
        assert IsLastOf(list, byID[id], id);
        return Some(list[byID[id]]);
      }
      ScanIDMisses(list, id);
      return None;
    }

    method FindByTINHash(hash: string) returns (r: Option<Entity>)
      requires Valid()
      ensures hash != "" ==> r == ScanTIN(list, hash)
      ensures hash == "" ==> r == None
    {
      if hash in byTIN {
        ScanTINFinds(list, hash, byTIN[hash]);
        return Some(list[byTIN[hash]]);
      }
      if hash != "" { ScanTINMisses(list, hash); }
      return None;
    }
  }

  lemma {:induction false} ScanIDFinds(list: seq<Entity>, id: string, i: nat)
    requires UniqueIDs(list) && i < |list| && list[i].id == id
    ensures ScanID(list, id) == Some(list[i])
  {
    if i > 0 { ScanIDFinds(list[1..], id, i - 1); }
  }

  lemma {:induction false} ScanIDMisses(list: seq<Entity>, id: string)
    requires forall e | e in list :: e.id != id
    ensures ScanID(list, id) == None
  {
    if list != [] { ScanIDMisses(list[1..], id); }
  }

  lemma {:induction false} ScanTINFinds(list: seq<Entity>, hash: string, i: nat)
    requires i < |list| && list[i].tinHash == hash && forall j | 0 <= j < i :: list[j].tinHash != hash
    ensures ScanTIN(list, hash) == Some(list[i])
  {
    if i > 0 { ScanTINFinds(list[1..], hash, i - 1); }
  }

  lemma {:induction false} ScanTINMisses(list: seq<Entity>, hash: string)
    requires forall e | e in list :: e.tinHash != hash
    ensures ScanTIN(list, hash) == None
  {
    if list != [] { ScanTINMisses(list[1..], hash); }
  }

  // ---------------------------------------------------------------------------
  // The protocol
  // ---------------------------------------------------------------------------

  type Pid = nat

  /** Where a request is. `since` holds the versions whose writes had returned when the
      lookup began; a snapshot carries the store version it was taken at. */
  datatype Proc =
    | Idle
    | Written(version: nat)                                                  // before its invalidate()
    | Began(since: set<nat>)                                                 // before the first read of loaded
    | Stale(since: set<nat>)                                                 // found it false, before Lock
    | Locked(since: set<nat>)                                                // holds the lock, loaded is false
    | Listed(since: set<nat>, ents: seq<Entity>, version: nat, ok: bool)     // holds the lock and a listing
    | Ready(since: set<nat>)                                                 // ensure() returned
    | Done(since: set<nat>, result: seq<Entity>, ok: bool)

  /** `history` is every content the store has had; `returned` the versions whose writes
      have returned; `version` and `ok` say where the index's list came from. */
  datatype State = State(
    history: seq<seq<Entity>>, returned: set<nat>,
    loaded: bool, list: seq<Entity>, version: nat, ok: bool,
    lock: Option<Pid>, procs: map<Pid, Proc>)

  datatype Step =
    | Write(p: Pid, content: seq<Entity>)   // Put, Delete or Update on the store
    | Invalidate(p: Pid)                    // and its invalidate(), after which it returns
    | Begin(p: Pid)
    | CheckLoaded(p: Pid)
    | Acquire(p: Pid)                       // Lock, and the second look at loaded
    | ListInto(p: Pid, ok: bool)
    | Publish(p: Pid)                       // assign the fields, Unlock
    | Read(p: Pid)
    | Finish(p: Pid)

  function At(s: State, p: Pid): Proc { if p in s.procs then s.procs[p] else Idle }

  function Content(s: State): seq<Entity>
    requires s.history != []
  {
    s.history[|s.history| - 1]
  }

  predicate Enabled(s: State, a: Step) {
    match a
    case Write(p, _) => At(s, p).Idle?
    case Invalidate(p) => At(s, p).Written? && s.lock.None?
    case Begin(p) => At(s, p).Idle?
    case CheckLoaded(p) => At(s, p).Began? && s.lock.None?
    case Acquire(p) => At(s, p).Stale? && s.lock.None?
    case ListInto(p, _) => At(s, p).Locked? && s.history != []
    case Publish(p) => At(s, p).Listed?
    case Read(p) => At(s, p).Ready? && s.lock.None?
    case Finish(p) => At(s, p).Done?
  }

  function Do(s: State, a: Step): State
    requires Enabled(s, a)
  {
    match a
    case Write(p, content) =>
      s.(history := s.history + [content], procs := s.procs[p := Written(|s.history|)])
    case Invalidate(p) =>
      s.(loaded := false, returned := s.returned + {At(s, p).version}, procs := s.procs[p := Idle])
    case Begin(p) => s.(procs := s.procs[p := Began(s.returned)])
    case CheckLoaded(p) =>
      var since := At(s, p).since;
      s.(procs := s.procs[p := if s.loaded then Ready(since) else Stale(since)])
    case Acquire(p) =>
      var since := At(s, p).since;
      if s.loaded then s.(procs := s.procs[p := Ready(since)])
      else s.(lock := Some(p), procs := s.procs[p := Locked(since)])
    case ListInto(p, ok) =>
      s.(procs := s.procs[p := Listed(At(s, p).since, if ok then Content(s) else [], |s.history| - 1, ok)])
    case Publish(p) =>
      var l := At(s, p);
      s.(loaded := true, list := l.ents, version := l.version, ok := l.ok, lock := None, procs := s.procs[p := Ready(l.since)])
    case Read(p) => s.(procs := s.procs[p := Done(At(s, p).since, s.list, s.ok)])
    case Finish(p) => s.(procs := s.procs[p := Idle])
  }

  /** The state after a run of steps by any requests, in any order; None if a step is
      not enabled where it stands. */
  function Run(s: State, steps: seq<Step>): Option<State> {
    if steps == [] then Some(s)
    else
      var r := Run(s, steps[..|steps| - 1]);
      var a := steps[|steps| - 1];
      if r.None? || !Enabled(r.value, a) then None else Some(Do(r.value, a))
  }

  predicate Start(s: State) {
    |s.history| == 1 && s.returned == {} && !s.loaded && s.list == [] && s.version == 0 && !s.ok
    && s.lock == None && s.procs == map[]
  }

  // ---------------------------------------------------------------------------
  // What every step keeps
  // ---------------------------------------------------------------------------

  /** A list of the given version: the store's content then, or nothing after an error. */
  predicate FromStore(s: State, list: seq<Entity>, version: nat, ok: bool) {
    version < |s.history| && list == if ok then s.history[version] else []
  }

  /** A list at least as recent as every write in `since`. */
  ghost predicate SeenSince(s: State, list: seq<Entity>, ok: bool, since: set<nat>) {
    exists v: nat :: FromStore(s, list, v, ok) && forall w | w in since :: w <= v
  }

  ghost predicate ProcOK(s: State, p: Pid) {
    match At(s, p)
    case Idle => true
    case Written(v) => 0 < v < |s.history| && v !in s.returned
    case Began(since) => since <= s.returned
    case Stale(since) => since <= s.returned
    case Locked(since) => since <= s.returned && s.lock == Some(p) && !s.loaded
    case Listed(since, ents, v, ok) =>
      && since <= s.returned && s.lock == Some(p)
      && FromStore(s, ents, v, ok) && s.version <= v && forall w | w in s.returned :: w <= v
    case Ready(since) => SeenAt(s, since)
    case Done(since, result, ok) => SeenSince(s, result, ok, since)
  }

  predicate SeenAt(s: State, since: set<nat>) { forall w | w in since :: w <= s.version }

  ghost predicate Inv(s: State) {
    && s.history != []
    && FromStore(s, s.list, s.version, s.ok)
    && (forall w | w in s.returned :: 0 < w < |s.history|)
    && (s.loaded ==> SeenAt(s, s.returned))
    && (forall p :: ProcOK(s, p))
    && (forall p, q :: p != q && At(s, p).Written? && At(s, q).Written? ==> At(s, p).version != At(s, q).version)
    && (forall v | 0 < v < |s.history| && v !in s.returned :: exists p :: At(s, p) == Written(v))
  }

  lemma InvStart(s: State)
    requires Start(s)
    ensures Inv(s)
  {
  }

  lemma InvStep(s: State, a: Step)
    requires Inv(s) && Enabled(s, a)
    ensures Inv(Do(s, a))
  {
    var t := Do(s, a);
    assert ProcOK(s, a.p);
    forall p ensures ProcOK(t, p) { if p == a.p { OwnProc(s, a); } else { OtherProc(s, a, p); } }
    forall p, q | p != q && At(t, p).Written? && At(t, q).Written? ensures At(t, p).version != At(t, q).version {
      assert ProcOK(s, p) && ProcOK(s, q);
    }
    forall v | 0 < v < |t.history| && v !in t.returned ensures exists p :: At(t, p) == Written(v) {
      if v < |s.history| {
        var p :| At(s, p) == Written(v);
        assert At(t, p) == Written(v);
      } else {
        assert At(t, a.p) == Written(v);
      }
    }
  }

  lemma OwnProc(s: State, a: Step)
    requires Inv(s) && Enabled(s, a)
    ensures ProcOK(Do(s, a), a.p)
  {
    var t := Do(s, a);
    assert ProcOK(s, a.p);
    if a.Read? {
      assert FromStore(t, t.list, t.version, t.ok);
    }
  }

  /** A step of one request leaves every other request where it was. */
  lemma OtherProc(s: State, a: Step, p: Pid)
    requires Inv(s) && Enabled(s, a) && p != a.p
    ensures ProcOK(Do(s, a), p)
  {
    var t := Do(s, a);
    assert ProcOK(s, p) && ProcOK(s, a.p);
    assert At(t, p) == At(s, p);
    if At(t, p).Done? {
      hide SeenAt;
      var d := At(s, p);
      var v: nat :| FromStore(s, d.result, v, d.ok) && forall w | w in d.since :: w <= v;
      assert FromStore(t, d.result, v, d.ok);
    }
  }

  lemma {:induction false} InvRun(s: State, steps: seq<Step>)
    requires Start(s) && Run(s, steps).Some?
    ensures Inv(Run(s, steps).value)
  {
    if steps == [] {
      InvStart(s);
    } else {
      InvRun(s, steps[..|steps| - 1]);
      InvStep(Run(s, steps[..|steps| - 1]).value, steps[|steps| - 1]);
    }
  }

  // ---------------------------------------------------------------------------
  // Freshness
  // ---------------------------------------------------------------------------

  /** No write is between its store write and its invalidate(). */
  predicate Quiet(s: State) { forall p | p in s.procs :: !s.procs[p].Written? }

  /** In every reachable state: a loaded index with no write in between is the store,
      exactly unless the listing it was built from failed and the store is not empty. */
  lemma LoadedIsFresh(s: State, steps: seq<Step>)
    requires Start(s) && Run(s, steps).Some?
    ensures var t := Run(s, steps).value;
      t.history != [] && (t.loaded && Quiet(t) ==> (t.list == Content(t) <==> t.ok || Content(t) == []))
  {
    InvRun(s, steps);
    var t := Run(s, steps).value;
    if t.loaded && Quiet(t) {
      var latest := |t.history| - 1;
      assert forall p :: At(t, p) != Written(latest);
      assert latest > 0 ==> latest in t.returned;
    }
  }

  /** In every reachable state: what a lookup read is a content the store has had, no
      older than any write that returned before the lookup began (or nothing, if the
      listing behind it failed). */
  lemma LookupSeesReturnedWrites(s: State, steps: seq<Step>, p: Pid)
    requires Start(s) && Run(s, steps).Some? && At(Run(s, steps).value, p).Done?
    ensures var t := Run(s, steps).value;
      var d := At(t, p);
      if d.ok then exists v: nat :: v < |t.history| && d.result == t.history[v] && forall w | w in d.since :: w <= v
      else d.result == []
  {
    InvRun(s, steps);
    var t := Run(s, steps).value;
    assert ProcOK(t, p);
    var d := At(t, p);
    var v: nat :| FromStore(t, d.result, v, d.ok) && forall w | w in d.since :: w <= v;
  }

  /** A run in which a listing fails: the index is loaded and quiet, but not the store. */
  lemma FailedListingIsServed(e: Entity) returns (s: State, steps: seq<Step>)
    ensures Start(s) && Run(s, steps).Some?
    ensures var t := Run(s, steps).value;
      t.loaded && Quiet(t) && t.list == [] && t.history == [[e]]
  {
    s := State([[e]], {}, false, [], 0, false, None, map[]);
    var s1 := Do(s, Begin(1));
    var s2 := Do(s1, CheckLoaded(1));
    var s3 := Do(s2, Acquire(1));
    var s4 := Do(s3, ListInto(1, false));
    hide Do, Enabled;
    RunStep(s, [], Begin(1));
    var r1 := [] + [Begin(1)];
    RunStep(s, r1, CheckLoaded(1));
    var r2 := r1 + [CheckLoaded(1)];
    RunStep(s, r2, Acquire(1));
    var r3 := r2 + [Acquire(1)];
    RunStep(s, r3, ListInto(1, false));
    var r4 := r3 + [ListInto(1, false)];
    RunStep(s, r4, Publish(1));
    steps := r4 + [Publish(1)];
  }

  lemma RunStep(s: State, steps: seq<Step>, a: Step)
    requires Run(s, steps).Some? && Enabled(Run(s, steps).value, a)
    ensures Run(s, steps + [a]) == Some(Do(Run(s, steps).value, a))
  {
    assert (steps + [a])[..|steps|] == steps;
  }
}
