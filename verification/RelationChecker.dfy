/** The relation checker (permify-models/checker.go): a depth-first search with one shared
    visited set and a depth cut, against the least fixpoint it is meant to compute. */
module RelationChecker {
  import opened Wrappers

  datatype Tuple = Tuple(obj: string, relation: string, subject: string)
  datatype RelationDef = RelationDef(entity: string, name: string, union: seq<string>)

  /** Tuples, and definitions by "entity:name". */
  datatype Model = Model(tuples: seq<Tuple>, defs: map<string, RelationDef>)

  datatype Goal = Goal(obj: string, relation: string)

  function IndexOf(s: string, c: char): (r: Option<nat>)
    ensures r.Some? ==> r.value < |s| && s[r.value] == c && c !in s[..r.value]
    ensures r.None? ==> c !in s
  {
    if s == "" then None
    else if s[0] == c then Some(0)
    else
      var rest := IndexOf(s[1..], c);
      assert s == [s[0]] + s[1..];
      if rest.None? then None
      else
        assert s[..rest.value + 1] == [s[0]] + s[1..][..rest.value];
        Some(rest.value + 1)
  }

  function EntityOf(obj: string): string {
    var i := IndexOf(obj, ':');
    if i.Some? && i.value > 0 then obj[..i.value] else obj
  }

  /** A union entry: a relation of the same object, or a walk through one tuple. */
  datatype Ref = Local(name: string) | Dotted(via: string, name: string)

  function SplitRef(ref: string): Ref {
    var i := IndexOf(ref, '.');
    if i.None? then Local(ref) else Dotted(ref[..i.value], ref[i.value + 1..])
  }

  function DefKey(g: Goal): string { EntityOf(g.obj) + ":" + g.relation }

  function VisitedKey(g: Goal, subject: string): string { g.obj + "#" + g.relation + "@" + subject }

  // ---------------------------------------------------------------------------
  // Meaning: the least fixpoint
  // ---------------------------------------------------------------------------

  predicate Direct(m: Model, g: Goal, subject: string) {
    Tuple(g.obj, g.relation, subject) in m.tuples
  }

  /** One union entry of object `o` leads to goal `h`. */
  predicate RefLeads(m: Model, o: string, ref: string, h: Goal) {
    match SplitRef(ref)
    case Local(name) => h == Goal(o, name)
    case Dotted(via, name) => h.relation == name && Tuple(o, via, h.obj) in m.tuples
  }

  /** The definition of `g` refers to `h`. */
  predicate Leads(m: Model, g: Goal, h: Goal) {
    DefKey(g) in m.defs && exists ref | ref in m.defs[DefKey(g)].union :: RefLeads(m, g.obj, ref, h)
  }

  /** A derivation of `g` for the subject with at most `n` uses of definitions. */
  ghost predicate DerivableIn(n: nat, m: Model, g: Goal, subject: string) {
    Direct(m, g, subject) ||
    (n > 0 && exists h :: Leads(m, g, h) && DerivableIn(n - 1, m, h, subject))
  }

  ghost predicate Derivable(m: Model, g: Goal, subject: string) {
    exists n :: DerivableIn(n, m, g, subject)
  }

  // ---------------------------------------------------------------------------
  // The search
  // ---------------------------------------------------------------------------

  const MAX_DEPTH := 16

  datatype Search = Search(found: bool, visited: set<string>)

  function Expand(m: Model, g: Goal, subject: string, visited: set<string>, depth: nat): Search
    decreases MAX_DEPTH + 1 - depth, 2, 0
  {
    if depth > MAX_DEPTH then Search(false, visited)
    else if VisitedKey(g, subject) in visited then Search(false, visited)
    else
      var marked := visited + {VisitedKey(g, subject)};
      if Direct(m, g, subject) then Search(true, marked)
      else if DefKey(g) !in m.defs then Search(false, marked)
      else ExpandRefs(m, g.obj, m.defs[DefKey(g)].union, subject, marked, depth)
  }

  function ExpandRefs(m: Model, o: string, refs: seq<string>, subject: string, visited: set<string>, depth: nat): Search
    requires depth <= MAX_DEPTH
    decreases MAX_DEPTH + 1 - depth, 1, |refs|
  {
    if refs == [] then Search(false, visited)
    else
      var s := ExpandRef(m, o, refs[0], subject, visited, depth);
      if s.found then s else ExpandRefs(m, o, refs[1..], subject, s.visited, depth)
  }

  function ExpandRef(m: Model, o: string, ref: string, subject: string, visited: set<string>, depth: nat): Search
    requires depth <= MAX_DEPTH
    decreases MAX_DEPTH + 1 - depth, 0, |m.tuples| + 1
  {
    match SplitRef(ref)
    case Local(name) =>
      var s := Expand(m, Goal(o, name), subject, visited, depth + 1);
      if Direct(m, Goal(o, name), subject) then Search(true, s.visited) else s
    case Dotted(via, name) => ExpandTuples(m, o, via, name, m.tuples, subject, visited, depth)
  }

  function ExpandTuples(m: Model, o: string, via: string, name: string, ts: seq<Tuple>,
      subject: string, visited: set<string>, depth: nat): Search
    requires depth <= MAX_DEPTH
    decreases MAX_DEPTH + 1 - depth, 0, |ts|
  {
    if ts == [] then Search(false, visited)
    else if ts[0].obj == o && ts[0].relation == via then
      var s := Expand(m, Goal(ts[0].subject, name), subject, visited, depth + 1);
      if s.found then s else ExpandTuples(m, o, via, name, ts[1..], subject, s.visited, depth)
    else ExpandTuples(m, o, via, name, ts[1..], subject, visited, depth)
  }

  function Check(m: Model, g: Goal, subject: string): bool {
    Expand(m, g, subject, {}, 0).found
  }

  // ---------------------------------------------------------------------------
  // The code: a checker object and one shared, mutable visited set per query
  // ---------------------------------------------------------------------------

  class Visited {
    var keys: set<string>
    constructor ()
      ensures keys == {}
    {
      keys := {};
    }
  }

  class Checker {
    const tuples: seq<Tuple>
    var defs: map<string, RelationDef>

    function TheModel(): Model
      reads this
    {
      Model(tuples, defs)
    }

    /** Later definitions of the same entity and name replace earlier ones. */
    constructor (tuples: seq<Tuple>, defs: seq<RelationDef>)
      ensures TheModel() == Model(tuples, DefsByKey(defs))
    {
      this.tuples := tuples;
      this.defs := map[];
      new;
      var i := 0;
      while i < |defs|
        invariant 0 <= i <= |defs| && this.tuples == tuples
        invariant this.defs == DefsByKey(defs[..i])
      {
        assert defs[..i + 1][..i] == defs[..i];
        this.defs := this.defs[defs[i].entity + ":" + defs[i].name := defs[i]];
        i := i + 1;
      }
      assert defs[..i] == defs;
    }

    method HasTuple(o: string, relation: string, subject: string) returns (found: bool)
      ensures found == Direct(TheModel(), Goal(o, relation), subject)
    {
      var i := 0;
      while i < |tuples|
        invariant 0 <= i <= |tuples|
        invariant Tuple(o, relation, subject) !in tuples[..i]
      {
        var t := tuples[i];
        if t.obj == o && t.relation == relation && t.subject == subject { return true; }
        assert tuples[..i + 1] == tuples[..i] + [t];
        i := i + 1;
      }
      assert tuples[..i] == tuples;
      return false;
    }

    method CheckRelation(o: string, relation: string, subject: string) returns (found: bool)
      ensures found == Check(TheModel(), Goal(o, relation), subject)
    {
      var visited := new Visited();
      found := ExpandGoal(o, relation, subject, visited, 0);
    }

    method ExpandGoal(o: string, relation: string, subject: string, visited: Visited, depth: nat)
        returns (found: bool)
      modifies visited
      ensures Search(found, visited.keys) == Expand(TheModel(), Goal(o, relation), subject, old(visited.keys), depth)
      decreases MAX_DEPTH + 1 - depth
    {
      ghost var m := TheModel();
      if depth > MAX_DEPTH { return false; }
      var key := o + "#" + relation + "@" + subject;
      if key in visited.keys { return false; }
      visited.keys := visited.keys + {key};
      var direct := HasTuple(o, relation, subject);
      if direct { return true; }
      var defKey := EntityOf(o) + ":" + relation;
      if defKey !in defs { return false; }
      var refs := defs[defKey].union;
      ghost var whole := ExpandRefs(m, o, refs, subject, visited.keys, depth);
      var i := 0;
      while i < |refs|
        invariant 0 <= i <= |refs|
        invariant TheModel() == m
        invariant ExpandRefs(m, o, refs[i..], subject, visited.keys, depth) == whole
      {
        assert refs[i..][0] == refs[i] && refs[i..][1..] == refs[i + 1..];
        match SplitRef(refs[i]) {
          case Local(name) =>
            var f := ExpandGoal(o, name, subject, visited, depth + 1);
            if f { return true; }
            var d := HasTuple(o, name, subject);
            if d { return true; }
          case Dotted(via, name) =>
            ghost var part := ExpandTuples(m, o, via, name, tuples, subject, visited.keys, depth);
            var j := 0;
            while j < |tuples|
              invariant 0 <= j <= |tuples|
              invariant TheModel() == m
              invariant ExpandTuples(m, o, via, name, tuples[j..], subject, visited.keys, depth) == part
            {
              var t := tuples[j];
              assert tuples[j..][0] == t && tuples[j..][1..] == tuples[j + 1..];
              if t.obj == o && t.relation == via {
                var f := ExpandGoal(t.subject, name, subject, visited, depth + 1);
                if f { return true; }
              }
              j := j + 1;
            }
        }
        i := i + 1;
      }
      return false;
    }
  }

  function DefsByKey(defs: seq<RelationDef>): map<string, RelationDef> {
    if defs == [] then map[]
    else
      var d := defs[|defs| - 1];
      DefsByKey(defs[..|defs| - 1])[d.entity + ":" + d.name := d]
  }

  // ---------------------------------------------------------------------------
  // Soundness: a positive answer has a derivation
  // ---------------------------------------------------------------------------

  lemma {:induction false} ExpandSound(m: Model, g: Goal, subject: string, visited: set<string>, depth: nat)
      returns (n: nat)
    requires Expand(m, g, subject, visited, depth).found
    ensures DerivableIn(n, m, g, subject)
    decreases MAX_DEPTH + 1 - depth, 2, 0
  {
    n := 0;
    if !Direct(m, g, subject) {
      var refs := m.defs[DefKey(g)].union;
      var h, k := RefsSound(m, g.obj, refs, subject, visited + {VisitedKey(g, subject)}, depth);
      assert Leads(m, g, h);
      n := k + 1;
    }
  }

  lemma {:induction false} RefsSound(m: Model, o: string, refs: seq<string>, subject: string, visited: set<string>, depth: nat)
      returns (h: Goal, n: nat)
    requires depth <= MAX_DEPTH && ExpandRefs(m, o, refs, subject, visited, depth).found
    ensures DerivableIn(n, m, h, subject) && exists ref | ref in refs :: RefLeads(m, o, ref, h)
    decreases MAX_DEPTH + 1 - depth, 1, |refs|
  {
    var s := ExpandRef(m, o, refs[0], subject, visited, depth);
    if !s.found {
      h, n := RefsSound(m, o, refs[1..], subject, s.visited, depth);
    } else {
      match SplitRef(refs[0]) {
        case Local(name) =>
          h, n := Goal(o, name), 0;
          if !Direct(m, h, subject) { n := ExpandSound(m, h, subject, visited, depth + 1); }
        case Dotted(via, name) =>
          h, n := TuplesSound(m, o, via, name, m.tuples, subject, visited, depth);
      }
      assert RefLeads(m, o, refs[0], h);
    }
  }

  lemma {:induction false} TuplesSound(m: Model, o: string, via: string, name: string, ts: seq<Tuple>,
      subject: string, visited: set<string>, depth: nat) returns (h: Goal, n: nat)
    requires depth <= MAX_DEPTH && ExpandTuples(m, o, via, name, ts, subject, visited, depth).found
    ensures DerivableIn(n, m, h, subject) && h.relation == name && Tuple(o, via, h.obj) in ts
    decreases MAX_DEPTH + 1 - depth, 0, |ts|
  {
    if ts[0].obj == o && ts[0].relation == via {
      h := Goal(ts[0].subject, name);
      var s := Expand(m, h, subject, visited, depth + 1);
      if s.found {
        n := ExpandSound(m, h, subject, visited, depth + 1);
        assert ts[0] == Tuple(o, via, h.obj);
      } else {
        h, n := TuplesSound(m, o, via, name, ts[1..], subject, s.visited, depth);
      }
    } else {
      h, n := TuplesSound(m, o, via, name, ts[1..], subject, visited, depth);
    }
  }

  /** Whatever the tuples and definitions: a positive answer is derivable. */
  lemma CheckSound(m: Model, g: Goal, subject: string)
    ensures Check(m, g, subject) ==> Derivable(m, g, subject)
  {
    if Check(m, g, subject) { var n := ExpandSound(m, g, subject, {}, 0); }
  }

  // ---------------------------------------------------------------------------
  // Completeness: the visited set and the depth cut lose nothing where chains are short
  // ---------------------------------------------------------------------------

  /** `goals` contains everything the definitions lead to from it. */
  ghost predicate ClosedUnder(m: Model, goals: set<Goal>) {
    forall g, h :: g in goals && Leads(m, g, h) ==> h in goals
  }

  predicate NoHashes(goals: set<Goal>) { forall g | g in goals :: '#' !in g.obj }

  predicate Seen(visited: set<string>, g: Goal, subject: string) { VisitedKey(g, subject) in visited }

  /** Every goal marked since `before` has no direct tuple and all its successors marked. */
  ghost predicate Exhausted(m: Model, goals: set<Goal>, subject: string, before: set<string>, after: set<string>) {
    && before <= after
    && forall g | g in goals && Seen(after, g, subject) && !Seen(before, g, subject) ::
         !Direct(m, g, subject) && forall h :: Leads(m, g, h) ==> Seen(after, h, subject)
  }

  lemma ExhaustedTransitive(m: Model, goals: set<Goal>, subject: string, a: set<string>, b: set<string>, c: set<string>)
    requires Exhausted(m, goals, subject, a, b) && Exhausted(m, goals, subject, b, c)
    ensures Exhausted(m, goals, subject, a, c)
  {
  }

  lemma KeysDiffer(g: Goal, h: Goal, subject: string)
    requires '#' !in g.obj && '#' !in h.obj && VisitedKey(g, subject) == VisitedKey(h, subject)
    ensures g == h
  {
    var k := VisitedKey(g, subject);
    assert k[|g.obj|] == '#' && k[|h.obj|] == '#';
    assert k[..|g.obj|] == g.obj && k[..|h.obj|] == h.obj;
    assert forall i | 0 <= i < |g.obj| :: k[i] == g.obj[i] && g.obj[i] != '#';
    assert forall i | 0 <= i < |h.obj| :: k[i] == h.obj[i] && h.obj[i] != '#';
    assert |g.obj| == |h.obj|;
    assert g.relation == k[|g.obj| + 1..|k| - |subject| - 1];
    assert h.relation == k[|h.obj| + 1..|k| - |subject| - 1];
  }

  /** Distinct goals, each referring to the next. */
  ghost predicate IsChain(m: Model, c: seq<Goal>) {
    && (forall i, j | 0 <= i < j < |c| :: c[i] != c[j])
    && forall i | 0 < i < |c| :: Leads(m, c[i - 1], c[i])
  }

  /** No chain of distinct goals from `q` is longer than `k`. */
  ghost predicate ShortChains(m: Model, q: Goal, k: nat) {
    forall c: seq<Goal> | c != [] && c[0] == q && IsChain(m, c) :: |c| <= k
  }

  /** The query `q` is over a closed set of goals whose objects have no '#', its chains have
      at most 17 goals, and `chain` holds the goals being expanded around this call. */
  ghost predicate InSearch(m: Model, goals: set<Goal>, q: Goal, chain: seq<Goal>, subject: string, visited: set<string>, depth: nat) {
    && ClosedUnder(m, goals) && NoHashes(goals) && ShortChains(m, q, MAX_DEPTH + 1)
    && |chain| == depth && IsChain(m, chain) && (chain != [] ==> chain[0] == q)
    && forall g | g in chain :: g in goals && Seen(visited, g, subject)
  }

  /** The call on `g` is the query itself or comes from the innermost goal. */
  ghost predicate Called(m: Model, q: Goal, chain: seq<Goal>, g: Goal) {
    if chain == [] then g == q else Leads(m, chain[|chain| - 1], g)
  }

  /** A goal called at the depth cut is one of the 17 around it. */
  lemma NextOnChain(m: Model, goals: set<Goal>, q: Goal, chain: seq<Goal>, g: Goal, subject: string, visited: set<string>, depth: nat)
    requires InSearch(m, goals, q, chain, subject, visited, depth) && g in goals && Called(m, q, chain, g)
    requires !Seen(visited, g, subject)
    ensures depth <= MAX_DEPTH
    ensures InSearch(m, goals, q, chain + [g], subject, visited + {VisitedKey(g, subject)}, depth + 1)
  {
    hide ClosedUnder, NoHashes, Leads;
    var longer := chain + [g];
    assert g !in chain;
    assert IsChain(m, longer);
    assert longer != [] && longer[0] == q;
  }

  lemma {:induction false} ExpandComplete(m: Model, goals: set<Goal>, q: Goal, chain: seq<Goal>, g: Goal, subject: string, visited: set<string>, depth: nat)
    requires InSearch(m, goals, q, chain, subject, visited, depth) && g in goals && Called(m, q, chain, g)
    requires !Expand(m, g, subject, visited, depth).found
    ensures var after := Expand(m, g, subject, visited, depth).visited;
      Exhausted(m, goals, subject, visited, after) && Seen(after, g, subject)
    decreases MAX_DEPTH + 1 - depth, 2, 0
  {
    hide ShortChains, IsChain;
    if !Seen(visited, g, subject) {
      NextOnChain(m, goals, q, chain, g, subject, visited, depth);
      var marked := visited + {VisitedKey(g, subject)};
      var after := Expand(m, g, subject, visited, depth).visited;
      if DefKey(g) in m.defs {
        RefsComplete(m, goals, q, chain + [g], g, m.defs[DefKey(g)].union, subject, marked, depth);
      }
      assert Exhausted(m, goals, subject, marked, after);
      forall f | f in goals && Seen(after, f, subject) && !Seen(visited, f, subject)
        ensures !Direct(m, f, subject) && forall h :: Leads(m, f, h) ==> Seen(after, h, subject)
      {
        if Seen(marked, f, subject) { KeysDiffer(f, g, subject); }
      }
    }
  }

  lemma {:induction false} RefsComplete(m: Model, goals: set<Goal>, q: Goal, chain: seq<Goal>, g: Goal, refs: seq<string>, subject: string, visited: set<string>, depth: nat)
    requires depth <= MAX_DEPTH && InSearch(m, goals, q, chain, subject, visited, depth + 1) && chain[depth] == g
    requires forall ref, h | ref in refs && RefLeads(m, g.obj, ref, h) :: h in goals && Leads(m, g, h)
    requires !ExpandRefs(m, g.obj, refs, subject, visited, depth).found
    ensures var after := ExpandRefs(m, g.obj, refs, subject, visited, depth).visited;
      && Exhausted(m, goals, subject, visited, after)
      && forall ref, h | ref in refs && RefLeads(m, g.obj, ref, h) :: Seen(after, h, subject)
    decreases MAX_DEPTH + 1 - depth, 1, |refs|
  {
    hide ShortChains, IsChain, Leads;
    if refs != [] {
      var o, ref := g.obj, refs[0];
      var s := ExpandRef(m, o, ref, subject, visited, depth);
      assert ref in refs;
      match SplitRef(ref) {
        case Local(name) =>
          assert RefLeads(m, o, ref, Goal(o, name));
          ExpandComplete(m, goals, q, chain, Goal(o, name), subject, visited, depth + 1);
        case Dotted(via, name) =>
          TuplesComplete(m, goals, q, chain, o, via, name, m.tuples, subject, visited, depth);
      }
      assert Exhausted(m, goals, subject, visited, s.visited);
      assert forall h | RefLeads(m, o, ref, h) :: Seen(s.visited, h, subject);
      RefsComplete(m, goals, q, chain, g, refs[1..], subject, s.visited, depth);
      var after := ExpandRefs(m, o, refs, subject, visited, depth).visited;
      ExhaustedTransitive(m, goals, subject, visited, s.visited, after);
    }
  }

  lemma {:induction false} TuplesComplete(m: Model, goals: set<Goal>, q: Goal, chain: seq<Goal>, o: string, via: string, name: string,
      ts: seq<Tuple>, subject: string, visited: set<string>, depth: nat)
    requires depth <= MAX_DEPTH && InSearch(m, goals, q, chain, subject, visited, depth + 1)
    requires forall t | t in ts && t.obj == o && t.relation == via ::
      Goal(t.subject, name) in goals && Leads(m, chain[depth], Goal(t.subject, name))
    requires !ExpandTuples(m, o, via, name, ts, subject, visited, depth).found
    ensures var after := ExpandTuples(m, o, via, name, ts, subject, visited, depth).visited;
      && Exhausted(m, goals, subject, visited, after)
      && forall h: Goal | h.relation == name && Tuple(o, via, h.obj) in ts :: Seen(after, h, subject)
    decreases MAX_DEPTH + 1 - depth, 0, |ts|
  {
    hide ShortChains, IsChain, Leads;
    if ts != [] {
      var mid := visited;
      if ts[0].obj == o && ts[0].relation == via {
        var h := Goal(ts[0].subject, name);
        ExpandComplete(m, goals, q, chain, h, subject, visited, depth + 1);
        mid := Expand(m, h, subject, visited, depth + 1).visited;
      }
      TuplesComplete(m, goals, q, chain, o, via, name, ts[1..], subject, mid, depth);
      var after := ExpandTuples(m, o, via, name, ts, subject, visited, depth).visited;
      ExhaustedTransitive(m, goals, subject, visited, mid, after);
    }
  }

  /** Nothing in a set closed under definitions and without direct tuples is derivable. */
  lemma {:induction false} ExhaustedUnderivable(n: nat, m: Model, goals: set<Goal>, g: Goal, subject: string, visited: set<string>)
    requires ClosedUnder(m, goals) && Exhausted(m, goals, subject, {}, visited)
    requires g in goals && Seen(visited, g, subject)
    ensures !DerivableIn(n, m, g, subject)
  {
    if n > 0 {
      forall h | Leads(m, g, h) ensures !DerivableIn(n - 1, m, h, subject) {
        ExhaustedUnderivable(n - 1, m, goals, h, subject, visited);
      }
    }
  }

  /** Where no chain of distinct goals from the query is longer than 17, however many goals
      there are, the answer is exactly derivability. */
  lemma CheckExact(m: Model, goals: set<Goal>, g: Goal, subject: string)
    requires ClosedUnder(m, goals) && NoHashes(goals) && g in goals && ShortChains(m, g, MAX_DEPTH + 1)
    ensures Check(m, g, subject) <==> Derivable(m, g, subject)
  {
    hide ShortChains, ClosedUnder, NoHashes, Leads;
    CheckSound(m, g, subject);
    if !Check(m, g, subject) {
      ExpandComplete(m, goals, g, [], g, subject, {}, 0);
      var visited := Expand(m, g, subject, {}, 0).visited;
      forall n ensures !DerivableIn(n, m, g, subject) {
        ExhaustedUnderivable(n, m, goals, g, subject, visited);
      }
    }
  }

  /** Chains stay inside a closed set, so none is longer than the set is large. */
  lemma ChainsFit(m: Model, goals: set<Goal>, q: Goal)
    requires ClosedUnder(m, goals) && q in goals
    ensures ShortChains(m, q, |goals|)
  {
    forall c: seq<Goal> | c != [] && c[0] == q && IsChain(m, c) ensures |c| <= |goals| {
      ChainInside(m, goals, c);
    }
  }

  lemma {:induction false} ChainInside(m: Model, goals: set<Goal>, c: seq<Goal>)
    requires ClosedUnder(m, goals) && c != [] && c[0] in goals && IsChain(m, c)
    ensures (forall g | g in c :: g in goals) && |c| <= |goals|
  {
    var all := ChainSet(m, goals, c);
    Subset(all, goals);
  }

  lemma {:induction false} ChainSet(m: Model, goals: set<Goal>, c: seq<Goal>) returns (all: set<Goal>)
    requires ClosedUnder(m, goals) && c != [] && c[0] in goals && IsChain(m, c)
    ensures all <= goals && |all| == |c| && forall g :: g in all <==> g in c
  {
    hide ClosedUnder, Leads, IsChain;
    var last := |c| - 1;
    if last == 0 {
      all := {c[0]};
    } else {
      ChainPrefix(m, c);
      var rest := ChainSet(m, goals, c[..last]);
      Closed(m, goals, c[last - 1], c[last]);
      assert c == c[..last] + [c[last]];
      all := rest + {c[last]};
    }
  }

  lemma ChainPrefix(m: Model, c: seq<Goal>)
    requires |c| > 1 && IsChain(m, c)
    ensures var last := |c| - 1;
      IsChain(m, c[..last]) && c[last] !in c[..last] && c[last - 1] in c[..last] && Leads(m, c[last - 1], c[last])
  {
    hide Leads;
    assert c[..|c| - 1][|c| - 2] == c[|c| - 2];
  }

  lemma Closed(m: Model, goals: set<Goal>, g: Goal, h: Goal)
    requires ClosedUnder(m, goals) && g in goals && Leads(m, g, h)
    ensures h in goals
  {
  }

  lemma Subset(a: set<Goal>, b: set<Goal>)
    requires a <= b
    ensures |a| <= |b|
  {
    assert b == a + (b - a);
  }

  /** In particular on closed spaces of at most 17 goals. */
  lemma CheckExactOnFewGoals(m: Model, goals: set<Goal>, g: Goal, subject: string)
    requires ClosedUnder(m, goals) && NoHashes(goals) && |goals| <= MAX_DEPTH + 1 && g in goals
    ensures Check(m, g, subject) <==> Derivable(m, g, subject)
  {
    ChainsFit(m, goals, g);
    CheckExact(m, goals, g, subject);
  }

  // ---------------------------------------------------------------------------
  // The answer over the lists a checker is built from
  // ---------------------------------------------------------------------------

  /** What stands before the first ':' of an object; the whole if there is none or it comes
      first. */
  predicate IsEntity(e: string, obj: string) {
    if ':' !in obj || obj[0] == ':' then e == obj
    else e != "" && ':' !in e && e + ":" <= obj
  }

  /** Definition i has the key entity:name, and no later one does. */
  predicate Defines(defs: seq<RelationDef>, i: nat, entity: string, name: string) {
    && i < |defs| && defs[i].entity + ":" + defs[i].name == entity + ":" + name
    && forall j | i < j < |defs| :: defs[j].entity + ":" + defs[j].name != entity + ":" + name
  }

  /** A union entry without a dot names a relation of the same object; of another, the part
      before the first dot leads through a tuple and the rest names the relation there. */
  predicate Refers(tuples: seq<Tuple>, o: string, ref: string, h: Goal) {
    || ('.' !in ref && h == Goal(o, ref))
    || exists k | 0 <= k < |ref| :: ref[k] == '.' && '.' !in ref[..k] && h.relation == ref[k + 1..] && Tuple(o, ref[..k], h.obj) in tuples
  }

  ghost predicate RefersTo(tuples: seq<Tuple>, defs: seq<RelationDef>, g: Goal, h: Goal) {
    exists i: nat, e | Defines(defs, i, e, g.relation) && IsEntity(e, g.obj) ::
      exists ref | ref in defs[i].union :: Refers(tuples, g.obj, ref, h)
  }

  /** The subject has the relation by at most n uses of definitions. */
  ghost predicate HasIn(n: nat, tuples: seq<Tuple>, defs: seq<RelationDef>, g: Goal, subject: string) {
    Tuple(g.obj, g.relation, subject) in tuples ||
    (n > 0 && exists h :: RefersTo(tuples, defs, g, h) && HasIn(n - 1, tuples, defs, h, subject))
  }

  ghost predicate HasRelation(tuples: seq<Tuple>, defs: seq<RelationDef>, g: Goal, subject: string) {
    exists n :: HasIn(n, tuples, defs, g, subject)
  }

  /** The definition under a key is the last one given for it. */
  lemma {:induction false} DefsExactly(defs: seq<RelationDef>, entity: string, name: string)
    ensures entity + ":" + name in DefsByKey(defs) <==> exists i: nat :: Defines(defs, i, entity, name)
    ensures forall i: nat | Defines(defs, i, entity, name) :: DefsByKey(defs)[entity + ":" + name] == defs[i]
    ensures (exists d | d in defs :: d.entity == entity && d.name == name) ==> entity + ":" + name in DefsByKey(defs)
  {
    if defs != [] {
      var n, key := |defs| - 1, entity + ":" + name;
      DefsExactly(defs[..n], entity, name);
      if defs[n].entity + ":" + defs[n].name == key {
        assert Defines(defs, n, entity, name);
        assert forall i: nat | Defines(defs, i, entity, name) :: i == n;
      } else {
        assert forall i: nat :: Defines(defs, i, entity, name) <==> Defines(defs[..n], i, entity, name);
        assert forall d | d in defs :: d == defs[n] || d in defs[..n];
      }
    }
  }

  /** There is one first occurrence. */
  lemma OneFirst(s: string, c: char, i: nat, k: nat)
    requires i < |s| && k < |s| && s[i] == c && s[k] == c && c !in s[..i] && c !in s[..k]
    ensures i == k
  {
    assert forall j | 0 <= j < k :: s[..k][j] == s[j] != c;
    assert forall j | 0 <= j < i :: s[..i][j] == s[j] != c;
  }

  lemma EntityExactly(e: string, obj: string)
    ensures IsEntity(e, obj) <==> e == EntityOf(obj)
  {
    var i := IndexOf(obj, ':');
    if i.Some? && i.value > 0 {
      var n := i.value;
      assert obj[0] == obj[..n][0];
      assert obj[..n] + ":" == obj[..n + 1];
      if e != "" && ':' !in e && e + ":" <= obj {
        assert obj[|e|] == (e + ":")[|e|] && obj[..|e|] == e;
        OneFirst(obj, ':', n, |e|);
      }
    }
  }

  lemma RefersExactly(m: Model, o: string, ref: string, h: Goal)
    ensures Refers(m.tuples, o, ref, h) <==> RefLeads(m, o, ref, h)
  {
    var i := IndexOf(ref, '.');
    forall k: nat | k < |ref| && ref[k] == '.' && '.' !in ref[..k] ensures i == Some(k) {
      OneFirst(ref, '.', i.value, k);
    }
  }

  lemma RefersToExactly(tuples: seq<Tuple>, defs: seq<RelationDef>, g: Goal, h: Goal)
    ensures RefersTo(tuples, defs, g, h) <==> Leads(Model(tuples, DefsByKey(defs)), g, h)
  {
    var m, e := Model(tuples, DefsByKey(defs)), EntityOf(g.obj);
    DefsExactly(defs, e, g.relation);
    forall e' ensures IsEntity(e', g.obj) <==> e' == e { EntityExactly(e', g.obj); }
    forall ref ensures Refers(tuples, g.obj, ref, h) <==> RefLeads(m, g.obj, ref, h) { RefersExactly(m, g.obj, ref, h); }
    hide DefsByKey, IsEntity, EntityOf, Defines, Refers, RefLeads;
  }

  lemma {:induction false} HasExactly(n: nat, tuples: seq<Tuple>, defs: seq<RelationDef>, g: Goal, subject: string)
    ensures HasIn(n, tuples, defs, g, subject) <==> DerivableIn(n, Model(tuples, DefsByKey(defs)), g, subject)
  {
    var m := Model(tuples, DefsByKey(defs));
    if n > 0 {
      forall h
        ensures RefersTo(tuples, defs, g, h) <==> Leads(m, g, h)
        ensures HasIn(n - 1, tuples, defs, h, subject) <==> DerivableIn(n - 1, m, h, subject)
      {
        RefersToExactly(tuples, defs, g, h);
        HasExactly(n - 1, tuples, defs, h, subject);
      }
      hide RefersTo, Leads, DefsByKey;
    }
  }

  lemma HasRelationExactly(tuples: seq<Tuple>, defs: seq<RelationDef>, g: Goal, subject: string)
    ensures HasRelation(tuples, defs, g, subject) <==> Derivable(Model(tuples, DefsByKey(defs)), g, subject)
  {
    forall n ensures HasIn(n, tuples, defs, g, subject) <==> DerivableIn(n, Model(tuples, DefsByKey(defs)), g, subject) {
      HasExactly(n, tuples, defs, g, subject);
    }
    hide DerivableIn, HasIn, DefsByKey;
  }

  /** `goals` holds the query and all it refers to, with objects free of '#', and no chain of
      distinct goals from the query is longer than 17. */
  ghost predicate Shallow(tuples: seq<Tuple>, defs: seq<RelationDef>, goals: set<Goal>, q: Goal) {
    && q in goals && NoHashes(goals)
    && (forall g, h | g in goals && RefersTo(tuples, defs, g, h) :: h in goals)
    && forall c: seq<Goal> | IsPathFrom(tuples, defs, q, c) :: |c| <= 17
  }

  ghost predicate IsPathFrom(tuples: seq<Tuple>, defs: seq<RelationDef>, q: Goal, c: seq<Goal>) {
    && c != [] && c[0] == q && (forall i, j | 0 <= i < j < |c| :: c[i] != c[j])
    && forall i | 0 < i < |c| :: RefersTo(tuples, defs, c[i - 1], c[i])
  }

  lemma ShallowMeans(tuples: seq<Tuple>, defs: seq<RelationDef>, goals: set<Goal>, q: Goal)
    requires Shallow(tuples, defs, goals, q)
    ensures var m := Model(tuples, DefsByKey(defs)); ClosedUnder(m, goals) && ShortChains(m, q, MAX_DEPTH + 1)
  {
    var m := Model(tuples, DefsByKey(defs));
    forall g, h ensures RefersTo(tuples, defs, g, h) <==> Leads(m, g, h) { RefersToExactly(tuples, defs, g, h); }
    hide RefersTo, Leads, DefsByKey;
    forall c: seq<Goal> | c != [] && c[0] == q && IsChain(m, c) ensures |c| <= 17 {
      assert IsPathFrom(tuples, defs, q, c);
    }
  }

  /** A checker built from the lists and asked once. Whatever the lists, yes means that the
      subject has the relation; where the query is shallow, no means that it does not. */
  method CheckOnce(tuples: seq<Tuple>, defs: seq<RelationDef>, o: string, relation: string, subject: string, ghost goals: set<Goal>)
      returns (found: bool)
    ensures found ==> HasRelation(tuples, defs, Goal(o, relation), subject)
    ensures Shallow(tuples, defs, goals, Goal(o, relation)) ==> (found <==> HasRelation(tuples, defs, Goal(o, relation), subject))
  {
    var c := new Checker(tuples, defs);
    found := c.CheckRelation(o, relation, subject);
    ghost var m, g := Model(tuples, DefsByKey(defs)), Goal(o, relation);
    HasRelationExactly(tuples, defs, g, subject);
    CheckSound(m, g, subject);
    hide Check, HasRelation, Derivable, ClosedUnder, ShortChains;
    if Shallow(tuples, defs, goals, g) {
      ShallowMeans(tuples, defs, goals, g);
      CheckExact(m, goals, g, subject);
    }
  }

  // ---------------------------------------------------------------------------
  // Neither bound can be dropped
  // ---------------------------------------------------------------------------

  function Letters(n: nat): string { if n == 0 then "" else "a" + Letters(n - 1) }

  function ChainObject(n: nat): string { "d:" + Letters(n) }

  /** d:, d:a, d:aa, ... linked by `p`; `q` walks along `p`; the last of 18 objects has
      the subject as a direct `q`. */
  const CHAIN := Model(
    seq(17, i requires 0 <= i < 17 => Tuple(ChainObject(i), "p", ChainObject(i + 1))) + [Tuple(ChainObject(17), "q", "u")],
    map["d:q" := RelationDef("d", "q", ["p.q"])])

  function ChainGoal(i: nat): Goal { Goal(ChainObject(i), "q") }

  function ChainGoals(n: nat): set<Goal> {
    if n == 0 then {} else ChainGoals(n - 1) + {ChainGoal(n - 1)}
  }

  lemma {:induction false} LettersLength(n: nat)
    ensures |Letters(n)| == n && '#' !in Letters(n)
  {
    if n > 0 { LettersLength(n - 1); }
  }

  lemma ChainObjects(i: nat, j: nat)
    ensures ChainObject(i) == ChainObject(j) <==> i == j
    ensures EntityOf(ChainObject(i)) == "d" && '#' !in ChainObject(i)
  {
    LettersLength(i);
    LettersLength(j);
    var o := ChainObject(i);
    assert |o| == i + 2 && |ChainObject(j)| == j + 2;
    assert o[0] == 'd' && o[1] == ':' && o[1..][0] == ':';
    assert o[..1] == "d";
  }

  lemma {:induction false} ChainGoalsMembers(n: nat, g: Goal)
    ensures g in ChainGoals(n) <==> exists i: nat | i < n :: g == ChainGoal(i)
  {
    hide ChainGoal;
    if n > 0 {
      ChainGoalsMembers(n - 1, g);
      assert g in ChainGoals(n) <==> g in ChainGoals(n - 1) || g == ChainGoal(n - 1);
    }
  }

  lemma {:induction false} ChainGoalsSize(n: nat)
    ensures |ChainGoals(n)| == n
  {
    if n > 0 {
      ChainGoalsSize(n - 1);
      ChainGoalsMembers(n - 1, ChainGoal(n - 1));
      forall i: nat | i < n - 1 ensures ChainGoal(i) != ChainGoal(n - 1) { ChainObjects(i, n - 1); }
    }
  }

  lemma ChainTuples(i: nat, t: Tuple)
    requires t in CHAIN.tuples && t.obj == ChainObject(i)
    ensures t == (if i < 17 then Tuple(ChainObject(i), "p", ChainObject(i + 1)) else Tuple(ChainObject(17), "q", "u"))
    ensures i <= 17
  {
    hide ChainObject;
    var k :| 0 <= k < |CHAIN.tuples| && CHAIN.tuples[k] == t;
    ChainObjects(i, k);
  }

  lemma ChainDef(i: nat)
    ensures DefKey(ChainGoal(i)) in CHAIN.defs && CHAIN.defs[DefKey(ChainGoal(i))].union == ["p.q"]
    ensures SplitRef("p.q") == Dotted("p", "q")
  {
    ChainObjects(i, i);
    assert DefKey(ChainGoal(i)) == "d:q";
    assert "p.q"[0] == 'p' && "p.q"[1] == '.' && "p.q"[1..][0] == '.';
    assert "p.q"[..1] == "p" && "p.q"[2..] == "q";
  }

  lemma ChainLeads(i: nat, h: Goal)
    ensures Leads(CHAIN, ChainGoal(i), h) <==> i < 17 && h == ChainGoal(i + 1)
  {
    ChainDef(i);
    assert "p.q" in CHAIN.defs[DefKey(ChainGoal(i))].union;
    if Leads(CHAIN, ChainGoal(i), h) {
      ChainTuples(i, Tuple(ChainObject(i), "p", h.obj));
    }
    if i < 17 {
      assert CHAIN.tuples[i] == Tuple(ChainObject(i), "p", ChainObject(i + 1));
    }
  }

  lemma {:induction false} ChainDerivable(n: nat)
    requires n <= 17
    ensures DerivableIn(n, CHAIN, ChainGoal(17 - n), "u")
  {
    if n == 0 {
      assert CHAIN.tuples[17] == Tuple(ChainObject(17), "q", "u");
    } else {
      ChainDerivable(n - 1);
      ChainLeads(17 - n, ChainGoal(17 - n + 1));
    }
  }

  lemma {:induction false} ChainCut(i: nat, visited: set<string>)
    requires i <= 17
    ensures !Expand(CHAIN, ChainGoal(i), "u", visited, i).found
    decreases 17 - i, 1, 0
  {
    if i < 17 && VisitedKey(ChainGoal(i), "u") !in visited {
      var marked := visited + {VisitedKey(ChainGoal(i), "u")};
      ChainDef(i);
      if Direct(CHAIN, ChainGoal(i), "u") { ChainTuples(i, Tuple(ChainObject(i), "q", "u")); }
      TuplesCut(i, CHAIN.tuples, marked);
      var s := ExpandRef(CHAIN, ChainObject(i), "p.q", "u", marked, i);
      assert ["p.q"][1..] == [];
      assert !ExpandRefs(CHAIN, ChainObject(i), ["p.q"], "u", marked, i).found;
    }
  }

  lemma {:induction false} TuplesCut(i: nat, ts: seq<Tuple>, visited: set<string>)
    requires i < 17 && forall t | t in ts :: t in CHAIN.tuples
    ensures !ExpandTuples(CHAIN, ChainObject(i), "p", "q", ts, "u", visited, i).found
    decreases 17 - i, 0, |ts|
  {
    if ts != [] {
      assert ts[0] in ts;
      var mid := visited;
      if ts[0].obj == ChainObject(i) && ts[0].relation == "p" {
        ChainTuples(i, ts[0]);
        ChainCut(i + 1, visited);
        mid := Expand(CHAIN, ChainGoal(i + 1), "u", visited, i + 1).visited;
      }
      TuplesCut(i, ts[1..], mid);
    }
  }

  /** Seventeen is the bound: a closed space with chains of at most 18 goals and a derivable
      query that the depth cut answers negatively. */
  lemma DepthCutLosesAtEighteen()
    ensures ClosedUnder(CHAIN, ChainGoals(18)) && NoHashes(ChainGoals(18)) && ShortChains(CHAIN, ChainGoal(0), MAX_DEPTH + 2)
    ensures ChainGoal(0) in ChainGoals(18)
    ensures Derivable(CHAIN, ChainGoal(0), "u") && !Check(CHAIN, ChainGoal(0), "u")
  {
    ChainGoalsSize(18);
    ChainDerivable(17);
    ChainCut(0, {});
    ChainGoalsMembers(18, ChainGoal(0));
    forall g | g in ChainGoals(18) ensures '#' !in g.obj {
      ChainGoalsMembers(18, g);
      var i: nat :| i < 18 && g == ChainGoal(i);
      ChainObjects(i, i);
    }
    forall g, h | g in ChainGoals(18) && Leads(CHAIN, g, h) ensures h in ChainGoals(18) {
      ChainGoalsMembers(18, g);
      var i: nat :| i < 18 && g == ChainGoal(i);
      ChainLeads(i, h);
      ChainGoalsMembers(18, h);
    }
    ChainsFit(CHAIN, ChainGoals(18), ChainGoal(0));
  }

  /** Names with '#': goal a/b#c and goal a#b/c have one visited key. */
  const COLLIDING := Model(
    [Tuple("o", "p", "a"), Tuple("o", "q", "a#b"), Tuple("a#b", "c", "u")],
    map["o:r" := RelationDef("o", "r", ["p.b#c", "q.c"])])

  lemma CollidingRefs()
    ensures SplitRef("p.b#c") == Dotted("p", "b#c") && SplitRef("q.c") == Dotted("q", "c")
    ensures DefKey(Goal("o", "r")) == "o:r" && DefKey(Goal("a", "b#c")) == "a:b#c"
    ensures VisitedKey(Goal("a", "b#c"), "u") == VisitedKey(Goal("a#b", "c"), "u") == "a#b#c@u"
    ensures VisitedKey(Goal("o", "r"), "u") == "o#r@u"
  {
    assert "p.b#c"[1] == '.' && "p.b#c"[1..][0] == '.' && "p.b#c"[..1] == "p" && "p.b#c"[2..] == "b#c";
    assert "q.c"[1] == '.' && "q.c"[1..][0] == '.' && "q.c"[..1] == "q" && "q.c"[2..] == "c";
    assert IndexOf("o", ':') == None && IndexOf("a", ':') == None;
    assert "a" + "#" + "b#c" + "@" + "u" == "a#b" + "#" + "c" + "@" + "u" == "a#b#c@u";
    assert "o" + "#" + "r" + "@" + "u" == "o#r@u";
  }

  lemma CollidingDerivable()
    ensures Derivable(COLLIDING, Goal("o", "r"), "u")
  {
    var m, ts, root, two := COLLIDING, COLLIDING.tuples, Goal("o", "r"), Goal("a#b", "c");
    CollidingRefs();
    hide IndexOf, SplitRef, DefKey, VisitedKey;
    assert ts[1] in ts && ts[2] in ts;
    assert "q.c" in m.defs["o:r"].union && RefLeads(m, "o", "q.c", two) && Leads(m, root, two);
    assert DerivableIn(0, m, two, "u") && DerivableIn(1, m, root, "u");
  }

  /** The search looks at the first of the two, marks the key, and then skips the second,
      through which the query is derivable: the condition on '#' cannot be dropped. */
  lemma HashesCollide()
    ensures Derivable(COLLIDING, Goal("o", "r"), "u") && !Check(COLLIDING, Goal("o", "r"), "u")
  {
    var m, ts, one := COLLIDING, COLLIDING.tuples, Goal("a", "b#c");
    CollidingDerivable();
    CollidingRefs();
    hide IndexOf, SplitRef, DefKey, VisitedKey, Derivable;
    var v0, v1 := {"o#r@u"}, {"o#r@u", "a#b#c@u"};
    assert ts[1..][1..] == ts[2..] && ts[2..][1..] == [];
    assert Expand(m, one, "u", v0, 1) == Search(false, v1);
    assert ExpandTuples(m, "o", "p", "b#c", ts, "u", v0, 0) == Search(false, v1);
    assert ExpandTuples(m, "o", "q", "c", ts, "u", v1, 0) == Search(false, v1);
    assert ["p.b#c", "q.c"][1..] == ["q.c"] && ["q.c"][1..] == [];
    assert ExpandRefs(m, "o", ["q.c"], "u", v1, 0) == Search(false, v1);
    assert ExpandRefs(m, "o", ["p.b#c", "q.c"], "u", v0, 0) == Search(false, v1);
  }
}
