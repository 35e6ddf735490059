/** Audit-case bundling (ml/serving/audit_bundle.py): union-find with path halving and no
    ranks, against the connected components of "shares a member". A detection is its
    list of members, and is named by its position. */
module AuditBundle {

  type Detections = seq<seq<string>>

  // ---------------------------------------------------------------------------
  // Meaning: connected components
  // ---------------------------------------------------------------------------

  predicate Shares(d: Detections, x: nat, y: nat) {
    x < |d| && y < |d| && exists m | m in d[x] :: m in d[y]
  }

  /** Each detection of the chain shares a member with the next. */
  ghost predicate IsChain(d: Detections, chain: seq<nat>) {
    chain != [] && chain[0] < |d| && forall k | 0 <= k < |chain| - 1 :: Shares(d, chain[k], chain[k + 1])
  }

  ghost predicate Connected(d: Detections, x: nat, y: nat) {
    exists chain :: IsChain(d, chain) && chain[0] == x && chain[|chain| - 1] == y
  }

  lemma ConnectedRefl(d: Detections, x: nat)
    requires x < |d|
    ensures Connected(d, x, x)
  {
    assert IsChain(d, [x]);
  }

  lemma ConnectedShares(d: Detections, x: nat, y: nat)
    requires Shares(d, x, y)
    ensures Connected(d, x, y)
  {
    assert IsChain(d, [x, y]);
  }

  function Reverse(s: seq<nat>): (r: seq<nat>)
    ensures |r| == |s| && forall k | 0 <= k < |s| :: r[k] == s[|s| - 1 - k]
  {
    if s == [] then [] else Reverse(s[1..]) + [s[0]]
  }

  lemma ConnectedSym(d: Detections, x: nat, y: nat)
    requires Connected(d, x, y)
    ensures Connected(d, y, x)
  {
    var c :| IsChain(d, c) && c[0] == x && c[|c| - 1] == y;
    var r := Reverse(c);
    forall k | 0 <= k < |r| - 1 ensures Shares(d, r[k], r[k + 1]) {
      assert Shares(d, c[|c| - 2 - k], c[|c| - 1 - k]);
    }
    assert |c| > 1 ==> Shares(d, r[0], r[1]);
    assert IsChain(d, r);
  }

  lemma ConnectedTrans(d: Detections, x: nat, y: nat, z: nat)
    requires Connected(d, x, y) && Connected(d, y, z)
    ensures Connected(d, x, z)
  {
    var a :| IsChain(d, a) && a[0] == x && a[|a| - 1] == y;
    var b :| IsChain(d, b) && b[0] == y && b[|b| - 1] == z;
    var c := a + b[1..];
    forall k | 0 <= k < |c| - 1 ensures Shares(d, c[k], c[k + 1]) {
      if k >= |a| - 1 { assert c[k] == b[k - |a| + 1] && c[k + 1] == b[k - |a| + 2]; }
    }
    assert IsChain(d, c) && c[|c| - 1] == z;
  }

  // ---------------------------------------------------------------------------
  // The forest
  // ---------------------------------------------------------------------------

  /** `root` names each tree's root; `depth` falls along every parent link, so there are
      no cycles. Path halving changes neither. */
  ghost predicate Forest(parent: seq<nat>, root: seq<nat>, depth: seq<nat>) {
    && |root| == |depth| == |parent|
    && forall i | 0 <= i < |parent| ::
         && parent[i] < |parent| && root[i] < |parent|
         && parent[root[i]] == root[i]
         && (parent[i] == i ==> root[i] == i)
         && (parent[i] != i ==> depth[parent[i]] < depth[i] && root[parent[i]] == root[i])
  }

  method Find(parent: array<nat>, x: nat, ghost root: seq<nat>, ghost depth: seq<nat>) returns (r: nat)
    requires Forest(parent[..], root, depth) && x < parent.Length == |root|
    modifies parent
    ensures Forest(parent[..], root, depth)
    ensures r == root[x]
  {
    var i: nat := x;
    while parent[i] != i
      invariant Forest(parent[..], root, depth)
      invariant i < parent.Length && root[i] == root[x]
      decreases depth[i]
    {
      ghost var before := parent[..];
      assert before[i] == parent[i] && before[before[i]] == parent[parent[i]];
      parent[i] := parent[parent[i]];
      HalvingKeepsForest(before, root, depth, i);
      assert parent[..] == before[i := before[before[i]]];
      i := parent[i];
    }
    assert parent[..][i] == i;
    r := i;
  }

  lemma HalvingKeepsForest(parent: seq<nat>, root: seq<nat>, depth: seq<nat>, i: nat)
    requires Forest(parent, root, depth) && i < |parent| && parent[i] != i
    ensures Forest(parent[i := parent[parent[i]]], root, depth)
    ensures depth[parent[parent[i]]] < depth[i]
  {
    var p := parent[i];
    assert parent[p] < |parent| && root[p] == root[i];
  }

  ghost function Merge(root: seq<nat>, a: nat, b: nat): seq<nat> {
    seq(|root|, k requires 0 <= k < |root| => if root[k] == a then b else root[k])
  }

  ghost function Sink(root: seq<nat>, depth: seq<nat>, a: nat, shift: nat): seq<nat>
    requires |root| == |depth|
  {
    seq(|root|, k requires 0 <= k < |root| => if root[k] == a then depth[k] + shift else depth[k])
  }

  method Union(parent: array<nat>, x: nat, y: nat, ghost root: seq<nat>, ghost depth: seq<nat>)
      returns (ghost root': seq<nat>, ghost depth': seq<nat>)
    requires Forest(parent[..], root, depth) && x < parent.Length && y < parent.Length == |root|
    modifies parent
    ensures Forest(parent[..], root', depth')
    ensures root' == Merge(root, root[x], root[y])
  {
    var ry := Find(parent, y, root, depth);
    var rx := Find(parent, x, root, depth);
    ghost var before := parent[..];
    parent[rx] := ry;
    root' := Merge(root, rx, ry);
    depth' := if rx == ry then depth else Sink(root, depth, rx, depth[ry] + 1);
    assert parent[..] == before[rx := ry];
    LinkKeepsForest(before, root, depth, rx, ry);
  }

  lemma LinkKeepsForest(parent: seq<nat>, root: seq<nat>, depth: seq<nat>, rx: nat, ry: nat)
    requires Forest(parent, root, depth) && rx < |parent| && ry < |parent|
    requires parent[rx] == rx && parent[ry] == ry
    ensures Forest(parent[rx := ry], Merge(root, rx, ry), if rx == ry then depth else Sink(root, depth, rx, depth[ry] + 1))
  {
    assert root[rx] == rx && root[ry] == ry;
    if rx == ry {
      assert parent[rx := ry] == parent;
      assert Merge(root, rx, ry) == root;
    }
  }

  // ---------------------------------------------------------------------------
  // Components
  // ---------------------------------------------------------------------------

  /** The memberships seen so far link only connected detections, and link them all. */
  ghost predicate Linked(d: Detections, root: seq<nat>, byMember: map<string, nat>, i: nat, seen: seq<string>) {
    && |root| == |d| && i <= |d|
    && (forall x, y | 0 <= x < |d| && 0 <= y < |d| && root[x] == root[y] :: Connected(d, x, y))
    && (forall m | m in byMember :: byMember[m] < |d| && m in d[byMember[m]])
    && (forall x, m | 0 <= x < i && m in d[x] :: m in byMember && root[byMember[m]] == root[x])
    && (i < |d| ==> forall m | m in seen :: m in byMember && root[byMember[m]] == root[i])
  }

  lemma MergeKeepsLinked(d: Detections, root: seq<nat>, byMember: map<string, nat>, i: nat, seen: seq<string>, m: string)
    requires Linked(d, root, byMember, i, seen) && i < |d|
    requires m in d[i] && m in byMember
    requires forall x | 0 <= x < |d| :: root[x] < |d|
    ensures Linked(d, Merge(root, root[i], root[byMember[m]]), byMember, i, seen + [m])
  {
    var j := byMember[m];
    var merged := Merge(root, root[i], root[j]);
    assert Shares(d, i, j);
    ConnectedShares(d, i, j);
    forall x, y | 0 <= x < |d| && 0 <= y < |d| && merged[x] == merged[y] ensures Connected(d, x, y) {
      if root[x] != root[y] {
        if root[x] == root[i] {
          ConnectedTrans(d, x, i, j);
          ConnectedTrans(d, x, j, y);
        } else {
          ConnectedTrans(d, y, i, j);
          ConnectedTrans(d, y, j, x);
          ConnectedSym(d, y, x);
        }
      }
    }
  }

  /** The increasing list of the detections below `i` whose root is `r`. */
  function Class(root: seq<nat>, r: nat, i: nat): seq<nat>
    requires i <= |root|
  {
    if i == 0 then [] else Class(root, r, i - 1) + (if root[i - 1] == r then [i - 1] else [])
  }

  lemma {:induction false} ClassMembers(root: seq<nat>, r: nat, i: nat)
    requires i <= |root|
    ensures forall x: nat :: x in Class(root, r, i) <==> x < i && root[x] == r
    ensures Increasing(Class(root, r, i))
  {
    if i > 0 {
      ClassMembers(root, r, i - 1);
      var c := Class(root, r, i - 1);
      assert forall j | 0 <= j < |c| :: c[j] in c;
    }
  }

  lemma {:induction false} ClassEmpty(root: seq<nat>, r: nat, i: nat)
    requires i <= |root| && forall x | 0 <= x < i :: root[x] != r
    ensures Class(root, r, i) == []
  {
    if i > 0 { ClassEmpty(root, r, i - 1); }
  }

  predicate Increasing(s: seq<nat>) { forall j, k | 0 <= j < k < |s| :: s[j] < s[k] }

  predicate IsGroup(g: seq<nat>, n: nat) { g != [] && Increasing(g) && forall x | x in g :: x < n }

  predicate InSome(groups: seq<seq<nat>>, x: nat) { exists k | 0 <= k < |groups| :: x in groups[k] }

  predicate Apart(g: seq<nat>, h: seq<nat>) { forall x | x in g :: x !in h }

  /** Non-empty groups that split 0..n, each in order, listed by their first detection. */
  predicate IsPartition(groups: seq<seq<nat>>, n: nat) {
    && (forall k | 0 <= k < |groups| :: IsGroup(groups[k], n))
    && (forall x | 0 <= x < n :: InSome(groups, x))
    && (forall j, k | 0 <= j < k < |groups| :: groups[j][0] < groups[k][0] && Apart(groups[j], groups[k]))
  }

  predicate Together(groups: seq<seq<nat>>, x: nat, y: nat) {
    exists k | 0 <= k < |groups| :: x in groups[k] && y in groups[k]
  }

  lemma ConnectedAll(d: Detections)
    ensures forall x | 0 <= x < |d| :: Connected(d, x, x)
  {
    forall x: nat | x < |d| ensures Connected(d, x, x) { ConnectedRefl(d, x); }
  }

  /** One membership: link detection `i` to the first holder of `m`, or record it as that. */
  method LinkMember(d: Detections, i: nat, m: string, ghost seen: seq<string>, parent: array<nat>,
      byMember: map<string, nat>, ghost root: seq<nat>, ghost depth: seq<nat>)
      returns (byMember': map<string, nat>, ghost root': seq<nat>, ghost depth': seq<nat>)
    requires i < |d| && m in d[i] && parent.Length == |root| == |depth| == |d|
    requires Forest(parent[..], root, depth) && Linked(d, root, byMember, i, seen)
    modifies parent
    ensures |root'| == |depth'| == |d| && Forest(parent[..], root', depth')
    ensures Linked(d, root', byMember', i, seen + [m])
  {
    byMember', root', depth' := byMember, root, depth;
    RootsInRange(parent[..], root, depth);
    hide Forest, Linked;
    if m in byMember {
      HolderInRange(d, root, byMember, i, seen, m);
      MergeKeepsLinked(d, root, byMember, i, seen, m);
      root', depth' := Union(parent, i, byMember[m], root, depth);
      RootsInRange(parent[..], root', depth');
    } else {
      FirstHolder(d, root, byMember, i, seen, m);
      byMember' := byMember[m := i];
    }
  }

  /** The memberships of detection `i`, in order. */
  method LinkMembers(d: Detections, i: nat, parent: array<nat>, byMember: map<string, nat>, ghost root: seq<nat>, ghost depth: seq<nat>)
      returns (byMember': map<string, nat>, ghost root': seq<nat>, ghost depth': seq<nat>)
    requires i < |d| && parent.Length == |root| == |depth| == |d|
    requires Forest(parent[..], root, depth) && Linked(d, root, byMember, i, [])
    modifies parent
    ensures |root'| == |depth'| == |d| && Forest(parent[..], root', depth')
    ensures Linked(d, root', byMember', i, d[i])
  {
    hide Forest, Linked;
    byMember', root', depth' := byMember, root, depth;
    var j := 0;
    while j < |d[i]|
      invariant 0 <= j <= |d[i]| && |root'| == |depth'| == |d|
      invariant Forest(parent[..], root', depth')
      invariant Linked(d, root', byMember', i, d[i][..j])
    {
      assert d[i][..j + 1] == d[i][..j] + [d[i][j]];
      byMember', root', depth' := LinkMember(d, i, d[i][j], d[i][..j], parent, byMember', root', depth');
      j := j + 1;
    }
    assert d[i][..j] == d[i];
  }

  lemma HolderInRange(d: Detections, root: seq<nat>, byMember: map<string, nat>, i: nat, seen: seq<string>, m: string)
    requires Linked(d, root, byMember, i, seen) && m in byMember
    ensures byMember[m] < |d|
  {
  }

  lemma FirstHolder(d: Detections, root: seq<nat>, byMember: map<string, nat>, i: nat, seen: seq<string>, m: string)
    requires Linked(d, root, byMember, i, seen) && i < |d| && m in d[i] && m !in byMember
    ensures Linked(d, root, byMember[m := i], i, seen + [m])
  {
    hide Connected;
  }

  lemma NextDetection(d: Detections, root: seq<nat>, byMember: map<string, nat>, i: nat)
    requires i < |d| && Linked(d, root, byMember, i, d[i])
    ensures Linked(d, root, byMember, i + 1, [])
  {
    hide Connected;
  }

  lemma RootsInRange(parent: seq<nat>, root: seq<nat>, depth: seq<nat>)
    requires Forest(parent, root, depth)
    ensures |root| == |depth| == |parent| && forall x | 0 <= x < |root| :: root[x] < |root|
  {
  }

  /** The forest over all detections, after every membership has been linked. */
  method Link(d: Detections) returns (parent: array<nat>, ghost root: seq<nat>, ghost depth: seq<nat>)
    ensures fresh(parent) && parent.Length == |root| == |d|
    ensures Forest(parent[..], root, depth)
    ensures forall x, y | 0 <= x < |d| && 0 <= y < |d| :: root[x] == root[y] <==> Connected(d, x, y)
  {
    parent := new nat[|d|](i => i);
    root := seq(|d|, i => i);
    depth := seq(|d|, i => 0);
    var byMember: map<string, nat> := map[];
    ConnectedAll(d);
    assert Linked(d, root, byMember, 0, []) by { hide Connected; }
    hide Connected, Linked, Forest;
    var i := 0;
    while i < |d|
      invariant 0 <= i <= |d| && fresh(parent) && parent.Length == |root| == |depth| == |d|
      invariant Forest(parent[..], root, depth)
      invariant Linked(d, root, byMember, i, [])
    {
      byMember, root, depth := LinkMembers(d, i, parent, byMember, root, depth);
      NextDetection(d, root, byMember, i);
      i := i + 1;
    }
    SharingIsConnecting(d, root, byMember);
  }

  lemma SharingIsConnecting(d: Detections, root: seq<nat>, byMember: map<string, nat>)
    requires Linked(d, root, byMember, |d|, [])
    ensures forall x, y | 0 <= x < |d| && 0 <= y < |d| :: root[x] == root[y] <==> Connected(d, x, y)
  {
    forall x: nat, y: nat | x < |d| && y < |d| && Connected(d, x, y) ensures root[x] == root[y] {
      var c :| IsChain(d, c) && c[0] == x && c[|c| - 1] == y;
      ChainHasOneRoot(d, root, byMember, c);
    }
  }

  lemma {:induction false} ChainHasOneRoot(d: Detections, root: seq<nat>, byMember: map<string, nat>, chain: seq<nat>)
    requires Linked(d, root, byMember, |d|, []) && IsChain(d, chain)
    ensures chain[|chain| - 1] < |d| && root[chain[0]] == root[chain[|chain| - 1]]
  {
    if |chain| > 1 {
      assert Shares(d, chain[0], chain[1]);
      var m :| m in d[chain[0]] && m in d[chain[1]];
      assert root[byMember[m]] == root[chain[0]] && root[byMember[m]] == root[chain[1]];
      forall k | 0 <= k < |chain[1..]| - 1 ensures Shares(d, chain[1..][k], chain[1..][k + 1]) {
        assert Shares(d, chain[k + 1], chain[k + 2]);
      }
      ChainHasOneRoot(d, root, byMember, chain[1..]);
    }
  }

  /** The groups of the first `i` detections, under their roots, in order of first use. */
  ghost predicate Grouped(root: seq<nat>, byRoot: map<nat, seq<nat>>, order: seq<nat>, i: nat) {
    && i <= |root|
    && (forall x | 0 <= x < i :: root[x] in byRoot)
    && (forall r | r in byRoot :: byRoot[r] == Class(root, r, i) && byRoot[r] != [])
    && (forall r | r in order :: r in byRoot) && (forall r | r in byRoot :: r in order)
    && (forall j, k | 0 <= j < k < |order| :: byRoot[order[j]][0] < byRoot[order[k]][0])
  }

  lemma GroupedStart(root: seq<nat>)
    ensures Grouped(root, map[], [], 0)
  {
  }

  lemma GroupedKeys(root: seq<nat>, byRoot: map<nat, seq<nat>>, order: seq<nat>, i: nat)
    requires Grouped(root, byRoot, order, i)
    ensures forall k | 0 <= k < |order| :: order[k] in byRoot
  {
  }

  lemma GroupedStep(root: seq<nat>, byRoot: map<nat, seq<nat>>, order: seq<nat>, i: nat)
    requires Grouped(root, byRoot, order, i) && i < |root|
    ensures var r := root[i];
      if r in byRoot then Grouped(root, byRoot[r := byRoot[r] + [i]], order, i + 1)
      else Grouped(root, byRoot[r := [i]], order + [r], i + 1)
  {
    hide Class;
    var r := root[i];
    forall q ensures Class(root, q, i + 1) == Class(root, q, i) + (if q == r then [i] else []) { ClassStep(root, q, i); }
    if r !in byRoot {
      ClassEmpty(root, r, i);
      forall j | 0 <= j < |order| ensures byRoot[order[j]][0] < i {
        ClassMembers(root, order[j], i);
        assert byRoot[order[j]][0] in Class(root, order[j], i);
      }
    }
  }

  lemma ClassStep(root: seq<nat>, q: nat, i: nat)
    requires i < |root|
    ensures Class(root, q, i + 1) == Class(root, q, i) + (if q == root[i] then [i] else [])
  {
  }

  /** The dictionary step: a list under a new key is put at the end, then `i` appended. */
  method AppendTo(byRoot: map<nat, seq<nat>>, order: seq<nat>, r: nat, i: nat, ghost root: seq<nat>)
      returns (byRoot': map<nat, seq<nat>>, order': seq<nat>)
    requires i < |root| && r == root[i] && Grouped(root, byRoot, order, i)
    ensures Grouped(root, byRoot', order', i + 1)
  {
    GroupedStep(root, byRoot, order, i);
    hide Grouped;
    byRoot', order' := byRoot, order;
    if r !in byRoot {
      byRoot', order' := byRoot[r := []], order + [r];
      assert byRoot'[r := byRoot'[r] + [i]] == byRoot[r := [i]];
    }
    byRoot' := byRoot'[r := byRoot'[r] + [i]];
  }

  /** Detections end up in one group exactly when a chain of shared members links them. */
  method Components(d: Detections) returns (groups: seq<seq<nat>>)
    ensures IsPartition(groups, |d|)
    ensures forall x, y | 0 <= x < |d| && 0 <= y < |d| :: Together(groups, x, y) <==> Connected(d, x, y)
  {
    var parent;
    ghost var root, depth;
    parent, root, depth := Link(d);
    RootsInRange(parent[..], root, depth);
    hide Connected, Forest, Grouped, Class, IsPartition, Together;
    var byRoot: map<nat, seq<nat>> := map[];
    var order: seq<nat> := [];
    var i := 0;
    GroupedStart(root);
    while i < |d|
      invariant 0 <= i <= |d| && fresh(parent) && parent.Length == |d|
      invariant Forest(parent[..], root, depth)
      invariant Grouped(root, byRoot, order, i)
    {
      var r := Find(parent, i, root, depth);
      byRoot, order := AppendTo(byRoot, order, r, i, root);
      i := i + 1;
    }
    GroupedKeys(root, byRoot, order, i);
    groups := seq(|order|, k requires 0 <= k < |order| => byRoot[order[k]]);
    GroupsAreClasses(root, byRoot, order, groups);
  }

  lemma GroupsAreClasses(root: seq<nat>, byRoot: map<nat, seq<nat>>, order: seq<nat>, groups: seq<seq<nat>>)
    requires Grouped(root, byRoot, order, |root|)
    requires |groups| == |order| && forall k | 0 <= k < |order| :: groups[k] == byRoot[order[k]]
    ensures IsPartition(groups, |root|)
    ensures forall x, y | 0 <= x < |root| && 0 <= y < |root| :: Together(groups, x, y) <==> root[x] == root[y]
  {
    hide Class;
    forall k | 0 <= k < |order|
      ensures (forall x: nat :: x in groups[k] <==> x < |root| && root[x] == order[k]) && IsGroup(groups[k], |root|)
    {
      ClassMembers(root, order[k], |root|);
    }
    forall j, k | 0 <= j < k < |order| ensures Apart(groups[j], groups[k]) {
      assert groups[j] != groups[k] && order[j] != order[k];
    }
    forall x: nat | x < |root| ensures InSome(groups, x) && Together(groups, x, x) {
      var k :| 0 <= k < |order| && order[k] == root[x];
      assert x in groups[k];
    }
    forall x: nat, y: nat | x < |root| && y < |root| && root[x] == root[y] ensures Together(groups, x, y) {
      var k :| 0 <= k < |groups| && x in groups[k];
      assert y in groups[k];
    }
  }

  // ---------------------------------------------------------------------------
  // Consequences for the cases
  // ---------------------------------------------------------------------------

  function SizeSum(groups: seq<seq<nat>>): nat {
    if groups == [] then 0 else |groups[0]| + SizeSum(groups[1..])
  }

  ghost function Elements(s: seq<nat>): set<nat> { set x | x in s }

  ghost function Covered(groups: seq<seq<nat>>): set<nat> {
    if groups == [] then {} else Elements(groups[0]) + Covered(groups[1..])
  }

  lemma {:induction false} IncreasingSize(s: seq<nat>)
    requires Increasing(s)
    ensures |Elements(s)| == |s|
  {
    if s != [] {
      var init, last := s[..|s| - 1], s[|s| - 1];
      IncreasingSize(init);
      assert Elements(s) == Elements(init) + {last};
    }
  }

  lemma {:induction false} CoveredMembers(groups: seq<seq<nat>>, x: nat)
    ensures x in Covered(groups) <==> InSome(groups, x)
  {
    if groups != [] {
      CoveredMembers(groups[1..], x);
      assert forall k | 0 <= k < |groups[1..]| :: groups[1..][k] == groups[k + 1];
      assert forall k | 0 < k < |groups| :: groups[k] == groups[1..][k - 1];
      if InSome(groups[1..], x) {
        var k :| 0 <= k < |groups[1..]| && x in groups[1..][k];
        assert x in groups[k + 1];
      }
    }
  }

  lemma {:induction false} CoveredSize(groups: seq<seq<nat>>)
    requires forall g | g in groups :: Increasing(g)
    requires forall j, k | 0 <= j < k < |groups| :: Apart(groups[j], groups[k])
    ensures |Covered(groups)| == SizeSum(groups)
  {
    if groups != [] {
      var rest := groups[1..];
      forall j, k | 0 <= j < k < |rest| ensures Apart(rest[j], rest[k]) {
        assert Apart(groups[j + 1], groups[k + 1]);
      }
      CoveredSize(rest);
      IncreasingSize(groups[0]);
      forall x | x in groups[0] ensures x !in Covered(rest) {
        CoveredMembers(rest, x);
        forall k | 0 <= k < |rest| ensures x !in rest[k] { assert Apart(groups[0], groups[k + 1]); }
      }
      assert Elements(groups[0]) !! Covered(rest);
    }
  }

  ghost function UpTo(n: nat): (r: set<nat>)
    ensures |r| == n && forall x: nat :: x in r <==> x < n
  {
    if n == 0 then {} else UpTo(n - 1) + {n - 1}
  }

  /** The group sizes add up to the number of detections. */
  lemma SizesAddUp(groups: seq<seq<nat>>, n: nat)
    requires IsPartition(groups, n)
    ensures SizeSum(groups) == n
  {
    CoveredSize(groups);
    forall x: nat ensures x in Covered(groups) <==> x < n {
      CoveredMembers(groups, x);
      if x < n { assert InSome(groups, x); }
      if InSome(groups, x) {
        var k :| 0 <= k < |groups| && x in groups[k];
        assert IsGroup(groups[k], n);
      }
    }
    assert Covered(groups) == UpTo(n);
  }

  /** The members of a case. */
  function MembersOf(d: Detections, group: seq<nat>): set<string>
    requires forall x | x in group :: x < |d|
  {
    set x, m | x in group && m in d[x] :: m
  }

  /** Some detection of the group has the member. */
  predicate HasMember(d: Detections, group: seq<nat>, m: string) { exists x | x in group :: x < |d| && m in d[x] }

  /** No member appears in two cases. */
  lemma MembersInOneCase(d: Detections, groups: seq<seq<nat>>, j: nat, k: nat)
    requires IsPartition(groups, |d|) && j < k < |groups|
    requires forall x, y | 0 <= x < |d| && 0 <= y < |d| && Connected(d, x, y) :: Together(groups, x, y)
    ensures forall m :: !(HasMember(d, groups[j], m) && HasMember(d, groups[k], m))
  {
    forall m | HasMember(d, groups[j], m) ensures !HasMember(d, groups[k], m) {
      assert IsGroup(groups[j], |d|) && IsGroup(groups[k], |d|);
      var x :| x in groups[j] && m in d[x];
      forall y | y in groups[k] ensures m !in d[y] {
        if m in d[y] {
          assert Shares(d, x, y);
          ConnectedShares(d, x, y);
          var l :| 0 <= l < |groups| && x in groups[l] && y in groups[l];
          SameGroup(groups, |d|, j, l, x);
          SameGroup(groups, |d|, k, l, y);
          assert false;
        }
      }
    }
  }

  lemma SameGroup(groups: seq<seq<nat>>, n: nat, j: nat, k: nat, x: nat)
    requires IsPartition(groups, n) && j < |groups| && k < |groups| && x in groups[j] && x in groups[k]
    ensures j == k
  {
    assert j < k ==> Apart(groups[j], groups[k]);
    assert k < j ==> Apart(groups[k], groups[j]);
  }

  /** One case per group, with its members. */
  datatype Case = Case(members: set<string>, detections: seq<nat>)

  function DetectionLists(cases: seq<Case>): (r: seq<seq<nat>>)
    ensures |r| == |cases| && forall k | 0 <= k < |r| :: r[k] == cases[k].detections
  {
    seq(|cases|, k requires 0 <= k < |cases| => cases[k].detections)
  }

  /** The members of a case are those of its detections. */
  ghost predicate IsCase(d: Detections, c: Case) {
    IsGroup(c.detections, |d|) && forall m :: m in c.members <==> HasMember(d, c.detections, m)
  }

  method BundleAuditCases(d: Detections) returns (cases: seq<Case>, detectionCount: nat, bundleCount: nat)
    ensures detectionCount == |d| && bundleCount == |cases|
    ensures IsPartition(DetectionLists(cases), |d|) && SizeSum(DetectionLists(cases)) == detectionCount
    ensures forall x, y | 0 <= x < |d| && 0 <= y < |d| :: Together(DetectionLists(cases), x, y) <==> Connected(d, x, y)
    ensures forall k | 0 <= k < |cases| :: IsCase(d, cases[k])
    ensures forall j, k | 0 <= j < k < |cases| :: cases[j].members !! cases[k].members
  {
    if d == [] {
      assert DetectionLists([]) == [];
      return [], 0, 0;
    }
    var groups := Components(d);
    cases := [];
    var i := 0;
    while i < |groups|
      invariant 0 <= i <= |groups| && |cases| == i
      invariant forall k | 0 <= k < i :: IsCase(d, cases[k]) && cases[k].detections == groups[k]
    {
      assert IsGroup(groups[i], |d|);
      assert forall m :: m in MembersOf(d, groups[i]) <==> HasMember(d, groups[i], m);
      cases := cases + [Case(MembersOf(d, groups[i]), groups[i])];
      i := i + 1;
    }
    detectionCount, bundleCount := |d|, |cases|;
    assert DetectionLists(cases) == groups;
    SizesAddUp(groups, |d|);
    forall j, k | 0 <= j < k < |cases| ensures cases[j].members !! cases[k].members {
      MembersInOneCase(d, groups, j, k);
    }
  }
}
