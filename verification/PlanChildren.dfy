/** The children a plan declares: an order to do them in, and scopes that keep them apart. */
module PlanChildren {
  import opened Text
  import Scope

  datatype Phase = Expand | Migrate | Contract

  datatype Child = Child(
    key: Text,
    projectId: Text,
    repositoryId: Option<Text>,
    phase: Option<Phase>,
    dependsOn: seq<Text>,
    declaredScope: seq<Text>)

  datatype Error =
    | DuplicateKey
    | DuplicateDependency(key: Text)
    | UnknownDependency(key: Text)
    | DependencyCycle
    | EmptyPrefix
    | ScopesOverlap(projectId: Text)

  /* ---- Dependencies as a graph ---- */

  /** Each key with the keys it depends on. */
  type Graph = map<Text, seq<Text>>

  ghost predicate Closed(g: Graph) {
    forall k, i | k in g && 0 <= i < |g[k]| :: g[k][i] in g
  }

  ghost predicate IsPath(g: Graph, path: seq<Text>) {
    && (forall i | 0 <= i < |path| :: path[i] in g)
    && forall i | 0 <= i < |path| - 1 :: path[i + 1] in g[path[i]]
  }

  ghost predicate IsCycle(g: Graph, path: seq<Text>) {
    |path| >= 2 && path[0] == path[|path| - 1] && IsPath(g, path)
  }

  ghost predicate Cyclic(g: Graph) {
    exists path :: IsCycle(g, path)
  }

  /** Keys in an order in which each comes after everything it depends on. */
  ghost predicate IsSchedule(g: Graph, order: seq<Text>) {
    && (forall i, j | 0 <= i < j < |order| :: order[i] != order[j])
    && forall i | 0 <= i < |order| :: order[i] in g && forall d | d in g[order[i]] :: d in order[..i]
  }

  lemma PlaceBefore(g: Graph, order: seq<Text>, i: nat, d: Text) returns (j: nat)
    requires IsSchedule(g, order) && i < |order| && d in g[order[i]]
    ensures j < i && order[j] == d
  {
    assert d in order[..i];
    j :| 0 <= j < i && order[..i][j] == d;
  }

  /** Along a path places only fall. */
  lemma {:induction false} PathFalls(g: Graph, order: seq<Text>, path: seq<Text>, start: nat) returns (end: nat)
    requires IsSchedule(g, order) && IsPath(g, path) && path != []
    requires start < |order| && order[start] == path[0]
    ensures end < |order| && order[end] == path[|path| - 1]
    ensures |path| > 1 ==> end < start
    decreases |path|
  {
    if |path| == 1 {
      return start;
    }
    assert path[0 + 1] in g[path[0]];
    var next := PlaceBefore(g, order, start, path[1]);
    var rest := path[1..];
    forall i | 0 <= i < |rest| - 1 ensures rest[i + 1] in g[rest[i]] {
      assert path[(i + 1) + 1] in g[path[i + 1]];
    }
    end := PathFalls(g, order, rest, next);
  }

  /** A schedule of every key rules out a cycle. */
  lemma ScheduledIsAcyclic(g: Graph, order: seq<Text>)
    requires IsSchedule(g, order) && forall k | k in g :: k in order
    ensures !Cyclic(g)
  {
    if path :| IsCycle(g, path) {
      assert path[0] in order;
      var start :| 0 <= start < |order| && order[start] == path[0];
      var end := PathFalls(g, order, path, start);
      assert false;
    }
  }

  /* ---- The search ---- */

  ghost predicate SameSet(visited: set<Text>, order: seq<Text>) {
    forall k :: k in visited <==> k in order
  }

  /** `visit`: true if it met a key it was still visiting. `stack` is the path of the keys being visited. */
  method Visit(g: Graph, key: Text, visiting: set<Text>, visited: set<Text>,
               ghost stack: seq<Text>, ghost order: seq<Text>)
    returns (cycle: bool, after: set<Text>, ghost more: seq<Text>)
    requires Closed(g) && IsPath(g, stack + [key])
    requires SameSet(visiting, stack) && visiting <= g.Keys
    requires IsSchedule(g, order) && SameSet(visited, order) && visiting !! visited
    ensures cycle ==> Cyclic(g)
    ensures !cycle ==>
      && IsSchedule(g, more) && SameSet(after, more) && visiting !! after && visited <= after && key in after
    decreases |g.Keys - visiting|
  {
    after, more := visited, order;
    assert (stack + [key])[|stack|] == key;
    if key in visiting {
      ClosesCycle(g, stack, key);
      return true, after, more;
    }
    if key in visited {
      return false, after, more;
    }
    var inside := visiting + {key};
    assert g.Keys - inside < g.Keys - visiting by {
      assert key in g.Keys - visiting && key !in g.Keys - inside;
    }
    SmallerSet(g.Keys - inside, g.Keys - visiting);
    for i := 0 to |g[key]|
      invariant IsSchedule(g, more) && SameSet(after, more) && inside !! after && visited <= after
      invariant AllIn(g[key], i, after)
    {
      PathGrows(g, stack + [key], g[key][i]);
      ghost var visitedSoFar := after;
      cycle, after, more := Visit(g, g[key][i], inside, after, stack + [key], more);
      if cycle {
        return;
      }
      AllInNext(g[key], i, visitedSoFar, after);
    }
    AllScheduled(g[key], after, more);
    ScheduleGrows(g, more, key);
    return false, after + {key}, more + [key];
  }

  ghost predicate AllIn(keys: seq<Text>, n: nat, visited: set<Text>)
    requires n <= |keys|
  {
    forall j | 0 <= j < n :: keys[j] in visited
  }

  lemma AllInNext(keys: seq<Text>, n: nat, visited: set<Text>, after: set<Text>)
    requires n < |keys| && AllIn(keys, n, visited) && visited <= after && keys[n] in after
    ensures AllIn(keys, n + 1, after)
  {
  }

  lemma AllScheduled(keys: seq<Text>, visited: set<Text>, order: seq<Text>)
    requires AllIn(keys, |keys|, visited) && SameSet(visited, order)
    ensures forall d | d in keys :: d in order
  {
  }

  lemma SmallerSet(a: set<Text>, b: set<Text>)
    requires a < b
    ensures |a| < |b|
  {
    var x :| x in b && x !in a;
    assert a <= b - {x};
    SubsetSize(a, b - {x});
  }

  lemma SubsetSize(a: set<Text>, b: set<Text>)
    requires a <= b
    ensures |a| <= |b|
  {
    if a != {} {
      var x :| x in a;
      SubsetSize(a - {x}, b - {x});
    }
  }

  lemma ClosesCycle(g: Graph, stack: seq<Text>, key: Text)
    requires IsPath(g, stack + [key]) && key in stack
    ensures Cyclic(g)
  {
    var s :| 0 <= s < |stack| && stack[s] == key;
    var (whole, path) := (stack + [key], stack[s..] + [key]);
    forall i | 0 <= i < |path| ensures path[i] == whole[s + i] {
    }
    forall i | 0 <= i < |path| - 1 ensures path[i + 1] in g[path[i]] {
      assert whole[(s + i) + 1] in g[whole[s + i]];
    }
    assert IsCycle(g, path);
  }

  lemma PathGrows(g: Graph, path: seq<Text>, next: Text)
    requires IsPath(g, path) && path != [] && next in g[path[|path| - 1]] && next in g
    ensures IsPath(g, path + [next])
  {
    var longer := path + [next];
    forall i | 0 <= i < |longer| - 1 ensures longer[i + 1] in g[longer[i]] {
      if i + 1 < |path| {
        assert path[i + 1] in g[path[i]];
      }
    }
  }

  lemma ScheduleGrows(g: Graph, order: seq<Text>, key: Text)
    requires IsSchedule(g, order) && key in g && key !in order
    requires forall d | d in g[key] :: d in order
    ensures IsSchedule(g, order + [key])
  {
    var longer := order + [key];
    forall i | 0 <= i < |longer| ensures longer[i] in g && forall d | d in g[longer[i]] :: d in longer[..i] {
      assert longer[..i] == order[..i];
      assert order[..|order|] == order;
    }
  }

  /** The search over all children finds a cycle exactly when there is one, and else leaves a schedule of every key. */
  method HasCycle(children: seq<Child>, g: Graph) returns (cycle: bool, ghost order: seq<Text>)
    requires Closed(g) && forall k :: k in g <==> exists i :: 0 <= i < |children| && children[i].key == k
    ensures cycle <==> Cyclic(g)
    ensures !cycle ==> IsSchedule(g, order) && forall k :: k in order <==> k in g
  {
    var visited: set<Text> := {};
    order := [];
    for i := 0 to |children|
      invariant IsSchedule(g, order) && SameSet(visited, order)
      invariant forall j | 0 <= j < i :: children[j].key in visited
    {
      assert children[i].key in g;
      assert [] + [children[i].key] == [children[i].key];
      cycle, visited, order := Visit(g, children[i].key, {}, visited, [], order);
      if cycle {
        return;
      }
    }
    forall k ensures k in order <==> k in g {
      if k in order {
        var i :| 0 <= i < |order| && order[i] == k;
      }
    }
    ScheduledIsAcyclic(g, order);
    return false, order;
  }

  /* ---- The check of a plan's children, but for its rules about phases ---- */

  predicate Distinct(keys: seq<Text>) {
    forall i, j | 0 <= i < j < |keys| :: keys[i] != keys[j]
  }

  predicate HasKey(children: seq<Child>, key: Text) {
    exists i | 0 <= i < |children| :: children[i].key == key
  }

  function KeyError(children: seq<Child>): Option<Error> {
    if children == [] then None
    else
      var last := |children| - 1;
      var earlier := KeyError(children[..last]);
      if earlier.Some? then earlier
      else if HasKey(children[..last], children[last].key) then Some(DuplicateKey)
      else if !Distinct(children[last].dependsOn) then Some(DuplicateDependency(children[last].key))
      else None
  }

  predicate AllKnown(children: seq<Child>, keys: seq<Text>) {
    forall i | 0 <= i < |keys| :: HasKey(children, keys[i])
  }

  function UnknownError(children: seq<Child>, list: seq<Child>): Option<Error> {
    if list == [] then None
    else
      var last := |list| - 1;
      var earlier := UnknownError(children, list[..last]);
      if earlier.Some? then earlier
      else if !AllKnown(children, list[last].dependsOn) then Some(UnknownDependency(list[last].key))
      else None
  }

  function GraphOf(children: seq<Child>): Graph {
    if children == [] then map[]
    else
      var last := |children| - 1;
      GraphOf(children[..last])[children[last].key := children[last].dependsOn]
  }

  predicate SharesCheckout(a: Child, b: Child) {
    a.projectId == b.projectId && a.repositoryId == b.repositoryId
  }

  predicate RequiresDisjointScopes(a: Child, b: Child) {
    (a.phase.None? && b.phase.None?) || (a.phase == Some(Migrate) && b.phase == Some(Migrate))
  }

  function PairError(a: Child, b: Child): Option<Error> {
    if RequiresDisjointScopes(a, b) && SharesCheckout(a, b) then
      match Scope.DeclaredScopesOverlap(a.declaredScope, b.declaredScope)
      case EmptyPrefix => Some(EmptyPrefix)
      case Answer(overlap) => if overlap then Some(ScopesOverlap(a.projectId)) else None
    else None
  }

  /** The first error of a child with those after it, from `right` on. */
  function RowError(children: seq<Child>, left: nat, right: nat): Option<Error>
    requires left < right <= |children|
    decreases |children| - right
  {
    if right == |children| then None
    else if PairError(children[left], children[right]).Some? then PairError(children[left], children[right])
    else RowError(children, left, right + 1)
  }

  function ScopeError(children: seq<Child>, left: nat): Option<Error>
    requires left <= |children|
    decreases |children| - left
  {
    if left == |children| then None
    else if RowError(children, left, left + 1).Some? then RowError(children, left, left + 1)
    else ScopeError(children, left + 1)
  }

  ghost function Verdict(children: seq<Child>): Option<Error> {
    if KeyError(children).Some? then KeyError(children)
    else if UnknownError(children, children).Some? then UnknownError(children, children)
    else if Cyclic(GraphOf(children)) then Some(DependencyCycle)
    else ScopeError(children, 0)
  }

  lemma {:induction false} GraphHolds(children: seq<Child>)
    ensures forall k :: k in GraphOf(children) <==> HasKey(children, k)
    decreases |children|
  {
    if children != [] {
      var last := |children| - 1;
      GraphHolds(children[..last]);
      forall k ensures HasKey(children, k) <==> HasKey(children[..last], k) || children[last].key == k {
        if i :| 0 <= i < |children| && children[i].key == k {
          assert i < last ==> children[..last][i].key == k;
        }
      }
    }
  }

  /** With distinct keys the graph holds each child's own dependencies. */
  lemma {:induction false} GraphIsOwn(children: seq<Child>, i: nat)
    requires KeyError(children).None? && i < |children|
    ensures children[i].key in GraphOf(children) && GraphOf(children)[children[i].key] == children[i].dependsOn
    decreases |children|
  {
    var last := |children| - 1;
    if i < last {
      GraphIsOwn(children[..last], i);
      assert children[..last][i] == children[i];
      assert HasKey(children[..last], children[i].key);
    }
  }

  lemma {:induction false} NoneUnknown(children: seq<Child>, list: seq<Child>, i: nat)
    requires UnknownError(children, list).None? && i < |list|
    ensures AllKnown(children, list[i].dependsOn)
    decreases |list|
  {
    if i < |list| - 1 {
      NoneUnknown(children, list[..|list| - 1], i);
    }
  }

  lemma GraphIsClosed(children: seq<Child>)
    requires KeyError(children).None? && UnknownError(children, children).None?
    ensures Closed(GraphOf(children))
  {
    var g := GraphOf(children);
    GraphHolds(children);
    forall k, d | k in g && 0 <= d < |g[k]| ensures g[k][d] in g {
      var i :| 0 <= i < |children| && children[i].key == k;
      GraphIsOwn(children, i);
      NoneUnknown(children, children, i);
    }
  }

  lemma {:induction false} RowAccepted(children: seq<Child>, left: nat, right: nat, j: nat)
    requires left < right <= j < |children| && RowError(children, left, right).None?
    ensures PairError(children[left], children[j]).None?
    decreases |children| - right
  {
    if right < j {
      RowAccepted(children, left, right + 1, j);
    }
  }

  lemma {:induction false} PairsAccepted(children: seq<Child>, left: nat, i: nat, j: nat)
    requires left <= i < j < |children| && ScopeError(children, left).None?
    ensures PairError(children[i], children[j]).None?
    decreases |children| - left
  {
    if left < i {
      PairsAccepted(children, left + 1, i, j);
    } else {
      RowAccepted(children, left, left + 1, j);
    }
  }

  ghost predicate DistinctChildren(children: seq<Child>) {
    && (forall i, j | 0 <= i < j < |children| :: children[i].key != children[j].key)
    && forall i, a, b | 0 <= i < |children| && 0 <= a < b < |children[i].dependsOn| ::
         children[i].dependsOn[a] != children[i].dependsOn[b]
  }

  /** Every dependency of every child is the key of a child. */
  ghost predicate DependenciesKnown(children: seq<Child>) {
    forall i, d | 0 <= i < |children| && 0 <= d < |children[i].dependsOn| ::
      exists k :: 0 <= k < |children| && children[k].key == children[i].dependsOn[d]
  }

  lemma {:induction false} KeysAccepted(children: seq<Child>)
    ensures KeyError(children).None? <==> DistinctChildren(children)
    decreases |children|
  {
    if children != [] {
      var (before, last) := (children[..|children| - 1], |children| - 1);
      KeysAccepted(before);
      assert forall i | 0 <= i < last :: before[i] == children[i];
    }
  }

  lemma {:induction false} AllKnownAccepted(children: seq<Child>, list: seq<Child>)
    ensures UnknownError(children, list).None? <==> forall i | 0 <= i < |list| :: AllKnown(children, list[i].dependsOn)
    decreases |list|
  {
    if list != [] {
      var (before, last) := (list[..|list| - 1], |list| - 1);
      AllKnownAccepted(children, before);
      assert forall i | 0 <= i < last :: before[i] == list[i];
    }
  }

  /** Both without a phase or both migrating, and in one checkout. */
  ghost predicate MustStayApart(a: Child, b: Child) {
    && (a.phase == b.phase == None || a.phase == b.phase == Some(Migrate))
    && a.projectId == b.projectId && a.repositoryId == b.repositoryId
  }

  ghost predicate PairsApart(children: seq<Child>) {
    forall i, j | 0 <= i < j < |children| && MustStayApart(children[i], children[j]) ::
      Scope.DeclaredScopesOverlap(children[i].declaredScope, children[j].declaredScope) == Scope.Answer(false)
  }

  lemma PairAccepted(a: Child, b: Child)
    ensures PairError(a, b).None? <==>
      (MustStayApart(a, b) ==> Scope.DeclaredScopesOverlap(a.declaredScope, b.declaredScope) == Scope.Answer(false))
  {
  }

  lemma {:induction false} RowRefused(children: seq<Child>, left: nat, right: nat) returns (j: nat)
    requires left < right <= |children| && RowError(children, left, right).Some?
    ensures right <= j < |children| && PairError(children[left], children[j]).Some?
    decreases |children| - right
  {
    if PairError(children[left], children[right]).Some? {
      return right;
    }
    j := RowRefused(children, left, right + 1);
  }

  lemma {:induction false} ScopesRefused(children: seq<Child>, left: nat) returns (i: nat, j: nat)
    requires left <= |children| && ScopeError(children, left).Some?
    ensures left <= i < j < |children| && PairError(children[i], children[j]).Some?
    decreases |children| - left
  {
    if RowError(children, left, left + 1).Some? {
      i := left;
      j := RowRefused(children, left, left + 1);
    } else {
      i, j := ScopesRefused(children, left + 1);
    }
  }

  lemma KnownIsEach(children: seq<Child>)
    ensures DependenciesKnown(children) <==> forall i | 0 <= i < |children| :: AllKnown(children, children[i].dependsOn)
  {
    if DependenciesKnown(children) {
      forall i, d | 0 <= i < |children| && 0 <= d < |children[i].dependsOn|
        ensures HasKey(children, children[i].dependsOn[d])
      {
      }
    } else {
      var i, d :| 0 <= i < |children| && 0 <= d < |children[i].dependsOn|
        && !exists k :: 0 <= k < |children| && children[k].key == children[i].dependsOn[d];
      assert !HasKey(children, children[i].dependsOn[d]);
    }
  }

  /** A plan's children are accepted exactly when no rule is broken anywhere. */
  lemma AcceptedIffNoRuleBroken(children: seq<Child>)
    ensures Verdict(children).None? <==>
      && DistinctChildren(children)
      && DependenciesKnown(children)
      && !Cyclic(GraphOf(children))
      && PairsApart(children)
  {
    KeysAccepted(children);
    AllKnownAccepted(children, children);
    KnownIsEach(children);
    if ScopeError(children, 0).Some? {
      var i, j := ScopesRefused(children, 0);
      PairAccepted(children[i], children[j]);
    } else {
      forall i: nat, j: nat | i < j < |children| ensures PairError(children[i], children[j]).None? {
        PairsAccepted(children, 0, i, j);
      }
      forall i: nat, j: nat | i < j < |children| && MustStayApart(children[i], children[j])
        ensures Scope.DeclaredScopesOverlap(children[i].declaredScope, children[j].declaredScope) == Scope.Answer(false)
      {
        PairAccepted(children[i], children[j]);
      }
    }
  }

  /** Children that must stay apart can change no file in common, whatever passes their scope checks. */
  lemma AcceptedChildrenShareNoFile(children: seq<Child>, i: nat, j: nat, left: seq<Text>, right: seq<Text>)
    requires Verdict(children).None? && i < j < |children|
    requires MustStayApart(children[i], children[j])
    requires Scope.CheckDeclaredScope(left, children[i].declaredScope) == Scope.Answer(Scope.Accepted)
    requires Scope.CheckDeclaredScope(right, children[j].declaredScope) == Scope.Answer(Scope.Accepted)
    ensures forall file | file in left :: file !in right
  {
    PairsAccepted(children, 0, i, j);
    Scope.DisjointScopesDisjointFiles(children[i].declaredScope, children[j].declaredScope);
  }

  /** The map by key, unless a key or a dependency is repeated. */
  method CollectChildren(children: seq<Child>) returns (error: Option<Error>, childrenByKey: Graph)
    ensures error == KeyError(children)
    ensures error.None? ==> childrenByKey == GraphOf(children)
  {
    childrenByKey := map[];
    for i := 0 to |children|
      invariant childrenByKey == GraphOf(children[..i]) && KeyError(children[..i]).None?
    {
      assert children[..i + 1][..i] == children[..i];
      GraphHolds(children[..i]);
      FirstKeyError(children, i + 1);
      var child := children[i];
      if child.key in childrenByKey {
        return Some(DuplicateKey), childrenByKey;
      }
      childrenByKey := childrenByKey[child.key := child.dependsOn];
      if !Distinct(child.dependsOn) {
        return Some(DuplicateDependency(child.key)), childrenByKey;
      }
    }
    assert children[..|children|] == children;
    return None, childrenByKey;
  }

  method CheckDependencies(children: seq<Child>, childrenByKey: Graph) returns (error: Option<Error>)
    requires forall k :: k in childrenByKey <==> HasKey(children, k)
    ensures error == UnknownError(children, children)
  {
    for i := 0 to |children|
      invariant UnknownError(children, children[..i]).None?
    {
      assert children[..i + 1][..i] == children[..i];
      FirstUnknownError(children, children, i + 1);
      if exists d | 0 <= d < |children[i].dependsOn| :: children[i].dependsOn[d] !in childrenByKey {
        return Some(UnknownDependency(children[i].key));
      }
    }
    assert children[..|children|] == children;
    return None;
  }

  method ValidateChildren(children: seq<Child>) returns (error: Option<Error>, ghost order: seq<Text>)
    ensures error == Verdict(children)
    ensures error.None? ==> IsSchedule(GraphOf(children), order) && forall k :: k in order <==> HasKey(children, k)
  {
    order := [];
    var childrenByKey: Graph;
    error, childrenByKey := CollectChildren(children);
    if error.Some? {
      return;
    }
    GraphHolds(children);
    error := CheckDependencies(children, childrenByKey);
    if error.Some? {
      return;
    }
    GraphIsClosed(children);
    var cycle: bool;
    cycle, order := HasCycle(children, childrenByKey);
    if cycle {
      return Some(DependencyCycle), order;
    }
    error := CheckScopes(children);
  }

  method CheckScopes(children: seq<Child>) returns (error: Option<Error>)
    ensures error == ScopeError(children, 0)
  {
    for left := 0 to |children|
      invariant ScopeError(children, 0) == ScopeError(children, left)
    {
      for right := left + 1 to |children|
        invariant RowError(children, left, left + 1) == RowError(children, left, right)
      {
        var (a, b) := (children[left], children[right]);
        if RequiresDisjointScopes(a, b) && SharesCheckout(a, b) {
          match Scope.DeclaredScopesOverlap(a.declaredScope, b.declaredScope) {
            case EmptyPrefix => return Some(EmptyPrefix);
            case Answer(overlap) =>
              if overlap {
                return Some(ScopesOverlap(a.projectId));
              }
          }
        }
      }
    }
    return None;
  }

  /** An error among the first children is the error of them all. */
  lemma {:induction false} FirstKeyError(children: seq<Child>, n: nat)
    requires n <= |children|
    ensures KeyError(children[..n]).Some? ==> KeyError(children) == KeyError(children[..n])
    decreases |children|
  {
    if n == |children| {
      assert children[..n] == children;
    } else {
      assert children[..|children| - 1][..n] == children[..n];
      FirstKeyError(children[..|children| - 1], n);
    }
  }

  lemma {:induction false} FirstUnknownError(children: seq<Child>, list: seq<Child>, n: nat)
    requires n <= |list|
    ensures UnknownError(children, list[..n]).Some? ==>
      UnknownError(children, list) == UnknownError(children, list[..n])
    decreases |list|
  {
    if n == |list| {
      assert list[..n] == list;
    } else {
      assert list[..|list| - 1][..n] == list[..n];
      FirstUnknownError(children, list[..|list| - 1], n);
    }
  }
}
