/**
 Searching a syntax tree. A node is named by its path of child indices from the root, so
 that its parent is at hand; predicates are over nodes.
 */
module TreeSearch {
  import opened Wrappers
  import opened TextLines

  datatype Span = Span(start: Point, end: Point)

  datatype Tree = Tree(span: Span, children: seq<Tree>)

  type Path = seq<nat>

  predicate IsNode(t: Tree, p: Path)
    decreases p
  {
    p == [] || (p[0] < |t.children| && IsNode(t.children[p[0]], p[1..]))
  }

  function NodeAt(t: Tree, p: Path): Tree
    requires IsNode(t, p)
    decreases p
  {
    if p == [] then t else NodeAt(t.children[p[0]], p[1..])
  }

  lemma {:induction false} ChildNode(t: Tree, p: Path, i: nat)
    requires IsNode(t, p)
    ensures IsNode(t, p + [i]) <==> i < |NodeAt(t, p).children|
    ensures i < |NodeAt(t, p).children| ==> NodeAt(t, p + [i]) == NodeAt(t, p).children[i]
    decreases p
  {
    if p != [] {
      assert (p + [i])[1..] == p[1..] + [i];
      ChildNode(t.children[p[0]], p[1..], i);
    }
  }

  lemma {:induction false} PrefixIsNode(t: Tree, p: Path, n: nat)
    requires IsNode(t, p) && n <= |p|
    ensures IsNode(t, p[..n])
    ensures n < |p| ==> p[n] < |NodeAt(t, p[..n]).children|
    decreases p
  {
    if n > 0 {
      assert p[..n][1..] == p[1..][..n - 1];
      PrefixIsNode(t.children[p[0]], p[1..], n - 1);
    }
  }

  lemma PrefixCases(p: Path, q: Path)
    requires p <= q
    ensures q == p || |p| < |q|
  {
    if |p| == |q| {
      assert q == p;
    }
  }

  // ------------------------------------------------------------ breadth-first order

  /** Paths of one length, in sibling order. */
  predicate LexLess(p: Path, q: Path)
    requires |p| == |q|
  {
    p != [] && (p[0] < q[0] || (p[0] == q[0] && LexLess(p[1..], q[1..])))
  }

  /** Shallower nodes first; at one depth, sibling order. */
  predicate Earlier(p: Path, q: Path) { |p| < |q| || (|p| == |q| && LexLess(p, q)) }

  lemma {:induction false} LexExtends(p: Path, q: Path, i: nat, j: nat)
    requires |p| == |q| && (LexLess(p, q) || (p == q && i < j))
    ensures LexLess(p + [i], q + [j])
  {
    if p != [] {
      assert (p + [i])[1..] == p[1..] + [i] && (q + [j])[1..] == q[1..] + [j];
      if p[0] == q[0] {
        LexExtends(p[1..], q[1..], i, j);
      }
    }
  }

  // ------------------------------------------------------------ find_descendant

  ghost function Size(t: Tree): nat { 1 + SizeAll(t.children) }

  ghost function SizeAll(ts: seq<Tree>): nat { if ts == [] then 0 else Size(ts[0]) + SizeAll(ts[1..]) }

  ghost function Pending(t: Tree, queue: seq<Path>): nat
    requires forall k :: 0 <= k < |queue| ==> IsNode(t, queue[k])
  {
    if queue == [] then 0 else Size(NodeAt(t, queue[0])) + Pending(t, queue[1..])
  }

  function ChildPaths(p: Path, count: nat): (r: seq<Path>)
    ensures |r| == count
  {
    seq(count, i requires 0 <= i < count => p + [i])
  }

  lemma {:induction false} PendingConcat(t: Tree, a: seq<Path>, b: seq<Path>)
    requires forall k :: 0 <= k < |a| ==> IsNode(t, a[k])
    requires forall k :: 0 <= k < |b| ==> IsNode(t, b[k])
    ensures Pending(t, a + b) == Pending(t, a) + Pending(t, b)
  {
    if a == [] {
      assert a + b == b;
    } else {
      assert (a + b)[1..] == a[1..] + b;
      PendingConcat(t, a[1..], b);
    }
  }

  lemma {:induction false} PendingChildren(t: Tree, p: Path, from: nat)
    requires IsNode(t, p) && from <= |NodeAt(t, p).children|
    requires forall k :: 0 <= k < |ChildPaths(p, |NodeAt(t, p).children|)[from..]| ==>
               IsNode(t, ChildPaths(p, |NodeAt(t, p).children|)[from..][k])
    ensures Pending(t, ChildPaths(p, |NodeAt(t, p).children|)[from..]) == SizeAll(NodeAt(t, p).children[from..])
    decreases |NodeAt(t, p).children| - from
  {
    var children := NodeAt(t, p).children;
    var paths := ChildPaths(p, |children|);
    if from < |children| {
      ChildNode(t, p, from);
      assert paths[from..][1..] == paths[from + 1..];
      PendingChildren(t, p, from + 1);
    }
  }

  /** The queue holds nodes below `start`, in breadth-first order, at most two depths at a time. */
  ghost predicate Queued(t: Tree, start: Path, queue: seq<Path>) {
    && (forall k :: 0 <= k < |queue| ==> IsNode(t, queue[k]) && start <= queue[k])
    && (forall k, m :: 0 <= k < m < |queue| ==> Earlier(queue[k], queue[m]))
    && (forall k :: 0 <= k < |queue| ==> |queue[k]| <= |queue[0]| + 1)
    && (forall k :: 0 <= k < |queue| && |queue[k]| == |queue[0]| + 1 ==> LexLess(queue[k][..|queue[0]|], queue[0]))
  }

  ghost predicate Covered(queue: seq<Path>, q: Path) { exists k :: 0 <= k < |queue| && queue[k] <= q }

  /** Every node below `start` that satisfies the predicate is still reachable from the queue. */
  ghost predicate Complete(t: Tree, start: Path, queue: seq<Path>, f: Path -> bool) {
    forall q :: IsNode(t, q) && start <= q && f(q) ==> Covered(queue, q)
  }

  lemma NextIsQueued(t: Tree, start: Path, queue: seq<Path>)
    requires queue != [] && Queued(t, start, queue)
    ensures Queued(t, start, queue[1..] + ChildPaths(queue[0], |NodeAt(t, queue[0]).children|))
  {
    var p := queue[0];
    var n := |NodeAt(t, p).children|;
    var rest, added := queue[1..], ChildPaths(p, n);
    var next := rest + added;
    forall i | 0 <= i < n ensures IsNode(t, added[i]) {
      ChildNode(t, p, i);
    }
    forall k, m | 0 <= k < m < |next| ensures Earlier(next[k], next[m]) {
      if k < |rest| <= m {
        NewIsLater(p, queue[k + 1], m - |rest|);
      } else if |rest| <= k {
        LexExtends(p, p, k - |rest|, m - |rest|);
      }
    }
    forall k | 0 <= k < |next|
      ensures |next[k]| <= |next[0]| + 1
      ensures |next[k]| == |next[0]| + 1 ==> LexLess(next[k][..|next[0]|], next[0])
    {
      assert |p| <= |next[0]|;
      if |rest| <= k && |next[0]| == |p| {
        assert next[k][..|p|] == p && next[0] == queue[1];
      } else if k < |rest| && |next[k]| == |next[0]| + 1 {
        HeadsAdvance(queue, k + 1);
      }
    }
  }

  /** A child of the head comes after everything queued before it. */
  lemma NewIsLater(p: Path, q: Path, i: nat)
    requires Earlier(p, q) && |q| <= |p| + 1
    requires |q| == |p| + 1 ==> LexLess(q[..|p|], p)
    ensures Earlier(q, p + [i])
  {
    if |q| == |p| + 1 {
      LexExtends(q[..|p|], p, q[|p|], i);
      assert q == q[..|p|] + [q[|p|]];
    }
  }

  lemma HeadsAdvance(queue: seq<Path>, k: nat)
    requires 1 < |queue| && 1 <= k < |queue| && Earlier(queue[0], queue[1])
    requires |queue[k]| == |queue[1]| + 1 && |queue[k]| <= |queue[0]| + 1
    requires LexLess(queue[k][..|queue[0]|], queue[0])
    ensures |queue[0]| == |queue[1]| && LexLess(queue[k][..|queue[1]|], queue[1])
  {
    LexTransitive(queue[k][..|queue[0]|], queue[0], queue[1]);
  }

  lemma {:induction false} LexTransitive(p: Path, q: Path, r: Path)
    requires |p| == |q| == |r| && LexLess(p, q) && LexLess(q, r)
    ensures LexLess(p, r)
  {
    if p[0] == q[0] == r[0] {
      LexTransitive(p[1..], q[1..], r[1..]);
    }
  }

  lemma NextIsComplete(t: Tree, start: Path, queue: seq<Path>, f: Path -> bool)
    requires queue != [] && Queued(t, start, queue) && Complete(t, start, queue, f) && !f(queue[0])
    ensures Complete(t, start, queue[1..] + ChildPaths(queue[0], |NodeAt(t, queue[0]).children|), f)
  {
    var p := queue[0];
    var rest, added := queue[1..], ChildPaths(p, |NodeAt(t, p).children|);
    forall q | IsNode(t, q) && start <= q && f(q) ensures Covered(rest + added, q) {
      var k :| 0 <= k < |queue| && queue[k] <= q;
      if k > 0 {
        assert (rest + added)[k - 1] <= q;
      } else {
        PrefixCases(p, q);
        PrefixIsNode(t, q, |p|);
        assert q[..|p|] == p;
        assert added[q[|p|]] == q[..|p| + 1];
        assert (rest + added)[|rest| + q[|p|]] <= q;
      }
    }
  }

  /** Every matching node below the queue's head comes no earlier than the head. */
  lemma HeadIsFirst(t: Tree, start: Path, queue: seq<Path>, f: Path -> bool, q: Path)
    requires queue != [] && Queued(t, start, queue) && Complete(t, start, queue, f)
    requires IsNode(t, q) && start <= q && f(q)
    ensures q == queue[0] || Earlier(queue[0], q)
  {
    var k :| 0 <= k < |queue| && queue[k] <= q;
    PrefixCases(queue[k], q);
  }

  /** The breadth-first-least node at or below `start` that satisfies `f`, if any does. */
  ghost predicate IsFirst(t: Tree, start: Path, f: Path -> bool, r: Option<Path>) {
    match r
    case None => forall q :: IsNode(t, q) && start <= q ==> !f(q)
    case Some(p) =>
      && IsNode(t, p) && start <= p && f(p)
      && forall q :: IsNode(t, q) && start <= q && f(q) ==> q == p || Earlier(p, q)
  }

  /** Breadth-first search with a queue. */
  method FindDescendant(t: Tree, start: Path, f: Path -> bool) returns (r: Option<Path>)
    requires IsNode(t, start)
    ensures IsFirst(t, start, f, r)
  {
    var queue := [start];
    forall q: Path | start <= q ensures Covered(queue, q) {
      assert queue[0] <= q;
    }
    while queue != []
      invariant Queued(t, start, queue) && Complete(t, start, queue, f)
      decreases Pending(t, queue)
    {
      var current := queue[0];
      if f(current) {
        forall q | IsNode(t, q) && start <= q && f(q) ensures q == current || Earlier(current, q) {
          HeadIsFirst(t, start, queue, f, q);
        }
        return Some(current);
      }
      ghost var was := queue;
      NextIsQueued(t, start, queue);
      NextIsComplete(t, start, queue, f);
      var children := ChildPaths(current, |NodeAt(t, current).children|);
      queue := queue[1..] + children;
      QueueShrinks(t, start, was, queue);
    }
    forall q | IsNode(t, q) && start <= q ensures !f(q) {
      assert !Covered(queue, q);
    }
    r := None;
  }

  lemma QueueShrinks(t: Tree, start: Path, queue: seq<Path>, next: seq<Path>)
    requires queue != [] && Queued(t, start, queue) && Queued(t, start, next)
    requires next == queue[1..] + ChildPaths(queue[0], |NodeAt(t, queue[0]).children|)
    ensures Pending(t, next) < Pending(t, queue)
  {
    var p := queue[0];
    var children := NodeAt(t, p).children;
    var added := ChildPaths(p, |children|);
    forall i | 0 <= i < |children| ensures IsNode(t, added[i]) {
      ChildNode(t, p, i);
    }
    PendingConcat(t, queue[1..], added);
    PendingChildren(t, p, 0);
    assert added[0..] == added && children[0..] == children;
  }

  /** The first direct child that satisfies `f`. */
  method FindChild(t: Tree, p: Path, f: Path -> bool) returns (r: Option<Path>)
    requires IsNode(t, p)
    ensures r.None? ==> forall i :: 0 <= i < |NodeAt(t, p).children| ==> !f(p + [i])
    ensures r.Some? ==> exists i :: 0 <= i < |NodeAt(t, p).children| && r.value == p + [i] && f(p + [i]) &&
                                    forall j :: 0 <= j < i ==> !f(p + [j])
  {
    for i := 0 to |NodeAt(t, p).children|
      invariant forall j :: 0 <= j < i ==> !f(p + [j])
    {
      if f(p + [i]) {
        return Some(p + [i]);
      }
    }
    r := None;
  }

  /** The nearest proper ancestor of a node that satisfies `f`, if any does. */
  ghost predicate NearestAncestor(t: Tree, p: Path, f: Path -> bool, r: Option<Path>) {
    match r
    case None => forall n :: 0 <= n < |p| ==> !f(p[..n])
    case Some(a) =>
      |a| < |p| && a == p[..|a|] && f(a) && forall n :: |a| < n < |p| ==> !f(p[..n])
  }

  method FindAncestor(t: Tree, p: Path, f: Path -> bool) returns (r: Option<Path>)
    requires IsNode(t, p)
    ensures NearestAncestor(t, p, f, r)
  {
    var n: nat := |p|;
    while n > 0
      invariant n <= |p| && forall m :: n <= m < |p| ==> !f(p[..m])
    {
      n := n - 1;
      if f(p[..n]) {
        return Some(p[..n]);
      }
    }
    r := None;
  }

  // ------------------------------------------------------------ find_nearest

  predicate PointAtOrBefore(p: Point, q: Point) { p.row < q.row || (p.row == q.row && p.column <= q.column) }

  /** Both bounds are inclusive. */
  predicate Contains(s: Span, at: Point) {
    && (at.row > s.start.row || (at.row == s.start.row && at.column >= s.start.column))
    && (at.row < s.end.row || (at.row == s.end.row && at.column <= s.end.column))
  }

  /** Containment is the interval of the point order. */
  lemma ContainsIsInterval(s: Span, at: Point)
    ensures Contains(s, at) <==> PointAtOrBefore(s.start, at) && PointAtOrBefore(at, s.end)
  {
  }

  /** Children's spans lie in their parents'. */
  predicate Nested(t: Tree) {
    forall i :: 0 <= i < |t.children| ==>
      && PointAtOrBefore(t.span.start, t.children[i].span.start)
      && PointAtOrBefore(t.children[i].span.end, t.span.end)
      && Nested(t.children[i])
  }

  /** In a nested tree, ancestors contain what their descendants contain. */
  lemma {:induction false} AncestorsContain(t: Tree, p: Path, n: nat, at: Point)
    requires Nested(t) && IsNode(t, p) && n <= |p| && Contains(NodeAt(t, p).span, at)
    ensures IsNode(t, p[..n]) && Contains(NodeAt(t, p[..n]).span, at)
    decreases p
  {
    PrefixIsNode(t, p, n);
    if p != [] {
      var child := t.children[p[0]];
      if n == 0 {
        AncestorsContain(child, p[1..], 0, at);
      } else {
        assert p[..n][1..] == p[1..][..n - 1];
        AncestorsContain(child, p[1..], n - 1, at);
      }
    }
  }

  /** A node that holds the position and satisfies the predicate. */
  predicate Matches(t: Tree, at: Point, f: Path -> bool, q: Path) {
    IsNode(t, q) && Contains(NodeAt(t, q).span, at) && f(q)
  }

  /** In a nested tree nothing below a node holds a position the node does not. */
  lemma OutsideHasNoMatch(t: Tree, p: Path, at: Point, f: Path -> bool)
    requires Nested(t) && IsNode(t, p) && !Contains(NodeAt(t, p).span, at)
    ensures forall q :: p <= q ==> !Matches(t, at, f, q)
  {
    forall q | p <= q && Matches(t, at, f, q) ensures false {
      assert q[..|p|] == p;
      AncestorsContain(t, q, |p|, at);
    }
  }

  /** Above a node that holds the position, matching is satisfying the predicate. */
  lemma ContainingAncestors(t: Tree, p: Path, at: Point, f: Path -> bool)
    requires Nested(t) && IsNode(t, p) && Contains(NodeAt(t, p).span, at)
    ensures forall n :: 0 <= n <= |p| ==> (Matches(t, at, f, p[..n]) <==> f(p[..n]))
  {
    forall n | 0 <= n <= |p| ensures Matches(t, at, f, p[..n]) <==> f(p[..n]) {
      AncestorsContain(t, p, n, at);
    }
  }

  lemma SelfIsFirst(t: Tree, p: Path, f: Path -> bool)
    requires IsNode(t, p) && f(p)
    ensures IsFirst(t, p, f, Some(p))
  {
    forall q | IsNode(t, q) && p <= q && f(q) ensures q == p || Earlier(p, q) {
      PrefixCases(p, q);
    }
  }

  /** Proper ancestors are proper prefixes, and nodes. */
  lemma AncestorsOnly(t: Tree, p: Path, f: Path -> bool, r: Option<Path>)
    requires IsNode(t, p) && NearestAncestor(t, p, f, r)
    ensures r.Some? ==> r.value <= p && f(r.value)
    ensures r.None? ==> forall q :: q <= p && q != p ==> !f(q)
  {
    if r.None? {
      forall q: Path | q <= p && q != p ensures !f(q) {
        assert q == p[..|q|];
        assert |q| < |p|;
      }
    }
  }

  function Matching(t: Tree, at: Point, f: Path -> bool): Path -> bool { q => Matches(t, at, f, q) }

  /** When a node itself does not match, its first matching child is the first match at or below it. */
  lemma FirstChildIsFirst(t: Tree, p: Path, f: Path -> bool, i: nat)
    requires IsNode(t, p) && i < |NodeAt(t, p).children| && !f(p) && f(p + [i])
    requires forall j :: 0 <= j < i ==> !f(p + [j])
    ensures IsFirst(t, p, f, Some(p + [i]))
  {
    ChildNode(t, p, i);
    forall q | IsNode(t, q) && p <= q && f(q) ensures q == p + [i] || Earlier(p + [i], q) {
      PrefixCases(p, q);
      if |q| == |p| + 1 {
        assert q == p + [q[|p|]];
        if i < q[|p|] {
          LexExtends(p, p, i, q[|p|]);
        }
      }
    }
  }

  /**
   The node itself, else its first matching child, else the breadth-first-least matching node
   below it, else the nearest ancestor. In a tree with nested spans the result holds the position
   and satisfies the predicate, and nothing is returned exactly when no such node is below or above.
   */
  method FindNearest(t: Tree, p: Path, at: Point, f: Path -> bool) returns (r: Option<Path>)
    requires IsNode(t, p)
    ensures r.Some? ==> f(r.value) && (p <= r.value || r.value <= p)
    ensures Nested(t) && r.Some? ==> Matches(t, at, f, r.value)
    ensures Nested(t) && r.None? ==> forall q :: (p <= q || q <= p) ==> !Matches(t, at, f, q)
    ensures Nested(t) && (exists q :: p <= q && Matches(t, at, f, q)) ==> IsFirst(t, p, Matching(t, at, f), r)
    ensures Nested(t) && (forall q :: p <= q ==> !Matches(t, at, f, q)) ==>
              NearestAncestor(t, p, Matching(t, at, f), r)
  {
    var matching := Matching(t, at, f);
    if Contains(NodeAt(t, p).span, at) {
      if f(p) {
        SelfIsFirst(t, p, matching);
        return Some(p);
      }
      r := FindChild(t, p, matching);
      if r.Some? {
        var i :| 0 <= i < |NodeAt(t, p).children| && r.value == p + [i] && matching(p + [i]) &&
                 forall j :: 0 <= j < i ==> !matching(p + [j]);
        FirstChildIsFirst(t, p, matching, i);
        return;
      }
      r := FindDescendant(t, p, matching);
      if r.Some? {
        return;
      }
      r := FindAncestor(t, p, f);
      AncestorsOnly(t, p, f, r);
      if Nested(t) {
        ContainingAncestors(t, p, at, f);
      }
    } else {
      if Nested(t) {
        OutsideHasNoMatch(t, p, at, f);
      }
      r := FindAncestor(t, p, matching);
    }
    if Nested(t) {
      AncestorsOnly(t, p, matching, r);
      forall q: Path | r.None? && (p <= q || q <= p) ensures !Matches(t, at, f, q) {
        assert !matching(q);
      }
    } else {
      AncestorOrNone(t, p, f, matching, r);
    }
  }

  /** An ancestor found by either predicate satisfies the plain one. */
  lemma AncestorOrNone(t: Tree, p: Path, f: Path -> bool, matching: Path -> bool, r: Option<Path>)
    requires IsNode(t, p) && (forall q :: matching(q) ==> f(q))
    requires NearestAncestor(t, p, f, r) || NearestAncestor(t, p, matching, r)
    ensures r.Some? ==> f(r.value) && r.value <= p
  {
  }
}
