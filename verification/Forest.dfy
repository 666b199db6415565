/**
 * Depth-first traversal of a forest without recursion (the Item::Next of
 * src/blockindex_with_descendants.h), against the recursive pre-order.
 */
module Forest {
  /** Nodes 0..|par|-1; par[i] is -1 for a root; levels grow from parent to child. */
  datatype Forest = Forest(par: seq<int>, kids: seq<seq<nat>>, level: seq<nat>, top: nat)

  /** The nodes below n with parent p, in ascending order. */
  function KidsOf(par: seq<int>, p: int, n: nat): (ks: seq<nat>)
    requires n <= |par|
  {
    if n == 0 then [] else KidsOf(par, p, n - 1) + (if par[n - 1] == p then [n - 1] else [])
  }

  ghost predicate Wf(f: Forest) {
    && |f.kids| == |f.par| == |f.level|
    && (forall i :: 0 <= i < |f.par| ==> f.level[i] <= f.top)
    && (forall i :: 0 <= i < |f.par| && f.par[i] != -1 ==>
          0 <= f.par[i] < |f.par| && f.level[f.par[i]] < f.level[i])
    && (forall p :: 0 <= p < |f.par| ==> f.kids[p] == KidsOf(f.par, p, |f.par|))
  }

  ghost predicate Node(f: Forest, x: int) {
    0 <= x < |f.par|
  }

  ghost predicate Ascending(ks: seq<nat>) {
    forall i, j :: 0 <= i < j < |ks| ==> ks[i] < ks[j]
  }

  lemma {:induction false} KidsMembers(par: seq<int>, p: int, n: nat)
    requires n <= |par|
    ensures forall i :: i in KidsOf(par, p, n) <==> 0 <= i < n && par[i] == p
  {
    if n > 0 {
      KidsMembers(par, p, n - 1);
    }
  }

  lemma {:induction false} KidsAscend(par: seq<int>, p: int, n: nat)
    requires n <= |par|
    ensures Ascending(KidsOf(par, p, n))
  {
    if n > 0 {
      KidsAscend(par, p, n - 1);
      KidsMembers(par, p, n - 1);
      var ks := KidsOf(par, p, n - 1);
      assert forall i :: 0 <= i < |ks| ==> ks[i] in ks;
    }
  }

  /** Children of x are exactly the nodes whose parent is x, each once. */
  lemma Kids(f: Forest, x: nat)
    requires Wf(f) && Node(f, x)
    ensures forall k :: k in f.kids[x] <==> Node(f, k) && f.par[k] == x
    ensures forall k :: k in f.kids[x] ==> Node(f, k) && f.level[k] > f.level[x]
    ensures Ascending(f.kids[x])
  {
    KidsMembers(f.par, x, |f.par|);
    KidsAscend(f.par, x, |f.par|);
  }

  // ---------------------------------------------------------------------------
  // The reference: recursive pre-order
  // ---------------------------------------------------------------------------

  ghost function Pre(f: Forest, x: nat): (s: seq<nat>)
    requires Wf(f) && Node(f, x)
    ensures |s| >= 1 && s[0] == x
    decreases f.top - f.level[x], 1, 0
  {
    Kids(f, x);
    [x] + PreAll(f, f.kids[x], f.level[x])
  }

  ghost function PreAll(f: Forest, list: seq<nat>, base: nat): seq<nat>
    requires Wf(f) && forall k :: k in list ==> Node(f, k) && f.level[k] > base
    decreases f.top - base, 0, |list|
  {
    if list == [] then [] else Pre(f, list[0]) + PreAll(f, list[1..], base)
  }

  // ---------------------------------------------------------------------------
  // The walk
  // ---------------------------------------------------------------------------

  function Position(ks: seq<nat>, x: nat): (j: nat)
    requires x in ks
    ensures j < |ks| && ks[j] == x && forall i :: 0 <= i < j ==> ks[i] != x
  {
    if ks[0] == x then 0 else 1 + Position(ks[1..], x)
  }

  /** The node after the whole subtree of x, or -1. */
  ghost function Climb(f: Forest, x: nat): (y: int)
    requires Wf(f) && Node(f, x)
    ensures y == -1 || Node(f, y)
    decreases f.level[x]
  {
    if f.par[x] == -1 then -1
    else
      Kids(f, f.par[x]);
      var ks := f.kids[f.par[x]];
      var j := Position(ks, x);
      if j + 1 < |ks| then assert ks[j + 1] in ks; ks[j + 1] else Climb(f, f.par[x])
  }

  ghost function Next(f: Forest, x: nat): (y: int)
    requires Wf(f) && Node(f, x)
    ensures y == -1 || Node(f, y)
  {
    if f.kids[x] != [] then Kids(f, x); assert f.kids[x][0] in f.kids[x]; f.kids[x][0] else Climb(f, x)
  }

  /** Following Next from s[0] lists s and then gives `end`. */
  ghost predicate Path(f: Forest, s: seq<nat>, end: int)
    requires Wf(f)
  {
    && (forall i :: 0 <= i < |s| ==> Node(f, s[i]))
    && (forall i :: 0 <= i < |s| - 1 ==> Next(f, s[i]) == s[i + 1])
    && (|s| > 0 ==> Next(f, s[|s| - 1]) == end)
  }

  lemma PathJoin(f: Forest, s: seq<nat>, t: seq<nat>, end: int)
    requires Wf(f) && |t| > 0 && Path(f, s, t[0]) && Path(f, t, end)
    ensures Path(f, s + t, end)
  {
    hide Wf, Next;
  }

  /** Walking from x lists the pre-order of its subtree and leaves to the node after it. */
  lemma {:induction false} SubtreeWalk(f: Forest, x: nat)
    requires Wf(f) && Node(f, x)
    ensures Path(f, Pre(f, x), Climb(f, x))
    decreases f.top - f.level[x], 1, 0
  {
    Kids(f, x);
    if f.kids[x] != [] {
      KidsWalk(f, x, 0);
      assert f.kids[x][0..] == f.kids[x];
      PathJoin(f, [x], PreAll(f, f.kids[x], f.level[x]), Climb(f, x));
    }
  }

  lemma {:induction false} KidsWalk(f: Forest, x: nat, j: nat)
    requires Wf(f) && Node(f, x) && j < |f.kids[x]|
    requires forall k :: k in f.kids[x] ==> Node(f, k) && f.level[k] > f.level[x]
    ensures var s := PreAll(f, f.kids[x][j..], f.level[x]);
            |s| > 0 && s[0] == f.kids[x][j] && Path(f, s, Climb(f, x))
    decreases f.top - f.level[x], 0, |f.kids[x]| - j
  {
    var ks := f.kids[x];
    var k := ks[j];
    assert k in ks;
    SubtreeWalk(f, k);
    ClimbFrom(f, x, j);
    assert ks[j..][0] == k && ks[j..][1..] == ks[j + 1..];
    if j + 1 < |ks| {
      KidsWalk(f, x, j + 1);
      PathJoin(f, Pre(f, k), PreAll(f, ks[j + 1..], f.level[x]), Climb(f, x));
    } else {
      assert Pre(f, k) + [] == Pre(f, k);
    }
  }

  lemma ClimbFrom(f: Forest, x: nat, j: nat)
    requires Wf(f) && Node(f, x) && j < |f.kids[x]|
    ensures Node(f, f.kids[x][j])
    ensures Climb(f, f.kids[x][j]) == if j + 1 < |f.kids[x]| then f.kids[x][j + 1] else Climb(f, x)
  {
    Kids(f, x);
    var k := f.kids[x][j];
    assert k in f.kids[x];
    var i := Position(f.kids[x], k);
    assert i == j;
  }

  // ---------------------------------------------------------------------------
  // What the pre-order contains
  // ---------------------------------------------------------------------------

  /** y is x or has x among its ancestors. */
  ghost predicate Under(f: Forest, y: int, x: nat)
    requires Wf(f) && Node(f, y)
    decreases f.level[y]
  {
    y == x || (f.par[y] != -1 && Under(f, f.par[y], x))
  }

  lemma {:induction false} UnderLevel(f: Forest, y: nat, x: nat)
    requires Wf(f) && Node(f, y) && Under(f, y, x)
    ensures Node(f, x) && (y == x || f.level[x] < f.level[y])
    decreases f.level[y]
  {
    if y != x {
      UnderLevel(f, f.par[y], x);
    }
  }

  /** Two different children of one parent have no descendant in common. */
  lemma {:induction false} SiblingsApart(f: Forest, y: nat, a: nat, b: nat)
    requires Wf(f) && Node(f, y) && Node(f, a) && Node(f, b) && f.par[a] == f.par[b] != -1
    requires Under(f, y, a) && Under(f, y, b)
    ensures a == b
    decreases f.level[y]
  {
    if y == a || y == b {
      if a != b {
        var u, v := if y == a then a else b, if y == a then b else a;
        UnderLevel(f, f.par[u], v);
      }
    } else {
      SiblingsApart(f, f.par[y], a, b);
    }
  }

  /** Below x, or x itself: under exactly one child of x, or x. */
  lemma {:induction false} UnderChild(f: Forest, y: nat, x: nat) returns (k: nat)
    requires Wf(f) && Node(f, y) && Node(f, x) && Under(f, y, x) && y != x
    ensures k in f.kids[x] && Node(f, k) && Under(f, y, k)
    decreases f.level[y]
  {
    Kids(f, x);
    if f.par[y] == x {
      k := y;
    } else {
      k := UnderChild(f, f.par[y], x);
    }
  }

  lemma {:induction false} UnderTrans(f: Forest, y: nat, k: nat, x: nat)
    requires Wf(f) && Node(f, y) && Node(f, k) && Under(f, y, k) && Under(f, k, x)
    ensures Under(f, y, x)
    decreases f.level[y]
  {
    if y != k {
      UnderTrans(f, f.par[y], k, x);
    }
  }

  ghost predicate Distinct(s: seq<nat>) {
    forall i, j :: 0 <= i < j < |s| ==> s[i] != s[j]
  }

  ghost predicate Earlier(s: seq<nat>, i: nat, v: int) {
    exists j :: 0 <= j < i && j < |s| && s[j] == v
  }

  /** The parent of every entry but `x` stands earlier. */
  ghost predicate ParentsFirst(f: Forest, s: seq<nat>, x: nat) {
    forall i :: 0 <= i < |s| && s[i] != x && Node(f, s[i]) ==> Earlier(s, i, f.par[s[i]])
  }

  /** Every entry that is not a child of `x` stands after its parent. */
  ghost predicate OthersFollow(f: Forest, s: seq<nat>, x: nat) {
    forall i :: 0 <= i < |s| && Node(f, s[i]) && f.par[s[i]] != x ==> Earlier(s, i, f.par[s[i]])
  }

  /** The pre-order of x holds exactly the nodes under x, each once. */
  lemma {:induction false} PreExact(f: Forest, x: nat)
    requires Wf(f) && Node(f, x)
    ensures forall y :: y in Pre(f, x) <==> Node(f, y) && Under(f, y, x)
    ensures Distinct(Pre(f, x))
    decreases f.top - f.level[x], 1, 0
  {
    Kids(f, x);
    var rest := PreAll(f, f.kids[x], f.level[x]);
    AllExact(f, x, 0);
    assert f.kids[x][0..] == f.kids[x];
    forall y ensures y in Pre(f, x) <==> Node(f, y) && Under(f, y, x) {
      if Node(f, y) && Under(f, y, x) && y != x {
        var k := UnderChild(f, y, x);
        assert UnderSome(f, y, f.kids[x]);
      }
      if y in rest {
        var k :| k in f.kids[x] && Under(f, y, k);
        UnderTrans(f, y, k, x);
        UnderLevel(f, y, k);
      }
    }
    if x in rest {
      var k :| k in f.kids[x] && Under(f, x, k);
      UnderLevel(f, x, k);
      assert false;
    }
    DistinctJoin([x], rest);
  }

  ghost predicate UnderSome(f: Forest, y: int, list: seq<nat>)
    requires Wf(f) && Node(f, y)
  {
    exists k :: k in list && Under(f, y, k)
  }

  lemma DistinctJoin(s: seq<nat>, t: seq<nat>)
    requires Distinct(s) && Distinct(t) && forall y :: y in s ==> y !in t
    ensures Distinct(s + t)
  {
    var u := s + t;
    forall i, j | 0 <= i < j < |u| ensures u[i] != u[j] {
      if i < |s| && j >= |s| {
        assert u[i] in s && u[j] in t;
      }
    }
  }

  lemma {:induction false} AllExact(f: Forest, x: nat, j: nat)
    requires Wf(f) && Node(f, x) && j <= |f.kids[x]|
    requires forall k :: k in f.kids[x] ==> Node(f, k) && f.level[k] > f.level[x]
    ensures var s := PreAll(f, f.kids[x][j..], f.level[x]);
            && (forall y :: y in s <==> Node(f, y) && UnderSome(f, y, f.kids[x][j..]))
            && Distinct(s)
    decreases f.top - f.level[x], 0, |f.kids[x]| - j
  {
    var ks := f.kids[x];
    if j < |ks| {
      var k := ks[j];
      assert k in ks;
      PreExact(f, k);
      AllExact(f, x, j + 1);
      assert ks[j..][0] == k && ks[j..][1..] == ks[j + 1..];
      var s := PreAll(f, ks[j + 1..], f.level[x]);
      forall y ensures y in Pre(f, k) + s <==> Node(f, y) && UnderSome(f, y, ks[j..]) {
        SplitFirst(f, y, ks[j..]);
      }
      forall y | y in Pre(f, k) ensures y !in s {
        if y in s {
          Kids(f, x);
          var k' :| k' in ks[j + 1..] && Under(f, y, k');
          SiblingsApart(f, y, k, k');
          assert false;
        }
      }
      DistinctJoin(Pre(f, k), s);
    }
  }

  lemma SplitFirst(f: Forest, y: int, list: seq<nat>)
    requires Wf(f) && |list| > 0
    ensures Node(f, y) ==> (UnderSome(f, y, list) <==> Under(f, y, list[0]) || UnderSome(f, y, list[1..]))
  {
    assert forall k :: k in list <==> k == list[0] || k in list[1..];
  }

  /** Parents come before their children. */
  lemma {:induction false} PreOrder(f: Forest, x: nat)
    requires Wf(f) && Node(f, x)
    ensures ParentsFirst(f, Pre(f, x), x)
    decreases f.top - f.level[x], 1, 0
  {
    Kids(f, x);
    AllOrder(f, x, 0);
    assert f.kids[x][0..] == f.kids[x];
    var s, rest := Pre(f, x), PreAll(f, f.kids[x], f.level[x]);
    forall i | 0 <= i < |s| && s[i] != x && Node(f, s[i]) ensures Earlier(s, i, f.par[s[i]]) {
      if f.par[s[i]] != x {
        assert s[i] == rest[i - 1] && Earlier(rest, i - 1, f.par[rest[i - 1]]);
        EarlierJoin([x], rest, i - 1, f.par[s[i]]);
      } else {
        assert s[0] == x;
      }
    }
  }

  lemma {:induction false} AllOrder(f: Forest, x: nat, j: nat)
    requires Wf(f) && Node(f, x) && j <= |f.kids[x]|
    requires forall k :: k in f.kids[x] ==> Node(f, k) && f.level[k] > f.level[x]
    ensures var s := PreAll(f, f.kids[x][j..], f.level[x]);
            OthersFollow(f, s, x)
    decreases f.top - f.level[x], 0, |f.kids[x]| - j
  {
    var ks := f.kids[x];
    if j < |ks| {
      var k := ks[j];
      assert k in ks;
      Kids(f, x);
      PreOrder(f, k);
      AllOrder(f, x, j + 1);
      assert ks[j..][0] == k && ks[j..][1..] == ks[j + 1..];
      OrderJoin(f, Pre(f, k), PreAll(f, ks[j + 1..], f.level[x]), k, x);
    }
  }

  lemma OrderJoin(f: Forest, a: seq<nat>, b: seq<nat>, k: nat, x: nat)
    requires Node(f, k) && f.par[k] == x && ParentsFirst(f, a, k) && OthersFollow(f, b, x)
    ensures OthersFollow(f, a + b, x)
  {
    hide Earlier;
    var s := a + b;
    forall i | 0 <= i < |s| && Node(f, s[i]) && f.par[s[i]] != x ensures Earlier(s, i, f.par[s[i]]) {
      if i >= |a| {
        assert Node(f, b[i - |a|]) && Earlier(b, i - |a|, f.par[b[i - |a|]]);
        EarlierJoin(a, b, i - |a|, f.par[s[i]]);
      } else {
        assert Earlier(a, i, f.par[a[i]]);
        EarlierPrefix(a, b, i, f.par[s[i]]);
      }
    }
  }

  lemma EarlierJoin(a: seq<nat>, b: seq<nat>, i: nat, v: int)
    requires Earlier(b, i, v)
    ensures Earlier(a + b, i + |a|, v)
  {
    var j :| 0 <= j < i && j < |b| && b[j] == v;
    assert (a + b)[j + |a|] == v;
  }

  lemma EarlierPrefix(a: seq<nat>, b: seq<nat>, i: nat, v: int)
    requires Earlier(a, i, v)
    ensures Earlier(a + b, i, v)
  {
    var j :| 0 <= j < i && j < |a| && a[j] == v;
    assert (a + b)[j] == v;
  }
}
