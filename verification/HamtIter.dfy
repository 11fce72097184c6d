/** Iteration over the pairs of a trie, and what is built on it. */
module HamtIters {
  import opened Hamt
  import opened HamtBitmap
  import opened HamtMap
  import opened HamtNode
  import opened Wrappers

  type Pairs = seq<(Key, Value)>

  /** The pairs below a node, in the order of the iteration. */
  function PairsOf(children: seq<Entry>): Pairs {
    if children == [] then [] else EntryPairs(children[0]) + PairsOf(children[1..])
  }

  function EntryPairs(e: Entry): Pairs {
    match e
    case Leaf(_, k, v) => [(k, v)]
    case LeafMany(_, pairs) => pairs
    case SubNode(node) => PairsOf(node.children)
  }

  // ---- The pairs are the map ----

  lemma {:induction false} PairsOfContains(children: seq<Entry>, p: (Key, Value))
    ensures p in PairsOf(children) <==> exists j :: 0 <= j < |children| && p in EntryPairs(children[j])
  {
    if children != [] {
      PairsOfContains(children[1..], p);
      if p in PairsOf(children[1..]) {
        var j :| 0 <= j < |children[1..]| && p in EntryPairs(children[1..][j]);
        assert p in EntryPairs(children[j + 1]);
      }
      if j :| 0 <= j < |children| && p in EntryPairs(children[j]) {
        assert j > 0 ==> children[j] == children[1..][j - 1];
      }
    }
  }

  ghost predicate Reaches(hashOf: Hasher, path: seq<nat>, x: Key) {
    Path(hashOf(x), |path|) == path
  }

  /** A pair is below a node exactly if a lookup of its key that comes to the node finds its value. */
  lemma {:induction false} PairsAreFound(hashOf: Hasher, node: Node, path: seq<nat>, x: Key, v: Value)
    requires Sound(hashOf, node, path)
    ensures (x, v) in PairsOf(node.children) <==>
            Reaches(hashOf, path, x) && LookupRec(node, hashOf(x), |path|, x) == Some(v)
    decreases LAST + 1 - |path|, 1
  {
    SoundChildren(hashOf, node, path);
    PairsOfContains(node.children, (x, v));
    if (x, v) in PairsOf(node.children) {
      var j :| 0 <= j < |node.children| && (x, v) in EntryPairs(node.children[j]);
      var i := MemberAt(node.bitmap, FANOUT, j);
      assert ChildAt(node, i) == Some(node.children[j]);
      EntryPairsAreFound(hashOf, node.children[j], path + [i], x, v);
      ReachesNext(hashOf, path, i, x);
      LookupIsEntryLookup(node, hashOf(x), |path|, x);
    } else if Reaches(hashOf, path, x) && node.bitmap.Has(LevelIndex(hashOf(x), |path|)) {
      var i := LevelIndex(hashOf(x), |path|);
      ChildOnPath(hashOf, node, hashOf(x), |path|);
      LookupIsEntryLookup(node, hashOf(x), |path|, x);
      ReachesNext(hashOf, path, i, x);
      EntryPairsAreFound(hashOf, node.children[node.bitmap.Rank(i)], path + [i], x, v);
    } else if Reaches(hashOf, path, x) {
      ChildOnPath(hashOf, node, hashOf(x), |path|);
      LookupIsEntryLookup(node, hashOf(x), |path|, x);
    }
  }

  lemma ReachesNext(hashOf: Hasher, path: seq<nat>, i: nat, x: Key)
    ensures Reaches(hashOf, path + [i], x) <==> Reaches(hashOf, path, x) && LevelIndex(hashOf(x), |path|) == i
  {
    var next := Path(hashOf(x), |path| + 1);
    assert next == Path(hashOf(x), |path|) + [LevelIndex(hashOf(x), |path|)];
    if next == path + [i] {
      assert next[..|path|] == path && next[|path|] == i;
    }
  }

  lemma {:induction false} EntryPairsAreFound(hashOf: Hasher, e: Entry, path: seq<nat>, x: Key, v: Value)
    requires EntrySound(hashOf, e, path)
    ensures (x, v) in EntryPairs(e) <==> Reaches(hashOf, path, x) && EntryLookup(e, hashOf(x), |path|, x) == Some(v)
    decreases LAST + 1 - |path|, 2
  {
    match e
    case Leaf(_, _, _) =>
    case LeafMany(_, pairs) =>
      if (x, v) in pairs {
        var j :| 0 <= j < |pairs| && pairs[j] == (x, v);
        FindPosition(pairs, x, j);
      }
    case SubNode(node) => PairsAreFound(hashOf, node, path, x, v);
  }

  /** Different children have different keys. */
  lemma ChildrenDiffer(hashOf: Hasher, node: Node, path: seq<nat>, a: nat, b: nat, p: (Key, Value), q: (Key, Value))
    requires Sound(hashOf, node, path) && a < b < |node.children|
    requires p in EntryPairs(node.children[a]) && q in EntryPairs(node.children[b])
    ensures p.0 != q.0
  {
    var i := MemberAt(node.bitmap, FANOUT, a);
    var j := MemberAt(node.bitmap, FANOUT, b);
    EntryPairsAreFound(hashOf, node.children[a], path + [i], p.0, p.1);
    EntryPairsAreFound(hashOf, node.children[b], path + [j], q.0, q.1);
    ReachesNext(hashOf, path, i, p.0);
    ReachesNext(hashOf, path, j, q.0);
  }

  lemma DistinctConcat(a: Pairs, b: Pairs)
    requires DistinctKeys(a) && DistinctKeys(b)
    requires forall p, q :: p in a && q in b ==> p.0 != q.0
    ensures DistinctKeys(a + b)
  {
    forall i, j | 0 <= i < j < |a + b| ensures (a + b)[i].0 != (a + b)[j].0 {
      if i < |a| <= j {
        assert a[i] in a && b[j - |a|] in b;
      }
    }
  }

  lemma {:induction false} ChildrenDistinct(children: seq<Entry>)
    requires forall j :: 0 <= j < |children| ==> DistinctKeys(EntryPairs(children[j]))
    requires forall a, b, p, q :: 0 <= a < b < |children| && p in EntryPairs(children[a]) && q in EntryPairs(children[b]) ==> p.0 != q.0
    ensures DistinctKeys(PairsOf(children))
  {
    if children != [] {
      var rest := children[1..];
      ChildrenDistinct(rest);
      forall p, q | p in EntryPairs(children[0]) && q in PairsOf(rest) ensures p.0 != q.0 {
        PairsOfContains(rest, q);
        var j :| 0 <= j < |rest| && q in EntryPairs(rest[j]);
        assert rest[j] == children[j + 1];
      }
      DistinctConcat(EntryPairs(children[0]), PairsOf(rest));
    }
  }

  /** No key is listed twice. */
  lemma {:induction false} PairsAreDistinct(hashOf: Hasher, node: Node, path: seq<nat>)
    requires Sound(hashOf, node, path)
    ensures DistinctKeys(PairsOf(node.children))
    decreases LAST + 1 - |path|
  {
    SoundChildren(hashOf, node, path);
    forall j | 0 <= j < |node.children| ensures DistinctKeys(EntryPairs(node.children[j])) {
      var i := MemberAt(node.bitmap, FANOUT, j);
      assert ChildAt(node, i) == Some(node.children[j]);
      if node.children[j].SubNode? {
        PairsAreDistinct(hashOf, node.children[j].node, path + [i]);
      }
    }
    forall a, b, p, q | 0 <= a < b < |node.children| && p in EntryPairs(node.children[a]) && q in EntryPairs(node.children[b])
      ensures p.0 != q.0
    {
      ChildrenDiffer(hashOf, node, path, a, b, p, q);
    }
    ChildrenDistinct(node.children);
  }

  /** A list of pairs that has each pair of the map once. */
  ghost predicate Lists(pairs: Pairs, m: map<Key, Value>) {
    && DistinctKeys(pairs)
    && forall k, v :: (k, v) in pairs <==> k in m && m[k] == v
  }

  /** The pairs of a trie are those of its map, each once. */
  lemma PairsAreTheMap(hashOf: Hasher, root: Node, m: map<Key, Value>)
    requires Represents(hashOf, root, m)
    ensures Lists(PairsOf(root.children), m)
  {
    PairsAreDistinct(hashOf, root, []);
    forall k, v ensures (k, v) in PairsOf(root.children) <==> k in m && m[k] == v {
      PairsAreFound(hashOf, root, [], k, v);
    }
  }

  lemma ListsRest(pairs: Pairs, m: map<Key, Value>)
    requires Lists(pairs, m) && pairs != []
    ensures pairs[0].0 in m && m[pairs[0].0] == pairs[0].1 && Lists(pairs[1..], m - {pairs[0].0})
  {
    var (k, v) := pairs[0];
    assert (k, v) in pairs && pairs == [pairs[0]] + pairs[1..];
    forall x, y ensures (x, y) in pairs[1..] <==> x in m - {k} && (m - {k})[x] == y {
      if (x, y) in pairs[1..] {
        var j :| 0 <= j < |pairs[1..]| && pairs[1..][j] == (x, y);
        assert pairs[j + 1] == (x, y);
      }
    }
  }

  lemma EmptyLists(pairs: Pairs, m: map<Key, Value>)
    requires Lists(pairs, m)
    ensures pairs == [] <==> m == map[]
  {
    if m != map[] {
      var k :| k in m;
      assert (k, m[k]) in pairs;
    }
    if pairs != [] {
      assert (pairs[0].0, pairs[0].1) in pairs;
    }
  }

  lemma {:induction false} ListsCount(pairs: Pairs, m: map<Key, Value>)
    requires Lists(pairs, m)
    ensures |pairs| == |m|
    decreases |pairs|
  {
    EmptyLists(pairs, m);
    if pairs != [] {
      ListsRest(pairs, m);
      ListsCount(pairs[1..], m - {pairs[0].0});
    }
  }

  /** A node with a child has a pair below it. */
  lemma {:induction false} NonEmptyHasPair(hashOf: Hasher, node: Node, path: seq<nat>)
    requires Sound(hashOf, node, path)
    ensures node.IsEmpty() <==> PairsOf(node.children) == []
    decreases LAST + 1 - |path|
  {
    if node.IsEmpty() {
      EmptyRank(node.bitmap, FANOUT);
    } else {
      EmptyHasNone(node.bitmap);
      var b: nat :| b < FANOUT && node.bitmap.Has(b);
      Position(node, b);
      var i := MemberAt(node.bitmap, FANOUT, 0);
      SoundChildren(hashOf, node, path);
      assert ChildAt(node, i) == Some(node.children[0]);
      if node.children[0].SubNode? {
        NonEmptyHasPair(hashOf, node.children[0].node, path + [i]);
      }
    }
  }

  /** Counts the pairs below a node. */
  method SizeRec(node: Node) returns (sum: nat)
    ensures sum == |PairsOf(node.children)|
    decreases node
  {
    sum := 0;
    assert node.children[0..] == node.children;
    for i := 0 to |node.children|
      invariant sum + |PairsOf(node.children[i..])| == |PairsOf(node.children)|
    {
      assert node.children[i..][1..] == node.children[i + 1..];
      match node.children[i] {
        case Leaf(_, _, _) => sum := sum + 1;
        case LeafMany(_, pairs) => sum := sum + |pairs|;
        case SubNode(sub) =>
          var n := SizeRec(sub);
          sum := sum + n;
      }
    }
  }

  /** The size of a trie is that of its map. */
  method Size(hashOf: Hasher, root: Node, ghost m: map<Key, Value>) returns (n: nat)
    requires Represents(hashOf, root, m)
    ensures n == |m|
  {
    n := SizeRec(root);
    PairsAreTheMap(hashOf, root, m);
    ListsCount(PairsOf(root.children), m);
  }

  // ---- The iterator ----

  /** The children still to be visited of the nodes on the way, innermost last. */
  type Stack = seq<seq<Entry>>

  function StackPairs(stack: Stack): Pairs {
    if stack == [] then [] else PairsOf(stack[|stack| - 1]) + StackPairs(stack[..|stack| - 1])
  }

  /** How many steps it takes at most to visit all of them. */
  function Work(children: seq<Entry>): nat {
    if children == [] then 1 else EntryWork(children[0]) + Work(children[1..])
  }

  function EntryWork(e: Entry): nat {
    match e
    case Leaf(_, _, _) => 1
    case LeafMany(_, _) => 2
    case SubNode(node) => 1 + Work(node.children)
  }

  function StackWork(stack: Stack): nat {
    if stack == [] then 0 else Work(stack[|stack| - 1]) + StackWork(stack[..|stack| - 1])
  }

  lemma Pushed(stack: Stack, children: seq<Entry>)
    ensures StackPairs(stack + [children]) == PairsOf(children) + StackPairs(stack)
    ensures StackWork(stack + [children]) == Work(children) + StackWork(stack)
  {
    assert (stack + [children])[..|stack|] == stack;
  }

  /** The next child of the innermost node comes first. */
  lemma FirstChild(below: Stack, last: seq<Entry>)
    requires last != []
    ensures StackPairs(below + [last]) == EntryPairs(last[0]) + StackPairs(below + [last[1..]])
    ensures StackWork(below + [last]) == EntryWork(last[0]) + StackWork(below + [last[1..]])
  {
    Pushed(below, last);
    Pushed(below, last[1..]);
    assert EntryPairs(last[0]) + PairsOf(last[1..]) + StackPairs(below)
        == EntryPairs(last[0]) + (PairsOf(last[1..]) + StackPairs(below));
  }

  class HamtIter {
    var stack: Stack
    var content: Option<Pairs>

    /** What the iteration still has to yield. */
    function Left(): Pairs
      reads this
    {
      (if content.Some? then content.value else []) + StackPairs(stack)
    }

    function Steps(): nat
      reads this
    {
      StackWork(stack) + if content.Some? then 1 else 0
    }

    constructor (root: Node)
      ensures Left() == PairsOf(root.children)
    {
      stack, content := [root.children], None;
      new;
      Pushed([], root.children);
      assert [] + [root.children] == [root.children];
    }

    /** Yields the first pair left, or nothing if none is left. */
    method Next() returns (r: Option<(Key, Value)>)
      modifies this
      ensures old(Left()) == (if r.Some? then [r.value] else []) + Left()
      ensures r.None? ==> Left() == []
    {
      r := None;
      while r.None?
        invariant old(Left()) == (if r.Some? then [r.value] else []) + Left()
        decreases r.None?, Steps()
      {
        match content {
          case Some(pairs) =>
            if pairs == [] {
              content := None;
            } else {
              r, content := Some(pairs[0]), Some(pairs[1..]);
              assert pairs == [pairs[0]] + pairs[1..];
            }
          case None =>
            if stack == [] {
              break;
            }
            r := Visit();
        }
      }
    }

    /** Takes the next child of the innermost node, or leaves the node. */
    method Visit() returns (r: Option<(Key, Value)>)
      requires content.None? && stack != []
      modifies this
      ensures old(Left()) == (if r.Some? then [r.value] else []) + Left()
      ensures r.None? ==> Steps() < old(Steps())
    {
      var n := |stack| - 1;
      var last, below := stack[n], stack[..n];
      assert stack == below + [last];
      r := None;
      if last == [] {
        stack := below;
      } else {
        FirstChild(below, last);
        stack := below + [last[1..]];
        match last[0] {
          case Leaf(_, k, v) => r := Some((k, v));
          case LeafMany(_, pairs) => content := Some(pairs);
          case SubNode(node) =>
            Pushed(stack, node.children);
            stack := stack + [node.children];
        }
      }
    }
  }

  // ---- Equality ----

  /** Compares only in one direction. */
  method Equal(hashOf: Hasher, a: Node, b: Node) returns (r: bool)
    requires Shaped(a, []) && Shaped(b, [])
    ensures r <==> OneSided(hashOf, a, b)
  {
    if a.IsEmpty() && b.IsEmpty() {
      EmptyRank(a.bitmap, FANOUT);
      return true;
    }
    if a.IsEmpty() != b.IsEmpty() {
      return false;
    }
    r := AllIn(hashOf, a, b);
  }

  /** The loop of the comparison. */
  method AllIn(hashOf: Hasher, a: Node, b: Node) returns (r: bool)
    requires Shaped(b, [])
    ensures r <==> AllFound(hashOf, PairsOf(a.children), b)
  {
    var pairs := new HamtIter(a);
    var next := pairs.Next();
    while next.Some?
      invariant AllFound(hashOf, PairsOf(a.children), b) <==>
                AllFound(hashOf, (if next.Some? then [next.value] else []) + pairs.Left(), b)
      invariant next.None? ==> pairs.Left() == []
      decreases next.Some?, |pairs.Left()|
    {
      var (k, v) := next.value;
      FoundFirst(hashOf, (k, v), pairs.Left(), b);
      var found := Lookup(hashOf, b, k);
      if found != Some(v) {
        return false;
      }
      next := pairs.Next();
    }
    return true;
  }

  lemma FoundFirst(hashOf: Hasher, p: (Key, Value), rest: Pairs, b: Node)
    requires Shaped(b, [])
    ensures AllFound(hashOf, [p] + rest, b) <==> LookupRec(b, hashOf(p.0), 0, p.0) == Some(p.1) && AllFound(hashOf, rest, b)
  {
    assert forall q :: q in [p] + rest <==> q == p || q in rest;
  }

  ghost predicate OneSided(hashOf: Hasher, a: Node, b: Node)
    requires Shaped(a, []) && Shaped(b, [])
  {
    (a.IsEmpty() <==> b.IsEmpty()) && AllFound(hashOf, PairsOf(a.children), b)
  }

  ghost predicate AllFound(hashOf: Hasher, pairs: Pairs, b: Node)
    requires Shaped(b, [])
  {
    forall p :: p in pairs ==> LookupRec(b, hashOf(p.0), 0, p.0) == Some(p.1)
  }

  ghost predicate Submap(m: map<Key, Value>, n: map<Key, Value>) {
    forall k :: k in m ==> k in n && n[k] == m[k]
  }

  /** Two tries compare equal exactly if the first map is part of the second and not just by being
      empty. So the comparison is equality exactly unless the first map is a proper part of the
      second that is not empty. */
  lemma EqualWhen(hashOf: Hasher, a: Node, b: Node, m: map<Key, Value>, n: map<Key, Value>)
    requires Represents(hashOf, a, m) && Represents(hashOf, b, n)
    ensures OneSided(hashOf, a, b) <==> Submap(m, n) && (m == map[] ==> n == map[])
    ensures (OneSided(hashOf, a, b) <==> m == n) <==> !(Submap(m, n) && m != n && m != map[])
  {
    PairsAreTheMap(hashOf, a, m);
    PairsAreTheMap(hashOf, b, n);
    NonEmptyHasPair(hashOf, a, []);
    NonEmptyHasPair(hashOf, b, []);
    EmptyLists(PairsOf(a.children), m);
    EmptyLists(PairsOf(b.children), n);
    assert AllFound(hashOf, PairsOf(a.children), b) <==> Submap(m, n) by {
      if Submap(m, n) {
        forall p | p in PairsOf(a.children) ensures LookupRec(b, hashOf(p.0), 0, p.0) == Some(p.1) {
          assert (p.0, p.1) in PairsOf(a.children);
        }
      }
      if AllFound(hashOf, PairsOf(a.children), b) {
        forall k | k in m ensures k in n && n[k] == m[k] {
          assert (k, m[k]) in PairsOf(a.children);
          assert LookupRec(b, hashOf(k), 0, k) == Get(n, k);
        }
      }
    }
  }

  // ---- Collecting pairs ----

  /** The first pair of each key. */
  function FirstWins(pairs: Pairs): map<Key, Value> {
    if pairs == [] then map[] else
      var (n, last) := (|pairs| - 1, pairs[|pairs| - 1]);
      var m := FirstWins(pairs[..n]);
      if last.0 in m then m else m[last.0 := last.1]
  }

  ghost predicate SharedHash(hashOf: Hasher, pairs: Pairs) {
    exists i, j ::
      && 0 <= i < |pairs| && 0 <= j < |pairs|
      && pairs[i].0 != pairs[j].0 && hashOf(pairs[i].0) == hashOf(pairs[j].0)
  }

  lemma {:induction false} FirstWinsKeys(pairs: Pairs, k: Key) returns (i: nat)
    requires k in FirstWins(pairs)
    ensures i < |pairs| && pairs[i].0 == k
    decreases |pairs|
  {
    var n := |pairs| - 1;
    if k in FirstWins(pairs[..n]) {
      i := FirstWinsKeys(pairs[..n], k);
    } else {
      i := n;
    }
  }

  /** The first pair of each key is kept. */
  lemma {:induction false} FirstWinsAt(pairs: Pairs, k: Key)
    ensures match Find(pairs, k)
            case Some(i) => k in FirstWins(pairs) && FirstWins(pairs)[k] == pairs[i].1 && forall j :: 0 <= j < i ==> pairs[j].0 != k
            case None => k !in FirstWins(pairs)
    decreases |pairs|
  {
    if pairs != [] {
      var n := |pairs| - 1;
      FirstWinsAt(pairs[..n], k);
      FindFront(pairs, k);
    }
  }

  lemma {:induction false} FindFront(pairs: Pairs, k: Key)
    requires pairs != []
    ensures var n := |pairs| - 1;
            && Find(pairs, k) == (if Find(pairs[..n], k).Some? then Find(pairs[..n], k)
                                  else if pairs[n].0 == k then Some(n) else None)
            && (Find(pairs, k).Some? ==> forall j :: 0 <= j < Find(pairs, k).value ==> pairs[j].0 != k)
    decreases |pairs|
  {
    var n := |pairs| - 1;
    if n > 0 {
      FindFront(pairs[1..], k);
      assert pairs[1..][..n - 1] == pairs[..n][1..];
      assert forall j :: 0 < j < |pairs| ==> pairs[j] == pairs[1..][j - 1];
    }
  }

  /** Failed insertions are ignored. Any other failure needs two keys of the list with the same hash. */
  method FromPairs(hashOf: Hasher, pairs: Pairs) returns (r: Result<Node, Failure>)
    ensures match r
            case Ok(root) => Represents(hashOf, root, FirstWins(pairs))
            case Err(e) => e == Panicked && SharedHash(hashOf, pairs)
  {
    EmptyRepresents(hashOf);
    var root := EMPTY;
    for i := 0 to |pairs|
      invariant Represents(hashOf, root, FirstWins(pairs[..i]))
    {
      var (k, v) := pairs[i];
      assert pairs[..i + 1][..i] == pairs[..i];
      InsertAgrees(hashOf, root, FirstWins(pairs[..i]), k, v);
      var inserted := Insert(hashOf, root, k, v);
      match inserted {
        case Ok(root') => root := root';
        case Err(Panicked) =>
          ghost var a, b := BlockedNeedsCollision(hashOf, root, hashOf(k), 0);
          ghost var x := FirstWinsKeys(pairs[..i], a);
          ghost var y := FirstWinsKeys(pairs[..i], b);
          assert pairs[x].0 == a && pairs[y].0 == b;
          return Err(Panicked);
        case Err(_) =>
      }
    }
    assert pairs[..|pairs|] == pairs;
    r := Ok(root);
  }
}
