/** A hash array mapped trie is a finite map, for every hash function. */
module HamtMap {
  import opened HamtBitmap
  import opened HamtNode
  import opened Words
  import opened Wrappers

  type Hasher = Key -> Hash

  // ---- One node as a table of children ----

  /** The child at an index, as the reference for the dense array of children. */
  ghost function ChildAt(node: Node, i: nat): Option<Entry>
    requires node.WellFormed() && i < FANOUT
  {
    Position(node, i);
    if node.bitmap.Has(i) then Some(node.children[node.bitmap.Rank(i)]) else None
  }

  /** `node'` is `node` with another child, or none, at index `i`. */
  ghost predicate Changed(node: Node, node': Node, i: nat, e: Option<Entry>)
    requires node.WellFormed() && i < FANOUT
  {
    && node'.WellFormed()
    && forall j: nat :: j < FANOUT ==> ChildAt(node', j) == if j == i then e else ChildAt(node, j)
  }

  lemma SetAtChanges(node: Node, i: nat, e: Entry)
    requires node.WellFormed() && i < FANOUT && !node.bitmap.Has(i)
    ensures Changed(node, node.SetAt(i, e), i, Some(e)) && !node.SetAt(i, e).IsEmpty()
  {
    var node' := node.SetAt(i, e);
    SetIndexAdds(node.bitmap, i);
    Position(node, i);
    RankWith(node.bitmap, node'.bitmap, i, FANOUT);
    forall j: nat | j < FANOUT ensures ChildAt(node', j) == if j == i then Some(e) else ChildAt(node, j) {
      Position(node, j);
      RankWith(node.bitmap, node'.bitmap, i, j);
      Position(node', j);
      if j < i {
        RankGrows(node.bitmap, j, i);
      } else if i < j {
        RankGrows(node.bitmap, i, j);
      }
    }
  }

  lemma ReplaceAtChanges(node: Node, i: nat, e: Entry)
    requires node.WellFormed() && i < FANOUT && node.bitmap.Has(i)
    ensures node.bitmap.Rank(i) < |node.children|
    ensures Changed(node, node.ReplaceAt(node.bitmap.Rank(i), e), i, Some(e))
    ensures !node.ReplaceAt(node.bitmap.Rank(i), e).IsEmpty()
  {
    Position(node, i);
    var node' := node.ReplaceAt(node.bitmap.Rank(i), e);
    forall j: nat | j < FANOUT ensures ChildAt(node', j) == if j == i then Some(e) else ChildAt(node, j) {
      Position(node, j);
      if j < i {
        RankGrows(node.bitmap, j, i);
      } else if i < j {
        RankGrows(node.bitmap, i, j);
      }
    }
    EmptyHasNone(node.bitmap);
  }

  lemma ClearAtChanges(node: Node, i: nat)
    requires node.WellFormed() && i < FANOUT && node.bitmap.Has(i)
    ensures match node.ClearAt(i)
            case Some(node') => Changed(node, node', i, None) && !node'.IsEmpty()
            case None => forall j: nat :: j < FANOUT && j != i ==> ChildAt(node, j) == None
  {
    ClearIndexRemoves(node.bitmap, i);
    EmptyHasNone(node.bitmap.ClearIndex(i));
    Position(node, i);
    if node.ClearAt(i).Some? {
      ClearedChildren(node, node.ClearAt(i).value, i);
    }
  }

  lemma ClearedChildren(node: Node, node': Node, i: nat)
    requires node.WellFormed() && i < FANOUT && node.bitmap.Has(i) && node.bitmap.Rank(i) < |node.children|
    requires node'.bitmap.Valid() && forall j: nat :: node'.bitmap.Has(j) <==> node.bitmap.Has(j) && j != i
    requires node'.children == node.children[..node.bitmap.Rank(i)] + node.children[node.bitmap.Rank(i) + 1..]
    ensures Changed(node, node', i, None)
  {
    assert !node'.bitmap.Has(i);
    RankWith(node'.bitmap, node.bitmap, i, FANOUT);
    forall j: nat | j < FANOUT ensures ChildAt(node', j) == if j == i then None else ChildAt(node, j) {
      Position(node, j);
      RankWith(node'.bitmap, node.bitmap, i, j);
      Position(node', j);
      if j < i {
        RankGrows(node.bitmap, j, i);
      } else if i < j {
        RankGrows(node.bitmap, i, j);
      }
    }
  }

  lemma SingletonChild(i: nat, e: Entry)
    requires i < FANOUT
    ensures Singleton(i, e).WellFormed() && !Singleton(i, e).IsEmpty()
    ensures forall j: nat :: j < FANOUT ==> ChildAt(Singleton(i, e), j) == if j == i then Some(e) else None
  {
    SingletonRank(i);
    OnceHasOne(i);
  }

  // ---- Sound tries ----

  /** The stored hashes are those of the keys, and the keys of a collision differ. */
  ghost predicate Keyed(hashOf: Hasher, node: Node) {
    && node.WellFormed()
    && forall i: nat :: i < FANOUT && node.bitmap.Has(i) ==>
         node.bitmap.Rank(i) < |node.children| && EntryKeyed(hashOf, node.children[node.bitmap.Rank(i)])
  }

  ghost predicate EntryKeyed(hashOf: Hasher, e: Entry) {
    match e
    case Leaf(h, k, _) => hashOf(k) == h
    case LeafMany(h, pairs) =>
      && (forall j :: 0 <= j < |pairs| ==> hashOf(pairs[j].0) == h)
      && DistinctKeys(pairs)
    case SubNode(node) => Keyed(hashOf, node)
  }

  ghost predicate DistinctKeys(pairs: seq<(Key, Value)>) {
    forall i, j :: 0 <= i < j < |pairs| ==> pairs[i].0 != pairs[j].0
  }

  ghost predicate Sound(hashOf: Hasher, node: Node, path: seq<nat>) {
    Shaped(node, path) && Keyed(hashOf, node)
  }

  ghost predicate EntrySound(hashOf: Hasher, e: Entry, path: seq<nat>) {
    EntryShaped(e, path) && EntryKeyed(hashOf, e)
  }

  /** Soundness in terms of the table of children. */
  lemma SoundChildren(hashOf: Hasher, node: Node, path: seq<nat>)
    ensures Sound(hashOf, node, path) <==>
            && node.WellFormed() && |path| <= LAST
            && forall i: nat :: i < FANOUT && ChildAt(node, i).Some? ==>
                 EntrySound(hashOf, ChildAt(node, i).value, path + [i])
  {
    if node.WellFormed() {
      forall i: nat | i < FANOUT ensures node.bitmap.Has(i) ==> node.bitmap.Rank(i) < |node.children| {
        Position(node, i);
      }
      forall i: nat | i < FANOUT && node.bitmap.Has(i)
        ensures ChildAt(node, i) == Some(node.children[node.bitmap.Rank(i)])
      {
      }
      if forall i: nat :: i < FANOUT && ChildAt(node, i).Some? ==> EntrySound(hashOf, ChildAt(node, i).value, path + [i]) {
        forall i: nat | i < FANOUT && node.bitmap.Has(i)
          ensures EntrySound(hashOf, node.children[node.bitmap.Rank(i)], path + [i])
        {
          assert ChildAt(node, i).Some?;
        }
      }
    }
  }

  // ---- Lookups ----

  /** What a lookup finds below a child whose path has length `level`. */
  function EntryLookup(e: Entry, g: Hash, level: nat, k: Key): Option<Value>
    requires EntryShaped(e, Path(g, level))
  {
    match e
    case Leaf(lh, lk, lv) => if lh == g && lk == k then Some(lv) else None
    case LeafMany(lh, pairs) => if lh == g then PairsLookup(pairs, k) else None
    case SubNode(sub) => LookupRec(sub, g, level, k)
  }

  function PairsLookup(pairs: seq<(Key, Value)>, k: Key): Option<Value> {
    var found := Find(pairs, k);
    if found.Some? then Some(pairs[found.value].1) else None
  }

  lemma LookupIsEntryLookup(node: Node, g: Hash, level: nat, k: Key)
    requires Shaped(node, Path(g, level))
    ensures match ChildAt(node, LevelIndex(g, level))
            case Some(e) => EntryShaped(e, Path(g, level + 1)) && LookupRec(node, g, level, k) == EntryLookup(e, g, level + 1, k)
            case None => LookupRec(node, g, level, k) == None
  {
    Position(node, LevelIndex(g, level));
  }

  ghost predicate OnPath(hashOf: Hasher, h: Hash, level: nat, x: Key) {
    Path(hashOf(x), level) == Path(h, level)
  }

  lemma OnPathNext(hashOf: Hasher, h: Hash, level: nat, x: Key)
    ensures OnPath(hashOf, h, level + 1, x) <==>
            OnPath(hashOf, h, level, x) && LevelIndex(hashOf(x), level) == LevelIndex(h, level)
  {
    var g := hashOf(x);
    assert Path(g, level + 1)[..level] == Path(g, level) && Path(h, level + 1)[..level] == Path(h, level);
    assert Path(g, level + 1)[level] == LevelIndex(g, level) && Path(h, level + 1)[level] == LevelIndex(h, level);
  }

  /** What a child stands for: nothing if there is none. */
  ghost function Finds(hashOf: Hasher, e: Option<Entry>, level: nat, x: Key): Option<Value>
    requires e.Some? ==> EntryShaped(e.value, Path(hashOf(x), level))
  {
    if e.Some? then EntryLookup(e.value, hashOf(x), level, x) else None
  }

  ghost function NodeFinds(hashOf: Hasher, n: Option<Node>, level: nat, x: Key): Option<Value>
    requires n.Some? ==> Shaped(n.value, Path(hashOf(x), level))
  {
    if n.Some? then LookupRec(n.value, hashOf(x), level, x) else None
  }

  /** The change from `e` to `e'` gives the key `k` the value `w`, or none, and leaves all other
      keys of the same path alone. */
  ghost predicate EntryChanged(
    hashOf: Hasher, level: nat, k: Key, w: Option<Value>, e: Option<Entry>, e': Option<Entry>)
    requires e.Some? ==> EntrySound(hashOf, e.value, Path(hashOf(k), level))
  {
    && (e'.Some? ==> EntrySound(hashOf, e'.value, Path(hashOf(k), level)))
    && forall x :: OnPath(hashOf, hashOf(k), level, x) ==>
         Finds(hashOf, e', level, x) == if x == k then w else Finds(hashOf, e, level, x)
  }

  ghost predicate NodeChanged(hashOf: Hasher, level: nat, k: Key, w: Option<Value>, n: Node, n': Option<Node>)
    requires Sound(hashOf, n, Path(hashOf(k), level))
  {
    && (n'.Some? ==> !n'.value.IsEmpty() && Sound(hashOf, n'.value, Path(hashOf(k), level)))
    && forall x :: OnPath(hashOf, hashOf(k), level, x) ==>
         NodeFinds(hashOf, n', level, x) == if x == k then w else LookupRec(n, hashOf(x), level, x)
  }

  lemma ChangedSound(hashOf: Hasher, path: seq<nat>, node: Node, node': Node, i: nat, e: Option<Entry>)
    requires Sound(hashOf, node, path) && i < FANOUT && Changed(node, node', i, e)
    requires e.Some? ==> EntrySound(hashOf, e.value, path + [i])
    ensures Sound(hashOf, node', path)
  {
    SoundChildren(hashOf, node, path);
    forall j: nat | j < FANOUT && ChildAt(node', j).Some?
      ensures EntrySound(hashOf, ChildAt(node', j).value, path + [j])
    {
    }
    SoundChildren(hashOf, node', path);
  }

  /** A change of a child at the index of `k` is a change of the node. */
  lemma ChangeUp(
    hashOf: Hasher, level: nat, k: Key, w: Option<Value>, node: Node, e: Option<Entry>, e': Option<Entry>, node': Node)
    requires Sound(hashOf, node, Path(hashOf(k), level))
    requires ChildAt(node, LevelIndex(hashOf(k), level)) == e
    requires e.Some? ==> EntrySound(hashOf, e.value, Path(hashOf(k), level + 1))
    requires EntryChanged(hashOf, level + 1, k, w, e, e')
    requires Changed(node, node', LevelIndex(hashOf(k), level), e') && !node'.IsEmpty()
    ensures NodeChanged(hashOf, level, k, w, node, Some(node'))
  {
    var h := hashOf(k);
    ChangedSound(hashOf, Path(h, level), node, node', LevelIndex(h, level), e');
    forall x | OnPath(hashOf, h, level, x)
      ensures LookupRec(node', hashOf(x), level, x) == if x == k then w else LookupRec(node, hashOf(x), level, x)
    {
      LookupIsEntryLookup(node, hashOf(x), level, x);
      LookupIsEntryLookup(node', hashOf(x), level, x);
      OnPathNext(hashOf, h, level, x);
    }
  }

  /** A node whose last child goes. */
  lemma ChangeToNone(hashOf: Hasher, level: nat, k: Key, node: Node, e: Entry)
    requires Sound(hashOf, node, Path(hashOf(k), level))
    requires ChildAt(node, LevelIndex(hashOf(k), level)) == Some(e)
    requires EntrySound(hashOf, e, Path(hashOf(k), level + 1))
    requires EntryChanged(hashOf, level + 1, k, None, Some(e), None)
    requires forall j: nat :: j < FANOUT && j != LevelIndex(hashOf(k), level) ==> ChildAt(node, j) == None
    ensures NodeChanged(hashOf, level, k, None, node, None)
  {
    var h := hashOf(k);
    forall x | OnPath(hashOf, h, level, x) ensures x != k ==> LookupRec(node, hashOf(x), level, x) == None {
      LookupIsEntryLookup(node, hashOf(x), level, x);
      OnPathNext(hashOf, h, level, x);
      if LevelIndex(hashOf(x), level) == LevelIndex(h, level) {
        assert Finds(hashOf, None, level + 1, x) == None;
      }
    }
  }

  /** The child on the way of a hash. */
  lemma ChildOnPath(hashOf: Hasher, node: Node, h: Hash, level: nat)
    requires Sound(hashOf, node, Path(h, level))
    ensures var (i, e) := (LevelIndex(h, level), ChildAt(node, LevelIndex(h, level)));
            && node.bitmap.GetSparsePos(i) == node.bitmap.Rank(i)
            && node.bitmap.GetIndexSparse(i) == (if node.bitmap.Has(i) then Some(node.bitmap.Rank(i)) else None)
            && (e.Some? <==> node.bitmap.Has(i))
            && (e.Some? ==>
                  && node.bitmap.Rank(i) < |node.children| && node.children[node.bitmap.Rank(i)] == e.value
                  && EntrySound(hashOf, e.value, Path(h, level + 1)))
  {
    Position(node, LevelIndex(h, level));
  }

  // ---- When an operation stops ----

  /** The way of the hash ends at a collision of another hash: the assertion that the two are
      equal fails. */
  predicate Blocked(node: Node, h: Hash, level: nat)
    requires Shaped(node, Path(h, level))
    decreases LAST + 1 - level
  {
    var i := LevelIndex(h, level);
    Position(node, i);
    match node.bitmap.GetIndexSparse(i)
    case None => false
    case Some(pos) =>
      ChildShaped(node, h, level);
      match node.children[pos]
      case Leaf(_, _, _) => false
      case LeafMany(lh, _) => lh != h
      case SubNode(sub) => Blocked(sub, h, level + 1)
  }

  /** A lookup goes past such a collision without finding anything. */
  lemma {:induction false} BlockedFindsNothing(node: Node, h: Hash, level: nat, k: Key)
    requires Shaped(node, Path(h, level)) && Blocked(node, h, level)
    ensures LookupRec(node, h, level, k) == None
    decreases LAST + 1 - level
  {
    var i := LevelIndex(h, level);
    Position(node, i);
    ChildShaped(node, h, level);
    if node.children[node.bitmap.Rank(i)].SubNode? {
      BlockedFindsNothing(node.children[node.bitmap.Rank(i)].node, h, level + 1, k);
    }
  }

  // ---- Pairs of a collision ----

  lemma FindPosition(pairs: seq<(Key, Value)>, k: Key, pos: nat)
    requires DistinctKeys(pairs) && pos < |pairs| && pairs[pos].0 == k
    ensures Find(pairs, k) == Some(pos) && PairsLookup(pairs, k) == Some(pairs[pos].1)
  {
  }

  lemma AppendPair(pairs: seq<(Key, Value)>, k: Key, v: Value, x: Key)
    requires DistinctKeys(pairs) && Find(pairs, k) == None
    ensures DistinctKeys(pairs + [(k, v)])
    ensures PairsLookup(pairs + [(k, v)], x) == if x == k then Some(v) else PairsLookup(pairs, x)
  {
    var pairs' := pairs + [(k, v)];
    if x == k {
      FindPosition(pairs', x, |pairs|);
    } else if Find(pairs, x).Some? {
      FindPosition(pairs', x, Find(pairs, x).value);
    }
  }

  lemma SetPair(pairs: seq<(Key, Value)>, pos: nat, k: Key, v: Value, x: Key)
    requires DistinctKeys(pairs) && pos < |pairs| && pairs[pos].0 == k
    ensures DistinctKeys(pairs[pos := (k, v)])
    ensures PairsLookup(pairs[pos := (k, v)], x) == if x == k then Some(v) else PairsLookup(pairs, x)
  {
    var pairs' := pairs[pos := (k, v)];
    if x == k {
      FindPosition(pairs', x, pos);
    } else if Find(pairs, x).Some? {
      FindPosition(pairs', x, Find(pairs, x).value);
    }
  }

  lemma DropPair(pairs: seq<(Key, Value)>, pos: nat, x: Key)
    requires DistinctKeys(pairs) && pos < |pairs|
    ensures DistinctKeys(pairs[..pos] + pairs[pos + 1..])
    ensures PairsLookup(pairs[..pos] + pairs[pos + 1..], x) == if x == pairs[pos].0 then None else PairsLookup(pairs, x)
  {
    var pairs' := pairs[..pos] + pairs[pos + 1..];
    if Find(pairs, x).Some? && x != pairs[pos].0 {
      var j := Find(pairs, x).value;
      FindPosition(pairs', x, if j < pos then j else j - 1);
    }
  }

  /** What is left of a collision without one of its pairs. */
  lemma WithoutPairChanges(hashOf: Hasher, level: nat, e: Entry, k: Key, pos: nat)
    requires EntrySound(hashOf, e, Path(hashOf(k), level)) && e.LeafMany? && e.hash == hashOf(k)
    requires pos < |e.pairs| && e.pairs[pos].0 == k
    ensures EntryChanged(hashOf, level, k, None, Some(e), Some(WithoutPair(e.hash, e.pairs, pos)))
  {
    var e' := WithoutPair(e.hash, e.pairs, pos);
    DropPair(e.pairs, pos, k);
    forall x | OnPath(hashOf, hashOf(k), level, x)
      ensures Finds(hashOf, Some(e'), level, x) == if x == k then None else Finds(hashOf, Some(e), level, x)
    {
      DropPair(e.pairs, pos, x);
      if |e.pairs| == 2 {
        var rest := e.pairs[..pos] + e.pairs[pos + 1..];
        assert rest == [(e'.key, e'.value)];
      }
    }
  }

  lemma SetPairChanges(hashOf: Hasher, level: nat, e: Entry, k: Key, pos: nat, v: Value)
    requires EntrySound(hashOf, e, Path(hashOf(k), level)) && e.LeafMany? && e.hash == hashOf(k)
    requires pos < |e.pairs| && e.pairs[pos].0 == k
    ensures EntryChanged(hashOf, level, k, Some(v), Some(e), Some(LeafMany(e.hash, e.pairs[pos := (k, v)])))
  {
    var e' := LeafMany(e.hash, e.pairs[pos := (k, v)]);
    SetPair(e.pairs, pos, k, v, k);
    forall x | OnPath(hashOf, hashOf(k), level, x)
      ensures Finds(hashOf, Some(e'), level, x) == if x == k then Some(v) else Finds(hashOf, Some(e), level, x)
    {
      SetPair(e.pairs, pos, k, v, x);
    }
  }

  lemma AppendPairChanges(hashOf: Hasher, level: nat, e: Entry, k: Key, v: Value)
    requires EntrySound(hashOf, e, Path(hashOf(k), level)) && e.LeafMany? && e.hash == hashOf(k)
    requires Find(e.pairs, k) == None
    ensures EntryChanged(hashOf, level, k, Some(v), Some(e), Some(LeafMany(e.hash, e.pairs + [(k, v)])))
  {
    var e' := LeafMany(e.hash, e.pairs + [(k, v)]);
    AppendPair(e.pairs, k, v, k);
    forall x | OnPath(hashOf, hashOf(k), level, x)
      ensures Finds(hashOf, Some(e'), level, x) == if x == k then Some(v) else Finds(hashOf, Some(e), level, x)
    {
      AppendPair(e.pairs, k, v, x);
    }
  }

  /** Two keys with the same hash. */
  lemma CollideChanges(hashOf: Hasher, level: nat, e: Entry, k: Key, v: Value)
    requires EntrySound(hashOf, e, Path(hashOf(k), level)) && e.Leaf? && e.hash == hashOf(k) && e.key != k
    ensures EntryChanged(hashOf, level, k, Some(v), Some(e), Some(LeafMany(e.hash, [(e.key, e.value), (k, v)])))
  {
    var one := [(e.key, e.value)];
    assert one + [(k, v)] == [(e.key, e.value), (k, v)];
    AppendPair(one, k, v, k);
    forall x | OnPath(hashOf, hashOf(k), level, x)
      ensures Finds(hashOf, Some(LeafMany(e.hash, one + [(k, v)])), level, x)
              == if x == k then Some(v) else Finds(hashOf, Some(e), level, x)
    {
      AppendPair(one, k, v, x);
    }
  }

  /** A changed node below is a changed child. */
  lemma SubNodeChanges(hashOf: Hasher, level: nat, k: Key, w: Option<Value>, sub: Node, sub': Option<Node>)
    requires !sub.IsEmpty() && Sound(hashOf, sub, Path(hashOf(k), level))
    requires NodeChanged(hashOf, level, k, w, sub, sub')
    ensures EntryChanged(hashOf, level, k, w, Some(SubNode(sub)), if sub'.Some? then Some(SubNode(sub'.value)) else None)
  {
    var e' := if sub'.Some? then Some(SubNode(sub'.value)) else None;
    forall x | OnPath(hashOf, hashOf(k), level, x)
      ensures Finds(hashOf, e', level, x) == if x == k then w else Finds(hashOf, Some(SubNode(sub)), level, x)
    {
      assert NodeFinds(hashOf, sub', level, x) == if x == k then w else LookupRec(sub, hashOf(x), level, x);
    }
  }

  // ---- Insertion ----

  /** An insertion panics exactly if it is blocked, fails exactly if the key is there, and
      otherwise adds the key and nothing else. */
  ghost predicate Inserts(hashOf: Hasher, node: Node, level: nat, k: Key, v: Value, r: Result<Node, Failure>)
    requires Sound(hashOf, node, Path(hashOf(k), level))
  {
    if Blocked(node, hashOf(k), level) then r == Err(Panicked)
    else if LookupRec(node, hashOf(k), level, k).Some? then r == Err(EntryExists)
    else r.Ok? && NodeChanged(hashOf, level, k, Some(v), node, Some(r.value))
  }

  lemma {:induction false} InsertEffect(hashOf: Hasher, node: Node, level: nat, k: Key, v: Value)
    requires Sound(hashOf, node, Path(hashOf(k), level))
    ensures Inserts(hashOf, node, level, k, v, InsertRec(node, hashOf(k), level, k, v))
    decreases LAST + 1 - level, 1
  {
    var h := hashOf(k);
    var i := LevelIndex(h, level);
    ChildOnPath(hashOf, node, h, level);
    LookupIsEntryLookup(node, h, level, k);
    match ChildAt(node, i)
    case None =>
      NewLeafChanges(hashOf, level + 1, k, v);
      SetAtChanges(node, i, Leaf(h, k, v));
      ChangeUp(hashOf, level, k, Some(v), node, None, Some(Leaf(h, k, v)), node.SetAt(i, Leaf(h, k, v)));
    case Some(e) =>
      match e
      case Leaf(_, _, _) => InsertAtLeaf(hashOf, node, level, k, v, e);
      case LeafMany(_, _) => InsertAtCollision(hashOf, node, level, k, v, e);
      case SubNode(_) => InsertBelow(hashOf, node, level, k, v, e);
  }

  lemma {:induction false} InsertAtLeaf(hashOf: Hasher, node: Node, level: nat, k: Key, v: Value, e: Entry)
    requires Sound(hashOf, node, Path(hashOf(k), level)) && ChildAt(node, LevelIndex(hashOf(k), level)) == Some(e) && e.Leaf?
    ensures Inserts(hashOf, node, level, k, v, InsertRec(node, hashOf(k), level, k, v))
    decreases LAST + 1 - level, 0
  {
    var h := hashOf(k);
    ChildOnPath(hashOf, node, h, level);
    LookupIsEntryLookup(node, h, level, k);
    if e.hash != h {
      HashesPart(node, h, level);
      PartedEffect(hashOf, e, level + 1, k, v);
      ReplaceChild(hashOf, level, k, Some(v), node, e, SubNode(Parted(e, h, level + 1, k, v).value));
    } else if e.key != k {
      CollideChanges(hashOf, level + 1, e, k, v);
      ReplaceChild(hashOf, level, k, Some(v), node, e, LeafMany(e.hash, [(e.key, e.value), (k, v)]));
    }
  }

  lemma InsertAtCollision(hashOf: Hasher, node: Node, level: nat, k: Key, v: Value, e: Entry)
    requires Sound(hashOf, node, Path(hashOf(k), level)) && ChildAt(node, LevelIndex(hashOf(k), level)) == Some(e) && e.LeafMany?
    ensures Inserts(hashOf, node, level, k, v, InsertRec(node, hashOf(k), level, k, v))
  {
    ChildOnPath(hashOf, node, hashOf(k), level);
    LookupIsEntryLookup(node, hashOf(k), level, k);
    if e.hash == hashOf(k) && Find(e.pairs, k).None? {
      AppendPairChanges(hashOf, level + 1, e, k, v);
      ReplaceChild(hashOf, level, k, Some(v), node, e, LeafMany(e.hash, e.pairs + [(k, v)]));
    }
  }

  lemma {:induction false} InsertBelow(hashOf: Hasher, node: Node, level: nat, k: Key, v: Value, e: Entry)
    requires Sound(hashOf, node, Path(hashOf(k), level)) && ChildAt(node, LevelIndex(hashOf(k), level)) == Some(e) && e.SubNode?
    ensures Inserts(hashOf, node, level, k, v, InsertRec(node, hashOf(k), level, k, v))
    decreases LAST + 1 - level, 0
  {
    var h := hashOf(k);
    ChildOnPath(hashOf, node, h, level);
    LookupIsEntryLookup(node, h, level, k);
    InsertEffect(hashOf, e.node, level + 1, k, v);
    var r := InsertRec(e.node, h, level + 1, k, v);
    if r.Ok? {
      SubNodeChanges(hashOf, level + 1, k, Some(v), e.node, Some(r.value));
      ReplaceChild(hashOf, level, k, Some(v), node, e, SubNode(r.value));
    }
  }

  lemma NewLeafChanges(hashOf: Hasher, level: nat, k: Key, v: Value)
    ensures EntryChanged(hashOf, level, k, Some(v), None, Some(Leaf(hashOf(k), k, v)))
  {
  }

  lemma ReplaceChild(hashOf: Hasher, level: nat, k: Key, w: Option<Value>, node: Node, e: Entry, e': Entry)
    requires Sound(hashOf, node, Path(hashOf(k), level))
    requires ChildAt(node, LevelIndex(hashOf(k), level)) == Some(e)
    requires EntrySound(hashOf, e, Path(hashOf(k), level + 1))
    requires EntryChanged(hashOf, level + 1, k, w, Some(e), Some(e'))
    ensures node.bitmap.Rank(LevelIndex(hashOf(k), level)) < |node.children|
    ensures NodeChanged(hashOf, level, k, w, node, Some(node.ReplaceAt(node.bitmap.Rank(LevelIndex(hashOf(k), level)), e')))
  {
    var i := LevelIndex(hashOf(k), level);
    ReplaceAtChanges(node, i, e');
    ChangeUp(hashOf, level, k, w, node, Some(e), Some(e'), node.ReplaceAt(node.bitmap.Rank(i), e'));
  }

  /** The new node for two hashes holds the leaf and the new key. */
  lemma {:induction false} PartedEffect(hashOf: Hasher, leaf: Entry, level: nat, k: Key, v: Value)
    requires leaf.Leaf? && leaf.hash != hashOf(k) && level <= LAST
    requires EntrySound(hashOf, leaf, Path(hashOf(k), level))
    ensures var r := Parted(leaf, hashOf(k), level, k, v);
            r.Ok? && !r.value.IsEmpty() && EntryChanged(hashOf, level, k, Some(v), Some(leaf), Some(SubNode(r.value)))
    decreases LAST + 1 - level, 2
  {
    var h := hashOf(k);
    var (i, j) := (LevelIndex(leaf.hash, level), LevelIndex(h, level));
    var sub := Singleton(i, leaf);
    SingletonSound(hashOf, leaf, h, level);
    var r := Parted(leaf, h, level, k, v);
    if i != j {
      NewLeafChanges(hashOf, level + 1, k, v);
      SetAtChanges(sub, j, Leaf(h, k, v));
      ChangeUp(hashOf, level, k, Some(v), sub, None, Some(Leaf(h, k, v)), r.value);
    } else {
      InsertEffect(hashOf, sub, level, k, v);
      LookupIsEntryLookup(sub, h, level, k);
    }
    forall x | OnPath(hashOf, h, level, x)
      ensures Finds(hashOf, Some(SubNode(r.value)), level, x) == if x == k then Some(v) else Finds(hashOf, Some(leaf), level, x)
    {
      SingletonFinds(hashOf, leaf, h, level, x);
    }
  }

  /** A node with a single leaf. */
  lemma SingletonSound(hashOf: Hasher, leaf: Entry, h: Hash, level: nat)
    requires leaf.Leaf? && level <= LAST && EntrySound(hashOf, leaf, Path(h, level))
    ensures var sub := Singleton(LevelIndex(leaf.hash, level), leaf);
            && !sub.IsEmpty() && Sound(hashOf, sub, Path(h, level)) && !Blocked(sub, h, level)
            && (forall j: nat :: j < FANOUT ==>
                  ChildAt(sub, j) == if j == LevelIndex(leaf.hash, level) then Some(leaf) else None)
            && (LevelIndex(leaf.hash, level) != LevelIndex(h, level) ==> !sub.bitmap.Has(LevelIndex(h, level)))
  {
    var i := LevelIndex(leaf.hash, level);
    SingletonChild(i, leaf);
    SingletonIsSound(hashOf, leaf, h, level);
    ChildOnPath(hashOf, Singleton(i, leaf), h, level);
  }

  lemma SingletonIsSound(hashOf: Hasher, leaf: Entry, h: Hash, level: nat)
    requires leaf.Leaf? && level <= LAST && EntrySound(hashOf, leaf, Path(h, level))
    ensures Sound(hashOf, Singleton(LevelIndex(leaf.hash, level), leaf), Path(h, level))
  {
    var i := LevelIndex(leaf.hash, level);
    SingletonChild(i, leaf);
    assert EntrySound(hashOf, leaf, Path(h, level) + [i]);
    SoundChildren(hashOf, Singleton(i, leaf), Path(h, level));
  }

  lemma SingletonFinds(hashOf: Hasher, leaf: Entry, h: Hash, level: nat, x: Key)
    requires leaf.Leaf? && level <= LAST && EntrySound(hashOf, leaf, Path(h, level)) && OnPath(hashOf, h, level, x)
    ensures var sub := Singleton(LevelIndex(leaf.hash, level), leaf);
            Shaped(sub, Path(hashOf(x), level))
            && LookupRec(sub, hashOf(x), level, x) == EntryLookup(leaf, hashOf(x), level, x)
  {
    SingletonSound(hashOf, leaf, h, level);
    LookupIsEntryLookup(Singleton(LevelIndex(leaf.hash, level), leaf), hashOf(x), level, x);
  }

  // ---- Updates ----

  /** An update panics exactly if it is blocked, fails if the key is missing or the callback refuses,
      and otherwise gives the key the value that the callback makes of the old one, or none. */
  ghost predicate Updates(
    hashOf: Hasher, node: Node, level: nat, k: Key, f: Callback, r: Result<Option<Node>, Failure>)
    requires Sound(hashOf, node, Path(hashOf(k), level))
  {
    if Blocked(node, hashOf(k), level) then r == Err(Panicked)
    else
      match LookupRec(node, hashOf(k), level, k)
      case None => r == Err(KeyNotFound)
      case Some(v) =>
        match f(v)
        case Err(e) => r == Err(e)
        case Ok(w) => r.Ok? && NodeChanged(hashOf, level, k, w, node, r.value)
  }

  lemma {:induction false} UpdateEffect(hashOf: Hasher, node: Node, level: nat, k: Key, f: Callback)
    requires Sound(hashOf, node, Path(hashOf(k), level))
    ensures Updates(hashOf, node, level, k, f, UpdateRec(node, hashOf(k), level, k, f))
    decreases LAST + 1 - level, 1
  {
    ChildOnPath(hashOf, node, hashOf(k), level);
    LookupIsEntryLookup(node, hashOf(k), level, k);
    match ChildAt(node, LevelIndex(hashOf(k), level))
    case None =>
    case Some(e) =>
      match e
      case Leaf(_, _, _) => UpdateAtLeaf(hashOf, node, level, k, f, e);
      case LeafMany(_, _) => UpdateAtCollision(hashOf, node, level, k, f, e);
      case SubNode(_) => UpdateBelow(hashOf, node, level, k, f, e);
  }

  lemma UpdateAtLeaf(hashOf: Hasher, node: Node, level: nat, k: Key, f: Callback, e: Entry)
    requires Sound(hashOf, node, Path(hashOf(k), level)) && ChildAt(node, LevelIndex(hashOf(k), level)) == Some(e) && e.Leaf?
    ensures Updates(hashOf, node, level, k, f, UpdateRec(node, hashOf(k), level, k, f))
  {
    ChildOnPath(hashOf, node, hashOf(k), level);
    LookupIsEntryLookup(node, hashOf(k), level, k);
    if e.hash == hashOf(k) && e.key == k && f(e.value).Ok? {
      match f(e.value).value
      case None => ClearChild(hashOf, level, k, node, e);
      case Some(v) => ReplaceChild(hashOf, level, k, Some(v), node, e, Leaf(e.hash, e.key, v));
    }
  }

  lemma UpdateAtCollision(hashOf: Hasher, node: Node, level: nat, k: Key, f: Callback, e: Entry)
    requires Sound(hashOf, node, Path(hashOf(k), level)) && ChildAt(node, LevelIndex(hashOf(k), level)) == Some(e) && e.LeafMany?
    ensures Updates(hashOf, node, level, k, f, UpdateRec(node, hashOf(k), level, k, f))
  {
    ChildOnPath(hashOf, node, hashOf(k), level);
    LookupIsEntryLookup(node, hashOf(k), level, k);
    if e.hash == hashOf(k) && Find(e.pairs, k).Some? {
      var pos := Find(e.pairs, k).value;
      if f(e.pairs[pos].1).Ok? {
        match f(e.pairs[pos].1).value
        case None =>
          WithoutPairChanges(hashOf, level + 1, e, k, pos);
          ReplaceChild(hashOf, level, k, None, node, e, WithoutPair(e.hash, e.pairs, pos));
        case Some(v) =>
          SetPairChanges(hashOf, level + 1, e, k, pos, v);
          ReplaceChild(hashOf, level, k, Some(v), node, e, LeafMany(e.hash, e.pairs[pos := (k, v)]));
      }
    }
  }

  lemma {:induction false} UpdateBelow(hashOf: Hasher, node: Node, level: nat, k: Key, f: Callback, e: Entry)
    requires Sound(hashOf, node, Path(hashOf(k), level)) && ChildAt(node, LevelIndex(hashOf(k), level)) == Some(e) && e.SubNode?
    ensures Updates(hashOf, node, level, k, f, UpdateRec(node, hashOf(k), level, k, f))
    decreases LAST + 1 - level, 0
  {
    var h := hashOf(k);
    ChildOnPath(hashOf, node, h, level);
    LookupIsEntryLookup(node, h, level, k);
    UpdateEffect(hashOf, e.node, level + 1, k, f);
    var r := UpdateRec(e.node, h, level + 1, k, f);
    if r.Ok? {
      var w := f(LookupRec(e.node, h, level + 1, k).value).value;
      SubNodeChanges(hashOf, level + 1, k, w, e.node, r.value);
      match r.value
      case None => NothingBelow(hashOf, level + 1, k, w, e.node); ClearChild(hashOf, level, k, node, e);
      case Some(sub) => ReplaceChild(hashOf, level, k, w, node, e, SubNode(sub));
    }
  }

  /** A node goes only when its last key does. */
  lemma NothingBelow(hashOf: Hasher, level: nat, k: Key, w: Option<Value>, node: Node)
    requires Sound(hashOf, node, Path(hashOf(k), level)) && NodeChanged(hashOf, level, k, w, node, None)
    ensures w == None
  {
    assert OnPath(hashOf, hashOf(k), level, k);
    assert NodeFinds(hashOf, None, level, k) == w;
  }

  lemma ClearChild(hashOf: Hasher, level: nat, k: Key, node: Node, e: Entry)
    requires Sound(hashOf, node, Path(hashOf(k), level))
    requires ChildAt(node, LevelIndex(hashOf(k), level)) == Some(e)
    requires EntrySound(hashOf, e, Path(hashOf(k), level + 1))
    requires EntryChanged(hashOf, level + 1, k, None, Some(e), None)
    ensures node.bitmap.Has(LevelIndex(hashOf(k), level))
    ensures NodeChanged(hashOf, level, k, None, node, node.ClearAt(LevelIndex(hashOf(k), level)))
  {
    var i := LevelIndex(hashOf(k), level);
    ClearAtChanges(node, i);
    match node.ClearAt(i)
    case None => ChangeToNone(hashOf, level, k, node, e);
    case Some(node') => ChangeUp(hashOf, level, k, None, node, Some(e), None, node');
  }

  // ---- The other operations are updates ----

  function Delete(): Callback {
    (_: Value) => Ok(None)
  }

  function DeleteIf(v: Value): Callback {
    (x: Value) => if x == v then Ok(None) else Err(ValueNotMatching)
  }

  function SetTo(v: Value): Callback {
    (_: Value) => Ok(Some(v))
  }

  function ApplyTo(f: Value -> Value): Callback {
    (x: Value) => Ok(Some(f(x)))
  }

  lemma {:induction false} RemoveIsUpdate(node: Node, h: Hash, level: nat, k: Key)
    requires Shaped(node, Path(h, level))
    ensures RemoveRec(node, h, level, k) == UpdateRec(node, h, level, k, Delete())
    decreases LAST + 1 - level
  {
    var i := LevelIndex(h, level);
    Position(node, i);
    if node.bitmap.Has(i) {
      ChildShaped(node, h, level);
      var e := node.children[node.bitmap.Rank(i)];
      if e.SubNode? {
        RemoveIsUpdate(e.node, h, level + 1, k);
      }
    }
  }

  lemma {:induction false} RemoveEqIsUpdate(node: Node, h: Hash, level: nat, k: Key, v: Value)
    requires Shaped(node, Path(h, level))
    ensures RemoveEqRec(node, h, level, k, v) == UpdateRec(node, h, level, k, DeleteIf(v))
    decreases LAST + 1 - level
  {
    var i := LevelIndex(h, level);
    Position(node, i);
    if node.bitmap.Has(i) {
      ChildShaped(node, h, level);
      var e := node.children[node.bitmap.Rank(i)];
      if e.SubNode? {
        RemoveEqIsUpdate(e.node, h, level + 1, k, v);
      }
    }
  }

  /** A replacement also returns the old value. */
  lemma {:induction false} ReplaceIsUpdate(node: Node, h: Hash, level: nat, k: Key, v: Value)
    requires Shaped(node, Path(h, level))
    ensures match ReplaceRec(node, h, level, k, v)
            case Err(e) => UpdateRec(node, h, level, k, SetTo(v)) == Err(e)
            case Ok((node', v')) =>
              UpdateRec(node, h, level, k, SetTo(v)) == Ok(Some(node')) && LookupRec(node, h, level, k) == Some(v')
    decreases LAST + 1 - level
  {
    var i := LevelIndex(h, level);
    Position(node, i);
    if node.bitmap.Has(i) {
      ChildShaped(node, h, level);
      var e := node.children[node.bitmap.Rank(i)];
      if e.SubNode? {
        ReplaceIsUpdate(e.node, h, level + 1, k, v);
      }
    }
  }

  lemma {:induction false} ReplaceWithIsUpdate(node: Node, h: Hash, level: nat, k: Key, f: Value -> Value)
    requires Shaped(node, Path(h, level))
    ensures match ReplaceWithRec(node, h, level, k, f)
            case Err(e) => UpdateRec(node, h, level, k, ApplyTo(f)) == Err(e)
            case Ok(node') => UpdateRec(node, h, level, k, ApplyTo(f)) == Ok(Some(node'))
    decreases LAST + 1 - level
  {
    var i := LevelIndex(h, level);
    Position(node, i);
    if node.bitmap.Has(i) {
      ChildShaped(node, h, level);
      var e := node.children[node.bitmap.Rank(i)];
      if e.SubNode? {
        ReplaceWithIsUpdate(e.node, h, level + 1, k, f);
      }
    }
  }
}
