/** Whole tries: what each operation makes of the finite map that a trie stands for, and what
    remains true over all runs. */
module Hamt {
  import opened HamtBitmap
  import opened HamtMap
  import opened HamtNode
  import opened Wrappers

  function Rooted(r: Result<Option<Node>, Failure>): Result<Node, Failure> {
    match r
    case Err(e) => Err(e)
    case Ok(None) => Ok(EMPTY)
    case Ok(Some(root)) => Ok(root)
  }

  function Insert(hashOf: Hasher, root: Node, k: Key, v: Value): Result<Node, Failure>
    requires Shaped(root, [])
  {
    InsertRec(root, hashOf(k), 0, k, v)
  }

  function Remove(hashOf: Hasher, root: Node, k: Key): Result<Node, Failure>
    requires Shaped(root, [])
  {
    Rooted(RemoveRec(root, hashOf(k), 0, k))
  }

  function RemoveMatch(hashOf: Hasher, root: Node, k: Key, v: Value): Result<Node, Failure>
    requires Shaped(root, [])
  {
    Rooted(RemoveEqRec(root, hashOf(k), 0, k, v))
  }

  /** Also returns the old value. */
  function Replace(hashOf: Hasher, root: Node, k: Key, v: Value): Result<(Node, Value), Failure>
    requires Shaped(root, [])
  {
    ReplaceRec(root, hashOf(k), 0, k, v)
  }

  function ReplaceWith(hashOf: Hasher, root: Node, k: Key, f: Value -> Value): Result<Node, Failure>
    requires Shaped(root, [])
  {
    ReplaceWithRec(root, hashOf(k), 0, k, f)
  }

  type UserCallback = Value -> Result<Option<Value>, UserError>

  function FromUser(f: UserCallback): Callback {
    (x: Value) => match f(x) case Ok(w) => Ok(w) case Err(e) => Err(CallbackError(e))
  }

  function Update(hashOf: Hasher, root: Node, k: Key, f: UserCallback): Result<Node, Failure>
    requires Shaped(root, [])
  {
    Rooted(UpdateRec(root, hashOf(k), 0, k, FromUser(f)))
  }

  /** Any failure of the insertion is a failed unwrap. */
  function InsertOrUpdate(hashOf: Hasher, root: Node, k: Key, v: Value, f: UserCallback): Result<Node, Failure>
    requires Shaped(root, [])
  {
    var r := Update(hashOf, root, k, f);
    if r != Err(KeyNotFound) then r
    else
      var inserted := Insert(hashOf, root, k, v);
      if inserted.Ok? then inserted else Err(Panicked)
  }

  /** Goes down from node to node. */
  method Lookup(hashOf: Hasher, root: Node, k: Key) returns (r: Option<Value>)
    requires Shaped(root, [])
    ensures r == LookupRec(root, hashOf(k), 0, k)
  {
    var h := hashOf(k);
    var n, level := root, 0;
    ghost var sought := LookupRec(root, h, 0, k);
    while true
      invariant Shaped(n, Path(h, level)) && LookupRec(n, h, level, k) == sought
      decreases LAST + 1 - level
    {
      Position(n, LevelIndex(h, level));
      var idx := n.bitmap.GetIndexSparse(LevelIndex(h, level));
      if idx.None? {
        return None;
      }
      ChildShaped(n, h, level);
      match n.children[idx.value] {
        case Leaf(lh, lk, lv) =>
          return if lh == h && lk == k then Some(lv) else None;
        case LeafMany(lh, pairs) =>
          return if lh == h then PairsLookup(pairs, k) else None;
        case SubNode(sub) =>
          n, level := sub, level + 1;
      }
    }
  }

  // ---- Tries and maps ----

  function Get<K, V>(m: map<K, V>, k: K): Option<V> {
    if k in m then Some(m[k]) else None
  }

  /** A lookup of any key finds what the map has. */
  ghost predicate Represents(hashOf: Hasher, root: Node, m: map<Key, Value>) {
    && Sound(hashOf, root, [])
    && forall k :: LookupRec(root, hashOf(k), 0, k) == Get(m, k)
  }

  lemma EmptyRepresents(hashOf: Hasher)
    ensures Represents(hashOf, EMPTY, map[])
  {
    EmptyHasNone(EMPTY.bitmap);
    EmptyRank(EMPTY.bitmap, FANOUT);
    forall k ensures LookupRec(EMPTY, hashOf(k), 0, k) == None {
      LookupIsEntryLookup(EMPTY, hashOf(k), 0, k);
    }
  }

  lemma {:induction false} EmptyRank(m: SmallBitmap, n: nat)
    requires m.Valid() && m.IsEmpty() && n <= FANOUT
    ensures m.Rank(n) == 0
    decreases n
  {
    if n > 0 {
      EmptyRank(m, n - 1);
      EmptyHasNone(m);
      assert !m.Has(n - 1);
    }
  }

  function With(m: map<Key, Value>, k: Key, w: Option<Value>): map<Key, Value> {
    if w.Some? then m[k := w.value] else m - {k}
  }

  lemma ChangedRepresents(hashOf: Hasher, root: Node, m: map<Key, Value>, k: Key, w: Option<Value>, root': Option<Node>)
    requires Represents(hashOf, root, m) && NodeChanged(hashOf, 0, k, w, root, root')
    ensures Represents(hashOf, if root'.Some? then root'.value else EMPTY, With(m, k, w))
  {
    EmptyRepresents(hashOf);
    var r := if root'.Some? then root'.value else EMPTY;
    forall x ensures LookupRec(r, hashOf(x), 0, x) == Get(With(m, k, w), x) {
      assert OnPath(hashOf, hashOf(k), 0, x);
      assert NodeFinds(hashOf, root', 0, x) == if x == k then w else LookupRec(root, hashOf(x), 0, x);
    }
  }

  datatype Operation =
    | DoInsert(k: Key, v: Value)
    | DoRemove(k: Key)
    | DoRemoveMatch(k: Key, v: Value)
    | DoReplace(k: Key, v: Value)
    | DoReplaceWith(k: Key, g: Value -> Value)
    | DoUpdate(k: Key, f: UserCallback)
    | DoInsertOrUpdate(k: Key, v: Value, f: UserCallback)

  function Apply(hashOf: Hasher, root: Node, op: Operation): Result<Node, Failure>
    requires Shaped(root, [])
  {
    match op
    case DoInsert(k, v) => Insert(hashOf, root, k, v)
    case DoRemove(k) => Remove(hashOf, root, k)
    case DoRemoveMatch(k, v) => RemoveMatch(hashOf, root, k, v)
    case DoReplace(k, v) =>
      (match Replace(hashOf, root, k, v)
       case Ok((root', _)) => Ok(root')
       case Err(e) => Err(e))
    case DoReplaceWith(k, g) => ReplaceWith(hashOf, root, k, g)
    case DoUpdate(k, f) => Update(hashOf, root, k, f)
    case DoInsertOrUpdate(k, v, f) => InsertOrUpdate(hashOf, root, k, v, f)
  }

  /** The same operations on a finite map. */
  function ApplyToMap(m: map<Key, Value>, op: Operation): Result<map<Key, Value>, Failure> {
    match op
    case DoInsert(k, v) => if k in m then Err(EntryExists) else Ok(m[k := v])
    case DoRemove(k) => UpdatedMap(m, k, Delete())
    case DoRemoveMatch(k, v) => UpdatedMap(m, k, DeleteIf(v))
    case DoReplace(k, v) => UpdatedMap(m, k, SetTo(v))
    case DoReplaceWith(k, g) => UpdatedMap(m, k, ApplyTo(g))
    case DoUpdate(k, f) => UpdatedMap(m, k, FromUser(f))
    case DoInsertOrUpdate(k, v, f) => if k in m then UpdatedMap(m, k, FromUser(f)) else Ok(m[k := v])
  }

  function UpdatedMap(m: map<Key, Value>, k: Key, f: Callback): Result<map<Key, Value>, Failure> {
    if k !in m then Err(KeyNotFound)
    else
      match f(m[k])
      case Err(e) => Err(e)
      case Ok(w) => Ok(With(m, k, w))
  }

  /** The outcome on the trie is that on the map. */
  ghost predicate Agrees(hashOf: Hasher, r: Result<Node, Failure>, s: Result<map<Key, Value>, Failure>) {
    match s
    case Err(e) => r == Err(e)
    case Ok(m) => r.Ok? && Represents(hashOf, r.value, m)
  }

  lemma UpdateAgrees(hashOf: Hasher, root: Node, m: map<Key, Value>, k: Key, f: Callback)
    requires Represents(hashOf, root, m)
    ensures var r := Rooted(UpdateRec(root, hashOf(k), 0, k, f));
            if Blocked(root, hashOf(k), 0) then r == Err(Panicked) else Agrees(hashOf, r, UpdatedMap(m, k, f))
  {
    UpdateEffect(hashOf, root, 0, k, f);
    var r := UpdateRec(root, hashOf(k), 0, k, f);
    if !Blocked(root, hashOf(k), 0) && k in m && f(m[k]).Ok? {
      ChangedRepresents(hashOf, root, m, k, f(m[k]).value, r.value);
    }
  }

  lemma InsertAgrees(hashOf: Hasher, root: Node, m: map<Key, Value>, k: Key, v: Value)
    requires Represents(hashOf, root, m)
    ensures var r := Insert(hashOf, root, k, v);
            if Blocked(root, hashOf(k), 0) then r == Err(Panicked) else Agrees(hashOf, r, ApplyToMap(m, DoInsert(k, v)))
  {
    InsertEffect(hashOf, root, 0, k, v);
    var r := Insert(hashOf, root, k, v);
    if r.Ok? {
      ChangedRepresents(hashOf, root, m, k, Some(v), Some(r.value));
    }
  }

  /** An operation panics exactly if the way of its key is blocked by a collision of another hash;
      otherwise it does what it does to the finite map, errors included. */
  lemma ApplyAgrees(hashOf: Hasher, root: Node, m: map<Key, Value>, op: Operation)
    requires Represents(hashOf, root, m)
    ensures if Blocked(root, hashOf(op.k), 0) then Apply(hashOf, root, op) == Err(Panicked)
            else Agrees(hashOf, Apply(hashOf, root, op), ApplyToMap(m, op))
  {
    var h := hashOf(op.k);
    match op
    case DoInsert(k, v) => InsertAgrees(hashOf, root, m, k, v);
    case DoRemove(k) =>
      RemoveIsUpdate(root, h, 0, k);
      UpdateAgrees(hashOf, root, m, k, Delete());
    case DoRemoveMatch(k, v) =>
      RemoveEqIsUpdate(root, h, 0, k, v);
      UpdateAgrees(hashOf, root, m, k, DeleteIf(v));
    case DoReplace(k, v) =>
      ReplaceIsUpdate(root, h, 0, k, v);
      UpdateAgrees(hashOf, root, m, k, SetTo(v));
    case DoReplaceWith(k, g) =>
      ReplaceWithIsUpdate(root, h, 0, k, g);
      UpdateAgrees(hashOf, root, m, k, ApplyTo(g));
    case DoUpdate(k, f) => UpdateAgrees(hashOf, root, m, k, FromUser(f));
    case DoInsertOrUpdate(k, v, f) =>
      UpdateAgrees(hashOf, root, m, k, FromUser(f));
      InsertAgrees(hashOf, root, m, k, v);
  }

  /** What a callback of the user decides: a missing key is reported; its error is passed on; nothing
      deletes the key; a value replaces the old one. A combined insertion never reports a missing key,
      and removing a value asks for the value that is there. */
  lemma OutcomeOnMap(hashOf: Hasher, root: Node, m: map<Key, Value>, k: Key, v: Value, f: UserCallback)
    requires Represents(hashOf, root, m) && !Blocked(root, hashOf(k), 0)
    ensures var updated := if k !in m then Err(KeyNotFound) else
              match f(m[k]) case Err(e) => Err(CallbackError(e)) case Ok(None) => Ok(m - {k}) case Ok(Some(w)) => Ok(m[k := w]);
            && Agrees(hashOf, Update(hashOf, root, k, f), updated)
            && Agrees(hashOf, InsertOrUpdate(hashOf, root, k, v, f), if k in m then updated else Ok(m[k := v]))
    ensures Agrees(hashOf, Remove(hashOf, root, k), if k in m then Ok(m - {k}) else Err(KeyNotFound))
    ensures Agrees(hashOf, RemoveMatch(hashOf, root, k, v),
                   if k !in m then Err(KeyNotFound) else if m[k] == v then Ok(m - {k}) else Err(ValueNotMatching))
    ensures Agrees(hashOf, Insert(hashOf, root, k, v), if k in m then Err(EntryExists) else Ok(m[k := v]))
  {
    ApplyAgrees(hashOf, root, m, DoUpdate(k, f));
    ApplyAgrees(hashOf, root, m, DoInsertOrUpdate(k, v, f));
    ApplyAgrees(hashOf, root, m, DoRemove(k));
    ApplyAgrees(hashOf, root, m, DoRemoveMatch(k, v));
    ApplyAgrees(hashOf, root, m, DoInsert(k, v));
  }

  /** Replacing by a function needs the key. */
  lemma ReplacedWith(hashOf: Hasher, root: Node, m: map<Key, Value>, k: Key, g: Value -> Value)
    requires Represents(hashOf, root, m) && !Blocked(root, hashOf(k), 0)
    ensures Agrees(hashOf, ReplaceWith(hashOf, root, k, g), if k in m then Ok(m[k := g(m[k])]) else Err(KeyNotFound))
  {
    ApplyAgrees(hashOf, root, m, DoReplaceWith(k, g));
  }

  /** A replacement returns the value that the map had. */
  lemma ReplaceReturnsOld(hashOf: Hasher, root: Node, m: map<Key, Value>, k: Key, v: Value)
    requires Represents(hashOf, root, m) && !Blocked(root, hashOf(k), 0)
    ensures match Replace(hashOf, root, k, v)
            case Ok((root', v')) => k in m && v' == m[k] && Represents(hashOf, root', m[k := v])
            case Err(e) => k !in m && e == KeyNotFound
  {
    ReplaceIsUpdate(root, hashOf(k), 0, k, v);
    UpdateAgrees(hashOf, root, m, k, SetTo(v));
  }

  // ---- Runs ----

  /** A failed operation leaves the trie as it is, as does one that panics. */
  ghost predicate Step(hashOf: Hasher, root: Node, op: Operation, root': Node) {
    Shaped(root, []) ==>
      root' == if Apply(hashOf, root, op).Ok? then Apply(hashOf, root, op).value else root
  }

  ghost predicate Run(hashOf: Hasher, states: seq<Node>, ops: seq<Operation>) {
    && |states| == |ops| + 1
    && states[0] == EMPTY
    && forall i, j :: 0 <= i && j == i + 1 && j < |states| ==> Step(hashOf, states[i], ops[i], states[j])
  }

  ghost predicate IsBlocked(hashOf: Hasher, root: Node, k: Key) {
    Shaped(root, []) && Blocked(root, hashOf(k), 0)
  }

  /** The map after the first `n` operations, without those that are blocked. */
  ghost function MapAfter(hashOf: Hasher, states: seq<Node>, ops: seq<Operation>, n: nat): map<Key, Value>
    requires n <= |ops| && |ops| <= |states|
  {
    if n == 0 then map[] else
      var m := MapAfter(hashOf, states, ops, n - 1);
      if IsBlocked(hashOf, states[n - 1], ops[n - 1].k) || ApplyToMap(m, ops[n - 1]).Err? then m
      else ApplyToMap(m, ops[n - 1]).value
  }

  /** Every trie that a run reaches represents the map that the operations make. */
  lemma {:induction false} RunAgreesWithMap(hashOf: Hasher, states: seq<Node>, ops: seq<Operation>, n: nat)
    requires Run(hashOf, states, ops) && n < |states|
    ensures Represents(hashOf, states[n], MapAfter(hashOf, states, ops, n))
    decreases n
  {
    if n == 0 {
      EmptyRepresents(hashOf);
    } else {
      RunAgreesWithMap(hashOf, states, ops, n - 1);
      ApplyAgrees(hashOf, states[n - 1], MapAfter(hashOf, states, ops, n - 1), ops[n - 1]);
      assert Step(hashOf, states[n - 1], ops[n - 1], states[n]);
    }
  }

  lemma LiftFound(hashOf: Hasher, node: Node, h: Hash, level: nat, e: Entry, a: Key)
    requires Sound(hashOf, node, Path(h, level)) && ChildAt(node, LevelIndex(h, level)) == Some(e)
    requires OnPath(hashOf, h, level + 1, a)
    requires EntryShaped(e, Path(hashOf(a), level + 1)) && EntryLookup(e, hashOf(a), level + 1, a).Some?
    ensures OnPath(hashOf, h, level, a) && LevelIndex(hashOf(a), level) == LevelIndex(h, level)
    ensures LookupRec(node, hashOf(a), level, a).Some?
  {
    OnPathNext(hashOf, h, level, a);
    LookupIsEntryLookup(node, hashOf(a), level, a);
  }

  /** A blocked key needs two other keys in the trie whose hashes are the same, and begin like its own. */
  lemma {:induction false} BlockedNeedsCollision(hashOf: Hasher, node: Node, h: Hash, level: nat)
    returns (a: Key, b: Key)
    requires Sound(hashOf, node, Path(h, level)) && Blocked(node, h, level)
    ensures a != b && hashOf(a) == hashOf(b) != h
    ensures OnPath(hashOf, h, level, a) && LevelIndex(hashOf(a), level) == LevelIndex(h, level)
    ensures LookupRec(node, hashOf(a), level, a).Some? && LookupRec(node, hashOf(b), level, b).Some?
    decreases LAST + 1 - level
  {
    ChildOnPath(hashOf, node, h, level);
    var e := ChildAt(node, LevelIndex(h, level)).value;
    match e {
      case LeafMany(_, _) => a, b := CollidingPair(hashOf, e, h, level + 1);
      case SubNode(sub) => a, b := BlockedNeedsCollision(hashOf, sub, h, level + 1);
    }
    LiftFound(hashOf, node, h, level, e, a);
    LiftFound(hashOf, node, h, level, e, b);
  }

  lemma CollidingPair(hashOf: Hasher, e: Entry, h: Hash, level: nat) returns (a: Key, b: Key)
    requires EntrySound(hashOf, e, Path(h, level)) && e.LeafMany? && e.hash != h
    ensures a != b && hashOf(a) == hashOf(b) != h && OnPath(hashOf, h, level, a)
    ensures EntryLookup(e, hashOf(a), level, a).Some? && EntryLookup(e, hashOf(b), level, b).Some?
  {
    a, b := e.pairs[0].0, e.pairs[1].0;
    FindPosition(e.pairs, a, 0);
    FindPosition(e.pairs, b, 1);
  }

  /** The keys of a map come from the operations that made it. */
  lemma {:induction false} MapAfterKeys(hashOf: Hasher, states: seq<Node>, ops: seq<Operation>, n: nat, k: Key) returns (i: nat)
    requires n <= |ops| && |ops| <= |states| && k in MapAfter(hashOf, states, ops, n)
    ensures i < n && ops[i].k == k
    decreases n
  {
    if k in MapAfter(hashOf, states, ops, n - 1) {
      i := MapAfterKeys(hashOf, states, ops, n - 1, k);
    } else {
      i := n - 1;
      ApplyToMapKeys(MapAfter(hashOf, states, ops, n - 1), ops[i], k);
    }
  }

  lemma ApplyToMapKeys(m: map<Key, Value>, op: Operation, k: Key)
    requires ApplyToMap(m, op).Ok? && k in ApplyToMap(m, op).value
    ensures k in m || k == op.k
  {
  }

  ghost predicate Panics(hashOf: Hasher, root: Node, op: Operation) {
    Shaped(root, []) && Apply(hashOf, root, op) == Err(Panicked)
  }

  /** In every run, an operation that panics comes after operations on two other keys that have one
      and the same other hash, which begins like its own. */
  lemma PanicNeedsCollision(hashOf: Hasher, states: seq<Node>, ops: seq<Operation>, n: nat) returns (i: nat, j: nat)
    requires Run(hashOf, states, ops) && n < |ops|
    requires Panics(hashOf, states[n], ops[n])
    ensures i < n && j < n && Colliding(hashOf, ops[i].k, ops[j].k, ops[n].k)
  {
    var m := MapAfter(hashOf, states, ops, n);
    RunAgreesWithMap(hashOf, states, ops, n);
    ApplyAgrees(hashOf, states[n], m, ops[n]);
    MapNeverPanics(m, ops[n]);
    var a, b := BlockedNeedsCollision(hashOf, states[n], hashOf(ops[n].k), 0);
    i := MapAfterKeys(hashOf, states, ops, n, a);
    j := MapAfterKeys(hashOf, states, ops, n, b);
  }

  lemma MapNeverPanics(m: map<Key, Value>, op: Operation)
    ensures ApplyToMap(m, op) != Err(Panicked)
  {
  }

  /** The map that the operations make by themselves. */
  function PlainMap(ops: seq<Operation>, n: nat): map<Key, Value>
    requires n <= |ops|
  {
    if n == 0 then map[] else
      var m := PlainMap(ops, n - 1);
      if ApplyToMap(m, ops[n - 1]).Ok? then ApplyToMap(m, ops[n - 1]).value else m
  }

  /** The keys of the operations have different hashes. */
  ghost predicate DistinctHashes(hashOf: Hasher, ops: seq<Operation>) {
    forall i, j :: 0 <= i < |ops| && 0 <= j < |ops| && hashOf(ops[i].k) == hashOf(ops[j].k) ==> ops[i].k == ops[j].k
  }

  /** As long as the keys of a run have different hashes, none of its operations panics, and a trie
      is the plain map of the operations. */
  lemma DistinctNeverPanics(hashOf: Hasher, states: seq<Node>, ops: seq<Operation>, n: nat)
    requires Run(hashOf, states, ops) && n < |states| && DistinctHashes(hashOf, ops)
    ensures Represents(hashOf, states[n], PlainMap(ops, n))
    ensures n < |ops| ==> Apply(hashOf, states[n], ops[n]) != Err(Panicked)
  {
    RunAgreesWithMap(hashOf, states, ops, n);
    forall i | 0 <= i < n ensures !IsBlocked(hashOf, states[i], ops[i].k) {
      DistinctNotBlocked(hashOf, states, ops, i);
    }
    UnblockedIsPlain(hashOf, states, ops, n);
    if n < |ops| {
      DistinctNotBlocked(hashOf, states, ops, n);
    }
  }

  lemma DistinctNotBlocked(hashOf: Hasher, states: seq<Node>, ops: seq<Operation>, n: nat)
    requires Run(hashOf, states, ops) && n < |ops| && DistinctHashes(hashOf, ops)
    ensures !IsBlocked(hashOf, states[n], ops[n].k) && !Panics(hashOf, states[n], ops[n])
  {
    RunAgreesWithMap(hashOf, states, ops, n);
    ApplyAgrees(hashOf, states[n], MapAfter(hashOf, states, ops, n), ops[n]);
    if Panics(hashOf, states[n], ops[n]) {
      var i, j := PanicNeedsCollision(hashOf, states, ops, n);
      assert false;
    }
  }

  /** Without blocked operations the map is that of all operations. */
  lemma {:induction false} UnblockedIsPlain(hashOf: Hasher, states: seq<Node>, ops: seq<Operation>, n: nat)
    requires n <= |ops| <= |states| && forall i :: 0 <= i < n ==> !IsBlocked(hashOf, states[i], ops[i].k)
    ensures MapAfter(hashOf, states, ops, n) == PlainMap(ops, n)
    decreases n
  {
    if n > 0 {
      UnblockedIsPlain(hashOf, states, ops, n - 1);
    }
  }

  // ---- Collisions ----

  /** Three keys: two with the same hash, and a third one whose hash begins alike. */
  ghost predicate Colliding(hashOf: Hasher, a: Key, b: Key, c: Key) {
    && a != b && hashOf(a) == hashOf(b) != hashOf(c)
    && LevelIndex(hashOf(a), 0) == LevelIndex(hashOf(c), 0)
  }

  /** Two keys with the same hash, inserted first, stop every operation on the third one, even its
      removal; a lookup finds nothing. */
  lemma CollisionFirstPanics(hashOf: Hasher, a: Key, b: Key, c: Key, v: Value, op: Operation)
    requires Colliding(hashOf, a, b, c) && op.k == c
    ensures Shaped(EMPTY, []) && Insert(hashOf, EMPTY, a, v).Ok?
    ensures var one := Insert(hashOf, EMPTY, a, v).value;
            Represents(hashOf, one, map[a := v]) && Insert(hashOf, one, b, v).Ok?
    ensures var two := Insert(hashOf, Insert(hashOf, EMPTY, a, v).value, b, v).value;
            && Represents(hashOf, two, map[a := v, b := v])
            && LookupRec(two, hashOf(c), 0, c) == None
            && Apply(hashOf, two, op) == Err(Panicked)
  {
    var h := hashOf(a);
    var i := LevelIndex(h, 0);
    EmptyRepresents(hashOf);
    NotBlockedWhenFew(hashOf, EMPTY, map[], h);
    InsertAgrees(hashOf, EMPTY, map[], a, v);
    var one := Insert(hashOf, EMPTY, a, v).value;
    NotBlockedWhenFew(hashOf, one, map[a := v], hashOf(b));
    InsertAgrees(hashOf, one, map[a := v], b, v);
    var two := Insert(hashOf, one, b, v).value;
    assert map[a := v][b := v] == map[a := v, b := v];
    FirstLeaf(hashOf, a, v);
    SecondCollides(hashOf, one, a, b, v);
    ChildOnPath(hashOf, two, hashOf(c), 0);
    assert Blocked(two, hashOf(c), 0);
    ApplyAgrees(hashOf, two, map[a := v, b := v], op);
  }

  lemma FirstLeaf(hashOf: Hasher, a: Key, v: Value)
    requires Represents(hashOf, EMPTY, map[])
    ensures var r := Insert(hashOf, EMPTY, a, v);
            r.Ok? && r.value.WellFormed() && ChildAt(r.value, LevelIndex(hashOf(a), 0)) == Some(Leaf(hashOf(a), a, v))
  {
    var i := LevelIndex(hashOf(a), 0);
    EmptyHasNone(EMPTY.bitmap);
    ChildOnPath(hashOf, EMPTY, hashOf(a), 0);
    SetAtChanges(EMPTY, i, Leaf(hashOf(a), a, v));
  }

  lemma SecondCollides(hashOf: Hasher, one: Node, a: Key, b: Key, v: Value)
    requires Sound(hashOf, one, []) && a != b && hashOf(a) == hashOf(b)
    requires ChildAt(one, LevelIndex(hashOf(a), 0)) == Some(Leaf(hashOf(a), a, v))
    ensures var r := Insert(hashOf, one, b, v);
            && r.Ok? && r.value.WellFormed()
            && ChildAt(r.value, LevelIndex(hashOf(a), 0)) == Some(LeafMany(hashOf(a), [(a, v), (b, v)]))
  {
    var i := LevelIndex(hashOf(a), 0);
    ChildOnPath(hashOf, one, hashOf(b), 0);
    ReplaceAtChanges(one, i, LeafMany(hashOf(a), [(a, v), (b, v)]));
  }

  /** A trie is not blocked for a hash if no two of its keys share another hash. */
  lemma NotBlockedWhenFew(hashOf: Hasher, root: Node, m: map<Key, Value>, h: Hash)
    requires Represents(hashOf, root, m)
    requires forall a, b :: a in m && b in m && a != b && hashOf(a) == hashOf(b) ==> hashOf(a) == h
    ensures !Blocked(root, h, 0)
  {
    if Blocked(root, h, 0) {
      var a, b := BlockedNeedsCollision(hashOf, root, h, 0);
      assert false;
    }
  }

  /** The same three keys in another order: all insertions succeed. */
  lemma CollisionLastSucceeds(hashOf: Hasher, a: Key, b: Key, c: Key, v: Value)
    requires Colliding(hashOf, a, b, c)
    ensures Shaped(EMPTY, []) && Insert(hashOf, EMPTY, c, v).Ok?
    ensures var one := Insert(hashOf, EMPTY, c, v).value;
            Represents(hashOf, one, map[c := v]) && Insert(hashOf, one, a, v).Ok?
    ensures var two := Insert(hashOf, Insert(hashOf, EMPTY, c, v).value, a, v).value;
            Represents(hashOf, two, map[a := v, c := v]) && Insert(hashOf, two, b, v).Ok?
    ensures var three := Insert(hashOf, Insert(hashOf, Insert(hashOf, EMPTY, c, v).value, a, v).value, b, v).value;
            Represents(hashOf, three, map[a := v, b := v, c := v])
  {
    EmptyRepresents(hashOf);
    NotBlockedWhenFew(hashOf, EMPTY, map[], hashOf(c));
    InsertAgrees(hashOf, EMPTY, map[], c, v);
    var one := Insert(hashOf, EMPTY, c, v).value;
    NotBlockedWhenFew(hashOf, one, map[c := v], hashOf(a));
    InsertAgrees(hashOf, one, map[c := v], a, v);
    var two := Insert(hashOf, one, a, v).value;
    assert map[c := v][a := v] == map[a := v, c := v];
    NotBlockedWhenFew(hashOf, two, map[a := v, c := v], hashOf(b));
    InsertAgrees(hashOf, two, map[a := v, c := v], b, v);
    assert map[a := v, c := v][b := v] == map[a := v, b := v, c := v];
  }
}
