/** The nodes of a hash array mapped trie, and the recursive operations on them. */
module HamtNode {
  import opened Arithmetic
  import opened HamtBitmap
  import opened Words
  import opened Wrappers

  type Key(==, !new)

  type Value(==, !new)

  type UserError(==, !new)

  type Hash = h: nat | h < Pow2(64) witness 0

  /** `Panicked` stands for a failed assertion. */
  datatype Failure = EntryExists | KeyNotFound | ValueNotMatching | CallbackError(error: UserError) | Panicked

  datatype Entry =
    | Leaf(hash: Hash, key: Key, value: Value)
    | LeafMany(hash: Hash, pairs: seq<(Key, Value)>)
    | SubNode(node: Node)

  datatype Node = Node(bitmap: SmallBitmap, children: seq<Entry>) {
    /** One child for each member of the bitmap. */
    ghost predicate WellFormed() {
      bitmap.Valid() && |children| == bitmap.Rank(FANOUT)
    }

    predicate IsEmpty() {
      bitmap.IsEmpty()
    }

    function SetAt(i: nat, child: Entry): Node
      requires WellFormed() && i < FANOUT
    {
      Position(this, i);
      var pos := bitmap.GetSparsePos(i);
      Node(bitmap.SetIndex(i), children[..pos] + [child] + children[pos..])
    }

    /** Nothing is left of a node that loses its last child. */
    function ClearAt(i: nat): Option<Node>
      requires WellFormed() && i < FANOUT && bitmap.Has(i)
    {
      Position(this, i);
      var pos := bitmap.GetSparsePos(i);
      if bitmap.ClearIndex(i).IsEmpty() then None
      else Some(Node(bitmap.ClearIndex(i), children[..pos] + children[pos + 1..]))
    }

    function ReplaceAt(pos: nat, child: Entry): Node
      requires pos < |children|
    {
      Node(bitmap, children[pos := child])
    }

    function ClearOrReplaceAt(i: nat, child: Option<Entry>): Option<Node>
      requires WellFormed() && i < FANOUT && bitmap.Has(i)
    {
      Position(this, i);
      match child
      case None => ClearAt(i)
      case Some(e) => Some(ReplaceAt(bitmap.GetSparsePos(i), e))
    }
  }

  lemma Position(node: Node, i: nat)
    requires node.WellFormed() && i < FANOUT
    ensures node.bitmap.GetSparsePos(i) == node.bitmap.Rank(i) <= |node.children|
    ensures node.bitmap.Has(i) ==> node.bitmap.Rank(i) < |node.children|
    ensures node.bitmap.GetIndexSparse(i) == if node.bitmap.Has(i) then Some(node.bitmap.Rank(i)) else None
  {
    SparsePosIsRank(node.bitmap, i);
    RankGrows(node.bitmap, i, FANOUT);
  }

  const EMPTY := Node(SmallBitmap(0), [])

  function Singleton(i: nat, child: Entry): Node
    requires i < FANOUT
  {
    Node(SmallBitmap.Once(i), [child])
  }

  // ---- Hashes ----

  function ShiftRight(x: nat, n: nat): nat {
    if n == 0 then x else ShiftRight(x / 2, n - 1)
  }

  /** Five bits of the hash for each level. The shift wraps at 64. */
  function LevelIndex(h: Hash, level: nat): (i: nat)
    ensures i < FANOUT
  {
    ShiftRight(h, level * 5 % 64) % FANOUT
  }

  /** The last level whose bits belong to the hash. */
  const LAST: nat := 12

  /** The indices on the way of a hash to the given level. */
  function Path(h: Hash, level: nat): (path: seq<nat>)
    ensures |path| == level
  {
    if level == 0 then [] else Path(h, level - 1) + [LevelIndex(h, level - 1)]
  }

  lemma {:induction false} PathAt(h: Hash, level: nat, j: nat)
    requires j < level
    ensures Path(h, level)[j] == LevelIndex(h, j)
    decreases level
  {
    if j < level - 1 {
      PathAt(h, level - 1, j);
    }
  }

  /** The `j`-th group of five bits. */
  function Digit(x: nat, j: nat): nat {
    ShiftRight(x, 5 * j) % FANOUT
  }

  /** Two hashes with the same indices at all levels are the same. */
  lemma PathIsHash(g: Hash, h: Hash)
    requires Path(g, LAST + 1) == Path(h, LAST + 1)
    ensures g == h
  {
    forall j: nat | j < 13 ensures Digit(g, j) == Digit(h, j) {
      PathAt(g, LAST + 1, j);
      PathAt(h, LAST + 1, j);
      IndexIsDigit(g, j);
      IndexIsDigit(h, j);
    }
    Pow2Grows(64, 65);
    SameDigits(g, h, 13);
  }

  lemma IndexIsDigit(h: Hash, j: nat)
    requires j <= LAST
    ensures LevelIndex(h, j) == Digit(h, j)
  {
    assert j * 5 % 64 == 5 * j;
  }

  lemma {:induction false} ShiftDivides(x: nat, n: nat)
    ensures ShiftRight(x, n) == x / Pow2(n)
    decreases n
  {
    if n > 0 {
      ShiftDivides(x / 2, n - 1);
      DivideTwice(x, Pow2(n - 1));
    }
  }

  lemma DivideTwice(x: nat, p: nat)
    requires p > 0
    ensures x / 2 / p == x / (2 * p)
  {
    var (q, s) := (x / 2 / p, x / 2 % p);
    assert x == 2 * p * q + (2 * s + x % 2);
    DivModUnique(2 * s + x % 2, q, 2 * p);
  }

  /** At level `j` the index of a hash is its `j`-th group of five bits from below. */
  lemma LevelIndexIs(h: Hash, j: nat)
    requires j <= 12
    ensures LevelIndex(h, j) == h / Pow2(5 * j) % 32
  {
    IndexIsDigit(h, j);
    ShiftDivides(h, 5 * j);
  }

  lemma ShiftByFive(x: nat, n: nat)
    ensures ShiftRight(x, n + 5) == ShiftRight(x / 32, n)
  {
    assert ShiftRight(x, n + 5) == ShiftRight(x / 2, n + 4) == ShiftRight(x / 2 / 2, n + 3)
        == ShiftRight(x / 2 / 2 / 2, n + 2) == ShiftRight(x / 2 / 2 / 2 / 2, n + 1) == ShiftRight(x / 2 / 2 / 2 / 2 / 2, n);
  }

  lemma NextDigit(x: nat, j: nat)
    ensures Digit(x, j + 1) == Digit(x / 32, j)
  {
    ShiftByFive(x, 5 * j);
  }

  lemma Pow2Five(n: nat)
    ensures Pow2(n + 5) == 32 * Pow2(n)
  {
    assert Pow2(n + 5) == 2 * Pow2(n + 4) == 4 * Pow2(n + 3) == 8 * Pow2(n + 2) == 16 * Pow2(n + 1);
  }

  lemma {:induction false} SameDigits(x: nat, y: nat, n: nat)
    requires x < Pow2(5 * n) && y < Pow2(5 * n)
    requires forall j: nat :: j < n ==> Digit(x, j) == Digit(y, j)
    ensures x == y
    decreases n
  {
    if n > 0 {
      Pow2Five(5 * (n - 1));
      assert Digit(x, 0) == Digit(y, 0);
      forall j: nat | j < n - 1 ensures Digit(x / 32, j) == Digit(y / 32, j) {
        NextDigit(x, j);
        NextDigit(y, j);
        assert Digit(x, j + 1) == Digit(y, j + 1);
      }
      SameDigits(x / 32, y / 32, n - 1);
    }
  }

  // ---- The shape of the trie ----

  /** The hash stored with a child, or the hashes below it, start with `path`. No node is deeper
      than the hash reaches, and no inner node is empty. */
  ghost predicate Shaped(node: Node, path: seq<nat>) {
    && node.WellFormed() && |path| <= LAST
    && forall i: nat :: i < FANOUT && node.bitmap.Has(i) ==>
         node.bitmap.Rank(i) < |node.children| && EntryShaped(node.children[node.bitmap.Rank(i)], path + [i])
  }

  ghost predicate EntryShaped(e: Entry, path: seq<nat>) {
    match e
    case Leaf(h, _, _) => Path(h, |path|) == path
    case LeafMany(h, pairs) => Path(h, |path|) == path && |pairs| >= 2
    case SubNode(node) => !node.IsEmpty() && Shaped(node, path)
  }

  lemma ChildShaped(node: Node, h: Hash, level: nat)
    requires Shaped(node, Path(h, level)) && node.bitmap.Has(LevelIndex(h, level))
    ensures var pos := node.bitmap.Rank(LevelIndex(h, level));
            pos < |node.children| && EntryShaped(node.children[pos], Path(h, level + 1))
  {
  }

  /** Two different hashes part before the last level. */
  lemma HashesPart(node: Node, h: Hash, level: nat)
    requires Shaped(node, Path(h, level)) && node.bitmap.Has(LevelIndex(h, level))
    ensures var pos := node.bitmap.Rank(LevelIndex(h, level));
            && pos < |node.children|
            && (node.children[pos].Leaf? && node.children[pos].hash != h ==> level < LAST)
  {
    ChildShaped(node, h, level);
    var e := node.children[node.bitmap.Rank(LevelIndex(h, level))];
    if e.Leaf? && level == LAST {
      PathIsHash(e.hash, h);
    }
  }

  lemma SingletonShaped(h: Hash, level: nat, e: Entry)
    requires level <= LAST && EntryShaped(e, Path(h, level + 1))
    ensures Shaped(Singleton(LevelIndex(h, level), e), Path(h, level))
    ensures Singleton(LevelIndex(h, level), e).bitmap.Rank(LevelIndex(h, level)) == 0
  {
    SingletonRank(LevelIndex(h, level));
  }

  lemma SingletonRank(i: nat)
    requires i < FANOUT
    ensures var m := SmallBitmap.Once(i);
            m.Valid() && m.Rank(i) == 0 && m.Rank(FANOUT) == 1 && forall j: nat :: m.Has(j) <==> j == i
  {
    OnceHasOne(i);
    var m := SmallBitmap.Once(i);
    forall j: nat ensures Bit(m.bits, j) <==> j == i {
      assert m.Has(j) <==> j == i;
    }
    OnesStop(m.bits, 0, i);
    OnesStop(m.bits, i + 1, FANOUT);
  }

  // ---- Collisions ----

  /** The first pair with the key. */
  function Find(pairs: seq<(Key, Value)>, k: Key): (r: Option<nat>)
    ensures match r
            case Some(pos) => pos < |pairs| && pairs[pos].0 == k
            case None => forall j :: 0 <= j < |pairs| ==> pairs[j].0 != k
  {
    if pairs == [] then None
    else if pairs[0].0 == k then Some(0)
    else
      var r := Find(pairs[1..], k);
      if r.Some? then Some(r.value + 1) else assert pairs == [pairs[0]] + pairs[1..]; None
  }

  /** A collision without the pair at `pos`: a leaf if one pair is left. */
  function WithoutPair(h: Hash, pairs: seq<(Key, Value)>, pos: nat): Entry
    requires pos < |pairs| && |pairs| >= 2
  {
    if |pairs| == 2 then
      var kept := if pos == 0 then pairs[1] else pairs[0];
      Leaf(h, kept.0, kept.1)
    else
      LeafMany(h, pairs[..pos] + pairs[pos + 1..])
  }

  function CollisionRemove(h: Hash, pairs: seq<(Key, Value)>, k: Key): Result<Entry, Failure>
    requires |pairs| >= 2
  {
    var pos := Find(pairs, k);
    if pos.None? then Err(KeyNotFound) else Ok(WithoutPair(h, pairs, pos.value))
  }

  function CollisionRemoveMatch(h: Hash, pairs: seq<(Key, Value)>, k: Key, v: Value): Result<Entry, Failure>
    requires |pairs| >= 2
  {
    var pos := Find(pairs, k);
    if pos.None? then Err(KeyNotFound)
    else if pairs[pos.value].1 != v then Err(ValueNotMatching)
    else Ok(WithoutPair(h, pairs, pos.value))
  }

  /** A callback that deletes, replaces or refuses a value. */
  type Callback = Value -> Result<Option<Value>, Failure>

  function CollisionUpdate(h: Hash, pairs: seq<(Key, Value)>, k: Key, f: Callback): Result<Entry, Failure>
    requires |pairs| >= 2
  {
    var pos := Find(pairs, k);
    if pos.None? then Err(KeyNotFound)
    else
      match f(pairs[pos.value].1)
      case Err(e) => Err(e)
      case Ok(None) => Ok(WithoutPair(h, pairs, pos.value))
      case Ok(Some(v)) => Ok(LeafMany(h, pairs[pos.value := (k, v)]))
  }

  function CollisionReplace(h: Hash, pairs: seq<(Key, Value)>, k: Key, v: Value): Result<(Entry, Value), Failure> {
    var pos := Find(pairs, k);
    if pos.None? then Err(KeyNotFound)
    else Ok((LeafMany(h, pairs[pos.value := (k, v)]), pairs[pos.value].1))
  }

  function CollisionReplaceWith(h: Hash, pairs: seq<(Key, Value)>, k: Key, f: Value -> Value): Result<Entry, Failure> {
    var pos := Find(pairs, k);
    if pos.None? then Err(KeyNotFound)
    else Ok(LeafMany(h, pairs[pos.value := (k, f(pairs[pos.value].1))]))
  }

  // ---- The operations ----

  function InsertRec(node: Node, h: Hash, level: nat, k: Key, v: Value): Result<Node, Failure>
    requires Shaped(node, Path(h, level))
    decreases LAST + 1 - level, 0
  {
    var i := LevelIndex(h, level);
    Position(node, i);
    match node.bitmap.GetIndexSparse(i)
    case None => Ok(node.SetAt(i, Leaf(h, k, v)))
    case Some(pos) =>
      ChildShaped(node, h, level);
      match node.children[pos]
      case Leaf(lh, lk, lv) =>
        if lh == h then
          if lk == k then Err(EntryExists)
          else Ok(node.ReplaceAt(pos, LeafMany(lh, [(lk, lv), (k, v)])))
        else
          HashesPart(node, h, level);
          var r := Parted(node.children[pos], h, level + 1, k, v);
          if r.Err? then r else Ok(node.ReplaceAt(pos, SubNode(r.value)))
      case LeafMany(lh, pairs) =>
        if lh != h then Err(Panicked)
        else if Find(pairs, k).Some? then Err(EntryExists)
        else Ok(node.ReplaceAt(pos, LeafMany(lh, pairs + [(k, v)])))
      case SubNode(sub) =>
        var r := InsertRec(sub, h, level + 1, k, v);
        if r.Err? then r else Ok(node.ReplaceAt(pos, SubNode(r.value)))
  }

  /** A new node for a leaf and a key whose hashes do not part above `level`. */
  function Parted(leaf: Entry, h: Hash, level: nat, k: Key, v: Value): Result<Node, Failure>
    requires leaf.Leaf? && leaf.hash != h && level <= LAST && Path(leaf.hash, level) == Path(h, level)
    decreases LAST + 1 - level, 1
  {
    var (i, j) := (LevelIndex(leaf.hash, level), LevelIndex(h, level));
    SingletonShaped(leaf.hash, level, leaf);
    var sub := Singleton(i, leaf);
    if i != j then Ok(sub.SetAt(j, Leaf(h, k, v)))
    else InsertRec(sub, h, level, k, v)
  }

  function LookupRec(node: Node, h: Hash, level: nat, k: Key): Option<Value>
    requires Shaped(node, Path(h, level))
    decreases LAST + 1 - level
  {
    var i := LevelIndex(h, level);
    Position(node, i);
    match node.bitmap.GetIndexSparse(i)
    case None => None
    case Some(pos) =>
      ChildShaped(node, h, level);
      match node.children[pos]
      case Leaf(lh, lk, lv) => if lh == h && lk == k then Some(lv) else None
      case LeafMany(lh, pairs) =>
        if lh != h then None
        else
          var found := Find(pairs, k);
          if found.Some? then Some(pairs[found.value].1) else None
      case SubNode(sub) => LookupRec(sub, h, level + 1, k)
  }

  function RemoveRec(node: Node, h: Hash, level: nat, k: Key): Result<Option<Node>, Failure>
    requires Shaped(node, Path(h, level))
    decreases LAST + 1 - level
  {
    var i := LevelIndex(h, level);
    Position(node, i);
    match node.bitmap.GetIndexSparse(i)
    case None => Err(KeyNotFound)
    case Some(pos) =>
      ChildShaped(node, h, level);
      match node.children[pos]
      case Leaf(lh, lk, _) => if lh == h && lk == k then Ok(node.ClearAt(i)) else Err(KeyNotFound)
      case LeafMany(lh, pairs) =>
        if lh != h then Err(Panicked)
        else
          var r := CollisionRemove(h, pairs, k);
          if r.Err? then Err(r.error) else Ok(Some(node.ReplaceAt(pos, r.value)))
      case SubNode(sub) =>
        match RemoveRec(sub, h, level + 1, k)
        case Err(e) => Err(e)
        case Ok(None) => Ok(node.ClearAt(i))
        case Ok(Some(sub')) => Ok(Some(node.ReplaceAt(pos, SubNode(sub'))))
  }

  function RemoveEqRec(node: Node, h: Hash, level: nat, k: Key, v: Value): Result<Option<Node>, Failure>
    requires Shaped(node, Path(h, level))
    decreases LAST + 1 - level
  {
    var i := LevelIndex(h, level);
    Position(node, i);
    match node.bitmap.GetIndexSparse(i)
    case None => Err(KeyNotFound)
    case Some(pos) =>
      ChildShaped(node, h, level);
      match node.children[pos]
      case Leaf(lh, lk, lv) =>
        if lh == h && lk == k then
          if lv == v then Ok(node.ClearAt(i)) else Err(ValueNotMatching)
        else Err(KeyNotFound)
      case LeafMany(lh, pairs) =>
        if lh != h then Err(Panicked)
        else
          var r := CollisionRemoveMatch(h, pairs, k, v);
          if r.Err? then Err(r.error) else Ok(Some(node.ReplaceAt(pos, r.value)))
      case SubNode(sub) =>
        match RemoveEqRec(sub, h, level + 1, k, v)
        case Err(e) => Err(e)
        case Ok(None) => Ok(node.ClearAt(i))
        case Ok(Some(sub')) => Ok(Some(node.ReplaceAt(pos, SubNode(sub'))))
  }

  function UpdateRec(node: Node, h: Hash, level: nat, k: Key, f: Callback): Result<Option<Node>, Failure>
    requires Shaped(node, Path(h, level))
    decreases LAST + 1 - level
  {
    var i := LevelIndex(h, level);
    Position(node, i);
    match node.bitmap.GetIndexSparse(i)
    case None => Err(KeyNotFound)
    case Some(pos) =>
      ChildShaped(node, h, level);
      match node.children[pos]
      case Leaf(lh, lk, lv) =>
        if lh == h && lk == k then
          match f(lv)
          case Err(e) => Err(e)
          case Ok(None) => Ok(node.ClearOrReplaceAt(i, None))
          case Ok(Some(v)) => Ok(node.ClearOrReplaceAt(i, Some(Leaf(lh, lk, v))))
        else Err(KeyNotFound)
      case LeafMany(lh, pairs) =>
        if lh != h then Err(Panicked)
        else
          var r := CollisionUpdate(h, pairs, k, f);
          if r.Err? then Err(r.error) else Ok(Some(node.ReplaceAt(pos, r.value)))
      case SubNode(sub) =>
        match UpdateRec(sub, h, level + 1, k, f)
        case Err(e) => Err(e)
        case Ok(None) => Ok(node.ClearAt(i))
        case Ok(Some(sub')) => Ok(Some(node.ReplaceAt(pos, SubNode(sub'))))
  }

  function ReplaceRec(node: Node, h: Hash, level: nat, k: Key, v: Value): Result<(Node, Value), Failure>
    requires Shaped(node, Path(h, level))
    decreases LAST + 1 - level
  {
    var i := LevelIndex(h, level);
    Position(node, i);
    match node.bitmap.GetIndexSparse(i)
    case None => Err(KeyNotFound)
    case Some(pos) =>
      ChildShaped(node, h, level);
      match node.children[pos]
      case Leaf(lh, lk, lv) =>
        if lh == h && lk == k then Ok((node.ReplaceAt(pos, Leaf(lh, lk, v)), lv)) else Err(KeyNotFound)
      case LeafMany(lh, pairs) =>
        if lh != h then Err(Panicked)
        else
          var r := CollisionReplace(lh, pairs, k, v);
          if r.Err? then Err(r.error) else Ok((node.ReplaceAt(pos, r.value.0), r.value.1))
      case SubNode(sub) =>
        match ReplaceRec(sub, h, level + 1, k, v)
        case Err(e) => Err(e)
        case Ok((sub', old_)) => Ok((node.ReplaceAt(pos, SubNode(sub')), old_))
  }

  function ReplaceWithRec(node: Node, h: Hash, level: nat, k: Key, f: Value -> Value): Result<Node, Failure>
    requires Shaped(node, Path(h, level))
    decreases LAST + 1 - level
  {
    var i := LevelIndex(h, level);
    Position(node, i);
    match node.bitmap.GetIndexSparse(i)
    case None => Err(KeyNotFound)
    case Some(pos) =>
      ChildShaped(node, h, level);
      match node.children[pos]
      case Leaf(lh, lk, lv) =>
        if lh == h && lk == k then Ok(node.ReplaceAt(pos, Leaf(lh, lk, f(lv)))) else Err(KeyNotFound)
      case LeafMany(lh, pairs) =>
        if lh != h then Err(Panicked)
        else
          var r := CollisionReplaceWith(lh, pairs, k, f);
          if r.Err? then Err(r.error) else Ok(node.ReplaceAt(pos, r.value))
      case SubNode(sub) =>
        match ReplaceWithRec(sub, h, level + 1, k, f)
        case Err(e) => Err(e)
        case Ok(sub') => Ok(node.ReplaceAt(pos, SubNode(sub')))
  }
}
