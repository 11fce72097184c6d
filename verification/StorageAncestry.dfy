/** Ancestor queries. The reference notion is to follow parent links one by one; the
    queries take shortcuts through the permanent part and the chain length index. */
module StorageAncestry {
  import opened Wrappers
  import opened StorageState

  ghost predicate TreeOk(s: Store) {
    s.permanent.Consistent() && LinksOk(s)
  }

  lemma ParentExists(s: Store, id: Id)
    requires TreeOk(s) && BlockExists(s, id)
    ensures LengthOf(s, id) == 0 ==> ParentOf(s, id) == s.root
    ensures LengthOf(s, id) > 0 ==>
              BlockExists(s, ParentOf(s, id)) && LengthOf(s, ParentOf(s, id)) == LengthOf(s, id) - 1
  {
    if id in s.info {
      assert Linked(s, s.info[id].parentId, s.info[id].chainLength);
    }
  }

  /** The block reached from `id` by following `n` parent links. */
  function Follow(s: Store, id: Id, n: nat): (r: Id)
    requires TreeOk(s) && BlockExists(s, id) && n <= LengthOf(s, id)
    ensures BlockExists(s, r) && LengthOf(s, r) == LengthOf(s, id) - n
    decreases n
  {
    ParentExists(s, id);
    if n == 0 then id else Follow(s, ParentOf(s, id), n - 1)
  }

  lemma {:induction false} FollowAdd(s: Store, id: Id, m: nat, n: nat)
    requires TreeOk(s) && BlockExists(s, id) && m + n <= LengthOf(s, id)
    ensures Follow(s, Follow(s, id, m), n) == Follow(s, id, m + n)
    decreases m
  {
    if m > 0 {
      ParentExists(s, id);
      var parentId := ParentOf(s, id);
      FollowAdd(s, parentId, m - 1, n);
      assert Follow(s, id, m) == Follow(s, parentId, m - 1);
      assert Follow(s, id, m + n) == Follow(s, parentId, m + n - 1);
    }
  }

  /** `a` is met when following parent links from `d`, starting with `d` itself. */
  ghost predicate IsAncestor(s: Store, a: Id, d: Id)
    requires TreeOk(s) && BlockExists(s, d)
  {
    && BlockExists(s, a)
    && LengthOf(s, a) <= LengthOf(s, d)
    && Follow(s, d, LengthOf(s, d) - LengthOf(s, a)) == a
  }

  /** The number of permanent blocks on the path from `id` to the root. */
  function Fork(s: Store, id: Id): (n: nat)
    requires TreeOk(s) && BlockExists(s, id)
    ensures n <= |s.permanent.ids| && n <= LengthOf(s, id) + 1
    ensures id in s.permanent.index <==> n == LengthOf(s, id) + 1
    decreases LengthOf(s, id)
  {
    ParentExists(s, id);
    if id in s.permanent.index then s.permanent.index[id] + 1
    else if LengthOf(s, id) == 0 then 0
    else Fork(s, ParentOf(s, id))
  }

  /** Below the fork a path runs through the permanent part, above it through the volatile part. */
  lemma {:induction false} FollowFork(s: Store, id: Id, n: nat)
    requires TreeOk(s) && BlockExists(s, id) && n <= LengthOf(s, id)
    ensures LengthOf(s, id) - n < Fork(s, id) ==> Follow(s, id, n) == s.permanent.ids[LengthOf(s, id) - n]
    ensures LengthOf(s, id) - n >= Fork(s, id) ==> Follow(s, id, n) in s.info
    decreases n
  {
    if n > 0 {
      ParentExists(s, id);
      FollowFork(s, ParentOf(s, id), n - 1);
    }
  }

  /** Without a stale branch every volatile block descends from the last permanent one. */
  lemma {:induction false} NoStaleFork(s: Store, id: Id)
    requires TreeOk(s) && NoStaleBranch(s) && id in s.info
    ensures Fork(s, id) == |s.permanent.ids| <= LengthOf(s, id)
    decreases LengthOf(s, id)
  {
    ParentExists(s, id);
    if s.info[id].parentId in s.info {
      NoStaleFork(s, s.info[id].parentId);
    } else {
      assert s.info[id].parentId == Top(s);
    }
  }

  // ---- get_nth_ancestor ----

  /** The metadata of a stored block. */
  function Info(s: Store, id: Id): (info: BlockInfo)
    requires TreeOk(s) && BlockExists(s, id)
    ensures info.Header() == (id, ParentOf(s, id), LengthOf(s, id))
    ensures GetBlockInfo(s, id) == Ok(info)
  {
    GetBlockInfo(s, id).value
  }

  lemma InfoByChainLength(s: Store, chainLength: nat)
    requires TreeOk(s)
    ensures s.permanent.GetBlockInfoByChainLength(chainLength, s.root) ==
            if chainLength < |s.permanent.ids| then Some(Info(s, s.permanent.ids[chainLength])) else None
  {
    if chainLength < |s.permanent.ids| {
      var id := s.permanent.ids[chainLength];
      assert s.permanent.index[id] == chainLength;
      assert chainLength > 0 ==> s.permanent.ids[chainLength - 1] in s.permanent.index;
    }
  }

  lemma InfoMissing(s: Store, id: Id)
    requires !BlockExists(s, id)
    ensures GetBlockInfo(s, id) == Err(BlockNotFound)
  {
  }

  /** What the query answers, in terms of the path. */
  function NthAncestor(s: Store, id: Id, distance: nat): Result<BlockInfo, Error>
    requires TreeOk(s)
  {
    if !BlockExists(s, id) then Err(BlockNotFound)
    else if distance > LengthOf(s, id) then Err(CannotIterate)
    else if LengthOf(s, id) - distance < |s.permanent.ids| then
      Ok(Info(s, s.permanent.ids[LengthOf(s, id) - distance]))
    else Ok(Info(s, Follow(s, id, distance)))
  }

  /** The answer in terms of what the two parts of the store report. */
  lemma NthAncestorCases(s: Store, id: Id, distance: nat)
    requires TreeOk(s)
    ensures match GetBlockInfo(s, id)
            case Err(e) => NthAncestor(s, id, distance) == Err(e)
            case Ok(info) =>
              && BlockExists(s, id) && info == Info(s, id)
              && if distance > info.chainLength then
                   NthAncestor(s, id, distance) == Err(CannotIterate)
                 else
                   match s.permanent.GetBlockInfoByChainLength(info.chainLength - distance, s.root)
                   case Some(i) => NthAncestor(s, id, distance) == Ok(i)
                   case None =>
                     && |s.permanent.ids| <= info.chainLength - distance
                     && NthAncestor(s, id, distance) == Ok(Info(s, Follow(s, id, distance)))
  {
    if BlockExists(s, id) && distance <= LengthOf(s, id) {
      InfoByChainLength(s, LengthOf(s, id) - distance);
    } else if !BlockExists(s, id) {
      InfoMissing(s, id);
    }
  }

  /** Whether the answer is the block found by following parent links. */
  ghost predicate NthAncestorCorrect(s: Store, id: Id, distance: nat)
    requires TreeOk(s) && BlockExists(s, id) && distance <= LengthOf(s, id)
  {
    NthAncestor(s, id, distance) == Ok(Info(s, Follow(s, id, distance)))
  }

  /** The answer is wrong exactly when the path passes through a stale branch at the target length. */
  lemma NthAncestorCorrectWhen(s: Store, id: Id, distance: nat)
    requires TreeOk(s) && BlockExists(s, id) && distance <= LengthOf(s, id)
    ensures NthAncestorCorrect(s, id, distance) <==>
            !(Fork(s, id) <= LengthOf(s, id) - distance < |s.permanent.ids|)
  {
    FollowFork(s, id, distance);
    var target := LengthOf(s, id) - distance;
    if target < |s.permanent.ids| {
      assert Info(s, s.permanent.ids[target]).id == s.permanent.ids[target];
      assert Info(s, Follow(s, id, distance)).id == Follow(s, id, distance);
    }
  }

  /** The query is right about all blocks and distances exactly while there is no stale branch. */
  lemma NthAncestorAlwaysCorrect(s: Store)
    requires TreeOk(s)
    ensures NoStaleBranch(s) <==>
            forall id, distance: nat :: BlockExists(s, id) && distance <= LengthOf(s, id) ==>
              NthAncestorCorrect(s, id, distance)
  {
    if NoStaleBranch(s) {
      forall id, distance: nat | BlockExists(s, id) && distance <= LengthOf(s, id)
        ensures NthAncestorCorrect(s, id, distance)
      {
        NthAncestorCorrectWhen(s, id, distance);
        if id in s.info {
          NoStaleFork(s, id);
        }
      }
    } else {
      var v := StaleBlock(s);
      NthAncestorCorrectWhen(s, v, 0);
    }
  }

  /** The lowest block of a stale branch. */
  lemma StaleBlock(s: Store) returns (v: Id)
    requires TreeOk(s) && !NoStaleBranch(s)
    ensures v in s.info && Fork(s, v) == LengthOf(s, v) < |s.permanent.ids|
    ensures ParentOf(s, v) !in s.info
  {
    v :| v in s.info && s.info[v].parentId !in s.info && s.info[v].parentId != Top(s);
    ParentExists(s, v);
  }

  // ---- is_ancestor ----

  /** The index lists no other block at the length of `a`. */
  predicate OnlyEntry(s: Store, a: Id)
    requires BlockExists(s, a)
  {
    forall e :: e in s.lengths && e.chainLength == LengthOf(s, a) ==> e.id == a
  }

  /** What the query answers, in terms of the path. */
  function AncestorDistance(s: Store, a: Id, d: Id): Result<Option<nat>, Error>
    requires TreeOk(s)
  {
    if !BlockExists(s, d) then Err(BlockNotFound)
    else if a == s.root then Ok(Some(LengthOf(s, d)))
    else if !BlockExists(s, a) then Err(BlockNotFound)
    else if LengthOf(s, a) > LengthOf(s, d) then Ok(None)
    else if LengthOf(s, a) == LengthOf(s, d) then Ok(if a == d then Some(0) else None)
    else
      var distance := LengthOf(s, d) - LengthOf(s, a);
      if a in s.permanent.index || OnlyEntry(s, a) || Follow(s, d, distance) == a then Ok(Some(distance))
      else Ok(None)
  }

  /** The answer in terms of what the two parts of the store report. */
  lemma AncestorDistanceCases(s: Store, a: Id, d: Id)
    requires TreeOk(s)
    ensures match GetBlockInfo(s, d)
            case Err(e) => AncestorDistance(s, a, d) == Err(e)
            case Ok(info) =>
              && BlockExists(s, d) && info == Info(s, d)
              && AncestorDistance(s, a, d) ==
                 if a == d then Ok(Some(0))
                 else if a == s.root then Ok(Some(info.chainLength))
                 else if a in s.permanent.index then
                   Ok(if s.permanent.index[a] < info.chainLength then Some(info.chainLength - s.permanent.index[a]) else None)
                 else if a !in s.info then Err(BlockNotFound)
                 else if info.chainLength <= s.info[a].chainLength then Ok(None)
                 else if info.parentId == a then Ok(Some(1))
                 else if OnlyEntry(s, a) then Ok(Some(info.chainLength - s.info[a].chainLength))
                 else Ok(TrueDistance(s, a, d))
  {
    if BlockExists(s, d) {
      if LengthOf(s, d) > 0 {
        StepUp(s, d, 0);
      } else {
        ParentExists(s, d);
      }
      if a in s.permanent.index && LengthOf(s, a) == LengthOf(s, d) && a != d {
        assert AncestorDistance(s, a, d) == Ok(None);
      }
    } else {
      InfoMissing(s, d);
    }
  }

  /** The answer that following parent links gives for a stored block. */
  ghost function TrueDistance(s: Store, a: Id, d: Id): Option<nat>
    requires TreeOk(s) && BlockExists(s, a) && BlockExists(s, d)
  {
    if IsAncestor(s, a, d) then Some(LengthOf(s, d) - LengthOf(s, a)) else None
  }

  /** The answer is wrong exactly when a stale branch hides behind one of the two shortcuts:
      a permanent `a` at or above the fork of `d`, or a volatile `a` below the fork of `d`
      that is the only block listed at its length. */
  lemma AncestorDistanceCorrectWhen(s: Store, a: Id, d: Id)
    requires TreeOk(s) && LengthsOk(s) && BlockExists(s, a) && BlockExists(s, d)
    ensures AncestorDistance(s, a, d) == Ok(TrueDistance(s, a, d)) <==>
            !(LengthOf(s, a) < LengthOf(s, d) &&
              if a in s.permanent.index then Fork(s, d) <= LengthOf(s, a)
              else LengthOf(s, a) < Fork(s, d) && OnlyEntry(s, a))
  {
    if LengthOf(s, a) < LengthOf(s, d) {
      var isOnPath := Follow(s, d, LengthOf(s, d) - LengthOf(s, a)) == a;
      assert IsAncestor(s, a, d) <==> isOnPath;
      assert AncestorDistance(s, a, d) == Ok(TrueDistance(s, a, d)) <==>
             isOnPath || (a !in s.permanent.index && !OnlyEntry(s, a));
      if a in s.permanent.index {
        FollowFork(s, d, LengthOf(s, d) - LengthOf(s, a));
      } else {
        SoleEntry(s, a, d);
      }
    }
  }

  /** If the index lists only `a` at its length, a path that is volatile there runs through `a`. */
  lemma SoleEntry(s: Store, a: Id, d: Id)
    requires TreeOk(s) && LengthsOk(s) && a in s.info && BlockExists(s, d) && LengthOf(s, a) <= LengthOf(s, d)
    ensures OnlyEntry(s, a) ==>
              (Follow(s, d, LengthOf(s, d) - LengthOf(s, a)) == a <==> Fork(s, d) <= LengthOf(s, a))
  {
    var x := Follow(s, d, LengthOf(s, d) - LengthOf(s, a));
    FollowFork(s, d, LengthOf(s, d) - LengthOf(s, a));
    if x in s.info {
      assert LengthEntry(s.info[x].chainLength, x) in s.lengths;
    }
  }

  /** Without a stale branch the answer is always right. */
  lemma AncestorDistanceCorrect(s: Store, a: Id, d: Id)
    requires Consistent(s) && NoStaleBranch(s) && BlockExists(s, a) && BlockExists(s, d)
    ensures AncestorDistance(s, a, d) == Ok(TrueDistance(s, a, d))
  {
    AncestorDistanceCorrectWhen(s, a, d);
    if d in s.info {
      NoStaleFork(s, d);
    }
    if a in s.info {
      NoStaleFork(s, a);
    }
  }

  // ---- find_lowest_common_ancestor ----

  ghost predicate IsCommonAncestor(s: Store, c: Id, a: Id, b: Id)
    requires TreeOk(s) && BlockExists(s, a) && BlockExists(s, b)
  {
    IsAncestor(s, c, a) && IsAncestor(s, c, b)
  }

  /** A common ancestor of maximal chain length, or none if there is no common ancestor. */
  ghost predicate IsLowest(s: Store, a: Id, b: Id, r: Option<Id>)
    requires TreeOk(s) && BlockExists(s, a) && BlockExists(s, b)
  {
    match r
    case Some(c) =>
      && IsCommonAncestor(s, c, a, b)
      && forall x :: IsCommonAncestor(s, x, a, b) ==> LengthOf(s, x) <= LengthOf(s, c)
    case None =>
      forall x :: !IsCommonAncestor(s, x, a, b)
  }

  /** Two blocks of equal length go down in lockstep until they meet. */
  function Meet(s: Store, a: Id, b: Id): (r: Option<Id>)
    requires TreeOk(s) && BlockExists(s, a) && BlockExists(s, b) && LengthOf(s, a) == LengthOf(s, b)
    ensures r.Some? ==> BlockExists(s, r.value)
    decreases LengthOf(s, a)
  {
    ParentExists(s, a);
    ParentExists(s, b);
    if a == b then Some(a)
    else if LengthOf(s, a) == 0 then None
    else Meet(s, ParentOf(s, a), ParentOf(s, b))
  }

  /** Two different blocks of the same length meet where their parents meet. */
  lemma LockstepRound(s: Store, a: BlockInfo, b: BlockInfo)
    requires TreeOk(s) && a.id != b.id && a.chainLength == b.chainLength > 0
    requires BlockExists(s, a.id) && a == Info(s, a.id) && BlockExists(s, b.id) && b == Info(s, b.id)
    ensures BlockExists(s, a.parentId) && BlockExists(s, b.parentId)
    ensures Info(s, a.parentId).id == a.parentId && Info(s, b.parentId).id == b.parentId
    ensures Info(s, a.parentId).chainLength == Info(s, b.parentId).chainLength == a.chainLength - 1
    ensures GetBlockInfo(s, a.parentId) == Ok(Info(s, a.parentId)) && GetBlockInfo(s, b.parentId) == Ok(Info(s, b.parentId))
    ensures Meet(s, a.parentId, b.parentId) == Meet(s, a.id, b.id)
  {
    ParentExists(s, a.id);
    ParentExists(s, b.id);
  }

  lemma AncestorOfParent(s: Store, x: Id, d: Id)
    requires TreeOk(s) && BlockExists(s, d) && LengthOf(s, d) > 0
    ensures BlockExists(s, ParentOf(s, d))
    ensures IsAncestor(s, x, d) <==> x == d || IsAncestor(s, x, ParentOf(s, d))
  {
    ParentExists(s, d);
  }

  lemma {:induction false} MeetIsLowest(s: Store, a: Id, b: Id)
    requires TreeOk(s) && BlockExists(s, a) && BlockExists(s, b) && LengthOf(s, a) == LengthOf(s, b)
    ensures IsLowest(s, a, b, Meet(s, a, b))
    decreases LengthOf(s, a)
  {
    if a != b && LengthOf(s, a) > 0 {
      ParentExists(s, a);
      ParentExists(s, b);
      MeetIsLowest(s, ParentOf(s, a), ParentOf(s, b));
      forall x ensures IsCommonAncestor(s, x, a, b) <==> IsCommonAncestor(s, x, ParentOf(s, a), ParentOf(s, b)) {
        AncestorOfParent(s, x, a);
        AncestorOfParent(s, x, b);
      }
    }
  }

  /** What the query answers, in terms of the path. */
  function LowestCommonAncestor(s: Store, a: Id, b: Id): (r: Result<Option<Id>, Error>)
    requires TreeOk(s)
    ensures r.Ok? && r.value.Some? ==> BlockExists(s, r.value.value)
  {
    if !BlockExists(s, a) || !BlockExists(s, b) then
      Err(BlockNotFound)
    else if a in s.permanent.index && b in s.permanent.index then
      Ok(Some(if LengthOf(s, a) < LengthOf(s, b) then a else b))
    else if a in s.permanent.index then
      Ok(Some(a))
    else if b in s.permanent.index then
      Ok(Some(b))
    else if LengthOf(s, a) > LengthOf(s, b) then
      Ok(MeetBelow(s, b, a))
    else
      Ok(MeetBelow(s, a, b))
  }

  /** The meeting point of `a` with the ancestor of `b` that the n-th ancestor query reports. */
  function MeetBelow(s: Store, a: Id, b: Id): (r: Option<Id>)
    requires TreeOk(s) && BlockExists(s, a) && BlockExists(s, b) && LengthOf(s, a) <= LengthOf(s, b)
    ensures r.Some? ==> BlockExists(s, r.value)
  {
    var distance := LengthOf(s, b) - LengthOf(s, a);
    if LengthOf(s, a) < |s.permanent.ids| then Meet(s, a, s.permanent.ids[LengthOf(s, a)])
    else Meet(s, a, Follow(s, b, distance))
  }

  /** For two volatile blocks the query compares `a` with the n-th ancestor of `b`. */
  lemma MeetBelowCases(s: Store, a: BlockInfo, b: BlockInfo, r: Result<BlockInfo, Error>)
    requires TreeOk(s) && a.id in s.info && s.info[a.id] == a && b.id in s.info && s.info[b.id] == b
    requires a.chainLength <= b.chainLength
    requires r == NthAncestor(s, b.id, b.chainLength - a.chainLength)
    ensures r.Ok? && BlockExists(s, r.value.id) && r.value == Info(s, r.value.id) && a == Info(s, a.id)
    ensures r.value.chainLength == a.chainLength == LengthOf(s, a.id) == LengthOf(s, r.value.id)
    ensures MeetBelow(s, a.id, b.id) == Meet(s, a.id, r.value.id)
  {
  }

  /** Two volatile blocks are ordered by length before they are compared. */
  lemma VolatilePair(s: Store, a: Id, b: Id)
    requires TreeOk(s) && a in s.info && b in s.info
    ensures s.info[a] == Info(s, a) && s.info[b] == Info(s, b)
    ensures LowestCommonAncestorInfo(s, a, b) ==
            Ok(InfoOption(s, if s.info[a].chainLength > s.info[b].chainLength then MeetBelow(s, b, a) else MeetBelow(s, a, b)))
  {
  }

  function InfoOption(s: Store, id: Option<Id>): Option<BlockInfo>
    requires TreeOk(s) && (id.Some? ==> BlockExists(s, id.value))
  {
    if id.Some? then Some(Info(s, id.value)) else None
  }

  /** The metadata of the block that the query answers with. */
  function LowestCommonAncestorInfo(s: Store, a: Id, b: Id): Result<Option<BlockInfo>, Error>
    requires TreeOk(s)
  {
    match LowestCommonAncestor(s, a, b)
    case Ok(id) => Ok(InfoOption(s, id))
    case Err(e) => Err(e)
  }

  /** The answer in terms of what the two parts of the store report. */
  lemma LowestCommonAncestorCases(s: Store, a: Id, b: Id)
    requires TreeOk(s)
    ensures var pa, pb := s.permanent.GetBlockInfo(a, s.root), s.permanent.GetBlockInfo(b, s.root);
            && pa.Ok? && pb.Ok?
            && match (pa.value, pb.value)
               case (Some(i), Some(j)) =>
                 LowestCommonAncestorInfo(s, a, b) == Ok(Some(if i.chainLength < j.chainLength then i else j))
               case (Some(i), None) =>
                 LowestCommonAncestorInfo(s, a, b) == if b in s.info then Ok(Some(i)) else Err(BlockNotFound)
               case (None, Some(j)) =>
                 LowestCommonAncestorInfo(s, a, b) == if a in s.info then Ok(Some(j)) else Err(BlockNotFound)
               case (None, None) =>
                 (a in s.info && b in s.info) || LowestCommonAncestorInfo(s, a, b) == Err(BlockNotFound)
  {
    PermanentInfo(s, a);
    PermanentInfo(s, b);
  }

  lemma PermanentInfo(s: Store, id: Id)
    requires TreeOk(s)
    ensures s.permanent.GetBlockInfo(id, s.root) == Ok(if id in s.permanent.index then Some(Info(s, id)) else None)
  {
    if id in s.permanent.index {
      assert s.permanent.index[id] < |s.permanent.ids|;
    }
  }

  ghost predicate LowestCommonAncestorCorrect(s: Store, a: Id, b: Id)
    requires TreeOk(s) && BlockExists(s, a) && BlockExists(s, b)
  {
    && LowestCommonAncestor(s, a, b).Ok?
    && IsLowest(s, a, b, LowestCommonAncestor(s, a, b).value)
  }

  /** A common ancestor of `a` and of the ancestor of `b` at the length of `a`. */
  lemma CommonAncestorBelow(s: Store, x: Id, a: Id, b: Id)
    requires TreeOk(s) && BlockExists(s, a) && BlockExists(s, b) && LengthOf(s, a) <= LengthOf(s, b)
    ensures var c := Follow(s, b, LengthOf(s, b) - LengthOf(s, a));
            IsCommonAncestor(s, x, a, b) <==> IsCommonAncestor(s, x, a, c)
  {
    var m := LengthOf(s, b) - LengthOf(s, a);
    var c := Follow(s, b, m);
    if BlockExists(s, x) && LengthOf(s, x) <= LengthOf(s, a) {
      var n := LengthOf(s, a) - LengthOf(s, x);
      FollowAdd(s, b, m, n);
      assert IsAncestor(s, x, b) <==> Follow(s, b, m + n) == x;
      assert IsAncestor(s, x, c) <==> Follow(s, c, n) == x;
    }
  }

  lemma MeetBelowIsLowest(s: Store, a: Id, b: Id)
    requires TreeOk(s) && BlockExists(s, a) && BlockExists(s, b)
    requires |s.permanent.ids| <= LengthOf(s, a) <= LengthOf(s, b)
    ensures IsLowest(s, a, b, MeetBelow(s, a, b)) && IsLowest(s, b, a, MeetBelow(s, a, b))
  {
    var c := Follow(s, b, LengthOf(s, b) - LengthOf(s, a));
    MeetIsLowest(s, a, c);
    forall x ensures IsCommonAncestor(s, x, a, b) <==> IsCommonAncestor(s, x, a, c) {
      CommonAncestorBelow(s, x, a, b);
    }
    assert forall x :: IsCommonAncestor(s, x, a, b) <==> IsCommonAncestor(s, x, b, a);
  }

  lemma PermanentIsLowest(s: Store, a: Id, b: Id)
    requires TreeOk(s) && a in s.permanent.index && BlockExists(s, b) && LengthOf(s, a) < Fork(s, b)
    ensures IsLowest(s, a, b, Some(a)) && IsLowest(s, b, a, Some(a))
  {
    FollowFork(s, b, LengthOf(s, b) - LengthOf(s, a));
    assert IsAncestor(s, a, a);
  }

  /** Without a stale branch the query finds the lowest common ancestor of any two blocks. */
  lemma LowestCommonAncestorFound(s: Store, a: Id, b: Id)
    requires TreeOk(s) && NoStaleBranch(s) && BlockExists(s, a) && BlockExists(s, b)
    ensures LowestCommonAncestorCorrect(s, a, b)
  {
    if a in s.info {
      NoStaleFork(s, a);
    }
    if b in s.info {
      NoStaleFork(s, b);
    }
    if a in s.permanent.index && (b in s.info || LengthOf(s, a) < LengthOf(s, b)) {
      PermanentIsLowest(s, a, b);
    } else if b in s.permanent.index {
      PermanentIsLowest(s, b, a);
    } else if LengthOf(s, a) > LengthOf(s, b) {
      MeetBelowIsLowest(s, b, a);
    } else {
      MeetBelowIsLowest(s, a, b);
    }
  }

  /** The query is right about all pairs of blocks exactly while there is no stale branch. */
  lemma LowestCommonAncestorAlwaysCorrect(s: Store)
    requires TreeOk(s)
    ensures NoStaleBranch(s) <==>
            forall a, b :: BlockExists(s, a) && BlockExists(s, b) ==> LowestCommonAncestorCorrect(s, a, b)
  {
    if NoStaleBranch(s) {
      forall a, b | BlockExists(s, a) && BlockExists(s, b) ensures LowestCommonAncestorCorrect(s, a, b) {
        LowestCommonAncestorFound(s, a, b);
      }
    } else {
      var v := StaleBlock(s);
      StaleNotFound(s, v);
    }
  }

  /** A stale block is not even reported as the common ancestor of itself and itself. */
  lemma StaleNotFound(s: Store, v: Id)
    requires TreeOk(s) && v in s.info && LengthOf(s, v) < |s.permanent.ids|
    ensures LowestCommonAncestor(s, v, v) != Ok(Some(v))
    ensures !LowestCommonAncestorCorrect(s, v, v)
  {
    var p := s.permanent.ids[LengthOf(s, v)];
    assert MeetBelow(s, v, v) == Meet(s, v, p);
    MeetIsLowest(s, v, p);
    assert IsCommonAncestor(s, v, v, v);
    if Meet(s, v, p).Some? {
      assert IsAncestor(s, Meet(s, v, p).value, p);
      assert !IsAncestor(s, v, p);
    }
    assert forall r :: IsLowest(s, v, v, Some(r)) ==> LengthOf(s, r) == LengthOf(s, v) && r == v;
  }

  /** The permanent ancestors of a block are those below its fork. */
  lemma PermanentAncestors(s: Store, x: Id, d: Id)
    requires TreeOk(s) && BlockExists(s, x) && BlockExists(s, d)
    ensures x in s.permanent.index ==> (IsAncestor(s, x, d) <==> LengthOf(s, x) < Fork(s, d))
    ensures x in s.info && IsAncestor(s, x, d) ==> Fork(s, d) <= LengthOf(s, x)
  {
    if LengthOf(s, x) <= LengthOf(s, d) {
      FollowFork(s, d, LengthOf(s, d) - LengthOf(s, x));
    }
  }

  /** A block meets a permanent one of its length at its fork. */
  lemma {:induction false} MeetPermanent(s: Store, a: Id, p: Id)
    requires TreeOk(s) && BlockExists(s, a) && p in s.permanent.index && LengthOf(s, a) == LengthOf(s, p)
    ensures Meet(s, a, p) == if Fork(s, a) == 0 then None else Some(s.permanent.ids[Fork(s, a) - 1])
    decreases LengthOf(s, a)
  {
    if a in s.info && LengthOf(s, a) > 0 {
      ParentExists(s, a);
      ParentExists(s, p);
      MeetPermanent(s, ParentOf(s, a), ParentOf(s, p));
    }
  }

  ghost predicate ShareVolatile(s: Store, a: Id, b: Id)
    requires TreeOk(s) && BlockExists(s, a) && BlockExists(s, b)
  {
    exists x :: x in s.info && IsCommonAncestor(s, x, a, b)
  }

  /** Whether comparing a block of a stale branch with the permanent part finds the lowest
      common ancestor. */
  lemma MeetBelowStale(s: Store, a: Id, b: Id)
    requires TreeOk(s) && a in s.info && b in s.info && LengthOf(s, a) <= LengthOf(s, b)
    requires LengthOf(s, a) < |s.permanent.ids|
    ensures IsLowest(s, a, b, MeetBelow(s, a, b)) <==> Fork(s, a) <= Fork(s, b) && !ShareVolatile(s, a, b)
  {
    var r, n := MeetBelow(s, a, b), Fork(s, a);
    MeetPermanent(s, a, s.permanent.ids[LengthOf(s, a)]);
    assert r == if n == 0 then None else Some(s.permanent.ids[n - 1]);
    if n > 0 {
      PermanentAncestors(s, r.value, a);
      PermanentAncestors(s, r.value, b);
    }
    CommonAncestors(s, a, b);
  }

  lemma CommonAncestors(s: Store, a: Id, b: Id)
    requires TreeOk(s) && BlockExists(s, a) && BlockExists(s, b)
    ensures forall x :: IsCommonAncestor(s, x, a, b) ==>
              if x in s.info then Fork(s, a) <= LengthOf(s, x) && Fork(s, b) <= LengthOf(s, x)
              else LengthOf(s, x) < Fork(s, a) && LengthOf(s, x) < Fork(s, b)
  {
    forall x | IsCommonAncestor(s, x, a, b)
      ensures if x in s.info then Fork(s, a) <= LengthOf(s, x) && Fork(s, b) <= LengthOf(s, x)
              else LengthOf(s, x) < Fork(s, a) && LengthOf(s, x) < Fork(s, b)
    {
      PermanentAncestors(s, x, a);
      PermanentAncestors(s, x, b);
    }
  }

  lemma LowestIsSymmetric(s: Store, a: Id, b: Id, r: Option<Id>)
    requires TreeOk(s) && BlockExists(s, a) && BlockExists(s, b)
    ensures IsLowest(s, a, b, r) <==> IsLowest(s, b, a, r)
  {
    assert forall x :: IsCommonAncestor(s, x, a, b) <==> IsCommonAncestor(s, x, b, a);
  }

  /** For two volatile blocks, the shorter one first. */
  lemma VolatilePairCorrectWhen(s: Store, a: Id, b: Id)
    requires TreeOk(s) && a in s.info && b in s.info && LengthOf(s, a) <= LengthOf(s, b)
    ensures IsLowest(s, a, b, MeetBelow(s, a, b)) <==>
            || |s.permanent.ids| <= LengthOf(s, a)
            || (Fork(s, a) <= Fork(s, b) && !ShareVolatile(s, a, b))
  {
    if |s.permanent.ids| <= LengthOf(s, a) {
      MeetBelowIsLowest(s, a, b);
    } else {
      MeetBelowStale(s, a, b);
    }
  }

  /** For a permanent and a volatile block. */
  lemma MixedPairCorrectWhen(s: Store, a: Id, b: Id)
    requires TreeOk(s) && a in s.permanent.index && b in s.info
    ensures IsLowest(s, a, b, Some(a)) <==> LengthOf(s, a) < Fork(s, b)
  {
    PermanentAncestors(s, a, b);
    if LengthOf(s, a) < Fork(s, b) {
      PermanentIsLowest(s, a, b);
    }
  }

  /** When the query is right about two blocks: always if both are permanent; for a permanent and a
      volatile one if the former is below the fork of the latter; for two volatile ones if the
      shorter one is above the permanent part, or forks no later than the other and shares no
      volatile ancestor with it. */
  ghost predicate LowestCommonAncestorSafe(s: Store, a: Id, b: Id)
    requires TreeOk(s) && BlockExists(s, a) && BlockExists(s, b)
  {
    if a in s.permanent.index then
      b in s.permanent.index || LengthOf(s, a) < Fork(s, b)
    else if b in s.permanent.index then
      LengthOf(s, b) < Fork(s, a)
    else if LengthOf(s, a) > LengthOf(s, b) then
      |s.permanent.ids| <= LengthOf(s, b) || (Fork(s, b) <= Fork(s, a) && !ShareVolatile(s, b, a))
    else
      |s.permanent.ids| <= LengthOf(s, a) || (Fork(s, a) <= Fork(s, b) && !ShareVolatile(s, a, b))
  }

  lemma LowestCommonAncestorCorrectWhen(s: Store, a: Id, b: Id)
    requires TreeOk(s) && BlockExists(s, a) && BlockExists(s, b)
    ensures LowestCommonAncestorCorrect(s, a, b) <==> LowestCommonAncestorSafe(s, a, b)
  {
    if a in s.permanent.index && b in s.permanent.index {
      if LengthOf(s, a) < LengthOf(s, b) {
        PermanentIsLowest(s, a, b);
      } else {
        PermanentIsLowest(s, b, a);
      }
    } else if a in s.permanent.index {
      MixedPairCorrectWhen(s, a, b);
    } else if b in s.permanent.index {
      MixedPairCorrectWhen(s, b, a);
      LowestIsSymmetric(s, a, b, Some(b));
    } else if LengthOf(s, a) > LengthOf(s, b) {
      VolatilePairCorrectWhen(s, b, a);
      LowestIsSymmetric(s, a, b, MeetBelow(s, b, a));
    } else {
      VolatilePairCorrectWhen(s, a, b);
    }
  }

  /** What is reported of the common ancestor is its metadata. */
  lemma CommonAncestorReported(s: Store, a: Id, b: Id)
    requires TreeOk(s)
    ensures match LowestCommonAncestor(s, a, b)
            case Ok(Some(c)) =>
              LowestCommonAncestorInfo(s, a, b).Ok? && LowestCommonAncestorInfo(s, a, b).value.Some?
              && GetBlockInfo(s, c) == Ok(LowestCommonAncestorInfo(s, a, b).value.value)
            case Ok(None) => LowestCommonAncestorInfo(s, a, b) == Ok(None)
            case Err(e) => LowestCommonAncestorInfo(s, a, b) == Err(e)
  {
  }

  // ---- Errors ----

  /** The queries fail exactly on unknown blocks, and on distances below the root. */
  lemma QueryErrors(s: Store, a: Id, b: Id, distance: nat)
    requires TreeOk(s)
    ensures NthAncestor(s, a, distance).Err? <==> !BlockExists(s, a) || LengthOf(s, a) < distance
    ensures NthAncestor(s, a, distance).Err? ==>
              NthAncestor(s, a, distance) == Err(if BlockExists(s, a) then CannotIterate else BlockNotFound)
    ensures AncestorDistance(s, a, b).Err? <==> !BlockExists(s, b) || !(a == s.root || BlockExists(s, a))
    ensures AncestorDistance(s, a, b).Err? ==> AncestorDistance(s, a, b) == Err(BlockNotFound)
    ensures LowestCommonAncestor(s, a, b).Err? <==> !BlockExists(s, a) || !BlockExists(s, b)
    ensures LowestCommonAncestor(s, a, b).Err? ==> LowestCommonAncestor(s, a, b) == Err(BlockNotFound)
  {
  }

  // ---- The root id ----

  /** The root id is one parent link further away than the distance that the query reports for it. */
  lemma RootDistance(s: Store, d: Id)
    requires TreeOk(s) && BlockExists(s, d)
    ensures AncestorDistance(s, s.root, d) == Ok(Some(LengthOf(s, d)))
    ensures ParentOf(s, Follow(s, d, LengthOf(s, d))) == s.root
    ensures forall n :: 0 <= n < LengthOf(s, d) ==> ParentOf(s, Follow(s, d, n)) != s.root
  {
    StepUp(s, d, LengthOf(s, d));
    forall n | 0 <= n < LengthOf(s, d) ensures ParentOf(s, Follow(s, d, n)) != s.root {
      StepUp(s, d, n);
    }
  }

  // ---- Steps of the queries ----

  lemma {:induction false} FollowOneMore(s: Store, id: Id, n: nat)
    requires TreeOk(s) && BlockExists(s, id) && n < LengthOf(s, id)
    ensures Follow(s, id, n + 1) == ParentOf(s, Follow(s, id, n))
    decreases n
  {
    ParentExists(s, id);
    if n > 0 {
      FollowOneMore(s, ParentOf(s, id), n - 1);
    }
  }

  /** The metadata of a block on the path names the next block of the path. */
  lemma StepUp(s: Store, id: Id, n: nat)
    requires TreeOk(s) && BlockExists(s, id) && n <= LengthOf(s, id)
    ensures Info(s, Follow(s, id, n)).id == Follow(s, id, n)
    ensures Info(s, Follow(s, id, n)).chainLength == LengthOf(s, id) - n
    ensures n < LengthOf(s, id) ==> Info(s, Follow(s, id, n)).parentId == Follow(s, id, n + 1)
    ensures n == LengthOf(s, id) ==> Info(s, Follow(s, id, n)).parentId == s.root
  {
    ParentExists(s, Follow(s, id, n));
    if n < LengthOf(s, id) {
      FollowOneMore(s, id, n);
    }
  }

  /** Once a path is permanent it stays permanent. */
  lemma PermanentAbove(s: Store, id: Id, m: nat, n: nat)
    requires TreeOk(s) && BlockExists(s, id) && m <= n <= LengthOf(s, id)
    requires Follow(s, id, m) !in s.info
    ensures Follow(s, id, n) !in s.info
  {
    FollowFork(s, id, m);
    FollowFork(s, id, n);
  }

  /** Above the permanent part, the only block at a length lies on every path. */
  lemma OnlyEntryIsAncestor(s: Store, id: Id, n: nat, entry: LengthEntry)
    requires TreeOk(s) && LengthsOk(s) && BlockExists(s, id) && n <= LengthOf(s, id)
    requires |s.permanent.ids| <= LengthOf(s, id) - n
    requires EntriesAt(s, LengthOf(s, id) - n) - {entry} == {}
    ensures GetBlockInfo(s, entry.id) == Ok(Info(s, Follow(s, id, n)))
  {
    FollowFork(s, id, n);
    var x := Follow(s, id, n);
    var own := LengthEntry(s.info[x].chainLength, x);
    assert own in s.lengths;
    assert own !in EntriesAt(s, LengthOf(s, id) - n) - {entry};
    assert entry.id == x;
  }

  /** A volatile block is listed, so the index has a single entry at its length exactly when
      it is the only block there. */
  lemma OwnEntry(s: Store, a: Id)
    requires TreeOk(s) && LengthsOk(s) && a in s.info
    ensures var entries := EntriesAt(s, LengthOf(s, a));
            && entries != {}
            && forall e :: e in entries ==> (entries - {e} == {} <==> OnlyEntry(s, a))
  {
    var own := LengthEntry(LengthOf(s, a), a);
    var entries := EntriesAt(s, LengthOf(s, a));
    assert own in entries;
    if OnlyEntry(s, a) {
      forall e | e in entries ensures e == own {
      }
    }
    forall e | e in entries && entries - {e} == {} ensures OnlyEntry(s, a) {
      forall x | x in s.lengths && x.chainLength == LengthOf(s, a) ensures x.id == a {
        assert x !in entries - {e} && own !in entries - {e};
        assert x in entries;
      }
    }
  }
}
