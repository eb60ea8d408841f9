/** `sort_by_key(|x| x.joint_id)` on the received joint records: a stable
    sort, here an insertion sort, proved sorted, a permutation and stable. */
module JointSort {
  import W = RustWrc

  predicate SortedById(rs: seq<W.InlineJoint>)
  {
    forall i, j :: 0 <= i < j < |rs| ==> rs[i].jointId <= rs[j].jointId
  }

  /** x placed before the first record whose id is not below its own. */
  function Insert(x: W.InlineJoint, rs: seq<W.InlineJoint>): (r: seq<W.InlineJoint>)
    ensures multiset(r) == multiset(rs) + multiset{x}
    ensures |r| == |rs| + 1
  {
    if |rs| == 0 then [x]
    else if x.jointId <= rs[0].jointId then [x] + rs
    else
      assert rs == [rs[0]] + rs[1..];
      [rs[0]] + Insert(x, rs[1..])
  }

  /** A bound below x and below every record is below every inserted record. */
  lemma {:induction false} InsertBound(x: W.InlineJoint, rs: seq<W.InlineJoint>, lo: int)
    requires lo <= x.jointId
    requires forall i :: 0 <= i < |rs| ==> lo <= rs[i].jointId
    ensures forall i :: 0 <= i < |Insert(x, rs)| ==> lo <= Insert(x, rs)[i].jointId
  {
    if |rs| > 0 && x.jointId > rs[0].jointId {
      InsertBound(x, rs[1..], lo);
    }
  }

  lemma {:induction false} InsertSorted(x: W.InlineJoint, rs: seq<W.InlineJoint>)
    requires SortedById(rs)
    ensures SortedById(Insert(x, rs))
  {
    if |rs| > 0 && x.jointId > rs[0].jointId {
      var t := Insert(x, rs[1..]);
      InsertSorted(x, rs[1..]);
      InsertBound(x, rs[1..], rs[0].jointId);
      ConsSorted(rs[0], t);
    }
  }

  lemma ConsSorted(a: W.InlineJoint, t: seq<W.InlineJoint>)
    requires SortedById(t)
    requires forall i :: 0 <= i < |t| ==> a.jointId <= t[i].jointId
    ensures SortedById([a] + t)
  {
  }

  function SortById(rs: seq<W.InlineJoint>): (r: seq<W.InlineJoint>)
    ensures SortedById(r)
    ensures multiset(r) == multiset(rs)
    ensures |r| == |rs|
  {
    if |rs| == 0 then []
    else
      var rest := SortById(rs[1..]);
      InsertSorted(rs[0], rest);
      MultisetCons(rs);
      Insert(rs[0], rest)
  }

  lemma MultisetCons(rs: seq<W.InlineJoint>)
    requires |rs| > 0
    ensures multiset(rs) == multiset(rs[1..]) + multiset{rs[0]}
  {
    assert rs == [rs[0]] + rs[1..];
  }

  /** The records with joint id k, in their order. */
  function WithId(rs: seq<W.InlineJoint>, k: int): seq<W.InlineJoint>
  {
    if |rs| == 0 then [] else (if rs[0].jointId == k then [rs[0]] else []) + WithId(rs[1..], k)
  }

  lemma WithIdCons(a: W.InlineJoint, t: seq<W.InlineJoint>, k: int)
    ensures WithId([a] + t, k) == (if a.jointId == k then [a] else []) + WithId(t, k)
  {
    assert ([a] + t)[1..] == t;
  }

  lemma {:induction false} InsertWithId(x: W.InlineJoint, rs: seq<W.InlineJoint>, k: int)
    ensures WithId(Insert(x, rs), k) == (if x.jointId == k then [x] else []) + WithId(rs, k)
  {
    if |rs| == 0 {
      WithIdCons(x, [], k);
      assert [x] + [] == [x];
    } else if x.jointId <= rs[0].jointId {
      WithIdCons(x, rs, k);
    } else {
      var t := Insert(x, rs[1..]);
      assert Insert(x, rs) == [rs[0]] + t;
      InsertWithId(x, rs[1..], k);
      WithIdCons(rs[0], t, k);
      WithIdCons(rs[0], rs[1..], k);
      assert [rs[0]] + rs[1..] == rs;
      SwapHeads(if rs[0].jointId == k then [rs[0]] else [], if x.jointId == k then [x] else [], WithId(rs[1..], k));
    }
  }

  /** Two heads of which at most one is non-empty commute. */
  lemma SwapHeads(a: seq<W.InlineJoint>, b: seq<W.InlineJoint>, w: seq<W.InlineJoint>)
    requires a == [] || b == []
    ensures a + (b + w) == b + (a + w)
  {
    if a == [] {
      assert a + (b + w) == b + w == b + (a + w);
    } else {
      assert a + (b + w) == a + w == b + (a + w);
    }
  }

  /** The sort is stable: records with equal ids keep their relative order. */
  lemma {:induction false} SortStable(rs: seq<W.InlineJoint>, k: int)
    ensures WithId(SortById(rs), k) == WithId(rs, k)
  {
    if |rs| > 0 {
      SortStable(rs[1..], k);
      InsertWithId(rs[0], SortById(rs[1..]), k);
    }
  }
}
