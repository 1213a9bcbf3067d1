/**
 * `rtacl::db`: the R-tree of `(range, handle)` entries, seen through what its
 * public operations promise.
 *
 * The tree's node structure (quadratic split, condense, fan-out) is not
 * modelled: the store is a sequence whose order is never observable, and every
 * contract speaks of `Contents`, the multiset of stored entries.
 */
module AclDb {
  import opened AclTuple

  datatype Option<T> = None | Some(value: T)

  datatype Db = Db(entries: seq<Entry>)

  /** The index's invariant: every stored box is well formed. */
  predicate Valid(db: Db)
  {
    forall e :: e in db.entries ==> WellFormed(e.range)
  }

  /** A freshly constructed `db`. */
  function Empty(): (db: Db)
    ensures Contents(db) == multiset{}
    ensures Valid(db)
  {
    Db([])
  }

  function Contents(db: Db): multiset<Entry>
  {
    multiset(db.entries)
  }

  /** `db::size`. */
  function Size(db: Db): (n: nat)
    ensures n == |Contents(db)|
  {
    |db.entries|
  }

  /**
   * `db::insert`: one more copy of `e`; duplicates are kept. A malformed box
   * is a caller error that the R-tree's insertion asserts against.
   */
  function Insert(db: Db, e: Entry): (r: Db)
    requires WellFormed(e.range)
    ensures Contents(r) == Contents(db) + multiset{e}
    ensures Size(r) == Size(db) + 1
    ensures Valid(db) ==> Valid(r)
  {
    Db(db.entries + [e])
  }

  /** The store after inserting `es` in order. */
  function InsertAll(db: Db, es: seq<Entry>): Db
    requires forall e :: e in es ==> WellFormed(e.range)
    decreases |es|
  {
    if |es| == 0 then db else InsertAll(Insert(db, es[0]), es[1..])
  }

  /** Drops the first element equal to `e`, if any. */
  function RemoveOne(s: seq<Entry>, e: Entry): (r: seq<Entry>)
    ensures e in s ==> multiset(r) == multiset(s) - multiset{e} && |r| == |s| - 1
    ensures e !in s ==> r == s
    ensures forall x :: x in r ==> x in s
  {
    if |s| == 0 then s
    else if s[0] == e then
      assert s == [s[0]] + s[1..];
      s[1..]
    else
      assert s == [s[0]] + s[1..];
      [s[0]] + RemoveOne(s[1..], e)
  }

  /**
   * `db::remove`: the flag is whether an entry equal in range and handle was
   * stored; on success one copy is gone, otherwise nothing changes.
   */
  function Remove(db: Db, e: Entry): (res: (Db, bool))
    ensures res.1 <==> e in Contents(db)
    ensures res.1 ==> Contents(res.0) == Contents(db) - multiset{e} && Size(res.0) == Size(db) - 1
    ensures !res.1 ==> res.0 == db
    ensures Valid(db) ==> Valid(res.0)
  {
    if e in db.entries then (Db(RemoveOne(db.entries, e)), true) else (db, false)
  }

  /**
   * `r` is a possible answer of `db::find(key)`: each stored entry whose box
   * strictly contains `key` occurs as often as it is stored, and nothing else
   * occurs. The order is the tree's and is left open.
   */
  ghost predicate IsFindResult(db: Db, key: Tuple, r: seq<Entry>)
  {
    forall e :: multiset(r)[e] == if StrictlyContains(e.range, key) then Contents(db)[e] else 0
  }

  /**
   * `db::find`: the query with `bgi::contains(key)`; `n` is the count the
   * query reports, which the source asserts equals the result's length.
   */
  method Find(db: Db, key: Tuple) returns (r: seq<Entry>, n: nat)
    ensures IsFindResult(db, key, r)
    ensures n == |r|
  {
    r := [];
    n := 0;
    var i := 0;
    while i < |db.entries|
      invariant 0 <= i <= |db.entries|
      invariant n == |r|
      invariant forall e :: multiset(r)[e] ==
                  if StrictlyContains(e.range, key) then multiset(db.entries[..i])[e] else 0
    {
      var e := db.entries[i];
      assert db.entries[..i + 1] == db.entries[..i] + [e];
      if StrictlyContains(e.range, key) {
        r := r + [e];
        n := n + 1;
      }
      i := i + 1;
    }
    assert db.entries[..i] == db.entries;
    assert n == |r|;
  }

  /** Componentwise minimum of two tuples. */
  function MinTuple(a: Tuple, b: Tuple): (r: Tuple)
    ensures forall d :: 0 <= d < Dim ==> r.Get(d) <= a.Get(d) && r.Get(d) <= b.Get(d)
  {
    Tuple(Min(a.sa, b.sa), Min(a.da, b.da), Min(a.sp, b.sp), Min(a.dp, b.dp),
          Min(a.proto, b.proto), Min(a.dscp, b.dscp))
  }

  /** Componentwise maximum of two tuples. */
  function MaxTuple(a: Tuple, b: Tuple): (r: Tuple)
    ensures forall d :: 0 <= d < Dim ==> a.Get(d) <= r.Get(d) && b.Get(d) <= r.Get(d)
  {
    Tuple(Max(a.sa, b.sa), Max(a.da, b.da), Max(a.sp, b.sp), Max(a.dp, b.dp),
          Max(a.proto, b.proto), Max(a.dscp, b.dscp))
  }

  function Min(x: int, y: int): int { if x <= y then x else y }
  function Max(x: int, y: int): int { if x <= y then y else x }

  /** The smallest box holding both boxes (`bg::expand`). */
  function Hull(a: Range, b: Range): (h: Range)
    ensures CoveredBy(a, h) && CoveredBy(b, h)
  {
    Range(MinTuple(a.lo, b.lo), MaxTuple(a.hi, b.hi))
  }

  lemma CoveredByTransitive(r: Range, b: Range, c: Range)
    requires CoveredBy(r, b) && CoveredBy(b, c)
    ensures CoveredBy(r, c)
  {
  }

  /** `rtree::bounds`: a box covering every stored box; there is none for an empty tree. */
  function Bounds(s: seq<Entry>): (b: Option<Range>)
    ensures b.None? <==> |s| == 0
    ensures b.Some? ==> forall i :: 0 <= i < |s| ==> CoveredBy(s[i].range, b.value)
    decreases |s|
  {
    if |s| == 0 then None
    else if |s| == 1 then Some(s[0].range)
    else
      var rest := Bounds(s[..|s| - 1]).value;
      var h := Hull(rest, s[|s| - 1].range);
      assert forall i :: 0 <= i < |s| - 1 ==> CoveredBy(s[i].range, h) by {
        forall i | 0 <= i < |s| - 1
          ensures CoveredBy(s[i].range, h)
        {
          assert s[i] == s[..|s| - 1][i];
          CoveredByTransitive(s[i].range, rest, h);
        }
      }
      Some(h)
  }

  /** The entries of `s` whose box is covered by `b`, in order. */
  function SelectCovered(s: seq<Entry>, b: Range): (r: seq<Entry>)
    ensures forall e :: multiset(r)[e] == if CoveredBy(e.range, b) then multiset(s)[e] else 0
    ensures (forall i :: 0 <= i < |s| ==> CoveredBy(s[i].range, b)) ==> r == s
    decreases |s|
  {
    if |s| == 0 then []
    else
      assert s == [s[0]] + s[1..];
      if CoveredBy(s[0].range, b) then [s[0]] + SelectCovered(s[1..], b)
      else SelectCovered(s[1..], b)
  }

  /**
   * `db::dump`: the query `bgi::covered_by(bounds())`. Every stored box lies
   * in the bounds, so this returns every stored entry.
   */
  function Dump(db: Db): (r: seq<Entry>)
    ensures multiset(r) == Contents(db)
    ensures |r| == Size(db)
  {
    match Bounds(db.entries)
    case None => []
    case Some(b) => SelectCovered(db.entries, b)
  }
}
