/**
 * What the encoding layer and the store promise together: a key built by
 * `makeKey` is found under a rule's box exactly when every field lies in the
 * rule's inclusive bounds, and the scenarios of the functional and
 * performance drivers follow from that.
 */
module AclProperties {
  import opened IntRanges
  import opened AclTuple
  import opened AclDb

  // ---------------------------------------------------------------------
  // The offset trick
  // ---------------------------------------------------------------------

  /** A key is strictly inside the shifted box iff it lies in the rule's closed bounds. */
  lemma KeyMatchesIffInclusive(lo: Tuple, hi: Tuple, key: Tuple)
    ensures StrictlyContains(EncodeRule(lo, hi), MakeKey(key)) <==> InclusiveMatch(lo, hi, key)
  {
  }

  /**
   * One unit outside the rule in a single dimension is never found, whatever
   * the other dimensions hold.
   */
  lemma OneUnitOutsideNotFound(lo: Tuple, hi: Tuple, key: Tuple, d: int)
    requires 0 <= d < Dim
    requires key.Get(d) == lo.Get(d) - 1 || key.Get(d) == hi.Get(d) + 1
    ensures !StrictlyContains(EncodeRule(lo, hi), MakeKey(key))
  {
  }

  /**
   * A single-value field such as `dp 80..80` matches that value and no other:
   * with every other field inside its bounds, the key matches exactly when the
   * field holds the point value.
   */
  lemma PointFieldMatchesOnlyItsValue(lo: Tuple, hi: Tuple, key: Tuple, d: int)
    requires 0 <= d < Dim
    requires lo.Get(d) == hi.Get(d)
    ensures EncodeRule(lo, hi).lo.Get(d) == lo.Get(d) - 1 && EncodeRule(lo, hi).hi.Get(d) == lo.Get(d) + 1
    ensures StrictlyContains(EncodeRule(lo, hi), MakeKey(key)) ==> key.Get(d) == lo.Get(d)
    ensures (forall e :: 0 <= e < Dim && e != d ==> lo.Get(e) <= key.Get(e) <= hi.Get(e)) ==>
              (StrictlyContains(EncodeRule(lo, hi), MakeKey(key)) <==> key.Get(d) == lo.Get(d))
  {
    KeyMatchesIffInclusive(lo, hi, key);
  }

  /** A rule with `lo <= hi` is never empty: both of its corners are matching keys. */
  lemma RuleMatchesItsCorners(lo: Tuple, hi: Tuple)
    requires forall d :: 0 <= d < Dim ==> lo.Get(d) <= hi.Get(d)
    ensures StrictlyContains(EncodeRule(lo, hi), MakeKey(lo))
    ensures StrictlyContains(EncodeRule(lo, hi), MakeKey(hi))
  {
  }

  /** The widest field values of a family. */
  function AnyHi(fam: Family): Tuple
  {
    var a := if fam == V4 then U32_LIMIT - 1 else U128_LIMIT - 1;
    Tuple(a, a, U16_LIMIT - 1, U16_LIMIT - 1, U8_LIMIT - 1, U8_LIMIT - 1)
  }

  const AnyLo: Tuple := Tuple(0, 0, 0, 0, 0, 0)

  /**
   * The "any" rule is stored as `(-1, 2^32)` (or `(-1, 2^128)`) for addresses,
   * `(-1, 0x10000)` for ports and `(-1, 0x100)` for protocol and DSCP, and
   * those coordinates fit the family's signed type.
   */
  lemma AnyRuleEncoding(fam: Family)
    ensures var a := if fam == V4 then U32_LIMIT else U128_LIMIT;
            EncodeRule(AnyLo, AnyHi(fam))
              == Range(Tuple(-1, -1, -1, -1, -1, -1), Tuple(a, a, 0x1_0000, 0x1_0000, 0x100, 0x100))
    ensures CoordsFit(fam, EncodeRule(AnyLo, AnyHi(fam)).lo) && CoordsFit(fam, EncodeRule(AnyLo, AnyHi(fam)).hi)
  {
  }

  /** Widening never overflows: the corners and key of fitting fields fit the coordinate type. */
  lemma EncodingFits(fam: Family, lo: Tuple, hi: Tuple, key: Tuple)
    requires FieldsFit(fam, lo) && FieldsFit(fam, hi) && FieldsFit(fam, key)
    ensures CoordsFit(fam, EncodeRule(lo, hi).lo) && CoordsFit(fam, EncodeRule(lo, hi).hi)
    ensures CoordsFit(fam, MakeKey(key))
  {
  }

  /** A rule with `lo <= hi` in every field is stored under a well-formed box, so `insert` accepts it. */
  lemma EncodedRuleWellFormed(lo: Tuple, hi: Tuple)
    requires forall d :: 0 <= d < Dim ==> lo.Get(d) <= hi.Get(d)
    ensures WellFormed(EncodeRule(lo, hi))
    ensures forall key :: InclusiveMatch(lo, hi, key) ==> StrictlyContains(EncodeRule(lo, hi), key)
  {
  }

  /** `range2str` recovers exactly the inclusive bounds given to `makeMin` and `makeMax`. */
  lemma RangeBoundsInvertsEncoding(lo: Tuple, hi: Tuple)
    ensures RangeBounds(EncodeRule(lo, hi)) == (lo, hi)
  {
  }

  /** The printed octets of a recovered IPv4 bound are the four octets of the rule's address. */
  lemma PrintedOctetsOfBounds(lo: Tuple, hi: Tuple)
    requires FieldsFit(V4, lo) && FieldsFit(V4, hi)
    ensures var o := Ipv4Octets(RangeBounds(EncodeRule(lo, hi)).0.sa);
            o[0] * 0x100_0000 + o[1] * 0x1_0000 + o[2] * 0x100 + o[3] == lo.sa
    ensures var o := Ipv4Octets(RangeBounds(EncodeRule(lo, hi)).1.sa);
            o[0] * 0x100_0000 + o[1] * 0x1_0000 + o[2] * 0x100 + o[3] == hi.sa
  {
  }

  // ---------------------------------------------------------------------
  // Store operations
  // ---------------------------------------------------------------------

  /** After `insert` of each of `es`, the store holds the old entries and `es`; `size` grew by `|es|`. */
  lemma InsertAllContents(db: Db, es: seq<Entry>)
    requires forall e :: e in es ==> WellFormed(e.range)
    ensures InsertAll(db, es).entries == db.entries + es
    ensures Contents(InsertAll(db, es)) == Contents(db) + multiset(es)
    ensures Size(InsertAll(db, es)) == Size(db) + |es|
  {
    InsertAllAppends(db, es);
  }

  /** The insert loop appends the list to the stored sequence. */
  lemma {:induction false} InsertAllAppends(db: Db, es: seq<Entry>)
    requires forall e :: e in es ==> WellFormed(e.range)
    ensures InsertAll(db, es).entries == db.entries + es
    decreases |es|
  {
    if |es| > 0 {
      var rest := es[1..];
      InsertAllAppends(Insert(db, es[0]), rest);
      assert (db.entries + [es[0]]) + rest == db.entries + es;
    }
  }

  /** `n` inserts into a new `db` give `size() == n`. */
  lemma SizeAfterInserts(es: seq<Entry>)
    requires forall e :: e in es ==> WellFormed(e.range)
    ensures Size(InsertAll(Empty(), es)) == |es|
  {
    InsertAllContents(Empty(), es);
  }

  /** `remove` undoes `insert`. */
  lemma RemoveUndoesInsert(db: Db, e: Entry)
    requires WellFormed(e.range)
    ensures Remove(Insert(db, e), e).1
    ensures Contents(Remove(Insert(db, e), e).0) == Contents(db)
    ensures Size(Remove(Insert(db, e), e).0) == Size(db)
  {
  }

  /** Removing the only copy twice: the second call reports not-found and changes nothing. */
  lemma SecondRemoveFails(db: Db, e: Entry)
    requires Contents(db)[e] == 1
    ensures Remove(db, e).1
    ensures !Remove(Remove(db, e).0, e).1
    ensures Remove(Remove(db, e).0, e).0 == Remove(db, e).0
  {
  }

  /** An inserted rule is among the answers to every key inside its inclusive bounds. */
  lemma InsertedRuleIsFound(db: Db, lo: Tuple, hi: Tuple, h: nat, key: Tuple, r: seq<Entry>)
    requires InclusiveMatch(lo, hi, key)
    requires IsFindResult(Insert(db, Entry(EncodeRule(lo, hi), h)), MakeKey(key), r)
    ensures Entry(EncodeRule(lo, hi), h) in r
  {
  }

  /** A stored rule is not among the answers to a key outside its inclusive bounds. */
  lemma RuleOutsideIsNotFound(db: Db, lo: Tuple, hi: Tuple, h: nat, key: Tuple, r: seq<Entry>)
    requires !InclusiveMatch(lo, hi, key)
    requires IsFindResult(db, MakeKey(key), r)
    ensures Entry(EncodeRule(lo, hi), h) !in r
  {
  }

  /** Overlapping rules: a key in the overlap finds both. */
  lemma OverlapFindsBoth(db: Db, e1: Entry, e2: Entry, key: Tuple, r: seq<Entry>)
    requires e1 in Contents(db) && e2 in Contents(db)
    requires StrictlyContains(e1.range, key) && StrictlyContains(e2.range, key)
    requires IsFindResult(db, key, r)
    ensures e1 in r && e2 in r
  {
  }

  /** A `find` answer holds as many entries as there are stored entries strictly containing the key. */
  lemma FindResultsAgree(db: Db, key: Tuple, r1: seq<Entry>, r2: seq<Entry>)
    requires IsFindResult(db, key, r1) && IsFindResult(db, key, r2)
    ensures multiset(r1) == multiset(r2)
    ensures |r1| == |r2|
  {
    assert forall e :: multiset(r1)[e] == multiset(r2)[e];
    assert multiset(r1) == multiset(r2);
    calc {
      |r1|;
      |multiset(r1)|;
      |multiset(r2)|;
      |r2|;
    }
  }

  // ---------------------------------------------------------------------
  // Disjoint rule sets
  // ---------------------------------------------------------------------

  /** No key lies strictly inside both boxes. */
  ghost predicate NoSharedKey(a: Range, b: Range)
  {
    forall k :: !(StrictlyContains(a, k) && StrictlyContains(b, k))
  }

  /** Stored boxes at different positions share no key. */
  ghost predicate PairwiseDisjoint(s: seq<Entry>)
  {
    forall i, j :: 0 <= i < |s| && 0 <= j < |s| && i != j ==> NoSharedKey(s[i].range, s[j].range)
  }

  /** Dropping entries from the front keeps a store pairwise disjoint. */
  lemma SuffixDisjoint(s: seq<Entry>, k: nat)
    requires k <= |s| && PairwiseDisjoint(s)
    ensures PairwiseDisjoint(s[k..])
  {
    var t := s[k..];
    forall i, j | 0 <= i < |t| && 0 <= j < |t| && i != j
      ensures NoSharedKey(t[i].range, t[j].range)
    {
      assert t[i] == s[k + i] && t[j] == s[k + j];
    }
  }

  lemma InSeqHasIndex(s: seq<Entry>, x: Entry) returns (j: nat)
    requires x in s
    ensures j < |s| && s[j] == x
  {
    j :| 0 <= j < |s| && s[j] == x;
  }

  /** In a disjoint store, the entry at `i0` is the one stored box containing `key`, stored once. */
  lemma OnlyOwnerContains(s: seq<Entry>, i0: nat, key: Tuple)
    requires PairwiseDisjoint(s)
    requires i0 < |s| && StrictlyContains(s[i0].range, key)
    ensures forall x: Entry :: StrictlyContains(x.range, key) ==> multiset(s)[x] == if x == s[i0] then 1 else 0
  {
    var e := s[i0];
    forall x: Entry | StrictlyContains(x.range, key)
      ensures multiset(s)[x] == if x == e then 1 else 0
    {
      if x != e {
        if x in s {
          var j := InSeqHasIndex(s, x);
          assert false;
        }
      } else {
        var pre, post := s[..i0], s[i0 + 1..];
        assert s == pre + [e] + post;
        if e in pre {
          var j := InSeqHasIndex(pre, e);
          assert false;
        }
        if e in post {
          var j := InSeqHasIndex(post, e);
          assert false;
        }
      }
    }
  }

  /** With disjoint rules, `find` returns exactly the one rule whose box holds the key. */
  lemma DisjointFindIsOwner(db: Db, i0: nat, key: Tuple, r: seq<Entry>)
    requires PairwiseDisjoint(db.entries)
    requires i0 < |db.entries| && StrictlyContains(db.entries[i0].range, key)
    requires IsFindResult(db, key, r)
    ensures r == [db.entries[i0]]
  {
    var e := db.entries[i0];
    OnlyOwnerContains(db.entries, i0, key);
    assert forall x :: multiset(r)[x] == multiset{e}[x];
    assert multiset(r) == multiset{e};
    assert |r| == 1;
    assert r[0] in multiset(r);
    assert r == [r[0]];
  }

  /**
   * Once a rule is removed from a disjoint store, a key only it held matches
   * nothing: the empty sequence is the answer of `find` (and, by
   * `FindResultsAgree`, the only one).
   */
  lemma RemovedRuleNoLongerMatches(db: Db, i0: nat, key: Tuple)
    requires PairwiseDisjoint(db.entries)
    requires i0 < |db.entries| && StrictlyContains(db.entries[i0].range, key)
    ensures Remove(db, db.entries[i0]).1
    ensures Size(Remove(db, db.entries[i0]).0) == Size(db) - 1
    ensures IsFindResult(Remove(db, db.entries[i0]).0, key, [])
  {
    var e := db.entries[i0];
    var db' := Remove(db, e).0;
    OnlyOwnerContains(db.entries, i0, key);
    forall x: Entry
      ensures multiset([])[x] == if StrictlyContains(x.range, key) then Contents(db')[x] else 0
    {
      if StrictlyContains(x.range, key) {
        assert Contents(db')[x] == (Contents(db) - multiset{e})[x];
      }
    }
  }

  // ---------------------------------------------------------------------
  // The performance driver: one million disjoint eleven-address blocks
  // ---------------------------------------------------------------------

  const PerfBase: int := 0x0a00_0000
  const PerfStep: int := 0x20
  const PerfRules: nat := 1_000_000

  /** Rule `i`: sa `10.0.0.0 + 0x20 i` .. `+10`, any da, sp, dp and DSCP, protocol 6. */
  function PerfLo(i: int): Tuple { Tuple(PerfBase + i * PerfStep, 0, 0, 0, 6, 0) }
  function PerfHi(i: int): Tuple { Tuple(PerfBase + i * PerfStep + 10, U32_LIMIT - 1, 0xffff, 0xffff, 6, 0xff) }

  /** The entry of rule `i`; its handle stands for the pointer `pEnt[i]`. */
  function PerfEntry(i: nat): (e: Entry)
    ensures WellFormed(e.range) && e.handle == i
  {
    Entry(EncodeRule(PerfLo(i), PerfHi(i)), i)
  }

  function PerfEntries(n: nat): (s: seq<Entry>)
    ensures |s| == n && forall i :: 0 <= i < n ==> s[i] == PerfEntry(i)
    ensures forall e :: e in s ==> WellFormed(e.range)
  {
    seq(n, i requires 0 <= i => PerfEntry(i))
  }

  /** The store after the insert loop has added rules `0 .. n-1`. */
  function PerfDb(n: nat): Db
  {
    InsertAll(Empty(), PerfEntries(n))
  }

  /** The key of the random match test: `10.0.0.0 + 0x20 k + 2`. */
  function PerfMatchKey(k: int): Tuple { Tuple(PerfBase + k * PerfStep + 2, 0x1234_5678, 0x1234, 80, 6, 0) }

  /** The key of the random unmatch test: one address below block `k`. */
  function PerfUnmatchKey(k: int): Tuple { Tuple(PerfBase + k * PerfStep - 1, 0x1234_5678, 0x1234, 80, 6, 0) }

  /** The insert loop leaves the rules in the store and `size() == n`. */
  lemma PerfDbShape(n: nat)
    ensures PerfDb(n).entries == PerfEntries(n)
    ensures Size(PerfDb(n)) == n
  {
    InsertAllContents(Empty(), PerfEntries(n));
    assert [] + PerfEntries(n) == PerfEntries(n);
  }

  /** Two different blocks share no address: their boxes share no key. */
  lemma PerfBlocksDisjoint(i: nat, j: nat, k: Tuple)
    requires i != j
    ensures !(StrictlyContains(PerfEntry(i).range, k) && StrictlyContains(PerfEntry(j).range, k))
  {
    if StrictlyContains(PerfEntry(i).range, k) {
      assert PerfBase + i * PerfStep - 1 < k.Get(0) < PerfBase + i * PerfStep + 11;
      if i < j {
        assert i * PerfStep + PerfStep <= j * PerfStep;
      } else {
        assert j * PerfStep + PerfStep <= i * PerfStep;
      }
      assert !(PerfBase + j * PerfStep - 1 < k.Get(0) < PerfBase + j * PerfStep + 11);
    }
  }

  /** Two different rules of the driver share no key. */
  lemma PerfPairDisjoint(i: nat, j: nat)
    requires i != j
    ensures NoSharedKey(PerfEntry(i).range, PerfEntry(j).range)
  {
    forall key
      ensures !(StrictlyContains(PerfEntry(i).range, key) && StrictlyContains(PerfEntry(j).range, key))
    {
      PerfBlocksDisjoint(i, j, key);
    }
  }

  /** The driver's rules are pairwise disjoint. */
  lemma PerfEntriesDisjoint(n: nat)
    ensures PairwiseDisjoint(PerfEntries(n))
  {
    var s := PerfEntries(n);
    forall i, j | 0 <= i < |s| && 0 <= j < |s| && i != j
      ensures NoSharedKey(s[i].range, s[j].range)
    {
      PerfPairDisjoint(i, j);
    }
  }

  /** The address just below block `k` lies in no block. */
  lemma PerfUnmatchOutside(j: nat, k: nat)
    ensures !StrictlyContains(PerfEntry(j).range, MakeKey(PerfUnmatchKey(k)))
  {
    var a := PerfBase + k * PerfStep - 1;
    if j < k {
      assert j * PerfStep + PerfStep <= k * PerfStep;
      assert !(a < PerfBase + j * PerfStep + 11);
    } else {
      assert k * PerfStep <= j * PerfStep;
      assert !(PerfBase + j * PerfStep - 1 < a);
    }
    assert !(PerfEntry(j).range.lo.Get(0) < MakeKey(PerfUnmatchKey(k)).Get(0) < PerfEntry(j).range.hi.Get(0));
  }

  /** Every rule and key the driver builds for up to a million rules fits its field type: no u32 wrap-around. */
  lemma PerfFieldsFit(k: nat)
    requires k < PerfRules
    ensures FieldsFit(V4, PerfLo(k)) && FieldsFit(V4, PerfHi(k))
    ensures FieldsFit(V4, PerfMatchKey(k)) && FieldsFit(V4, PerfUnmatchKey(k))
  {
  }

  /** The match key of block `k` lies strictly inside that block's box. */
  lemma PerfMatchKeyInBlock(k: nat)
    ensures StrictlyContains(PerfEntry(k).range, MakeKey(PerfMatchKey(k)))
  {
  }

  /** The random match test: a key inside block `k` finds exactly handle `k`. */
  lemma PerfRandomMatch(n: nat, k: nat, r: seq<Entry>)
    requires k < n
    requires IsFindResult(PerfDb(n), MakeKey(PerfMatchKey(k)), r)
    ensures r == [PerfEntry(k)] && r[0].handle == k
  {
    PerfDbShape(n);
    PerfEntriesDisjoint(n);
    PerfMatchKeyInBlock(k);
    DisjointFindIsOwner(PerfDb(n), k, MakeKey(PerfMatchKey(k)), r);
  }

  /** The random unmatch test: the address just below block `k` matches no rule. */
  lemma PerfRandomUnmatch(n: nat, k: nat, r: seq<Entry>)
    requires k < n
    requires IsFindResult(PerfDb(n), MakeKey(PerfUnmatchKey(k)), r)
    ensures r == []
  {
    PerfDbShape(n);
    var s := PerfEntries(n);
    var key := MakeKey(PerfUnmatchKey(k));
    forall x: Entry
      ensures multiset(r)[x] == 0
    {
      if x in s {
        var j := InSeqHasIndex(s, x);
        PerfUnmatchOutside(j, k);
      }
    }
    assert multiset(r) == multiset{};
  }

  /** The store when the removal loop reaches rule `k`: rules `0 .. k-1` are already gone. */
  function PerfRemaining(n: nat, k: nat): Db
    requires k <= n
  {
    InsertAll(Empty(), PerfEntries(n)[k..])
  }

  /** The key the removal loop queries after removing rule `k`: the rule's lower corner with `sa + 1`. */
  function PerfRemovedKey(k: int): Tuple { PerfLo(k).(sa := PerfLo(k).sa + 1) }

  /** The rules still stored during the removal loop are pairwise disjoint. */
  lemma PerfRemainingDisjoint(n: nat, k: nat)
    requires k <= n
    ensures PairwiseDisjoint(PerfEntries(n)[k..])
  {
    PerfEntriesDisjoint(n);
    SuffixDisjoint(PerfEntries(n), k);
  }

  /** The removal loop's key for rule `k` lies strictly inside that rule's box. */
  lemma PerfRemovedKeyInBlock(k: nat)
    ensures StrictlyContains(PerfEntry(k).range, MakeKey(PerfRemovedKey(k)))
  {
  }

  /** Removing rule `k` from the store that starts with it leaves the store of the next pass. */
  lemma PerfRemoveShape(n: nat, k: nat)
    requires k < n
    ensures PerfRemaining(n, k).entries == PerfEntries(n)[k..]
    ensures Remove(PerfRemaining(n, k), PerfEntry(k)).1
    ensures Remove(PerfRemaining(n, k), PerfEntry(k)).0 == PerfRemaining(n, k + 1)
    ensures Size(PerfRemaining(n, k + 1)) == n - k - 1
  {
    var s := PerfEntries(n)[k..];
    InsertAllContents(Empty(), s);
    InsertAllContents(Empty(), PerfEntries(n)[k + 1..]);
    assert s[0] == PerfEntry(k);
    assert RemoveOne(s, PerfEntry(k)) == s[1..];
    assert s[1..] == PerfEntries(n)[k + 1..];
  }

  /**
   * One pass of the removal loop: the loop starts from the full store;
   * removing rule `k` succeeds and leaves exactly the store of the next pass,
   * whose `size` is `n - k - 1`, and the key `sa + 1` of rule `k` then finds
   * nothing.
   */
  lemma PerfRemoveStep(n: nat, k: nat)
    requires k < n
    ensures PerfRemaining(n, 0) == PerfDb(n)
    ensures Remove(PerfRemaining(n, k), PerfEntry(k)).1
    ensures Remove(PerfRemaining(n, k), PerfEntry(k)).0 == PerfRemaining(n, k + 1)
    ensures Size(PerfRemaining(n, k + 1)) == n - k - 1
    ensures IsFindResult(PerfRemaining(n, k + 1), MakeKey(PerfRemovedKey(k)), [])
  {
    assert PerfEntries(n)[0..] == PerfEntries(n);
    PerfRemoveShape(n, k);
    PerfRemainingDisjoint(n, k);
    PerfRemovedKeyInBlock(k);
    RemovedRuleNoLongerMatches(PerfRemaining(n, k), 0, MakeKey(PerfRemovedKey(k)));
  }

  // ---------------------------------------------------------------------
  // The raw-integer functional test
  // ---------------------------------------------------------------------

  /** Rule `i`: sa `10.1.i.0` .. `10.1.i.10`, any da, sp and DSCP, dp 80, protocol 6. */
  function RawLo(i: int): Tuple { Tuple(0x0a01_0000 + i * 0x100, 0, 0, 80, 6, 0) }
  function RawHi(i: int): Tuple { Tuple(0x0a01_0000 + i * 0x100 + 10, U32_LIMIT - 1, 0xffff, 80, 6, 0xff) }

  /** Keys at `sa + 1` and `sa + 2` match rule `i`; keys at `sa - 1` and `sa + 11` do not. */
  lemma RawTestKeys(i: int)
    requires 0 <= i < 10
    ensures var lo := RawLo(i);
            && StrictlyContains(EncodeRule(lo, RawHi(i)), MakeKey(lo.(sa := lo.sa + 1)))
            && StrictlyContains(EncodeRule(lo, RawHi(i)), MakeKey(lo.(sa := lo.sa + 2)))
            && !StrictlyContains(EncodeRule(lo, RawHi(i)), MakeKey(lo.(sa := lo.sa - 1)))
            && !StrictlyContains(EncodeRule(lo, RawHi(i)), MakeKey(lo.(sa := lo.sa + 11)))
  {
    RawKeyInside(i, 1);
    RawKeyInside(i, 2);
    RawKeyOutside(i, -1);
    RawKeyOutside(i, 11);
  }

  /** A key `sa + j` with the rule's other lower bounds matches rule `i` when `0 <= j <= 10`. */
  lemma RawKeyInside(i: int, j: int)
    requires 0 <= j <= 10
    ensures StrictlyContains(EncodeRule(RawLo(i), RawHi(i)), MakeKey(RawLo(i).(sa := RawLo(i).sa + j)))
  {
    KeyMatchesIffInclusive(RawLo(i), RawHi(i), RawLo(i).(sa := RawLo(i).sa + j));
  }

  /** A key `sa + j` matches no part of rule `i` when `j < 0` or `j > 10`. */
  lemma RawKeyOutside(i: int, j: int)
    requires j < 0 || j > 10
    ensures !StrictlyContains(EncodeRule(RawLo(i), RawHi(i)), MakeKey(RawLo(i).(sa := RawLo(i).sa + j)))
  {
    var lo, hi := RawLo(i), RawHi(i);
    KeyMatchesIffInclusive(lo, hi, lo.(sa := lo.sa + j));
    assert !(lo.Get(0) <= lo.sa + j <= hi.Get(0));
  }
}
