# rtacl and cbProf in Dafny

A model of two pieces of a C++ packet-classification library, with proofs.

**rtacl** stores access-control rules as six-dimensional boxes in a Boost R-tree:

- The dimensions are source address, destination address, source port, destination port, protocol and DSCP.
- An R-tree query `contains(key)` tests strict inclusion.
- Each inclusive rule bound is therefore moved one unit outward before storing: `makeMin` adds -1 and `makeMax` adds +1.
- A flow key is stored unchanged (`makeKey`, offset 0).
- `range2str` undoes the offsets when printing a rule.
- IPv6 addresses travel between the sixteen octets of `sin6_addr` and one wide integer (`sin6a2int`, `int2sin6`).

The model has five modules:

- `IntRanges` covers the fixed-width integer types.
- `Ipv6Addr` holds the address conversions, with a big-endian reading as the reference.
- `AclTuple` holds tuples, boxes, the offsets and the printing inverse.
- `AclDb` models the `db` operations over an abstract multiset store.
- `AclProperties` proves the offset trick correct.
  - A key is found under a rule exactly when each of its fields lies in the rule's closed bounds.
  - It also replays the scenarios of the unit and performance drivers.
  - The largest of these is a million disjoint address blocks, where each key finds exactly its own rule. The removal loop deletes the rules in order, and after each removal the key just inside the removed rule finds nothing.

**cbProf** is a stopwatch profiler. `end` sorts each duration into one of 38 buckets and maintains a call count, a sum, a minimum and a maximum:

- Buckets 0..9 are 100 ns wide.
- Buckets 10..18 are 1 µs wide.
- Buckets 19..27 are 10 µs wide.
- Buckets 28..36 are 100 µs wide.
- `hist[37]` counts durations of 1 ms or more.

The profiler model has two modules:

- `Profiler` models the counters as a pure state machine.
  - The `u32` counters wrap modulo 2^32.
  - The clock reading is passed in as `now`.
  - The proofs cover the following:
    - The bucket index is in range and follows the documented layout.
    - `nCalls` equals the sum of `hist[0..36]` modulo 2^32 from `init` onward.
    - Over a trace of durations, each bucket counts exactly its own durations.
    - `min` and `max` bound every recorded duration.
    - The four report bands partition `hist[0..36]`.
- `ProfilerFindings` models two defects as written, next to the corrected behaviour the rest of the model uses.

## Model

| member | source | states |
|---|---|---|
| IntRanges.TruncDiv | cbProf.hpp:161-170 | C++ division by a positive divisor rounds toward zero: the quotient has the sign of the dividend, and the dividend lies within one divisor of `q * b` on the side away from zero. |
| IntRanges.ToU32 | cbProf.hpp:161-171 | Storing an integer in a `u32` gives a value in `0..2^32-1` that is congruent to it modulo 2^32, so a value already in that range is kept. |
| Ipv6Addr.BigEndian | rtacl.hpp:399-411 | The value of a run of octets read most significant first is below 256^n. |
| Ipv6Addr.ToBytes | rtacl.hpp:424-436 | The octet split of a value has exactly the requested number of octets. |
| Ipv6Addr.Pow256Of16 | rtacl.hpp:392-393 | Sixteen octets span exactly the `u128` range. |
| Ipv6Addr.ToBytesDigit | rtacl.hpp:431-434 | Octet `15 - i` of the split is `(x >> 8i)` truncated to `u8`. |
| Ipv6Addr.BigEndianOfToBytes | rtacl.hpp:401-436 | Splitting a value below 256^n into octets and reading them back gives the value. |
| Ipv6Addr.ToBytesOfBigEndian | rtacl.hpp:401-436 | Reading octets as a number and splitting it again gives the same octets. |
| Ipv6Addr.Sin6aToInt | rtacl.hpp:401-411 | The shift-and-or loop yields the big-endian value of the 16 octets. That value is a `u128`, and `int2sin6` of it gives back the octets. |
| Ipv6Addr.IntToSin6 | rtacl.hpp:426-436 | The octet loop yields the 16-octet big-endian split of the value. For a `u128` value, reading the octets back gives the value. |
| AclTuple.MakeTuple | rtacl.hpp:684-695 | Every coordinate is its field plus the same offset, in the order sa, da, sp, dp, proto, dscp; the `sockaddr_in` overload (rtacl.hpp:596-619) computes the same from the host-order fields. With an offset of -1..1, fields that fit their types give coordinates that fit `s64` (IPv4) or `s256` (IPv6). |
| AclTuple.MakeMin | rtacl.hpp:240-246 | The min corner lies one unit below each inclusive lower bound, and it never overflows the coordinate type. |
| AclTuple.MakeMax | rtacl.hpp:247-253 | The max corner lies one unit above each inclusive upper bound, and it never overflows the coordinate type. |
| AclTuple.MakeKey | rtacl.hpp:254-260 | A search key keeps the field values unchanged. |
| AclTuple.MakeTupleV6 | rtacl.hpp:650-661 | The addresses are the big-endian values of the `sin6_addr` octets, plus the offset, like the other fields. The coordinates fit `s256`. |
| AclTuple.RangeBounds | rtacl.hpp:487-501 | The printed bounds are the min corner plus one and the max corner minus one, in every dimension. |
| AclTuple.Ipv4Octets | rtacl.hpp:344-359 | The four printed numbers are octets, and for a `u32` address they recombine to the address. |
| AclTuple.OctetsRecombine | rtacl.hpp:344-359 | For a `u32` address, the four printed octets weighted by 2^24, 2^16, 2^8 and 1 add up to the address again. |
| AclDb.Empty | rtacl.hpp:538-551 | A new `db` holds no entries. |
| AclDb.Size | rtacl.hpp:235 | `size` is the number of stored entries, counting duplicates. |
| AclDb.Insert | rtacl.hpp:230 | `insert` requires a well-formed box (min ≤ max in every dimension), which the R-tree's insertion asserts. It adds one copy of the entry, even if an equal one is stored, `size` grows by one, and the store stays well formed. |
| AclDb.Remove | rtacl.hpp:231-233 | `remove` succeeds iff an entry equal in box and handle is stored. On success exactly one copy is gone and `size` drops by one. Otherwise nothing changes. The store stays well formed. |
| AclDb.Find | rtacl.hpp:565-576 | `find` returns each stored entry whose box strictly contains the key, as often as it is stored, and nothing else. The count the query reports, returned as `n`, equals the result length, as the source asserts. |
| AclDb.Bounds | rtacl.hpp:713 | The bounds exist iff the tree is non-empty, and they cover every stored box. |
| AclDb.SelectCovered | rtacl.hpp:715 | A `covered_by` query keeps exactly the entries whose box lies in the query box. |
| AclDb.Dump | rtacl.hpp:707-718 | `dump` returns every stored entry, with its multiplicity, and `size` entries in all. |
| AclProperties.KeyMatchesIffInclusive | rtacl.hpp:78-94 | A key lies strictly inside a rule's shifted box iff every field lies in the rule's closed interval. |
| AclProperties.OneUnitOutsideNotFound | rtacl.hpp:67-73 | A key one unit below a lower bound or above an upper bound in any one dimension is never found. |
| AclProperties.PointFieldMatchesOnlyItsValue | unitTest.cpp:459-460 | A single-value field such as dp 80..80 is stored as 79..81. A matching key holds 80 there, and with the other fields in bounds a key matches exactly when it holds 80. |
| AclProperties.RuleMatchesItsCorners | rtacl.hpp:67-73 | A rule with lo <= hi matches its own lower and upper bound. |
| AclProperties.AnyRuleEncoding | rtacl.hpp:89-94 | The "any" rule is stored as (-1, 2^32) or (-1, 2^128) for addresses, (-1, 0x10000) for ports and (-1, 0x100) for protocol and DSCP. These corners fit the coordinate type. |
| AclProperties.EncodedRuleWellFormed | rtacl.hpp:230-253 | A rule with lo ≤ hi in every field is stored under a well-formed box that `insert` accepts, and every flow inside the rule lies strictly inside that box. |
| AclProperties.EncodingFits | rtacl.hpp:605-618 | Corners and keys built from fields of the right widths never overflow the coordinate type. |
| AclProperties.RangeBoundsInvertsEncoding | rtacl.hpp:487-501 | `range2str` recovers exactly the inclusive bounds a rule was encoded from. |
| AclProperties.PrintedOctetsOfBounds | rtacl.hpp:490-493 | The octets printed for a recovered IPv4 bound recombine to the rule's address. |
| AclProperties.InsertAllAppends | rtacl.hpp:230 | A sequence of inserts leaves the old entries followed by the new ones, in order. |
| AclProperties.InsertAllContents | rtacl.hpp:230-235 | A sequence of inserts appends its entries to the store, and `size` grows by their number. |
| AclProperties.SizeAfterInserts | unitTest.cpp:482-483 | n inserts into a new `db` give `size() == n`. |
| AclProperties.RemoveUndoesInsert | rtacl.hpp:230-233 | `remove` right after `insert` of the same entry succeeds and restores the contents and size. |
| AclProperties.SecondRemoveFails | rtacl.hpp:231-233 | Removing the only copy succeeds once. A second `remove` reports failure and changes nothing. |
| AclProperties.InsertedRuleIsFound | rtacl.hpp:566-576 | An inserted rule is among the answers to every key inside its inclusive bounds. |
| AclProperties.RuleOutsideIsNotFound | rtacl.hpp:566-576 | A rule is never among the answers to a key outside its inclusive bounds. |
| AclProperties.OverlapFindsBoth | rtacl.hpp:566-576 | A key in the overlap of two stored rules finds both. |
| AclProperties.FindResultsAgree | rtacl.hpp:569-573 | Any two answers of `find` for the same key hold the same entries with the same multiplicities, and so have the same size. |
| AclProperties.OnlyOwnerContains | rtacl.hpp:569 | In a store of pairwise disjoint boxes, the box holding a key is the only one, and it is stored once. |
| AclProperties.DisjointFindIsOwner | perfTest.cpp:226-239 | With disjoint rules, `find` returns exactly the one rule whose box holds the key. |
| AclProperties.RemovedRuleNoLongerMatches | perfTest.cpp:293-321 | After a rule of a disjoint store is removed, `remove` has reported success, `size` has dropped by one, and a key inside that rule matches nothing. |
| AclProperties.PerfDbShape | perfTest.cpp:77-113 | The insert loop stores rules 0..n-1 and leaves `size() == n`. |
| AclProperties.PerfBlocksDisjoint | perfTest.cpp:83-101 | Two different eleven-address blocks share no key. |
| AclProperties.PerfEntriesDisjoint | perfTest.cpp:77-111 | All rules of the performance driver are pairwise disjoint. |
| AclProperties.PerfFieldsFit | perfTest.cpp:83-101 | For up to a million rules, every bound and key of the driver fits its field type, so no `u32` address wraps. |
| AclProperties.PerfUnmatchOutside | perfTest.cpp:251 | The address just below block k lies in no block. |
| AclProperties.PerfMatchKeyInBlock | perfTest.cpp:212 | The key `base + 0x20 k + 2` lies strictly inside the box of rule k. |
| AclProperties.PerfRandomMatch | perfTest.cpp:210-240 | The random match test's key finds exactly one entry, whose handle is that of rule k. |
| AclProperties.PerfRandomUnmatch | perfTest.cpp:249-277 | The random unmatch test's key finds nothing. |
| AclProperties.PerfPairDisjoint | perfTest.cpp:83-101 | Two different rules of the driver share no key. |
| AclProperties.PerfRemainingDisjoint | perfTest.cpp:284-294 | The rules k..n-1 that the removal loop still holds are pairwise disjoint. |
| AclProperties.PerfRemovedKeyInBlock | perfTest.cpp:299-309 | The removal loop's key, rule k's lower corner with sa + 1, lies strictly inside rule k's box. |
| AclProperties.PerfRemoveShape | perfTest.cpp:284-294 | Removing rule k from the store holding rules k..n-1 succeeds and leaves exactly the store holding rules k+1..n-1. |
| AclProperties.PerfRemoveStep | perfTest.cpp:284-321 | The removal loop starts from the full store. At pass k, removing rule k succeeds and leaves the store of the next pass, whose `size` is n-k-1. The key sa + 1 of rule k's lower corner, with the corner's other fields, then finds nothing. |
| AclProperties.RawTestKeys | unitTest.cpp:506-545 | Keys at sa+1 and sa+2 match rule i of the raw test. Keys at sa-1 and sa+11 do not. |
| AclProperties.RawKeyInside | unitTest.cpp:506-545 | A key at sa+j, for any j from 0 to 10, matches rule i of the raw test. |
| AclProperties.RawKeyOutside | unitTest.cpp:506-545 | A key at sa+j with j below 0 or above 10 does not match rule i of the raw test. |
| Profiler.Inc32 | cbProf.hpp:153-171 | `++` on a `u32` counter adds one, except that 2^32-1 wraps to 0. |
| Profiler.BucketIndex | cbProf.hpp:161-171 | A sub-millisecond duration gets an index in 0..36, and the duration lies in that bucket's documented interval. |
| Profiler.BucketOf | cbProf.hpp:149-171 | `end` bumps `hist[37]` exactly for durations of 1 ms or more, and otherwise a bucket below 37. |
| Profiler.BucketsTile | cbProf.hpp:68-75 | The documented buckets tile [0, 1 ms) from 0 upward without gaps. |
| Profiler.BucketIndexUnique | cbProf.hpp:68-75 | A duration in a bucket's documented interval is sub-millisecond, and `end` picks exactly that bucket. |
| Profiler.HistSumNonNeg | cbProf.hpp:204-207 | A band sum over non-negative counters is never negative. |
| Profiler.HistSumSplit | cbProf.hpp:250-270 | The sum of hist[b..e) is the sum of hist[b..m) plus the sum of hist[m..e). |
| Profiler.HistSumUpdate | cbProf.hpp:171 | Changing one bucket changes a range sum by the difference iff the bucket is in the range. |
| Profiler.Init | cbProf.hpp:111-120 | `init` zeroes all 38 buckets, `nCalls` and `sum`, and clears `running`. It sets `min` to the largest and `max` to the smallest `s64`, leaves `start` alone, and establishes the counting invariant. |
| Profiler.Create | cbProf.hpp:85-89 | The default constructor gives a valid profile with zero counters and buckets, `min` at the largest and `max` at the smallest `s64` (so the first timed call sets both), `start` at the epoch, and `running` equal to the flag. |
| Profiler.Run | cbProf.hpp:94 | `run` sets `running`, changes nothing else and keeps the invariant. |
| Profiler.Stop | cbProf.hpp:95 | `stop` clears `running`, changes nothing else and keeps the invariant. |
| Profiler.Begin | cbProf.hpp:127-134 | While running, `begin` records the clock reading and changes nothing else. While stopped, it changes nothing. |
| Profiler.Record | cbProf.hpp:147-178 | A duration of 1 ms or more bumps only `hist[37]`. A shorter one bumps `nCalls` and exactly its own bucket, adds to `sum`, and makes `min` and `max` the smaller and larger of the old value and the duration. No other field changes. |
| Profiler.End | cbProf.hpp:141-179 | While stopped, `end` changes nothing. While running, it is `Record` of `now - start`. A duration of 1 ms or more bumps only `hist[37]` and leaves `nCalls`, `sum`, `min`, `max` and the other buckets alone. A shorter one bumps `nCalls` and its bucket, adds the duration to `sum`, moves `min` and `max` outward to it, and changes no other bucket. The counting invariant is kept. |
| Profiler.BumpCount | cbProf.hpp:153-171 | Bumping a timed bucket adds one to the timed-bucket sum modulo 2^32, wrapped or not. Bumping `hist[37]` leaves that sum alone. |
| Profiler.RecordPreservesValid | cbProf.hpp:159-171 | Every recorded duration keeps `nCalls` equal to the sum of hist[0..36] modulo 2^32. |
| Profiler.RecordAll | cbProf.hpp:50-56 | A sequence of measurements keeps the 38-bucket shape and the `u32` counter ranges. |
| Profiler.RecordAllValid | cbProf.hpp:50-56 | A sequence of measurements keeps the counting invariant. |
| Profiler.TraceHist | cbProf.hpp:153-171 | After a trace, each bucket has grown by exactly the number of durations that land in it, modulo 2^32. |
| Profiler.TraceCount | cbProf.hpp:159 | After a trace, `nCalls` has grown by the number of sub-millisecond durations, modulo 2^32. |
| Profiler.TraceSum | cbProf.hpp:160 | After a trace, `sum` has grown by the total of the sub-millisecond durations. |
| Profiler.TraceCalls | cbProf.hpp:159-160 | After a trace, `nCalls` has grown by the number of sub-millisecond durations, modulo 2^32, and `sum` by their total. |
| Profiler.TraceFromInit | cbProf.hpp:111-179 | From `init`, a trace leaves a valid profile whose `nCalls` counts and whose `sum` totals the sub-millisecond durations. |
| Profiler.BucketFromInit | cbProf.hpp:111-179 | From `init`, each bucket counts exactly the trace's durations in its interval, and `hist[37]` counts the slow ones (modulo 2^32). |
| Profiler.TraceBounds | cbProf.hpp:173-178 | After a trace, `min` is at most and `max` at least every sub-millisecond duration recorded, and neither has moved inward. |
| Profiler.BandOf | cbProf.hpp:250-270 | Every timed bucket belongs to one of the four report bands. |
| Profiler.BandsPartition | cbProf.hpp:250-270 | The bands (0,10), (10,19), (19,28) and (28,37) cover hist[0..36] in order, without gaps or overlap, and leave out `hist[37]`. |
| Profiler.BandLabels | cbProf.hpp:217-223 | The interval printed for a bucket (`tm + k d` to `+ d`, in ns or µs) is that bucket's documented interval. |
| Profiler.MakeHistEntSum | cbProf.hpp:196-207 | The band sum of `makeHistEnt` is the sum of hist[begin..end) modulo 2^32, and zero for an empty range. |
| Profiler.BandsSplitSum | cbProf.hpp:250-270 | The four band sums add up to the sum of hist[0..36]. |
| Profiler.BandSumsAddUp | cbProf.hpp:250-270 | In a valid profile, the four band sums add up to `nCalls` modulo 2^32. |
| ProfilerFindings.BucketIndexAsWritten | cbProf.hpp:161-171 | The index as written is stored in a `u32`, so it always lies in 0..2^32-1, and for a non-negative sub-millisecond duration it is one of the fast buckets 0..36. |
| ProfilerFindings.AsWrittenAgreesOnDurations | cbProf.hpp:161-171 | For durations from 0 up to 1 ms, the signed, truncating, `u32`-stored index computation equals the intended bucket index. |
| ProfilerFindings.ClockStepBackIndexOutOfRange | cbProf.hpp:147-171 | A duration between -1 ms and -100 ns gets an index of at least 38, outside `hist`. |
| ProfilerFindings.ClockStepBackExample | cbProf.hpp:162-163 | A duration of -100 ns gets index 2^32 - 1. |
| ProfilerFindings.CreateFromFlagAsWritten | cbProf.hpp:84 | `prof(bool)` as written leaves every field as the memory held it, except `start`, which is default-constructed to the epoch (0). |
| ProfilerFindings.FlagConstructorIgnoresFlag | cbProf.hpp:84 | Over memory holding 38 empty buckets and a call count of 7, `prof(true)` is not running and breaks the counting invariant. The intended constructor runs with a valid profile. |

## Left out

- The R-tree's internals are not modelled: quadratic split, node fan-out and condensing. The store is a multiset, and the order of `find` and `dump` results is left open, as the library does not fix it.
- `sockaddr_in`/`sockaddr_in6` marshalling is not modelled: `ntohl`, `ntohs`, and the `sockItem`/`sockEnt` helper classes. Fields enter the model in host byte order.
- The `db` constructor's `af`, `ao` and `po` fields and the `af` assertions in `makeTuple` are not modelled. Only those assertions read `af`. The IPv6 branch of the constructor stores `sockaddr_in` offsets.
- All text output is left out:
  - the string building of `ipv4a2s` (only the four numbers it prints are modelled);
  - `ipv6a2s` and `inet_ntop`;
  - `tuple2str`;
  - the text of `range2str` (only its bound adjustment is modelled).
- AclTuple.MakeTuple: the raw-integer overload accepts any `s64`/`s256`. Its no-overflow guarantee is stated only for field-width inputs. Adding the offset at the very ends of `s64` is not modelled.
- Ipv6Addr.IntToSin6: modelled for non-negative values only. The source's shift of a negative `s256` is not modelled.
- AclDb.Insert: requires a well-formed box (`min <= max` in every dimension). The R-tree asserts on a malformed box, so the model treats one as a caller error and does not model what a release build would store.
- The clock is not modelled: `begin` and `end` take the reading as `now`.
- Profiler.End: requires `now >= start` (a monotonic clock). The source reads `high_resolution_clock`, which need not be monotonic; see Findings.
- Profiler.Record: `sum` is an unbounded integer. The source's `s64` nanosecond sum would overflow only after about 9.2·10^12 sub-millisecond calls.
- `makeHist` and `makeHistEnt` are left out apart from the integer band sum and the band layout. Their `double` percentages, the 1 % summary branch, the division by `nCalls` and the report text are not modelled.
- The banner and message strings and `setBanner`, `str` and `getCstr` are not modelled.
- The one-argument constructor `prof(const char*)` differs from `Create(false)` only in the banner.

## Findings

| source | as written | input that shows it | evidently intended | confidence | as-written member | corrected member |
|---|---|---|---|---|---|---|
| cbProf.hpp:147-171 | The duration is the difference of two `high_resolution_clock` readings, which can be negative. The index is `delta.count() / 100` (truncating) stored in a `u32`, then `++hist[i]`. | A clock step back of 100 ns: delta = -100 gives i = 4294967295, a write far outside `hist[38]`. | Durations from a monotonic clock, so delta >= 0 and the index stays in 0..36. | not executed; medium (depends on whether the platform's clock can step back) | ProfilerFindings.ClockStepBackIndexOutOfRange | Profiler.End |
| cbProf.hpp:84 | The body of `prof(bool r)` constructs and destroys a temporary `prof("", r)`. The object itself is never initialised. | `prof(true)` over memory holding running = false, nCalls = 7 and 38 empty buckets: the result is not running and breaks the counting invariant. | Delegation, i.e. `init` followed by `running = r`, as the default constructor does. | not executed; high | ProfilerFindings.FlagConstructorIgnoresFlag | Profiler.Create |
