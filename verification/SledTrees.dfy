/**
 The four trees of the standalone cache, and the transactions that change them.

 `entries` holds what is cached, `used` when each key was last used, `index` the same moments
 spelled so that the tree's own order is the order of use, and `sizes` what each level holds in
 bytes. Each function ending in `Txn` is one sled transaction, which nothing falls inside of.
 */
module SledTrees {
  import opened Bytes
  import opened Common
  import opened Sums

  type Key = seq<Byte>

  datatype Level = Response | Semantic | System

  datatype Trees = Trees(
    entries: map<Key, seq<Byte>>,
    used: map<Key, Stamp>,
    index: set<seq<Byte>>,
    sizes: map<Level, nat>
  )

  // ----- keys, entries and what they weigh -----

  /** The text every key of a level begins with: `ip:resp:`, `ip:sem:` and `ip:sys:`. */
  function Prefix(level: Level): seq<Byte> {
    match level
    case Response => [105, 112, 58, 114, 101, 115, 112, 58]
    case Semantic => [105, 112, 58, 115, 101, 109, 58]
    case System => [105, 112, 58, 115, 121, 115, 58]
  }

  /** The level a key belongs to, told apart by the two bytes where the prefixes differ. */
  function LevelOf(key: Key): Option<Level> {
    if |key| < 5 then None
    else if key[3] == 114 then Some(Response)
    else if key[3] == 115 && key[4] == 101 then Some(Semantic)
    else if key[3] == 115 && key[4] == 121 then Some(System)
    else None
  }

  /** Keys of different levels never collide: a cache key tells the one level it was made for. */
  lemma ACacheKeyTellsItsLevel(level: Level, id: seq<Byte>)
    ensures LevelOf(Prefix(level) + id) == Some(level)
  {
  }

  /** The letters a level is known by. */
  function Word(level: Level): string {
    match level
    case Response => "resp"
    case Semantic => "sem"
    case System => "sys"
  }

  /** A prefix spells the gateway's own name and its level's, each closed by a colon. */
  lemma APrefixIsSpelt(level: Level)
    ensures
      var spelt := "ip:" + Word(level) + ":";
      |Prefix(level)| == |spelt| && forall i :: 0 <= i < |spelt| ==> Prefix(level)[i] as char == spelt[i]
  {
  }

  function Tag(level: Level): Byte {
    match level
    case Response => 0
    case Semantic => 1
    case System => 2
  }

  function Saturated(n: nat): (m: nat)
    ensures m <= U64_MAX
  {
    Min(n, U64_MAX)
  }

  /** The bytes of a key and its entry, saturating at 64 bits. */
  function Weigh(key: Key, entry: seq<Byte>): nat {
    Saturated(|key| + |entry|)
  }

  /** A value stamped with the moment its ttl runs out, or with the moment no clock reaches. */
  function Stamped(value: seq<Byte>, ttl: Option<nat>, now: nat): (entry: seq<Byte>)
    ensures |entry| == 8 + |value|
  {
    SpanOfEight();
    BigEndian(if ttl.Some? then Saturated(now + ttl.value) else U64_MAX, 8) + value
  }

  /** The bytes behind an entry's stamp while the stamp is after `now`. */
  function ValueOf(entry: seq<Byte>, now: nat): Option<seq<Byte>> {
    if |entry| < 8 then None
    else if FromBigEndian(entry[..8]) > now then Some(entry[8..])
    else None
  }

  /** A stamped value reads back until exactly its ttl has passed, and one without a ttl always. */
  lemma StampedReadsBack(value: seq<Byte>, ttl: Option<nat>, now: nat, later: nat)
    requires later < U64_MAX
    ensures ValueOf(Stamped(value, ttl, now), later) ==
            if ttl.None? || later < now + ttl.value then Some(value) else None
  {
    SpanOfEight();
    var expires := if ttl.Some? then Saturated(now + ttl.value) else U64_MAX;
    BigEndianReadsBack(expires, 8);
    assert Stamped(value, ttl, now)[..8] == BigEndian(expires, 8);
    assert Stamped(value, ttl, now)[8..] == value;
  }

  // ----- the index: one key per entry, in the order of use -----

  /** A moment of use, in microseconds, as the trees spell it. */
  type Stamp = s: seq<Byte> | |s| == 8 witness [0, 0, 0, 0, 0, 0, 0, 0]

  function StampAt(micros: nat): Stamp
    requires micros <= U64_MAX
  {
    SpanOfEight();
    BigEndian(micros, 8)
  }

  /** The index key of an entry: its level, when it was last used, and its own key. */
  function IndexKey(level: Level, stamp: Stamp, key: Key): (x: seq<Byte>)
    ensures |x| == 9 + |key| && x[0] == Tag(level) && x[9..] == key
  {
    [Tag(level)] + stamp + key
  }

  /** The tree's order over one level's index keys is the order of use, oldest first. */
  lemma IndexSortsByUse(level: Level, a: Stamp, k: Key, b: Stamp, j: Key)
    ensures Less(IndexKey(level, a, k), IndexKey(level, b, j)) <==>
            FromBigEndian(a) < FromBigEndian(b) || (a == b && Less(k, j))
  {
    assert IndexKey(level, a, k) == [Tag(level)] + (a + k);
    assert IndexKey(level, b, j) == [Tag(level)] + (b + j);
    hide Less, BigEndian, FromBigEndian, IndexKey;
    LessBehindPrefix([Tag(level)], a + k, b + j);
    BigEndianWritesBack(a);
    BigEndianWritesBack(b);
    var m, n := FromBigEndian(a), FromBigEndian(b);
    BigEndianSortsAsNumbers(m, n, |a|);
    BigEndianSortsAsNumbers(n, m, |b|);
    if m < n {
      LessByPrefix(a, b, k, j);
    } else if n < m {
      LessByPrefix(b, a, j, k);
      LessIsAsymmetric(b + j, a + k);
    } else {
      LessBehindPrefix(a, k, j);
    }
  }

  // ----- the transactions -----

  function Held(t: Trees, level: Level): nat {
    if level in t.sizes then t.sizes[level] else 0
  }

  /** A drop, which changes the four trees together and only where the key has an entry. */
  function DropTxn(t: Trees, level: Level, key: Key): Trees
  {
    if key !in t.entries then t
    else Trees(
      t.entries - {key},
      t.used - {key},
      if key in t.used then t.index - {IndexKey(level, t.used[key], key)} else t.index,
      t.sizes[level := Max(0, Held(t, level) - Weigh(key, t.entries[key]))])
  }

  /** A write, which takes what the key cost before from the size and adds what it costs now. */
  function WriteTxn(t: Trees, level: Level, key: Key, entry: seq<Byte>, stamp: Stamp): Trees
  {
    var kept := Max(0, Held(t, level) - CostNow(t.entries, key));
    var index := if key in t.used then t.index - {IndexKey(level, t.used[key], key)} else t.index;
    Trees(
      t.entries[key := entry],
      t.used[key := stamp],
      index + {IndexKey(level, stamp, key)},
      t.sizes[level := Saturated(kept + Weigh(key, entry))])
  }

  /** Records a use, whether or not the entry is still there. */
  function TouchTxn(t: Trees, level: Level, key: Key, stamp: Stamp): Trees
  {
    var index := if key in t.used then t.index - {IndexKey(level, t.used[key], key)} else t.index;
    t.(used := t.used[key := stamp], index := index + {IndexKey(level, stamp, key)})
  }

  /** The swap a claim or a count makes before its write, which accounts for nothing. */
  function SwapTxn(t: Trees, key: Key, entry: seq<Byte>): Trees {
    t.(entries := t.entries[key := entry])
  }

  // ----- agreement of entries, used and index -----

  /** The one index key a key in use has. */
  ghost function Entry(used: map<Key, Stamp>, k: Key): (x: seq<Byte>)
    requires k in used && LevelOf(k).Some?
    ensures |x| >= 9 && x[9..] == k
  {
    IndexKey(LevelOf(k).value, used[k], k)
  }

  /** The index holds exactly the keys in use, each under its last use. */
  ghost predicate Indexed(used: map<Key, Stamp>, index: set<seq<Byte>>) {
    && (forall k :: k in used ==> LevelOf(k).Some? && Entry(used, k) in index)
    && (forall x :: x in index ==> |x| >= 9 && x[9..] in used && LevelOf(x[9..]).Some? && x == Entry(used, x[9..]))
  }

  /** And every entry is in use: the three trees hold the same keys. */
  ghost predicate Agreed(t: Trees) {
    Indexed(t.used, t.index) && t.entries.Keys == t.used.Keys
  }

  lemma ForgettingKeepsIndex(used: map<Key, Stamp>, index: set<seq<Byte>>, key: Key)
    requires Indexed(used, index) && key in used
    ensures Indexed(used - {key}, index - {Entry(used, key)})
  {
  }

  lemma DropKeepsAgreement(t: Trees, level: Level, key: Key)
    requires Agreed(t) && LevelOf(key) == Some(level)
    ensures Agreed(DropTxn(t, level, key))
  {
  }

  /** A use recorded for a key whose entry may be gone still leaves the index in step with `used`. */
  lemma TouchKeepsIndex(t: Trees, level: Level, key: Key, stamp: Stamp)
    requires Indexed(t.used, t.index) && LevelOf(key) == Some(level)
    ensures
      var t' := TouchTxn(t, level, key, stamp);
      Indexed(t'.used, t'.index)
  {
  }

  /** A write brings its own key back into agreement, which is what ends a claim or a count. */
  lemma WriteRestoresAgreement(t: Trees, level: Level, key: Key, entry: seq<Byte>, stamp: Stamp)
    requires Indexed(t.used, t.index) && LevelOf(key) == Some(level)
    requires t.entries.Keys - {key} == t.used.Keys - {key}
    ensures Agreed(WriteTxn(t, level, key, entry, stamp))
  {
    hide LevelOf, IndexKey, Weigh, Indexed;
    TouchKeepsIndex(t, level, key, stamp);
    assert t.entries.Keys + {key} == t.entries.Keys - {key} + {key};
    assert t.used.Keys + {key} == t.used.Keys - {key} + {key};
  }

  /** Agreement counts: the index holds one key for each entry and no more. */
  lemma AgreementCounts(t: Trees)
    requires Agreed(t)
    ensures |t.index| == |t.entries|
  {
    IndexedCounts(t.used, t.index);
    assert |t.entries.Keys| == |t.used.Keys|;
  }

  lemma {:induction false} IndexedCounts(used: map<Key, Stamp>, index: set<seq<Byte>>)
    requires Indexed(used, index)
    ensures |index| == |used|
    decreases |used|
  {
    if |used| == 0 {
      if x :| x in index {
        assert x[9..] in used;
      }
    } else {
      var k :| k in used;
      ForgettingKeepsIndex(used, index, k);
      IndexedCounts(used - {k}, index - {Entry(used, k)});
    }
  }

  // ----- what a level holds -----

  /** What each entry of a level costs it. */
  ghost function Costs(entries: map<Key, seq<Byte>>, level: Level): map<Key, nat> {
    map k | k in entries && LevelOf(k) == Some(level) :: Weigh(k, entries[k])
  }

  /** What the entries of a level weigh together. */
  ghost function Weight(entries: map<Key, seq<Byte>>, level: Level): nat {
    Total(Costs(entries, level))
  }

  lemma WeightWithout(entries: map<Key, seq<Byte>>, level: Level, key: Key)
    requires key in entries
    ensures LevelOf(key) == Some(level) ==>
              Weight(entries, level) == Weigh(key, entries[key]) + Weight(entries - {key}, level)
    ensures LevelOf(key) != Some(level) ==> Weight(entries, level) == Weight(entries - {key}, level)
  {
    assert Costs(entries - {key}, level) == Costs(entries, level) - {key};
    if LevelOf(key) == Some(level) {
      TotalWithout(Costs(entries, level), key);
    } else {
      assert Costs(entries, level) - {key} == Costs(entries, level);
    }
  }

  lemma WeightWith(entries: map<Key, seq<Byte>>, level: Level, key: Key, entry: seq<Byte>)
    ensures LevelOf(key) == Some(level) ==>
              Weight(entries[key := entry], level) == Weigh(key, entry) + Weight(entries - {key}, level)
    ensures LevelOf(key) != Some(level) ==> Weight(entries[key := entry], level) == Weight(entries - {key}, level)
  {
    WeightWithout(entries[key := entry], level, key);
    assert entries[key := entry] - {key} == entries - {key};
  }

  /** What a key costs its level as it stands. */
  function CostNow(entries: map<Key, seq<Byte>>, key: Key): nat {
    if key in entries then Weigh(key, entries[key]) else 0
  }

  lemma WeightBefore(entries: map<Key, seq<Byte>>, level: Level, key: Key)
    ensures Weight(entries, level) ==
            (if LevelOf(key) == Some(level) then CostNow(entries, key) else 0) + Weight(entries - {key}, level)
  {
    if key in entries {
      WeightWithout(entries, level, key);
    } else {
      assert entries - {key} == entries;
    }
  }

  /** The bytes of a level's keys and entries. */
  ghost function BytesOf(entries: map<Key, seq<Byte>>, level: Level): map<Key, nat> {
    map k | k in entries && LevelOf(k) == Some(level) :: |k| + |entries[k]|
  }

  /** What a level weighs is its keys' and its entries' bytes together. */
  lemma AWeightIsItsBytes(entries: map<Key, seq<Byte>>, level: Level)
    requires forall k :: k in entries ==> |k| + |entries[k]| <= U64_MAX
    ensures Weight(entries, level) == Total(BytesOf(entries, level))
  {
    assert BytesOf(entries, level) == Costs(entries, level);
  }

  /** The recorded size of a level is exactly what its entries weigh. */
  ghost predicate Exact(t: Trees, level: Level) {
    Held(t, level) == Weight(t.entries, level)
  }

  lemma DropKeepsExactness(t: Trees, level: Level, key: Key, of: Level)
    requires LevelOf(key) == Some(level) && Exact(t, of)
    ensures Exact(DropTxn(t, level, key), of)
  {
    if key in t.entries {
      WeightWithout(t.entries, of, key);
    }
  }

  lemma WriteKeepsExactness(t: Trees, level: Level, key: Key, entry: seq<Byte>, stamp: Stamp, of: Level)
    requires LevelOf(key) == Some(level) && Exact(t, of)
    requires Weight(t.entries[key := entry], level) <= U64_MAX
    ensures Exact(WriteTxn(t, level, key, entry, stamp), of)
  {
    WeightWith(t.entries, of, key, entry);
    WeightBefore(t.entries, of, key);
    assert WriteTxn(t, level, key, entry, stamp).entries == t.entries[key := entry];
  }

  // ----- recorded sizes under claims and counts, in any interleaving -----

  datatype Txn =
    | Drop(key: Key)
    | Write(key: Key, entry: seq<Byte>, stamp: Stamp)
    | Touch(key: Key, stamp: Stamp)
    | Swap(key: Key, entry: seq<Byte>)

  predicate Sound(x: Txn) {
    LevelOf(x.key).Some?
  }

  function Run(t: Trees, x: Txn): Trees
    requires Sound(x)
  {
    var level := LevelOf(x.key).value;
    match x
    case Drop(key) => DropTxn(t, level, key)
    case Write(key, entry, stamp) => WriteTxn(t, level, key, entry, stamp)
    case Touch(key, stamp) => TouchTxn(t, level, key, stamp)
    case Swap(key, entry) => SwapTxn(t, key, entry)
  }

  function RunAll(t: Trees, xs: seq<Txn>): (end: Trees)
    requires forall x :: x in xs ==> Sound(x)
    decreases xs
  {
    if xs == [] then t else RunAll(Run(t, xs[0]), xs[1..])
  }

  /** Whatever is done to the trees, in whatever order, the index stays in step with the uses. */
  lemma {:induction false} RunsKeepTheIndex(t: Trees, xs: seq<Txn>)
    requires Indexed(t.used, t.index) && forall x :: x in xs ==> Sound(x)
    ensures Indexed(RunAll(t, xs).used, RunAll(t, xs).index)
    decreases xs
  {
    if xs != [] {
      assert xs[0] in xs;
      OneStepKeepsTheIndex(t, xs[0]);
      RunsKeepTheIndex(Run(t, xs[0]), xs[1..]);
    }
  }

  lemma OneStepKeepsTheIndex(t: Trees, x: Txn)
    requires Indexed(t.used, t.index) && Sound(x)
    ensures Indexed(Run(t, x).used, Run(t, x).index)
  {
    hide LevelOf, IndexKey, Weigh;
    var level := LevelOf(x.key).value;
    if x.Drop? {
      if x.key in t.entries && x.key in t.used {
        ForgettingKeepsIndex(t.used, t.index, x.key);
      } else if x.key in t.entries {
        assert t.used - {x.key} == t.used;
      }
    } else if !x.Swap? {
      TouchKeepsIndex(t, level, x.key, x.stamp);
    }
  }

  /** Of all that is done to the trees, only a swap can make a size exceed the weight, and this is exactly when. */
  lemma AStepOverstatesExactly(t: Trees, x: Txn, level: Level)
    requires Sound(x) && Held(t, level) <= Weight(t.entries, level)
    ensures Held(Run(t, x), level) <= Weight(Run(t, x).entries, level) <==>
            !(&& x.Swap? && LevelOf(x.key) == Some(level)
              && Held(t, level) + CostNow(t.entries, x.key) > Weight(t.entries, level) + Weigh(x.key, x.entry))
  {
    var w := t.entries;
    WeightBefore(w, level, x.key);
    if x.Drop? {
      assert Run(t, x).entries == if x.key in w then w - {x.key} else w;
    } else if !x.Touch? {
      assert Run(t, x).entries == w[x.key := x.entry];
      WeightWith(w, level, x.key, x.entry);
    }
  }

  /** Whether a level's recorded size is within what it holds at every moment of a run. */
  ghost predicate AlwaysWithin(t: Trees, xs: seq<Txn>, level: Level)
    requires forall x :: x in xs ==> Sound(x)
    decreases xs
  {
    && Held(t, level) <= Weight(t.entries, level)
    && (xs != [] ==> Sound(xs[0]) && AlwaysWithin(Run(t, xs[0]), xs[1..], level))
  }

  /** Whether every swap of a run into a level leaves it at least the weight that is recorded for it. */
  ghost predicate SwapsLeaveEnough(t: Trees, xs: seq<Txn>, level: Level)
    requires forall x :: x in xs ==> Sound(x)
    decreases xs
  {
    xs == [] ||
    (&& Sound(xs[0])
     && (xs[0].Swap? && LevelOf(xs[0].key) == Some(level) ==>
           Held(t, level) + CostNow(t.entries, xs[0].key) <= Weight(t.entries, level) + Weigh(xs[0].key, xs[0].entry))
     && SwapsLeaveEnough(Run(t, xs[0]), xs[1..], level))
  }

  /** Over any interleaving, a size is never overstated exactly when no swap takes away more than it leaves room for. */
  lemma {:induction false} RunsOverstateExactly(t: Trees, xs: seq<Txn>, level: Level)
    requires (forall x :: x in xs ==> Sound(x)) && Held(t, level) <= Weight(t.entries, level)
    ensures AlwaysWithin(t, xs, level) <==> SwapsLeaveEnough(t, xs, level)
    decreases xs
  {
    if xs != [] {
      assert xs[0] in xs;
      hide Weight, LevelOf, Run;
      AStepOverstatesExactly(t, xs[0], level);
      var next := Run(t, xs[0]);
      if Held(next, level) <= Weight(next.entries, level) {
        RunsOverstateExactly(next, xs[1..], level);
      }
    }
  }

  /** Whether every claim or count of a run swaps in an entry no lighter than the one it replaces. */
  predicate NoLighterSwap(t: Trees, xs: seq<Txn>)
    requires forall x :: x in xs ==> Sound(x)
    decreases xs
  {
    xs == [] ||
    (&& Sound(xs[0])
     && (xs[0].Swap? ==> CostNow(t.entries, xs[0].key) <= Weigh(xs[0].key, xs[0].entry))
     && NoLighterSwap(Run(t, xs[0]), xs[1..]))
  }

  /**
   While no claim or count replaces a heavier entry, no interleaving of puts, gets, removes,
   evictions, claims and counts makes a level's recorded size exceed what it holds.
   */
  lemma {:induction false} SizesAreNeverOverstated(t: Trees, xs: seq<Txn>, level: Level)
    requires (forall x :: x in xs ==> Sound(x)) && NoLighterSwap(t, xs)
    requires Held(t, level) <= Weight(t.entries, level)
    ensures Held(RunAll(t, xs), level) <= Weight(RunAll(t, xs).entries, level)
    decreases xs
  {
    if xs != [] {
      assert xs[0] in xs;
      AStepOverstatesExactly(t, xs[0], level);
      SizesAreNeverOverstated(Run(t, xs[0]), xs[1..], level);
    }
  }

  ghost predicate Fits(t: Trees, x: Txn)
    requires Sound(x)
  {
    x.Write? ==> Weight(t.entries[x.key := x.entry], LevelOf(x.key).value) <= U64_MAX
  }

  ghost predicate FitsAll(t: Trees, xs: seq<Txn>)
    requires forall x :: x in xs ==> Sound(x)
    decreases xs
  {
    xs == [] || (Sound(xs[0]) && Fits(t, xs[0]) && FitsAll(Run(t, xs[0]), xs[1..]))
  }

  /** Without claims and counts, sizes stay exact in every interleaving of the transactions. */
  lemma {:induction false} SizesStayExact(t: Trees, xs: seq<Txn>, level: Level)
    requires Exact(t, level)
    requires forall x :: x in xs ==> Sound(x) && !x.Swap?
    requires FitsAll(t, xs)
    ensures Exact(RunAll(t, xs), level)
    decreases xs
  {
    if xs != [] {
      assert xs[0] in xs;
      var own := LevelOf(xs[0].key).value;
      if xs[0].Drop? {
        DropKeepsExactness(t, own, xs[0].key, level);
      } else if xs[0].Write? {
        WriteKeepsExactness(t, own, xs[0].key, xs[0].entry, xs[0].stamp, level);
      }
      SizesStayExact(Run(t, xs[0]), xs[1..], level);
    }
  }

  lemma ASwapThenAWrite(t: Trees, key: Key, entry: seq<Byte>, stamp: Stamp, level: Level)
    requires LevelOf(key) == Some(level)
    ensures
      var end := RunAll(t, [Swap(key, entry), Write(key, entry, stamp)]);
      && end.entries == t.entries[key := entry]
      && Held(end, level) == Saturated(Max(Held(t, level), Weigh(key, entry)))
      && forall other :: other != level ==> Held(end, other) == Held(t, other)
  {
    hide LevelOf, IndexKey, Weigh;
    var swapped := SwapTxn(t, key, entry);
    var end := WriteTxn(swapped, level, key, entry, stamp);
    var xs := [Swap(key, entry), Write(key, entry, stamp)];
    assert Run(t, xs[0]) == swapped && xs[1..] == [xs[1]] && [xs[1]][1..] == [];
    assert RunAll(t, xs) == RunAll(swapped, [xs[1]]) == RunAll(end, []) == end;
    assert end.entries == t.entries[key := entry];
  }

  /**
   With them, sizes fall behind: a claim's write takes its own swapped-in entry for the one it
   replaces. The size is still right exactly when the two weigh the same, or when the level held
   nothing else and the new one is no lighter; it is too high exactly when the new one is lighter.
   */
  lemma AClaimIsRecordedExactly(t: Trees, key: Key, entry: seq<Byte>, stamp: Stamp, level: Level)
    requires LevelOf(key) == Some(level)
    requires Exact(t, level) && Weight(t.entries, level) <= U64_MAX
    ensures
      var end := RunAll(t, [Swap(key, entry), Write(key, entry, stamp)]);
      var before, after, all := CostNow(t.entries, key), Weigh(key, entry), Weight(t.entries, level);
      && (Exact(end, level) <==> before == after || (all == before && before <= after))
      && (Held(end, level) > Weight(end.entries, level) <==> after < before)
      && forall other :: other != level && Exact(t, other) ==> Exact(end, other)
  {
    ASwapThenAWrite(t, key, entry, stamp, level);
    forall of: Level ensures of != level ==> Weight(t.entries[key := entry], of) == Weight(t.entries, of) {
      WeightWith(t.entries, of, key, entry);
      WeightBefore(t.entries, of, key);
    }
    WeightWith(t.entries, level, key, entry);
    WeightBefore(t.entries, level, key);
  }

  /** So a claim on a free key goes unrecorded wherever its level already holds as much. */
  lemma AClaimGoesUnrecorded(t: Trees, key: Key, entry: seq<Byte>, stamp: Stamp, level: Level)
    requires LevelOf(key) == Some(level)
    requires key !in t.entries && Weigh(key, entry) <= Held(t, level) <= U64_MAX
    ensures
      var end := RunAll(t, [Swap(key, entry), Write(key, entry, stamp)]);
      && Held(end, level) == Held(t, level)
      && Weight(end.entries, level) == Weight(t.entries, level) + Weigh(key, entry)
  {
    ASwapThenAWrite(t, key, entry, stamp, level);
    WeightWith(t.entries, level, key, entry);
    WeightBefore(t.entries, level, key);
  }
}
