/**
 The standalone cache as one caller after another sees it: an object over four trees whose
 methods are the transactions of those trees and the loops around them.

 The clock is a parameter: `now` in milliseconds decides what has expired, `micros` in
 microseconds stamps a use.
 */
module SledCache {
  import opened Bytes
  import opened Common
  import opened SledTrees
  import opened Sums

  const REFRESH_AFTER_MICROS: nat := 1_000_000

  // ----- what an eviction may do -----

  /** Whether `x` is the first key a scan of the level's part of the index meets. */
  predicate IsOldest(index: set<seq<Byte>>, level: Level, x: seq<Byte>) {
    && x in index && |x| >= 9 && x[0] == Tag(level)
    && forall y :: y in index && |y| >= 9 && y[0] == Tag(level) ==> y == x || Less(x, y)
  }

  predicate OfLevel(index: set<seq<Byte>>, level: Level) {
    exists x :: x in index && |x| >= 9 && x[0] == Tag(level)
  }

  lemma {:induction false} AnOldestExists(index: set<seq<Byte>>, level: Level)
    requires OfLevel(index, level)
    ensures exists x :: IsOldest(index, level, x)
    decreases |index|
  {
    var x :| x in index && |x| >= 9 && x[0] == Tag(level);
    var rest := index - {x};
    if OfLevel(rest, level) {
      AnOldestExists(rest, level);
      var y :| IsOldest(rest, level, y);
      LessIsTotal(x, y);
      if Less(x, y) {
        forall z | z in index && |z| >= 9 && z[0] == Tag(level) ensures z == x || Less(x, z) {
          if z != x && z != y {
            LessIsTransitive(x, y, z);
          }
        }
        assert IsOldest(index, level, x);
      } else {
        assert IsOldest(index, level, y);
      }
    } else {
      assert IsOldest(index, level, x);
    }
  }

  /** Whether one key was used before another, the spelling of the keys breaking a tie. */
  ghost predicate UsedBefore(used: map<Key, Stamp>, d: Key, k: Key) {
    && d in used && k in used && LevelOf(d).Some? && LevelOf(k).Some?
    && Less(Entry(used, d), Entry(used, k))
  }

  /** The key a run of evictions took last, which the level was still too full without. */
  ghost predicate LastGone(t: Trees, t': Trees, level: Level, limit: nat, last: Key) {
    && last in t.entries && last !in t'.entries
    && (forall d :: d in t.entries && d !in t'.entries && d != last ==> UsedBefore(t.used, d, last))
    && Held(t', level) + Weigh(last, t.entries[last]) > limit
  }

  /** What is left is what was there, and what is gone was the level's least recently used. */
  ghost predicate GoneInOrder(t: Trees, t': Trees, level: Level) {
    && (forall k :: k in t'.entries ==> k in t.entries && t'.entries[k] == t.entries[k])
    && (forall k :: k in t'.used ==> k in t.used && t'.used[k] == t.used[k])
    && (forall d :: d in t.entries && d !in t'.entries ==> LevelOf(d) == Some(level))
    && (forall d, k :: d in t.entries && d !in t'.entries && k in t'.entries && LevelOf(k) == Some(level) ==>
          UsedBefore(t.used, d, k))
  }

  /** What any number of turns of the eviction loop may have done. */
  ghost predicate Evicting(t: Trees, t': Trees, level: Level, limit: nat) {
    && Agreed(t')
    && GoneInOrder(t, t', level)
    && (forall other :: other != level ==> Held(t', other) == Held(t, other))
    && (t'.entries == t.entries ==> t' == t)
    && (t'.entries != t.entries ==> exists last :: LastGone(t, t', level, limit, last))
    && (forall of :: Exact(t, of) ==> Exact(t', of))
  }

  /** An eviction that is over: the level is inside its limit, or there is nothing left of it. */
  ghost predicate Evicted(t: Trees, t': Trees, level: Level, limit: nat) {
    && Evicting(t, t', level, limit)
    && (Held(t', level) <= limit || forall k :: k in t'.entries ==> LevelOf(k) != Some(level))
  }

  lemma TheOldestHasItsEntry(t: Trees, level: Level, oldest: seq<Byte>)
    requires Agreed(t) && IsOldest(t.index, level, oldest)
    ensures |oldest| >= 9
    ensures oldest[9..] in t.entries && oldest[9..] in t.used && LevelOf(oldest[9..]) == Some(level)
    ensures oldest == Entry(t.used, oldest[9..])
  {
  }

  lemma OneTurnEvicts(t: Trees, t': Trees, level: Level, limit: nat, oldest: seq<Byte>)
    requires Agreed(t) && Evicting(t, t', level, limit)
    requires Held(t', level) > limit && IsOldest(t'.index, level, oldest)
    ensures |oldest| >= 9
    ensures Evicting(t, DropTxn(t', level, oldest[9..]), level, limit)
    ensures |DropTxn(t', level, oldest[9..]).entries| < |t'.entries|
  {
    hide Less, IndexKey, Weigh, Exact, UsedBefore, IsOldest, GoneInOrder, Agreed, LevelOf;
    TheOldestHasItsEntry(t', level, oldest);
    var key := oldest[9..];
    var next := DropTxn(t', level, key);
    assert next.entries == t'.entries - {key};
    DropKeepsAgreement(t', level, key);
    forall of | Exact(t, of) ensures Exact(next, of) {
      DropKeepsExactness(t', level, key, of);
    }
    OneTurnGoesInOrder(t, t', level, limit, key);
    assert LastGone(t, next, level, limit, key);
  }

  lemma OneTurnGoesInOrder(t: Trees, t': Trees, level: Level, limit: nat, key: Key)
    requires Agreed(t) && Agreed(t') && GoneInOrder(t, t', level)
    requires key in t'.used && LevelOf(key) == Some(level)
    requires IsOldest(t'.index, level, Entry(t'.used, key))
    ensures GoneInOrder(t, DropTxn(t', level, key), level)
    ensures key in t.entries && t.entries[key] == t'.entries[key]
    ensures forall d :: d in t.entries && d !in t'.entries ==> UsedBefore(t.used, d, key)
  {
    hide Less, IndexKey, Weigh, UsedBefore, IsOldest, LevelOf;
    OthersCameLater(t, t', level, key);
  }

  /** Everything gone so far was used before the oldest still there, and that before the rest. */
  lemma OthersCameLater(t: Trees, t': Trees, level: Level, key: Key)
    requires Agreed(t) && Agreed(t') && GoneInOrder(t, t', level)
    requires key in t'.used && LevelOf(key) == Some(level)
    requires IsOldest(t'.index, level, Entry(t'.used, key))
    ensures forall k :: k in t'.entries && k != key && LevelOf(k) == Some(level) ==> UsedBefore(t.used, key, k)
    ensures forall d :: d in t.entries && d !in t'.entries ==> UsedBefore(t.used, d, key)
  {
    hide Less, LevelOf;
    forall k | k in t'.entries && k != key && LevelOf(k) == Some(level) ensures UsedBefore(t.used, key, k) {
      assert Entry(t'.used, k) in t'.index;
      assert Entry(t'.used, k) == Entry(t.used, k) && Entry(t'.used, key) == Entry(t.used, key);
    }
  }

  lemma NoTurnYet(t: Trees, level: Level, limit: nat)
    requires Agreed(t)
    ensures Evicting(t, t, level, limit)
  {
  }

  /**
   An eviction leaves an exactly recorded level inside its limit, and takes from it a run of the
   least recently used entries, no longer than it had to be.
   */
  lemma EvictionIsLeastRecentlyUsed(t: Trees, t': Trees, level: Level, limit: nat, d: Key, k: Key)
    requires Agreed(t) && Exact(t, level) && Evicted(t, t', level, limit)
    ensures Held(t', level) <= limit
    ensures d in t.entries && d !in t'.entries && k in t'.entries && LevelOf(k) == Some(level) ==>
              d in t.used && k in t.used && FromBigEndian(t.used[d]) <= FromBigEndian(t.used[k])
    ensures d in t.entries && d !in t'.entries ==> Held(t, level) > limit
  {
    hide Less, LevelOf, IndexKey, Weigh, Agreed;
    if forall j :: j in t'.entries ==> LevelOf(j) != Some(level) {
      NothingWeighsNothing(t'.entries, level);
    }
    if d in t.entries && d !in t'.entries {
      if k in t'.entries && LevelOf(k) == Some(level) {
        assert UsedBefore(t.used, d, k);
        IndexSortsByUse(level, t.used[d], d, t.used[k], k);
      }
      var last :| LastGone(t, t', level, limit, last);
      WeightShrinks(t.entries, t'.entries, level, last);
    }
  }

  lemma NothingWeighsNothing(entries: map<Key, seq<Byte>>, level: Level)
    requires forall k :: k in entries ==> LevelOf(k) != Some(level)
    ensures Weight(entries, level) == 0
  {
  }

  /** Entries that lost a key weigh less by at least that key. */
  lemma WeightShrinks(entries: map<Key, seq<Byte>>, fewer: map<Key, seq<Byte>>, level: Level, lost: Key)
    requires forall k :: k in fewer ==> k in entries && fewer[k] == entries[k]
    requires lost in entries && lost !in fewer && LevelOf(lost) == Some(level)
    ensures Weight(fewer, level) + Weigh(lost, entries[lost]) <= Weight(entries, level)
  {
    WeightWithout(entries, level, lost);
    WeightIsMonotone(entries - {lost}, fewer, level);
  }

  lemma {:induction false} WeightIsMonotone(entries: map<Key, seq<Byte>>, fewer: map<Key, seq<Byte>>, level: Level)
    requires forall k :: k in fewer ==> k in entries && fewer[k] == entries[k]
    ensures Weight(fewer, level) <= Weight(entries, level)
    decreases |entries|
  {
    if k :| k in entries && k !in fewer {
      WeightWithout(entries, level, k);
      WeightIsMonotone(entries - {k}, fewer, level);
    } else {
      assert fewer == entries;
    }
  }

  /** The entry used last is the last to go: it survives unless it alone exceeds the limit. */
  lemma TheNewestSurvives(t: Trees, t': Trees, level: Level, limit: nat, key: Key)
    requires Agreed(t) && Evicted(t, t', level, limit)
    requires key in t.entries && LevelOf(key) == Some(level) && Weigh(key, t.entries[key]) <= limit
    requires Exact(t, level)
    requires forall k :: k in t.entries && k != key && LevelOf(k) == Some(level) ==>
               FromBigEndian(t.used[k]) < FromBigEndian(t.used[key])
    ensures key in t'.entries
  {
    hide Less, LevelOf, IndexKey, Weigh, Agreed;
    if key !in t'.entries {
      var last :| LastGone(t, t', level, limit, last);
      if last != key {
        assert UsedBefore(t.used, key, last);
        IndexSortsByUse(level, t.used[key], key, t.used[last], last);
      }
      forall k | k in t'.entries ensures LevelOf(k) != Some(level) {
        if LevelOf(k) == Some(level) {
          assert UsedBefore(t.used, key, k);
          IndexSortsByUse(level, t.used[key], key, t.used[k], k);
        }
      }
      NothingWeighsNothing(t'.entries, level);
      assert false;
    }
  }

  lemma WhatEvictionLeaves(t: Trees, t': Trees, level: Level, limit: nat)
    requires Evicted(t, t', level, limit)
    ensures forall k :: k in t'.entries ==> k in t.entries && t'.entries[k] == t.entries[k]
    ensures forall k :: k in t.entries && LevelOf(k) != Some(level) ==> k in t'.entries
    ensures forall of :: Exact(t, of) ==> Exact(t', of)
  {
  }

  /** A write into a level inside its limit leaves it there, the written entry in it if it fits at all. */
  lemma WhatAWriteLeaves(t: Trees, t': Trees, level: Level, key: Key, entry: seq<Byte>, micros: nat, limit: nat)
    requires Agreed(t) && LevelOf(key) == Some(level) && micros <= U64_MAX
    requires Exact(t, level) && Weight(t.entries[key := entry], level) <= U64_MAX
    requires Evicted(WriteTxn(t, level, key, entry, StampAt(micros)), t', level, limit)
    ensures Held(t', level) <= limit
    ensures Weigh(key, entry) <= limit && NewestAt(t.used, micros) ==> key in t'.entries
  {
    hide LevelOf, Indexed, IndexKey, BigEndian, FromBigEndian, Weight, Weigh, Evicted;
    var written := WriteTxn(t, level, key, entry, StampAt(micros));
    WriteRestoresAgreement(t, level, key, entry, StampAt(micros));
    WriteKeepsExactness(t, level, key, entry, StampAt(micros), level);
    EvictionIsLeastRecentlyUsed(written, t', level, limit, key, key);
    if Weigh(key, entry) <= limit && NewestAt(t.used, micros) {
      SpanOfEight();
      BigEndianReadsBack(micros, 8);
      TheNewestSurvives(written, t', level, limit, key);
    }
  }

  function LimitOf(limits: map<Level, nat>, level: Level): Option<nat> {
    if level in limits then Some(limits[level]) else None
  }

  /** Whether a use stamped now would come after every use on record. */
  ghost predicate NewestAt(used: map<Key, Stamp>, micros: nat) {
    forall k :: k in used ==> FromBigEndian(used[k]) < micros
  }

  /**
   What a put leaves: its entry if any is left under the key, every other entry as it was, every
   other level whole and, while a level's bytes can be counted in 64 bits, exact sizes, a level
   inside its limit, and the entry itself whenever it fits and is stamped after every other.
   */
  ghost predicate PutLeaves(t: Trees, t': Trees, level: Level, key: Key, entry: seq<Byte>, micros: nat,
                            limit: Option<nat>)
  {
    && (key in t'.entries ==> t'.entries[key] == entry)
    && (forall k :: k in t'.entries && k != key ==> k in t.entries && t'.entries[k] == t.entries[k])
    && (forall k :: k in t.entries && (limit.None? || LevelOf(k) != Some(level)) ==> k in t'.entries)
    && (Weight(t.entries[key := entry], level) <= U64_MAX ==>
          && (forall of :: Exact(t, of) ==> Exact(t', of))
          && (Exact(t, level) && limit.Some? ==> Held(t', level) <= limit.value)
          && (Exact(t, level) && (limit.Some? ==> Weigh(key, entry) <= limit.value) && NewestAt(t.used, micros) ==>
                key in t'.entries))
  }

  /** A read's use recorded, where anything is ever evicted and the use recorded last is no longer fresh. */
  ghost predicate Refreshed(t: Trees, t': Trees, level: Level, key: Key, micros: nat, limited: bool)
    requires micros <= U64_MAX
  {
    t' == if limited && (key in t.used ==> FromBigEndian(t.used[key]) + REFRESH_AFTER_MICROS <= micros)
          then TouchTxn(t, level, key, StampAt(micros)) else t
  }

  /** A write carried out, and the eviction that follows it where the level has a limit. */
  ghost predicate Carried(t: Trees, t': Trees, level: Level, key: Key, entry: seq<Byte>, micros: nat,
                          limit: Option<nat>)
    requires micros <= U64_MAX
  {
    var written := WriteTxn(t, level, key, entry, StampAt(micros));
    && Agreed(written)
    && (limit.None? ==> t' == written)
    && (limit.Some? ==> Evicted(written, t', level, limit.value))
  }

  lemma WhatAPutLeaves(t: Trees, t': Trees, level: Level, key: Key, entry: seq<Byte>, micros: nat, limit: Option<nat>)
    requires Agreed(t) && LevelOf(key) == Some(level) && micros <= U64_MAX
    requires Carried(t, t', level, key, entry, micros, limit)
    ensures PutLeaves(t, t', level, key, entry, micros, limit)
  {
    hide LevelOf, Agreed, IndexKey, StampAt, FromBigEndian, Weight, Weigh, Evicted, Exact, Held;
    var written := WriteTxn(t, level, key, entry, StampAt(micros));
    if limit.Some? {
      WhatEvictionLeaves(written, t', level, limit.value);
    }
    if Weight(t.entries[key := entry], level) <= U64_MAX {
      forall of | Exact(t, of) ensures Exact(written, of) {
        WriteKeepsExactness(t, level, key, entry, StampAt(micros), of);
      }
      if limit.Some? && Exact(t, level) {
        WhatAWriteLeaves(t, t', level, key, entry, micros, limit.value);
      }
    }
  }

  // ----- a use recorded for an entry that is gone -----

  ghost function Oldest(index: set<seq<Byte>>, level: Level): (x: seq<Byte>)
    requires OfLevel(index, level)
    ensures IsOldest(index, level, x)
  {
    AnOldestExists(index, level);
    var x :| IsOldest(index, level, x);
    x
  }

  /** Where the eviction loop stops: the level is inside its limit, or the scan meets nothing of it. */
  ghost predicate Stopped(t: Trees, level: Level, limit: nat) {
    Held(t, level) <= limit || !OfLevel(t.index, level)
  }

  /** The trees after up to `n` turns of the eviction loop, whatever state it starts from. */
  ghost function Turned(t: Trees, level: Level, limit: nat, n: nat): Trees
    decreases n
  {
    if n == 0 || Stopped(t, level, limit) then t
    else Turned(DropTxn(t, level, Oldest(t.index, level)[9..]), level, limit, n - 1)
  }

  ghost predicate EvictionEnds(t: Trees, level: Level, limit: nat) {
    exists n: nat :: Stopped(Turned(t, level, limit, n), level, limit)
  }

  /** A key of the level whose use is recorded and whose entry is gone. */
  ghost predicate Orphan(t: Trees, level: Level, key: Key) {
    key in t.used && LevelOf(key) == Some(level) && key !in t.entries
  }

  /** The entries used before a key. */
  ghost function Earlier(t: Trees, key: Key): map<Key, seq<Byte>> {
    map k | k in t.entries && UsedBefore(t.used, k, key) :: t.entries[k]
  }

  /** Whether what was used before every orphan is enough to bring the level inside its limit. */
  ghost predicate OrphansComeLate(t: Trees, level: Level, limit: nat) {
    forall o :: Orphan(t, level, o) ==> Held(t, level) <= limit + Weight(Earlier(t, o), level)
  }

  lemma AnIndexKeyIsOfItsLevel(t: Trees, level: Level, x: seq<Byte>)
    requires Indexed(t.used, t.index) && x in t.index && |x| >= 9 && x[0] == Tag(level)
    ensures x[9..] in t.used && LevelOf(x[9..]) == Some(level) && x == Entry(t.used, x[9..])
  {
    hide LevelOf;
    assert Tag(LevelOf(x[9..]).value) == Tag(level);
  }

  lemma TheOldestIsFirst(t: Trees, level: Level, key: Key, k: Key)
    requires Indexed(t.used, t.index) && key in t.used && LevelOf(key) == Some(level)
    requires IsOldest(t.index, level, Entry(t.used, key))
    requires k in t.used && LevelOf(k) == Some(level)
    ensures k != key ==> UsedBefore(t.used, key, k)
    ensures !UsedBefore(t.used, k, key)
  {
    hide LevelOf, Less;
    var x, y := Entry(t.used, key), Entry(t.used, k);
    assert y in t.index && y[0] == Tag(level);
    if k == key {
      LessIsIrreflexive(x);
    } else {
      assert y[9..] != x[9..];
      LessIsAsymmetric(x, y);
    }
  }

  /** A turn that meets an orphan first changes nothing, and neither does any turn after it. */
  lemma {:induction false} AnOldestOrphanStalls(t: Trees, level: Level, limit: nat, n: nat)
    requires !Stopped(t, level, limit) && Oldest(t.index, level)[9..] !in t.entries
    ensures Turned(t, level, limit, n) == t
  {
    if n > 0 {
      AnOldestOrphanStalls(t, level, limit, n - 1);
    }
  }

  lemma NothingBeforeTheOldest(t: Trees, level: Level, key: Key)
    requires Indexed(t.used, t.index) && key in t.used && LevelOf(key) == Some(level)
    requires IsOldest(t.index, level, Entry(t.used, key))
    ensures Weight(Earlier(t, key), level) == 0
  {
    forall k | k in Earlier(t, key) ensures LevelOf(k) != Some(level) {
      if LevelOf(k) == Some(level) {
        TheOldestIsFirst(t, level, key, k);
      }
    }
    NothingWeighsNothing(Earlier(t, key), level);
  }

  /** Dropping the oldest entry takes exactly its weight from what was used before any orphan. */
  lemma DroppingTheOldestShortens(t: Trees, level: Level, key: Key, o: Key)
    requires Indexed(t.used, t.index) && key in t.entries && key in t.used && LevelOf(key) == Some(level)
    requires IsOldest(t.index, level, Entry(t.used, key)) && Orphan(t, level, o)
    ensures Weight(Earlier(t, o), level) ==
            Weigh(key, t.entries[key]) + Weight(Earlier(DropTxn(t, level, key), o), level)
  {
    hide LevelOf, Less, IndexKey, Weigh, Indexed, IsOldest;
    TheOldestIsFirst(t, level, key, o);
    var t' := DropTxn(t, level, key);
    assert Earlier(t', o) == Earlier(t, o) - {key} by {
      assert forall k :: k in t'.used ==> t'.used[k] == t.used[k];
      assert forall k :: k in t'.used && LevelOf(k).Some? ==> Entry(t'.used, k) == Entry(t.used, k);
    }
    WeightWithout(Earlier(t, o), level, key);
  }

  lemma ATurnKeepsTheCondition(t: Trees, level: Level, limit: nat, key: Key)
    requires Indexed(t.used, t.index) && key in t.entries && key in t.used && LevelOf(key) == Some(level)
    requires IsOldest(t.index, level, Entry(t.used, key))
    ensures OrphansComeLate(t, level, limit) <==> OrphansComeLate(DropTxn(t, level, key), level, limit)
  {
    hide LevelOf, Less, IndexKey, Weigh, Indexed, IsOldest, Earlier;
    var t' := DropTxn(t, level, key);
    forall o ensures Orphan(t', level, o) <==> Orphan(t, level, o) {
    }
    forall o | Orphan(t, level, o)
      ensures Held(t, level) <= limit + Weight(Earlier(t, o), level) <==>
              Held(t', level) <= limit + Weight(Earlier(t', o), level)
    {
      DroppingTheOldestShortens(t, level, key, o);
    }
  }

  lemma ATurnFurther(t: Trees, level: Level, limit: nat)
    requires !Stopped(t, level, limit)
    ensures EvictionEnds(t, level, limit) <==>
            EvictionEnds(DropTxn(t, level, Oldest(t.index, level)[9..]), level, limit)
  {
    hide DropTxn;
    var t' := DropTxn(t, level, Oldest(t.index, level)[9..]);
    if EvictionEnds(t, level, limit) {
      var n: nat :| Stopped(Turned(t, level, limit, n), level, limit);
      assert Stopped(Turned(t', level, limit, n - 1), level, limit);
    }
    if EvictionEnds(t', level, limit) {
      var n: nat :| Stopped(Turned(t', level, limit, n), level, limit);
      assert Turned(t, level, limit, n + 1) == Turned(t', level, limit, n);
    }
  }

  /**
   When eviction ends. From any trees whose index is in step with the uses, which is what every
   interleaving leaves, the loop stops exactly when dropping what was used before each orphan is
   enough; otherwise it meets an orphan first, and goes on meeting it.
   */
  lemma {:induction false} EvictionEndsExactly(t: Trees, level: Level, limit: nat)
    requires Indexed(t.used, t.index)
    ensures EvictionEnds(t, level, limit) <==> OrphansComeLate(t, level, limit)
    decreases |t.entries|
  {
    if Stopped(t, level, limit) {
      assert Stopped(Turned(t, level, limit, 0), level, limit);
      forall o | Orphan(t, level, o) ensures Held(t, level) <= limit + Weight(Earlier(t, o), level) {
        assert Entry(t.used, o) in t.index;
      }
    } else {
      hide LevelOf, Less, IndexKey, Weigh, Weight, Indexed;
      var x := Oldest(t.index, level);
      var key := x[9..];
      AnIndexKeyIsOfItsLevel(t, level, x);
      if key !in t.entries {
        forall n: nat ensures Turned(t, level, limit, n) == t {
          AnOldestOrphanStalls(t, level, limit, n);
        }
        NothingBeforeTheOldest(t, level, key);
        assert Orphan(t, level, key);
      } else {
        var t' := DropTxn(t, level, key);
        ATurnFurther(t, level, limit);
        ATurnKeepsTheCondition(t, level, limit, key);
        ForgettingKeepsIndex(t.used, t.index, key);
        EvictionEndsExactly(t', level, limit);
      }
    }
  }

  /**
   A read that records its use after another caller removed the entry leaves an orphan. From any
   trees, eviction then never ends wherever what was used before that read is too little to bring
   the level inside its limit.
   */
  lemma ALateTouchStallsEviction(t: Trees, level: Level, read: Key, stamp: Stamp, limit: nat, n: nat)
    requires Indexed(t.used, t.index) && LevelOf(read) == Some(level) && read !in t.entries
    requires
      var touched := TouchTxn(t, level, read, stamp);
      Held(t, level) > limit + Weight(Earlier(touched, read), level)
    ensures !Stopped(Turned(TouchTxn(t, level, read, stamp), level, limit, n), level, limit)
  {
    hide LevelOf, Less, IndexKey, Weigh, Weight, Earlier;
    var touched := TouchTxn(t, level, read, stamp);
    TouchKeepsIndex(t, level, read, stamp);
    assert Orphan(touched, level, read);
    EvictionEndsExactly(touched, level, limit);
  }

  /** A put, a removal, the late record of a read of it, and another put. */
  ghost function LateTouch(level: Level, read: Key, held: seq<Byte>, full: Key, entry: seq<Byte>,
                           early: Stamp, late: Stamp): Trees
    requires LevelOf(read) == LevelOf(full) == Some(level)
  {
    var steps := [Write(read, held, early), Drop(read), Touch(read, early), Write(full, entry, late)];
    RunAll(Trees(map[], map[], {}, map[]), steps)
  }

  lemma WhatALateTouchLeaves(level: Level, read: Key, held: seq<Byte>, full: Key, entry: seq<Byte>,
                             early: Stamp, late: Stamp)
    requires LevelOf(read) == LevelOf(full) == Some(level) && read != full
    ensures
      var t := LateTouch(level, read, held, full, entry, early, late);
      && t.entries == map[full := entry] && t.used == map[read := early, full := late]
      && t.index == {IndexKey(level, early, read), IndexKey(level, late, full)}
      && Held(t, level) == Weigh(full, entry)
  {
    hide LevelOf, IndexKey;
    var empty := Trees(map[], map[], {}, map[]);
    var xs := [Write(read, held, early), Drop(read), Touch(read, early), Write(full, entry, late)];
    var t1 := WriteTxn(empty, level, read, held, early);
    var t2 := DropTxn(t1, level, read);
    assert t2.entries == map[] && t2.used == map[] && t2.index == {};
    var t3 := TouchTxn(t2, level, read, early);
    var t4 := WriteTxn(t3, level, full, entry, late);
    assert RunAll(empty, xs) == t4 by {
      assert RunAll(t4, []) == t4;
      assert xs[3..] == [xs[3]] && xs[2..][1..] == xs[3..] && xs[1..][1..] == xs[2..];
      assert RunAll(t3, xs[3..]) == t4;
      assert RunAll(t2, xs[2..]) == t4;
      assert RunAll(t1, xs[1..]) == t4;
    }
  }

  /** And this is reachable: those four steps, the last put too large for the level, leave it. */
  lemma AStallIsReachable(level: Level, read: Key, held: seq<Byte>, full: Key, entry: seq<Byte>,
                          early: Stamp, late: Stamp, limit: nat)
    requires LevelOf(read) == LevelOf(full) == Some(level) && read != full
    requires FromBigEndian(early) < FromBigEndian(late) && Weigh(full, entry) > limit
    ensures !EvictionEnds(LateTouch(level, read, held, full, entry, early, late), level, limit)
  {
    hide LevelOf, Less, IndexKey, Weigh, Weight, FromBigEndian, LateTouch;
    var t := LateTouch(level, read, held, full, entry, early, late);
    WhatALateTouchLeaves(level, read, held, full, entry, early, late);
    IndexSortsByUse(level, early, read, late, full);
    assert IsOldest(t.index, level, Entry(t.used, read));
    NothingBeforeTheOldest(t, level, read);
    assert Orphan(t, level, read);
    EvictionEndsExactly(t, level, limit);
  }

  // ----- counts -----

  /** What a caller makes of a count: adding to it, or starting it where there is none. */
  datatype Tally = Add(amount: nat) | Seed(amount: nat)

  function Tallied(tally: Tally, counted: Option<nat>): (total: nat)
    requires tally.amount <= U64_MAX
    requires counted.Some? ==> counted.value <= U64_MAX
    ensures total <= U64_MAX
  {
    match tally
    case Add(more) => Saturated((if counted.Some? then counted.value else 0) + more)
    case Seed(start) => if counted.Some? then counted.value else start
  }

  /** What a live count stands at after additions one after another. */
  function AddedUp(counted: Option<nat>, amounts: seq<nat>): (total: Option<nat>)
    requires (counted.Some? ==> counted.value <= U64_MAX) && forall i :: 0 <= i < |amounts| ==> amounts[i] <= U64_MAX
    ensures total.Some? ==> total.value <= U64_MAX
    decreases |amounts|
  {
    if amounts == [] then counted else AddedUp(Some(Tallied(Add(amounts[0]), counted)), amounts[1..])
  }

  /** They stand at the sum of all that was added, saturating at 64 bits. */
  lemma {:induction false} AdditionsAddUp(counted: Option<nat>, amounts: seq<nat>)
    requires (counted.Some? ==> counted.value <= U64_MAX) && forall i :: 0 <= i < |amounts| ==> amounts[i] <= U64_MAX
    requires amounts != []
    ensures AddedUp(counted, amounts) ==
            Some(Min((if counted.Some? then counted.value else 0) + SumOf(amounts, n => n), U64_MAX))
    decreases |amounts|
  {
    var next := Tallied(Add(amounts[0]), counted);
    if |amounts| > 1 {
      AdditionsAddUp(Some(next), amounts[1..]);
    }
  }

  /** A count as an entry: the number in eight bytes, stamped with when it runs out. */
  function CountEntry(total: nat, ttl: nat, now: nat): seq<Byte>
    requires total <= U64_MAX
  {
    SpanOfEight();
    Stamped(BigEndian(total, 8), Some(ttl), now)
  }

  /** The count held under a key, nothing once it has expired, and a refusal of bytes that are not one. */
  function CountHeld(entries: map<Key, seq<Byte>>, key: Key, now: nat): (r: Result<Option<nat>, string>)
    ensures r.Ok? && r.value.Some? ==> r.value.value <= U64_MAX
  {
    var value := if key in entries then ValueOf(entries[key], now) else None;
    if value.None? then Ok(None)
    else if |value.value| != 8 then Err("not a count")
    else
      SpanOfEight();
      Ok(Some(FromBigEndian(value.value)))
  }

  // ----- the cache -----

  class Cache {
    const limits: map<Level, nat>
    var entries: map<Key, seq<Byte>>
    var used: map<Key, Stamp>
    var index: set<seq<Byte>>
    var sizes: map<Level, nat>

    constructor (limits: map<Level, nat>)
      ensures Valid() && forall level :: Exact(View(), level)
      ensures entries == map[] && this.limits == limits
    {
      this.limits := limits;
      entries, used, index, sizes := map[], map[], {}, map[];
      new;
      forall level ensures Exact(View(), level) {
        assert Costs(entries, level) == map[];
      }
    }

    ghost function View(): Trees
      reads this
    {
      Trees(entries, used, index, sizes)
    }

    ghost predicate Valid()
      reads this
    {
      Agreed(View())
    }

    /** Carries out the drop of a key on all four trees, and answers whether a live entry went. */
    method DropEntry(level: Level, key: Key, now: nat) returns (was: bool)
      modifies this
      ensures View() == DropTxn(old(View()), level, key)
      ensures was <==> key in old(entries) && ValueOf(old(entries)[key], now).Some?
    {
      if key !in entries {
        return false;
      }
      var entry := entries[key];
      entries := entries - {key};
      if key in used {
        index := index - {IndexKey(level, used[key], key)};
        used := used - {key};
      }
      assert used == old(used) - {key};
      var held := if level in sizes then sizes[level] else 0;
      sizes := sizes[level := Max(0, held - Weigh(key, entry))];
      was := ValueOf(entry, now).Some?;
    }

    /** The eviction loop, which over agreeing trees ends with the level evicted. */
    method Evict(level: Level, now: nat)
      requires Valid()
      modifies this
      ensures Valid()
      ensures level !in limits ==> View() == old(View())
      ensures level in limits ==> Evicted(old(View()), View(), level, limits[level])
    {
      hide Evicting, IsOldest, LevelOf, IndexKey, DropTxn, Agreed;
      if level !in limits {
        return;
      }
      var limit := limits[level];
      NoTurnYet(View(), level, limit);
      while (if level in sizes then sizes[level] else 0) > limit
        invariant Valid() && Evicting(old(View()), View(), level, limit)
        decreases |entries|
      {
        if !OfLevel(index, level) {
          NothingLeft(View(), level);
          return;
        }
        OldestInAgreement(View(), level);
        var oldest :| oldest in index && IsOldest(index, level, oldest);
        OneTurnEvicts(old(View()), View(), level, limit, oldest);
        EvictingAgrees(old(View()), DropTxn(View(), level, oldest[9..]), level, limit);
        var _ := DropEntry(level, oldest[9..], now);
      }
    }

    /** One write transaction followed by the eviction loop. */
    method Write(level: Level, key: Key, entry: seq<Byte>, micros: nat, now: nat)
      requires Indexed(used, index) && entries.Keys - {key} == used.Keys - {key}
      requires LevelOf(key) == Some(level) && micros <= U64_MAX
      modifies this
      ensures Valid()
      ensures Carried(old(View()), View(), level, key, entry, micros, LimitOf(limits, level))
    {
      hide Evicted, LevelOf, Agreed, WriteTxn;
      WriteRestoresAgreement(View(), level, key, entry, StampAt(micros));
      Record(level, key, entry, StampAt(micros));
      Evict(level, now);
    }

    /** The transaction of a write: the entry, its use and its place in the index, and what its level then holds. */
    method Record(level: Level, key: Key, entry: seq<Byte>, stamped: Stamp)
      modifies this
      ensures View() == WriteTxn(old(View()), level, key, entry, stamped)
    {
      hide IndexKey, Weigh, Saturated;
      var held := if level in sizes then sizes[level] else 0;
      if key in entries {
        held := Max(0, held - Weigh(key, entries[key]));
      }
      entries := entries[key := entry];
      if key in used {
        index := index - {IndexKey(level, used[key], key)};
      }
      used := used[key := stamped];
      index := index + {IndexKey(level, stamped, key)};
      held := Saturated(held + Weigh(key, entry));
      sizes := sizes[level := held];
    }

    /** Stamps a key anew where something is ever evicted and its stamp is a second old or missing. */
    method RecordUse(level: Level, key: Key, micros: nat)
      requires Indexed(used, index) && LevelOf(key) == Some(level) && micros <= U64_MAX
      modifies this
      ensures Indexed(used, index)
      ensures old(Valid()) && key in entries ==> Valid()
      ensures entries == old(entries) && sizes == old(sizes)
      ensures Refreshed(old(View()), View(), level, key, micros, limits != map[])
    {
      hide LevelOf, Indexed, IndexKey, FromBigEndian, BigEndian;
      if limits == map[] {
        return;
      }
      if key in used && micros - FromBigEndian(used[key]) < REFRESH_AFTER_MICROS {
        return;
      }
      TouchKeepsIndex(View(), level, key, StampAt(micros));
      var stamped := StampAt(micros);
      if key in used {
        index := index - {IndexKey(level, used[key], key)};
      }
      used := used[key := stamped];
      index := index + {IndexKey(level, stamped, key)};
    }

    /** What is cached under a key, dropping it once its ttl has passed. */
    method Get(level: Level, key: Key, now: nat, micros: nat) returns (value: Option<seq<Byte>>)
      requires Valid() && LevelOf(key) == Some(level) && micros <= U64_MAX
      modifies this
      ensures Valid()
      ensures value == if key in old(entries) then ValueOf(old(entries)[key], now) else None
      ensures value.Some? ==> Refreshed(old(View()), View(), level, key, micros, limits != map[])
      ensures value.None? ==> entries == old(entries) - {key}
      ensures forall of :: old(Exact(View(), of)) ==> Exact(View(), of)
    {
      hide LevelOf, Indexed, IndexKey, FromBigEndian, Weight, Weigh;
      if key !in entries {
        return None;
      }
      value := ValueOf(entries[key], now);
      if value.Some? {
        RecordUse(level, key, micros);
      } else {
        forall of | Exact(View(), of) ensures Exact(DropTxn(View(), level, key), of) {
          DropKeepsExactness(View(), level, key, of);
        }
        DropKeepsAgreement(View(), level, key);
        var _ := DropEntry(level, key, now);
      }
    }

    /** Caches a value. Under a rising clock it is there afterwards, unless it alone is too much. */
    method Put(level: Level, key: Key, value: seq<Byte>, ttl: Option<nat>, now: nat, micros: nat)
      requires Valid() && LevelOf(key) == Some(level) && micros <= U64_MAX
      modifies this
      ensures Valid()
      ensures PutLeaves(old(View()), View(), level, key, Stamped(value, ttl, now), micros, LimitOf(limits, level))
    {
      hide LevelOf, Indexed, IndexKey, StampAt, PutLeaves, Carried, Stamped;
      var entry := Stamped(value, ttl, now);
      ghost var before := View();
      Write(level, key, entry, micros, now);
      WhatAPutLeaves(before, View(), level, key, entry, micros, LimitOf(limits, level));
    }

    /** A swap and then a write of the same entry, where the key holds nothing live; nothing otherwise. */
    method Claim(level: Level, key: Key, ttl: Option<nat>, now: nat, micros: nat) returns (taken: bool)
      requires Valid() && LevelOf(key) == Some(level) && micros <= U64_MAX
      modifies this
      ensures Valid()
      ensures taken <==> !(key in old(entries) && ValueOf(old(entries)[key], now).Some?)
      ensures !taken ==> View() == old(View())
      ensures taken ==>
                var entry := Stamped([], ttl, now);
                Carried(SwapTxn(old(View()), key, entry), View(), level, key, entry, micros, LimitOf(limits, level))
    {
      hide LevelOf, Indexed, IndexKey, Carried, Stamped, Weigh, Weight;
      if key in entries && ValueOf(entries[key], now).Some? {
        return false;
      }
      var entry := Stamped([], ttl, now);
      entries := entries[key := entry];
      assert entries.Keys - {key} == old(entries).Keys - {key};
      Write(level, key, entry, micros, now);
      taken := true;
    }

    /** Moves a count on, or starts it, reporting what it then stands at. */
    method Counting(level: Level, key: Key, ttl: nat, tally: Tally, now: nat, micros: nat)
      returns (total: Result<nat, string>)
      requires Valid() && LevelOf(key) == Some(level) && micros <= U64_MAX
      requires tally.amount <= U64_MAX
      modifies this
      ensures Valid()
      ensures total == match CountHeld(old(entries), key, now)
                       case Ok(counted) => Ok(Tallied(tally, counted))
                       case Err(e) => Err(e)
      ensures total.Ok? ==>
                var live := CountHeld(old(entries), key, now).value;
                total.value == match tally
                               case Add(more) => if live.Some? then Min(live.value + more, U64_MAX) else more
                               case Seed(start) => if live.Some? then live.value else start
      ensures total.Err? ==> View() == old(View())
      ensures total.Ok? ==>
                var entry := CountEntry(total.value, ttl, now);
                Carried(SwapTxn(old(View()), key, entry), View(), level, key, entry, micros, LimitOf(limits, level))
      ensures total.Ok? && level !in limits ==> key in entries
      ensures total.Ok? && key in entries && now + ttl < U64_MAX ==>
                forall later :: now <= later < now + ttl ==> CountHeld(entries, key, later) == Ok(Some(total.value))
    {
      hide LevelOf, Indexed, IndexKey, LastGone, UsedBefore, Weigh, Weight, BigEndian, FromBigEndian;
      var counted := CountHeld(entries, key, now);
      if counted.Err? {
        return Err(counted.error);
      }
      var next := Tallied(tally, counted.value);
      SpanOfEight();
      var entry := CountEntry(next, ttl, now);
      entries := entries[key := entry];
      assert entries.Keys - {key} == old(entries).Keys - {key};
      Write(level, key, entry, micros, now);
      forall later | now <= later < now + ttl && key in entries && now + ttl < U64_MAX
        ensures CountHeld(entries, key, later) == Ok(Some(next))
      {
        StampedReadsBack(BigEndian(next, 8), Some(ttl), now, later);
        BigEndianReadsBack(next, 8);
      }
      total := Ok(next);
    }

    /** Removes what is cached under a key, reporting whether it was there. */
    method Remove(level: Level, key: Key, now: nat) returns (was: bool)
      requires Valid() && LevelOf(key) == Some(level)
      modifies this
      ensures Valid()
      ensures was <==> key in old(entries) && ValueOf(old(entries)[key], now).Some?
      ensures entries == old(entries) - {key}
      ensures forall of :: old(Exact(View(), of)) ==> Exact(View(), of)
    {
      forall of | Exact(View(), of) ensures Exact(DropTxn(View(), level, key), of) {
        DropKeepsExactness(View(), level, key, of);
      }
      DropKeepsAgreement(View(), level, key);
      was := DropEntry(level, key, now);
    }
  }

  lemma EvictingAgrees(t: Trees, t': Trees, level: Level, limit: nat)
    requires Evicting(t, t', level, limit)
    ensures Agreed(t')
  {
  }

  lemma NothingLeft(t: Trees, level: Level)
    requires Agreed(t)
    requires !OfLevel(t.index, level)
    ensures forall k :: k in t.entries ==> LevelOf(k) != Some(level)
  {
  }

  lemma OldestInAgreement(t: Trees, level: Level)
    requires Agreed(t)
    requires OfLevel(t.index, level)
    ensures exists x :: x in t.index && IsOldest(t.index, level, x)
  {
    AnOldestExists(t.index, level);
    var oldest :| IsOldest(t.index, level, oldest);
    assert oldest in t.index;
  }
}
