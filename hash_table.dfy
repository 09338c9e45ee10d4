/*
 * Open-addressing hash table with quadratic probing (ds/HashTable.hpp).
 *
 * Buckets live inline in one array.  A bucket counts as empty (a
 * "tombstone") when its hash code equals TombstoneValue; a fresh bucket is
 * given that hash code.  Lookups and insertions probe the slots
 * (h + q*q) mod 2^64 mod n for q = 0, 1, 2, ...; the probe counter is a
 * 64-bit integer, so the probe sequence repeats with period 2^64, and a
 * search that meets no stopping bucket within one period never ends.  The
 * model searches exactly one period and reports such a search as Endless.
 * The hash function of the key type is a parameter of the table.
 */
module HashTables {

  import opened Wrappers
  import TUMaths

  const Word: nat := 0x1_0000_0000_0000_0000

  type U64 = x: nat | x < Word

  /** Hash code that marks an empty bucket. */
  const TombstoneValue: U64 := 0x12AB_34CD_12AB_34CD

  /** The prime table sizes the table grows through. */
  const BucketSizes: seq<nat> := [
    13, 17, 29, 43, 71,
    139, 353, 733,
    1583, 3343, 7177,
    15331, 40009, 86349,
    174569, 363977, 730003,
    1500341, 3000709, 6001427,
    12002869
  ]

  /** A bucket: Vacant is the default-constructed bucket, whose hash code is TombstoneValue. */
  datatype Bucket<K, V> = Vacant | Entry(hashCode: U64, key: K, value: V)

  /** The outcome of a lookup: Missing is the null pointer, Endless a search that never stops. */
  datatype Probed<V> = Found(value: V) | Missing | Endless

  /** A table as a value: bucket-size index, active element count and the buckets. */
  datatype Table<K, V> = Table(index: nat, count: nat, slots: seq<Bucket<K, V>>)

  predicate IsTombstone<K, V>(b: Bucket<K, V>)
  {
    b.Vacant? || b.hashCode == TombstoneValue
  }

  /** A bucket that a lookup of `key` with hash code `h` accepts. */
  predicate Matches<K(==), V>(b: Bucket<K, V>, h: U64, key: K)
  {
    !IsTombstone(b) && b.hashCode == h && b.key == key
  }

  lemma SizesAscend()
    ensures forall i :: 0 < i < |BucketSizes| ==> BucketSizes[i - 1] < BucketSizes[i]
    ensures forall i :: 0 <= i < |BucketSizes| ==> BucketSizes[0] <= BucketSizes[i] <= BucketSizes[|BucketSizes| - 1]
  {
  }

  predicate WellFormed<K, V>(t: Table<K, V>)
  {
    t.index < |BucketSizes| && |t.slots| == BucketSizes[t.index]
  }

  /** The slot of probe number q for hash code h in a table of n buckets. */
  function Probe(h: U64, q: nat, n: nat): (r: nat)
    requires n > 0
    ensures r < n
    ensures q == 0 ==> r == h % n
  {
    ((h + q * q) % Word) % n
  }

  /** A table of n empty buckets. */
  function Vacants<K, V>(n: nat): (r: seq<Bucket<K, V>>)
    ensures |r| == n
    ensures forall i :: 0 <= i < n ==> r[i] == Vacant
  {
    seq(n, _ => Vacant)
  }

  /** The number of the first probe from q onwards that meets an empty bucket, within one period. */
  function FirstVacant<K, V>(s: seq<Bucket<K, V>>, h: U64, q: nat): (r: Option<nat>)
    requires |s| > 0
    ensures r.Some? ==> q <= r.value < Word && IsTombstone(s[Probe(h, r.value, |s|)])
    decreases Word - q
  {
    if q >= Word then None
    else if IsTombstone(s[Probe(h, q, |s|)]) then Some(q)
    else FirstVacant(s, h, q + 1)
  }

  /** The slot an insertion with hash code h fills. */
  function Slot<K, V>(s: seq<Bucket<K, V>>, h: U64): (r: Option<nat>)
    requires |s| > 0
    ensures r.Some? ==> r.value < |s| && IsTombstone(s[r.value])
  {
    match FirstVacant(s, h, 0)
    case None => None
    case Some(q) => Some(Probe(h, q, |s|))
  }

  /** What a lookup of `key` with hash code h finds, probing from probe number q. */
  function Look<K(==), V>(s: seq<Bucket<K, V>>, h: U64, key: K, q: nat): Probed<V>
    requires |s| > 0
    decreases Word - q
  {
    if q >= Word then Endless
    else
      var b := s[Probe(h, q, |s|)];
      if IsTombstone(b) then Missing
      else if b.hashCode == h && b.key == key then Found(b.value)
      else Look(s, h, key, q + 1)
  }

  /** The stored entries: every bucket that is not a tombstone. */
  ghost function Entries<K, V>(s: seq<Bucket<K, V>>): (r: multiset<Bucket<K, V>>)
    ensures |r| <= |s|
    ensures forall b :: b in r ==> !IsTombstone(b)
  {
    if |s| == 0 then multiset{}
    else (if IsTombstone(s[0]) then multiset{} else multiset{s[0]}) + Entries(s[1..])
  }

  /** No stored entry has this key. */
  ghost predicate Absent<K, V>(s: seq<Bucket<K, V>>, key: K)
  {
    forall b :: b in Entries(s) ==> b.key != key
  }

  /** Re-homing of the occupied buckets src[i..] into acc, in slot order. */
  function RehomeFrom<K, V>(src: seq<Bucket<K, V>>, i: nat, acc: seq<Bucket<K, V>>): (r: Option<seq<Bucket<K, V>>>)
    requires i <= |src| && |acc| > 0
    ensures r.Some? ==> |r.value| == |acc|
    decreases |src| - i
  {
    if i == |src| then Some(acc)
    else if IsTombstone(src[i]) then RehomeFrom(src, i + 1, acc)
    else match Slot(acc, src[i].hashCode)
      case None => None
      case Some(k) => RehomeFrom(src, i + 1, acc[k := src[i]])
  }

  /** The table after growing to the next size; None where the source exits or never returns. */
  function Grown<K, V>(t: Table<K, V>): (r: Option<Table<K, V>>)
    requires WellFormed(t)
    ensures r.Some? ==> WellFormed(r.value) && r.value.index == t.index + 1 && r.value.count == t.count
  {
    if t.index + 1 >= |BucketSizes| then None
    else match RehomeFrom(t.slots, 0, Vacants(BucketSizes[t.index + 1]))
      case None => None
      case Some(s) => Some(Table(t.index + 1, t.count, s))
  }

  /** The count at which an insertion into n buckets grows the table first. */
  function Threshold(n: nat): nat
  {
    n / 2 + n / 4
  }

  /** The table after the bookkeeping that precedes an insertion. */
  function Prepared<K, V>(t: Table<K, V>): (r: Option<Table<K, V>>)
    requires WellFormed(t)
    ensures r.Some? ==> WellFormed(r.value) && r.value.count == t.count + 1
  {
    var counted := t.(count := t.count + 1);
    if counted.count >= Threshold(|t.slots|) then Grown(counted) else Some(counted)
  }

  /** The table after inserting key/value with hash code h. */
  function Inserted<K, V>(t: Table<K, V>, h: U64, key: K, value: V): (r: Option<Table<K, V>>)
    requires WellFormed(t)
    ensures r.Some? ==> WellFormed(r.value) && r.value.count == t.count + 1
  {
    match Prepared(t)
    case None => None
    case Some(p) =>
      match Slot(p.slots, h)
      case None => None
      case Some(k) => Some(p.(slots := p.slots[k := Entry(h, key, value)]))
  }

  // ---------------------------------------------------------------------
  // Probing

  /** The slot KeyFunc picks is the first empty bucket on the probe sequence. */
  lemma {:induction false} FirstVacantFirst<K, V>(s: seq<Bucket<K, V>>, h: U64, q0: nat)
    requires |s| > 0 && FirstVacant(s, h, q0).Some?
    ensures forall q :: q0 <= q < FirstVacant(s, h, q0).value ==> !IsTombstone(s[Probe(h, q, |s|)])
    decreases Word - q0
  {
    if !IsTombstone(s[Probe(h, q0, |s|)]) {
      FirstVacantFirst(s, h, q0 + 1);
    }
  }

  /** An empty bucket anywhere in the period is found, at that probe or earlier. */
  lemma {:induction false} FirstVacantReached<K, V>(s: seq<Bucket<K, V>>, h: U64, q0: nat, q: nat)
    requires |s| > 0 && q0 <= q < Word && IsTombstone(s[Probe(h, q, |s|)])
    ensures FirstVacant(s, h, q0).Some? && FirstVacant(s, h, q0).value <= q
    decreases q - q0
  {
    if !IsTombstone(s[Probe(h, q0, |s|)]) {
      FirstVacantReached(s, h, q0 + 1, q);
    }
  }

  /** A lookup that meets an empty bucket before any matching one returns null. */
  lemma {:induction false} LookMissing<K, V>(s: seq<Bucket<K, V>>, h: U64, key: K, q0: nat, q: nat)
    requires |s| > 0 && q0 <= q < Word && IsTombstone(s[Probe(h, q, |s|)])
    requires forall p :: q0 <= p < q ==> !Matches(s[Probe(h, p, |s|)], h, key)
    ensures Look(s, h, key, q0) == Missing
    decreases q - q0
  {
    if !IsTombstone(s[Probe(h, q0, |s|)]) {
      LookMissing(s, h, key, q0 + 1, q);
    }
  }

  lemma {:induction false} InEntries<K, V>(s: seq<Bucket<K, V>>, i: nat)
    requires i < |s| && !IsTombstone(s[i])
    ensures s[i] in Entries(s)
    decreases i
  {
    if i > 0 {
      InEntries(s[1..], i - 1);
    }
  }

  lemma {:induction false} EntriesWitness<K, V>(s: seq<Bucket<K, V>>, b: Bucket<K, V>)
    requires b in Entries(s)
    ensures exists i :: 0 <= i < |s| && s[i] == b
  {
    if s[0] != b {
      EntriesWitness(s[1..], b);
      var i :| 0 <= i < |s[1..]| && s[1..][i] == b;
      assert s[i + 1] == b;
    }
  }

  /** A value Get returns is stored under the key and hash code it was asked for. */
  lemma {:induction false} LookFound<K, V>(s: seq<Bucket<K, V>>, h: U64, key: K, q0: nat)
    requires |s| > 0 && Look(s, h, key, q0).Found?
    ensures Entry(h, key, Look(s, h, key, q0).value) in Entries(s)
    decreases Word - q0
  {
    var i := Probe(h, q0, |s|);
    if Matches(s[i], h, key) {
      InEntries(s, i);
    } else {
      LookFound(s, h, key, q0 + 1);
    }
  }

  /** A bucket whose hash code is TombstoneValue is never found: it reads as empty. */
  lemma {:induction false} SentinelNeverFound<K, V>(s: seq<Bucket<K, V>>, key: K, q0: nat)
    requires |s| > 0
    ensures !Look(s, TombstoneValue, key, q0).Found?
    decreases Word - q0
  {
    if q0 < Word && !IsTombstone(s[Probe(TombstoneValue, q0, |s|)]) {
      SentinelNeverFound(s, key, q0 + 1);
    }
  }

  /** A lookup of a key no entry carries stops at the first empty bucket. */
  lemma AbsentMissing<K, V>(s: seq<Bucket<K, V>>, h: U64, key: K)
    requires |s| > 0 && Absent(s, key) && FirstVacant(s, h, 0).Some?
    ensures Look(s, h, key, 0) == Missing
  {
    var q := FirstVacant(s, h, 0).value;
    FirstVacantFirst(s, h, 0);
    forall p | 0 <= p < q
      ensures !Matches(s[Probe(h, p, |s|)], h, key)
    {
      InEntries(s, Probe(h, p, |s|));
    }
    LookMissing(s, h, key, 0, q);
  }

  // ---------------------------------------------------------------------
  // Filling one empty bucket

  /** Filling an empty bucket adds exactly the new bucket to the stored entries. */
  lemma {:induction false} EntriesFill<K, V>(s: seq<Bucket<K, V>>, k: nat, b: Bucket<K, V>)
    requires k < |s| && IsTombstone(s[k])
    ensures Entries(s[k := b]) == Entries(s) + Stored(b)
    decreases k
  {
    if k > 0 {
      EntriesFill(s[1..], k - 1, b);
      EntriesFillLater(s, k, b);
    } else {
      EntriesFillFirst(s, b);
    }
  }

  /** The entries a single bucket contributes: none for an empty one. */
  ghost function Stored<K, V>(b: Bucket<K, V>): multiset<Bucket<K, V>> {
    if IsTombstone(b) then multiset{} else multiset{b}
  }

  lemma EntriesFillFirst<K, V>(s: seq<Bucket<K, V>>, b: Bucket<K, V>)
    requires 0 < |s| && IsTombstone(s[0])
    ensures Entries(s[0 := b]) == Entries(s) + Stored(b)
  {
    var t := s[0 := b];
    assert t[1..] == s[1..] && t[0] == b;
    assert Entries(t) == Stored(b) + Entries(s[1..]);
    assert Entries(s) == Entries(s[1..]);
  }

  lemma EntriesFillLater<K, V>(s: seq<Bucket<K, V>>, k: nat, b: Bucket<K, V>)
    requires 0 < k < |s|
    requires Entries(s[1..][k - 1 := b]) == Entries(s[1..]) + Stored(b)
    ensures Entries(s[k := b]) == Entries(s) + Stored(b)
  {
    var t := s[k := b];
    assert t[1..] == s[1..][k - 1 := b] && t[0] == s[0];
    assert Entries(t) == Stored(s[0]) + Entries(t[1..]);
    assert Entries(s) == Stored(s[0]) + Entries(s[1..]);
  }

  lemma {:induction false} FillFindsFrom<K, V>(s: seq<Bucket<K, V>>, h: U64, key: K, value: V, q0: nat, q: nat)
    requires |s| > 0 && h != TombstoneValue && q0 <= q < Word
    requires IsTombstone(s[Probe(h, q, |s|)])
    requires forall p :: q0 <= p < q ==> !IsTombstone(s[Probe(h, p, |s|)])
    requires Look(s, h, key, q0) == Missing
    ensures Look(s[Probe(h, q, |s|) := Entry(h, key, value)], h, key, q0) == Found(value)
    decreases q - q0
  {
    if q0 < q {
      FillFindsFrom(s, h, key, value, q0 + 1, q);
    }
  }

  /** After filling the slot KeyFunc picks, a key the lookup missed is found with its value. */
  lemma FillFinds<K, V>(s: seq<Bucket<K, V>>, h: U64, key: K, value: V)
    requires |s| > 0 && h != TombstoneValue && Slot(s, h).Some? && Look(s, h, key, 0) == Missing
    ensures Look(s[Slot(s, h).value := Entry(h, key, value)], h, key, 0) == Found(value)
  {
    FirstVacantFirst(s, h, 0);
    FillFindsFrom(s, h, key, value, 0, FirstVacant(s, h, 0).value);
  }

  /** Filling an empty bucket leaves every successful lookup as it was. */
  lemma {:induction false} FillKeeps<K, V>(s: seq<Bucket<K, V>>, k: nat, b: Bucket<K, V>, h: U64, key: K, q0: nat)
    requires k < |s| && IsTombstone(s[k]) && Look(s, h, key, q0).Found?
    ensures Look(s[k := b], h, key, q0) == Look(s, h, key, q0)
    decreases Word - q0
  {
    if !Matches(s[Probe(h, q0, |s|)], h, key) {
      FillKeeps(s, k, b, h, key, q0 + 1);
    }
  }

  // ---------------------------------------------------------------------
  // Growing

  lemma {:induction false} EntriesVacant<K, V>(n: nat)
    ensures Entries(Vacants<K, V>(n)) == multiset{}
  {
    if n > 0 {
      assert Vacants<K, V>(n)[1..] == Vacants<K, V>(n - 1);
      EntriesVacant<K, V>(n - 1);
    }
  }

  lemma {:induction false} EntriesSnoc<K, V>(s: seq<Bucket<K, V>>, b: Bucket<K, V>)
    ensures Entries(s + [b]) == Entries(s) + (if IsTombstone(b) then multiset{} else multiset{b})
  {
    if |s| > 0 {
      assert (s + [b])[1..] == s[1..] + [b];
      EntriesSnoc(s[1..], b);
    }
  }

  /** Re-homing moves every stored entry into the new buckets, none lost and none added. */
  lemma {:induction false} RehomeEntries<K, V>(src: seq<Bucket<K, V>>, i: nat, acc: seq<Bucket<K, V>>)
    requires i <= |src| && |acc| > 0 && RehomeFrom(src, i, acc).Some?
    ensures Entries(RehomeFrom(src, i, acc).value) == Entries(acc) + Entries(src[i..])
    decreases |src| - i
  {
    if i == |src| {
      assert src[i..] == [];
    } else {
      assert src[i..][1..] == src[i + 1..];
      if IsTombstone(src[i]) {
        RehomeEntries(src, i + 1, acc);
      } else {
        var k := Slot(acc, src[i].hashCode).value;
        EntriesFill(acc, k, src[i]);
        RehomeEntries(src, i + 1, acc[k := src[i]]);
      }
    }
  }

  /** Growing keeps the stored entries. */
  lemma GrownEntries<K, V>(t: Table<K, V>)
    requires WellFormed(t) && Grown(t).Some?
    ensures Entries(Grown(t).value.slots) == Entries(t.slots)
  {
    var n := BucketSizes[t.index + 1];
    RehomeEntries(t.slots, 0, Vacants(n));
    EntriesVacant<K, V>(n);
    assert t.slots[0..] == t.slots;
  }

  /** No two stored entries share a key. */
  ghost predicate DistinctKeys<K, V>(s: seq<Bucket<K, V>>)
  {
    forall i, j :: 0 <= i < j < |s| && !IsTombstone(s[i]) && !IsTombstone(s[j]) ==> s[i].key != s[j].key
  }

  /** Every occupied bucket of src[..i] is found in acc under its own hash code and key. */
  ghost predicate HomesFound<K, V>(src: seq<Bucket<K, V>>, i: nat, acc: seq<Bucket<K, V>>)
    requires i <= |src| && |acc| > 0
  {
    forall j :: 0 <= j < i && !IsTombstone(src[j]) ==> Look(acc, src[j].hashCode, src[j].key, 0) == Found(src[j].value)
  }

  lemma SliceSnoc<T>(s: seq<T>, i: nat)
    requires i < |s|
    ensures s[..i + 1] == s[..i] + [s[i]]
  {
  }

  lemma RehomeSkip<K, V>(src: seq<Bucket<K, V>>, i: nat, acc: seq<Bucket<K, V>>)
    requires i < |src| && |acc| > 0 && IsTombstone(src[i])
    requires Entries(acc) == Entries(src[..i]) && HomesFound(src, i, acc)
    ensures Entries(acc) == Entries(src[..i + 1]) && HomesFound(src, i + 1, acc)
  {
    SliceSnoc(src, i);
    EntriesSnoc(src[..i], src[i]);
  }

  lemma RehomeStep<K, V>(src: seq<Bucket<K, V>>, i: nat, acc: seq<Bucket<K, V>>, k: nat)
    requires i < |src| && |acc| > 0 && DistinctKeys(src) && !IsTombstone(src[i])
    requires Slot(acc, src[i].hashCode) == Some(k)
    requires Entries(acc) == Entries(src[..i]) && HomesFound(src, i, acc)
    ensures Entries(acc[k := src[i]]) == Entries(src[..i + 1]) && HomesFound(src, i + 1, acc[k := src[i]])
  {
    var b := src[i];
    var next := acc[k := b];
    SliceSnoc(src, i);
    EntriesSnoc(src[..i], b);
    EntriesFill(acc, k, b);
    assert Absent(acc, b.key) by {
      forall e | e in Entries(acc)
        ensures e.key != b.key
      {
        EntriesWitness(src[..i], e);
      }
    }
    AbsentMissing(acc, b.hashCode, b.key);
    FillFinds(acc, b.hashCode, b.key, b.value);
    forall j | 0 <= j < i && !IsTombstone(src[j])
      ensures Look(next, src[j].hashCode, src[j].key, 0) == Found(src[j].value)
    {
      FillKeeps(acc, k, b, src[j].hashCode, src[j].key, 0);
    }
  }

  lemma {:induction false} RehomeFinds<K, V>(src: seq<Bucket<K, V>>, i: nat, acc: seq<Bucket<K, V>>)
    requires i <= |src| && |acc| > 0 && DistinctKeys(src) && RehomeFrom(src, i, acc).Some?
    requires Entries(acc) == Entries(src[..i]) && HomesFound(src, i, acc)
    ensures HomesFound(src, |src|, RehomeFrom(src, i, acc).value)
    decreases |src| - i
  {
    if i < |src| {
      if IsTombstone(src[i]) {
        assert RehomeFrom(src, i, acc) == RehomeFrom(src, i + 1, acc);
        RehomeSkip(src, i, acc);
        RehomeFinds(src, i + 1, acc);
      } else {
        var k := Slot(acc, src[i].hashCode).value;
        assert RehomeFrom(src, i, acc) == RehomeFrom(src, i + 1, acc[k := src[i]]);
        RehomeStep(src, i, acc, k);
        RehomeFinds(src, i + 1, acc[k := src[i]]);
      }
    } else {
      assert RehomeFrom(src, i, acc) == Some(acc);
    }
  }

  /** With distinct keys, growing re-homes every entry where a lookup finds it. */
  lemma GrownFinds<K, V>(t: Table<K, V>, j: nat)
    requires WellFormed(t) && Grown(t).Some? && DistinctKeys(t.slots)
    requires j < |t.slots| && !IsTombstone(t.slots[j])
    ensures Look(Grown(t).value.slots, t.slots[j].hashCode, t.slots[j].key, 0) == Found(t.slots[j].value)
  {
    var n := BucketSizes[t.index + 1];
    EntriesVacant<K, V>(n);
    assert t.slots[..0] == [];
    RehomeFinds(t.slots, 0, Vacants(n));
  }

  /** With distinct keys, growing keeps every successful lookup. */
  lemma GrownKeeps<K, V>(t: Table<K, V>, h: U64, key: K)
    requires WellFormed(t) && Grown(t).Some? && DistinctKeys(t.slots) && Look(t.slots, h, key, 0).Found?
    ensures Look(Grown(t).value.slots, h, key, 0) == Look(t.slots, h, key, 0)
  {
    LookFound(t.slots, h, key, 0);
    var w := Look(t.slots, h, key, 0).value;
    EntriesWitness(t.slots, Entry(h, key, w));
    var j :| 0 <= j < |t.slots| && t.slots[j] == Entry(h, key, w);
    GrownFinds(t, j);
  }

  // ---------------------------------------------------------------------
  // Inserting

  /** The bookkeeping before an insertion keeps the stored entries. */
  lemma PreparedEntries<K, V>(t: Table<K, V>)
    requires WellFormed(t) && Prepared(t).Some?
    ensures Entries(Prepared(t).value.slots) == Entries(t.slots)
  {
    var counted := t.(count := t.count + 1);
    if counted.count >= Threshold(|t.slots|) {
      GrownEntries(counted);
    }
  }

  /** An insertion fills the slot KeyFunc picks in the prepared table. */
  lemma InsertedSlot<K, V>(t: Table<K, V>, h: U64, key: K, value: V)
    requires WellFormed(t) && Inserted(t, h, key, value).Some?
    ensures Prepared(t).Some? && Slot(Prepared(t).value.slots, h).Some?
    ensures Inserted(t, h, key, value).value.slots ==
      Prepared(t).value.slots[Slot(Prepared(t).value.slots, h).value := Entry(h, key, value)]
  {
  }

  /** Insertion never overwrites a stored entry: it adds the new one, unless it reads as empty. */
  lemma InsertedEntries<K, V>(t: Table<K, V>, h: U64, key: K, value: V)
    requires WellFormed(t) && Inserted(t, h, key, value).Some?
    ensures Entries(Inserted(t, h, key, value).value.slots) ==
      Entries(t.slots) + (if h == TombstoneValue then multiset{} else multiset{Entry(h, key, value)})
  {
    InsertedSlot(t, h, key, value);
    var p := Prepared(t).value.slots;
    PreparedEntries(t);
    EntriesFill(p, Slot(p, h).value, Entry(h, key, value));
  }

  /** After inserting a key no entry carries, Get finds the inserted value. */
  lemma InsertedFinds<K, V>(t: Table<K, V>, h: U64, key: K, value: V)
    requires WellFormed(t) && h != TombstoneValue && Absent(t.slots, key)
    requires Inserted(t, h, key, value).Some?
    ensures Look(Inserted(t, h, key, value).value.slots, h, key, 0) == Found(value)
  {
    InsertedSlot(t, h, key, value);
    var p := Prepared(t).value.slots;
    PreparedEntries(t);
    assert Absent(p, key);
    AbsentMissing(p, h, key);
    FillFinds(p, h, key, value);
  }

  /** The bookkeeping before an insertion keeps every lookup of a table with distinct keys. */
  lemma PreparedKeeps<K, V>(t: Table<K, V>, h2: U64, key2: K)
    requires WellFormed(t) && DistinctKeys(t.slots) && Look(t.slots, h2, key2, 0).Found?
    requires Prepared(t).Some?
    ensures Look(Prepared(t).value.slots, h2, key2, 0) == Look(t.slots, h2, key2, 0)
  {
    var counted := t.(count := t.count + 1);
    if counted.count >= Threshold(|t.slots|) {
      GrownKeeps(counted, h2, key2);
    }
  }

  /** With distinct keys, every key found before an insertion is found after it with the same value. */
  lemma InsertedKeeps<K, V>(t: Table<K, V>, h: U64, key: K, value: V, h2: U64, key2: K)
    requires WellFormed(t) && DistinctKeys(t.slots) && Look(t.slots, h2, key2, 0).Found?
    requires Inserted(t, h, key, value).Some?
    ensures Look(Inserted(t, h, key, value).value.slots, h2, key2, 0) == Look(t.slots, h2, key2, 0)
  {
    InsertedSlot(t, h, key, value);
    var p := Prepared(t).value.slots;
    PreparedKeeps(t, h2, key2);
    FillKeeps(p, Slot(p, h).value, Entry(h, key, value), h2, key2, 0);
  }

  // ---------------------------------------------------------------------
  // Reach of quadratic probing

  lemma SquareBelowWord(q: nat)
    requires q < 0x1_0000_0000
    ensures 13 + q * q < Word
  {
    var m: nat := 0xFFFF_FFFF;
    MulMonotone(q, m, q);
    MulMonotone(q, m, m);
    assert q * m == m * q;
    assert m * m == 0xFFFF_FFFE_0000_0001;
  }

  lemma MulMonotone(a: nat, b: nat, c: nat)
    requires a <= b
    ensures a * c <= b * c
  {
    var d: nat := b - a;
    assert b * c == a * c + d * c;
  }

  lemma SquareResidue(q: nat)
    ensures (q * q) % 13 == ((q % 13) * (q % 13)) % 13
  {
    var a, r := q / 13, q % 13;
    var t, r2 := (r * r) / 13, (r * r) % 13;
    assert q == 13 * a + r;
    assert r * r == 13 * t + r2;
    assert q * q == 13 * (13 * a * a + 2 * a * r + t) + r2;
    TUMaths.DivModUnique(q * q, 13, 13 * a * a + 2 * a * r + t, r2);
  }

  /** Modulo 13, q*q takes only the values 0, 1, 3, 4, 9, 10 and 12. */
  lemma ProbeResidue(q: nat)
    requires q < 0x1_0000_0000
    ensures Probe(13, q, 13) in {0, 1, 3, 4, 9, 10, 12}
  {
    var x := q * q;
    SquareBelowWord(q);
    TUMaths.DivModUnique(13 + x, Word, 0, 13 + x);
    TUMaths.DivModUnique(13 + x, 13, x / 13 + 1, x % 13);
    assert Probe(13, q, 13) == x % 13;
    SquareResidue(q);
    SmallSquareResidue(q % 13);
  }

  lemma SmallSquareResidue(r: nat)
    requires r < 13
    ensures r * r % 13 in {0, 1, 3, 4, 9, 10, 12}
  {
    assert r in {0, 1, 2, 3, 4, 5, 6, 7, 8, 9, 10, 11, 12};
  }

  /**
   * With 7 of 13 buckets filled, below the growth threshold, a key whose hash
   * code is 13 meets only occupied buckets on its first 2^32 probes: the
   * probe sequence reaches just 7 of the 13 slots.
   */
  lemma ProbeCycleMisses<K, V>(s: seq<Bucket<K, V>>)
    requires |s| == BucketSizes[0]
    requires !IsTombstone(s[0]) && !IsTombstone(s[1]) && !IsTombstone(s[3]) && !IsTombstone(s[4])
    requires !IsTombstone(s[9]) && !IsTombstone(s[10]) && !IsTombstone(s[12])
    ensures 7 + 1 < Threshold(|s|)
    ensures forall q :: 0 <= q < 0x1_0000_0000 ==> !IsTombstone(s[Probe(13, q, |s|)])
  {
    forall q | 0 <= q < 0x1_0000_0000
      ensures !IsTombstone(s[Probe(13, q, |s|)])
    {
      ProbeResidue(q);
    }
  }

  // ---------------------------------------------------------------------
  // The table object

  class HashTable<K(==), V> {
    /** The key type's hash function. */
    const hash: K -> U64
    var bucketCountIndex: nat
    var bucketCount: nat
    var activeCount: nat
    var buckets: array<Bucket<K, V>>

    ghost predicate Valid()
      reads this
    {
      bucketCountIndex < |BucketSizes| && bucketCount == BucketSizes[bucketCountIndex] && buckets.Length == bucketCount
    }

    ghost function Contents(): Table<K, V>
      reads this, buckets
    {
      Table(bucketCountIndex, activeCount, buckets[..])
    }

    /** A table of at least minCount buckets (17 for the default minCount of 1), all empty. */
    constructor (minCount: nat, hash: K -> U64)
      ensures Valid() && this.hash == hash && activeCount == 0
      ensures buckets[..] == Vacants(bucketCount)
      ensures minCount < BucketSizes[0] ==> bucketCountIndex == 1
      ensures BucketSizes[0] <= minCount <= BucketSizes[|BucketSizes| - 1] ==>
        bucketCount >= minCount && (bucketCountIndex == 0 || BucketSizes[bucketCountIndex - 1] < minCount)
    {
      this.hash := hash;
      var index := FindNextBucketCount(minCount);
      bucketCountIndex := index;
      bucketCount := BucketSizes[index];
      activeCount := 0;
      buckets := new Bucket<K, V>[BucketSizes[index]](_ => Vacant);
    }

    /**
     * Binary search for the size index: the least size that holds minCount,
     * except that any minCount below the first size gives the second size,
     * and one above the last size gives the last.
     */
    static method FindNextBucketCount(minCount: nat) returns (index: nat)
      ensures index < |BucketSizes|
      ensures minCount < BucketSizes[0] ==> index == 1
      ensures BucketSizes[0] <= minCount <= BucketSizes[|BucketSizes| - 1] ==>
        BucketSizes[index] >= minCount && (index == 0 || BucketSizes[index - 1] < minCount)
      ensures minCount > BucketSizes[|BucketSizes| - 1] ==> index == |BucketSizes| - 1
    {
      SizesAscend();
      var current: nat := |BucketSizes| / 2;
      var lo: nat := 0;
      var hi: nat := |BucketSizes| - 1;
      while true
        invariant lo < hi < |BucketSizes| && lo <= current < hi && current == (hi - lo) / 2 + lo
        invariant lo == 0 || BucketSizes[lo] < minCount
        invariant hi == |BucketSizes| - 1 || minCount < BucketSizes[hi]
        decreases hi - lo
      {
        if minCount == BucketSizes[current] {
          return current;
        }
        if lo == hi {
          // The bounds never meet: the index repeats first.
          assert false;
        }
        if minCount > BucketSizes[current] {
          lo := current;
        } else if minCount < BucketSizes[current] {
          hi := current;
        }
        var previous := current;
        current := (hi - lo) / 2 + lo;
        if previous == current {
          return current + 1;
        }
      }
    }

    /** The slot of the first empty bucket on the probe sequence of h; None where the source never returns. */
    static method KeyFunc(h: U64, table: array<Bucket<K, V>>, count: nat) returns (slot: Option<nat>)
      requires count == table.Length > 0
      ensures slot == Slot(table[..], h)
    {
      var q: nat := 0;
      while q < Word
        invariant FirstVacant(table[..], h, q) == FirstVacant(table[..], h, 0)
        decreases Word - q
      {
        var index := Probe(h, q, count);
        if IsTombstone(table[index]) {
          return Some(index);
        }
        q := q + 1;
      }
      return None;
    }

    /** The stored value of key: Found, Missing (null) or Endless. */
    method Get(key: K) returns (r: Probed<V>)
      requires Valid()
      ensures r == Look(buckets[..], hash(key), key, 0)
    {
      var h := hash(key);
      var q: nat := 0;
      while q < Word
        invariant Look(buckets[..], h, key, q) == Look(buckets[..], h, key, 0)
        decreases Word - q
      {
        var b := buckets[Probe(h, q, bucketCount)];
        if IsTombstone(b) {
          return Missing;
        }
        if b.hashCode == h && b.key == key {
          return Found(b.value);
        }
        q := q + 1;
      }
      return Endless;
    }

    /** Whether key is stored; None where the source never returns. */
    method Contains(key: K) returns (r: Option<bool>)
      requires Valid()
      ensures r == Some(true) <==> Look(buckets[..], hash(key), key, 0).Found?
      ensures r == Some(false) <==> Look(buckets[..], hash(key), key, 0).Missing?
    {
      var h := hash(key);
      var q: nat := 0;
      while q < Word
        invariant Look(buckets[..], h, key, q) == Look(buckets[..], h, key, 0)
        decreases Word - q
      {
        var b := buckets[Probe(h, q, bucketCount)];
        if IsTombstone(b) {
          return Some(false);
        }
        if b.hashCode == h && b.key == key {
          return Some(true);
        }
        q := q + 1;
      }
      return None;
    }

    /** The re-homing loop of Expand: every occupied bucket of src moves to its slot in dst. */
    static method Rehome(src: array<Bucket<K, V>>, count: nat, dst: array<Bucket<K, V>>) returns (ok: bool)
      requires count == src.Length && dst.Length > 0 && src != dst
      modifies dst
      ensures ok == RehomeFrom(src[..], 0, old(dst[..])).Some?
      ensures ok ==> dst[..] == RehomeFrom(src[..], 0, old(dst[..])).value
    {
      var i := 0;
      while i < count
        invariant i <= count
        invariant RehomeFrom(src[..], i, dst[..]) == RehomeFrom(src[..], 0, old(dst[..]))
      {
        if !IsTombstone(src[i]) {
          var slot := KeyFunc(src[i].hashCode, dst, dst.Length);
          if slot.None? {
            return false;
          }
          dst[slot.value] := src[i];
        }
        i := i + 1;
      }
      ok := true;
    }

    /** Grows to the next size and re-homes every occupied bucket; false where the source exits or never returns. */
    method Expand() returns (ok: bool)
      requires Valid()
      modifies this
      ensures ok == Grown(old(Contents())).Some?
      ensures ok ==> Valid() && Contents() == Grown(old(Contents())).value
      ensures buckets == old(buckets) || fresh(buckets)
    {
      bucketCountIndex := bucketCountIndex + 1;
      if bucketCountIndex >= |BucketSizes| {
        // The source calls std::exit here.
        return false;
      }
      var newCount := BucketSizes[bucketCountIndex];
      var newBuckets := new Bucket<K, V>[newCount](_ => Vacant);
      assert newBuckets[..] == Vacants(newCount);
      var moved := Rehome(buckets, bucketCount, newBuckets);
      if !moved {
        return false;
      }
      bucketCount := newCount;
      buckets := newBuckets;
      ok := true;
    }

    /** Counts the new element, grows when the count reaches the threshold and picks the slot. */
    method PreInsert(key: K) returns (slot: Option<nat>)
      requires Valid()
      modifies this
      ensures buckets == old(buckets) || fresh(buckets)
      ensures slot.Some? <==> Prepared(old(Contents())).Some? && Slot(Prepared(old(Contents())).value.slots, hash(key)).Some?
      ensures slot.Some? ==> Valid() && Contents() == Prepared(old(Contents())).value && slot == Slot(buckets[..], hash(key))
    {
      ghost var before := Contents();
      activeCount := activeCount + 1;
      ghost var counted := before.(count := before.count + 1);
      assert Contents() == counted;
      assert bucketCount / 2 + bucketCount / 4 == Threshold(|before.slots|);
      if activeCount >= bucketCount / 2 + bucketCount / 4 {
        assert Prepared(before) == Grown(Contents());
        var grown := Expand();
        if !grown {
          return None;
        }
      }
      assert Prepared(before) == Some(Contents());
      slot := KeyFunc(hash(key), buckets, bucketCount);
    }

    /** Stores key and value in a new bucket; false where the source exits or never returns. */
    method Insert(key: K, value: V) returns (ok: bool)
      requires Valid()
      modifies this, buckets
      ensures ok == Inserted(old(Contents()), hash(key), key, value).Some?
      ensures ok ==> Valid() && Contents() == Inserted(old(Contents()), hash(key), key, value).value
    {
      var slot := PreInsert(key);
      if slot.None? {
        return false;
      }
      buckets[slot.value] := Entry(hash(key), key, value);
      ok := true;
    }
  }
}
