/** The memtable's key order: key ascending, insertion counter descending, with a
    search key that compares by key alone. */
module MemTableKeys {
  import opened Bytes

  datatype InsertKey = InsertKey(id: nat, key: u64)

  datatype SearchKey = SearchKey(key: u64)

  /** `InsertKey::Comparator`. */
  predicate Less(lhs: InsertKey, rhs: InsertKey) {
    if lhs.key < rhs.key then true
    else if rhs.key < lhs.key then false
    else lhs.id > rhs.id
  }

  predicate BelowSearch(ik: InsertKey, sk: SearchKey) {
    ik.key < sk.key
  }

  predicate AboveSearch(sk: SearchKey, ik: InsertKey) {
    sk.key < ik.key
  }

  /** A strict total order; its equivalence is equality, so no two counters collide. */
  lemma StrictTotalOrder(a: InsertKey, b: InsertKey, c: InsertKey)
    ensures !Less(a, a)
    ensures Less(a, b) && Less(b, c) ==> Less(a, c)
    ensures !Less(a, b) && !Less(b, a) <==> a == b
  {
  }

  /** The mixed comparisons split every ordered sequence into keys below, equal to
      and above the search key, in that order. */
  lemma SearchKeyPartitions(a: InsertKey, b: InsertKey, sk: SearchKey)
    requires Less(a, b)
    ensures BelowSearch(b, sk) ==> BelowSearch(a, sk)
    ensures AboveSearch(sk, a) ==> AboveSearch(sk, b)
    ensures !(BelowSearch(a, sk) && AboveSearch(sk, a))
    ensures !BelowSearch(a, sk) && !AboveSearch(sk, a) <==> a.key == sk.key
  {
  }
}
