/** Byte layout of a multimap file (DiskMultiMap.h): a header of three
    offset-sized words, the bucket table, then fixed-size record slots. */
module Layout {

  /** sizeof(BinaryFile::Offset): offsets are 32-bit signed integers. */
  const OffsetSize: int := 4

  /** The "none" sentinel used for empty buckets, chain ends and the empty free list. */
  const NoOffset: int := -1

  /** Byte offsets of the three header words written by close and read by openExisting. */
  const FirstUnusedAt: int := 0
  const FreedNodesAt: int := OffsetSize
  const NumBucketsAt: int := 2 * OffsetSize

  /** m_hashTableStart: the bucket table follows the header. */
  const HashTableStart: int := 12

  /** Longest key, value or context that insert accepts. */
  const MaxFieldLength: int := 120

  /** Each stored field is a char[121]: the longest accepted string and its terminator. */
  const FieldSize: int := 121

  /** m_nodeSize == sizeof(MultiMapNode): three 121-byte fields, padded to
      offset alignment (364 bytes), then the 4-byte `next` offset. */
  const NodeSize: int := 368

  /** MultiMapNode: one record slot. `next` is the offset of the following
      record of the same chain (or of the free list), or NoOffset. */
  datatype Node = Node(key: string, value: string, context: string, next: int)

  /** Offset of the table entry of bucket `i`. */
  function BucketAddress(i: int): int
  {
    HashTableStart + i * OffsetSize
  }

  /** First byte after a table of `numBuckets` entries: where records begin. */
  function TableEnd(numBuckets: int): int
  {
    HashTableStart + numBuckets * OffsetSize
  }

  /** Offset of the `k`-th record slot. */
  function SlotOffset(numBuckets: int, k: int): int
  {
    TableEnd(numBuckets) + k * NodeSize
  }

  /** `o` is the start of some record slot of a file with `numBuckets` buckets. */
  predicate IsSlot(numBuckets: int, o: int)
  {
    o >= TableEnd(numBuckets) && (o - TableEnd(numBuckets)) % NodeSize == 0
  }

  /** The header's three words end exactly where the bucket table starts,
      so no bucket entry overlaps the header. */
  lemma HeaderPrecedesTable(i: nat)
    ensures FirstUnusedAt + OffsetSize <= FreedNodesAt
    ensures FreedNodesAt + OffsetSize <= NumBucketsAt
    ensures NumBucketsAt + OffsetSize == HashTableStart <= BucketAddress(i)
  {
  }

  /** Table entries lie inside the table and do not overlap each other. */
  lemma BucketsDisjoint(numBuckets: nat, i: nat, j: nat)
    requires i < numBuckets && j < numBuckets
    ensures BucketAddress(i) + OffsetSize <= TableEnd(numBuckets)
    ensures i < j ==> BucketAddress(i) + OffsetSize <= BucketAddress(j)
  {
  }

  /** Every slot offset is TableEnd + k * NodeSize, and each such offset is a slot. */
  lemma SlotsAreIndexed(numBuckets: int, o: int)
    ensures IsSlot(numBuckets, o) <==> exists k: nat :: o == SlotOffset(numBuckets, k)
  {
    if IsSlot(numBuckets, o) {
      var k := (o - TableEnd(numBuckets)) / NodeSize;
      assert o == SlotOffset(numBuckets, k);
    }
    if exists k: nat :: o == SlotOffset(numBuckets, k) {
      var k: nat :| o == SlotOffset(numBuckets, k);
      assert (k * NodeSize) % NodeSize == 0;
    }
  }

  /** The slot after a slot is a slot: the growth pointer stays aligned. */
  lemma NextSlot(numBuckets: int, o: int)
    requires IsSlot(numBuckets, o)
    ensures IsSlot(numBuckets, o + NodeSize)
  {
  }

  /** Two distinct slots are at least a record apart: records never overlap. */
  lemma SlotsDisjoint(numBuckets: int, o1: int, o2: int)
    requires IsSlot(numBuckets, o1) && IsSlot(numBuckets, o2) && o1 < o2
    ensures o1 + NodeSize <= o2
  {
    var k1 := (o1 - TableEnd(numBuckets)) / NodeSize;
    var k2 := (o2 - TableEnd(numBuckets)) / NodeSize;
    assert o1 == TableEnd(numBuckets) + k1 * NodeSize;
    assert o2 == TableEnd(numBuckets) + k2 * NodeSize;
    assert k1 < k2;
  }

  /** Records start after the table, so a record write never hits the
      header or a bucket entry. */
  lemma SlotsAfterTable(numBuckets: nat, i: nat, o: int)
    requires i < numBuckets && IsSlot(numBuckets, o)
    ensures BucketAddress(i) + OffsetSize <= o
    ensures NumBucketsAt + OffsetSize <= o
  {
  }
}
