/**
  The format constants of a PBO archive: the packing-method tags stored in the
  first field of every header record, the size of the smallest header record
  and the chunk size used when copying payloads.
 */
module Constants {

  /** Upper bound on the chunks handed out while copying a payload. */
  const PACKING_BUFFER_SIZE: nat := 4096

  /** One NUL byte plus five 4-byte fields: the size of a record whose path is empty. */
  const HEADER_ENTRY_DEFAULT_SIZE: nat := 21

  /** Width of every numeric header field. */
  const UINT32_LENGTH: nat := 4

  const UINT32_LIMIT: int := 0x1_0000_0000

  // Packing-method tags (format magic numbers, not ordinals).
  const UNCOMPRESSED: nat := 0x0
  const COMPRESSED: nat := 0x43707273
  const VERSION: nat := 0x56657273
  const ENCRYPTED: nat := 0x456e6372
  const NULL: nat := 0xffffffff

  const PACKING_METHODS: seq<nat> := [UNCOMPRESSED, COMPRESSED, VERSION, ENCRYPTED, NULL]

  predicate IsUint32(n: int) {
    0 <= n < UINT32_LIMIT
  }

  /** The five tags are pairwise distinct and each fits a 4-byte field. */
  lemma PackingMethodTags()
    ensures |PACKING_METHODS| == 5
    ensures forall i, j :: 0 <= i < j < |PACKING_METHODS| ==> PACKING_METHODS[i] != PACKING_METHODS[j]
    ensures forall i :: 0 <= i < |PACKING_METHODS| ==> IsUint32(PACKING_METHODS[i])
    ensures UNCOMPRESSED == 0 && NULL == UINT32_LIMIT - 1
  {
  }

  /** The minimum record is a lone NUL followed by the five fixed-width fields. */
  lemma HeaderEntryDefaultSize()
    ensures HEADER_ENTRY_DEFAULT_SIZE == 1 + 5 * UINT32_LENGTH
    ensures HEADER_ENTRY_DEFAULT_SIZE - 1 == 20
  {
  }
}
