/** The shared constants of src/settings.h that the modelled code reads. */
module Settings {
  /** HASH_NOT_FOUND: (DictHash) -1, the all-ones unsigned 32-bit value. */
  const HASH_NOT_FOUND: nat := 0xFFFF_FFFF

  /** MAX_LINEAR_MAP_SIZE: the arc count above which an NFA state
      switches from its linear list to a hash map. */
  const MAX_LINEAR_MAP_SIZE: nat := 50
}
