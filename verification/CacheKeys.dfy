/** How every backend names an entry. */
module CacheKeys {

  const KEY_SIZE_MAX: nat := 512

  /** "<section>:<key>" */
  function SectionKey(section: string, key: string): string {
    section + ":" + key
  }
}
