/** Values shared by every component: optional results, mapping flags and architectures. */
module Flags {

  datatype Option<+T> = None | Some(value: T)

  /** The two page-table formats of the crate that are defined in this repository. */
  datatype Arch = X86_64 | AArch64

  /** The flag set of a mapping: permissions and attributes. */
  datatype MappingFlags = MappingFlags(
    read: bool, write: bool, execute: bool, user: bool, device: bool, uncached: bool)
  {
    predicate IsEmpty() {
      this == NO_FLAGS
    }

    /** Every flag of `other` is also set here. */
    predicate Contains(other: MappingFlags) {
      && (other.read ==> read)
      && (other.write ==> write)
      && (other.execute ==> execute)
      && (other.user ==> user)
      && (other.device ==> device)
      && (other.uncached ==> uncached)
    }

    /** The part of the set that an extended-page-table entry can record. */
    function Recorded(): MappingFlags {
      this.(user := false, uncached := false)
    }
  }

  const NO_FLAGS := MappingFlags(false, false, false, false, false, false)
}
