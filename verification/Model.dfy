/** The parts of src/model.rs that more than one module uses. */
module Model {
  import opened Basics

  /** A Rust `String`, as its UTF-8 bytes. */
  type Text = Bytes

  datatype Temperature = Hot | Warm | Cold

  datatype MemoryFlags = MemoryFlags(read: bool, write: bool, execute: bool)

  datatype MemoryRegion = MemoryRegion(
    regionId: Text, baseAddr: nat, size: nat, flags: MemoryFlags, temperature: Temperature)

  /** No two regions of a manifest share an identifier. */
  ghost predicate UniqueIds(manifest: seq<MemoryRegion>) {
    forall i, j :: 0 <= i < j < |manifest| ==> manifest[i].regionId != manifest[j].regionId
  }
}
