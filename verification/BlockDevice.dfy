/** A disk as the file systems see it: bytes addressed in 512-byte sectors,
    where any request may fail. */
module BlockDevice {
  import opened Wire

  const SECTOR_SIZE: nat := 512

  function Failed<T>(r: Option<T>): nat {
    if r.None? then 1 else 0
  }

  class Disk {
    const image: seq<byte>
    /** How many requests have failed so far. */
    ghost var failures: nat

    constructor (image: seq<byte>)
      ensures this.image == image && failures == 0
    {
      this.image, failures := image, 0;
    }

    method Read(sector: nat, len: nat) returns (r: Option<seq<byte>>)
      modifies this
      ensures failures == old(failures) + Failed(r)
      ensures r.Some? ==> sector * SECTOR_SIZE + len <= |image|
      ensures r.Some? ==> r.value == image[sector * SECTOR_SIZE..sector * SECTOR_SIZE + len]
    {
      var fails: bool := *;
      if fails || sector * SECTOR_SIZE + len > |image| {
        failures := failures + 1;
        return None;
      }
      return Some(image[sector * SECTOR_SIZE..sector * SECTOR_SIZE + len]);
    }
  }
}
