/** The block device below a volume: an array of 512-byte sectors whose operations may fail. */
module Device {
  import opened Bytes

  /** What happens to one device operation: it works, or it fails and leaves arbitrary bytes
      wherever it was to store data. */
  datatype Fate = Works | Fails(junk: nat -> byte)

  class StorageDevice {
    var image: seq<byte>
    var ops: nat
    const fate: nat -> Fate

    ghost predicate Healthy()
    {
      forall n: nat :: fate(n).Works?
    }

    constructor (image: seq<byte>, fate: nat -> Fate)
      ensures this.image == image && this.fate == fate
    {
      this.image, this.fate, ops := image, fate, 0;
    }

    function SectorCount(): nat
      reads this
    {
      |image| / 512
    }

    /** Copies `count` sectors into `buff` from index `at` on. A sector the device does not have
        cannot be read. */
    method Read(buff: array<byte>, at: nat, sector: nat, count: nat) returns (ok: bool)
      requires at + 512 * count <= buff.Length
      modifies this`ops, buff
      ensures ok ==> 512 * (sector + count) <= |image|
      ensures ok ==> buff[..] == Splice(old(buff[..]), at, image[512 * sector..512 * (sector + count)])
      ensures forall i :: 0 <= i < buff.Length && !(at <= i < at + 512 * count) ==> buff[i] == old(buff[i])
      ensures Healthy() && 512 * (sector + count) <= |image| ==> ok
    {
      var f := fate(ops);
      ops := ops + 1;
      ok := f.Works? && 512 * (sector + count) <= |image|;
      if ok {
        forall i | 0 <= i < 512 * count {
          buff[at + i] := image[512 * sector + i];
        }
      } else if f.Fails? {
        forall i | 0 <= i < 512 * count {
          buff[at + i] := f.junk(i);
        }
      }
    }

    /** Stores `count` sectors from `buff`, starting at index `at`. */
    method Write(buff: array<byte>, at: nat, sector: nat, count: nat) returns (ok: bool)
      requires at + 512 * count <= buff.Length
      modifies this`ops, this`image
      ensures |image| == old(|image|)
      ensures ok ==> 512 * (sector + count) <= |image|
      ensures ok ==> image == Splice(old(image), 512 * sector, buff[at..at + 512 * count])
      ensures forall i :: 0 <= i < |image| && !(512 * sector <= i < 512 * (sector + count)) ==>
        image[i] == old(image[i])
      ensures Healthy() && 512 * (sector + count) <= |image| ==> ok
    {
      var f := fate(ops);
      ops := ops + 1;
      ok := f.Works? && 512 * (sector + count) <= |image|;
      if ok {
        image := Splice(image, 512 * sector, buff[at..at + 512 * count]);
      } else if f.Fails? && 512 * (sector + count) <= |image| {
        image := Splice(image, 512 * sector, seq(512 * count, i requires i >= 0 => f.junk(i)));
      }
    }
  }
}
