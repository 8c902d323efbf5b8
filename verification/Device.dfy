/** The block device behind the file system: reads and writes of whole sectors, each of which may fail. */
module BlockDevice {
  import opened Bytes

  class Device {
    var sectors: Image

    // How many operations have failed so far.
    var faults: nat
    // What the device held at the start and after every successful write, oldest first.
    ghost var images: seq<Image>

    ghost predicate Recorded()
      reads `images, `sectors
    {
      |images| > 0 && images[|images| - 1] == sectors
    }

    constructor (contents: Image)
      ensures sectors == contents && faults == 0 && images == [contents]
    {
      sectors := contents;
      faults, images := 0, [contents];
    }

    /** A failed read leaves the buffer as it was. */
    method Read(buf: array<byte>, sect: nat) returns (ok: bool)
      requires buf.Length == SECTOR_SIZE
      modifies `faults, buf
      ensures ok ==> sect < |sectors| && buf[..] == sectors[sect] && faults == old(faults)
      ensures !ok ==> buf[..] == old(buf[..]) && faults == old(faults) + 1
    {
      ok := false;
      if sect < |sectors| {
        ok := *;
      }
      if ok {
        forall i | 0 <= i < SECTOR_SIZE {
          buf[i] := sectors[sect][i];
        }
        assert buf[..] == sectors[sect];
      } else {
        faults := faults + 1;
      }
    }

    method Write(buf: array<byte>, sect: nat) returns (ok: bool)
      requires buf.Length == SECTOR_SIZE
      modifies this
      ensures ok ==> sect < |old(sectors)| && sectors == old(sectors)[sect := buf[..]]
      ensures ok ==> images == old(images) + [sectors] && faults == old(faults)
      ensures !ok ==> sectors == old(sectors) && images == old(images) && faults == old(faults) + 1
      ensures |sectors| == |old(sectors)|
    {
      ok := false;
      if sect < |sectors| {
        ok := *;
      }
      if ok {
        sectors := sectors[sect := buf[..]];
        images := images + [sectors];
      } else {
        faults := faults + 1;
      }
    }
  }
}
