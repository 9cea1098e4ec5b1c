/** The parsed form of a CD image: backing files and the tracks laid out over them. */
module CdTypes {
  import opened Storage
  import opened FatChain

  datatype Mode = Audio | Mode1 | Mode2

  datatype ImageFile = ImageFile(cluster: nat, size: u32)

  /** `start`, `end` and `gap` are logical blocks, `offset` is the byte of the track's first block in
      its file, `index0`, `index1` and `pregap` come from the CUE sheet in blocks, like the `number`. */
  datatype Track = Track(
    number: nat,
    start: u32, end: u32, gap: u32, offset: u32,
    index0: u32, index1: u32, pregap: u32,
    sectorSize: nat, file: nat, mode: Mode, has0: bool, has1: bool)

  /** An image slot; a mount overwrites it in place. */
  class CDImage {
    var files: seq<ImageFile>
    var tracks: seq<Track>
    var blocks: u32

    constructor ()
      ensures files == [] && tracks == [] && blocks == 0
    {
      files, tracks, blocks := [], [], 0;
    }

    /** Every backing file has a well-formed chain on the card. */
    ghost predicate OnCard(g: Geometry, disk: seq<Sector>)
      requires g.Valid()
      reads this
    {
      forall i :: 0 <= i < |files| ==> WellFormed(g, disk, files[i].cluster, files[i].size)
    }
  }
}
