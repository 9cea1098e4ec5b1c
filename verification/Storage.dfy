/** The SD card as the firmware sees it: an array of 512-byte sectors that may refuse a transfer. */
module Storage {

  const TWO32: int := 0x1_0000_0000

  type byte = x: int | 0 <= x < 256
  type u32 = x: int | 0 <= x < TWO32

  /** One 512-byte sector. A sector buffer is always filled whole, so it is held as a value. */
  type Sector = s: seq<byte> | |s| == 512 witness seq(512, _ => 0)

  function Blank(): (s: Sector)
    ensures forall i :: 0 <= i < 512 ==> s[i] == 0
  {
    seq(512, _ => 0)
  }

  /** No sector but `lba` differs. */
  ghost predicate SameExcept(before: seq<Sector>, after: seq<Sector>, lba: nat) {
    && |before| == |after|
    && forall i :: 0 <= i < |before| && i != lba ==> after[i] == before[i]
  }

  /** `healthy` is the environment's promise that every in-range transfer succeeds;
      without it any transfer may fail. */
  class Card {
    var sectors: seq<Sector>
    var healthy: bool

    constructor (sectors: seq<Sector>, healthy: bool)
      ensures this.sectors == sectors && this.healthy == healthy
    {
      this.sectors, this.healthy := sectors, healthy;
    }

    /** Single-sector read. Every failure happens before the first data byte is copied, so the
        caller's buffer keeps its contents: no data is produced. */
    method Read(lba: u32) returns (ok: bool, data: Sector)
      ensures ok ==> lba < |sectors| && data == sectors[lba]
      ensures healthy && lba < |sectors| ==> ok
    {
      data := Blank();
      ok := lba < |sectors|;
      if ok && !healthy {
        ok := *;
      }
      if ok {
        data := sectors[lba];
      }
    }

    /** Multi-sector read. The stream may break after any number of sectors; what was delivered
        before is a prefix of the requested run. */
    method ReadMultiple(lba: u32, count: nat) returns (ok: bool, data: seq<Sector>)
      ensures ok ==> lba < |sectors| && lba + count <= |sectors| && data == sectors[lba..lba + count]
      ensures !ok ==> data == [] || (lba + count <= |sectors| && |data| <= count && data == sectors[lba..lba + |data|])
      ensures healthy && lba < |sectors| && lba + count <= |sectors| ==> ok
    {
      data := [];
      ok := lba < |sectors| && count <= |sectors| - lba;
      if !ok {
        return;
      }
      var i := 0;
      while i < count
        invariant i <= count && data == sectors[lba..lba + i]
      {
        if !healthy {
          ok := *;
          if !ok {
            return;
          }
        }
        data := data + [sectors[lba + i]];
        i := i + 1;
      }
      if !healthy {
        ok := *; // the stop command may be refused after all the data arrived
      }
    }

    /** Single-sector write. A failure may be reported before, during or after the card has stored
        the data, so the addressed sector is then unknown. No other sector ever changes. */
    method Write(lba: u32, data: Sector) returns (ok: bool)
      modifies this`sectors
      ensures ok ==> lba < |old(sectors)| && sectors == old(sectors)[lba := data]
      ensures !ok && lba >= |old(sectors)| ==> sectors == old(sectors)
      ensures SameExcept(old(sectors), sectors, lba)
      ensures healthy && lba < |old(sectors)| ==> ok
    {
      ok := lba < |sectors|;
      if ok {
        if !healthy {
          ok := *;
        }
        var stored := data;
        if !ok {
          stored := *;
        }
        sectors := sectors[lba := stored];
      }
    }
  }
}
