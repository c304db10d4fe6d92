/**
 * Callers of the simulator: what flash-management code can rely on when it
 * drives the device through its operations, each stated for a fresh simulator.
 */
module FlashScenarios {
  import opened FlashGeometry
  import opened FlashImage
  import opened NativeFlash

  /**
   * With a persistent path, data written in one run is read back in the next run,
   * which reopens the image the first run left behind without erasing it.
   */
  method PersistAcrossRuns(address: nat, data: seq<byte>) returns (back: seq<byte>)
    requires address + |data| <= FlashSize
    ensures back == data
  {
    var first := new FlashSim();
    var rc := first.Init(Missing);
    ErasedAfterFill(first.store[..], 0, FlashSize, address, |data|);
    var r := first.NativeWrite(address, data);
    OverlayEffect(Repeat(Erased, FlashSize), address, data);
    var image := first.store[..];

    var second := new FlashSim();
    rc := second.Init(Existing(image));
    rc, back := second.Read(address, |data|);
  }

  /**
   * Whatever the image held, once sector i is erased a normal write of data at offset
   * o inside it succeeds and a read of the same range returns exactly data.
   */
  method WriteAfterErase(prior: seq<byte>, i: nat, o: nat, data: seq<byte>)
    returns (r: WriteResult, back: seq<byte>)
    requires |prior| == FlashSize
    requires i < NumAreas && o + |data| <= FlashSectorLen(i)
    ensures r == WriteOk
    ensures back == data
  {
    var f := new FlashSim();
    var rc := f.Init(Existing(prior));
    ghost var v0 := f.View();
    rc := f.EraseSector(Sectors[i]);
    ErasedAfterFill(v0, Sectors[i], FlashSectorLen(i), o, |data|);
    ghost var v1 := f.View();
    r := f.NativeWrite(Sectors[i] + o, data);
    OverlayEffect(v1, Sectors[i] + o, data);
    rc, back := f.Read(Sectors[i] + o, |data|);
  }

  /**
   * The last sector, at 0xe0000, is 128 KiB and ends at the device end. Erasing it,
   * writing two bytes and reading them back returns those bytes; writing the same
   * place again without an erase aborts on its first byte; an erase request at an
   * address inside the sector is refused.
   */
  method LastSectorScenario() returns (back: seq<byte>, again: WriteResult, inside: int)
    ensures back == [0xab, 0xcd]
    ensures again == NotErased(0xe0000)
    ensures inside == -1
  {
    assert Sectors[11] == 0xe0000 && FlashSectorLen(11) == 0x20000;
    var f := new FlashSim();
    ghost var v0 := f.View();
    var rc := f.EraseSector(0xe0000);
    ErasedAfterFill(v0, 0xe0000, 0x20000, 0, 2);
    ghost var v1 := f.View();
    var r := f.NativeWrite(0xe0000, [0xab, 0xcd]);
    OverlayEffect(v1, 0xe0000, [0xab, 0xcd]);
    rc, back := f.Read(0xe0000, 2);
    ghost var v2 := f.View();
    assert v2[0xe0000] == 0xab;
    again := f.NativeWrite(0xe0000, [0x12]);
    assert 0xe0100 !in Sectors by {
      SectorsWellFormed();
    }
    inside := f.EraseSector(0xe0100);
  }
}
