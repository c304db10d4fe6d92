# Native flash simulator, modelled in Dafny

This project models the host-side ("native") flash driver of Mynewt, in
`hw/mcu/native/src/hal_flash.c`. The driver simulates a 1 MiB NOR-flash device
with twelve sectors of unequal size. Its contents live in a backing file. The
file is opened on first use and formatted to all-`0xFF`, the erased value. A
normal write is allowed only over erased bytes. An overwrite path skips that
check, and a memset is built on it. Erasing a sector resets exactly that
sector to `0xFF`.

The project has four modules:

- `FlashGeometry` (`geometry.dfy`): the device size, the sector table, the
  linear search `FindArea` and `FlashSectorLen`, plus lemmas that the sectors
  are well formed, that each start is unique and that the sectors tile the
  device.
- `FlashImage` (`image.dfy`): the device image as a `seq<bv8>`. `Fill` is
  erase or memset, `Overlay` is a write, and `AllErased` is the test a normal
  write makes. Lemmas cover read-back, what stays unchanged, idempotence and
  write-once behaviour.
- `NativeFlash` (`hal_flash.dfy`): the class `FlashSim` holds the driver's
  global state. The `FILE *` handle becomes the flag `isOpen` plus a 1 MiB
  `array<bv8>` called `store`. The ghost function `View()` is what a read
  would return: the store once it is open, and all-`0xFF` before that, since
  the first access formats it. Every operation is a method whose `ensures`
  gives the new `View()` in terms of the old one: a `Fill`, an `Overlay`,
  or unchanged (`Read`, `EnsureFileOpen`, a refused write). `Init` instead
  takes the new store from its `BackingFile` argument. The chunk loops carry
  invariants showing that they cover exactly `[addr, addr+len)`. `Erase` and
  `Memset` also return a ghost list of chunk sizes: each is between 1 and
  256, and together they add up to `len`.
- `FlashScenarios` (`scenarios.dfy`): client methods that drive a fresh
  simulator. They show persistence across runs, write-after-erase in any
  sector, and a concrete sequence on the last sector.

The configured path (`native_flash_file`) is an input to `Init`, of type
`BackingFile`:

- `NoPath`: no path is configured.
- `Missing`: a path is configured but no file exists there.
- `Existing(contents)`: a file exists, holding the image an earlier run left.

A write that hits a non-erased byte aborts the process in the source (the
`assert` in the check loop). Here it is the result `NotErased(address)`.
`address` is the first non-erased byte; the contract says nothing was written
and that every byte before it was erased.

Three behaviours of `hal_flash.c` that the model keeps:

- The write checks the whole target range first and then writes all of `src`
  with one `fwrite`. It does not check and write chunk by chunk.
- The write does not AND new data into old bits. It demands erased bytes, and
  otherwise aborts.
- `native_flash_init` without a path does nothing. A temporary store is
  created later, on first use.

`FlashScenarios.LastSectorScenario` runs erase, write, read and re-write on
the last sector, `0xe0000..0x100000`.

## Model

| member | source | states |
|---|---|---|
| FlashGeometry.SectorsWellFormed | hw/mcu/native/src/hal_flash.c:41-64 | the table has 12 entries, starts at 0, is strictly increasing, and its last start lies below the 1 MiB device size |
| FlashGeometry.FindArea | hw/mcu/native/src/hal_flash.c:203-215 | returns -1 exactly when no sector starts at the address; otherwise it returns the first index whose start equals the address |
| FlashGeometry.FlashSectorLen | hw/mcu/native/src/hal_flash.c:217-228 | every length is positive; start plus length is the next sector's start, or the device size for the last sector, so a sector never runs past the device end |
| FlashGeometry.SectorStartUnique | hw/mcu/native/src/hal_flash.c:41-54 | two indices with the same start are the same index, so the index the lookup finds is unique |
| FlashGeometry.BetweenStartsNotStart | hw/mcu/native/src/hal_flash.c:203-215 | an address strictly between two consecutive sector starts is not a sector start, so the lookup rejects it |
| FlashGeometry.SectorLensSum | hw/mcu/native/src/hal_flash.c:217-228 | the lengths of the first n sectors add up to the start of sector n, and all twelve add up to the device size |
| FlashGeometry.SectorsTile | hw/mcu/native/src/hal_flash.c:41-64 | every device address lies in exactly one sector's range `[start, start + length)` |
| FlashImage.FillEffect | hw/mcu/native/src/hal_flash.c:74-90 | filling a range makes that range read back as the fill byte and leaves the bytes before and after it unchanged |
| FlashImage.OverlayEffect | hw/mcu/native/src/hal_flash.c:145-147 | after a write, the target range reads back as exactly the data, and the bytes before and after it are unchanged |
| FlashImage.FillIsOverlay | hw/mcu/native/src/hal_flash.c:172-186 | filling a range with c is the same as writing a run of c's over it, which is how memset is built on overwrite |
| FlashImage.FillIdempotent | hw/mcu/native/src/hal_flash.c:230-245 | erasing the same range twice gives the same image as erasing it once |
| FlashImage.ErasedAfterFill | hw/mcu/native/src/hal_flash.c:133-140 | after a range is erased, every sub-range of it passes the write's erased check |
| FlashImage.WrittenNotErased | hw/mcu/native/src/hal_flash.c:133-140 | once data holding a non-`0xFF` byte has been written over a range, that range fails the erased check, so a second normal write there is refused |
| NativeFlash.FlashSim.constructor | hw/mcu/native/src/hal_flash.c:25-26 | at process start no store is open, and what a read would see is all `0xFF` |
| NativeFlash.FlashSim.FileWrite | hw/mcu/native/src/hal_flash.c:145-147 | writing src at pos lays src over the store at pos and changes nothing else |
| NativeFlash.FlashSim.Erase | hw/mcu/native/src/hal_flash.c:66-92 | the store becomes the old store with exactly `[addr, addr+len)` set to `0xFF`; the chunk sizes are each between 1 and 256 and add up to len |
| NativeFlash.FlashSim.EnsureFileOpen | hw/mcu/native/src/hal_flash.c:94-102 | afterwards the store is open; the first call leaves it all `0xFF`, later calls change nothing, and what a read sees never changes |
| NativeFlash.FlashSim.Read | hw/mcu/native/src/hal_flash.c:193-201 | returns 0 and exactly the current bytes of `[address, address+length)`; what a read sees is unchanged |
| NativeFlash.FlashSim.WriteInternal | hw/mcu/native/src/hal_flash.c:104-151 | a zero-length write succeeds without opening the store. Otherwise the write succeeds exactly when overwrite is allowed or the whole target range was erased, and then it lays src over the old image. On refusal it reports the first non-erased byte and the image is unchanged |
| NativeFlash.FlashSim.NativeWrite | hw/mcu/native/src/hal_flash.c:153-157 | succeeds exactly when the whole target range is erased, and then lays src over the old image; otherwise it changes nothing and reports the first non-erased address inside the range |
| NativeFlash.FlashSim.Overwrite | hw/mcu/native/src/hal_flash.c:159-163 | always succeeds and lays src over the old image, whatever the old bytes were |
| NativeFlash.FlashSim.Memset | hw/mcu/native/src/hal_flash.c:165-191 | returns 0 and leaves `[offset, offset+len)` all equal to c with other bytes unchanged; chunks are 1 to 256 bytes and add up to len; len 0 does not open the store |
| NativeFlash.FlashSim.EraseSector | hw/mcu/native/src/hal_flash.c:230-245 | returns 0 exactly when a sector starts at the address, and then erases exactly that sector's range; otherwise returns -1, and its only effect is the first-use open, which gives an all-`0xFF` store |
| NativeFlash.FlashSim.Init | hw/mcu/native/src/hal_flash.c:247-259 | returns 0. Without a path it changes nothing. An existing file is reopened with its contents as they are, not erased. A missing file is created erased to all `0xFF` |
| FlashScenarios.PersistAcrossRuns | hw/mcu/native/src/hal_flash.c:247-259 | with a persistent path, data written in one run reads back unchanged in the next run, which reopens the image |
| FlashScenarios.WriteAfterErase | hw/mcu/native/src/hal_flash.c:230-245 | whatever the image held, after a sector erase a normal write inside that sector succeeds, and reading the range back returns exactly the data |
| FlashScenarios.LastSectorScenario | hw/mcu/native/src/hal_flash.c:104-245 | on the last sector: erase, write `[0xab, 0xcd]` and read returns those bytes; a second write without an erase aborts at `0xe0000`; an erase at an interior address returns -1 |

## Left out

- File I/O is not modelled: `tmpfile`, `fopen`, `fseek`, `fread`, `fwrite` and `fflush` are replaced by an in-memory byte array. Every I/O call is assumed to succeed, which covers the source's `assert`s on I/O return codes. `fflush` has no effect here.
- The `hal_flash_funcs` table of function pointers and the `native_flash_dev` struct are left out; only their constants are kept (size, sector count, sector table).
- Address width is not modelled: addresses are unbounded naturals, and every range operation requires `address + length <= 1 MiB`. The source checks neither the range nor the 32-bit wrap of `address + length`.
- NativeFlash.FlashSim.Init: an existing backing file is assumed to hold exactly 1 MiB. A shorter file, where `fread` would return short, is not modelled; a longer file would only hold bytes past 1 MiB that are never read. A re-init that replaces an already open handle is modelled as replacing the store's contents; the leaked handle is not modelled.
- NativeFlash.FlashSim.WriteInternal: the fatal `assert` on a non-erased byte (line 138) does not abort the process; it becomes the result `NotErased(address)`, with the first non-erased address and nothing written.
- NativeFlash.FlashSim.Memset: the early return on a non-zero return code from overwrite (lines 182-184) is left out, because overwrite always returns 0.
- The 256-byte static scratch buffers are not kept as buffers. They survive only as the chunk size: `Repeat(0xff, chunk)` for erase, the prefix of a `Repeat(c, 256)` buffer for memset, and the `Read` of each chunk in the write check. The redundant `fseek` at line 123 has no effect and is left out.
- The process-wide global state becomes one `FlashSim` object. Callers that share it across threads are out of scope, since the driver is single-threaded.
- The sensor-to-OIC encoder in `hw/sensor/src/sensor_oic.c` is not part of this model. It is a switch over sensor types that calls an external protocol library and encodes floating-point readings.
