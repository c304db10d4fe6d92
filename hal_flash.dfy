/**
 * The host (native) flash simulator: a 1 MiB NOR-flash device whose contents
 * live in a backing store that is opened lazily on first use and formatted to
 * all-0xFF, with chunked erase, a write that refuses non-erased bytes, an
 * unchecked overwrite and a memset built on it, read, sector erase and init.
 */
module NativeFlash {
  import opened FlashGeometry
  import opened FlashImage

  /** Size of the scratch buffer that erase, the write check and memset work through. */
  const ChunkSize: nat := 256

  /** What the configured backing-store path refers to when init runs. */
  datatype BackingFile =
    | NoPath                           // no path configured
    | Missing                          // a path is configured but no file exists there
    | Existing(contents: seq<byte>)    // the image a previous run left at the path

  /** Outcome of a write: success (return code 0), or the abort on a non-erased byte. */
  datatype WriteResult = WriteOk | NotErased(address: nat)

  /** Sum of the chunk sizes a chunk loop went through. */
  ghost function Total(chunks: seq<nat>): nat {
    if chunks == [] then 0 else Total(chunks[..|chunks| - 1]) + chunks[|chunks| - 1]
  }

  lemma TotalAppend(chunks: seq<nat>, c: nat)
    ensures Total(chunks + [c]) == Total(chunks) + c
  {
  }

  /** Every chunk of a chunk loop is non-empty and at most one scratch buffer long. */
  ghost predicate BoundedChunks(chunks: seq<nat>) {
    forall k :: 0 <= k < |chunks| ==> 0 < chunks[k] <= ChunkSize
  }

  class FlashSim {
    /** Whether the backing store has been opened (the file handle is non-null). */
    var isOpen: bool
    /** The bytes of the backing store. */
    const store: array<byte>

    ghost predicate Valid()
      reads this
    {
      store.Length == FlashSize
    }

    /**
     * The device contents as a read sees them: the store once it is open, and
     * before that the all-erased image that the first access will create.
     */
    ghost function View(): (v: seq<byte>)
      reads this, store
      ensures |v| == store.Length
    {
      if isOpen then store[..] else Repeat(Erased, store.Length)
    }

    /** The simulator at process start: no backing store is open. */
    constructor ()
      ensures Valid() && !isOpen && fresh(store)
      ensures View() == Repeat(Erased, FlashSize)
    {
      store := new byte[FlashSize];
      isOpen := false;
    }

    /** Writes src into the store at pos (the file write primitive). */
    method FileWrite(pos: nat, src: seq<byte>)
      requires Valid() && pos + |src| <= FlashSize
      modifies store
      ensures store[..] == Overlay(old(store[..]), pos, src)
    {
      forall i | pos <= i < pos + |src| {
        store[i] := src[i - pos];
      }
      assert forall i :: 0 <= i < store.Length ==> store[..][i] == Overlay(old(store[..]), pos, src)[i];
    }

    /**
     * Fills [addr, addr + len) of the open store with 0xFF, one scratch buffer at a
     * time; chunks lists the chunk sizes the loop wrote.
     */
    method Erase(addr: nat, len: nat) returns (ghost chunks: seq<nat>)
      requires Valid() && isOpen && addr + len <= FlashSize
      modifies store
      ensures store[..] == Fill(old(store[..]), addr, len, Erased)
      ensures BoundedChunks(chunks) && Total(chunks) == len
    {
      var end := addr + len;
      var cur := addr;
      chunks := [];
      while cur < end
        invariant addr <= cur <= end
        invariant store[..] == Fill(old(store[..]), addr, cur - addr, Erased)
        invariant BoundedChunks(chunks) && Total(chunks) == cur - addr
      {
        var chunkSz := if end - cur < ChunkSize then end - cur else ChunkSize;
        FileWrite(cur, Repeat(Erased, chunkSz));
        FillExtend(old(store[..]), addr, cur - addr, chunkSz, Erased);
        TotalAppend(chunks, chunkSz);
        chunks := chunks + [chunkSz];
        cur := cur + chunkSz;
      }
    }

    /**
     * Opens the backing store on first use and formats it to all-0xFF; later calls
     * change nothing. What a read sees is the same before and after.
     */
    method EnsureFileOpen()
      requires Valid()
      modifies this, store
      ensures Valid() && isOpen
      ensures View() == old(View())
      ensures old(isOpen) ==> store[..] == old(store[..])
      ensures !old(isOpen) ==> store[..] == Repeat(Erased, FlashSize)
    {
      if !isOpen {
        isOpen := true;
        ghost var chunks := Erase(0, FlashSize);
        FillWhole(old(store[..]), Erased);
      }
    }

    /** Copies [address, address + length) of the device; always returns 0. */
    method Read(address: nat, length: nat) returns (rc: int, dst: seq<byte>)
      requires Valid() && address + length <= FlashSize
      modifies this, store
      ensures Valid() && isOpen
      ensures View() == old(View())
      ensures old(isOpen) ==> store[..] == old(store[..])
      ensures rc == 0 && dst == View()[address..address + length]
    {
      EnsureFileOpen();
      dst := store[address..address + length];
      rc := 0;
    }

    /**
     * Writes src at address. Unless allowOverwrite is set, every target byte is first
     * checked to be erased, chunk by chunk, before any byte is written; the first
     * non-erased byte aborts the write with nothing written. A zero-length write
     * succeeds and does not even open the store.
     */
    method WriteInternal(address: nat, src: seq<byte>, allowOverwrite: bool) returns (r: WriteResult)
      requires Valid() && address + |src| <= FlashSize
      modifies this, store
      ensures Valid()
      ensures |src| == 0 ==> r == WriteOk && isOpen == old(isOpen) && store[..] == old(store[..])
      ensures |src| > 0 ==> isOpen
      ensures r == WriteOk <==> allowOverwrite || AllErased(old(View()), address, |src|)
      ensures r.NotErased? ==> address <= r.address < address + |src|
      ensures r.NotErased? ==> old(View())[r.address] != Erased
      ensures r.NotErased? ==> AllErased(old(View()), address, r.address - address)
      ensures r.NotErased? ==> View() == old(View())
      ensures r == WriteOk ==> View() == Overlay(old(View()), address, src)
    {
      if |src| == 0 {
        return WriteOk;
      }
      var end := address + |src|;
      EnsureFileOpen();
      ghost var before := store[..];
      assert before == old(View());
      var cur := address;
      while cur < end
        invariant address <= cur <= end
        invariant Valid() && isOpen && store[..] == before
        invariant !allowOverwrite ==> AllErased(before, address, cur - address)
      {
        var chunkSz := if end - cur < ChunkSize then end - cur else ChunkSize;
        if !allowOverwrite {
          var rc, buf := Read(cur, chunkSz);
          for i := 0 to chunkSz
            invariant forall k :: 0 <= k < i ==> buf[k] == Erased
          {
            if buf[i] != Erased {
              assert before[cur + i] == buf[i];
              AllErasedSplit(before, address, cur - address, i);
              return NotErased(cur + i);
            }
          }
          AllErasedSplit(before, address, cur - address, chunkSz);
        }
        cur := cur + chunkSz;
      }
      FileWrite(address, src);
      return WriteOk;
    }

    /** The production write: refuses a target range that is not entirely erased. */
    method NativeWrite(address: nat, src: seq<byte>) returns (r: WriteResult)
      requires Valid() && address + |src| <= FlashSize
      modifies this, store
      ensures Valid()
      ensures |src| == 0 ==> r == WriteOk && isOpen == old(isOpen) && store[..] == old(store[..])
      ensures |src| > 0 ==> isOpen
      ensures r == WriteOk <==> AllErased(old(View()), address, |src|)
      ensures r.NotErased? ==> address <= r.address < address + |src| && old(View())[r.address] != Erased
      ensures r.NotErased? ==> AllErased(old(View()), address, r.address - address)
      ensures r.NotErased? ==> View() == old(View())
      ensures r == WriteOk ==> View() == Overlay(old(View()), address, src)
    {
      r := WriteInternal(address, src, false);
    }

    /** The test-setup write: skips the erased check and always succeeds. */
    method Overwrite(address: nat, src: seq<byte>) returns (r: WriteResult)
      requires Valid() && address + |src| <= FlashSize
      modifies this, store
      ensures Valid() && r == WriteOk
      ensures |src| == 0 ==> isOpen == old(isOpen) && store[..] == old(store[..])
      ensures |src| > 0 ==> isOpen
      ensures View() == Overlay(old(View()), address, src)
    {
      r := WriteInternal(address, src, true);
      if |src| == 0 {
        assert Overlay(old(View()), address, src) == old(View());
      }
    }

    /**
     * Sets [offset, offset + len) to c through the unchecked overwrite, one scratch
     * buffer at a time; always returns 0. chunks lists the chunk sizes the loop wrote.
     */
    method Memset(offset: nat, c: byte, len: nat) returns (rc: int, ghost chunks: seq<nat>)
      requires Valid() && offset + len <= FlashSize
      modifies this, store
      ensures Valid() && rc == 0
      ensures View() == Fill(old(View()), offset, len, c)
      ensures len == 0 ==> isOpen == old(isOpen) && store[..] == old(store[..])
      ensures len > 0 ==> isOpen
      ensures BoundedChunks(chunks) && Total(chunks) == len
    {
      ghost var before := View();
      var buf := Repeat(c, ChunkSize);
      var off: nat, remaining: nat := offset, len;
      chunks := [];
      while remaining > 0
        invariant Valid() && off + remaining == offset + len && offset <= off
        invariant View() == Fill(before, offset, off - offset, c)
        invariant off == offset ==> isOpen == old(isOpen) && store[..] == old(store[..])
        invariant off > offset ==> isOpen
        invariant BoundedChunks(chunks) && Total(chunks) == off - offset
      {
        var chunkSz := if remaining > ChunkSize then ChunkSize else remaining;
        assert buf[..chunkSz] == Repeat(c, chunkSz);
        var r := Overwrite(off, buf[..chunkSz]);
        FillExtend(before, offset, off - offset, chunkSz, c);
        TotalAppend(chunks, chunkSz);
        chunks := chunks + [chunkSz];
        off := off + chunkSz;
        remaining := remaining - chunkSz;
      }
      rc := 0;
    }

    /**
     * Erases the sector that starts at sectorAddress and returns 0, or returns -1 when
     * no sector starts there. The store is opened first in either case.
     */
    method EraseSector(sectorAddress: nat) returns (rc: int)
      requires Valid()
      modifies this, store
      ensures Valid() && isOpen
      ensures rc == 0 || rc == -1
      ensures rc == 0 <==> sectorAddress in Sectors
      ensures forall i :: 0 <= i < NumAreas && Sectors[i] == sectorAddress ==>
                View() == Fill(old(View()), sectorAddress, FlashSectorLen(i), Erased)
      ensures rc == -1 ==> View() == old(View())
      ensures rc == -1 && old(isOpen) ==> store[..] == old(store[..])
      ensures rc == -1 && !old(isOpen) ==> store[..] == Repeat(Erased, FlashSize)
    {
      EnsureFileOpen();
      var areaId := FindArea(sectorAddress);
      if areaId == -1 {
        return -1;
      }
      var len := FlashSectorLen(areaId);
      ghost var chunks := Erase(sectorAddress, len);
      forall i | 0 <= i < NumAreas && Sectors[i] == sectorAddress
        ensures FlashSectorLen(i) == len
      {
        SectorStartUnique(i, areaId);
      }
      return 0;
    }

    /**
     * Init: with no path configured nothing happens; an existing file at the path is
     * reopened with its contents as they are; otherwise a new store is created and
     * erased. Always returns 0.
     */
    method Init(backing: BackingFile) returns (rc: int)
      requires Valid()
      requires backing.Existing? ==> |backing.contents| == FlashSize
      modifies this, store
      ensures Valid() && rc == 0
      ensures backing.NoPath? ==> isOpen == old(isOpen) && store[..] == old(store[..])
      ensures backing.Missing? ==> isOpen && store[..] == Repeat(Erased, FlashSize)
      ensures backing.Existing? ==> isOpen && store[..] == backing.contents
      ensures !backing.NoPath? ==> View() == store[..]
    {
      match backing {
        case NoPath =>
        case Existing(contents) =>
          isOpen := true;
          forall i | 0 <= i < FlashSize {
            store[i] := contents[i];
          }
          assert store[..] == contents;
        case Missing =>
          isOpen := true;
          ghost var chunks := Erase(0, FlashSize);
          FillWhole(old(store[..]), Erased);
      }
      rc := 0;
    }
  }
}
