/** The kernel's page allocator: first fit over the page flags, with a header page after
    each block. */
module Allocator {
  import opened Options
  import opened PageMap

  const PAGE_SIZE: nat := 0x1000
  const HIGH_VA: nat := 0xFFFF_0000_0000_0000

  /** The header at the start of a header page. */
  datatype MHeader = MHeader(size: nat, data: nat, initialSize: nat)

  function AddressOf(page: nat): nat {
    HIGH_VA + page * PAGE_SIZE
  }

  function IndexOf(address: nat): (page: nat)
    requires HIGH_VA <= address
    ensures address == AddressOf(page) + address % PAGE_SIZE
  {
    (address - HIGH_VA) / PAGE_SIZE
  }

  /** Page 0 starts where the kernel half does, each page 4096 bytes after the one before,
      and every byte of a page is found to be of that page. */
  lemma AddressesAre(page: nat, o: nat)
    requires o < 0x1000
    ensures AddressOf(0) == 0xFFFF_0000_0000_0000 && AddressOf(page + 1) == AddressOf(page) + 0x1000
    ensures IndexOf(AddressOf(page) + o) == page
  {
  }

  /** The number of data pages of a block of size bytes. */
  function DataPages(size: nat): (n: nat)
    ensures size <= n * PAGE_SIZE && (0 < size ==> (n - 1) * PAGE_SIZE < size)
  {
    (size + PAGE_SIZE - 1) / PAGE_SIZE
  }

  predicate HeaderOk(h: MHeader, s: nat, n: nat) {
    h.data == AddressOf(s) && h.size == n * PAGE_SIZE && DataPages(h.initialSize) == n
  }

  class Allocator {
    const pages: nat
    const flags: array<Flag>
    const headers: array<MHeader>
    ghost var blocks: Blocks
    ghost var singles: set<nat>

    ghost predicate Valid()
      reads this, flags, headers
    {
      && flags.Length == pages && headers.Length == pages && HIGH_VA + pages * PAGE_SIZE <= 0x1_0000_0000_0000_0000
      && Accounted(flags[..], blocks, singles) && HeadersOk(headers[..], blocks)
    }

    /** An allocator over a page map in which only single pages are in use. */
    constructor (map0: Flags)
      requires HIGH_VA + |map0| * PAGE_SIZE <= 0x1_0000_0000_0000_0000
      requires Header !in map0
      ensures Valid() && flags[..] == map0 && blocks == map[]
      ensures singles == set p: nat | p < |map0| && map0[p] == Occupied
      ensures fresh(flags) && fresh(headers)
    {
      pages := |map0|;
      flags := new Flag[|map0|](i requires 0 <= i < |map0| => map0[i]);
      headers := new MHeader[|map0|](i => MHeader(0, 0, 0));
      blocks, singles := map[], set p: nat | p < |map0| && map0[p] == Occupied;
      new;
      assert flags[..] == map0;
    }

    // ----- finding pages -----

    /** Whether the pages from index on are free, as far as memory goes. */
    method CheckMemory(index: nat, size: nat) returns (ok: bool)
      requires flags.Length == pages
      ensures ok <==> FreeToEnd(flags[..], index, size / PAGE_SIZE)
    {
      var i := 0;
      while i < size / PAGE_SIZE && index + i < pages
        invariant forall p: nat | index <= p < index + i && p < pages :: flags[p] == Free
      {
        if flags[index + i] != Free {
          return false;
        }
        i := i + 1;
      }
      return true;
    }

    /** Takes the lowest run of pages that passes the test; the last of them becomes a
        header page.  None if no place passes. */
    method GetFreePage(size: nat) returns (address: Option<nat>)
      requires flags.Length == pages && 2 <= size / PAGE_SIZE
      requires HasRoom(flags[..], size / PAGE_SIZE)
      modifies flags
      ensures address.Some? && HIGH_VA <= address.value && address.value == AddressOf(IndexOf(address.value))
      ensures var i, n := IndexOf(address.value), size / PAGE_SIZE;
              && LowestRun(old(flags[..]), i, n) && flags[..] == Taken(old(flags[..]), i, n - 1)
    {
      ghost var before, w: nat := flags[..], *;
      w :| FreeRun(flags[..], w, size / PAGE_SIZE);
      RunPasses(before, w, size / PAGE_SIZE);
      var i := 0;
      while i < pages
        invariant 0 <= i <= w && flags[..] == before
        invariant forall j: nat | j < i :: !FreeToEnd(before, j, size / PAGE_SIZE)
      {
        var ok := CheckMemory(i, size);
        if ok {
          FirstFitIff(before, i, size / PAGE_SIZE);
          MarkRun(i, size / PAGE_SIZE);
          return Some(HIGH_VA + i * PAGE_SIZE);
        }
        i := i + 1;
      }
      assert false;
    }

    /** Flags n pages from i on as the pages of a block. */
    method MarkRun(i: nat, n: nat)
      requires flags.Length == pages && 0 < n && i + n <= pages
      modifies flags
      ensures flags[..] == Taken(old(flags[..]), i, n - 1)
    {
      ghost var before := flags[..];
      var j := 0;
      while j < n
        invariant 0 <= j <= n
        invariant forall p: nat | p < pages ::
                    flags[p] == if i <= p < i + j then (if p == i + n - 1 then Header else Occupied) else before[p]
      {
        if j < n - 1 {
          flags[i + j] := Occupied;
        } else {
          flags[i + j] := Header;
        }
        j := j + 1;
      }
    }

    /** The first header page from a page on. */
    method GetHeader(index: nat) returns (h: Option<nat>)
      requires flags.Length == pages
      ensures FirstHeader(flags[..], index, h)
    {
      var i := index;
      while i < pages
        invariant index <= i && forall p: nat | index <= p < i && p < pages :: flags[p] != Header
      {
        if flags[i] == Header {
          return Some(i);
        }
        i := i + 1;
      }
      return None;
    }

    // ----- the interface -----

    /** Allocates the lowest run of free pages that takes size bytes and a header. */
    method Malloc(size: nat) returns (data: nat)
      requires Valid()
      requires 0 < size ==> HasRoom(flags[..], DataPages(size) + 1)
      modifies this`blocks, flags, headers
      ensures Valid()
      ensures size == 0 ==> data == 0 && blocks == old(blocks) && flags[..] == old(flags[..])
      ensures 0 < size ==> HIGH_VA <= data && data == AddressOf(IndexOf(data)) && IndexOf(data) !in old(blocks)
      ensures 0 < size ==> LowestRun(old(flags[..]), IndexOf(data), DataPages(size) + 1)
      ensures 0 < size ==> blocks == old(blocks)[IndexOf(data) := DataPages(size)]
      ensures 0 < size ==> flags[..] == Taken(old(flags[..]), IndexOf(data), DataPages(size))
      ensures 0 < size ==> headers[IndexOf(data) + DataPages(size)].initialSize == size
    {
      hide Accounted, Taken, FreeRun, HeadersOk;
      if size == 0 {
        return 0;
      }
      var rounded := (size + PAGE_SIZE - 1) / PAGE_SIZE * PAGE_SIZE;
      assert (PAGE_SIZE + rounded) / PAGE_SIZE == DataPages(size) + 1;
      var page := GetFreePage(PAGE_SIZE + rounded);
      data := page.value;
      ghost var i, n := IndexOf(data), DataPages(size);
      TakeKeeps(old(flags[..]), blocks, singles, i, n);
      HeadersKept(headers[..], old(flags[..]), blocks, singles, i, n, MHeader(rounded, data, size));
      headers[IndexOf(data + rounded)] := MHeader(rounded, data, size);
      blocks := blocks[i := n];
    }

    /** Frees the block that starts at data. */
    method FreeBlock(data: nat) returns (initialSize: nat)
      requires Valid() && HIGH_VA <= data && data == AddressOf(IndexOf(data)) && IndexOf(data) in blocks
      modifies this`blocks, flags
      ensures Valid() && blocks == old(blocks) - {IndexOf(data)}
      ensures IndexOf(data) + old(blocks[IndexOf(data)]) < pages
      ensures flags[..] == Released(old(flags[..]), IndexOf(data), old(blocks[IndexOf(data)]))
      ensures initialSize == headers[IndexOf(data) + old(blocks[IndexOf(data)])].initialSize
    {
      hide Accounted, Released;
      var index := IndexOf(data);
      ghost var n := blocks[index];
      ReleaseKeeps(flags[..], blocks, singles, index);
      BlockHeader(headers[..], blocks, index);
      var h := GetHeader(index);
      LiveBlock(flags[..], blocks, singles, index);
      OwnHeader(flags[..], index, blocks[index], h);
      initialSize := headers[h.value].initialSize;
      ClearRun(index, headers[h.value].size / PAGE_SIZE + 1);
      blocks := blocks - {index};
    }

    method ClearRun(i: nat, n: nat)
      requires flags.Length == pages && 0 < n && i + n <= pages
      modifies flags
      ensures flags[..] == Released(old(flags[..]), i, n - 1)
    {
      ghost var before := flags[..];
      var j := 0;
      while j < n
        invariant 0 <= j <= n
        invariant forall p: nat | p < pages :: flags[p] == if i <= p < i + j then Free else before[p]
      {
        flags[i + j] := Free;
        j := j + 1;
      }
    }

    /** The size that was asked for when the block at data was allocated.  It is the size
        of the block exactly if it is a whole number of pages. */
    method MemorySize(data: nat) returns (initialSize: nat)
      requires Valid() && HIGH_VA <= data && data == AddressOf(IndexOf(data)) && IndexOf(data) in blocks
      ensures IndexOf(data) + blocks[IndexOf(data)] < pages
      ensures initialSize == headers[IndexOf(data) + blocks[IndexOf(data)]].initialSize
      ensures initialSize == blocks[IndexOf(data)] * PAGE_SIZE <==> initialSize % PAGE_SIZE == 0
    {
      hide Accounted;
      var index := IndexOf(data);
      BlockHeader(headers[..], blocks, index);
      var h := GetHeader(index);
      LiveBlock(flags[..], blocks, singles, index);
      OwnHeader(flags[..], index, blocks[index], h);
      return headers[h.value].initialSize;
    }

    /** Takes the lowest free page for a table; 0 if there is none. */
    method GetPhysicalPage() returns (address: nat)
      requires Valid()
      modifies this`singles, flags
      ensures Valid()
      ensures Free !in old(flags[..]) ==> address == 0 && singles == old(singles) && flags[..] == old(flags[..])
      ensures forall i: nat | LowestFree(old(flags[..]), i) ::
                address == i * PAGE_SIZE && singles == old(singles) + {i} && flags[..] == old(flags[..])[i := Occupied]
    {
      hide Accounted;
      var i := 0;
      while i < pages
        invariant 0 <= i <= pages && singles == old(singles) && flags[..] == old(flags[..])
        invariant Valid() && forall p: nat | p < i :: flags[p] != Free
      {
        if flags[i] == Free {
          SingleKeeps(flags[..], blocks, singles, i);
          flags[i] := Occupied;
          singles := singles + {i};
          return i * PAGE_SIZE;
        }
        i := i + 1;
      }
      return 0;
    }
  }

  ghost predicate HeadersOk(headers: seq<MHeader>, blocks: Blocks) {
    forall s | s in blocks :: s + blocks[s] < |headers| && HeaderOk(headers[s + blocks[s]], s, blocks[s])
  }

  lemma BlockHeader(headers: seq<MHeader>, blocks: Blocks, s: nat)
    requires HeadersOk(headers, blocks) && s in blocks
    ensures s + blocks[s] < |headers| && headers[s + blocks[s]].size / PAGE_SIZE == blocks[s]
    ensures headers[s + blocks[s]].initialSize == blocks[s] * PAGE_SIZE
            <==> headers[s + blocks[s]].initialSize % PAGE_SIZE == 0
  {
    WholePages(headers[s + blocks[s]].initialSize);
  }

  lemma BlockSize(headers: seq<MHeader>, blocks: Blocks, s: nat)
    requires HeadersOk(headers, blocks) && s in blocks
    ensures s + blocks[s] < |headers| && headers[s + blocks[s]].size == blocks[s] * PAGE_SIZE
  {
  }

  lemma WholePages(size: nat)
    ensures size == DataPages(size) * PAGE_SIZE <==> size % PAGE_SIZE == 0
  {
    if size % PAGE_SIZE == 0 {
      var k := size / PAGE_SIZE;
      assert size == k * PAGE_SIZE && DataPages(size) == k;
    }
  }

  lemma HeadersKept(headers: seq<MHeader>, flags: Flags, blocks: Blocks, singles: set<nat>, i: nat, n: nat, h: MHeader)
    requires Accounted(flags, blocks, singles) && FreeRun(flags, i, n + 1) && i !in blocks
    requires HeadersOk(headers, blocks) && |headers| == |flags| && HeaderOk(h, i, n)
    ensures i + n < |headers| && HeadersOk(headers[i + n := h], blocks[i := n])
  {
    hide HeaderOk, Accounted;
    TakeDisjoint(flags, blocks, singles, i, n);
  }

  /** Freeing what was just allocated restores the page map and the live blocks. */
  method AllocateAndFree(a: Allocator, size: nat) returns (freed: nat)
    requires a.Valid() && 0 < size && HasRoom(a.flags[..], DataPages(size) + 1)
    modifies a, a.flags, a.headers
    ensures a.Valid() && a.flags[..] == old(a.flags[..]) && a.blocks == old(a.blocks) && freed == size
  {
    hide Accounted, Taken, Released, FreeRun;
    var data := a.Malloc(size);
    ReleaseUndoesTake(old(a.flags[..]), IndexOf(data), DataPages(size));
    freed := a.FreeBlock(data);
  }

  /** One byte is reported as one byte, although it takes a page. */
  method MeasureOneByte() returns (reported: nat, room: nat)
    ensures reported == 1 && room == PAGE_SIZE
  {
    hide Accounted, Taken, LowestRun, HasRoom, FreeRun, HeadersOk;
    var a := new Allocator([Free, Free]);
    RoomForTwo();
    assert DataPages(1) == 1;
    var data := a.Malloc(1);
    reported := a.MemorySize(data);
    BlockSize(a.headers[..], a.blocks, IndexOf(data));
    room := a.headers[IndexOf(data) + 1].size;
  }

  lemma RoomForTwo()
    ensures HasRoom([Free, Free], 2)
  {
    assert FreeRun([Free, Free], 0, 2);
  }
}
