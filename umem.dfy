/** The UMEM area of an AF_XDP socket: a fixed number of equal-size pages.
    Each page starts with a 2-byte header (`HeadRoom`) that links free pages
    into an intrusive singly-linked list; the payload buffer follows it. */
module XdpUmem {
  import opened XdpCommon

  /** `size_of::<HeadRoom>()`: the header is a single `u16`. */
  const HEADROOM: nat := 2

  /** The page sizes the allocator accepts. */
  predicate IsAlignment(a: nat) { a == 2048 || a == 4096 }

  datatype ChunkAlignment = TwoK | FourK {
    /** `From<ChunkAlignment> for usize`: the page size in bytes. */
    function Bytes(): (n: nat)
      ensures IsAlignment(n) && HEADROOM < n
      ensures n == 2048 <==> this == TwoK
    {
      match this
      case TwoK => 2048
      case FourK => 4096
    }
  }

  datatype UmemConfig = UmemConfig(entries: nat, alignment: ChunkAlignment)

  /** A page header. The raw `u16` holds the id of the next free page;
      `U16_MAX` encodes "no next page". */
  datatype HeadRoom = HeadRoom(raw: u16) {
    function FreePageId(): (id: Option<u16>)
      ensures id.None? <==> raw == U16_MAX
      ensures id.Some? ==> id.value == raw
    {
      if raw == U16_MAX then None else Some(raw)
    }

    function SetFreePageId(id: Option<u16>): (h: HeadRoom)
      ensures id != Some(U16_MAX) ==> h.FreePageId() == id
      ensures id == Some(U16_MAX) ==> h.FreePageId() == None
    {
      HeadRoom(match id case Some(v) => v case None => U16_MAX)
    }
  }

  /** The sentinel encoding loses exactly one value: a link to page `U16_MAX`. */
  lemma HeadRoomRoundTrip(h: HeadRoom, id: Option<u16>)
    ensures h.SetFreePageId(id).FreePageId() == id <==> (id.None? || id.value != U16_MAX)
    ensures h.SetFreePageId(Some(U16_MAX)).FreePageId() == None
  {
  }

  // ---------------------------------------------------------------------------
  // Descriptors and page ids

  /** The descriptor address of page `id`: the byte just after its header. */
  function DescAddrFrom(id: nat, alignment: nat): (addr: nat)
    ensures IsAlignment(alignment) ==> addr % alignment == HEADROOM
  {
    id * alignment + HEADROOM
  }

  /** The page a descriptor points into. */
  function PageIdFrom(d: XdpDesc, alignment: nat): (id: nat)
    requires alignment > 0
    ensures id * alignment <= d.addr < id * alignment + alignment
  {
    d.addr / alignment
  }

  /** The descriptor that offers the whole payload area of page `id`. */
  function FullPageDesc(id: nat, alignment: nat): (d: XdpDesc)
    requires IsAlignment(alignment) && id < 0x1_0000
    ensures PageIdFrom(d, alignment) == id && PacketFits(alignment - HEADROOM, d)
    ensures d.len == alignment - HEADROOM && d.options == 0
  {
    XdpDesc(DescAddrFrom(id, alignment), alignment - HEADROOM, 0)
  }

  lemma PageIdRoundTrip(id: nat, alignment: nat, d: XdpDesc)
    requires IsAlignment(alignment)
    requires d.addr == DescAddrFrom(id, alignment)
    ensures PageIdFrom(d, alignment) == id
    ensures d.addr % alignment == HEADROOM
  {
  }

  /** One full-page descriptor per page, in page order. */
  function PacketDescriptors(size: nat, alignment: nat): (ds: seq<XdpDesc>)
    requires IsAlignment(alignment) && size <= 0x1_0000
    ensures |ds| == size
    ensures forall i :: 0 <= i < size ==> ds[i] == FullPageDesc(i, alignment)
  {
    seq(size, i requires 0 <= i < size => FullPageDesc(i, alignment))
  }

  /** Every descriptor of `PacketDescriptors` points back at its own page and
      covers that page's whole payload area. */
  lemma PacketDescriptorsCoverPages(size: nat, alignment: nat, i: nat, buffer: seq<bv8>)
    requires IsAlignment(alignment) && size <= 0x1_0000 && i < size
    requires |buffer| == alignment - HEADROOM
    ensures PageIdFrom(PacketDescriptors(size, alignment)[i], alignment) == i
    ensures PacketFits(|buffer|, PacketDescriptors(size, alignment)[i])
    ensures ReadPacket(buffer, PacketDescriptors(size, alignment)[i]) == buffer
  {
    var d := PacketDescriptors(size, alignment)[i];
    PageIdRoundTrip(i, alignment, d);
    assert d.addr % (HEADROOM + |buffer|) == HEADROOM;
  }

  // ---------------------------------------------------------------------------
  // Packet bytes inside a page

  /** `read_packet` stays inside the payload buffer: the offset of the
      address within its page is at least the header size, and the packet
      ends within the buffer. */
  predicate PacketFits(bufferLen: nat, d: XdpDesc) {
    var off := d.addr % (HEADROOM + bufferLen);
    HEADROOM <= off && off - HEADROOM + d.len <= bufferLen
  }

  /** `UmemPage::read_packet`: the page length is the header plus the buffer. */
  function ReadPacket(buffer: seq<bv8>, d: XdpDesc): (p: seq<bv8>)
    requires PacketFits(|buffer|, d)
    ensures |p| == d.len
  {
    var off := d.addr % (HEADROOM + |buffer|) - HEADROOM;
    buffer[off .. off + d.len]
  }

  /** `UmemPage::write_packet`: `buf` overwrites the start of the buffer. */
  function WritePacket(buffer: seq<bv8>, buf: seq<bv8>): (b: seq<bv8>)
    requires |buf| <= |buffer|
    ensures |b| == |buffer|
  {
    buf + buffer[|buf|..]
  }

  /** Writing a packet into page `id` and reading it back through the
      descriptor `write` returns gives back exactly the packet. */
  lemma WriteReadRoundTrip(buffer: seq<bv8>, buf: seq<bv8>, id: nat, alignment: nat)
    requires IsAlignment(alignment) && |buffer| == alignment - HEADROOM
    requires |buf| <= |buffer| && id < 0x1_0000
    ensures var d := XdpDesc(DescAddrFrom(id, alignment), |buf|, 0);
      PacketFits(|buffer|, d) && ReadPacket(WritePacket(buffer, buf), d) == buf
  {
    var d := XdpDesc(DescAddrFrom(id, alignment), |buf|, 0);
    PageIdRoundTrip(id, alignment, d);
    assert d.addr % (HEADROOM + |buffer|) == HEADROOM;
  }

  // ---------------------------------------------------------------------------
  // The free list

  /** `xs` is the chain of pages reached from `head` by following header
      links, ending at a page whose header holds no link. */
  ghost predicate IsFreeList(hs: seq<HeadRoom>, head: Option<u16>, xs: seq<u16>) {
    && (if xs == [] then head.None? else head == Some(xs[0]))
    && (forall i :: 0 <= i < |xs| ==> xs[i] < |hs|)
    && (forall i :: 0 <= i < |xs| - 1 ==> hs[xs[i]].FreePageId() == Some(xs[i + 1]))
    && (xs != [] ==> hs[xs[|xs| - 1]].FreePageId() == None)
  }

  /** The allocator's invariant: the free list is `xs`, and every page off the
      list (handed out by `write`) has its link cleared. */
  ghost predicate WellFormed(hs: seq<HeadRoom>, head: Option<u16>, xs: seq<u16>) {
    && IsFreeList(hs, head, xs)
    && forall p :: 0 <= p < |hs| && p !in xs ==> hs[p].FreePageId() == None
  }

  /** Every link, and the head, names an existing page. */
  predicate LinksInRange(hs: seq<HeadRoom>, head: Option<u16>) {
    && (head.Some? ==> head.value < |hs|)
    && forall i :: 0 <= i < |hs| ==> hs[i].FreePageId().None? || hs[i].FreePageId().value < |hs|
  }

  predicate Distinct(xs: seq<u16>) {
    forall i, j :: 0 <= i < j < |xs| ==> xs[i] != xs[j]
  }

  /** The headers after `write` takes page `id`: its link is cleared. */
  function PopHeaders(hs: seq<HeadRoom>, id: nat): (r: seq<HeadRoom>)
    requires id < |hs|
    ensures |r| == |hs| && r[id].FreePageId() == None
    ensures forall j :: 0 <= j < |hs| && j != id ==> r[j] == hs[j]
  {
    hs[id := hs[id].SetFreePageId(None)]
  }

  /** The headers after `free(p)`: `p` links to the old head when there was one
      and keeps its header otherwise. */
  function PushHeaders(hs: seq<HeadRoom>, head: Option<u16>, p: nat): (r: seq<HeadRoom>)
    requires p < |hs|
    ensures |r| == |hs|
    ensures head.Some? && head.value != U16_MAX ==> r[p].FreePageId() == head
    ensures head.None? ==> r[p] == hs[p]
    ensures forall j :: 0 <= j < |hs| && j != p ==> r[j] == hs[j]
  {
    if head.Some? then hs[p := hs[p].SetFreePageId(head)] else hs
  }

  lemma FreeListTail(hs: seq<HeadRoom>, head: Option<u16>, xs: seq<u16>)
    requires IsFreeList(hs, head, xs) && xs != []
    ensures IsFreeList(hs, hs[xs[0]].FreePageId(), xs[1..])
  {
  }

  /** The links determine the free list: there is at most one. */
  lemma {:induction false} FreeListUnique(hs: seq<HeadRoom>, head: Option<u16>, xs: seq<u16>, ys: seq<u16>)
    requires IsFreeList(hs, head, xs) && IsFreeList(hs, head, ys)
    ensures xs == ys
    decreases |xs|
  {
    if xs != [] {
      FreeListTail(hs, head, xs);
      FreeListTail(hs, head, ys);
      FreeListUnique(hs, hs[xs[0]].FreePageId(), xs[1..], ys[1..]);
    }
  }

  /** Two positions of a free list hold different pages: their links
      differ, by induction from the end of the list. */
  lemma {:induction false} FreeListNoRepeat(hs: seq<HeadRoom>, head: Option<u16>, xs: seq<u16>, i: nat, j: nat)
    requires IsFreeList(hs, head, xs) && i < j < |xs|
    ensures xs[i] != xs[j]
    decreases |xs| - j
  {
    if j < |xs| - 1 {
      FreeListNoRepeat(hs, head, xs, i + 1, j + 1);
      assert hs[xs[j]].FreePageId() == Some(xs[j + 1]);
    }
    assert hs[xs[i]].FreePageId() == Some(xs[i + 1]);
  }

  /** A free list never visits a page twice (it is acyclic). */
  lemma FreeListDistinct(hs: seq<HeadRoom>, head: Option<u16>, xs: seq<u16>)
    requires IsFreeList(hs, head, xs)
    ensures Distinct(xs)
  {
    forall i, j | 0 <= i < j < |xs|
      ensures xs[i] != xs[j]
    {
      FreeListNoRepeat(hs, head, xs, i, j);
    }
  }

  lemma WellFormedLinksInRange(hs: seq<HeadRoom>, head: Option<u16>, xs: seq<u16>)
    requires WellFormed(hs, head, xs)
    ensures LinksInRange(hs, head)
  {
    forall i | 0 <= i < |hs| && hs[i].FreePageId().Some?
      ensures hs[i].FreePageId().value < |hs|
    {
      assert i in xs;
      var k :| 0 <= k < |xs| && xs[k] == i;
      assert k < |xs| - 1;
      assert hs[xs[k]].FreePageId() == Some(xs[k + 1]);
    }
  }

  /** `write` takes the head of the list: the list loses its first page and
      the allocator stays well formed. */
  lemma PopFreeList(hs: seq<HeadRoom>, head: Option<u16>, xs: seq<u16>)
    requires WellFormed(hs, head, xs) && xs != []
    ensures WellFormed(PopHeaders(hs, xs[0]), hs[xs[0]].FreePageId(), xs[1..])
  {
    FreeListDistinct(hs, head, xs);
    var hs' := PopHeaders(hs, xs[0]);
    var ys := xs[1..];
    forall i | 0 <= i < |ys| ensures hs'[ys[i]] == hs[ys[i]] {
      assert ys[i] == xs[i + 1];
    }
  }

  /** `free(p)` of a page not on the list puts it in front: the list grows by
      exactly `p`, stays duplicate-free, and the allocator stays well formed. */
  lemma PushFreeList(hs: seq<HeadRoom>, head: Option<u16>, xs: seq<u16>, p: u16)
    requires WellFormed(hs, head, xs) && p < |hs| && p !in xs && |hs| <= 0xFFFF
    ensures WellFormed(PushHeaders(hs, head, p), Some(p), [p] + xs)
    ensures Distinct([p] + xs)
  {
    FreeListDistinct(hs, head, xs);
    var hs' := PushHeaders(hs, head, p);
    var ys := [p] + xs;
    forall i | 1 <= i < |ys| ensures hs'[ys[i]] == hs[ys[i]] {
      assert ys[i] == xs[i - 1];
    }
    assert IsFreeList(hs', Some(p), ys);
  }

  /** LIFO: after `free(p)`, `write` hands out `p` again, the head returns to
      its old value and only `p`'s header differs from the original (it is
      cleared). */
  lemma FreeThenWriteReuses(hs: seq<HeadRoom>, head: Option<u16>, p: nat)
    requires p < |hs| <= 0xFFFF && LinksInRange(hs, head)
    requires head.None? ==> hs[p].FreePageId() == None
    ensures PushHeaders(hs, head, p)[p].FreePageId() == head
    ensures PopHeaders(PushHeaders(hs, head, p), p) == PopHeaders(hs, p)
  {
  }

  /** A `write` whose page is given straight back with `free` leaves the
      headers and the head exactly as they were. */
  lemma WriteThenFreeRestores(hs: seq<HeadRoom>, id: u16)
    requires id < |hs|
    ensures PushHeaders(PopHeaders(hs, id), hs[id].FreePageId(), id) == hs
  {
    assert PushHeaders(PopHeaders(hs, id), hs[id].FreePageId(), id)[id] == hs[id];
  }

  // ---------------------------------------------------------------------------
  // Construction

  /** The pages `0, 1, ..., n-1`. */
  function Range(n: nat): (r: seq<u16>)
    requires n <= 0x1_0000
    ensures |r| == n && forall i :: 0 <= i < n ==> r[i] == i
  {
    seq(n, i requires 0 <= i < n => i)
  }

  /** The headers `Umem::new` writes: page `i` links to `i + 1`, the last page
      to nothing. */
  function InitialHeaders(n: nat): (hs: seq<HeadRoom>)
    requires n <= 0xFFFF
    ensures |hs| == n
    ensures forall i :: 0 <= i < n - 1 ==> hs[i].FreePageId() == Some(i + 1)
    ensures n > 0 ==> hs[n - 1].FreePageId() == None
  {
    var hs := seq(n, i requires 0 <= i < n => HeadRoom(0).SetFreePageId(if i == n - 1 then None else Some(i + 1)));
    assert n > 0 ==> hs[n - 1] == HeadRoom(0).SetFreePageId(None);
    hs
  }

  /** After construction the free list is every page in order, and every page
      is free. */
  lemma InitialFreeList(n: nat)
    requires 1 <= n <= 0xFFFF
    ensures WellFormed(InitialHeaders(n), Some(0), Range(n))
    ensures forall p :: 0 <= p < n ==> p in Range(n)
  {
    var hs, xs := InitialHeaders(n), Range(n);
    assert xs[0] == 0 && xs[n - 1] == n - 1;
    assert hs[n - 1] == HeadRoom(0).SetFreePageId(None);
    forall i | 0 <= i < |xs| - 1 ensures hs[xs[i]].FreePageId() == Some(xs[i + 1]) {
      assert xs[i] == i && xs[i + 1] == i + 1;
    }
    forall p | 0 <= p < n ensures p in xs {
      assert xs[p] == p;
    }
  }

  /** The headers `Umem::new` writes for any `entries`, with the cast
      `(i + 1) as u16` truncating to 16 bits as Rust's `as` does. */
  function InitialHeadersAsWritten(n: nat): (hs: seq<HeadRoom>)
    ensures |hs| == n
    ensures forall i :: 0 <= i < n - 1 && (i + 1) % 0x1_0000 != U16_MAX ==> hs[i].FreePageId() == Some((i + 1) % 0x1_0000)
    ensures forall i :: 0 <= i < n - 1 && (i + 1) % 0x1_0000 == U16_MAX ==> hs[i].FreePageId() == None
    ensures n > 0 ==> hs[n - 1].FreePageId() == None
  {
    var hs := seq(n, i requires 0 <= i < n => HeadRoom(0).SetFreePageId(if i == n - 1 then None else Some((i + 1) % 0x1_0000)));
    assert n > 0 ==> hs[n - 1] == HeadRoom(0).SetFreePageId(None);
    hs
  }

  lemma InitialHeadersAsWrittenAgrees(n: nat)
    requires n <= 0xFFFF
    ensures InitialHeadersAsWritten(n) == InitialHeaders(n)
  {
  }

  /** With 65536 entries page 65534 links to 65535, which reads back as "no
      next page": the free list from page 0 is pages 0..65534, it is the only
      one, and page 65535 can never be allocated. */
  lemma AsWrittenLosesLastPage()
    ensures IsFreeList(InitialHeadersAsWritten(0x1_0000), Some(0), Range(0xFFFF))
    ensures 0xFFFF !in Range(0xFFFF)
    ensures forall xs :: IsFreeList(InitialHeadersAsWritten(0x1_0000), Some(0), xs) ==> xs == Range(0xFFFF)
  {
    var hs := InitialHeadersAsWritten(0x1_0000);
    var ys := Range(0xFFFF);
    forall i | 0 <= i < |ys| - 1 ensures hs[ys[i]].FreePageId() == Some(ys[i + 1]) {
      assert ys[i] == i && ys[i + 1] == i + 1;
    }
    assert hs[ys[|ys| - 1]].FreePageId() == None;
    assert IsFreeList(hs, Some(0), ys);
    forall xs | IsFreeList(hs, Some(0), xs) ensures xs == ys {
      FreeListUnique(hs, Some(0), xs, ys);
    }
  }

  // ---------------------------------------------------------------------------
  // The allocator

  class Umem {
    /** The page size in bytes. */
    const alignment: nat
    /** Each page's header. */
    const headers: array<HeadRoom>
    /** Each page's payload area (the page after its header). */
    const buffers: array<seq<bv8>>
    /** The head of the free list. */
    var freePageId: Option<u16>

    ghost predicate Valid()
      reads this, headers, buffers
    {
      && IsAlignment(alignment)
      && 1 <= headers.Length <= 0xFFFF
      && buffers.Length == headers.Length
      && (forall i :: 0 <= i < buffers.Length ==> |buffers[i]| == alignment - HEADROOM)
      && LinksInRange(headers[..], freePageId)
    }

    /** `Umem::size`: the number of pages, each a header and a payload buffer. */
    function Size(): (n: nat)
      reads this, headers, buffers
      requires Valid()
      ensures 1 <= n <= 0xFFFF && n == headers.Length == buffers.Length
    {
      headers.Length
    }

    /** `Umem::new`: zeroed pages, all linked in order, head at page 0. */
    constructor (config: UmemConfig)
      requires 1 <= config.entries <= 0xFFFF
      ensures Valid() && fresh(headers) && fresh(buffers)
      ensures alignment == config.alignment.Bytes() && headers.Length == config.entries
      ensures headers[..] == InitialHeaders(config.entries) && freePageId == Some(0)
      ensures forall i :: 0 <= i < buffers.Length ==> buffers[i] == Zeros(alignment - HEADROOM)
    {
      var n := config.entries;
      var a := config.alignment.Bytes();
      alignment := a;
      headers := new HeadRoom[n](_ => HeadRoom(0));
      buffers := new seq<bv8>[n](_ => Zeros(a - HEADROOM));
      freePageId := Some(0);
      new;
      for i := 0 to n
        invariant freePageId == Some(0)
        invariant forall k :: 0 <= k < n ==> buffers[k] == Zeros(a - HEADROOM)
        invariant forall k :: 0 <= k < i ==> headers[k] == InitialHeaders(n)[k]
      {
        var next: Option<u16> := if i == n - 1 then None else Some(i + 1);
        headers[i] := headers[i].SetFreePageId(next);
      }
      assert headers[..] == InitialHeaders(n);
      InitialFreeList(n);
      WellFormedLinksInRange(headers[..], freePageId, Range(n));
    }

    /** `Umem::write`: take the head page, clear its link, copy `buf` into it. */
    method Write(buf: seq<bv8>) returns (r: Result<XdpDesc>)
      requires Valid()
      requires freePageId.Some? ==> |buf| <= alignment - HEADROOM
      modifies this, headers, buffers
      ensures Valid()
      ensures r.Err? ==> r.error == WouldBlock
      ensures old(freePageId).None? ==>
        && r.Err?
        && unchanged(this, headers, buffers)
      ensures old(freePageId).Some? ==>
        var id := old(freePageId).value;
        && r == Ok(XdpDesc(DescAddrFrom(id, alignment), |buf|, 0))
        && freePageId == old(headers[id]).FreePageId()
        && headers[..] == PopHeaders(old(headers[..]), id)
        && buffers[..] == old(buffers[..])[id := WritePacket(old(buffers[id]), buf)]
    {
      if freePageId.None? {
        return Err(WouldBlock);
      }
      var id := freePageId.value;
      var next := headers[id].FreePageId();
      headers[id] := headers[id].SetFreePageId(None);
      buffers[id] := WritePacket(buffers[id], buf);
      freePageId := next;
      r := Ok(XdpDesc(DescAddrFrom(id, alignment), |buf|, 0));
    }

    /** `Umem::free`: push `pageId` on the list and return its full-page descriptor. */
    method Free(pageId: nat) returns (d: XdpDesc)
      requires Valid() && pageId < Size()
      modifies this, headers
      ensures Valid()
      ensures freePageId == Some(pageId)
      ensures headers[..] == PushHeaders(old(headers[..]), old(freePageId), pageId)
      ensures d == FullPageDesc(pageId, alignment)
    {
      var last := freePageId;
      if last.Some? {
        headers[pageId] := headers[pageId].SetFreePageId(last);
      }
      freePageId := Some(pageId);
      d := XdpDesc(DescAddrFrom(pageId, alignment), alignment - HEADROOM, 0);
    }
  }
}
