# AF_XDP device of smoltcp-contrib, modelled in Dafny

This project models the user-space half of the AF_XDP packet device in
smoltcp-contrib, together with the small XDP program that steers frames to it.
There are four layers:

- **UMEM allocator** (`umem.dfy`, module `XdpUmem`). The UMEM is a fixed
  number of 2048- or 4096-byte pages. The first two bytes of each page are a
  `HeadRoom` header holding a `u16` link. The links chain the free pages into
  an intrusive LIFO list, and `u16::MAX` ends the list.
  - `Umem` is a class. Its headers and payload buffers are arrays, and the
    list head is a field.
  - `Write` and `Free` update that state in place. Each is specified
    against the pure step functions `PopHeaders` and `PushHeaders`.
  - The free-list shape is stated by `IsFreeList` and `WellFormed`. Lemmas
    about the step functions prove that the list is acyclic, duplicate-free
    and LIFO.
- **Descriptor rings** (`rings.dfy`, module `XdpRings`). Each ring is a
  power-of-two array of `xdp_desc` slots with a free-running consumer and
  producer counter.
  - `XdpRing` keeps the counters as unbounded naturals. `Read` and `Write`
    index the slots the way the source does: `counter & mask` on the `u32`
    counter, where `&` is `BitAnd`, bitwise AND on naturals.
  - `MaskedSlot` proves that this index is `counter % size` of the unbounded
    counter, which is the slot the pending-queue specification uses.
  - The ghost `Pending()` sequence holds the entries in flight. `Read` pops
    its front and `Write` appends to it.
- **Device** (`device.dfy`, module `XdpDevice`). `XdpSocket` owns one UMEM and
  the tx, rx, completion and fill rings.
  - `Receive` copies a received frame out and recycles its page through the
    fill ring.
  - `Consume` is the transmit token: it reclaims at most one completed page
    and sends one frame.
  - `Open` builds the whole device and primes the fill ring.
- **Redirect decision** (`redirect.dfy`, module `XdpRedirect`). The XDP
  program looks up the frame's receive queue in `socket_map`. On a hit it
  redirects the frame to that queue's socket; on a miss it returns
  `XDP_PASS`. Either way it emits exactly one trace record.
  - The map is an XSKMAP from `u32` queue index to `u32` socket.
  - The kernel's redirect status and the address of the entry the lookup
    finds are parameters.

Shared types live in `common.dfy` (module `XdpCommon`): `Option`, the
`io::ErrorKind`s used, `Result`, the fixed-width integer ranges and `xdp_desc`.

The kernel side of the rings is held fixed. The model exposes no steps by
which the kernel fills the rx or completion ring or drains the tx or fill
ring. The device's `Valid()` states what the kernel promises about the
descriptors it hands back:
- every rx descriptor lies inside one page's payload area;
- every completion descriptor names an existing page.

## Model

| member | source | states |
|---|---|---|
| XdpUmem.ChunkAlignment.Bytes | src/phy/xdp/umem.rs:227-234 | the page size is 2048 exactly for `TwoK`, otherwise 4096, and always exceeds the 2-byte header |
| XdpUmem.HeadRoomRoundTrip | src/phy/xdp/umem.rs:201-212 | storing a link and reading it back returns it exactly when it is `None` or not `u16::MAX`; a link to `u16::MAX` reads back as `None` |
| XdpUmem.HeadRoom.FreePageId | src/phy/xdp/umem.rs:202-208 | the stored link reads as `None` exactly when it is `u16::MAX`, and as the stored value otherwise |
| XdpUmem.HeadRoom.SetFreePageId | src/phy/xdp/umem.rs:210-212 | a stored link reads back unchanged unless it is `Some(u16::MAX)`, which reads back as `None` |
| XdpUmem.DescAddrFrom | src/phy/xdp/umem.rs:96-98 | a page's descriptor address lies 2 bytes (the header) into its page |
| XdpUmem.PageIdFrom | src/phy/xdp/umem.rs:92-94 | the page id is the page whose byte range contains the descriptor's address |
| XdpUmem.FullPageDesc | src/phy/xdp/umem.rs:109-113 | the descriptor maps back to its page, covers the whole payload area (`alignment - 2` bytes) and fits in the page; options 0 |
| XdpUmem.PopHeaders | src/phy/xdp/umem.rs:126-127 | the taken page's link reads as `None`; every other header is unchanged |
| XdpUmem.PushHeaders | src/phy/xdp/umem.rs:101-105 | the freed page links to the old head when there was one and keeps its header otherwise; every other header is unchanged |
| XdpUmem.InitialHeaders | src/phy/xdp/umem.rs:46-60 | n headers; page i links to i+1 and the last page to nothing |
| XdpUmem.InitialHeadersAsWritten | src/phy/xdp/umem.rs:46-60 | n headers; page i links to `(i+1) mod 2^16`, which reads as no link when it is 65535; the last page links to nothing |
| XdpUmem.PageIdRoundTrip | src/phy/xdp/umem.rs:92-98 | `page_id_from` inverts `desc_addr_from`: the address of page `id` maps back to `id`, at offset 2 within its page |
| XdpUmem.PacketDescriptors | src/phy/xdp/umem.rs:139-147 | one descriptor per page, in page order, the i-th being the full-page descriptor of page i (addr `i*alignment+2`, len `alignment-2`, options 0) |
| XdpUmem.PacketDescriptorsCoverPages | src/phy/xdp/umem.rs:139-147 | each of those descriptors maps back to its own page, fits inside that page, and reads back the whole payload area |
| XdpUmem.ReadPacket | src/phy/xdp/umem.rs:175-179 | a packet read through a descriptor that fits the page has exactly the descriptor's length |
| XdpUmem.WritePacket | src/phy/xdp/umem.rs:181-186 | writing a packet keeps the payload area's length |
| XdpUmem.WriteReadRoundTrip | src/phy/xdp/umem.rs:116-137 | writing `buf` into page `id` and reading through the descriptor `write` returns gives back exactly `buf` |
| XdpUmem.FreeListTail | src/phy/xdp/umem.rs:126-130 | following the head's link leaves the rest of the free list |
| XdpUmem.FreeListUnique | src/phy/xdp/umem.rs:126-130 | the header links determine the free list: two lists from the same head are equal |
| XdpUmem.FreeListNoRepeat | src/phy/xdp/umem.rs:126-130 | two positions of a free list name different pages |
| XdpUmem.FreeListDistinct | src/phy/xdp/umem.rs:126-130 | a free list is duplicate-free (acyclic) |
| XdpUmem.WellFormedLinksInRange | src/phy/xdp/umem.rs:116-130 | in a well-formed allocator every link and the head name an existing page |
| XdpUmem.PopFreeList | src/phy/xdp/umem.rs:116-131 | `write` removes exactly the head page from the free list and keeps the allocator well formed |
| XdpUmem.PushFreeList | src/phy/xdp/umem.rs:100-107 | `free(p)` of a page not on the list puts `p` in front; the list stays duplicate-free and well formed |
| XdpUmem.FreeThenWriteReuses | src/phy/xdp/umem.rs:100-130 | LIFO: after `free(p)` page `p` links to the old head, so the next `write` takes `p` and moves the head back; the headers then equal those of taking `p` directly |
| XdpUmem.WriteThenFreeRestores | src/phy/xdp/umem.rs:100-130 | a `write` whose page is freed straight away leaves the headers and head as they were |
| XdpUmem.InitialFreeList | src/phy/xdp/umem.rs:46-65 | after construction the free list from head 0 is pages 0, 1, …, n-1 in order, then ends; every page is free |
| XdpUmem.InitialHeadersAsWrittenAgrees | src/phy/xdp/umem.rs:52-56 | for at most 65535 entries the truncating cast changes nothing |
| XdpUmem.AsWrittenLosesLastPage | src/phy/xdp/umem.rs:52-56 | with 65536 entries the headers built as written form the free list 0..65534 from head 0, and that is the only free list they form: page 65535 is not on it |
| XdpUmem.Umem.constructor | src/phy/xdp/umem.rs:22-66 | `Umem::new`: zeroed pages, headers linking page i to i+1 and the last page to nothing, head `Some(0)` |
| XdpUmem.Umem.Size | src/phy/xdp/umem.rs:73-75 | the number of pages (headers and payload buffers alike), between 1 and 65535 |
| XdpUmem.Umem.Write | src/phy/xdp/umem.rs:116-137 | empty list: WouldBlock and no state change; otherwise the head page's link is cleared, the head moves to its successor, `buf` is copied in, and the descriptor has addr `id*alignment+2` and len `buf.len()` |
| XdpUmem.Umem.Free | src/phy/xdp/umem.rs:100-114 | the head becomes `p`; `p` links to the old head when there was one; the result is `p`'s full-page descriptor |
| XdpRings.IsPowerOfTwo | src/phy/xdp/rings.rs:45 | `is_power_of_two`: only positive numbers pass, and any passing number other than 1 is even (`PowerOfTwoIff` characterises it fully) |
| XdpRings.PowerOfTwoHasExponent | src/phy/xdp/rings.rs:45 | every number `is_power_of_two` accepts is some 2^k |
| XdpRings.Pow2IsPowerOfTwo | src/phy/xdp/rings.rs:45 | every 2^k passes the power-of-two test |
| XdpRings.PowerOfTwoIff | src/phy/xdp/rings.rs:45 | the power-of-two test holds exactly for the numbers 2^k |
| XdpRings.SlotsDiffer | src/phy/xdp/rings.rs:189-198 | counters less than the ring size apart use different slots, so a write never hits a pending slot |
| XdpRings.BitAnd | src/phy/xdp/rings.rs:172 | `&` on unsigned integers, bit by bit; the result is at most either operand |
| XdpRings.BitAndLowMask | src/phy/xdp/rings.rs:150 | masking with `2^k - 1` keeps the remainder modulo `2^k` |
| XdpRings.MaskedSlot | src/phy/xdp/rings.rs:172-196 | the source's index `counter & mask` on the `u32` counter equals the model's slot `counter % size` of the unbounded counter, for every power-of-two size up to 2^32 (so for every ring size the model admits) |
| XdpRings.U32Distance | src/phy/xdp/rings.rs:188 | `p - c` on the counters' `u32` values as a release build computes it (modulo 2^32); always below 2^32 |
| XdpRings.WrappedDistance | src/phy/xdp/rings.rs:164-189 | for counters at most 2^31 apart, the release-build `u32` difference `p - c` is the true distance of the unbounded counters, and `c == p` on the `u32` values holds exactly when the counters are equal |
| XdpRings.PendingOf | src/phy/xdp/rings.rs:165-204 | the entries in flight number `producer - consumer` |
| XdpRings.PendingWrite | src/phy/xdp/rings.rs:196-203 | storing at slot `producer` of a ring that is not full keeps every pending entry and appends the new one |
| XdpRings.PendingRead | src/phy/xdp/rings.rs:172-180 | slot `consumer` holds the oldest pending entry, and advancing the consumer drops exactly that entry |
| XdpRings.XdpRing.constructor | src/phy/xdp/rings.rs:126-157 | `mask = size-1`, `size() = size`, and an empty ring |
| XdpRings.XdpRing.Size | src/phy/xdp/rings.rs:155-157 | `size()` is the number of descriptor slots, a power of two no larger than 2^31 |
| XdpRings.XdpRing.Read | src/phy/xdp/rings.rs:164-182 | empty: `None` and nothing changes; otherwise the oldest entry, read from slot `consumer & mask`, the consumer advanced by one, the producer and slots untouched, and the rest pending in order |
| XdpRings.XdpRing.Write | src/phy/xdp/rings.rs:184-205 | fails with WouldBlock exactly when the ring is full, and then nothing changes; otherwise only slot `producer & mask` changes, the producer advances by one, the consumer is untouched, and the entry joins the back of the pending queue |
| XdpRings.Build | src/phy/xdp/rings.rs:39-50 | InvalidInput exactly when the size is not a power of two; otherwise a fresh empty ring of that size and type |
| XdpDevice.AfterReclaim | src/phy/xdp.rs:183-186 | nothing completed: headers and head unchanged; otherwise the head becomes the completed descriptor's page, which links to the old head, and no other header changes |
| XdpDevice.XdpSocket.constructor | src/phy/xdp.rs:93-102 | the socket holds exactly the given UMEM and tx, rx, completion and fill rings |
| XdpDevice.XdpSocket.Receive | src/phy/xdp.rs:127-146 | empty rx ring: `None` and no state change; otherwise the frame's bytes are read from page `addr/alignment`, that page is pushed on the free list, and its full-page descriptor is appended to the fill ring unless the fill ring is full |
| XdpDevice.XdpSocket.ReclaimCompletion | src/phy/xdp.rs:183-186 | at most one completion descriptor is read, and its page is pushed on the free list |
| XdpDevice.XdpSocket.Send | src/phy/xdp.rs:188-197 | no free page: the frame is dropped and nothing changes; otherwise the frame goes into the head page, and either the tx ring gains its descriptor and the page leaves the list, or the ring is full and the headers and head are restored; the panic arm is unreachable |
| XdpDevice.XdpSocket.Consume | src/phy/xdp.rs:175-200 | `f` runs once on `len` zero bytes and its result is returned; at most one completed page is reclaimed; then the frame is sent or dropped as `Send` states, from the post-reclaim headers and head |
| XdpDevice.PrimeFillRing | src/phy/xdp.rs:86-89 | the fill ring holds the first `min(n, size)` descriptors in order; backpressure errors are ignored |
| XdpDevice.Open | src/phy/xdp.rs:66-103 | InvalidInput exactly when a ring size is not a power of two; otherwise every page is free from head 0, the tx, rx and completion rings are empty, and the fill ring holds the first page descriptors in page order |
| XdpRedirect.RedirectProg | examples/xdp.c:14-37 | the first and only lookup is on `ctx->rx_queue_index`; no later helper call is a lookup; the trace names that queue |
| XdpRedirect.RedirectOnHit | examples/xdp.c:19-28 | on a hit the result is the redirect status for the same index with flags 0; the calls are the lookup then the redirect; the trace is the REDIRECT shape with queue, status and the address of the entry found |
| XdpRedirect.PassOnMiss | examples/xdp.c:29-35 | on a miss the result is `XDP_PASS`; the only call is the lookup; the trace is the PASS shape |
| XdpRedirect.TraceShape | examples/xdp.c:19-35 | exactly one trace shape per run: REDIRECT exactly on a hit, PASS exactly on a miss |
| XdpRedirect.DecisionDependsOnPresenceOnly | examples/xdp.c:14-35 | the verdict and the helper calls depend only on the queue index and on whether the map has that key; no other context field, no other entry and not the entry itself is consulted |
| XdpRedirect.DependsOnQueueEntryOnly | examples/xdp.c:14-37 | the whole run, trace included, depends only on the queue index and the map's entry for it; the map is not written |

## Left out

- Memory allocation, `mmap` of the rings, raw pointers, `ManuallyDrop`,
  lifetimes and `Drop`. Memory is modelled as an array of page headers and an
  array of payload buffers. An allocation or `mmap` failure is not modelled.
- The socket system calls: `socket`, `bind`, `setsockopt`, the MTU `ioctl`,
  `rings::offsets` and the ring type ids and page offsets. The same goes for
  `XdpSocket::new`'s socket binding and `capabilities`. The `sys/xdp.rs`,
  `config.rs` and `examples/tcpdump_xdp.rs` files are not part of this model.
- Memory ordering. The `fence` calls exist because the kernel updates the
  counters concurrently. The model is sequential, and the kernel side of every
  ring is held fixed, with no environment steps.
- `u32` counter overflow. Counters are unbounded naturals with
  `consumer <= producer <= consumer + size`, and the source's `u32` values
  are taken modulo 2^32. `read` compares and `write` subtracts those values as
  a release build does, where `-` and `+= 1` wrap. A debug build panics
  instead: on `p - c` once the producer's `u32` value has wrapped below the
  consumer's, and on `+= 1` after 2^32 operations on one counter. The model
  follows the release build.
- XdpRings.XdpRing.constructor: requires a size of at most 2^31 (as do
  `XdpRings.Build` and `XdpDevice.Open` for each ring). At 2^32 the source's
  `(size - 1) as u32` mask is `u32::MAX` and the ring misbehaves as the next
  three lines say; above 2^32 the cast truncates the mask.
- XdpRings.XdpRing.Size: not modelled for a ring of 2^32 slots, where the
  source's `mask + 1` overflows `u32` (a panic in a debug build, 0 in a
  release build).
- XdpRings.XdpRing.Read: not modelled for a full ring of 2^32 slots, where the
  `u32` counters are equal and the source returns `None` although every slot
  is pending.
- XdpRings.XdpRing.Write: not modelled for a full ring of 2^32 slots, where
  `p - c` is 0 in `u32` and the source overwrites the oldest pending slot
  instead of failing with WouldBlock.
- XdpRings.Build: requires a size of at most 2^31, for the reasons given for
  the constructor.
- `&` on `u32` is modelled on naturals by `BitAnd`; `MaskedSlot` ties it to
  the `u32` counter values. `bv32` arithmetic is not used.
- The `Reader`/`Writer` type markers are modelled as a precondition on the ring
  type (`IsReader`).
- XdpUmem.Umem.constructor: requires `1 <= entries <= 65535`. With 0 entries
  the head `Some(0)` names no page. Above 65535 the finding below applies.
- XdpUmem.Umem.Write: requires the packet to fit the page's payload area when
  a page is free. The source panics on the slice bound in `write_packet` after
  it has already unlinked the page.
- XdpDevice.XdpSocket.Consume: requires `len` to fit a page whenever a page
  will be written. The source panics there, as for `Umem::write`.
- XdpDevice.XdpSocket.Receive: relies on the kernel's promise, kept in
  `Valid()`, that every rx descriptor lies inside one page and every
  completion descriptor names an existing page. The source trusts this too.
- Cross-layer page ownership is not proved. Pages offered to the fill ring at
  construction stay on the user free list, and `free` of a page that is
  already listed can create a cycle. So `WellFormed` is a property of the
  step functions, proved by the free-list lemmas, and not an object invariant
  of `Umem`.
- The `RxToken`/`TxToken` pair returned by `receive` and the
  `Rc<RefCell<..>>` sharing. `Receive` returns the frame bytes, and `Consume`
  is a method of the socket itself.
- XdpRedirect.RedirectProg: the BPF helpers are not modelled beyond their
  results. The redirect status and the entry's kernel address are parameters.
  The `printk` formatting, the pointer-to-integer cast of `val` and the license
  string are left out.
- The 64-entry bound of `socket_map` (`max_entries`) and its pinning. The
  kernel enforces them when the map is updated, and the decision does not
  depend on them.

## Findings

| source | as written | input that shows it | evidently intended | confidence | as-written member | corrected member |
|---|---|---|---|---|---|---|
| src/phy/xdp/umem.rs:52-56 | page `i` is linked with `Some((i + 1) as u16)`, and link value 65535 is the end-of-list sentinel | `Umem::new` with `entries = 65536`: page 65534 links to 65535, which reads back as `None`, so page 65535 is not on the free list `new` builds. If it is later freed after coming back through the rx ring, a subsequent `free(q)` stores link 65535, which reads as the end of the list and cuts off everything after `q` | every page is on the free list, which needs `entries <= 65535` (or a check rejecting larger values) | medium, not executed | XdpUmem.AsWrittenLosesLastPage | XdpUmem.InitialFreeList |
