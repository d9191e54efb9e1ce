/** The user-space side of an AF_XDP socket as a packet device: it owns the
    UMEM and the four rings (tx, rx, completion, fill) and moves pages between
    the UMEM free list and the rings when frames are received and sent. */
module XdpDevice {
  import opened XdpCommon
  import opened XdpUmem
  import opened XdpRings

  datatype RingConfig = RingConfig(size: nat)

  datatype SocketConfig = SocketConfig(
    queueId: u32, umem: UmemConfig, tx: RingConfig, rx: RingConfig, cr: RingConfig, fr: RingConfig)

  function Min(a: nat, b: nat): nat {
    if a <= b then a else b
  }

  /** What the kernel promises about a descriptor it places on the rx ring:
      it points into a page of this UMEM and its packet lies inside that
      page's payload area. */
  predicate DescFits(d: XdpDesc, alignment: nat, size: nat) {
    IsAlignment(alignment) && PageIdFrom(d, alignment) < size && PacketFits(alignment - HEADROOM, d)
  }

  /** The UMEM headers and head after `consume` reclaims the oldest completed
      descriptor, if there is one: its page goes back on the free list. */
  function AfterReclaim(completed: seq<XdpDesc>, hs: seq<HeadRoom>, head: Option<u16>, alignment: nat)
    : (r: (seq<HeadRoom>, Option<u16>))
    requires alignment > 0 && |hs| <= 0xFFFF
    requires completed != [] ==> PageIdFrom(completed[0], alignment) < |hs|
    ensures |r.0| == |hs|
    ensures completed == [] ==> r == (hs, head)
    ensures completed != [] ==>
      var p := PageIdFrom(completed[0], alignment);
      && r.1 == Some(p)
      && (head.Some? && head.value != U16_MAX ==> r.0[p].FreePageId() == head)
      && (forall j :: 0 <= j < |hs| && j != p ==> r.0[j] == hs[j])
  {
    if completed == [] then (hs, head)
    else
      var p := PageIdFrom(completed[0], alignment);
      (PushHeaders(hs, head, p), Some(p))
  }

  class XdpSocket {
    const umem: Umem
    const tx: XdpRing
    const rx: XdpRing
    const cr: XdpRing
    const fr: XdpRing

    ghost function Repr(): set<object> {
      {this, umem, umem.headers, umem.buffers, tx, tx.slots, rx, rx.slots, cr, cr.slots, fr, fr.slots}
    }

    ghost predicate Valid()
      reads Repr()
    {
      && umem.Valid() && tx.Valid() && rx.Valid() && cr.Valid() && fr.Valid()
      && tx.type_ == Tx && rx.type_ == Rx && cr.type_ == Completion && fr.type_ == Fill
      && tx.slots != rx.slots && tx.slots != cr.slots && tx.slots != fr.slots
      && rx.slots != cr.slots && rx.slots != fr.slots && cr.slots != fr.slots
      && (forall i :: 0 <= i < |rx.Pending()| ==> DescFits(rx.Pending()[i], umem.alignment, umem.Size()))
      && (forall i :: 0 <= i < |cr.Pending()| ==> PageIdFrom(cr.Pending()[i], umem.alignment) < umem.Size())
    }

    constructor (umem: Umem, tx: XdpRing, rx: XdpRing, cr: XdpRing, fr: XdpRing)
      ensures this.umem == umem && this.tx == tx && this.rx == rx && this.cr == cr && this.fr == fr
    {
      this.umem, this.tx, this.rx, this.cr, this.fr := umem, tx, rx, cr, fr;
    }

    /** `Device::receive`: take one received frame, copy its bytes out of its
        page, put the page back on the free list and offer it to the kernel
        again on the fill ring (a full fill ring is ignored). */
    method Receive() returns (r: Option<seq<bv8>>)
      requires Valid()
      modifies umem, umem.headers, rx, fr, fr.slots
      ensures Valid()
      ensures old(rx.Pending()) == [] ==>
        && r == None
        && unchanged(umem, umem.headers, rx, fr, fr.slots)
      ensures old(rx.Pending()) != [] ==>
        var d := old(rx.Pending())[0];
        var p := PageIdFrom(d, umem.alignment);
        && p < umem.Size()
        && r == Some(ReadPacket(umem.buffers[p], d))
        && rx.Pending() == old(rx.Pending())[1..]
        && umem.freePageId == Some(p)
        && umem.headers[..] == PushHeaders(old(umem.headers[..]), old(umem.freePageId), p)
        && fr.Pending() ==
             if |old(fr.Pending())| < fr.Size() then old(fr.Pending()) + [FullPageDesc(p, umem.alignment)]
             else old(fr.Pending())
    {
      var rd := rx.Read();
      if rd.None? {
        return None;
      }
      var d := rd.value;
      var p := PageIdFrom(d, umem.alignment);
      var data := ReadPacket(umem.buffers[p], d);
      var fd := umem.Free(p);
      var offered := fr.Write(fd);
      r := Some(data);
      forall i | 0 <= i < |rx.Pending()|
        ensures DescFits(rx.Pending()[i], umem.alignment, umem.Size())
      {
        assert rx.Pending()[i] == old(rx.Pending())[i + 1];
      }
    }

    /** The first step of `consume`: the oldest completed send, if any,
        gives its page back to the free list. */
    method ReclaimCompletion()
      requires Valid()
      modifies umem, umem.headers, cr
      ensures Valid()
      ensures (umem.headers[..], umem.freePageId)
        == AfterReclaim(old(cr.Pending()), old(umem.headers[..]), old(umem.freePageId), umem.alignment)
      ensures old(cr.Pending()) == [] ==> unchanged(cr)
      ensures old(cr.Pending()) != [] ==> cr.Pending() == old(cr.Pending())[1..]
    {
      var completed := cr.Read();
      if completed.Some? {
        var pageId := PageIdFrom(completed.value, umem.alignment);
        var _ := umem.Free(pageId);
      }
      forall i | 0 <= i < |cr.Pending()|
        ensures PageIdFrom(cr.Pending()[i], umem.alignment) < umem.Size()
      {
        assert cr.Pending()[i] == old(cr.Pending())[i + 1];
      }
    }

    /** The second step of `consume`: copy `frame` into the head page and
        queue it on the tx ring. With no free page the frame is dropped;
        with a full tx ring its page is freed again. */
    method Send(frame: seq<bv8>)
      requires Valid()
      requires umem.freePageId.Some? ==> |frame| <= umem.alignment - HEADROOM
      modifies umem, umem.headers, umem.buffers, tx, tx.slots
      ensures Valid()
      ensures old(umem.freePageId).None? ==> unchanged(umem, umem.headers, umem.buffers, tx, tx.slots)
      ensures old(umem.freePageId).Some? ==>
        var id := old(umem.freePageId).value;
        && umem.buffers[..] == old(umem.buffers[..])[id := WritePacket(old(umem.buffers[id]), frame)]
        && if |old(tx.Pending())| < tx.Size() then
             && tx.Pending() == old(tx.Pending()) + [XdpDesc(DescAddrFrom(id, umem.alignment), |frame|, 0)]
             && umem.headers[..] == PopHeaders(old(umem.headers[..]), id)
             && umem.freePageId == old(umem.headers[id]).FreePageId()
           else
             && unchanged(tx, tx.slots)
             && umem.headers[..] == old(umem.headers[..])
             && umem.freePageId == old(umem.freePageId)
    {
      ghost var hs, head := umem.headers[..], umem.freePageId;
      var written := umem.Write(frame);
      match written
      case Ok(desc) =>
        var sent := tx.Write(desc);
        if sent.Err? {
          var pageId := PageIdFrom(desc, umem.alignment);
          PageIdRoundTrip(head.value, umem.alignment, desc);
          var _ := umem.Free(pageId);
          WriteThenFreeRestores(hs, head.value);
        }
      case Err(e) =>
        if e != WouldBlock {
          // the `panic!` arm: `Umem::write` fails only with WouldBlock
          assert false;
        }
    }

    /** `TxToken::consume`: `f` fills a zeroed buffer of `len` bytes and its
        result is returned; then at most one completed send is reclaimed and
        the frame is sent. */
    method Consume<R>(len: nat, f: seq<bv8> -> (seq<bv8>, R)) returns (result: R)
      requires Valid()
      requires |f(Zeros(len)).0| == len
      requires len <= umem.alignment - HEADROOM || (cr.Pending() == [] && umem.freePageId.None?)
      modifies umem, umem.headers, umem.buffers, cr, tx, tx.slots
      ensures Valid()
      ensures result == f(Zeros(len)).1
      ensures old(cr.Pending()) == [] ==> unchanged(cr)
      ensures old(cr.Pending()) != [] ==> cr.Pending() == old(cr.Pending())[1..]
      ensures
        var (hs, head) := AfterReclaim(old(cr.Pending()), old(umem.headers[..]), old(umem.freePageId), umem.alignment);
        head.None? ==>
          && umem.headers[..] == hs && umem.freePageId == None
          && unchanged(umem.buffers, tx, tx.slots)
      ensures
        var (hs, head) := AfterReclaim(old(cr.Pending()), old(umem.headers[..]), old(umem.freePageId), umem.alignment);
        head.Some? ==>
          var id := head.value;
          && id < umem.Size()
          && umem.buffers[..] == old(umem.buffers[..])[id := WritePacket(old(umem.buffers[id]), f(Zeros(len)).0)]
          && if |old(tx.Pending())| < tx.Size() then
               && tx.Pending() == old(tx.Pending()) + [XdpDesc(DescAddrFrom(id, umem.alignment), len, 0)]
               && umem.headers[..] == PopHeaders(hs, id)
               && umem.freePageId == hs[id].FreePageId()
             else
               && tx.Pending() == old(tx.Pending())
               && unchanged(tx, tx.slots)
               && umem.headers[..] == hs
               && umem.freePageId == head
    {
      var out := f(Zeros(len));
      result := out.1;
      ReclaimCompletion();
      Send(out.0);
    }
  }

  /** The loop in `XdpSocket::new` that writes every descriptor to the fill
      ring and ignores the backpressure error: the ring keeps the first
      descriptors, as many as fit. */
  method PrimeFillRing(fill: XdpRing, ds: seq<XdpDesc>)
    requires fill.Valid() && fill.type_ == Fill && fill.Pending() == []
    modifies fill, fill.slots
    ensures fill.Valid()
    ensures fill.Pending() == ds[..Min(|ds|, fill.Size())]
  {
    for i := 0 to |ds|
      invariant fill.Valid()
      invariant fill.Pending() == ds[..Min(i, fill.Size())]
    {
      var _ := fill.Write(ds[i]);
    }
  }

  /** `XdpSocket::new`, without the socket system calls: create the UMEM,
      build the four rings (each size must be a power of two) and offer every
      page to the kernel on the fill ring, in page order, ignoring
      backpressure once the fill ring is full. */
  method Open(config: SocketConfig) returns (r: Result<XdpSocket>)
    requires 1 <= config.umem.entries <= 0xFFFF
    requires config.tx.size <= MAX_RING_SIZE && config.rx.size <= MAX_RING_SIZE
    requires config.cr.size <= MAX_RING_SIZE && config.fr.size <= MAX_RING_SIZE
    ensures r.Err? <==>
      !(IsPowerOfTwo(config.tx.size) && IsPowerOfTwo(config.rx.size)
        && IsPowerOfTwo(config.cr.size) && IsPowerOfTwo(config.fr.size))
    ensures r.Err? ==> r.error == InvalidInput
    ensures r.Ok? ==>
      var s, n, a := r.value, config.umem.entries, config.umem.alignment.Bytes();
      && fresh(s.Repr()) && s.Valid()
      && s.umem.alignment == a && s.umem.Size() == n
      && s.umem.headers[..] == InitialHeaders(n) && s.umem.freePageId == Some(0)
      && s.tx.Size() == config.tx.size && s.rx.Size() == config.rx.size
      && s.cr.Size() == config.cr.size && s.fr.Size() == config.fr.size
      && s.tx.Pending() == [] && s.rx.Pending() == [] && s.cr.Pending() == []
      && s.fr.Pending() == PacketDescriptors(n, a)[..Min(n, config.fr.size)]
  {
    var umem := new Umem(config.umem);

    var tx := Build(Tx, config.tx.size);
    if tx.Err? { return Err(tx.error); }
    var rx := Build(Rx, config.rx.size);
    if rx.Err? { return Err(rx.error); }
    var cr := Build(Completion, config.cr.size);
    if cr.Err? { return Err(cr.error); }
    var fr := Build(Fill, config.fr.size);
    if fr.Err? { return Err(fr.error); }

    var fill := fr.value;
    PrimeFillRing(fill, PacketDescriptors(umem.Size(), umem.alignment));
    var s := new XdpSocket(umem, tx.value, rx.value, cr.value, fill);
    r := Ok(s);
  }
}
