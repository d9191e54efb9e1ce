/** The XDP program attached to the interface: for each frame it looks up the
    frame's receive queue in the socket map and either redirects the frame to
    the AF_XDP socket registered for that queue or lets it pass to the kernel
    stack, emitting one trace record either way. */
module XdpRedirect {

  /** `XDP_PASS` from `enum xdp_action`. */
  const XDP_PASS: int := 2

  /** The fields of `struct xdp_md` the kernel hands the program. */
  datatype XdpMd = XdpMd(
    data: bv32, dataEnd: bv32, dataMeta: bv32,
    ingressIfindex: bv32, rxQueueIndex: bv32, egressIfindex: bv32)

  /** The two shapes of `bpf_trace_printk` record the program emits. */
  datatype Trace =
    | RedirectTrace(queue: bv32, ret: int, val: bv64)
    | PassTrace(queue: bv32)

  /** The BPF helper calls made on `socket_map`. */
  datatype MapCall =
    | Lookup(key: bv32)
    | RedirectMap(key: bv32, flags: bv64)

  /** What one run of the program returns and does on the side. */
  datatype Run = Run(ret: int, calls: seq<MapCall>, trace: Trace)

  /** `xdp_redirect_prog` over `socket_map`, an XSKMAP from `u32` queue index
      to `u32` socket. `redirect(index, flags)` is the status
      `bpf_redirect_map` returns, which the kernel decides;
      `addrOf(index, entry)` is the kernel address of the entry
      `bpf_map_lookup_elem` finds, which the trace prints as an integer. */
  function RedirectProg(
    ctx: XdpMd, socketMap: map<bv32, bv32>, redirect: (bv32, bv64) -> int, addrOf: (bv32, bv32) -> bv64): (r: Run)
    ensures |r.calls| >= 1 && r.calls[0] == Lookup(ctx.rxQueueIndex)
    ensures forall i :: 1 <= i < |r.calls| ==> !r.calls[i].Lookup?
    ensures r.trace.queue == ctx.rxQueueIndex
  {
    var index := ctx.rxQueueIndex;
    if index in socketMap then
      var ret := redirect(index, 0);
      Run(ret, [Lookup(index), RedirectMap(index, 0)], RedirectTrace(index, ret, addrOf(index, socketMap[index])))
    else
      Run(XDP_PASS, [Lookup(index)], PassTrace(index))
  }

  /** A queue with a registered socket is redirected through that queue's
      entry with flags 0; the result is the redirect status, traced together
      with the queue and the entry's address. */
  lemma RedirectOnHit(ctx: XdpMd, socketMap: map<bv32, bv32>, redirect: (bv32, bv64) -> int, addrOf: (bv32, bv32) -> bv64)
    requires ctx.rxQueueIndex in socketMap
    ensures var r := RedirectProg(ctx, socketMap, redirect, addrOf);
      && r.ret == redirect(ctx.rxQueueIndex, 0)
      && r.calls == [Lookup(ctx.rxQueueIndex), RedirectMap(ctx.rxQueueIndex, 0)]
      && r.trace == RedirectTrace(ctx.rxQueueIndex, r.ret, addrOf(ctx.rxQueueIndex, socketMap[ctx.rxQueueIndex]))
  {
  }

  /** A queue without a registered socket passes the frame on, with no
      redirect call and the PASS trace. */
  lemma PassOnMiss(ctx: XdpMd, socketMap: map<bv32, bv32>, redirect: (bv32, bv64) -> int, addrOf: (bv32, bv32) -> bv64)
    requires ctx.rxQueueIndex !in socketMap
    ensures var r := RedirectProg(ctx, socketMap, redirect, addrOf);
      && r.ret == XDP_PASS
      && r.calls == [Lookup(ctx.rxQueueIndex)]
      && r.trace == PassTrace(ctx.rxQueueIndex)
  {
  }

  /** Exactly one trace shape per run, chosen by the lookup alone. */
  lemma TraceShape(ctx: XdpMd, socketMap: map<bv32, bv32>, redirect: (bv32, bv64) -> int, addrOf: (bv32, bv32) -> bv64)
    ensures var r := RedirectProg(ctx, socketMap, redirect, addrOf);
      (r.trace.RedirectTrace? <==> ctx.rxQueueIndex in socketMap)
      && (r.trace.PassTrace? <==> ctx.rxQueueIndex !in socketMap)
  {
  }

  /** The verdict and the helper calls depend only on the receive queue
      index and on whether the map has an entry for it: no other field of the
      frame metadata, no other map entry and not the entry itself is
      consulted. */
  lemma DecisionDependsOnPresenceOnly(
    ctx1: XdpMd, ctx2: XdpMd, m1: map<bv32, bv32>, m2: map<bv32, bv32>,
    redirect: (bv32, bv64) -> int, addrOf: (bv32, bv32) -> bv64)
    requires ctx1.rxQueueIndex == ctx2.rxQueueIndex
    requires (ctx1.rxQueueIndex in m1) == (ctx1.rxQueueIndex in m2)
    ensures var r1, r2 := RedirectProg(ctx1, m1, redirect, addrOf), RedirectProg(ctx2, m2, redirect, addrOf);
      r1.ret == r2.ret && r1.calls == r2.calls
  {
  }

  /** The whole run, trace included, depends only on the receive queue index
      and on the map's entry for it. */
  lemma DependsOnQueueEntryOnly(
    ctx1: XdpMd, ctx2: XdpMd, m1: map<bv32, bv32>, m2: map<bv32, bv32>,
    redirect: (bv32, bv64) -> int, addrOf: (bv32, bv32) -> bv64)
    requires ctx1.rxQueueIndex == ctx2.rxQueueIndex
    requires (ctx1.rxQueueIndex in m1) == (ctx1.rxQueueIndex in m2)
    requires ctx1.rxQueueIndex in m1 ==> m1[ctx1.rxQueueIndex] == m2[ctx1.rxQueueIndex]
    ensures RedirectProg(ctx1, m1, redirect, addrOf) == RedirectProg(ctx2, m2, redirect, addrOf)
  {
  }
}
