/** The memory and mailbox effect of forward_message and of a run of
    socket_poll calls in skynet_socket.c, as functions on a value of the
    bridge's state. Class Bridge.Bridge is proved to change its state exactly
    as these functions say; the lemmas here say what the functions mean:
    no block is freed twice, a run delivers the accepted events in the
    order the multiplexer produced them, and frees precisely the buffers and
    envelopes of the refused ones. */
module Effects {
  import opened Codec
  import opened Dispatch

  /** `struct skynet_message`: source and session, the envelope's address
      and contents, and the size word carrying the message type. */
  datatype Message = Message(source: nat, session: int, data: nat, envelope: Envelope, sz: bv64)

  /** A message accepted by skynet_context_push for the actor `dest`. */
  datatype Delivery = Delivery(dest: nat, msg: Message)

  /** What socket_server_poll reports: the event code, the event and the
      `more` flag (which starts at 1 and is left as the multiplexer set it). */
  datatype Polled = Polled(code: int, result: SocketMessage, more: int)

  /** The bridge's state: the blocks allocated and not yet freed, every
      free of a non-NULL pointer in order, every accepted message in order,
      and the next address the allocator hands out. */
  datatype Heap = Heap(live: set<nat>, freed: seq<nat>, mailbox: seq<Delivery>, next: nat)

  /** The block a pointer names, if any. */
  function Blocks(p: Ptr): set<nat>
  {
    if p.At? then {p.addr} else {}
  }

  /** The free a `skynet_free(p)` logs: nothing for NULL. */
  function FreeOf(p: Ptr): seq<nat>
  {
    if p.At? then [p.addr] else []
  }

  /** What forward_message needs of an event it is given. */
  predicate Forwardable(a: Action, ev: SocketMessage)
  {
    a.Forward? ==> Readable(a.padding, ev) && ev.owner < 0x1_0000_0000_0000_0000
  }

  /** The block whose ownership a forward hands to the envelope: exactly
      the external buffer the packed envelope points to, which is what a
      failed push frees first. Inline kinds only borrow their text. */
  function Handed(a: Action, ev: SocketMessage): (s: set<nat>)
    ensures a.Forward? && Readable(a.padding, ev) ==> s == Blocks(Pack(a.kind, a.padding, ev).buffer)
    ensures !a.Forward? ==> s == {}
  {
    if a.Forward? then Blocks(BufferOf(a.padding, ev)) else {}
  }

  /** No block below `next` is both live and freed, no block is freed
      twice, and the allocator is past every block it handed out. */
  predicate Sound(h: Heap)
  {
    (forall a :: a in h.live ==> a < h.next) &&
    (forall i :: 0 <= i < |h.freed| ==> h.freed[i] < h.next && h.freed[i] !in h.live) &&
    (forall i, j :: 0 <= i < j < |h.freed| ==> h.freed[i] != h.freed[j])
  }

  /** The message forward_message builds in the block at `at`: source 0,
      session 0, the packed envelope and its tagged size word. */
  function Posting(at: nat, kind: int, padding: bool, ev: SocketMessage): Message
    requires Readable(padding, ev)
  {
    var e := Pack(kind, padding, ev);
    Message(0, 0, at, e, TagSize(Size(e) as bv64))
  }

  /** The size word of a posting reads back as the envelope's size and
      PTYPE_SOCKET, so the actor can recover both. */
  lemma PostingSizeWord(at: nat, kind: int, padding: bool, ev: SocketMessage)
    requires Readable(padding, ev)
    ensures SizeOf(Posting(at, kind, padding, ev).sz) == Size(Posting(at, kind, padding, ev).envelope) as bv64
    ensures TypeOf(Posting(at, kind, padding, ev).sz) == PTYPE_SOCKET
  {
    SmallSizeTagged(Size(Pack(kind, padding, ev)));
  }

  /** One forward_message: the envelope goes in the block `h.next`. An
      accepted push keeps it live in the mailbox; a refused push frees the
      handed-over buffer (if any) and then the envelope. */
  function ForwardEffect(h: Heap, kind: int, padding: bool, ev: SocketMessage, pushed: bool): (r: Heap)
    requires Readable(padding, ev) && ev.owner < 0x1_0000_0000_0000_0000
    ensures r.next == h.next + 1
  {
    var m := Posting(h.next, kind, padding, ev);
    if pushed then
      Heap(h.live + {h.next}, h.freed, h.mailbox + [Delivery(Destination(ev.owner), m)], h.next + 1)
    else
      var b := BufferOf(padding, ev);
      Heap(h.live - Blocks(b), h.freed + FreeOf(b) + [h.next], h.mailbox, h.next + 1)
  }

  /** A forward whose handed-over buffer is live keeps the heap sound: the
      frees it adds are of blocks that were live (the buffer) or just
      allocated (the envelope), so none is freed twice, and an accepted
      envelope stays live. */
  lemma ForwardKeepsSound(h: Heap, kind: int, padding: bool, ev: SocketMessage, pushed: bool)
    requires Sound(h) && Readable(padding, ev) && ev.owner < 0x1_0000_0000_0000_0000
    requires Handed(Forward(kind, padding), ev) <= h.live
    ensures Sound(ForwardEffect(h, kind, padding, ev, pushed))
    ensures pushed ==> h.next in ForwardEffect(h, kind, padding, ev, pushed).live
    ensures !pushed ==> h.next !in ForwardEffect(h, kind, padding, ev, pushed).live
  {
  }

  /** One socket_poll after its switch chose `a`: a forward, or nothing. */
  function PollEffect(h: Heap, a: Action, ev: Polled, pushed: bool): Heap
    requires Forwardable(a, ev.result)
  {
    if a.Forward? then ForwardEffect(h, a.kind, a.padding, ev.result, pushed) else h
  }

  /** Every event of a run is fit to forward under socket_poll's switch. */
  predicate RunForwardable(events: seq<Polled>)
  {
    forall i :: 0 <= i < |events| ==> Forwardable(PoolAction(events[i].code), events[i].result)
  }

  /** The state after socket_poll has handled every event of `events`,
      with the push outcomes `pushes`, in order. */
  function RunEffect(h: Heap, events: seq<Polled>, pushes: seq<bool>): Heap
    requires |events| == |pushes| && RunForwardable(events)
    decreases |events|
  {
    if |events| == 0 then h
    else
      var k := |events| - 1;
      assert RunForwardable(events[..k]) by {
        forall i | 0 <= i < k ensures events[..k][i] == events[i] { }
      }
      PollEffect(RunEffect(h, events[..k], pushes[..k]), PoolAction(events[k].code), events[k], pushes[k])
  }

  /** How many of the events socket_poll forwards (each takes one block). */
  function Forwards(events: seq<Polled>): (n: nat)
    ensures n <= |events|
  {
    if |events| == 0 then 0
    else Forwards(events[..|events| - 1]) + (if PoolAction(events[|events| - 1].code).Forward? then 1 else 0)
  }

  /** The mailbox entry one poll adds: the posting of an accepted forward
      whose envelope sits in block `at`. */
  function DeliveryOf(a: Action, ev: SocketMessage, pushed: bool, at: nat): seq<Delivery>
    requires Forwardable(a, ev)
  {
    if a.Forward? && pushed then [Delivery(Destination(ev.owner), Posting(at, a.kind, a.padding, ev))] else []
  }

  /** The frees one poll performs: a refused forward's buffer (if any), then
      its envelope block `at`. */
  function FreesOf(a: Action, ev: SocketMessage, pushed: bool, at: nat): seq<nat>
    requires Forwardable(a, ev)
  {
    if a.Forward? && !pushed then FreeOf(BufferOf(a.padding, ev)) + [at] else []
  }

  /** The messages a run delivers, one per accepted forward, in the order
      of the events; the j-th forward's envelope sits in block next0 + j. */
  function Deliveries(events: seq<Polled>, pushes: seq<bool>, next0: nat): seq<Delivery>
    requires |events| == |pushes| && RunForwardable(events)
    decreases |events|
  {
    if |events| == 0 then []
    else
      var k := |events| - 1;
      assert RunForwardable(events[..k]) by {
        forall i | 0 <= i < k ensures events[..k][i] == events[i] { }
      }
      Deliveries(events[..k], pushes[..k], next0) +
      DeliveryOf(PoolAction(events[k].code), events[k].result, pushes[k], next0 + Forwards(events[..k]))
  }

  /** The frees a run performs: for each refused forward, its handed-over
      buffer (if any) and then its envelope block, in the order of the events. */
  function FreeLog(events: seq<Polled>, pushes: seq<bool>, next0: nat): seq<nat>
    requires |events| == |pushes| && RunForwardable(events)
    decreases |events|
  {
    if |events| == 0 then []
    else
      var k := |events| - 1;
      assert RunForwardable(events[..k]) by {
        forall i | 0 <= i < k ensures events[..k][i] == events[i] { }
      }
      FreeLog(events[..k], pushes[..k], next0) +
      FreesOf(PoolAction(events[k].code), events[k].result, pushes[k], next0 + Forwards(events[..k]))
  }

  /** The envelope blocks of the accepted forwards: they lie in the range
      of blocks the run allocates. */
  function Kept(events: seq<Polled>, pushes: seq<bool>, next0: nat): (s: set<nat>)
    requires |events| == |pushes|
    ensures forall a :: a in s ==> next0 <= a < next0 + Forwards(events)
    decreases |events|
  {
    if |events| == 0 then {}
    else
      var k := |events| - 1;
      Kept(events[..k], pushes[..k], next0) +
      (if PoolAction(events[k].code).Forward? && pushes[k] then {next0 + Forwards(events[..k])} else {})
  }

  /** The buffers of the refused forwards, which the run frees. */
  function Dropped(events: seq<Polled>, pushes: seq<bool>): set<nat>
    requires |events| == |pushes|
    decreases |events|
  {
    if |events| == 0 then {}
    else
      var k := |events| - 1;
      Dropped(events[..k], pushes[..k]) +
      (if !pushes[k] then Handed(PoolAction(events[k].code), events[k].result) else {})
  }

  /** One poll in terms of the per-poll pieces of the run functions. */
  lemma PollEffectParts(h: Heap, a: Action, ev: Polled, pushed: bool)
    requires Forwardable(a, ev.result)
    ensures PollEffect(h, a, ev, pushed).next == h.next + (if a.Forward? then 1 else 0)
    ensures PollEffect(h, a, ev, pushed).mailbox == h.mailbox + DeliveryOf(a, ev.result, pushed, h.next)
    ensures PollEffect(h, a, ev, pushed).freed == h.freed + FreesOf(a, ev.result, pushed, h.next)
    ensures PollEffect(h, a, ev, pushed).live ==
              (h.live - (if pushed then {} else Handed(a, ev.result))) +
              (if a.Forward? && pushed then {h.next} else {})
  {
  }

  /** RunEffect unfolded once: the last poll after the run of the others. */
  lemma RunEffectLast(h: Heap, events: seq<Polled>, pushes: seq<bool>)
    requires |events| == |pushes| && RunForwardable(events) && |events| > 0
    ensures RunForwardable(events[..|events| - 1])
    ensures RunEffect(h, events, pushes) ==
              PollEffect(RunEffect(h, events[..|events| - 1], pushes[..|events| - 1]),
                         PoolAction(events[|events| - 1].code), events[|events| - 1], pushes[|events| - 1])
  {
  }

  /** A run allocates one block per forward. */
  lemma {:induction false} RunEffectNext(h: Heap, events: seq<Polled>, pushes: seq<bool>)
    requires |events| == |pushes| && RunForwardable(events)
    ensures RunEffect(h, events, pushes).next == h.next + Forwards(events)
    decreases |events|
  {
    if |events| > 0 {
      var k := |events| - 1;
      RunEffectLast(h, events, pushes);
      RunEffectNext(h, events[..k], pushes[..k]);
      PollEffectParts(RunEffect(h, events[..k], pushes[..k]), PoolAction(events[k].code), events[k], pushes[k]);
    }
  }

  /** Deliveries unfolded once. */
  lemma DeliveriesLast(events: seq<Polled>, pushes: seq<bool>, next0: nat)
    requires |events| == |pushes| && RunForwardable(events) && |events| > 0
    requires RunForwardable(events[..|events| - 1])
    ensures Deliveries(events, pushes, next0) ==
              Deliveries(events[..|events| - 1], pushes[..|events| - 1], next0) +
              DeliveryOf(PoolAction(events[|events| - 1].code), events[|events| - 1].result,
                         pushes[|events| - 1], next0 + Forwards(events[..|events| - 1]))
  {
  }

  /** The step of RunEffectMailbox: the last poll of a run, given the
      mailbox after the others. */
  lemma RunEffectMailboxStep(h: Heap, events: seq<Polled>, pushes: seq<bool>)
    requires |events| == |pushes| && RunForwardable(events) && |events| > 0
    requires RunForwardable(events[..|events| - 1])
    requires RunEffect(h, events[..|events| - 1], pushes[..|events| - 1]).mailbox ==
               h.mailbox + Deliveries(events[..|events| - 1], pushes[..|events| - 1], h.next)
    ensures RunEffect(h, events, pushes).mailbox == h.mailbox + Deliveries(events, pushes, h.next)
  {
    var k := |events| - 1;
    var pre, pp := events[..k], pushes[..k];
    RunEffectLast(h, events, pushes);
    var mid := RunEffect(h, pre, pp);
    var a := PoolAction(events[k].code);
    var posted := DeliveryOf(a, events[k].result, pushes[k], mid.next);
    assert RunEffect(h, events, pushes).mailbox == mid.mailbox + posted by {
      PollEffectParts(mid, a, events[k], pushes[k]);
    }
    var before := Deliveries(pre, pp, h.next);
    RunEffectNext(h, pre, pp);
    DeliveriesLast(events, pushes, h.next);
    assert (h.mailbox + before) + posted == h.mailbox + (before + posted);
  }

  /** A run appends exactly its deliveries to the mailbox, in event order. */
  lemma {:induction false} RunEffectMailbox(h: Heap, events: seq<Polled>, pushes: seq<bool>)
    requires |events| == |pushes| && RunForwardable(events)
    ensures RunEffect(h, events, pushes).mailbox == h.mailbox + Deliveries(events, pushes, h.next)
    decreases |events|
  {
    if |events| > 0 {
      var k := |events| - 1;
      RunEffectLast(h, events, pushes);
      RunEffectMailbox(h, events[..k], pushes[..k]);
      RunEffectMailboxStep(h, events, pushes);
    }
  }

  /** The step of RunEffectFreed: the last poll of a run, given the free
      log after the others. */
  lemma RunEffectFreedStep(h: Heap, events: seq<Polled>, pushes: seq<bool>)
    requires |events| == |pushes| && RunForwardable(events) && |events| > 0
    requires RunForwardable(events[..|events| - 1])
    requires RunEffect(h, events[..|events| - 1], pushes[..|events| - 1]).freed ==
               h.freed + FreeLog(events[..|events| - 1], pushes[..|events| - 1], h.next)
    ensures RunEffect(h, events, pushes).freed == h.freed + FreeLog(events, pushes, h.next)
  {
    var k := |events| - 1;
    var pre, pp := events[..k], pushes[..k];
    RunEffectLast(h, events, pushes);
    var mid := RunEffect(h, pre, pp);
    var a := PoolAction(events[k].code);
    var frees := FreesOf(a, events[k].result, pushes[k], mid.next);
    assert RunEffect(h, events, pushes).freed == mid.freed + frees by {
      PollEffectParts(mid, a, events[k], pushes[k]);
    }
    assert FreeLog(events, pushes, h.next) == FreeLog(pre, pp, h.next) + frees by {
      RunEffectNext(h, pre, pp);
    }
  }

  /** A run logs exactly its frees, in event order. */
  lemma {:induction false} RunEffectFreed(h: Heap, events: seq<Polled>, pushes: seq<bool>)
    requires |events| == |pushes| && RunForwardable(events)
    ensures RunEffect(h, events, pushes).freed == h.freed + FreeLog(events, pushes, h.next)
    decreases |events|
  {
    if |events| > 0 {
      var k := |events| - 1;
      RunEffectLast(h, events, pushes);
      RunEffectFreed(h, events[..k], pushes[..k]);
      RunEffectFreedStep(h, events, pushes);
    }
  }

  /** The set algebra of one step of RunEffectLive. */
  lemma LiveStep(live: set<nat>, dropped: set<nat>, kept: set<nat>, gone: set<nat>, added: set<nat>)
    requires gone !! kept
    ensures ((live - dropped) + kept - gone) + added == (live - (dropped + gone)) + (kept + added)
  {
  }

  /** The step of RunEffectLive: the last poll of a run, given the live
      blocks after the others. */
  lemma RunEffectLiveStep(h: Heap, events: seq<Polled>, pushes: seq<bool>)
    requires |events| == |pushes| && RunForwardable(events) && |events| > 0
    requires forall a :: a in h.live ==> a < h.next
    requires Handed(PoolAction(events[|events| - 1].code), events[|events| - 1].result) <= h.live
    requires RunForwardable(events[..|events| - 1])
    requires RunEffect(h, events[..|events| - 1], pushes[..|events| - 1]).live ==
               (h.live - Dropped(events[..|events| - 1], pushes[..|events| - 1])) +
               Kept(events[..|events| - 1], pushes[..|events| - 1], h.next)
    ensures RunEffect(h, events, pushes).live == (h.live - Dropped(events, pushes)) + Kept(events, pushes, h.next)
  {
    var k := |events| - 1;
    var pre, pp := events[..k], pushes[..k];
    RunEffectLast(h, events, pushes);
    var mid := RunEffect(h, pre, pp);
    var a := PoolAction(events[k].code);
    var gone := if pushes[k] then {} else Handed(a, events[k].result);
    var added := if a.Forward? && pushes[k] then {mid.next} else {};
    var dropped, kept := Dropped(pre, pp), Kept(pre, pp, h.next);
    assert RunEffect(h, events, pushes).live == (mid.live - gone) + added by {
      PollEffectParts(mid, a, events[k], pushes[k]);
    }
    assert Kept(events, pushes, h.next) == kept + added by {
      RunEffectNext(h, pre, pp);
    }
    LiveStep(h.live, dropped, kept, gone, added);
  }

  /** After a run, the live blocks are those live before, less the buffers
      of refused forwards, plus the envelopes of accepted ones. */
  lemma {:induction false} RunEffectLive(h: Heap, events: seq<Polled>, pushes: seq<bool>)
    requires |events| == |pushes| && RunForwardable(events)
    requires forall a :: a in h.live ==> a < h.next
    requires forall i :: 0 <= i < |events| ==> Handed(PoolAction(events[i].code), events[i].result) <= h.live
    ensures RunEffect(h, events, pushes).live == (h.live - Dropped(events, pushes)) + Kept(events, pushes, h.next)
    decreases |events|
  {
    if |events| > 0 {
      var k := |events| - 1;
      var pre, pp := events[..k], pushes[..k];
      RunEffectLast(h, events, pushes);
      assert forall i :: 0 <= i < k ==> Handed(PoolAction(pre[i].code), pre[i].result) <= h.live by {
        forall i | 0 <= i < k ensures pre[i] == events[i] { }
      }
      RunEffectLive(h, pre, pp);
      RunEffectLiveStep(h, events, pushes);
    }
  }

  /** One more poll extends the run by its event. */
  lemma RunEffectExtend(h: Heap, events: seq<Polled>, pushes: seq<bool>, n: nat)
    requires |events| == |pushes| && RunForwardable(events) && n < |events|
    ensures RunForwardable(events[..n]) && RunForwardable(events[..n + 1])
    ensures RunEffect(h, events[..n + 1], pushes[..n + 1]) ==
              PollEffect(RunEffect(h, events[..n], pushes[..n]), PoolAction(events[n].code), events[n], pushes[n])
  {
    assert events[..n + 1][..n] == events[..n] && pushes[..n + 1][..n] == pushes[..n];
    RunEffectLast(h, events[..n + 1], pushes[..n + 1]);
  }

  /** A poll frees nothing but its own handed-over buffer: any other live
      blocks stay live. */
  lemma PollKeepsOthersLive(h: Heap, a: Action, ev: Polled, pushed: bool, others: set<nat>)
    requires Forwardable(a, ev.result) && others <= h.live && others !! Handed(a, ev.result)
    ensures others <= PollEffect(h, a, ev, pushed).live
  {
    PollEffectParts(h, a, ev, pushed);
  }

  /** The four run lemmas together, for the first k polls of a run whose
      handed-over buffers were live at its start. */
  lemma RunEffectSummary(h: Heap, events: seq<Polled>, pushes: seq<bool>, k: nat)
    requires |events| == |pushes| && RunForwardable(events) && k <= |events|
    requires forall a :: a in h.live ==> a < h.next
    requires forall i :: 0 <= i < |events| ==> Handed(PoolAction(events[i].code), events[i].result) <= h.live
    ensures RunForwardable(events[..k])
    ensures RunEffect(h, events[..k], pushes[..k]).next == h.next + Forwards(events[..k])
    ensures RunEffect(h, events[..k], pushes[..k]).mailbox == h.mailbox + Deliveries(events[..k], pushes[..k], h.next)
    ensures RunEffect(h, events[..k], pushes[..k]).freed == h.freed + FreeLog(events[..k], pushes[..k], h.next)
    ensures RunEffect(h, events[..k], pushes[..k]).live ==
              (h.live - Dropped(events[..k], pushes[..k])) + Kept(events[..k], pushes[..k], h.next)
  {
    var pre, pp := events[..k], pushes[..k];
    assert forall i :: 0 <= i < k ==> pre[i] == events[i];
    RunEffectNext(h, pre, pp);
    RunEffectMailbox(h, pre, pp);
    RunEffectFreed(h, pre, pp);
    RunEffectLive(h, pre, pp);
  }
}
