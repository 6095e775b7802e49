/** Delivery path and poll drivers of skynet_socket.c: forward_message
    packs an event, pushes it to the owning actor and reclaims the memory
    when the push fails; skynet_socket_poll and socket_poll drain one event;
    thread_qs_socket loops socket_poll on a poller thread.

    The multiplexer (socket_server_poll), the mailbox push
    (skynet_context_push) and the actor total (skynet_context_total) are
    inputs: an event value, a boolean push outcome and a number per poll.
    Memory is tracked as ghost state: the blocks returned by skynet_malloc
    and not yet freed, and the log of every skynet_free on a non-NULL
    pointer. Every forward, poll and run is tied to the functions of module
    Effects; Malloc and Free state their new fields directly. */
module Bridge {
  import opened Codec
  import opened Dispatch
  import opened Poller
  import opened Effects

  /** Statuses socket_poll returns for a run of polled events. */
  function PoolStatuses(events: seq<Polled>): seq<int>
  {
    seq(|events|, i requires 0 <= i < |events| => PollReturn(PoolAction(events[i].code), events[i].more))
  }

  /** How many polls thread_qs_socket has made when it returns after
      `stop` polls without stopping (or breaks on poll `stop`). */
  function PollsMade(stop: nat, available: nat): nat
  {
    if stop < available then stop + 1 else stop
  }

  class Bridge {
    /** Blocks allocated by skynet_malloc and not yet freed. */
    ghost var live: set<nat>
    /** Every skynet_free of a non-NULL pointer, in order. */
    ghost var freed: seq<nat>
    /** Every message skynet_context_push accepted, in order. */
    ghost var mailbox: seq<Delivery>
    /** Next address the allocator hands out. */
    var next: nat

    ghost function State(): Heap
      reads this
    {
      Heap(live, freed, mailbox, next)
    }

    /** Live blocks and freed blocks lie below `next`, nothing is freed while
        still live, and no block is freed twice. */
    ghost predicate Valid()
      reads this
    {
      Sound(State())
    }

    constructor ()
      ensures Valid() && live == {} && freed == [] && mailbox == []
    {
      live, freed, mailbox := {}, [], [];
      next := 1;
    }

    /** skynet_malloc: a block that was never handed out before. */
    method Malloc() returns (a: nat)
      requires Valid()
      modifies this
      ensures Valid()
      ensures a == old(next) && next == old(next) + 1
      ensures a !in old(live) && forall i :: 0 <= i < |freed| ==> freed[i] != a
      ensures live == old(live) + {a} && freed == old(freed) && mailbox == old(mailbox)
    {
      a := next;
      next := next + 1;
      live := live + {a};
    }

    /** skynet_free: a no-op on NULL, otherwise the block must be live. */
    method Free(p: Ptr)
      requires Valid() && (p.At? ==> p.addr in live)
      modifies this
      ensures Valid()
      ensures live == old(live) - Blocks(p) && freed == old(freed) + FreeOf(p)
      ensures mailbox == old(mailbox) && next == old(next)
    {
      if p.At? {
        live := live - {p.addr};
        freed := freed + [p.addr];
      }
    }

    /** forward_message(type, padding, result), with the push outcome given:
        the message carries the packed envelope in a fresh block, source 0,
        session 0 and the tagged size, and goes to the low 32 bits of the
        owner. A successful push moves the envelope into the mailbox; a
        failed one frees the handed-over buffer (if any) and then the
        envelope, each once (ForwardKeepsSound). */
    method ForwardMessage(kind: int, padding: bool, result: SocketMessage, pushed: bool)
      returns (dest: nat, m: Message)
      requires Valid() && Readable(padding, result) && result.owner < 0x1_0000_0000_0000_0000
      requires Handed(Forward(kind, padding), result) <= live
      modifies this
      ensures Valid()
      ensures dest == Destination(result.owner) && m == Posting(old(next), kind, padding, result)
      ensures State() == ForwardEffect(old(State()), kind, padding, result, pushed)
    {
      var e := Pack(kind, padding, result);
      var sm := Malloc();
      m := Posting(sm, kind, padding, result);
      dest := Destination(result.owner);
      if pushed {
        mailbox := mailbox + [Delivery(dest, m)];
      } else {
        Free(e.buffer);
        Free(At(sm));
      }
    }

    /** The common part of the two poll functions once the switch has
        chosen action `a`: forward or not, then map to the status code. */
    method DispatchEvent(a: Action, ev: Polled, pushed: bool) returns (r: int)
      requires Valid() && Forwardable(a, ev.result) && Handed(a, ev.result) <= live
      modifies this
      ensures Valid()
      ensures r == PollReturn(a, ev.more)
      ensures State() == PollEffect(old(State()), a, ev, pushed)
    {
      match a
      case Exit =>
        r := 0;
      case Unknown =>
        r := -1;
      case Forward(kind, padding) =>
        var dest, m := ForwardMessage(kind, padding, ev.result, pushed);
        r := if ev.more != 0 then -1 else 1;
    }

    /** skynet_socket_poll: one event of the default instance. */
    method SkynetSocketPoll(ev: Polled, pushed: bool) returns (r: int)
      requires Valid() && Forwardable(MainloopAction(ev.code), ev.result)
      requires Handed(MainloopAction(ev.code), ev.result) <= live
      modifies this
      ensures Valid()
      ensures r == PollReturn(MainloopAction(ev.code), ev.more)
      ensures State() == PollEffect(old(State()), MainloopAction(ev.code), ev, pushed)
    {
      r := DispatchEvent(MainloopAction(ev.code), ev, pushed);
    }

    /** socket_poll: one event of a pooled instance. */
    method SocketPoll(ev: Polled, pushed: bool) returns (r: int)
      requires Valid() && Forwardable(PoolAction(ev.code), ev.result)
      requires Handed(PoolAction(ev.code), ev.result) <= live
      modifies this
      ensures Valid()
      ensures r == PollReturn(PoolAction(ev.code), ev.more)
      ensures State() == PollEffect(old(State()), PoolAction(ev.code), ev, pushed)
    {
      r := DispatchEvent(PoolAction(ev.code), ev, pushed);
    }

    /** thread_qs_socket over a finite run of polls: events[i], pushes[i] and
        totals[i] are what the multiplexer, the mailbox and the actor count
        answer on the i-th iteration. Returns the index of the poll after
        which the loop broke, or |events| if it is still running. The polls
        made so far have delivered, freed and kept exactly what the run
        functions of module Effects say, in event order. */
    method ThreadQsSocket(events: seq<Polled>, pushes: seq<bool>, totals: seq<nat>) returns (n: nat)
      requires Valid() && |events| == |pushes| == |totals| && RunForwardable(events)
      requires forall i :: 0 <= i < |events| ==> Handed(PoolAction(events[i].code), events[i].result) <= live
      requires forall i, j :: 0 <= i < j < |events| ==>
                 Handed(PoolAction(events[i].code), events[i].result) !! Handed(PoolAction(events[j].code), events[j].result)
      modifies this
      ensures Valid()
      ensures n == FirstStop(PoolStatuses(events), totals) && PollsMade(n, |events|) <= |events|
      ensures State() == RunEffect(old(State()), events[..PollsMade(n, |events|)], pushes[..PollsMade(n, |events|)])
      ensures mailbox == old(mailbox) + Deliveries(events[..PollsMade(n, |events|)], pushes[..PollsMade(n, |events|)], old(next))
      ensures freed == old(freed) + FreeLog(events[..PollsMade(n, |events|)], pushes[..PollsMade(n, |events|)], old(next))
      ensures live == (old(live) - Dropped(events[..PollsMade(n, |events|)], pushes[..PollsMade(n, |events|)])) +
                      Kept(events[..PollsMade(n, |events|)], pushes[..PollsMade(n, |events|)], old(next))
      ensures next == old(next) + Forwards(events[..PollsMade(n, |events|)])
    {
      ghost var codes := PoolStatuses(events);
      ghost var h0 := State();
      n := 0;
      while n < |events|
        invariant n <= |events| && Valid()
        invariant forall j :: 0 <= j < n ==> !ShouldStop(codes[j], totals[j])
        invariant forall j :: n <= j < |events| ==> Handed(PoolAction(events[j].code), events[j].result) <= live
        invariant State() == RunEffect(h0, events[..n], pushes[..n])
        decreases |events| - n
      {
        ghost var before := State();
        var r := SocketPoll(events[n], pushes[n]);
        forall j | n < j < |events|
          ensures Handed(PoolAction(events[j].code), events[j].result) <= live
        {
          assert Handed(PoolAction(events[n].code), events[n].result) !! Handed(PoolAction(events[j].code), events[j].result);
          PollKeepsOthersLive(before, PoolAction(events[n].code), events[n], pushes[n],
                              Handed(PoolAction(events[j].code), events[j].result));
        }
        RunEffectExtend(h0, events, pushes, n);
        assert r == codes[n];
        if r == 0 {
          break;
        }
        if r < 0 && totals[n] == 0 {
          break;
        }
        n := n + 1;
      }
      FirstStopIs(codes, totals, n);
      ghost var k := PollsMade(n, |events|);
      RunEffectSummary(h0, events, pushes, k);
    }
  }

  /** The accepted-connection scenario: an accept event owned by actor 7
      whose address text is "1.2.3" arrives as an accept envelope for
      actor 7 with those five bytes inline and no buffer pointer. */
  method AcceptScenario() returns (dest: nat, e: Envelope)
    ensures dest == 7
    ensures e == Envelope(SKYNET_SOCKET_TYPE_ACCEPT, 3, 0, Null, [49, 46, 50, 46, 51])
  {
    var b := new Bridge();
    var text: seq<byte> := [49, 46, 50, 46, 51, 0];
    assert text[5] == 0;
    var ev := SocketMessage(3, 0, 7, At(100), text);
    assert InlineSource(ev) == text;
    var m;
    dest, m := b.ForwardMessage(SKYNET_SOCKET_TYPE_ACCEPT, true, ev, true);
    e := m.envelope;
    assert ClampedText(text[..5], text);
    ClampedTextUnique(e.payload, text[..5], text);
  }

  /** The dead-actor scenario: a data event whose buffer is live, pushed to
      an actor that no longer exists, carries that very buffer; the failed
      push frees the buffer and then the envelope block `at` and adds
      nothing to the mailbox, so no block stays live. */
  method DeadActorScenario() returns (buf: nat, at: nat, e: Envelope,
                                      ghost live: set<nat>, ghost freed: seq<nat>, ghost mailbox: seq<Delivery>)
    ensures e == Envelope(SKYNET_SOCKET_TYPE_DATA, 4, 10, At(buf), []) && at != buf
    ensures freed == [buf, at] && live == {} && mailbox == []
  {
    var b := new Bridge();
    buf := b.Malloc();
    var dest, m := b.ForwardMessage(SKYNET_SOCKET_TYPE_DATA, false, SocketMessage(4, 10, 9, At(buf), []), false);
    e, at := m.envelope, m.data;
    live, freed, mailbox := b.live, b.freed, b.mailbox;
  }
}
