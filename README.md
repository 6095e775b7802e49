# skynet socket bridge, modelled in Dafny

This project models `skynet-src/skynet_socket.c`, the layer of the skynet
actor runtime that connects socket multiplexer instances (`socket_server`)
to actor mailboxes. Four parts are modelled.

- **Envelope codec** (`codec.dfy`, module `Codec`). `forward_message` turns
  an event into a `skynet_socket_message`. For the inline kinds (open, error,
  accept), the event's C string is clamped to 128 bytes and copied after the
  header, and the buffer pointer is cleared. A NULL string becomes `""`. For
  the other kinds, the event's data pointer is handed over untouched. The
  size word is tagged with `PTYPE_SOCKET << MESSAGE_TYPE_SHIFT`, and the
  owner word is truncated to a 32-bit actor handle.
- **Delivery and the poll drivers** (`bridge.dfy`, module `Bridge`,
  `effects.dfy`, module `Effects`, and `dispatch.dfy`, module `Dispatch`).
  Class `Bridge` keeps the allocator's ghost state: the live blocks, a log of
  every free, and the messages the mailbox accepted. `ForwardMessage`
  allocates and fills the envelope. When the push fails, it frees the
  handed-over buffer and the envelope, each exactly once. `skynet_socket_poll`
  and `socket_poll` are modelled as two switch tables over a shared dispatch
  step. They differ on `SOCKET_WARNING`. Every forward, poll and run of the
  class is proved equal to a function of module `Effects` on the old state,
  and the lemmas there say what a run of polls delivers, frees and keeps.
  `Malloc` and `Free` state their new fields directly.
- **Poller thread** (`poller.dfy`, module `Poller`, plus
  `Bridge.ThreadQsSocket`). The exit rule of `thread_qs_socket` is stated
  over the statuses its polls return and the actor totals it reads.
- **Pool registry** (`pool.dfy`, module `Pool`). Class `Registry` models
  `ss_pool` as an `array` with `count` and `size`, beside the default
  instance `SOCKET_SERVER`. It covers registration with growth by copying,
  the count, lookup by identifier, and the UDP-address guards.

Foreign calls become inputs:
- `socket_server_poll` gives a `Polled` value: the event code, the event and `more`.
- `skynet_context_push` gives a boolean outcome.
- `skynet_context_total` gives a number per poll.
- `pthread_create` gives a boolean outcome.
- `socket_server_create` gives the new instance handle.
- `socket_server_udp_address` appears as the `Consult` request it would receive.

The constants come from the upstream headers `socket_server.h`,
`skynet_socket.h`, `skynet.h` and `skynet_mq.h`, which are not part of this
model. They are fixed for a 64-bit target: `SOCKET_*` = 0..7,
`SKYNET_SOCKET_TYPE_*` = 1..7, `PTYPE_SOCKET` = 6, `MESSAGE_TYPE_SHIFT` = 56,
`MESSAGE_TYPE_MASK` = 2^56 - 1 and a header size of 24 bytes. Some proofs
depend on these values. `Dispatch.RecognisedCodes` needs the event codes to
be exactly 0..7, with `SOCKET_UDP` = 6 and `SOCKET_WARNING` = 7.
`Codec.TagSize` and `Codec.SmallSizeTagged` need the mask to cover exactly
the bits below the shift, and `PTYPE_SOCKET` to be below 2^8. The other proofs need the codes and kinds to be
distinct and the envelope to stay below 256 bytes.

Three behaviours of the code are worth stating plainly:
- An idle status (1) never stops a poller, even with no actors left. Line 269
  of `skynet_socket.c` reads the actor total only when the status is
  negative (`Poller.IdleNeverStops`, `Poller.StopRule`).
- UDP and warning events go by pointer, not inline. Both switches forward
  `SOCKET_UDP` and `SOCKET_WARNING` with `padding == false`
  (`Dispatch.PaddingExactlyForTextKinds`).
- `socket_poll`, the driver of the pooled instances, does not forward
  warnings. It has no `SOCKET_WARNING` case, so it logs the code as unknown
  and returns -1. `skynet_socket_poll` forwards it
  (`Dispatch.PollVariantsDiffer`).

## Model

| member | source | states |
|---|---|---|
| `Codec.Strlen` | skynet-src/skynet_socket.c:44 | The length is the position of the first NUL. No byte before it is NUL. |
| `Codec.InlineSource` | skynet-src/skynet_socket.c:49-51 | A NULL text is read as the literal `""` (its terminator only). Otherwise the event's bytes are read. |
| `Codec.Pack` | skynet-src/skynet_socket.c:39-62 | The header copies type, id and ud. Inline kinds get a NULL buffer and the text clamped to 128 bytes: a NUL-free prefix that either fills 128 bytes or stops at the terminator. A NULL text gives an empty payload. Other kinds get the event's pointer unchanged and no inline bytes. The size never exceeds header + 128. |
| `Codec.ClampedTextUnique` | skynet-src/skynet_socket.c:44-48 | There is exactly one clamped text of a string. |
| `Codec.ClampedTextLength` | skynet-src/skynet_socket.c:44-48 | The clamped text has exactly min(strlen, 128) bytes. |
| `Codec.InlineSize` | skynet-src/skynet_socket.c:42-59 | For inline kinds, the envelope size is header + min(L, 128), and the payload is the first min(L, 128) bytes of the text. |
| `Codec.TagSize` | skynet-src/skynet_socket.c:68 | While the size is below 2^56, the low bits of the tagged word give back the size and the high bits give `PTYPE_SOCKET`. |
| `Codec.SmallSizeTagged` | skynet-src/skynet_socket.c:68 | Every envelope size (below 256 bytes) survives the tagging: the size word reads back as that size and as `PTYPE_SOCKET`. |
| `Codec.Destination` | skynet-src/skynet_socket.c:70 | `(uint32_t)opaque` is below 2^32. It keeps any handle that already fits. It differs from the owner word by a multiple of 2^32. |
| `Codec.UdpRequest` | skynet-src/skynet_socket.c:198-202 | The event rebuilt from an envelope has opaque 0. |
| `Codec.UdpRequestRecoversEvent` | skynet-src/skynet_socket.c:198-202 | Rebuilding a packed UDP envelope gives back the event's id, ud and buffer pointer. |
| `Dispatch.MainloopAction` | skynet-src/skynet_socket.c:85-112 | The switch of `skynet_socket_poll`. `SOCKET_EXIT` stops. `SOCKET_DATA`, `SOCKET_CLOSE`, `SOCKET_UDP` and `SOCKET_WARNING` forward as DATA, CLOSE, UDP and WARNING by pointer. `SOCKET_OPEN`, `SOCKET_ERR` and `SOCKET_ACCEPT` forward as CONNECT, ERROR and ACCEPT inline. Any other code is unknown. |
| `Dispatch.PoolAction` | skynet-src/skynet_socket.c:228-252 | The switch of `socket_poll`: the same cases, except that `SOCKET_WARNING` has no case and is unknown. |
| `Dispatch.PollReturn` | skynet-src/skynet_socket.c:113-116 | Each poll returns 0, 1 or -1. It returns 0 exactly on exit, 1 exactly after a forward with `more == 0`, and a negative value exactly for an unknown code or a forward with `more` set. |
| `Dispatch.PaddingExactlyForTextKinds` | skynet-src/skynet_socket.c:88-108 | In both switches, a forward is inline exactly when its kind is connect, error or accept. |
| `Dispatch.ForwardKindsDistinct` | skynet-src/skynet_socket.c:85-108 | In each switch, distinct event codes are forwarded as distinct envelope kinds. |
| `Dispatch.RecognisedCodes` | skynet-src/skynet_socket.c:228-252 | `skynet_socket_poll` recognises codes 0..7. `socket_poll` recognises 0..6. Every other code takes the unknown path. |
| `Dispatch.PollVariantsDiffer` | skynet-src/skynet_socket.c:249-251 | The two switches agree on every code except `SOCKET_WARNING`. `skynet_socket_poll` forwards a warning by pointer. `socket_poll` returns -1 and forwards nothing. |
| `Poller.FirstStop` | skynet-src/skynet_socket.c:264-271 | The index where the loop breaks: that iteration meets a break condition and no earlier one does. It is the run's length if the loop never breaks. |
| `Poller.FirstStopIs` | skynet-src/skynet_socket.c:264-271 | Any index that passes every earlier iteration and breaks on its own (or is the end of the run) is `FirstStop`: the break point is unique. |
| `Poller.StopRule` | skynet-src/skynet_socket.c:267-270 | The loop breaks exactly on exit, or on an unknown code or pending backlog while the actor total is 0. An idle status never breaks it. |
| `Poller.StopsWithinOneCycle` | skynet-src/skynet_socket.c:269-270 | A negative status read with an actor total of 0 ends the loop by that iteration at the latest. |
| `Poller.IdleNeverStops` | skynet-src/skynet_socket.c:266-270 | A run of idle statuses never ends the loop, even with no actors. |
| `Effects.Handed` | skynet-src/skynet_socket.c:57-61 | The block a forward hands over is exactly the buffer that the packed envelope points to: the data pointer of a by-pointer kind, and nothing for an inline kind or a NULL pointer. Exit and unknown codes hand over nothing. |
| `Effects.PostingSizeWord` | skynet-src/skynet_socket.c:64-68 | The size word of the message built for an envelope reads back as the envelope's size and as `PTYPE_SOCKET`. |
| `Effects.Posting` | skynet-src/skynet_socket.c:64-68 | The `skynet_message`: source 0, session 0, data the envelope's block, and `sz` the envelope size tagged with `PTYPE_SOCKET << MESSAGE_TYPE_SHIFT`. |
| `Effects.ForwardEffect` | skynet-src/skynet_socket.c:53-75 | Each forward allocates exactly one new block. |
| `Effects.ForwardKeepsSound` | skynet-src/skynet_socket.c:53-75 | A forward whose handed-over buffer is live keeps the heap sound: no block is freed twice and no freed block stays live. The envelope stays live exactly when the push succeeds. |
| `Effects.PollEffectParts` | skynet-src/skynet_socket.c:85-116 | One poll allocates a block only for a forward. It appends the message to the mailbox only on an accepted push. It logs the buffer and the envelope as freed only on a refused push. The live set changes by exactly those blocks. |
| `Effects.PollKeepsOthersLive` | skynet-src/skynet_socket.c:70-75 | A poll frees no live block other than its own handed-over buffer. |
| `Effects.Forwards` | skynet-src/skynet_socket.c:221-258 | A run forwards at most one event per poll. |
| `Effects.Kept` | skynet-src/skynet_socket.c:53-72 | The envelopes a run keeps lie in the range of blocks it allocates. |
| `Effects.RunEffectNext` | skynet-src/skynet_socket.c:53 | A run allocates exactly one block per forwarded event. |
| `Effects.RunEffectMailbox` | skynet-src/skynet_socket.c:64-72 | A run appends to the mailbox exactly the messages of its accepted forwards, in event order. The j-th forward's envelope is the j-th block allocated. |
| `Effects.RunEffectFreed` | skynet-src/skynet_socket.c:70-75 | A run frees exactly the handed-over buffer and then the envelope of each refused forward, in event order, and nothing else. |
| `Effects.RunEffectLive` | skynet-src/skynet_socket.c:53-75 | After a run, the live blocks are those live before it, less the buffers of refused forwards, plus the envelopes of accepted ones. |
| `Bridge.Bridge.Malloc` | skynet-src/skynet_socket.c:53 | The allocator returns the next block, which was never live and never freed, and adds it to the live set. |
| `Bridge.Bridge.Free` | skynet-src/skynet_socket.c:73-74 | Freeing NULL does nothing. Freeing a live block removes it from the live set and logs the free once. |
| `Bridge.Bridge.ForwardMessage` | skynet-src/skynet_socket.c:38-76 | The message has source 0 and session 0. It carries the packed envelope in a fresh block and the tagged size, and goes to `(uint32_t)opaque`. The new state is exactly `ForwardEffect` of the old one. A successful push appends the message to the mailbox and frees nothing. A failed push frees the handed-over buffer (if any) and then the envelope, and leaves the mailbox as it was. |
| `Bridge.Bridge.DispatchEvent` | skynet-src/skynet_socket.c:109-116 | After the switch, exit and unknown codes change nothing. A forward has exactly the effect of `ForwardMessage`. The status is given by `PollReturn`. |
| `Bridge.Bridge.SkynetSocketPoll` | skynet-src/skynet_socket.c:78-117 | One poll of the default instance, using the `skynet_socket_poll` switch, with its status and its forwarding effect. |
| `Bridge.Bridge.SocketPoll` | skynet-src/skynet_socket.c:221-258 | One poll of a pooled instance, using the `socket_poll` switch, with its status and its forwarding effect. |
| `Bridge.Bridge.ThreadQsSocket` | skynet-src/skynet_socket.c:260-273 | The loop stops at exactly `FirstStop` of the statuses `socket_poll` returns. It makes `FirstStop + 1` polls when it breaks and all of them when it does not. Over those polls, the mailbox gains exactly `Deliveries` and the free log gains exactly `FreeLog`, both in event order. The live set loses the refused buffers and gains the accepted envelopes. The no-double-free invariant holds throughout. |
| `Bridge.AcceptScenario` | skynet-src/skynet_socket.c:42-70 | An accept event owned by actor 7 with the text "1.2.3" gives an accept envelope for actor 7 with those 5 bytes inline and a NULL buffer. |
| `Bridge.DeadActorScenario` | skynet-src/skynet_socket.c:70-75 | A data event pushed to a dead actor carries its own buffer. The free log is exactly the buffer and then the envelope block, no block stays live, and the mailbox stays empty. |
| `Pool.GrowAppend` | skynet-src/skynet_socket.c:285-296 | A stored append raises the count by one within the storage. A failed append is the write `list[count]` at or past the storage length. |
| `Pool.AsWrittenThirdAppendOverflows` | skynet-src/skynet_socket.c:285-296 | As written, from `{NULL, 0, 1}` the first two registrations leave 2 slots with size 4. The third then writes `list[2]` into 2 slots. |
| `Pool.AsWrittenOverflowsFromThird` | skynet-src/skynet_socket.c:285-296 | As written, any run of three or more registrations reaches that out-of-bounds write. |
| `Pool.FixedAppendInBounds` | skynet-src/skynet_socket.c:285-296 | When the doubled size is allocated, every append from a pool meeting the shape invariant stays in bounds and keeps count < size, with room for the next append. |
| `Pool.Registrations` | skynet-src/skynet_socket.c:285-297 | After n stored registrations, the count is n. |
| `Pool.FixedRegistrationsInBounds` | skynet-src/skynet_socket.c:285-297 | With the fix, any number of registrations stays in bounds. |
| `Pool.Registry.constructor` | skynet-src/skynet_socket.c:213-219 | The pool starts as `{NULL, 0, 1}`, with no registered instances, beside the default instance. |
| `Pool.Registry.NewSocketServer` | skynet-src/skynet_socket.c:275-298 | If the thread fails to start, the instance is released, 0 is returned, and the list, count and size are unchanged. Otherwise the instance is appended, the new count is returned as its id, and lookup of that id gives the instance. Every other id looks up as before, and the storage follows the fixed growth step. |
| `Pool.Registry.CountSocketServer` | skynet-src/skynet_socket.c:300-303 | The count is the number of registered instances. |
| `Pool.Registry.GetSocketServer` | skynet-src/skynet_socket.c:305-313 | Id 0 gives the default instance. Ids outside [1, count] give NULL. Id k gives the k-th registered instance. |
| `Pool.Registry.SkynetSocketUdpAddress` | skynet-src/skynet_socket.c:193-204 | A non-UDP envelope gives NULL and consults no instance. A UDP envelope consults the default instance with the rebuilt event. |
| `Pool.Registry.QsSocketUdpAddress` | skynet-src/skynet_socket.c:394-407 | A non-UDP envelope gives NULL before any lookup. A UDP envelope consults the instance that `ssid` names, with the rebuilt event. |
| `Pool.Registry.UdpHelpersAgree` | skynet-src/skynet_socket.c:394-407 | With id 0 the pooled helper equals the default one. A packed non-UDP event never reaches an instance. A packed UDP event asks about its own id, ud and buffer. |
| `Pool.RegisterThree` | skynet-src/skynet_socket.c:279-313 | Three registrations on a fresh pool return 1, 2 and 3. Ids 0..3 give the default instance and the three registered ones, and id 4 gives NULL. |

## Findings

| source | as written | input that shows it | evidently intended | confidence | as-written member | corrected member |
|---|---|---|---|---|---|---|
| skynet-src/skynet_socket.c:287 | The new storage gets `ss_pool.size` slots, and line 293 only then doubles `size`. | Three successful `new_socket_server` calls on a fresh pool: storage of 2 slots, `size` 4, and the third call writes `list[2]` (line 296). | Allocate the doubled size, so the storage always has `size` slots. | not executed; the out-of-bounds write follows from the arithmetic alone | `Pool.AsWrittenThirdAppendOverflows` | `Pool.Registry.NewSocketServer` |

## Left out

- The multiplexer engine (`socket_server_create`, `_poll`, `_listen`, `_connect`, `_send`, `_udp_address`, `_info` and the rest) is foreign code. Poll results, push outcomes, actor totals, thread starts and new instance handles are inputs.
- The command wrappers at lines 119-191, 206-209 and 315-392 only forward to `socket_server_*`. Their one piece of logic is the `get_socket_server` lookup, which is modelled.
- `skynet_socket_init`, `_exit`, `_free` and `_updatetime` (lines 16-35) only pass calls to the default instance.
- Threads and the unsynchronised growth and lookup on `ss_pool` are not modelled. Concurrency is outside a sequential model, so a thread start is a boolean input.
- `skynet_error` logging, `skynet_now`, the `assert(ss)` checks and a failing `skynet_malloc` (fatal in the runtime) are not modelled.
- The old storage block replaced at line 294 is never freed. The model does not track the registry's own storage, so this leak is not shown.
- The C `int` fields `count` and `size` would overflow after about 2^30 registrations. The model uses unbounded integers.
- Bridge.Bridge.ThreadQsSocket: the source loop is unbounded (`for (;;)`). The model runs over a finite sequence of polls and reports "still running" when the run ends.
- Forwarding writes `""` back into the caller's event (line 50). Only its use as the copy source is modelled. The event is the poll function's local variable and is never read again.
- The text behind an inline kind's data pointer is borrowed from the multiplexer, so its memory is not tracked.
