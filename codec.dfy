/** Event envelope codec of skynet_socket.c: how a multiplexer event
    (`struct socket_message`) is packed into the envelope that an actor
    receives (`struct skynet_socket_message`), how the envelope's size word
    is tagged, and how an envelope is read back for a UDP address query.

    Numeric constants follow the upstream headers socket_server.h,
    skynet_socket.h, skynet.h and skynet_mq.h for a 64-bit target; those
    headers are not part of this model. Some proofs depend on the values
    themselves: Dispatch.RecognisedCodes on the event codes being exactly
    0..7 with SOCKET_UDP = 6 and SOCKET_WARNING = 7, and TagSize and
    SmallSizeTagged on the mask covering exactly the bits below the shift
    and on PTYPE_SOCKET being below 2^8. */
module Codec {

  newtype byte = b: int | 0 <= b < 256

  /** A raw C pointer: NULL or the address of a live allocation. */
  datatype Ptr = Null | At(addr: nat)

  /** Longest inline text an envelope carries (the clamp in forward_message). */
  const MAX_INLINE: nat := 128

  /** sizeof(struct skynet_socket_message): int type, int id, int ud, char *buffer. */
  const HEADER_SIZE: nat := 24

  /** Message type tag for socket traffic and where it sits in the size word. */
  const PTYPE_SOCKET: bv64 := 6
  const MESSAGE_TYPE_SHIFT: bv64 := 56
  /** SIZE_MAX >> 8: the bits of the size word that hold the size. */
  const MESSAGE_TYPE_MASK: bv64 := 0x00FF_FFFF_FFFF_FFFF

  /** Envelope kinds seen by actors (SKYNET_SOCKET_TYPE_*). */
  const SKYNET_SOCKET_TYPE_DATA: int := 1
  const SKYNET_SOCKET_TYPE_CONNECT: int := 2
  const SKYNET_SOCKET_TYPE_CLOSE: int := 3
  const SKYNET_SOCKET_TYPE_ACCEPT: int := 4
  const SKYNET_SOCKET_TYPE_ERROR: int := 5
  const SKYNET_SOCKET_TYPE_UDP: int := 6
  const SKYNET_SOCKET_TYPE_WARNING: int := 7

  /** One event as the multiplexer reports it. `text` stands for the bytes
      readable at `data`, and `owner` is the C field `opaque` (the actor that
      owns the socket). `text` matters only for the inline kinds, where `data`
      is a NUL-terminated C string, so it must hold a NUL there. */
  datatype SocketMessage = SocketMessage(id: int, ud: int, owner: nat, data: Ptr, text: seq<byte>)

  /** The envelope: the header fields plus either the handed-over buffer
      pointer or the inline bytes copied right after the header. */
  datatype Envelope = Envelope(kind: int, id: int, ud: int, buffer: Ptr, payload: seq<byte>)

  /** Bytes allocated for an envelope: the header and the inline bytes. */
  function Size(e: Envelope): nat
  {
    HEADER_SIZE + |e.payload|
  }

  predicate NoNul(s: seq<byte>)
  {
    forall i :: 0 <= i < |s| ==> s[i] != 0
  }

  predicate HasNul(s: seq<byte>)
  {
    exists i :: 0 <= i < |s| && s[i] == 0
  }

  function Min(a: nat, b: nat): nat
  {
    if a < b then a else b
  }

  /** strlen: the position of the first NUL. */
  function Strlen(s: seq<byte>): (n: nat)
    requires HasNul(s)
    ensures n < |s| && s[n] == 0
    ensures NoNul(s[..n])
    decreases |s|
  {
    if s[0] == 0 then 0
    else
      assert HasNul(s[1..]) by {
        var i :| 0 <= i < |s| && s[i] == 0;
        assert s[1..][i - 1] == 0;
      }
      1 + Strlen(s[1..])
  }

  /** The C string forward_message copies from: a NULL data pointer is
      replaced by the literal "", whose only byte is its terminator. */
  function InlineSource(ev: SocketMessage): (s: seq<byte>)
    ensures ev.data.Null? ==> s == [0]
    ensures ev.data.At? ==> s == ev.text
  {
    if ev.data.Null? then [0] else ev.text
  }

  /** What the caller of forward_message guarantees about the event: an
      inline kind carries a readable C string (or NULL). */
  predicate Readable(padding: bool, ev: SocketMessage)
  {
    padding ==> HasNul(InlineSource(ev))
  }

  /** `p` is the text `s` clamped to MAX_INLINE bytes: a prefix of `s`
      without NUL that either fills the clamp or stops at the terminator. */
  predicate ClampedText(p: seq<byte>, s: seq<byte>)
  {
    |p| <= MAX_INLINE && p <= s && NoNul(p) &&
    (|p| < MAX_INLINE ==> |p| < |s| && s[|p|] == 0)
  }

  /** The buffer pointer an envelope carries: none for the inline kinds,
      the event's own data pointer otherwise. */
  function BufferOf(padding: bool, ev: SocketMessage): Ptr
  {
    if padding then Null else ev.data
  }

  /** forward_message's packing step: fill the header from the event and
      either copy the clamped text inline (clearing the pointer) or hand the
      event's buffer pointer over untouched. */
  function Pack(kind: int, padding: bool, ev: SocketMessage): (e: Envelope)
    requires Readable(padding, ev)
    ensures e.kind == kind && e.id == ev.id && e.ud == ev.ud && e.buffer == BufferOf(padding, ev)
    ensures padding ==> e.buffer == Null && ClampedText(e.payload, InlineSource(ev))
    ensures padding && ev.data.Null? ==> e.payload == []
    ensures !padding ==> e.buffer == ev.data && e.payload == []
    ensures Size(e) <= HEADER_SIZE + MAX_INLINE
  {
    if padding then
      var s := InlineSource(ev);
      var n := Min(Strlen(s), MAX_INLINE);
      Envelope(kind, ev.id, ev.ud, Null, s[..n])
    else
      Envelope(kind, ev.id, ev.ud, ev.data, [])
  }

  /** The clamped text of a string is unique. */
  lemma ClampedTextUnique(p: seq<byte>, q: seq<byte>, s: seq<byte>)
    requires ClampedText(p, s) && ClampedText(q, s)
    ensures p == q
  {
  }

  /** The clamped text is exactly min(strlen(s), 128) bytes long. */
  lemma ClampedTextLength(p: seq<byte>, s: seq<byte>)
    requires HasNul(s) && ClampedText(p, s)
    ensures |p| == Min(Strlen(s), MAX_INLINE)
  {
  }

  /** Inline kinds: the envelope is header + min(L, 128) bytes, L the
      string length, and a NULL text gives an empty payload. */
  lemma InlineSize(kind: int, ev: SocketMessage)
    requires Readable(true, ev)
    ensures Size(Pack(kind, true, ev)) == HEADER_SIZE + Min(Strlen(InlineSource(ev)), MAX_INLINE)
    ensures Pack(kind, true, ev).payload == InlineSource(ev)[..Min(Strlen(InlineSource(ev)), MAX_INLINE)]
  {
    var e := Pack(kind, true, ev);
    ClampedTextLength(e.payload, InlineSource(ev));
  }

  /** Bits of a size word that hold the size. */
  function SizeOf(w: bv64): bv64
  {
    w & MESSAGE_TYPE_MASK
  }

  /** Bits of a size word that hold the message type. */
  function TypeOf(w: bv64): bv64
  {
    w >> MESSAGE_TYPE_SHIFT
  }

  /** `sz | ((size_t)PTYPE_SOCKET << MESSAGE_TYPE_SHIFT)`: while the size
      fits below the shift, both halves can be read back. */
  function TagSize(sz: bv64): (w: bv64)
    ensures sz < 1 << MESSAGE_TYPE_SHIFT ==> SizeOf(w) == sz && TypeOf(w) == PTYPE_SOCKET
  {
    sz | (PTYPE_SOCKET << MESSAGE_TYPE_SHIFT)
  }

  /** An envelope size (at most 152 bytes) survives the tagging: the size
      word reads back as that size and PTYPE_SOCKET. */
  lemma SmallSizeTagged(n: nat)
    requires n < 0x100
    ensures SizeOf(TagSize(n as bv64)) == n as bv64 && TypeOf(TagSize(n as bv64)) == PTYPE_SOCKET
  {
    var b := n as bv8;
    assert b as bv64 == n as bv64;
  }

  /** `(uint32_t)result->opaque`: the low 32 bits of the 64-bit owner word. */
  function Destination(owner: nat): (d: nat)
    requires owner < 0x1_0000_0000_0000_0000
    ensures d < 0x1_0000_0000
    ensures owner < 0x1_0000_0000 ==> d == owner
    ensures (owner - d) % 0x1_0000_0000 == 0
  {
    owner % 0x1_0000_0000
  }

  /** The event a UDP address query hands back to the multiplexer, rebuilt
      from an envelope: id, ud and buffer, with owner 0. */
  function UdpRequest(e: Envelope): (sm: SocketMessage)
    ensures sm.owner == 0
  {
    SocketMessage(e.id, e.ud, 0, e.buffer, [])
  }

  /** Reading a UDP envelope back gives the multiplexer the same id, ud and
      buffer pointer it reported (only the owner is cleared). */
  lemma UdpRequestRecoversEvent(ev: SocketMessage)
    ensures UdpRequest(Pack(SKYNET_SOCKET_TYPE_UDP, false, ev)) == ev.(owner := 0, text := [])
  {
  }
}
