/** The classification `switch` of the two poll functions of
    skynet_socket.c, skynet_socket_poll (the default instance, driven by the
    runtime's own loop) and socket_poll (the pooled instances), and the
    three-way status they return. */
module Dispatch {
  import opened Codec

  /** Event codes reported by the multiplexer (SOCKET_* of socket_server.h). */
  const SOCKET_DATA: int := 0
  const SOCKET_CLOSE: int := 1
  const SOCKET_OPEN: int := 2
  const SOCKET_ACCEPT: int := 3
  const SOCKET_ERR: int := 4
  const SOCKET_EXIT: int := 5
  const SOCKET_UDP: int := 6
  const SOCKET_WARNING: int := 7

  /** What a poll function does with one event: stop, forward an envelope of
      the given kind (inline or by pointer), or log an unknown code. */
  datatype Action = Exit | Forward(kind: int, padding: bool) | Unknown

  /** The switch of skynet_socket_poll. */
  function MainloopAction(t: int): Action
  {
    if t == SOCKET_EXIT then Exit
    else if t == SOCKET_DATA then Forward(SKYNET_SOCKET_TYPE_DATA, false)
    else if t == SOCKET_CLOSE then Forward(SKYNET_SOCKET_TYPE_CLOSE, false)
    else if t == SOCKET_OPEN then Forward(SKYNET_SOCKET_TYPE_CONNECT, true)
    else if t == SOCKET_ERR then Forward(SKYNET_SOCKET_TYPE_ERROR, true)
    else if t == SOCKET_ACCEPT then Forward(SKYNET_SOCKET_TYPE_ACCEPT, true)
    else if t == SOCKET_UDP then Forward(SKYNET_SOCKET_TYPE_UDP, false)
    else if t == SOCKET_WARNING then Forward(SKYNET_SOCKET_TYPE_WARNING, false)
    else Unknown
  }

  /** The switch of socket_poll: the same cases without SOCKET_WARNING. */
  function PoolAction(t: int): Action
  {
    if t == SOCKET_EXIT then Exit
    else if t == SOCKET_DATA then Forward(SKYNET_SOCKET_TYPE_DATA, false)
    else if t == SOCKET_CLOSE then Forward(SKYNET_SOCKET_TYPE_CLOSE, false)
    else if t == SOCKET_OPEN then Forward(SKYNET_SOCKET_TYPE_CONNECT, true)
    else if t == SOCKET_ERR then Forward(SKYNET_SOCKET_TYPE_ERROR, true)
    else if t == SOCKET_ACCEPT then Forward(SKYNET_SOCKET_TYPE_ACCEPT, true)
    else if t == SOCKET_UDP then Forward(SKYNET_SOCKET_TYPE_UDP, false)
    else Unknown
  }

  /** The status a poll function returns: 0 stops the poller for good,
      1 means nothing more is pending, -1 means poll again at once (more
      events pending, or an unknown code was logged). */
  function PollReturn(a: Action, more: int): (r: int)
    ensures r == 0 || r == 1 || r == -1
    ensures r == 0 <==> a.Exit?
    ensures r == 1 <==> a.Forward? && more == 0
    ensures r < 0 <==> a.Unknown? || (a.Forward? && more != 0)
  {
    match a
    case Exit => 0
    case Unknown => -1
    case Forward(_, _) => if more != 0 then -1 else 1
  }

  /** The envelope kinds that carry a short text inline rather than a buffer. */
  predicate IsTextKind(kind: int)
  {
    kind == SKYNET_SOCKET_TYPE_CONNECT || kind == SKYNET_SOCKET_TYPE_ERROR || kind == SKYNET_SOCKET_TYPE_ACCEPT
  }

  /** Both switches inline exactly the text kinds (open, error, accept);
      data, close, UDP and warning go by pointer. */
  lemma PaddingExactlyForTextKinds(t: int)
    ensures MainloopAction(t).Forward? ==> (MainloopAction(t).padding <==> IsTextKind(MainloopAction(t).kind))
    ensures PoolAction(t).Forward? ==> (PoolAction(t).padding <==> IsTextKind(PoolAction(t).kind))
  {
  }

  /** Distinct event codes are forwarded as distinct envelope kinds, by
      either switch. */
  lemma ForwardKindsDistinct(t1: int, t2: int)
    ensures MainloopAction(t1).Forward? && MainloopAction(t2).Forward? ==>
              (MainloopAction(t1).kind == MainloopAction(t2).kind <==> t1 == t2)
    ensures PoolAction(t1).Forward? && PoolAction(t2).Forward? ==>
              (PoolAction(t1).kind == PoolAction(t2).kind <==> t1 == t2)
  {
  }

  /** The recognised codes: 0..7 for skynet_socket_poll, 0..6 for socket_poll. */
  lemma RecognisedCodes(t: int)
    ensures MainloopAction(t) != Unknown <==> SOCKET_DATA <= t <= SOCKET_WARNING
    ensures PoolAction(t) != Unknown <==> SOCKET_DATA <= t <= SOCKET_UDP
  {
  }

  /** The two switches agree on every code but SOCKET_WARNING, which
      skynet_socket_poll forwards and socket_poll logs as unknown. */
  lemma PollVariantsDiffer(t: int)
    ensures t != SOCKET_WARNING ==> PoolAction(t) == MainloopAction(t)
    ensures MainloopAction(SOCKET_WARNING) == Forward(SKYNET_SOCKET_TYPE_WARNING, false)
    ensures PoolAction(SOCKET_WARNING) == Unknown
    ensures PollReturn(PoolAction(SOCKET_WARNING), 0) == -1
    ensures PollReturn(MainloopAction(SOCKET_WARNING), 0) == 1
  {
  }
}
