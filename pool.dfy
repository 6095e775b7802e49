/** The multiplexer pool of skynet_socket.c (`struct socket_server_pool`
    ss_pool with the default instance SOCKET_SERVER beside it):
    registration of a new instance with its poller thread, the count, lookup
    by identifier, and the UDP address helpers that consult an instance.

    The registry's growth step as written allocates the new storage before
    doubling `size`, so the third registration writes past the end of the
    storage. PoolShape and GrowAppend describe the growth step on the
    storage length alone, both as written and with the evident fix
    (allocate the doubled size); class Registry implements the fixed one. */
module Pool {
  import opened Codec

  /** A `struct socket_server *`: NULL or an instance. */
  datatype Server = NoServer | Server(handle: nat)

  /** What a UDP address helper does: answer NULL without consulting any
      instance, or ask `server` for the address of `request`. */
  datatype UdpQuery = NotUdp | Consult(server: Server, request: SocketMessage)

  /** The pool's storage length (slots allocated for `list`), `count` and `size`. */
  datatype PoolShape = PoolShape(length: nat, count: nat, size: nat)

  /** The outcome of one append: the new shape, or the out-of-bounds write
      `list[index]` into storage of `length` slots. */
  datatype Append = Stored(after: PoolShape) | OutOfBounds(index: nat, length: nat)

  /** One successful registration, lines 285-297: if count + 1 == size the
      storage is replaced and size doubled, then list[count] is written.
      As written (fixed == false) the new storage has `size` slots, taken
      before the doubling; the fix gives it the doubled size. */
  function GrowAppend(p: PoolShape, fixed: bool): (r: Append)
    ensures r.Stored? ==> r.after.count == p.count + 1 && r.after.count <= r.after.length
    ensures r.OutOfBounds? ==> r.index == p.count && r.index >= r.length
  {
    var grow := p.count + 1 == p.size;
    var length := if !grow then p.length else if fixed then 2 * p.size else p.size;
    var size := if grow then 2 * p.size else p.size;
    if p.count < length then Stored(PoolShape(length, p.count + 1, size))
    else OutOfBounds(p.count, length)
  }

  /** The shape of `{NULL, 0, 1}`, the pool before any registration. */
  const INITIAL_SHAPE := PoolShape(0, 0, 1)

  /** The invariant the fixed growth keeps: count stays below size, and the
      storage holds `size` slots unless the next append grows it anyway. */
  predicate ShapeInvariant(p: PoolShape)
  {
    p.count < p.size && p.count <= p.length && (p.count + 1 == p.size || p.size <= p.length)
  }

  /** As written, the third registration writes list[2] into two slots. */
  lemma AsWrittenThirdAppendOverflows()
    ensures GrowAppend(INITIAL_SHAPE, false) == Stored(PoolShape(1, 1, 2))
    ensures GrowAppend(PoolShape(1, 1, 2), false) == Stored(PoolShape(2, 2, 4))
    ensures GrowAppend(PoolShape(2, 2, 4), false) == OutOfBounds(2, 2)
    ensures ShapeInvariant(INITIAL_SHAPE) && !ShapeInvariant(PoolShape(2, 2, 4))
  {
  }

  /** With the fix, every append from a shape satisfying the invariant stays
      in bounds and keeps the invariant. */
  lemma FixedAppendInBounds(p: PoolShape)
    requires ShapeInvariant(p)
    ensures GrowAppend(p, true).Stored? && ShapeInvariant(GrowAppend(p, true).after)
  {
  }

  /** The outcome of `n` successive successful registrations on the
      initial pool; once a write has gone out of bounds it stays recorded. */
  function Registrations(n: nat, fixed: bool): (r: Append)
    ensures r.Stored? ==> r.after.count == n
  {
    if n == 0 then Stored(INITIAL_SHAPE)
    else
      var prev := Registrations(n - 1, fixed);
      if prev.OutOfBounds? then prev else GrowAppend(prev.after, fixed)
  }

  /** As written, registrations go wrong from the third one on. */
  lemma {:induction false} AsWrittenOverflowsFromThird(n: nat)
    requires n >= 3
    ensures Registrations(n, false) == OutOfBounds(2, 2)
  {
    if n == 3 {
      AsWrittenThirdAppendOverflows();
    } else {
      AsWrittenOverflowsFromThird(n - 1);
    }
  }

  /** With the fix, any number of registrations stays in bounds and keeps
      the shape invariant. */
  lemma {:induction false} FixedRegistrationsInBounds(n: nat)
    ensures Registrations(n, true).Stored? && ShapeInvariant(Registrations(n, true).after)
  {
    if n > 0 {
      FixedRegistrationsInBounds(n - 1);
      FixedAppendInBounds(Registrations(n - 1, true).after);
    }
  }

  /** The pool plus the default instance. */
  class Registry {
    /** SOCKET_SERVER, the instance that identifier 0 names. */
    var defaultServer: Server
    var list: array<Server>
    var count: int
    var size: int
    /** Every instance handed to socket_server_release, in order. */
    ghost var released: seq<Server>

    ghost predicate Valid()
      reads this
    {
      0 <= count && 0 < size && ShapeInvariant(Shape())
    }

    ghost function Shape(): PoolShape
      reads this
      requires 0 <= count && 0 <= size
    {
      PoolShape(list.Length, count as nat, size as nat)
    }

    /** The registered instances; identifier k names Contents()[k - 1]. */
    ghost function Contents(): seq<Server>
      reads this, list
      requires Valid()
    {
      list[..count]
    }

    /** The pool `{NULL, 0, 1}` beside a default instance. */
    constructor (defaultInstance: Server)
      ensures Valid() && defaultServer == defaultInstance && Contents() == []
      ensures Shape() == INITIAL_SHAPE && released == [] && fresh(list)
    {
      defaultServer := defaultInstance;
      list := new Server[0];
      count, size := 0, 1;
      released := [];
    }

    /** new_socket_server with the instance `ss` socket_server_create gave
        and the outcome of starting its poller thread. A failed start
        releases the instance and returns 0; otherwise `ss` is appended
        (growing the storage by copying when count + 1 == size) and its
        1-based identifier returned. */
    method NewSocketServer(ss: Server, started: bool) returns (id: int)
      requires Valid()
      modifies this, list
      ensures Valid() && defaultServer == old(defaultServer)
      ensures list == old(list) || fresh(list)
      ensures !started ==> id == 0 && Contents() == old(Contents()) && released == old(released) + [ss]
      ensures !started ==> list == old(list) && count == old(count) && size == old(size)
      ensures started ==> id == count == old(count) + 1 && released == old(released)
      ensures started ==> Contents() == old(Contents()) + [ss]
      ensures started ==> old(GrowAppend(Shape(), true)) == Stored(Shape())
      ensures started ==> GetSocketServer(id) == ss &&
                          forall k :: k != id ==> GetSocketServer(k) == old(GetSocketServer(k))
    {
      if !started {
        released := released + [ss];
        return 0;
      }
      if count + 1 == size {
        var grown := new Server[2 * size];
        var i := 0;
        while i < count
          invariant 0 <= i <= count
          modifies grown
          invariant grown[..i] == list[..i]
        {
          grown[i] := list[i];
          i := i + 1;
        }
        size := size * 2;
        list := grown;
      }
      list[count] := ss;
      count := count + 1;
      id := count;
    }

    /** count_socket_server. */
    function CountSocketServer(): (n: int)
      reads this, list
      requires Valid()
      ensures n == |Contents()|
    {
      count
    }

    /** get_socket_server: 0 names the default instance, identifiers
        outside [1, count] name nothing, and k names the k-th registered. */
    function GetSocketServer(id: int): (s: Server)
      reads this, list
      requires Valid()
      ensures id == 0 ==> s == defaultServer
      ensures id != 0 && !(1 <= id <= |Contents()|) ==> s == NoServer
      ensures 1 <= id <= |Contents()| ==> s == Contents()[id - 1]
    {
      if id == 0 then defaultServer
      else if id < 1 || id > count then NoServer
      else list[id - 1]
    }

    /** skynet_socket_udp_address: only a UDP envelope reaches the default
        instance, with the event rebuilt from the envelope. */
    function SkynetSocketUdpAddress(msg: Envelope): (q: UdpQuery)
      reads this
      ensures msg.kind != SKYNET_SOCKET_TYPE_UDP ==> q == NotUdp
      ensures msg.kind == SKYNET_SOCKET_TYPE_UDP ==> q == Consult(defaultServer, UdpRequest(msg))
    {
      if msg.kind != SKYNET_SOCKET_TYPE_UDP then NotUdp
      else Consult(defaultServer, UdpRequest(msg))
    }

    /** qs_socket_udp_address: the same guard, before the instance named
        by `ssid` is looked up. */
    function QsSocketUdpAddress(ssid: int, msg: Envelope): (q: UdpQuery)
      reads this, list
      requires Valid()
      ensures msg.kind != SKYNET_SOCKET_TYPE_UDP ==> q == NotUdp
      ensures msg.kind == SKYNET_SOCKET_TYPE_UDP ==> q == Consult(GetSocketServer(ssid), UdpRequest(msg))
    {
      if msg.kind != SKYNET_SOCKET_TYPE_UDP then NotUdp
      else
        var ss := GetSocketServer(ssid);
        Consult(ss, UdpRequest(msg))
    }

    /** The pooled helper with identifier 0 is the default-instance helper,
        and an envelope packed from a UDP event is answered by asking the
        instance about that event's id, ud and buffer. */
    lemma UdpHelpersAgree(ssid: int, kind: int, padding: bool, ev: SocketMessage)
      requires Valid() && Readable(padding, ev)
      ensures QsSocketUdpAddress(0, Pack(kind, padding, ev)) == SkynetSocketUdpAddress(Pack(kind, padding, ev))
      ensures kind != SKYNET_SOCKET_TYPE_UDP ==> QsSocketUdpAddress(ssid, Pack(kind, padding, ev)) == NotUdp
      ensures kind == SKYNET_SOCKET_TYPE_UDP && !padding ==>
                QsSocketUdpAddress(ssid, Pack(kind, padding, ev)) ==
                Consult(GetSocketServer(ssid), ev.(owner := 0, text := []))
    {
    }
  }

  /** Registering three instances on a fresh pool (with the fixed growth)
      yields identifiers 1, 2, 3, each naming its instance, while 0 still
      names the default instance and 4 names nothing. */
  method RegisterThree(d: Server, a: Server, b: Server, c: Server)
    returns (ids: seq<int>, found: seq<Server>)
    ensures ids == [1, 2, 3]
    ensures found == [d, a, b, c, NoServer]
  {
    var pool := new Registry(d);
    var i1 := pool.NewSocketServer(a, true);
    var i2 := pool.NewSocketServer(b, true);
    var i3 := pool.NewSocketServer(c, true);
    ids := [i1, i2, i3];
    found := [pool.GetSocketServer(0), pool.GetSocketServer(1), pool.GetSocketServer(2),
              pool.GetSocketServer(3), pool.GetSocketServer(4)];
  }
}
