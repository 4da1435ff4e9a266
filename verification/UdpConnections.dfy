/** The table of UDP peers: one session per address, found, added and closed in place. */
module UdpConnections {
  import opened Wrappers
  import opened Base64
  import opened LinkedList

  /** The bytes of a socket address, as many as its length says. */
  type Address = seq<Byte>

  class Connection {
    const sock: int
    const address: Address

    constructor (sock: int, address: Address)
      ensures this.sock == sock && this.address == address
    {
      this.sock, this.address := sock, address;
    }
  }

  // ---- The table as a value ------------------------------------------------------------------------------

  /** A session pointer and its address. A pointer that was freed may come back with another address. */
  datatype Peer = Peer(session: Connection, address: Address)

  ghost function Peers(connections: seq<Connection>): (table: seq<Peer>)
    ensures |table| == |connections|
    ensures forall i :: 0 <= i < |table| ==> table[i] == Peer(connections[i], connections[i].address)
  {
    seq(|connections|, i requires 0 <= i < |connections| => Peer(connections[i], connections[i].address))
  }

  /** The session of the first peer with an address. */
  ghost function FindPeer(table: seq<Peer>, address: Address): (found: Option<Connection>)
    ensures found.Some? ==> Peer(found.value, address) in table
    ensures found.None? ==> forall p :: p in table ==> p.address != address
  {
    if table == [] then None
    else if table[0].address == address then Some(table[0].session)
    else FindPeer(table[1..], address)
  }

  /** The table without the first peer of a session. */
  ghost function Without(table: seq<Peer>, session: Connection): (rest: seq<Peer>)
    ensures forall p :: p in rest ==> p in table
    ensures forall p :: p in table && p.session != session ==> p in rest
  {
    if table == [] then []
    else if table[0].session == session then table[1..]
    else [table[0]] + Without(table[1..], session)
  }

  /** Addresses are pairwise distinct, and so are sessions. */
  ghost predicate Distinct(table: seq<Peer>) {
    forall i, j :: 0 <= i < j < |table| ==> table[i].address != table[j].address && table[i].session != table[j].session
  }

  /** `spare` is the object that malloc would return if one is needed. */
  datatype Event = Datagram(address: Address, spare: Connection) | Closed(session: Connection)

  /** An allocated object is none of the live ones; only a listed session is closed. */
  ghost predicate Enabled(table: seq<Peer>, e: Event) {
    match e
    case Datagram(_, spare) => forall p :: p in table ==> p.session != spare
    case Closed(session) => exists p :: p in table && p.session == session
  }

  ghost function Step(table: seq<Peer>, e: Event): seq<Peer> {
    match e
    case Datagram(address, spare) =>
      if FindPeer(table, address).Some? then table else [Peer(spare, address)] + table
    case Closed(session) => Without(table, session)
  }

  /** The session that is handed up with a datagram. */
  ghost function SessionOf(table: seq<Peer>, address: Address, spare: Connection): Connection {
    var found := FindPeer(table, address);
    if found.Some? then found.value else spare
  }

  ghost function Run(table: seq<Peer>, events: seq<Event>): seq<Peer>
    decreases |events|
  {
    if events == [] then table else Run(Step(table, events[0]), events[1..])
  }

  ghost predicate EnabledAll(table: seq<Peer>, events: seq<Event>)
    decreases |events|
  {
    events == [] || (Enabled(table, events[0]) && EnabledAll(Step(table, events[0]), events[1..]))
  }

  lemma {:induction false} WithoutKeepsDistinct(table: seq<Peer>, session: Connection)
    requires Distinct(table)
    ensures Distinct(Without(table, session))
  {
    if table != [] && table[0].session != session {
      WithoutKeepsDistinct(table[1..], session);
      var rest := Without(table[1..], session);
      forall j | 0 <= j < |rest|
        ensures table[0].address != rest[j].address && table[0].session != rest[j].session
      {
        assert rest[j] in table[1..];
      }
    }
  }

  lemma StepKeepsDistinct(table: seq<Peer>, e: Event)
    requires Distinct(table) && Enabled(table, e)
    ensures Distinct(Step(table, e))
  {
    if e.Closed? {
      WithoutKeepsDistinct(table, e.session);
    }
  }

  /** In every reachable state the addresses in the table are pairwise distinct. */
  lemma {:induction false} RunKeepsDistinct(table: seq<Peer>, events: seq<Event>)
    requires Distinct(table) && EnabledAll(table, events)
    ensures Distinct(Run(table, events))
    decreases |events|
  {
    if events != [] {
      StepKeepsDistinct(table, events[0]);
      RunKeepsDistinct(Step(table, events[0]), events[1..]);
    }
  }

  lemma {:induction false} OpenSessionStays(table: seq<Peer>, events: seq<Event>, p: Peer)
    requires p in table && Closed(p.session) !in events
    ensures p in Run(table, events)
    decreases |events|
  {
    if events != [] {
      OpenSessionStays(Step(table, events[0]), events[1..], p);
    }
  }

  lemma FoundExactly(table: seq<Peer>, p: Peer)
    requires Distinct(table) && p in table
    ensures FindPeer(table, p.address) == Some(p.session)
  {
  }

  /**
   * Comparing session pointers is comparing addresses: two datagrams are handed up with the same session
   * exactly when they come from the same address, whatever happens in between short of closing that session.
   */
  lemma SameSessionExactlyWhenSameAddress(table: seq<Peer>, address: Address, spare: Connection,
                                          events: seq<Event>, address': Address, spare': Connection)
    requires Distinct(table)
    requires EnabledAll(table, [Datagram(address, spare)] + events)
    requires Closed(SessionOf(table, address, spare)) !in events
    requires Enabled(Run(table, [Datagram(address, spare)] + events), Datagram(address', spare'))
    ensures SessionOf(table, address, spare)
            == SessionOf(Run(table, [Datagram(address, spare)] + events), address', spare')
            <==> address == address'
  {
    var first := Datagram(address, spare);
    assert ([first] + events)[1..] == events;
    var p := Peer(SessionOf(table, address, spare), address);
    assert p in Step(table, first);
    OpenSessionStays(Step(table, first), events, p);
    RunKeepsDistinct(table, [first] + events);
    FoundExactly(Run(table, [first] + events), p);
  }

  // ---- The program ---------------------------------------------------------------------------------------

  lemma PeersAdded(c: Connection, connections: seq<Connection>)
    ensures Peers([c] + connections) == [Peer(c, c.address)] + Peers(connections)
  {
  }

  lemma AddedKeepsDistinct(table: seq<Peer>, p: Peer)
    requires Distinct(table) && forall q :: q in table ==> q.address != p.address && q.session != p.session
    ensures Distinct([p] + table)
  {
  }

  lemma {:induction false} PeersWithout(connections: seq<Connection>, c: Connection)
    ensures Peers(RemoveFirst(connections, c)) == Without(Peers(connections), c)
  {
    if connections != [] {
      var first, rest := connections[0], connections[1..];
      assert Peers(connections)[1..] == Peers(rest);
      PeersWithout(rest, c);
      PeersAdded(first, RemoveFirst(rest, c));
    }
  }

  lemma ListedOnce(connections: seq<Connection>)
    requires Distinct(Peers(connections))
    ensures NoDuplicates(connections)
  {
    forall i, j | 0 <= i < j < |connections|
      ensures connections[i] != connections[j]
    {
      assert Peers(connections)[i].session != Peers(connections)[j].session;
    }
  }

  lemma CutOut(connections: seq<Connection>, k: nat)
    requires k < |connections| && Distinct(Peers(connections))
    requires RemoveFirst(connections, connections[k]) == Cut(connections, k)
    ensures Distinct(Peers(Cut(connections, k))) && connections[k] !in Cut(connections, k)
    ensures Peers(Cut(connections, k)) == Without(Peers(connections), connections[k])
  {
    ListedOnce(connections);
    CutNoDuplicates(connections, k);
    PeersWithout(connections, connections[k]);
    WithoutKeepsDistinct(Peers(connections), connections[k]);
  }

  class Transport {
    const list: LinkedList<Connection>
    const listenSocket: int

    ghost predicate Valid()
      reads list, list.Repr
    {
      list.Valid() && Distinct(Table())
    }

    ghost function Table(): seq<Peer>
      reads list
    {
      Peers(list.Contents)
    }

    /** udp_connection_start, once the socket is bound. */
    constructor (listenSocket: int)
      ensures Valid() && fresh(list.Repr) && Table() == [] && this.listenSocket == listenSocket
    {
      this.listenSocket := listenSocket;
      list := new LinkedList<Connection>();
    }

    method Find(address: Address) returns (c: Connection?)
      requires Valid()
      ensures FindPeer(Table(), address) == if c == null then None else Some(c)
    {
      var node := list.head;
      ghost var k := 0;
      while node != null
        invariant k <= |list.Contents| && node == list.At(k)
        invariant FindPeer(Table(), address) == FindPeer(Table()[k..], address)
        decreases |list.Contents| - k
      {
        c := node.data;
        if c.address == address {
          return;
        }
        node := node.next;
        k := k + 1;
      }
      c := null;
    }

    method NewIncoming(address: Address) returns (c: Connection)
      requires Valid() && FindPeer(Table(), address).None?
      modifies list.Repr
      ensures Valid() && fresh(list.Repr - old(list.Repr)) && fresh(c)
      ensures c.sock == listenSocket && Table() == [Peer(c, address)] + old(Table())
    {
      c := new Connection(listenSocket, address);
      PeersAdded(c, list.Contents);
      AddedKeepsDistinct(Table(), Peer(c, address));
      list.Add(c);
    }

    /**
     * udp_connection_receive. `ready` and `readable` are what select answers, `length` and `address` what
     * recvfrom does. The session is null when it is not set; `added` is the object made for a new peer.
     */
    method Receive(ready: int, readable: bool, length: int, address: Address)
      returns (ret: int, session: Connection?, ghost added: Connection?)
      requires Valid()
      modifies list.Repr
      ensures Valid() && fresh(list.Repr - old(list.Repr))
      ensures ret == if ready < 0 then ready else if !readable then 0 else if length < 0 then -1 else length
      ensures session != null <==> ready >= 0 && readable && length >= 0
      ensures added != null ==> fresh(added)
      ensures session != null && added != null ==>
                Enabled(old(Table()), Datagram(address, added))
                && session == SessionOf(old(Table()), address, added)
                && Table() == Step(old(Table()), Datagram(address, added))
      ensures added == null ==> Table() == old(Table())
      ensures session != null && added == null ==> FindPeer(old(Table()), address) == Some(session)
    {
      session, added := null, null;
      if ready < 0 {
        return ready, null, null;
      }
      if !readable {
        return 0, null, null;
      }
      if length < 0 {
        return -1, null, null;
      }
      session := Find(address);
      if session == null {
        var c := NewIncoming(address);
        session, added := c, c;
      }
      ret := length;
    }

    /** udp_connection_close: nothing for a null session; otherwise the session must be listed. */
    method Close(session: Connection?) returns (ret: int)
      requires Valid() && (session == null || session in list.Contents)
      modifies list.Repr
      ensures Valid() && list.Repr <= old(list.Repr) && ret == 0
      ensures Table() == if session == null then old(Table()) else Step(old(Table()), Closed(session))
      ensures session != null ==>
                session !in list.Contents && list.Contents == RemoveFirst<Connection>(old(list.Contents), session)
      ensures session != null && session == old(list.Contents)[0] ==>
                list.spine == old(list.spine)[1..] && list.Contents == old(list.Contents)[1..]
    {
      ret := 0;
      if session == null {
        return;
      }
      ghost var k := list.Remove(session);
      CutOut(old(list.Contents), k);
    }

    /**
     * udp_connection_stop: the successor is read before each close. Every listed connection is closed once,
     * in list order, and each node is still linked when it is read.
     */
    method Stop() returns (ghost closed: seq<Connection>)
      requires Valid()
      modifies list.Repr
      ensures list.Valid() && list.Repr <= old(list.Repr)
      ensures closed == old(list.Contents) && NoDuplicates(closed)
      ensures list.head == null && list.Contents == []
    {
      ListedOnce(list.Contents);
      closed := [];
      var node := list.head;
      while node != null
        invariant Valid() && list.Repr <= old(list.Repr)
        invariant node == list.At(0)
        invariant closed + list.Contents == old(list.Contents)
        decreases |list.Contents|
      {
        assert node in list.Repr;
        var next := node.next;
        var c := node.data;
        FirstMoved(closed, list.Contents);
        var ret := Close(c);
        closed := closed + [c];
        node := next;
      }
      list.Delete();
    }
  }

  // ---- Sending -------------------------------------------------------------------------------------------

  ghost function Concat(fragments: seq<seq<Byte>>): seq<Byte> {
    if fragments == [] then [] else Concat(fragments[..|fragments| - 1]) + fragments[|fragments| - 1]
  }

  /** sendto: an error, or the bytes it took, which are the front of the data and at least one. */
  method SendTo(data: seq<Byte>) returns (sent: int, taken: seq<Byte>)
    requires data != []
    ensures if sent == -1 then taken == [] else 1 <= sent <= |data| && taken == data[..sent]
  {
    sent, taken := *, [];
    if sent < 1 || sent > |data| {
      sent := -1;
    } else {
      taken := data[..sent];
    }
  }

  /** udp_connection_send: what the socket took, in order, is the buffer, or a proper prefix of it on an error. */
  method Send(buffer: seq<Byte>) returns (ret: int, fragments: seq<seq<Byte>>)
    ensures ret == 0 || ret == -1
    ensures ret == 0 ==> Concat(fragments) == buffer
    ensures ret == -1 ==> Concat(fragments) < buffer
    ensures forall f :: f in fragments ==> f != []
  {
    fragments := [];
    var offset := 0;
    while offset != |buffer|
      invariant offset <= |buffer|
      invariant Concat(fragments) == buffer[..offset]
      invariant forall f :: f in fragments ==> f != []
      decreases |buffer| - offset
    {
      var sent, taken := SendTo(buffer[offset..]);
      if sent == -1 {
        return -1, fragments;
      }
      fragments := fragments + [taken];
      offset := offset + sent;
    }
    ret := 0;
  }
}
