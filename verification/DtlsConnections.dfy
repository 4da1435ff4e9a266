/** The DTLS transport: the table of connections is changed in place, connection by connection. */
module DtlsConnections {
  import opened Wrappers
  import opened Base64
  import opened Devices
  import opened LinkedList
  import opened DtlsSessions

  ghost function LinkOf(c: Connection): Link
    reads c
  {
    Link(c, c.address, c.handshakeDone, c.identifier)
  }

  ghost function LinksOf(connections: seq<Connection>): (table: seq<Link>)
    reads connections
    ensures |table| == |connections|
    ensures forall k :: 0 <= k < |table| ==> table[k] == LinkOf(connections[k])
  {
    if connections == [] then [] else [LinkOf(connections[0])] + LinksOf(connections[1..])
  }

  lemma LinksOfIs(connections: seq<Connection>, table: seq<Link>)
    requires |table| == |connections| && forall k :: 0 <= k < |table| ==> table[k] == LinkOf(connections[k])
    ensures LinksOf(connections) == table
  {
  }

  /** One connection was touched. */
  lemma TouchedAt(connections: seq<Connection>, table: seq<Link>, p: nat)
    requires p < |connections| == |table|
    requires forall k :: 0 <= k < |table| && k != p ==> table[k] == LinkOf(connections[k])
    ensures LinksOf(connections) == table[p := LinkOf(connections[p])]
  {
    LinksOfIs(connections, table[p := LinkOf(connections[p])]);
  }

  /** Connection p was touched, if any, and is unlisted. */
  lemma CutAt(connections: seq<Connection>, table: seq<Link>, p: nat)
    requires p < |connections| == |table|
    requires forall k :: 0 <= k < |table| && k != p ==> table[k] == LinkOf(connections[k])
    ensures LinksOf(Cut(connections, p)) == Cut(table, p)
  {
    LinksOfIs(Cut(connections, p), Cut(table, p));
  }

  lemma ListedOnce(connections: seq<Connection>)
    requires NoDuplicates(connections)
    ensures DistinctSessions(LinksOf(connections))
  {
    forall j, k | 0 <= j < k < |connections|
      ensures LinksOf(connections)[j].session != LinksOf(connections)[k].session
    {
      assert connections[j] != connections[k];
    }
  }

  lemma AddedNoDuplicates(c: Connection, connections: seq<Connection>)
    requires NoDuplicates(connections) && c !in connections
    ensures NoDuplicates([c] + connections)
  {
  }

  /** dtls_connection_get_identifier. */
  method GetIdentifier(session: Connection?) returns (identifier: Option<string>)
    ensures identifier == if session == null then None else LinkOf(session).identifier
  {
    identifier := if session == null then None else session.identifier;
  }

  /** dtls_connection_set_identifier. */
  method SetIdentifier(session: Connection?, identifier: string) returns (ret: int)
    modifies session
    ensures ret == if session == null then -1 else 0
    ensures session != null ==> LinkOf(session) == old(LinkOf(session)).(identifier := Some(identifier))
  {
    if session == null {
      return -1;
    }
    session.identifier := Some(identifier);
    ret := 0;
  }

  /**
   * dtls_connection_handshake_done. Without public data the connection stays as it is; otherwise the callback
   * is asked, and the handshake counts as done whatever it answers.
   */
  method HandshakeDone(c: Connection, i: Input, suite: Mode) returns (ret: int)
    requires suite == CipherSuite(i.keyExchange, i.cipher)
    modifies c
    ensures ret == if Identified(i).Some? then 0 else -1
    ensures LinkOf(c) == if PublicData(i).None? then old(LinkOf(c))
                         else if Identified(i).None? then old(LinkOf(c)).(done := true)
                         else old(LinkOf(c)).(done := true, identifier := Identified(i))
  {
    var publicData: seq<Byte>;
    if suite == Psk {
      if i.username.None? {
        return -1;
      }
      publicData := i.username.value;
    } else if suite == Cert {
      if i.certificate.None? {
        return -1;
      }
      publicData := i.certificate.value;
    } else {
      return -1;
    }
    var identifier := i.identify(publicData);
    if identifier.Some? {
      ret := SetIdentifier(c, identifier.value);
    } else {
      ret := -1;
    }
    c.handshakeDone := true;
  }

  /** gnutls_bye until it settles. */
  method Bye(results: seq<int>) returns (ret: int)
    requires Settles(results)
    ensures ret == results[|results| - 1]
  {
    var n := 0;
    ret := results[n];
    while ret == GNUTLS_E_AGAIN
      invariant n < |results| && ret == results[n]
      decreases |results| - n
    {
      n := n + 1;
      ret := results[n];
    }
    assert n == |results| - 1;
  }

  /** The receive loop of an established connection: each turn stores the address that the socket reports. */
  method Records(c: Connection, i: Input) returns (ret: int)
    requires Settled(i)
    modifies c
    ensures ret == i.records[|i.records| - 1]
    ensures LinkOf(c) == old(LinkOf(c)).(address := i.peeks[|i.peeks| - 1])
  {
    var n := 0;
    c.address := i.peeks[n];
    ret := i.records[n];
    while ret == GNUTLS_E_AGAIN
      invariant n < |i.records| && ret == i.records[n]
      invariant LinkOf(c) == old(LinkOf(c)).(address := i.peeks[n])
      decreases |i.records| - n
    {
      n := n + 1;
      c.address := i.peeks[n];
      ret := i.records[n];
    }
    assert n == |i.records| - 1;
  }

  class SecureTransport {
    const list: LinkedList<Connection>
    const listenSocket: int

    ghost predicate Valid()
      reads list, list.Repr
    {
      && list.Valid() && NoDuplicates(list.Contents)
      && forall c :: c in list.Contents ==> c as object !in list.Repr
    }

    ghost function Table(): seq<Link>
      reads list, list.Contents
    {
      LinksOf(list.Contents)
    }

    /** dtls_connection_start, once gnutls and the socket are set up. */
    constructor (listenSocket: int)
      ensures Valid() && fresh(list.Repr) && list.Contents == [] && Table() == []
      ensures this.listenSocket == listenSocket
    {
      this.listenSocket := listenSocket;
      list := new LinkedList<Connection>();
    }

    method Find(address: Address) returns (c: Connection?, ghost p: nat)
      requires Valid()
      ensures p == Position(Table(), address)
      ensures c == if Position(Table(), address) < |list.Contents| then list.Contents[Position(Table(), address)]
                   else null
    {
      var node := list.head;
      p := 0;
      while node != null
        invariant p <= |list.Contents| && node == list.At(p)
        invariant forall k :: 0 <= k < p ==> Table()[k].address != address
        decreases |list.Contents| - p
      {
        c := node.data;
        if c.address == address {
          return;
        }
        node := node.next;
        p := p + 1;
      }
      c := null;
    }

    /** dtls_connection_new_incoming, and listing the new connection. */
    method NewIncoming(address: Address, initialised: bool, ghost table: seq<Link>)
      returns (c: Connection?, ghost spare: Connection)
      requires Valid() && Table() == table
      modifies list.Repr
      ensures Valid() && fresh(list.Repr - old(list.Repr)) && fresh(spare)
      ensures c == if initialised then spare else null
      ensures initialised ==> |list.Contents| > 0 && list.Contents[0] == spare
      ensures Table() == if initialised then [Link(spare, address, false, None)] + table else table
    {
      var made := new Connection(listenSocket, address);
      c, spare := made, made;
      if initialised {
        Enlist(made, table);
      } else {
        c := null;
      }
    }

    method Enlist(c: Connection, ghost table: seq<Link>)
      requires Valid() && Table() == table && c !in list.Contents && c as object !in list.Repr
      modifies list.Repr
      ensures Valid() && fresh(list.Repr - old(list.Repr))
      ensures list.Contents == [c] + old(list.Contents)
      ensures Table() == [old(LinkOf(c))] + table
    {
      ghost var before, added := list.Contents, [LinkOf(c)] + table;
      assert forall k :: 0 <= k < |before| ==> table[k] == LinkOf(before[k]);
      list.Add(c);
      forall k | 0 <= k < |before|
        ensures table[k] == LinkOf(before[k]) && before[k] as object !in list.Repr
      {
        assert before[k] in before;
      }
      AddedNoDuplicates(c, before);
      assert Valid();
      LinksOfIs(list.Contents, added);
    }

    method Unlink(c: Connection, ghost p: nat)
      requires Valid() && p < |list.Contents| && list.Contents[p] == c
      modifies list.Repr
      ensures Valid() && list.Repr <= old(list.Repr)
      ensures list.Contents == Cut(old(list.Contents), p) && list.spine == Cut(old(list.spine), p)
      ensures c !in list.Contents
      ensures forall q :: q in old(list.Contents) ==> unchanged(q)
    {
      CutNoDuplicates(list.Contents, p);
      ghost var k := list.Remove(c);
      assert k == p;
      forall q | q in list.Contents
        ensures q in old(list.Contents)
      {
        var j :| 0 <= j < |list.Contents| && list.Contents[j] == q;
        assert q == old(list.Contents)[if j < k then j else j + 1];
      }
    }

    /** dtls_connection_close: unlisted first; when the goodbye fails the memory is not given back. */
    method Close(c: Connection?, byes: seq<int>, ghost p: nat) returns (ret: int)
      requires Valid() && Settles(byes)
      requires c != null ==> p < |list.Contents| && list.Contents[p] == c
      modifies list.Repr
      ensures Valid() && list.Repr <= old(list.Repr)
      ensures c == null ==> ret == 0 && list.Contents == old(list.Contents)
      ensures c != null ==>
                && ret == (if byes[|byes| - 1] == GNUTLS_E_SUCCESS then 0 else -1)
                && list.Contents == Cut(old(list.Contents), p) && list.spine == Cut(old(list.spine), p)
                && c !in list.Contents
      ensures forall q :: q in old(list.Contents) ==> unchanged(q)
    {
      if c == null {
        return 0;
      }
      Unlink(c, p);
      var bye := Bye(byes);
      ret := if bye != GNUTLS_E_SUCCESS then -1 else 0;
    }

    /** The call did what the outcome says; a session that was not set is null. */
    ghost predicate Did(o: Outcome, ret: int, session: Connection?)
      reads list, list.Contents
    {
      && Table() == o.table && ret == o.ret
      && (session == if o.delivered.Some? then o.delivered.value.session else null)
    }

    /** The branch of a connection that has not finished its handshake. */
    method Handshake(c: Connection, i: Input, ghost p: nat, ghost table: seq<Link>) returns (ret: int)
      requires Valid() && Settled(i) && Table() == table
      requires p < |list.Contents| && list.Contents[p] == c
      modifies c, list.Repr
      ensures Valid() && list.Repr <= old(list.Repr)
      ensures Table() == Handshaken(table, p, i).table && ret == 0
    {
      ret := 0;
      if i.handshake == GNUTLS_E_SUCCESS {
        var suite := CipherSuite(i.keyExchange, i.cipher);
        var failed := HandshakeDone(c, i, suite);
        assert Valid();
        if failed != 0 {
          Unlist(c, i, p, table);
        } else {
          TouchedAt(list.Contents, table, p);
        }
      } else if i.handshake != GNUTLS_E_AGAIN {
        Unlist(c, i, p, table);
      }
    }

    /** Closing connection p, whatever its fields have become. */
    method Unlist(c: Connection, i: Input, ghost p: nat, ghost table: seq<Link>)
      requires Valid() && Settled(i)
      requires p < |list.Contents| == |table| && list.Contents[p] == c
      requires forall k :: 0 <= k < |table| && k != p ==> table[k] == LinkOf(list.Contents[k])
      modifies list.Repr
      ensures Valid() && list.Repr <= old(list.Repr)
      ensures Table() == Cut(table, p)
    {
      ghost var before := list.Contents;
      var closed := Close(c, i.byes, p);
      forall k | 0 <= k < |table| && k != p
        ensures table[k] == LinkOf(before[k])
      {
        assert before[k] in before;
      }
      CutAt(before, table, p);
    }

    /** The branch of an established connection. */
    method Record(c: Connection, i: Input, ghost p: nat, ghost table: seq<Link>)
      returns (ret: int, session: Connection?)
      requires Valid() && Settled(i) && Table() == table
      requires p < |list.Contents| && list.Contents[p] == c
      modifies c, list.Repr
      ensures Valid() && list.Repr <= old(list.Repr)
      ensures Did(Recorded(table, p, i), ret, session)
    {
      ret := Records(c, i);
      forall k | 0 <= k < |table| && k != p
        ensures table[k] == LinkOf(list.Contents[k])
      {
        assert list.Contents[k] != c;
      }
      if ret < 0 {
        Unlist(c, i, p, table);
        ret, session := 0, null;
      } else {
        TouchedAt(list.Contents, table, p);
        session := c;
      }
    }

    method Handle(c: Connection, i: Input, ghost p: nat, ghost table: seq<Link>)
      returns (ret: int, session: Connection?)
      requires Valid() && Settled(i) && Table() == table
      requires p < |list.Contents| && list.Contents[p] == c
      modifies c, list.Repr
      ensures Valid() && list.Repr <= old(list.Repr)
      ensures Did(Handled(table, p, i), ret, session)
    {
      if !c.handshakeDone {
        session := null;
        ret := Handshake(c, i, p, table);
      } else {
        ret, session := Record(c, i, p, table);
      }
    }

    /** dtls_connection_receive; `spare` is the object allocated for a new peer, if any. */
    method Receive(i: Input, ghost table: seq<Link>) returns (ret: int, session: Connection?, ghost spare: Connection?)
      requires Valid() && Settled(i) && Table() == table
      modifies list.Repr, list.Contents
      ensures Valid() && fresh(list.Repr - old(list.Repr))
      ensures DistinctSessions(table) && (spare != null ==> !Listed(table, spare))
      ensures spare != null ==> fresh(spare) && Did(Received(table, i, spare), ret, session)
      ensures spare == null ==> forall unused: Connection :: Did(Received(table, i, unused), ret, session)
    {
      ListedOnce(list.Contents);
      session, spare := null, null;
      if i.ready <= 0 {
        return i.ready, null, null;
      }
      ret := 0;
      if i.readable && i.peeked > 0 {
        var c, p := Find(i.address);
        if c != null {
          ret, session := Handle(c, i, p, table);
        } else if i.cookie == GNUTLS_E_SUCCESS {
          ret, session, spare := Admit(i, table);
        }
      }
    }

    /** A peer with a verified cookie: a new connection, whose handshake starts at once. */
    method Admit(i: Input, ghost table: seq<Link>) returns (ret: int, session: Connection?, ghost spare: Connection)
      requires Valid() && Settled(i) && Table() == table
      modifies list.Repr
      ensures Valid() && fresh(list.Repr - old(list.Repr)) && fresh(spare)
      ensures Did(if i.initialised then Handled([Link(spare, i.address, false, None)] + table, 0, i)
                  else Outcome(table, 0, None, None), ret, session)
    {
      var c: Connection?;
      c, spare := NewIncoming(i.address, i.initialised, table);
      ret, session := 0, null;
      if c != null {
        ret, session := Handle(c, i, 0, [Link(spare, i.address, false, None)] + table);
      }
    }

    /**
     * dtls_connection_stop: the successor is read before each close, and a failed goodbye does not stop the
     * loop. Every listed connection is closed once, in list order.
     */
    method Stop(byes: seq<seq<int>>) returns (ghost closed: seq<Connection>)
      requires Valid() && |byes| == |list.Contents| && forall b :: b in byes ==> Settles(b)
      modifies list.Repr
      ensures list.Valid() && list.Repr <= old(list.Repr)
      ensures closed == old(list.Contents) && NoDuplicates(closed)
      ensures list.head == null && list.Contents == []
    {
      closed := [];
      var node := list.head;
      var n := 0;
      while node != null
        invariant Valid() && list.Repr <= old(list.Repr)
        invariant node == list.At(0)
        invariant n == |closed| && closed + list.Contents == old(list.Contents)
        decreases |list.Contents|
      {
        assert node in list.Repr;
        var next := node.next;
        var c := node.data;
        FirstMoved(closed, list.Contents);
        var failed := Close(c, byes[n], 0);
        closed := closed + [c];
        node := next;
        n := n + 1;
      }
      list.Delete();
    }
  }
}
