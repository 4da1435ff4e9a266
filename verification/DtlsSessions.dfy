/**
 * The DTLS sessions as a state machine: what one receive call does to the table of links, and what every run
 * of receive calls keeps. The answers of gnutls and of the socket are inputs. DtlsConnections proves the
 * program against it.
 */
module DtlsSessions {
  import opened Wrappers
  import opened Base64
  import opened Devices
  import opened LinkedList

  const GNUTLS_E_SUCCESS: int := 0
  const GNUTLS_E_AGAIN: int := -28

  /** The bytes of a socket address, as many as its size says. */
  type Address = seq<Byte>

  class Connection {
    const sock: int
    var address: Address
    var handshakeDone: bool
    var identifier: Option<string>

    constructor (sock: int, address: Address)
      ensures this.sock == sock && this.address == address && !handshakeDone && identifier == None
    {
      this.sock, this.address, handshakeDone, identifier := sock, address, false, None;
    }
  }

  /** A listed connection with the contents of its fields. */
  datatype Link = Link(session: Connection, address: Address, done: bool, identifier: Option<string>)

  datatype KeyExchange = EcdheEcdsa | PskExchange | OtherExchange

  datatype Cipher = Aes128Ccm8 | Aes128Cbc | OtherCipher

  function CipherSuite(keyExchange: KeyExchange, cipher: Cipher): Mode {
    if keyExchange == EcdheEcdsa && (cipher == Aes128Ccm8 || cipher == Aes128Cbc) then Cert
    else if keyExchange == PskExchange && (cipher == Aes128Ccm8 || cipher == Aes128Cbc) then Psk
    else Undefined
  }

  /** What the environment answers during one receive call. */
  datatype Input = Input(
    ready: int, readable: bool,             // select
    peeked: int, address: Address,          // the first recvfrom, which leaves the datagram in place
    cookie: int,                            // gnutls_dtls_cookie_verify
    initialised: bool,                      // dtls_connection_init succeeds
    handshake: int,                         // gnutls_handshake
    keyExchange: KeyExchange, cipher: Cipher,
    username: Option<seq<Byte>>,            // of a PSK session
    certificate: Option<seq<Byte>>,         // of the peer, exported; None when a step of the export fails
    identify: seq<Byte> -> Option<string>,  // the done-callback: the identifier it sets, None when it fails
    peeks: seq<Address>,                    // the address of the connection after each further recvfrom
    records: seq<int>,                      // gnutls_record_recv
    byes: seq<int>)                         // gnutls_bye

  /** Repeated calls end with a result other than GNUTLS_E_AGAIN. */
  ghost predicate Settles(results: seq<int>) {
    && results != []
    && results[|results| - 1] != GNUTLS_E_AGAIN
    && forall i :: 0 <= i < |results| - 1 ==> results[i] == GNUTLS_E_AGAIN
  }

  ghost predicate Settled(i: Input) {
    Settles(i.records) && |i.peeks| == |i.records| && Settles(i.byes)
  }

  /** The PSK user name or the certificate, whichever the cipher suite calls for. */
  function PublicData(i: Input): Option<seq<Byte>> {
    match CipherSuite(i.keyExchange, i.cipher)
    case Psk => i.username
    case Cert => i.certificate
    case Undefined => None
    case NoCredentials => None
  }

  function Identified(i: Input): Option<string> {
    var data := PublicData(i);
    if data.None? then None else i.identify(data.value)
  }

  datatype Binding = Binding(session: Connection, publicData: seq<Byte>, identifier: string)

  datatype Outcome = Outcome(table: seq<Link>, ret: int, delivered: Option<Link>, bound: Option<Binding>)

  /** The position of the first link with an address; the length of the table when there is none. */
  ghost function Position(table: seq<Link>, address: Address): (p: nat)
    ensures p <= |table|
    ensures p < |table| ==> table[p].address == address
    ensures forall i :: 0 <= i < p ==> table[i].address != address
  {
    FirstIndex(table, (l: Link) => l.address == address)
  }

  // ---- One receive call ----------------------------------------------------------------------------------

  ghost function Handshaken(table: seq<Link>, p: nat, i: Input): Outcome
    requires p < |table|
  {
    if i.handshake == GNUTLS_E_SUCCESS then
      var identifier := Identified(i);
      if identifier.Some? then
        Outcome(table[p := table[p].(done := true, identifier := identifier)], 0, None,
                Some(Binding(table[p].session, PublicData(i).value, identifier.value)))
      else Outcome(Cut(table, p), 0, None, None)
    else if i.handshake != GNUTLS_E_AGAIN then Outcome(Cut(table, p), 0, None, None)
    else Outcome(table, 0, None, None)
  }

  ghost function Recorded(table: seq<Link>, p: nat, i: Input): Outcome
    requires p < |table| && Settled(i)
  {
    var last := |i.records| - 1;
    if i.records[last] < 0 then Outcome(Cut(table, p), 0, None, None)
    else
      var link := table[p].(address := i.peeks[last]);
      Outcome(table[p := link], i.records[last], Some(link), None)
  }

  ghost function Handled(table: seq<Link>, p: nat, i: Input): Outcome
    requires p < |table| && Settled(i)
  {
    if table[p].done then Recorded(table, p, i) else Handshaken(table, p, i)
  }

  ghost predicate HasDatagram(i: Input) {
    i.ready > 0 && i.readable && i.peeked > 0
  }

  /** `spare` is the object that calloc would return if one is needed. */
  ghost function Received(table: seq<Link>, i: Input, spare: Connection): Outcome
    requires Settled(i)
  {
    if !HasDatagram(i) then Outcome(table, if i.ready <= 0 then i.ready else 0, None, None)
    else
      var p := Position(table, i.address);
      if p < |table| then Handled(table, p, i)
      else if i.cookie == GNUTLS_E_SUCCESS && i.initialised then
        Handled([Link(spare, i.address, false, None)] + table, 0, i)
      else Outcome(table, 0, None, None)
  }

  /** A positive length comes with the link it is from, and that link has finished its handshake. */
  lemma PositiveMeansDelivered(table: seq<Link>, i: Input, spare: Connection)
    requires Settled(i)
    ensures var o := Received(table, i, spare);
            && (o.ret > 0 ==> o.delivered.Some?)
            && (o.delivered.Some? ==> o.delivered.value.done && o.delivered.value in o.table)
            && (o.ret < 0 ==> i.ready == o.ret && o.table == table)
  {
    var o := Received(table, i, spare);
    if o.delivered.Some? {
      assert o.table[Position(table, i.address)] == o.delivered.value;
    }
  }

  ghost predicate DistinctSessions(table: seq<Link>) {
    forall i, j :: 0 <= i < j < |table| ==> table[i].session != table[j].session
  }

  ghost predicate Listed(table: seq<Link>, session: Connection) {
    exists l :: l in table && l.session == session
  }

  /** The call ends in a fatal error for the link it is about. */
  ghost predicate Fatal(link: Link, i: Input)
    requires Settled(i)
  {
    if link.done then i.records[|i.records| - 1] < 0
    else if i.handshake == GNUTLS_E_SUCCESS then Identified(i).None?
    else i.handshake != GNUTLS_E_AGAIN
  }

  lemma CutListed(table: seq<Link>, p: nat, k: nat)
    requires p < |table| && k < |table| && DistinctSessions(table)
    ensures Listed(Cut(table, p), table[k].session) <==> k != p
    ensures k != p ==> table[k] in Cut(table, p)
  {
    if k < p {
      assert Cut(table, p)[k] == table[k];
    } else if k > p {
      assert Cut(table, p)[k - 1] == table[k];
    }
  }

  lemma UpdateListed(table: seq<Link>, p: nat, link: Link, k: nat)
    requires p < |table| && k < |table| && DistinctSessions(table) && link.session == table[p].session
    ensures Listed(table[p := link], table[k].session)
    ensures k != p ==> table[k] in table[p := link]
  {
    assert table[p := link][k] == if k == p then link else table[k];
  }

  lemma HandledListed(table: seq<Link>, p: nat, i: Input, k: nat)
    requires Settled(i) && DistinctSessions(table) && p < |table| && k < |table|
    ensures Listed(Handled(table, p, i).table, table[k].session) <==> !(k == p && Fatal(table[p], i))
    ensures k != p ==> table[k] in Handled(table, p, i).table
  {
    CutListed(table, p, k);
    if !Fatal(table[p], i) {
      UpdateListed(table, p, Handled(table, p, i).table[p], k);
    }
  }

  lemma NewcomerListed(table: seq<Link>, link: Link, i: Input, k: nat)
    requires Settled(i) && DistinctSessions(table) && !Listed(table, link.session) && k < |table|
    ensures table[k] in Handled([link] + table, 0, i).table
  {
    assert ([link] + table)[k + 1] == table[k];
    assert forall j :: 0 <= j < |table| ==> table[j] in table;
    HandledListed([link] + table, 0, i, k + 1);
  }

  /**
   * A listed connection leaves the table exactly when a datagram comes from its address and the handshake or
   * the record then fails for good; every other link stays as it is.
   */
  lemma RemovedExactlyWhenFatal(table: seq<Link>, i: Input, spare: Connection, k: nat)
    requires Settled(i) && DistinctSessions(table) && !Listed(table, spare) && k < |table|
    ensures var o := Received(table, i, spare);
            var addressed := HasDatagram(i) && Position(table, i.address) == k;
            && (Listed(o.table, table[k].session) <==> !(addressed && Fatal(table[k], i)))
            && (!addressed ==> table[k] in o.table)
  {
    var p := Position(table, i.address);
    if HasDatagram(i) && p < |table| {
      HandledListed(table, p, i, k);
    } else if HasDatagram(i) && i.cookie == GNUTLS_E_SUCCESS && i.initialised {
      NewcomerListed(table, Link(spare, i.address, false, None), i, k);
    }
  }

  // ---- Whose payload, who is admitted, and who is bound ---------------------------------------------------

  /** The first link with an address. */
  ghost predicate IsFirst(table: seq<Link>, address: Address, k: int) {
    0 <= k < |table| && table[k].address == address && forall j :: 0 <= j < k ==> table[j].address != address
  }

  ghost predicate IsUnlisted(table: seq<Link>, address: Address) {
    forall j :: 0 <= j < |table| ==> table[j].address != address
  }

  lemma PositionIs(table: seq<Link>, address: Address, k: int)
    ensures IsFirst(table, address, k) ==> Position(table, address) == k
    ensures IsUnlisted(table, address) ==> Position(table, address) == |table|
  {
  }

  /** The public data that each pair of key exchange and cipher stands for. */
  lemma PublicDataBySuite(i: Input)
    ensures PublicData(i)
            == match (i.keyExchange, i.cipher)
               case (EcdheEcdsa, Aes128Ccm8) => i.certificate
               case (EcdheEcdsa, Aes128Cbc) => i.certificate
               case (PskExchange, Aes128Ccm8) => i.username
               case (PskExchange, Aes128Cbc) => i.username
               case _ => None
  {
  }

  /**
   * Payload is handed up with the session of the first link that has the source address of the datagram, and
   * with its identifier; the result is what the last read of the record returned.
   */
  lemma DeliveredIsTheSender(table: seq<Link>, i: Input, spare: Connection)
    requires Settled(i) && Received(table, i, spare).delivered.Some?
    ensures var o, last := Received(table, i, spare), |i.records| - 1;
            var l := o.delivered.value;
            && o.ret == i.records[last] >= 0
            && exists k :: IsFirst(table, i.address, k) && table[k].done
                 && l == Link(table[k].session, i.peeks[last], true, table[k].identifier)
  {
    var k := Position(table, i.address);
    assert IsFirst(table, i.address, k);
  }

  /** And payload is handed up whenever that link is finished and the record can be read. */
  lemma SenderIsDelivered(table: seq<Link>, i: Input, spare: Connection, k: nat)
    requires Settled(i) && i.ready > 0 && i.readable && i.peeked > 0
    requires IsFirst(table, i.address, k) && table[k].done && i.records[|i.records| - 1] >= 0
    ensures Received(table, i, spare).delivered.Some?
  {
    PositionIs(table, i.address, k);
  }

  /** Without a datagram the result is what select answered, or zero, and nothing changes. */
  lemma NothingWithoutDatagram(table: seq<Link>, i: Input, spare: Connection)
    requires Settled(i) && (i.ready <= 0 || !i.readable || i.peeked <= 0)
    ensures Received(table, i, spare) == Outcome(table, if i.ready < 0 then i.ready else 0, None, None)
  {
  }

  /** The handshake that starts or goes on now neither fails nor ends without an identifier. */
  ghost predicate HandshakeGoesOn(i: Input) {
    i.handshake == -28 || (i.handshake == 0 && Identified(i).Some?)
  }

  /**
   * A new link appears exactly for an address that is not listed, with a verified cookie and an initialised
   * session whose handshake does not fail at once. No other session appears.
   */
  lemma AdmittedExactly(table: seq<Link>, i: Input, spare: Connection)
    requires Settled(i) && !Listed(table, spare)
    ensures var o := Received(table, i, spare);
            && (Listed(o.table, spare) <==>
                 && i.ready > 0 && i.readable && i.peeked > 0 && IsUnlisted(table, i.address)
                 && i.cookie == 0 && i.initialised && HandshakeGoesOn(i))
            && (forall l :: l in o.table ==> l.session == spare || Listed(table, l.session))
  {
    var o, p := Received(table, i, spare), Position(table, i.address);
    assert IsUnlisted(table, i.address) <==> p == |table|;
    forall l | l in o.table
      ensures l.session == spare || Listed(table, l.session)
    {
      KeptSession(table, i, spare, l);
    }
    if HasDatagram(i) && p == |table| && i.cookie == GNUTLS_E_SUCCESS && i.initialised {
      NewcomerStays(table, i, spare);
    } else {
      forall l | l in o.table
        ensures l.session != spare
      {
        KeptOrUpdated(table, i, spare, l);
      }
    }
  }

  lemma KeptOrUpdated(table: seq<Link>, i: Input, spare: Connection, l: Link)
    requires Settled(i) && l in Received(table, i, spare).table
    requires !(HasDatagram(i) && IsUnlisted(table, i.address) && i.cookie == GNUTLS_E_SUCCESS && i.initialised)
    ensures Listed(table, l.session)
  {
    var p := Position(table, i.address);
    if HasDatagram(i) && p < |table| && l !in table {
      assert table[p] in table;
    }
  }

  lemma KeptSession(table: seq<Link>, i: Input, spare: Connection, l: Link)
    requires Settled(i) && l in Received(table, i, spare).table
    ensures l.session == spare || Listed(table, l.session)
  {
    var p := Position(table, i.address);
    if HasDatagram(i) && p == |table| && i.cookie == GNUTLS_E_SUCCESS && i.initialised {
      var extended := [Link(spare, i.address, false, None)] + table;
      assert forall j :: 0 < j < |extended| ==> extended[j] == table[j - 1];
      if l != extended[0] && l.session != spare {
        assert l in table;
      }
    } else {
      KeptOrUpdated(table, i, spare, l);
    }
  }

  lemma NewcomerStays(table: seq<Link>, i: Input, spare: Connection)
    requires Settled(i) && !Listed(table, spare) && HasDatagram(i) && IsUnlisted(table, i.address)
    requires i.cookie == GNUTLS_E_SUCCESS && i.initialised
    ensures Listed(Received(table, i, spare).table, spare) <==> HandshakeGoesOn(i)
  {
    var extended, after := [Link(spare, i.address, false, None)] + table, Received(table, i, spare).table;
    if HandshakeGoesOn(i) {
      assert after[0].session == spare;
    } else {
      assert after == Cut(extended, 0) == table;
    }
  }

  /** What a datagram for an unfinished link makes of the table: it is finished, or closed, or as it was. */
  lemma HandshakeMakes(table: seq<Link>, i: Input, spare: Connection, k: nat)
    requires Settled(i) && i.ready > 0 && i.readable && i.peeked > 0 && IsFirst(table, i.address, k) && !table[k].done
    ensures var o := Received(table, i, spare);
            && o.ret == 0 && o.delivered == None
            && o.table == if i.handshake == 0 && Identified(i).Some? then
                            table[k := Link(table[k].session, table[k].address, true, Identified(i))]
                          else if i.handshake == -28 then table
                          else table[..k] + table[k + 1..]
  {
    PositionIs(table, i.address, k);
  }

  /** An identifier is set exactly by a handshake that succeeds for an unfinished link or a newcomer. */
  lemma BoundExactly(table: seq<Link>, i: Input, spare: Connection)
    requires Settled(i)
    ensures Received(table, i, spare).bound.Some? <==>
              && i.ready > 0 && i.readable && i.peeked > 0 && i.handshake == 0 && Identified(i).Some?
              && ((IsUnlisted(table, i.address) && i.cookie == 0 && i.initialised)
                  || exists k :: IsFirst(table, i.address, k) && !table[k].done)
  {
    var p := Position(table, i.address);
    if p < |table| {
      assert IsFirst(table, i.address, p);
    }
    forall k | IsFirst(table, i.address, k)
      ensures k == p
    {
      PositionIs(table, i.address, k);
    }
  }

  // ---- Runs ----------------------------------------------------------------------------------------------

  datatype Event = Event(input: Input, spare: Connection)

  /** The table, the identifiers set by successful done-callbacks, and the links that payload came from. */
  datatype State = State(table: seq<Link>, bound: seq<Binding>, delivered: seq<Link>)

  function AsSeq<T>(o: Option<T>): seq<T> {
    if o.Some? then [o.value] else []
  }

  ghost predicate Enabled(s: State, e: Event) {
    Settled(e.input) && !Listed(s.table, e.spare)
  }

  ghost function Step(s: State, e: Event): State
    requires Enabled(s, e)
  {
    var o := Received(s.table, e.input, e.spare);
    State(o.table, s.bound + AsSeq(o.bound), s.delivered + AsSeq(o.delivered))
  }

  ghost predicate EnabledAll(s: State, events: seq<Event>)
    decreases |events|
  {
    events == [] || (Enabled(s, events[0]) && EnabledAll(Step(s, events[0]), events[1..]))
  }

  ghost function Run(s: State, events: seq<Event>): State
    requires EnabledAll(s, events)
    decreases |events|
  {
    if events == [] then s else Run(Step(s, events[0]), events[1..])
  }

  /** The identifier of the link was set by a done-callback that succeeded for this session. */
  ghost predicate IsBound(link: Link, bound: seq<Binding>) {
    && link.identifier.Some?
    && exists b :: b in bound && b.session == link.session && b.identifier == link.identifier.value
  }

  /** Exactly the finished links have an identifier, from their own handshake; only they deliver payload. */
  ghost predicate Authenticated(s: State) {
    && DistinctSessions(s.table)
    && (forall l :: l in s.table ==> if l.done then IsBound(l, s.bound) else l.identifier == None)
    && (forall l :: l in s.delivered ==> l.done && IsBound(l, s.bound))
  }

  lemma BoundStays(link: Link, bound: seq<Binding>, more: seq<Binding>)
    requires IsBound(link, bound)
    ensures IsBound(link, bound + more)
  {
    var b :| b in bound && b.session == link.session && b.identifier == link.identifier.value;
    assert b in bound + more;
  }

  lemma HandledKeepsDistinct(table: seq<Link>, p: nat, i: Input)
    requires Settled(i) && DistinctSessions(table) && p < |table|
    ensures DistinctSessions(Handled(table, p, i).table)
  {
  }

  lemma ReceivedKeepsDistinct(table: seq<Link>, i: Input, spare: Connection)
    requires Settled(i) && DistinctSessions(table) && !Listed(table, spare)
    ensures DistinctSessions(Received(table, i, spare).table)
  {
    assert forall j :: 0 <= j < |table| ==> table[j] in table;
    var p := Position(table, i.address);
    if p < |table| {
      HandledKeepsDistinct(table, p, i);
    } else {
      HandledKeepsDistinct([Link(spare, i.address, false, None)] + table, 0, i);
    }
  }

  /** Every link afterwards was there before, or is the new one, possibly with its handshake finished now. */
  ghost predicate ComesFrom(l: Link, table: seq<Link>, i: Input, spare: Connection, bound: Option<Binding>) {
    || l in table
    || l == Link(spare, i.address, false, None)
    || (exists m :: m in table && m.done && l == m.(address := l.address))
    || (l.done && bound.Some? && bound.value.session == l.session && l.identifier == Some(bound.value.identifier))
  }

  lemma WhereLinksComeFrom(table: seq<Link>, i: Input, spare: Connection, l: Link)
    requires Settled(i) && l in Received(table, i, spare).table
    ensures ComesFrom(l, table, i, spare, Received(table, i, spare).bound)
  {
    var p := Position(table, i.address);
    if HasDatagram(i) && p < |table| && l !in table {
      assert table[p] in table;
    }
  }

  lemma StepKeepsAuthenticated(s: State, e: Event)
    requires Authenticated(s) && Enabled(s, e)
    ensures Authenticated(Step(s, e))
  {
    var o := Received(s.table, e.input, e.spare);
    var t := Step(s, e);
    ReceivedKeepsDistinct(s.table, e.input, e.spare);
    PositiveMeansDelivered(s.table, e.input, e.spare);
    forall l | l in t.table
      ensures if l.done then IsBound(l, t.bound) else l.identifier == None
    {
      WhereLinksComeFrom(s.table, e.input, e.spare, l);
      LinkStaysAuthenticated(s, e, l);
    }
    forall l | l in s.delivered
      ensures IsBound(l, t.bound)
    {
      BoundStays(l, s.bound, AsSeq(o.bound));
    }
  }

  lemma LinkStaysAuthenticated(s: State, e: Event, l: Link)
    requires Authenticated(s) && Enabled(s, e)
    requires ComesFrom(l, s.table, e.input, e.spare, Received(s.table, e.input, e.spare).bound)
    ensures if l.done then IsBound(l, Step(s, e).bound) else l.identifier == None
  {
    var bound := Received(s.table, e.input, e.spare).bound;
    if l in s.table {
      if l.done { BoundStays(l, s.bound, AsSeq(bound)); }
    } else if m :| m in s.table && m.done && l == m.(address := l.address) {
      BoundStays(m, s.bound, AsSeq(bound));
    } else if l.done {
      assert bound.value in Step(s, e).bound;
    }
  }

  /** Over every run: a finished handshake means an identifier, and payload comes from finished links only. */
  lemma {:induction false} RunKeepsAuthenticated(s: State, events: seq<Event>)
    requires Authenticated(s) && EnabledAll(s, events)
    ensures Authenticated(Run(s, events))
    decreases |events|
  {
    if events != [] {
      StepKeepsAuthenticated(s, events[0]);
      RunKeepsAuthenticated(Step(s, events[0]), events[1..]);
    }
  }

  lemma {:induction false} RunBefore(s: State, events: seq<Event>, k: nat)
    requires Authenticated(s) && EnabledAll(s, events) && k < |events|
    ensures EnabledAll(s, events[..k]) && Enabled(Run(s, events[..k]), events[k])
    ensures Authenticated(Run(s, events[..k]))
    decreases |events|
  {
    if k > 0 {
      StepKeepsAuthenticated(s, events[0]);
      RunBefore(Step(s, events[0]), events[1..], k - 1);
      assert events[..k][1..] == events[1..][..k - 1];
    }
  }

  /**
   * Over every run: payload is handed up with the first session that was listed under the address it came from,
   * and under the identifier that the handshake of this session had set.
   */
  lemma EveryDeliveryIsFromItsSender(s: State, events: seq<Event>, k: nat)
    requires Authenticated(s) && EnabledAll(s, events) && k < |events|
    requires EnabledAll(s, events[..k]) && Settled(events[k].input)
    requires Received(Run(s, events[..k]).table, events[k].input, events[k].spare).delivered.Some?
    ensures var before, e := Run(s, events[..k]), events[k];
            var l := Received(before.table, e.input, e.spare).delivered.value;
            exists p :: IsFirst(before.table, e.input.address, p) && l.session == before.table[p].session
                        && l.identifier == before.table[p].identifier && IsBound(before.table[p], before.bound)
  {
    RunBefore(s, events, k);
    var before, e := Run(s, events[..k]), events[k];
    DeliveredIsTheSender(before.table, e.input, e.spare);
    var p :| IsFirst(before.table, e.input.address, p) && before.table[p].done
      && Received(before.table, e.input, e.spare).delivered.value
         == Link(before.table[p].session, e.input.peeks[|e.input.peeks| - 1], true, before.table[p].identifier);
    assert before.table[p] in before.table;
  }

  // ---- An identity does not change -----------------------------------------------------------------------

  /** Every link of this session has finished its handshake with this identifier. */
  ghost predicate Identity(table: seq<Link>, session: Connection, identifier: string) {
    forall l :: l in table && l.session == session ==> l.done && l.identifier == Some(identifier)
  }

  /** A handshake binds a new session or a listed one that had not finished its handshake. */
  lemma OnlyNewHandshakesBind(s: State, e: Event)
    requires Enabled(s, e)
    ensures var bound := Received(s.table, e.input, e.spare).bound;
            bound.Some? ==>
              || bound.value.session == e.spare
              || exists l :: l in s.table && !l.done && l.session == bound.value.session
  {
    var p := Position(s.table, e.input.address);
    if p < |s.table| {
      assert s.table[p] in s.table;
    }
  }

  lemma StepKeepsIdentity(s: State, e: Event, session: Connection, identifier: string)
    requires Authenticated(s) && Enabled(s, e) && e.spare != session && Identity(s.table, session, identifier)
    ensures Identity(Step(s, e).table, session, identifier)
  {
    forall l | l in Step(s, e).table && l.session == session
      ensures l.done && l.identifier == Some(identifier)
    {
      WhereLinksComeFrom(s.table, e.input, e.spare, l);
      OnlyNewHandshakesBind(s, e);
    }
  }

  /** Once set, the identifier of a session stays the same for as long as its object is in use. */
  lemma {:induction false} RunKeepsIdentity(s: State, events: seq<Event>, session: Connection, identifier: string)
    requires Authenticated(s) && EnabledAll(s, events) && Identity(s.table, session, identifier)
    requires forall e :: e in events ==> e.spare != session
    ensures Identity(Run(s, events).table, session, identifier)
    decreases |events|
  {
    if events != [] {
      StepKeepsAuthenticated(s, events[0]);
      StepKeepsIdentity(s, events[0], session, identifier);
      RunKeepsIdentity(Step(s, events[0]), events[1..], session, identifier);
    }
  }

  /** A handshake that binds a session gives it the identifier that the callback found for its public data. */
  lemma HandshakeGivesIdentity(s: State, e: Event)
    requires Authenticated(s) && Enabled(s, e) && Received(s.table, e.input, e.spare).bound.Some?
    ensures var b := Received(s.table, e.input, e.spare).bound.value;
            && PublicData(e.input) == Some(b.publicData) && e.input.identify(b.publicData) == Some(b.identifier)
            && Listed(Step(s, e).table, b.session) && Identity(Step(s, e).table, b.session, b.identifier)
  {
    var o := Received(s.table, e.input, e.spare);
    var p := Position(s.table, e.input.address);
    var k := if p < |s.table| then p else 0;
    assert o.table[k].session == o.bound.value.session && o.table[k] in o.table;
    ReceivedKeepsDistinct(s.table, e.input, e.spare);
  }
}
