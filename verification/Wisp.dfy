/** The WISP client (Wisp protocol version 1, section "Packet types"): streams multiplexed over one socket,
    with per-stream credit. */
module Wisp {
  datatype Packet =
    | Connect(stream: nat, transport: nat, port: nat, host: string)
    | Data(stream: nat, payload: seq<bv8>)
    | Close(stream: nat, reason: nat)

  /** Messages from the server; everything else is ignored. */
  datatype Incoming =
    Received(stream: nat, payload: seq<bv8>) | Continue(stream: nat, credit: nat) | Closed(stream: nat) | Other

  /** What a guest is handed. */
  datatype Delivery = Stretch(guest: nat, payload: seq<bv8>) | Datagram(guest: nat, payload: seq<bv8>)

  datatype ReadyState = Connecting | Open | Shut

  // ---- the packets of one stream ----

  function Only(log: seq<Packet>, s: nat): (r: seq<Packet>)
    ensures forall p :: p in r ==> p.stream == s
  {
    if log == [] then [] else Only(log[..|log| - 1], s) + (if log[|log| - 1].stream == s then [log[|log| - 1]] else [])
  }

  lemma OnlyMore(log: seq<Packet>, p: Packet, s: nat)
    ensures Only(log + [p], s) == Only(log, s) + (if p.stream == s then [p] else [])
  {
    assert (log + [p])[..|log|] == log;
  }

  /** A stream's packets in order: CONNECT first, then DATA, and after a CLOSE nothing. */
  ghost predicate IsSession(ps: seq<Packet>)
  {
    |ps| > 0 && ps[0].Connect? && (forall i :: 0 < i < |ps| ==> !ps[i].Connect?) &&
    forall i :: 0 <= i < |ps| && ps[i].Close? ==> i == |ps| - 1
  }

  ghost predicate AllData(ps: seq<Packet>) { forall p :: p in ps ==> p.Data? }

  /** A stream's accounts: its credit, its last grant, what it had sent by then and by now, and what was handed in. */
  datatype Books = Books(credit: nat, grant: nat, mark: nat, count: nat, submitted: seq<Packet>)

  /** An open stream as the client keeps it. */
  class Stream {
    const guest: nat
    const stream: nat
    const transport: nat
    var credit: nat
    var pending: seq<Packet>
    /** DATA handed in and DATA sent, the last grant, and how much had been sent when it came. */
    ghost var submitted: seq<Packet>
    ghost var sent: seq<Packet>
    ghost var grant: nat
    ghost var mark: nat

    constructor (guest0: nat, stream0: nat, transport0: nat, credit0: nat)
      ensures Ok() && guest == guest0 && stream == stream0 && transport == transport0
      ensures sent == [] && submitted == [] && pending == [] && credit == grant == credit0 && mark == 0
    {
      guest, stream, transport, credit, pending := guest0, stream0, transport0, credit0, [];
      submitted, sent, grant, mark := [], [], credit0, 0;
    }

    /** Nothing is lost, reordered or sent without credit, and nothing waits while there is credit. */
    ghost predicate Ok()
      reads this
    {
      sent + pending == submitted && AllData(submitted) && (forall p :: p in pending ==> p.stream == stream) &&
      (pending != [] ==> credit == 0) && mark <= |sent| && (|sent| - mark) + credit == grant
    }

    /** As `Ok`, but credit may have come in for what waits. */
    ghost predicate Draining()
      reads this
    {
      sent + pending == submitted && AllData(submitted) && (forall p :: p in pending ==> p.stream == stream) &&
      mark <= |sent| && (|sent| - mark) + credit == grant
    }

    /** Uses one credit for a packet: a new one if none waits, else the one that has waited longest. */
    method Spend(p: Packet, isNew: bool)
      requires Draining() && credit > 0 && p.Data? && p.stream == stream
      requires if isNew then pending == [] else pending != [] && p == pending[0]
      modifies this
      ensures Draining() && credit == old(credit) - 1 && sent == old(sent) + [p] && grant == old(grant) &&
              mark == old(mark)
      ensures pending == if isNew then [] else old(pending)[1..]
      ensures submitted == if isNew then old(submitted) + [p] else old(submitted)
    {
      credit := credit - 1;
      if isNew {
        submitted := submitted + [p];
      } else {
        assert pending == [p] + pending[1..];
        pending := pending[1..];
      }
      sent := sent + [p];
    }

    method Credit(amount: nat)
      requires Draining()
      modifies `credit, `grant, `mark
      ensures Draining() && credit == grant == amount && mark == |sent|
    {
      credit, grant, mark := amount, amount, |sent|;
    }

    /** Keeps a packet for later. */
    method Keep(p: Packet)
      requires Ok() && credit == 0 && p.Data? && p.stream == stream
      modifies `pending, `submitted
      ensures Ok() && Draining() && submitted == old(submitted) + [p]
    {
      pending := pending + [p];
      submitted := submitted + [p];
    }

    ghost function Now(): Books
      reads this
    {
      Books(credit, grant, mark, |sent|, submitted)
    }

    lemma SentIsData()
      requires Draining()
      ensures AllData(sent)
    {
      assert forall x :: x in sent ==> x in submitted;
    }
  }

  /** UDP payloads reach the guest as datagrams, TCP payloads as stretches of the stream. */
  function DeliveryOf(st: Stream, payload: seq<bv8>): Delivery
  {
    if st.transport == 2 then Delivery.Datagram(st.guest, payload) else Stretch(st.guest, payload)
  }

  // ---- the two maps ----

  /** Each map leads back through the other. */
  ghost predicate Inverse(byGuest: map<nat, Stream>, byStream: map<nat, Stream>)
  {
    (forall g :: g in byGuest ==>
       byGuest[g].guest == g && byGuest[g].stream in byStream && byStream[byGuest[g].stream] == byGuest[g]) &&
    forall s :: s in byStream ==>
      byStream[s].stream == s && byStream[s].guest in byGuest && byGuest[byStream[s].guest] == byStream[s]
  }

  /** Opening keeps the maps inverse exactly if the guest has no open stream. */
  lemma OpenInverse(byGuest: map<nat, Stream>, byStream: map<nat, Stream>, st: Stream)
    requires Inverse(byGuest, byStream) && st.stream !in byStream
    ensures Inverse(byGuest[st.guest := st], byStream[st.stream := st]) <==> st.guest !in byGuest
  {
    var byGuest', byStream' := byGuest[st.guest := st], byStream[st.stream := st];
    if st.guest in byGuest {
      var other := byGuest[st.guest].stream;
      assert other in byStream' && byStream'[other].guest == st.guest;
    }
  }

  lemma GuestStream(byGuest: map<nat, Stream>, byStream: map<nat, Stream>, guest: nat)
    requires Inverse(byGuest, byStream) && guest in byGuest
    ensures var st := byGuest[guest];
            st.guest == guest && st.stream in byStream && byStream[st.stream] == st && st in byStream.Values
    ensures forall s :: s in byStream && byStream[s].guest != guest ==> byStream[s] != byGuest[guest]
    ensures Inverse(byGuest - {guest}, byStream - {byGuest[guest].stream})
  {
  }

  lemma StreamKeys(byGuest: map<nat, Stream>, byStream: map<nat, Stream>)
    requires Inverse(byGuest, byStream)
    ensures forall s :: s in byStream ==> byStream[s].stream == s
  {
  }

  lemma EmptyInverse()
    ensures Inverse(map[], map[])
  {
  }

  lemma ForgetInverse(byGuest: map<nat, Stream>, byStream: map<nat, Stream>, st: Stream)
    requires Inverse(byGuest, byStream) && st.stream in byStream && byStream[st.stream] == st
    ensures Inverse(byGuest - {st.guest}, byStream - {st.stream})
  {
  }

  /** Packets of every stream opened so far form a session; no other stream has packets. */
  ghost predicate LogOk(log: seq<Packet>, next: nat)
  {
    forall s: nat :: if 1 <= s < next then IsSession(Only(log, s)) else Only(log, s) == []
  }

  /** The stream's packets so far are its CONNECT and the DATA sent. */
  ghost predicate Logged(log: seq<Packet>, s: nat, sent: seq<Packet>)
  {
    |Only(log, s)| > 0 && Only(log, s)[0].Connect? && Only(log, s)[1..] == sent
  }

  lemma SendData(log: seq<Packet>, next: nat, p: Packet, sent: seq<Packet>)
    requires LogOk(log, next) && p.Data? && 1 <= p.stream < next && Logged(log, p.stream, sent) && AllData(sent)
    ensures LogOk(log + [p], next) && Logged(log + [p], p.stream, sent + [p])
    ensures forall s: nat, x :: s != p.stream && Logged(log, s, x) ==> Logged(log + [p], s, x)
  {
    hide Only;
    forall s: nat
      ensures Only(log + [p], s) == Only(log, s) + (if p.stream == s then [p] else [])
    {
      OnlyMore(log, p, s);
    }
    var ps := Only(log, p.stream);
    assert (ps + [p])[1..] == ps[1..] + [p];
    forall i | 0 < i < |ps|
      ensures ps[i].Data?
    {
      assert ps[i] == sent[i - 1];
    }
  }

  lemma SendConnect(log: seq<Packet>, next: nat, p: Packet)
    requires LogOk(log, next) && p.Connect? && p.stream == next >= 1
    ensures LogOk(log + [p], next + 1) && Logged(log + [p], p.stream, [])
    ensures forall s: nat, x :: s != p.stream && Logged(log, s, x) ==> Logged(log + [p], s, x)
  {
    hide Only;
    forall s: nat
      ensures Only(log + [p], s) == Only(log, s) + (if p.stream == s then [p] else [])
    {
      OnlyMore(log, p, s);
    }
  }

  /** A second CONNECT for a number in use, or one for stream 0, breaks the sessions. */
  lemma Reopened(log: seq<Packet>, next: nat, p: Packet)
    requires LogOk(log, next) && p.Connect? && p.stream < next
    ensures !LogOk(log + [p], next + 1)
  {
    OnlyMore(log, p, p.stream);
    var ps := Only(log, p.stream);
    assert (ps + [p])[|ps|] == p;
  }

  /** DATA does not mend a log. */
  lemma LogBefore(log: seq<Packet>, next: nat, p: Packet)
    requires LogOk(log + [p], next) && p.Data?
    ensures LogOk(log, next)
  {
    hide Only, IsSession;
    forall s: nat
      ensures if 1 <= s < next then IsSession(Only(log, s)) else Only(log, s) == []
    {
      OnlyMore(log, p, s);
      assert p.stream != s ==> Only(log + [p], s) == Only(log, s);
      if 1 <= s < next && p.stream == s {
        SessionBefore(Only(log, s), p);
      }
    }
  }

  lemma SessionBefore(ps: seq<Packet>, p: Packet)
    requires IsSession(ps + [p]) && p.Data?
    ensures IsSession(ps)
  {
    var all := ps + [p];
    assert all[0].Connect? && all[|ps|] == p;
    assert forall i :: 0 <= i < |ps| ==> ps[i] == all[i];
  }

  lemma SendClose(log: seq<Packet>, next: nat, p: Packet, sent: seq<Packet>)
    requires LogOk(log, next) && p.Close? && 1 <= p.stream < next && Logged(log, p.stream, sent) && AllData(sent)
    ensures LogOk(log + [p], next)
    ensures forall s: nat, x :: s != p.stream && Logged(log, s, x) ==> Logged(log + [p], s, x)
  {
    hide Only;
    forall s: nat
      ensures Only(log + [p], s) == Only(log, s) + (if p.stream == s then [p] else [])
    {
      OnlyMore(log, p, s);
    }
    var ps := Only(log, p.stream);
    forall i | 0 < i < |ps|
      ensures ps[i].Data?
    {
      assert ps[i] == sent[i - 1];
    }
  }

  /** Whether a message grants stream `s` credit: CONTINUE for it, or for all streams when it has run out. */
  predicate Grants(msg: Incoming, s: nat, credit: nat)
  {
    msg.Continue? && (msg.stream == s || (msg.stream == 0 && credit == 0))
  }

  /** A stream after a message: a new grant counts from what had been sent when it came. */
  predicate Granted(now: Books, was: Books, isNew: bool, amount: nat)
  {
    now.submitted == was.submitted &&
    if isNew then now.grant == amount && now.mark == was.count else now.grant == was.grant && now.mark == was.mark
  }

  /** The open streams below `s` have had their turn; the others are as they were. */
  ghost predicate GrantedTo(byStream: map<nat, Stream>, was: map<nat, Books>, s: nat, amount: nat)
    reads byStream.Values
  {
    was.Keys == byStream.Keys &&
    forall t :: t in byStream ==>
      if t < s then Granted(byStream[t].Now(), was[t], was[t].credit == 0, amount) else byStream[t].Now() == was[t]
  }

  lemma GrantedStart(byStream: map<nat, Stream>, was: map<nat, Books>, s: nat, amount: nat)
    requires was.Keys == byStream.Keys && forall t :: t in byStream ==> t >= s && byStream[t].Now() == was[t]
    ensures GrantedTo(byStream, was, s, amount)
  {
  }

  lemma GrantedEnd(byStream: map<nat, Stream>, was: map<nat, Books>, s: nat, amount: nat)
    requires GrantedTo(byStream, was, s, amount) && forall t :: t in byStream ==> t < s
    ensures forall t :: t in byStream ==> Granted(byStream[t].Now(), was[t], was[t].credit == 0, amount)
  {
  }

  /** An open stream and its packets agree. */
  ghost predicate Fair(st: Stream, log: seq<Packet>, next: nat)
    reads st
  {
    1 <= st.stream < next && st.Draining() && Logged(log, st.stream, st.sent)
  }

  ghost predicate AllFair(byStream: map<nat, Stream>, log: seq<Packet>, next: nat)
    reads byStream.Values
  {
    forall s :: s in byStream ==> byStream[s].stream == s && Fair(byStream[s], log, next)
  }

  ghost predicate AllOk(byStream: map<nat, Stream>)
    reads byStream.Values
  {
    forall s :: s in byStream ==> byStream[s].Ok()
  }

  /** Sending a packet does not concern other streams. */
  lemma OthersFair(log: seq<Packet>, next: nat, next': nat, p: Packet, byStream: map<nat, Stream>)
    requires forall s: nat, x :: s != p.stream && Logged(log, s, x) ==> Logged(log + [p], s, x)
    requires next <= next' && AllFair(byStream, log, next)
    ensures AllFair(byStream - {p.stream}, log + [p], next')
    ensures AllOk(byStream) ==> AllOk(byStream - {p.stream})
  {
    hide Logged;
  }

  lemma OneMoreFair(byStream: map<nat, Stream>, log: seq<Packet>, next: nat, st: Stream)
    requires AllFair(byStream - {st.stream}, log, next) && Fair(st, log, next)
    ensures AllFair(byStream[st.stream := st], log, next)
    ensures AllOk(byStream - {st.stream}) && st.Ok() ==> AllOk(byStream[st.stream := st])
  {
    hide Fair;
    var others, all := byStream - {st.stream}, byStream[st.stream := st];
    assert forall s :: s in all && s != st.stream ==> s in others && others[s] == all[s];
  }

  lemma AllStillOk(byStream: map<nat, Stream>, st: Stream)
    requires st.Ok() && forall s :: s in byStream && byStream[s] != st ==> byStream[s].Ok()
    ensures AllOk(byStream)
  {
  }

  lemma FairKeys(byStream: map<nat, Stream>, log: seq<Packet>, next: nat)
    requires AllFair(byStream, log, next)
    ensures forall s :: s in byStream ==> 1 <= s < next && byStream[s].stream == s && byStream[s].Draining()
    ensures forall s :: s in byStream ==> Logged(log, s, byStream[s].sent)
  {
  }

  class Client {
    var nextStream: nat
    var credit: nat
    var byGuest: map<nat, Stream>
    var byStream: map<nat, Stream>
    var queue: seq<Packet>
    var readyState: ReadyState
    /** Packets handed to the socket, and what the guests were told. */
    var wire: seq<Packet>
    var delivered: seq<Delivery>
    var closedGuests: seq<nat>

    /** Everything sent or waiting for the socket to open, in order. */
    function Log(): seq<Packet>
      reads this
    {
      wire + queue
    }

    ghost predicate Base()
      reads this, byStream.Values
    {
      nextStream >= 1 && (readyState.Open? ==> queue == []) && Inverse(byGuest, byStream) && LogOk(Log(), nextStream) &&
      AllFair(byStream, Log(), nextStream)
    }

    ghost predicate Valid()
      reads this, byStream.Values
    {
      Base() && AllOk(byStream)
    }

    constructor ()
      ensures Valid() && byGuest == map[] && byStream == map[] && Log() == [] && nextStream == 1
    {
      nextStream, credit, byGuest, byStream, queue, readyState := 1, 0, map[], map[], [], Connecting;
      wire, delivered, closedGuests := [], [], [];
    }

    method Send(p: Packet)
      requires readyState.Open? ==> queue == []
      modifies `wire, `queue
      ensures Log() == old(Log()) + [p] && (if readyState.Open? then queue == [] else wire == old(wire))
    {
      if readyState.Open? {
        wire := wire + [p];
      } else {
        queue := queue + [p];
      }
    }

    /** Opens a stream. Numbers are 32 bits wide: all is well afterwards exactly if the guest had no stream and the
        numbers have not run out. */
    method OpenStream(guest: nat, host: string, port: nat, transport: nat) returns (st: Stream)
      requires Valid()
      modifies this
      ensures fresh(st) && st.guest == guest && st.stream == old(nextStream) % 0x1_0000_0000 &&
              nextStream == old(nextStream) + 1
      ensures byGuest == old(byGuest)[guest := st] && byStream == old(byStream)[st.stream := st]
      ensures Log() == old(Log()) + [Connect(st.stream, transport, port, host)] && unchanged(`credit, `readyState)
      ensures st.transport == transport && st.credit == st.grant == credit && st.submitted == [] && st.mark == 0
      ensures st.Ok() && st.pending == [] && (readyState.Open? ==> queue == [])
      ensures old(nextStream) >= 0x1_0000_0000 ==> !LogOk(Log(), nextStream)
      ensures Valid() <==> guest !in old(byGuest) && old(nextStream) < 0x1_0000_0000
    {
      hide LogOk, Logged, Inverse, AllFair, AllOk;
      FairKeys(byStream, Log(), nextStream);
      var stream := nextStream % 0x1_0000_0000;
      ghost var next := nextStream;
      nextStream := nextStream + 1;
      st := new Stream(guest, stream, transport, credit);
      var p := Connect(stream, transport, port, host);
      if next < 0x1_0000_0000 {
        assert byStream - {stream} == byStream;
        OpenInverse(byGuest, byStream, st);
        SendConnect(Log(), stream, p);
        OthersFair(Log(), stream, nextStream, p, byStream);
        OneMoreFair(byStream, Log() + [p], nextStream, st);
      } else {
        Reopened(Log(), next, p);
      }
      byGuest := byGuest[guest := st];
      byStream := byStream[stream := st];
      Send(p);
    }

    /** Sends one packet of a stream that has credit. */
    method Transmit(st: Stream, p: Packet, isNew: bool)
      requires (readyState.Open? ==> queue == []) && st.Draining() && st.credit > 0
      requires p.Data? && p.stream == st.stream
      requires if isNew then st.pending == [] else st.pending != [] && p == st.pending[0]
      modifies `wire, `queue, st
      ensures old(Base()) && st.stream in byStream && byStream[st.stream] == st ==> Base()
      ensures st.Draining() && (readyState.Open? ==> queue == [])
      ensures st.credit == old(st.credit) - 1 && Log() == old(Log()) + [p] && st.sent == old(st.sent) + [p]
      ensures st.grant == old(st.grant) && st.mark == old(st.mark)
      ensures st.pending == if isNew then [] else old(st.pending)[1..]
      ensures st.submitted == if isNew then old(st.submitted) + [p] else old(st.submitted)
    {
      hide LogOk, Logged, Inverse, AllFair;
      ghost var fair := Base() && st.stream in byStream && byStream[st.stream] == st;
      if fair {
        FairKeys(byStream, Log(), nextStream);
        st.SentIsData();
        SendData(Log(), nextStream, p, st.sent);
        OthersFair(Log(), nextStream, nextStream, p, byStream);
        assert st !in (byStream - {st.stream}).Values;
      }
      hide AllData;
      st.Spend(p, isNew);
      if fair {
        OneMoreFair(byStream, Log() + [p], nextStream, st);
        assert byStream[st.stream := st] == byStream;
      }
      Send(p);
    }

    /** Sends what waits, as far as the credit goes. */
    method Drain(st: Stream)
      requires Base() && st.stream in byStream && byStream[st.stream] == st
      modifies `wire, `queue, st
      ensures Base() && st.Ok() && st.submitted == old(st.submitted) && st.grant == old(st.grant) &&
              st.mark == old(st.mark)
      ensures old(Log()) <= Log()
    {
      FairKeys(byStream, Log(), nextStream);
      hide LogOk, Logged, Inverse, AllFair;
      while st.credit > 0 && st.pending != []
        invariant old(Log()) <= Log()
        invariant Base() && st.submitted == old(st.submitted) && st.grant == old(st.grant) && st.mark == old(st.mark)
        invariant st.Draining()
        decreases |st.pending|
      {
        Transmit(st, st.pending[0], false);
      }
    }

    /** DATA from a guest: sent if there is credit, else kept. */
    method SendBytes(guest: nat, bytes: seq<bv8>)
      requires readyState.Open? ==> queue == []
      requires guest in byGuest ==> byGuest[guest].Ok()
      modifies `wire, `queue, if guest in byGuest then {byGuest[guest]} else {}
      ensures old(Valid()) ==> Valid()
      ensures guest !in byGuest ==> Log() == old(Log())
      ensures guest in byGuest ==>
                var st := byGuest[guest];
                var p := Data(st.stream, bytes);
                st.submitted == old(st.submitted) + [p] && st.grant == old(st.grant) && st.mark == old(st.mark) &&
                Log() == old(Log()) + if old(st.credit) > 0 then [p] else []
    {
      hide LogOk, Logged, Inverse, AllFair;
      if guest !in byGuest {
        return;
      }
      ghost var valid := Valid();
      if valid {
        GuestStream(byGuest, byStream, guest);
        FairKeys(byStream, Log(), nextStream);
      }
      var st := byGuest[guest];
      var p := Data(st.stream, bytes);
      if st.credit > 0 {
        Transmit(st, p, true);
        if valid {
          FairKeys(byStream, Log(), nextStream);
          AllStillOk(byStream, st);
        }
      } else {
        KeepFor(st, p);
      }
    }

    method KeepFor(st: Stream, p: Packet)
      requires st.Ok() && st.credit == 0 && p.Data? && p.stream == st.stream
      modifies st`pending, st`submitted
      ensures st.Ok() && st.submitted == old(st.submitted) + [p]
      ensures old(Valid()) && st.stream in byStream && byStream[st.stream] == st ==> Valid()
    {
      hide LogOk, Logged, Inverse;
      st.Keep(p);
    }

    /** A datagram, on a stream that is opened if there is none. All is well afterwards exactly if none had to be
        opened, or the numbers had not run out. */
    method Datagram(guest: nat, host: string, port: nat, bytes: seq<bv8>)
      requires Valid()
      modifies this, byStream.Values
      ensures Valid() <==> guest in old(byGuest) || old(nextStream) < 0x1_0000_0000
      ensures guest in byGuest
      ensures var st := byGuest[guest];
              if guest in old(byGuest) then
                st == old(byGuest)[guest] && byStream == old(byStream) &&
                st.submitted == old(byGuest[guest].submitted) + [Data(st.stream, bytes)] &&
                st.grant == old(byGuest[guest].grant) && st.mark == old(byGuest[guest].mark)
              else
                st.stream == old(nextStream) % 0x1_0000_0000 && st.transport == 2 &&
                byStream == old(byStream)[st.stream := st] && st.submitted == [Data(st.stream, bytes)] &&
                st.grant == credit && st.mark == 0
      ensures old(Log()) <= Log() && forall s :: s in old(byStream) && old(byStream)[s].guest != guest ==>
                var st := old(byStream)[s];
                st.submitted == old(st.submitted) && st.grant == old(st.grant) && st.mark == old(st.mark)
    {
      hide LogOk, Inverse, AllFair;
      GuestOk(guest);
      ghost var next, known := nextStream, guest in byGuest;
      if guest !in byGuest {
        var _ := OpenStream(guest, host, port, 2);
      }
      ghost var log := Log();
      SendBytes(guest, bytes);
      if !known && next >= 0x1_0000_0000 && Log() != log && LogOk(Log(), nextStream) {
        LogBefore(log, nextStream, Data(byGuest[guest].stream, bytes));
      }
    }

    lemma GuestOk(guest: nat)
      requires Valid()
      ensures guest in byGuest ==>
                byGuest[guest].Ok() && byGuest[guest] in byStream.Values &&
                forall s :: s in byStream && byStream[s].guest != guest ==> byStream[s] != byGuest[guest]
    {
      hide LogOk, AllFair;
      if guest in byGuest {
        GuestStream(byGuest, byStream, guest);
      }
    }

    method CloseGuest(guest: nat)
      requires Valid()
      modifies this
      ensures Valid() && guest !in byGuest
      ensures guest in old(byGuest) ==>
                byGuest == old(byGuest) - {guest} &&
                Log() == old(Log()) + [Close(old(byGuest[guest].stream), 2)]
      ensures guest !in old(byGuest) ==> byGuest == old(byGuest) && byStream == old(byStream) && Log() == old(Log())
    {
      hide LogOk, Logged, Inverse, AllFair, AllOk, AllData;
      if guest !in byGuest {
        return;
      }
      GuestStream(byGuest, byStream, guest);
      var st := byGuest[guest];
      FairKeys(byStream, Log(), nextStream);
      st.SentIsData();
      EndStream(st, Close(st.stream, 2));
    }

    method EndStream(st: Stream, p: Packet)
      requires Valid() && p.Close? && p.stream == st.stream && st.stream in byStream && byStream[st.stream] == st &&
               AllData(st.sent)
      modifies `wire, `queue, `byGuest, `byStream
      ensures Valid() && byGuest == old(byGuest) - {st.guest} && byStream == old(byStream) - {st.stream} &&
              Log() == old(Log()) + [p]
    {
      hide LogOk, Logged, Inverse, AllFair, AllOk, AllData;
      FairKeys(byStream, Log(), nextStream);
      ForgetInverse(byGuest, byStream, st);
      SendClose(Log(), nextStream, p, st.sent);
      OthersFair(Log(), nextStream, nextStream, p, byStream);
      Send(p);
      byGuest := byGuest - {st.guest};
      byStream := byStream - {st.stream};
    }

    // ---- events ----

    /** The socket opens: what was queued goes out, in order. */
    method OnOpen()
      requires Valid() && readyState.Connecting?
      modifies `readyState, `wire, `queue
      ensures Valid() && Log() == old(Log()) && wire == Log()
    {
      hide LogOk, Logged, Inverse;
      readyState := Open;
      var i := 0;
      while i < |queue|
        invariant i <= |queue| && queue == old(queue) && wire == old(wire) + queue[..i]
      {
        wire := wire + [queue[i]];
        i := i + 1;
      }
      assert queue[..|queue|] == queue;
      queue := [];
      assert wire + [] == old(Log());
    }

    /** The socket closes: every guest is told. */
    method OnClose()
      requires Valid()
      modifies `readyState, `byGuest, `byStream, `closedGuests
      ensures Valid() && byGuest == map[] && byStream == map[] && readyState == Shut && Log() == old(Log())
      ensures exists told :: closedGuests == old(closedGuests) + told && forall g :: g in told <==> g in old(byGuest)
    {
      hide LogOk, Fair, Inverse;
      EmptyInverse();
      readyState := Shut;
      var left: set<nat>, told: seq<nat> := byGuest.Keys, [];
      while left != {}
        invariant left <= byGuest.Keys && byGuest == old(byGuest) && byStream == old(byStream)
        invariant forall g :: g in told <==> g in byGuest.Keys - left
        decreases |left|
      {
        var g :| g in left;
        told, left := told + [g], left - {g};
      }
      closedGuests := closedGuests + told;
      byGuest, byStream := map[], map[];
    }

    /** New credit for one stream. */
    method Grant(st: Stream, amount: nat)
      requires Valid() && st.stream in byStream && byStream[st.stream] == st
      modifies `wire, `queue, st
      ensures Valid() && st.grant == amount && st.mark == old(|st.sent|) && st.submitted == old(st.submitted)
      ensures old(Log()) <= Log()
    {
      hide LogOk, Logged, Inverse, Stream.Ok;
      FairKeys(byStream, Log(), nextStream);
      st.Credit(amount);
      Drain(st);
    }

    /** New credit for a stream that has run out. */
    method GrantIfEmpty(st: Stream, amount: nat)
      requires Valid() && st.stream in byStream && byStream[st.stream] == st
      modifies `wire, `queue, st
      ensures Valid() && st.submitted == old(st.submitted) && old(Log()) <= Log()
      ensures if old(st.credit) == 0 then st.grant == amount && st.mark == old(|st.sent|)
              else st.grant == old(st.grant) && st.mark == old(st.mark)
    {
      hide LogOk, Logged, Inverse, AllFair;
      if st.credit == 0 {
        Grant(st, amount);
      } else {
        Drain(st);
        AllStillOk(byStream, st);
      }
    }

    /** New credit for the streams that have run out, and for streams to come. */
    method GrantAll(amount: nat)
      requires Valid()
      modifies `credit, `wire, `queue, byStream.Values
      ensures Valid() && credit == amount && old(Log()) <= Log()
      ensures forall s :: s in byStream ==>
                Granted(byStream[s].Now(), old(byStream[s].Now()), old(byStream[s].credit) == 0, amount)
    {
      hide LogOk, AllFair, AllOk, Inverse, GrantedTo, Granted, Base;
      ghost var was := map s | s in byStream :: byStream[s].Now();
      Numbers();
      GrantedStart(byStream, was, 1, amount);
      SetCredit(amount);
      GrantedStart(byStream, was, 1, amount);
      GrantEach(was, amount);
      Numbers();
      GrantedEnd(byStream, was, nextStream, amount);
    }

    method SetCredit(amount: nat)
      requires Valid()
      modifies `credit
      ensures Valid() && credit == amount
    {
      hide LogOk, AllFair, AllOk, Inverse;
      credit := amount;
    }

    lemma Numbers()
      requires Base()
      ensures nextStream >= 1 && forall s :: s in byStream ==> 1 <= s < nextStream && byStream[s] in byStream.Values
    {
      hide LogOk, AllFair, Inverse;
      FairKeys(byStream, Log(), nextStream);
    }

    /** All streams in turn. */
    method GrantEach(ghost was: map<nat, Books>, amount: nat)
      requires Valid() && GrantedTo(byStream, was, 1, amount)
      modifies `wire, `queue, byStream.Values
      ensures Valid() && old(Log()) <= Log() && GrantedTo(byStream, was, nextStream, amount)
    {
      hide LogOk, AllFair, AllOk, Inverse, GrantedTo, Base;
      Numbers();
      var s := 1;
      while s < nextStream
        invariant 1 <= s <= nextStream && Valid() && old(Log()) <= Log() && GrantedTo(byStream, was, s, amount)
      {
        GrantNext(s, was, amount);
        s := s + 1;
      }
    }

    /** The turn of stream `s`, if it is open. */
    method GrantNext(s: nat, ghost was: map<nat, Books>, amount: nat)
      requires Valid() && GrantedTo(byStream, was, s, amount)
      modifies `wire, `queue, byStream.Values
      ensures Valid() && old(Log()) <= Log() && GrantedTo(byStream, was, s + 1, amount)
    {
      hide LogOk, AllFair, AllOk, Inverse;
      FairKeys(byStream, Log(), nextStream);
      if s in byStream {
        assert byStream[s] in byStream.Values;
        GrantIfEmpty(byStream[s], amount);
      }
    }

    /** A CONTINUE for one stream, or for all of them when it names stream 0. */
    method OnContinue(stream: nat, amount: nat)
      requires Valid()
      modifies `credit, `wire, `queue, byStream.Values
      ensures Valid() && old(Log()) <= Log() && credit == if stream == 0 then amount else old(credit)
      ensures forall s :: s in byStream ==>
                Granted(byStream[s].Now(), old(byStream[s].Now()),
                        Grants(Continue(stream, amount), s, old(byStream[s].credit)), amount)
    {
      hide LogOk, AllFair, AllOk, Inverse;
      FairKeys(byStream, Log(), nextStream);
      if stream == 0 {
        GrantAll(amount);
      } else if stream in byStream {
        assert byStream[stream] in byStream.Values;
        Grant(byStream[stream], amount);
      }
    }

    /** What a stream has sent and may still send is what it was granted and had sent by then. */
    lemma Balance()
      requires Valid()
      ensures forall s :: s in byStream ==>
                byStream[s].credit + |byStream[s].sent| == byStream[s].grant + byStream[s].mark
    {
      hide LogOk, AllFair, Inverse;
    }

    /** A message from the server. */
    method Receive(msg: Incoming)
      requires Valid()
      modifies this, byStream.Values
      ensures Valid() && unchanged(`readyState, `nextStream)
      ensures msg.Closed? && msg.stream in old(byStream) ==> byStream == old(byStream) - {msg.stream}
      ensures !(msg.Closed? && msg.stream in old(byStream)) ==> byStream == old(byStream) && byGuest == old(byGuest)
      ensures forall s :: s in byStream ==>
                var isNew := Grants(msg, s, old(byStream[s].credit));
                Granted(byStream[s].Now(), old(byStream[s].Now()), isNew, if isNew then msg.credit else 0)
      ensures if msg.Continue? then old(Log()) <= Log() else Log() == old(Log())
      ensures credit == if msg.Continue? && msg.stream == 0 then msg.credit else old(credit)
      ensures forall s :: s in byStream ==>
                byStream[s].credit + |byStream[s].sent| ==
                if msg.Continue? && (msg.stream == s || (msg.stream == 0 && old(byStream[s].credit) == 0))
                then msg.credit + old(|byStream[s].sent|) else old(byStream[s].credit + |byStream[s].sent|)
      ensures delivered == if msg.Received? && msg.stream in byStream
                           then old(delivered) + [DeliveryOf(byStream[msg.stream], msg.payload)] else old(delivered)
      ensures msg.Received? && msg.stream in byStream ==>
                var st, told := byStream[msg.stream], delivered[|delivered| - 1];
                told.guest == st.guest && told.payload == msg.payload && (told.Datagram? <==> st.transport == 2)
      ensures closedGuests == if msg.Closed? && msg.stream in old(byStream)
                              then old(closedGuests) + [old(byStream[msg.stream].guest)] else old(closedGuests)
    {
      hide LogOk, Fair, Inverse, Stream.Ok;
      StreamKeys(byGuest, byStream);
      Balance();
      match msg {
        case Received(stream, payload) =>
          if stream in byStream {
            var st := byStream[stream];
            delivered := delivered + [if st.transport == 2 then Delivery.Datagram(st.guest, payload)
                                      else Stretch(st.guest, payload)];
          }
        case Continue(stream, amount) =>
          OnContinue(stream, amount);
          Balance();
        case Closed(stream) =>
          if stream in byStream {
            var st := byStream[stream];
            closedGuests := closedGuests + [st.guest];
            ForgetInverse(byGuest, byStream, st);
            byGuest, byStream := byGuest - {st.guest}, byStream - {st.stream};
          }
        case Other =>
      }
    }

    /** Shuts the client down without a word to the guests. */
    method Shutdown()
      requires Valid()
      modifies `readyState, `byGuest, `byStream
      ensures Valid() && byGuest == map[] && byStream == map[] && Log() == old(Log())
    {
      hide LogOk, Fair, Inverse;
      EmptyInverse();
      readyState, byGuest, byStream := Shut, map[], map[];
    }
  }
}
