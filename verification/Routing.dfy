/** Sessions, and the routing of MSG and P2P, over whole runs. */
module Routing {
  import opened Options
  import opened Comparators
  import opened Protocol
  import opened ServerModel

  // ---- Sessions ----

  /** The addresses that have sent a datagram. */
  function Senders<P>(events: seq<Event<P>>): set<Address> {
    if events == [] then {}
    else
      var e := events[|events| - 1];
      Senders(events[..|events| - 1]) + if e.Datagram? then {e.from} else {}
  }

  lemma StepAddsSender<P>(s: State<P>, e: Event<P>)
    ensures Step(s, e).0.sessions.Keys == s.sessions.Keys + if e.Datagram? then {e.from} else {}
  {
    if e.Datagram? {
      var s1 := Arrive(s, e.from);
      assert s1.sessions.Keys == s.sessions.Keys + {e.from};
      CommandKeepsSessions(s1, e.from, ParseClient(e.text));
    }
  }

  /** There is exactly one session for each address that has ever sent a datagram. */
  lemma {:induction false} OneSessionPerSender<P>(s: State<P>, events: seq<Event<P>>)
    ensures Run(s, events).sessions.Keys == s.sessions.Keys + Senders(events)
  {
    if events != [] {
      var init := events[..|events| - 1];
      OneSessionPerSender(s, init);
      StepAddsSender(Run(s, init), events[|events| - 1]);
    }
  }

  lemma CommandKeepsSessions<P>(s: State<P>, from: Address, command: ClientCommand)
    requires from in s.sessions
    ensures CommandStep(s, from, command).0.sessions.Keys == s.sessions.Keys
    ensures forall a | a in s.sessions && s.sessions[a].loggedIn ::
              CommandStep(s, from, command).0.sessions[a] == s.sessions[a]
  {
  }

  lemma StepKeepsBinding<P>(s: State<P>, e: Event<P>, a: Address)
    requires a in s.sessions && s.sessions[a].loggedIn
    ensures a in Step(s, e).0.sessions && Step(s, e).0.sessions[a] == s.sessions[a]
  {
    if e.Datagram? {
      CommandKeepsSessions(Arrive(s, e.from), e.from, ParseClient(e.text));
    }
  }

  /** Once logged in, a session stays logged in as the same record, deleted or not, and the IPs
      of session and record stay equal. */
  lemma {:induction false} BindingIsForever<P>(s: State<P>, events: seq<Event<P>>, a: Address)
    requires Inv(s) && FreshRun(s, events)
    requires a in s.sessions && s.sessions[a].loggedIn
    ensures var t := Run(s, events);
            && a in t.sessions && t.sessions[a] == s.sessions[a]
            && t.sessions[a].client.Some? && t.sessions[a].client.value in t.store
            && t.store[t.sessions[a].client.value].ip == a.ip
  {
    RunKeepsInv(s, events);
    if events != [] {
      BindingIsForever(s, events[..|events| - 1], a);
      StepKeepsBinding(Run(s, events[..|events| - 1]), events[|events| - 1], a);
    }
    assert Bound(Run(s, events), a, Run(s, events).sessions[a]);
  }

  // ---- The latest login as a record ----

  /** The step logs this address in as this record. */
  predicate LogsIn<P(==)>(s: State<P>, e: Event<P>, p: P) {
    && e.Datagram?
    && !SessionOf(s, e.from).loggedIn
    && SessionOf(Step(s, e).0, e.from) == Session(Some(p), true)
  }

  /** The most recent address to log in as the record during the run. */
  function LatestLogin<P(==)>(s: State<P>, events: seq<Event<P>>, p: P): Option<Address> {
    if events == [] then None
    else
      var init, e := events[..|events| - 1], events[|events| - 1];
      if LogsIn(Run(s, init), e, p) then Some(e.from) else LatestLogin(s, init, p)
  }

  /** The record carries the address of a session that is logged in as it. */
  ghost predicate PointsAt<P>(s: State<P>, p: P, a: Address) {
    && a in s.sessions && s.sessions[a] == Session(Some(p), true)
    && p in s.store && s.store[p].ip == a.ip && s.store[p].port == a.port
  }

  lemma CommandPointsAt<P>(s: State<P>, from: Address, command: ClientCommand, p: P, a: Address)
    requires Inv(s)
    ensures var t := CommandStep(s, from, command).0;
            && (!SessionOf(s, from).loggedIn && SessionOf(t, from) == Session(Some(p), true) ==> PointsAt(t, p, from))
            && (!(!SessionOf(s, from).loggedIn && SessionOf(t, from) == Session(Some(p), true)) && PointsAt(s, p, a)
                ==> PointsAt(t, p, a))
  {
  }

  lemma StepPointsAt<P>(s: State<P>, e: Event<P>, p: P, a: Address)
    requires Inv(s) && (e.Admin? ==> e.block !in s.store)
    ensures LogsIn(s, e, p) ==> PointsAt(Step(s, e).0, p, e.from)
    ensures !LogsIn(s, e, p) && PointsAt(s, p, a) ==> PointsAt(Step(s, e).0, p, a)
  {
    if e.Datagram? {
      var s1 := Arrive(s, e.from);
      assert Inv(s1) && SessionOf(s1, e.from) == SessionOf(s, e.from);
      CommandPointsAt(s1, e.from, ParseClient(e.text), p, a);
    }
  }

  /** Over every run: the record some session has logged in as carries the address of the most
      recent of those sessions. */
  lemma {:induction false} RecordPointsAtLatest<P>(s: State<P>, events: seq<Event<P>>, p: P)
    requires Inv(s) && FreshRun(s, events)
    requires LatestLogin(s, events, p).Some?
    ensures PointsAt(Run(s, events), p, LatestLogin(s, events, p).value)
  {
    var init, e := events[..|events| - 1], events[|events| - 1];
    RunKeepsInv(s, init);
    if LogsIn(Run(s, init), e, p) {
      StepPointsAt(Run(s, init), e, p, e.from);
    } else {
      RecordPointsAtLatest(s, init, p);
      StepPointsAt(Run(s, init), e, p, LatestLogin(s, init, p).value);
    }
  }

  /** MSG forwards to, and P2P names, exactly the most recent session to log in as the user the
      name stands for. */
  lemma RoutedToLatest<P>(
    s: State<P>, events: seq<Event<P>>, from: Address, user: string, body: string, p: P, a: Address)
    requires Inv(s) && FreshRun(s, events) && SessionOf(Run(s, events), from).loggedIn
    requires UserNamed(Run(s, events), user) == Some(p) && LatestLogin(s, events, p) == Some(a)
    ensures var t := Run(s, events);
            && Me(t, from).ip == from.ip
            && (Me(t, from).clientServer != 0 ==>
                  MsgOutput(t, from, Some((user, body))) ==
                  [Forward(a, Me(t, from).username, from, body), ToSender(MessageSent)])
            && (Me(t, from).p2p != 0 ==>
                  P2POutput(t, from, Some(user)) == [ToSender(PeerAt(user, a.ip, a.port))])
  {
    var t := Run(s, events);
    RunKeepsInv(s, events);
    RecordPointsAtLatest(s, events, p);
    assert Bound(t, from, t.sessions[from]);
    assert Address(a.ip, a.port) == a;
  }
}
