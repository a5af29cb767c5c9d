/** Multicast groups over whole runs, for an address pool of any size. */
module Groups {
  import opened Options
  import opened Comparators
  import opened Protocol
  import opened ServerModel

  /** The names for which CREATEMULTICAST succeeded, in order. */
  function Created<P(==)>(s: State<P>, events: seq<Event<P>>): seq<string> {
    if events == [] then []
    else
      var init, e := events[..|events| - 1], events[|events| - 1];
      Created(s, init) + CreatedBy(Run(s, init), e)
  }

  function CreatedBy<P(==)>(s: State<P>, e: Event<P>): seq<string> {
    NamesIn(Step(s, e).1)
  }

  /** The group name an answer announces, if it does. */
  function NamesIn(out: seq<Output>): seq<string> {
    if |out| == 1 && out[0].ToSender? && out[0].reply.GroupCreated? then [out[0].reply.name] else []
  }

  /** The i-th name created holds the i-th address of the pool, and there are no other groups. */
  ghost predicate Allocated<P>(s: State<P>, names: seq<string>) {
    && s.current == |names| <= |s.pool|
    && Distinct(names)
    && (forall k :: k in s.groups <==> k in names)
    && (forall i | 0 <= i < |names| :: s.groups[names[i]] == s.pool[i])
  }

  lemma {:induction false} ListingNamesUsers(records: seq<Record>)
    ensures forall o | o in Listing(records) :: o.ToSender? && o.reply.User?
  {
    if records != [] {
      ListingNamesUsers(records[1..]);
    }
  }

  /** Admin commands leave the groups alone and announce none. */
  lemma AdminCreatesNoGroup<P>(s: State<P>, command: AdminCommand, block: P, junk: int)
    ensures var (t, out) := AdminStep(s, command, block, junk);
            NamesIn(out) == [] && t.groups == s.groups && t.current == s.current && t.pool == s.pool
  {
  }

  /** A client command creates at most the group it announces, with the next address. */
  lemma CommandCreates<P>(s: State<P>, from: Address, command: ClientCommand)
    ensures var (t, out) := CommandStep(s, from, command);
            && t.pool == s.pool
            && if NamesIn(out) == [] then t.groups == s.groups && t.current == s.current
               else
                 var name := NamesIn(out)[0];
                 && NamesIn(out) == [name] && name !in s.groups && s.current < |s.pool|
                 && out == [ToSender(GroupCreated(name, s.pool[s.current]))]
                 && t.groups == s.groups[name := s.pool[s.current]] && t.current == s.current + 1
  {
  }

  /** The same for a step of the server. */
  lemma StepCreates<P>(s: State<P>, e: Event<P>)
    ensures var (t, out) := Step(s, e);
            && t.pool == s.pool
            && if NamesIn(out) == [] then t.groups == s.groups && t.current == s.current
               else
                 var name := NamesIn(out)[0];
                 && NamesIn(out) == [name] && name !in s.groups && s.current < |s.pool|
                 && out == [ToSender(GroupCreated(name, s.pool[s.current]))]
                 && t.groups == s.groups[name := s.pool[s.current]] && t.current == s.current + 1
  {
    match e
    case Admin(line, block, junk) => AdminCreatesNoGroup(s, ParseAdmin(line), block, junk);
    case Datagram(from, text) => CommandCreates(Arrive(s, from), from, ParseClient(text));
  }

  lemma AllocateNext<P>(s: State<P>, names: seq<string>, name: string, t: State<P>)
    requires Allocated(s, names) && name !in s.groups && s.current < |s.pool|
    requires t.pool == s.pool && t.current == s.current + 1 && t.groups == s.groups[name := s.pool[s.current]]
    ensures Allocated(t, names + [name])
  {
  }

  lemma StepAllocates<P>(s: State<P>, e: Event<P>, names: seq<string>)
    requires Allocated(s, names)
    ensures Step(s, e).0.pool == s.pool && Allocated(Step(s, e).0, names + CreatedBy(s, e))
  {
    StepCreates(s, e);
    if CreatedBy(s, e) == [] {
      assert names + [] == names;
    } else {
      AllocateNext(s, names, CreatedBy(s, e)[0], Step(s, e).0);
    }
  }

  /** In every reachable state the number of groups is current_group, at most max_groups, and
      group i in creation order holds pool address i. */
  lemma {:induction false} PoolIsHandedOutInOrder<P>(s: State<P>, events: seq<Event<P>>)
    requires s.groups == map[] && s.current == 0
    ensures Allocated(Run(s, events), Created(s, events)) && Run(s, events).pool == s.pool
  {
    if events != [] {
      var init := events[..|events| - 1];
      PoolIsHandedOutInOrder(s, init);
      StepAllocates(Run(s, init), events[|events| - 1], Created(s, init));
    }
  }

  lemma AllocatedCount<P>(t: State<P>, names: seq<string>)
    requires Allocated(t, names)
    ensures |t.groups| == t.current
  {
    DistinctSize(names);
    assert t.groups.Keys == set n | n in names;
  }

  lemma AllocatedInjective<P>(t: State<P>, names: seq<string>, k: string, m: string)
    requires Allocated(t, names) && Distinct(t.pool) && k in t.groups && m in t.groups && k != m
    ensures t.groups[k] != t.groups[m]
  {
  }

  /** From distinct addresses, no two groups ever share one, and there are current_group of
      them. */
  lemma GroupsAreInjective<P>(s: State<P>, events: seq<Event<P>>)
    requires s.groups == map[] && s.current == 0 && Distinct(s.pool)
    ensures var t := Run(s, events);
            && |t.groups| == t.current <= |s.pool|
            && forall k, m | k in t.groups && m in t.groups && k != m :: t.groups[k] != t.groups[m]
  {
    PoolIsHandedOutInOrder(s, events);
    var t, names := Run(s, events), Created(s, events);
    AllocatedCount(t, names);
    forall k, m | k in t.groups && m in t.groups && k != m
      ensures t.groups[k] != t.groups[m]
    {
      AllocatedInjective(t, names, k, m);
    }
  }

  lemma {:induction false} DistinctSize(names: seq<string>)
    requires Distinct(names)
    ensures |set n | n in names| == |names|
  {
    if names != [] {
      var init, last := names[..|names| - 1], names[|names| - 1];
      DistinctSize(init);
      assert (set n | n in names) == (set n | n in init) + {last};
      assert last !in init;
    }
  }

  /** A step never takes a group away or gives it another address, and with the pool used up
      it changes no group at all. */
  lemma StepKeepsGroups<P>(s: State<P>, e: Event<P>)
    ensures forall k | k in s.groups :: k in Step(s, e).0.groups && Step(s, e).0.groups[k] == s.groups[k]
    ensures s.current >= |s.pool| ==> Step(s, e).0.groups == s.groups && Step(s, e).0.current == s.current
    ensures Step(s, e).0.pool == s.pool
  {
    StepCreates(s, e);
  }

  lemma {:induction false} GroupsAreForever<P>(s: State<P>, events: seq<Event<P>>)
    ensures var t := Run(s, events);
            && (forall k | k in s.groups :: k in t.groups && t.groups[k] == s.groups[k])
            && (s.current >= |s.pool| ==> t.groups == s.groups && t.current == s.current)
            && t.pool == s.pool
  {
    if events != [] {
      GroupsAreForever(s, events[..|events| - 1]);
      StepKeepsGroups(Run(s, events[..|events| - 1]), events[|events| - 1]);
    }
  }

  /** Once CREATEMULTICAST has answered a name with an address, every later permitted
      GETMULTICAST of that name answers the same address, whoever asks and whatever came
      between. */
  lemma CreatedThenFound<P>(
    s: State<P>, create: Event<P>, name: string, ip: string, between: seq<Event<P>>, who: Address)
    requires Step(s, create).1 == [ToSender(GroupCreated(name, ip))]
    ensures var t := Run(Step(s, create).0, between);
            SessionOf(t, who).loggedIn && Me(t, who).group != 0 ==>
              GetOutput(t, who, Some(name)) == [ToSender(MulticastIp(ip))]
  {
    StepCreates(s, create);
    GroupsAreForever(Step(s, create).0, between);
  }
}
