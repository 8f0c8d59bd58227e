/** One server's update: grouping the wanted records by resource type and reconciling each type in turn. */
module DnsUpdate {
  import opened Options
  import opened DnsReconcile

  /** What becomes of one hosts record: forwards to this very server are dropped, and so are leases whose address
      belongs to no DHCP server; other leases are given their server. */
  function Prepared(h: Record, host: string, dhcpServer: string -> Option<string>): (r: Option<Record>)
    requires RESOURCE in h
    ensures r.Some? ==> RESOURCE in r.value && r.value[RESOURCE] == h[RESOURCE]
  {
    if "forward-to" in h && h["forward-to"] == host then None
    else if h[RESOURCE] == LEASE && "address" in h then
      match dhcpServer(h["address"])
      case None => None
      case Some(name) => if name == "" then None else Some(h["server" := name])
    else Some(h)
  }

  /** What is wanted of a hosts record, key by key. */
  lemma PreparedMeans(h: Record, host: string, dhcpServer: string -> Option<string>, key: string)
    requires "_resource" in h
    ensures var p := Prepared(h, host, dhcpServer);
      var toSelf := "forward-to" in h && h["forward-to"] == host;
      var addressed := h["_resource"] == "/ip/dhcp-server/lease" && "address" in h;
      && (toSelf ==> p.None?)
      && (!toSelf && !addressed ==> p == Some(h))
      && (!toSelf && addressed ==>
            var server := dhcpServer(h["address"]);
            && (p.Some? <==> server.Some? && server.value != "")
            && (p.Some? ==> "server" in p.value && p.value["server"] == server.value)
            && (p.Some? && key != "server" ==> (key in p.value <==> key in h))
            && (p.Some? && key != "server" && key in h ==> p.value[key] == h[key]))
  {
  }

  /** Some hosts record becomes `r` and belongs to resource type `t`. */
  ghost predicate Wants(hosts: seq<Record>, t: string, r: Record, host: string, dhcpServer: string -> Option<string>)
    requires forall h :: h in hosts ==> RESOURCE in h
  {
    exists h :: h in hosts && Prepared(h, host, dhcpServer) == Some(r) && h[RESOURCE] == t
  }

  ghost predicate Grouped(byType: map<string, set<Record>>, hosts: seq<Record>,
                          host: string, dhcpServer: string -> Option<string>)
    requires forall h :: h in hosts ==> RESOURCE in h
  {
    && (forall t, r :: Wants(hosts, t, r, host, dhcpServer) <==> t in byType && r in byType[t])
    && forall t :: t in byType ==> byType[t] != {}
  }

  /** `get_records_by_type`: a type is handled exactly when some record of it is wanted. */
  method GetRecordsByType(hosts: seq<Record>, host: string, dhcpServer: string -> Option<string>)
    returns (byType: map<string, set<Record>>)
    requires forall h :: h in hosts ==> RESOURCE in h
    ensures Grouped(byType, hosts, host, dhcpServer)
    ensures forall t, r :: t in byType && r in byType[t] ==> RESOURCE in r && r[RESOURCE] == t
  {
    hide Prepared, Grouped;
    byType := map[];
    NothingGrouped(host, dhcpServer);
    for i := 0 to |hosts|
      invariant Grouped(byType, hosts[..i], host, dhcpServer)
    {
      var h := hosts[i];
      assert hosts[..i + 1] == hosts[..i] + [h];
      GroupedStep(byType, hosts[..i], h, host, dhcpServer);
      match Prepared(h, host, dhcpServer)
      case None =>
      case Some(r) =>
        var t := h[RESOURCE];
        byType := byType[t := (if t in byType then byType[t] else {}) + {r}];
    }
    assert hosts[..|hosts|] == hosts;
    GroupedByResource(byType, hosts, host, dhcpServer);
  }

  lemma NothingGrouped(host: string, dhcpServer: string -> Option<string>)
    ensures Grouped(map[], [], host, dhcpServer)
  {
  }

  lemma WantsAppend(hosts: seq<Record>, h: Record, t: string, r: Record,
                    host: string, dhcpServer: string -> Option<string>)
    requires (forall x :: x in hosts ==> RESOURCE in x) && RESOURCE in h
    ensures Wants(hosts + [h], t, r, host, dhcpServer) <==>
      Wants(hosts, t, r, host, dhcpServer) || (Prepared(h, host, dhcpServer) == Some(r) && h[RESOURCE] == t)
  {
    hide Prepared;
    if x :| x in hosts && Prepared(x, host, dhcpServer) == Some(r) && x[RESOURCE] == t {
      assert x in hosts + [h];
    } else if Prepared(h, host, dhcpServer) == Some(r) && h[RESOURCE] == t {
      assert h in hosts + [h];
    }
  }

  lemma GroupedStep(byType: map<string, set<Record>>, hosts: seq<Record>, h: Record,
                    host: string, dhcpServer: string -> Option<string>)
    requires (forall x :: x in hosts ==> RESOURCE in x) && RESOURCE in h && Grouped(byType, hosts, host, dhcpServer)
    ensures var t := h[RESOURCE];
      match Prepared(h, host, dhcpServer)
      case None => Grouped(byType, hosts + [h], host, dhcpServer)
      case Some(r) =>
        Grouped(byType[t := (if t in byType then byType[t] else {}) + {r}], hosts + [h], host, dhcpServer)
  {
    hide Prepared, Wants;
    forall t, r ensures Wants(hosts + [h], t, r, host, dhcpServer) <==>
      Wants(hosts, t, r, host, dhcpServer) || (Prepared(h, host, dhcpServer) == Some(r) && h[RESOURCE] == t)
    {
      WantsAppend(hosts, h, t, r, host, dhcpServer);
    }
  }

  lemma GroupedByResource(byType: map<string, set<Record>>, hosts: seq<Record>,
                          host: string, dhcpServer: string -> Option<string>)
    requires (forall h :: h in hosts ==> RESOURCE in h) && Grouped(byType, hosts, host, dhcpServer)
    ensures forall t, r :: t in byType && r in byType[t] ==> RESOURCE in r && r[RESOURCE] == t
  {
    hide Prepared;
    forall t, r | t in byType && r in byType[t] ensures RESOURCE in r && r[RESOURCE] == t {
      assert Wants(hosts, t, r, host, dhcpServer);
      var h :| h in hosts && Prepared(h, host, dhcpServer) == Some(r) && h[RESOURCE] == t;
    }
  }

  ghost function Total(outcomes: seq<Outcome>): nat {
    if outcomes == [] then 0
    else
      var last := outcomes[|outcomes| - 1];
      Total(outcomes[..|outcomes| - 1]) + if last.Completed? then last.operations else 0
  }

  lemma NoTotal()
    ensures Total([]) == 0
  {
  }

  lemma TotalAppend(outcomes: seq<Outcome>, o: Outcome)
    ensures Total(outcomes + [o]) == Total(outcomes) + if o.Completed? then o.operations else 0
  {
    assert (outcomes + [o])[..|outcomes|] == outcomes;
  }

  /** The static records of one type on a router are exactly those that the hosts ask for. */
  ghost predicate InStep(hosts: seq<Record>, t: string, table: Table, host: string, dhcpServer: string -> Option<string>)
    requires forall h :: h in hosts ==> RESOURCE in h
  {
    forall r :: r in StaticRecords(t, table) <==> Wants(hosts, t, r, host, dhcpServer)
  }

  ghost predicate AllCanonical(hosts: seq<Record>, t: string, host: string, dhcpServer: string -> Option<string>)
    requires forall h :: h in hosts ==> RESOURCE in h
  {
    forall r :: Wants(hosts, t, r, host, dhcpServer) ==> Canonical(t, r)
  }

  /** Everything wanted of a type is there, once, and nothing else that is static. */
  ghost predicate Settled(hosts: seq<Record>, t: string, table: Table, host: string, dhcpServer: string -> Option<string>)
    requires forall h :: h in hosts ==> RESOURCE in h
  {
    InStep(hosts, t, table, host, dhcpServer) && NoDuplicates(t, table)
  }

  lemma {:induction false} SettlesIff(byType: map<string, set<Record>>, hosts: seq<Record>,
                                     host: string, dhcpServer: string -> Option<string>,
                                     t: string, before: Table, now: Table, outcome: Outcome)
    requires (forall h :: h in hosts ==> RESOURCE in h) && Grouped(byType, hosts, host, dhcpServer)
    requires t in byType && t != "" && Pass(t, byType[t], false, before, now, outcome) && outcome.Completed?
    ensures Settled(hosts, t, now, host, dhcpServer) <==> AllCanonical(hosts, t, host, dhcpServer)
  {
    hide Wants, StaticRecords, Canonical, Pass, NoDuplicates;
    ConvergesIff(t, byType[t], before, now, outcome);
    assert forall r :: Wants(hosts, t, r, host, dhcpServer) <==> r in byType[t];
    if InStep(hosts, t, now, host, dhcpServer) {
      assert forall r :: r in StaticRecords(t, now) <==> r in byType[t];
      assert StaticRecords(t, now) == byType[t];
    }
    if forall r :: r in byType[t] ==> Canonical(t, r) {
      PassLeavesNoDuplicates(t, byType[t], before, now, outcome);
    }
  }

  lemma WantedTypes(byType: map<string, set<Record>>, hosts: seq<Record>,
                    host: string, dhcpServer: string -> Option<string>)
    requires (forall h :: h in hosts ==> RESOURCE in h) && Grouped(byType, hosts, host, dhcpServer)
    ensures forall t, r :: Wants(hosts, t, r, host, dhcpServer) ==> t in byType
    ensures forall t :: t in byType ==>
      (exists r :: Wants(hosts, t, r, host, dhcpServer)) && exists h :: h in hosts && h[RESOURCE] == t
  {
    hide Prepared;
    forall t | t in byType
      ensures (exists r :: Wants(hosts, t, r, host, dhcpServer)) && exists h :: h in hosts && h[RESOURCE] == t
    {
      var r :| r in byType[t];
      assert Wants(hosts, t, r, host, dhcpServer);
      var h :| h in hosts && Prepared(h, host, dhcpServer) == Some(r) && h[RESOURCE] == t;
    }
  }

  lemma {:induction false} NoOperations(outcomes: seq<Outcome>)
    requires forall k :: 0 <= k < |outcomes| ==> outcomes[k] == Completed(0)
    ensures Total(outcomes) == 0
  {
    if outcomes != [] {
      NoOperations(outcomes[..|outcomes| - 1]);
    }
  }

  lemma SettledIsQuiet(byType: map<string, set<Record>>, hosts: seq<Record>,
                       host: string, dhcpServer: string -> Option<string>,
                       t: string, dryRun: bool, before: Table, now: Table, outcome: Outcome)
    requires (forall h :: h in hosts ==> RESOURCE in h) && Grouped(byType, hosts, host, dhcpServer)
    requires t in byType && Pass(t, byType[t], dryRun, before, now, outcome)
    requires Settled(hosts, t, before, host, dhcpServer)
    ensures outcome == Completed(0) && now == before
  {
    hide Wants, StaticRecords, Pass, NoDuplicates;
    assert forall r :: r in StaticRecords(t, before) <==> r in byType[t];
    assert StaticRecords(t, before) == byType[t];
    QuietPass(t, byType[t], dryRun, before, now, outcome);
  }

  /** Every resource type has its own table on the router. */
  ghost predicate Connected(router: map<string, Resource>)
    reads router.Values
  {
    && (forall t :: t in router ==> router[t].Valid())
    && (forall t, u :: t in router && u in router && t != u ==> router[t] != router[u])
  }

  ghost function Tables(router: map<string, Resource>): (tables: map<string, Table>)
    reads router.Values
    ensures tables.Keys == router.Keys
  {
    map t | t in router :: router[t].entries
  }

  /** A router's tables before and after the listed types have had their passes. */
  ghost predicate Passes(byType: map<string, set<Record>>, kinds: seq<string>, dryRun: bool,
                         before: map<string, Table>, now: map<string, Table>, outcomes: seq<Outcome>)
  {
    && |outcomes| == |kinds| && before.Keys == now.Keys
    && (forall i, j :: 0 <= i < j < |kinds| ==> kinds[i] != kinds[j])
    && (forall k :: 0 <= k < |kinds| ==>
          var t := kinds[k];
          t in byType && t in before && Pass(t, byType[t], dryRun, before[t], now[t], outcomes[k]))
    && (forall t :: t in before && t !in kinds ==> now[t] == before[t])
  }

  lemma NoPasses(byType: map<string, set<Record>>, dryRun: bool, before: map<string, Table>)
    ensures Passes(byType, [], dryRun, before, before, [])
  {
  }

  lemma OnePassMore(byType: map<string, set<Record>>, kinds: seq<string>, dryRun: bool,
                    before: map<string, Table>, now: map<string, Table>, outcomes: seq<Outcome>,
                    t: string, table: Table, o: Outcome)
    requires Passes(byType, kinds, dryRun, before, now, outcomes)
    requires t in byType && t in before && t !in kinds && Pass(t, byType[t], dryRun, now[t], table, o)
    ensures Passes(byType, kinds + [t], dryRun, before, now[t := table], outcomes + [o])
  {
    hide Pass;
  }

  /** One pass touches one table. */
  method UpdateType(t: string, desired: set<Record>, router: map<string, Resource>, dryRun: bool)
    returns (outcome: Outcome)
    requires Connected(router) && t in router
    modifies router[t]
    ensures Connected(router) && Tables(router) == old(Tables(router))[t := Tables(router)[t]]
    ensures Pass(t, desired, dryRun, old(Tables(router))[t], Tables(router)[t], outcome)
  {
    hide Pass;
    outcome := Reconcile(t, desired, router[t], dryRun);
  }

  /** The loop over the handled types, in any order. It stops at the first exception; otherwise every type has had its
    * pass. */
  method Update(byType: map<string, set<Record>>, router: map<string, Resource>, dryRun: bool)
    returns (outcome: Outcome, ghost kinds: seq<string>, ghost outcomes: seq<Outcome>)
    requires byType.Keys <= router.Keys
    requires Connected(router)
    modifies router.Values
    ensures Passes(byType, kinds, dryRun, old(Tables(router)), Tables(router), outcomes)
    ensures outcome.Completed? ==>
      && (forall t :: t in byType ==> t in kinds)
      && (forall o :: o in outcomes ==> o.Completed?) && outcome.operations == Total(outcomes)
    ensures !outcome.Completed? ==> outcomes != [] && outcomes[|outcomes| - 1] == outcome
  {
    hide Pass, Passes, Total, Connected, Tables;
    var count := 0;
    kinds, outcomes := [], [];
    NoPasses(byType, dryRun, Tables(router));
    NoTotal();
    var rest := byType.Keys;
    while rest != {}
      invariant rest <= byType.Keys && forall t :: t in byType ==> t in rest || t in kinds
      invariant forall t :: t in kinds ==> t !in rest
      invariant Connected(router)
      invariant Passes(byType, kinds, dryRun, old(Tables(router)), Tables(router), outcomes)
      invariant (forall o :: o in outcomes ==> o.Completed?) && count == Total(outcomes)
      decreases |rest|
    {
      var t :| t in rest;
      rest := rest - {t};
      ghost var now := Tables(router);
      outcome := UpdateType(t, byType[t], router, dryRun);
      OnePassMore(byType, kinds, dryRun, old(Tables(router)), now, outcomes, t, Tables(router)[t], outcome);
      TotalAppend(outcomes, outcome);
      kinds, outcomes := kinds + [t], outcomes + [outcome];
      if !outcome.Completed? {
        return;
      }
      count := count + outcome.operations;
    }
    outcome := Completed(count);
  }

  lemma {:induction false} ServerSettles(byType: map<string, set<Record>>, hosts: seq<Record>,
                                         host: string, dhcpServer: string -> Option<string>, kinds: seq<string>,
                                         before: map<string, Table>, now: map<string, Table>, outcomes: seq<Outcome>)
    requires (forall h :: h in hosts ==> RESOURCE in h) && Grouped(byType, hosts, host, dhcpServer)
    requires Passes(byType, kinds, false, before, now, outcomes) && forall o :: o in outcomes ==> o.Completed?
    requires forall t :: t in byType ==> t != "" && t in now && t in kinds
    ensures forall t :: t in byType ==>
      (Settled(hosts, t, now[t], host, dhcpServer) <==> AllCanonical(hosts, t, host, dhcpServer))
  {
    hide Settled, AllCanonical, Pass, Grouped;
    forall t | t in byType
      ensures Settled(hosts, t, now[t], host, dhcpServer) <==> AllCanonical(hosts, t, host, dhcpServer)
    {
      var k :| 0 <= k < |kinds| && kinds[k] == t;
      SettlesIff(byType, hosts, host, dhcpServer, t, before[t], now[t], outcomes[k]);
    }
  }

  lemma {:induction false} ServerIsQuiet(byType: map<string, set<Record>>, hosts: seq<Record>,
                                         host: string, dhcpServer: string -> Option<string>, kinds: seq<string>,
                                         dryRun: bool, before: map<string, Table>, now: map<string, Table>,
                                         outcomes: seq<Outcome>)
    requires (forall h :: h in hosts ==> RESOURCE in h) && Grouped(byType, hosts, host, dhcpServer)
    requires Passes(byType, kinds, dryRun, before, now, outcomes)
    requires forall t :: t in byType ==> t in before && Settled(hosts, t, before[t], host, dhcpServer)
    ensures Total(outcomes) == 0 && forall k :: 0 <= k < |outcomes| ==> outcomes[k] == Completed(0)
    ensures now == before
  {
    hide Settled, Pass, Grouped, Total;
    forall k | 0 <= k < |kinds| ensures outcomes[k] == Completed(0) && now[kinds[k]] == before[kinds[k]] {
      var t := kinds[k];
      SettledIsQuiet(byType, hosts, host, dhcpServer, t, dryRun, before[t], now[t], outcomes[k]);
    }
    NoOperations(outcomes);
  }

  /** What the hosts ask of one type. */
  ghost function WantedOf(hosts: seq<Record>, t: string, host: string, dhcpServer: string -> Option<string>): set<Record>
    requires forall h :: h in hosts ==> RESOURCE in h
  {
    set h | h in hosts && Prepared(h, host, dhcpServer).Some? && h[RESOURCE] == t :: Prepared(h, host, dhcpServer).value
  }

  lemma GroupedIsWanted(byType: map<string, set<Record>>, hosts: seq<Record>,
                        host: string, dhcpServer: string -> Option<string>)
    requires (forall h :: h in hosts ==> RESOURCE in h) && Grouped(byType, hosts, host, dhcpServer)
    ensures forall t :: WantedOf(hosts, t, host, dhcpServer) == if t in byType then byType[t] else {}
  {
    hide Prepared;
    forall t ensures WantedOf(hosts, t, host, dhcpServer) == if t in byType then byType[t] else {} {
      forall r ensures r in WantedOf(hosts, t, host, dhcpServer) <==> t in byType && r in byType[t] {
        assert Wants(hosts, t, r, host, dhcpServer) <==> r in WantedOf(hosts, t, host, dhcpServer);
      }
    }
  }

  /** The records of one type that are there or wanted, but not both. */
  ghost function Differing(t: string, wanted: set<Record>, table: Table): set<Record> {
    (StaticRecords(t, table) - wanted) + (wanted - StaticRecords(t, table))
  }

  ghost function AllDiffering(kinds: seq<string>, byType: map<string, set<Record>>,
                              tables: map<string, Table>): set<(string, Record)>
    requires forall t :: t in kinds ==> t in byType && t in tables
  {
    set t, r | t in kinds && r in Differing(t, byType[t], tables[t]) :: (t, r)
  }

  ghost function Tagged(t: string, rs: set<Record>): set<(string, Record)> {
    set r | r in rs :: (t, r)
  }

  lemma {:induction false} TaggedSize(t: string, rs: set<Record>)
    ensures |Tagged(t, rs)| == |rs|
  {
    if rs != {} {
      var r :| r in rs;
      TaggedSize(t, rs - {r});
      assert Tagged(t, rs) == Tagged(t, rs - {r}) + {(t, r)};
    }
  }

  lemma PassCountsDiffering(t: string, wanted: set<Record>, dryRun: bool, before: Table, now: Table, outcome: Outcome)
    requires Pass(t, wanted, dryRun, before, now, outcome) && outcome.Completed? && NoDuplicates(t, before)
    ensures outcome.operations == |Differing(t, wanted, before)|
  {
    hide Pass, StaticRecords, NoDuplicates;
    OperationsAreDifference(t, wanted, dryRun, before, now, outcome);
    assert (StaticRecords(t, before) - wanted) !! (wanted - StaticRecords(t, before));
  }

  lemma OneTypeMore(byType: map<string, set<Record>>, kinds: seq<string>, t: string, before: map<string, Table>)
    requires t !in kinds && forall u :: u in kinds + [t] ==> u in byType && u in before
    ensures (forall u :: u in kinds ==> u in byType && u in before) && t in byType && t in before
    ensures |AllDiffering(kinds + [t], byType, before)| ==
            |AllDiffering(kinds, byType, before)| + |Differing(t, byType[t], before[t])|
  {
    hide Differing;
    assert t in kinds + [t] && forall u :: u in kinds ==> u in kinds + [t];
    var rest, more := AllDiffering(kinds, byType, before), Tagged(t, Differing(t, byType[t], before[t]));
    TaggedSize(t, Differing(t, byType[t], before[t]));
    assert AllDiffering(kinds + [t], byType, before) == rest + more;
    assert rest !! more;
  }

  /** The counts of the passes add up to the number of differing records. */
  lemma {:induction false} TotalIsDiffering(byType: map<string, set<Record>>, kinds: seq<string>,
                                            before: map<string, Table>, outcomes: seq<Outcome>)
    requires |kinds| == |outcomes| && forall i, j :: 0 <= i < j < |kinds| ==> kinds[i] != kinds[j]
    requires forall u :: u in kinds ==> u in byType && u in before
    requires forall k :: 0 <= k < |kinds| ==>
      outcomes[k] == Completed(|Differing(kinds[k], byType[kinds[k]], before[kinds[k]])|)
    ensures Total(outcomes) == |AllDiffering(kinds, byType, before)|
    decreases |kinds|
  {
    hide Differing, AllDiffering, Total;
    var n := |kinds| - 1;
    if n < 0 {
      NothingDiffers(byType, before);
      NoTotal();
      assert outcomes == [] && kinds == [];
    } else {
      assert kinds == kinds[..n] + [kinds[n]] && outcomes == outcomes[..n] + [outcomes[n]];
      TotalIsDiffering(byType, kinds[..n], before, outcomes[..n]);
      TotalAppend(outcomes[..n], outcomes[n]);
      OneTypeMore(byType, kinds[..n], kinds[n], before);
    }
  }

  lemma NothingDiffers(byType: map<string, set<Record>>, before: map<string, Table>)
    ensures |AllDiffering([], byType, before)| == 0
  {
  }

  /** Without duplicates that is so of every update that completes. */
  lemma {:induction false} UpdateCounts(byType: map<string, set<Record>>, kinds: seq<string>, dryRun: bool,
                                        before: map<string, Table>, now: map<string, Table>, outcomes: seq<Outcome>)
    requires Passes(byType, kinds, dryRun, before, now, outcomes) && forall o :: o in outcomes ==> o.Completed?
    requires forall t :: t in kinds ==> t in before && NoDuplicates(t, before[t])
    ensures forall t :: t in kinds ==> t in byType && t in before
    ensures Total(outcomes) == |AllDiffering(kinds, byType, before)|
  {
    hide Pass, NoDuplicates, Differing, Total, AllDiffering;
    forall k | 0 <= k < |kinds|
      ensures outcomes[k] == Completed(|Differing(kinds[k], byType[kinds[k]], before[kinds[k]])|)
    {
      var t := kinds[k];
      PassCountsDiffering(t, byType[t], dryRun, before[t], now[t], outcomes[k]);
    }
    TotalIsDiffering(byType, kinds, before, outcomes);
  }

  /** Why the pass over a type would raise a KeyError, or after that a TypeError. */
  ghost predicate ThereTwice(t: string, wanted: set<Record>, table: Table) {
    !WantedOnce(t, table, wanted, table.Keys)
  }

  ghost predicate NotSortable(t: string, wanted: set<Record>, table: Table) {
    Unsortable(Missing(t, table, wanted))
  }

  lemma OutcomeHasCause(byType: map<string, set<Record>>, kinds: seq<string>, dryRun: bool,
                        before: map<string, Table>, now: map<string, Table>, outcomes: seq<Outcome>, k: nat)
    requires Passes(byType, kinds, dryRun, before, now, outcomes) && k < |kinds|
    ensures var t := kinds[k];
      && t in byType && t in before
      && (outcomes[k].Completed? <==> !ThereTwice(t, byType[t], before[t]) && !NotSortable(t, byType[t], before[t]))
      && (outcomes[k].KeyError? <==> ThereTwice(t, byType[t], before[t]))
  {
    hide WantedOnce, Unsortable, Missing;
    assert Pass(kinds[k], byType[kinds[k]], dryRun, before[kinds[k]], now[kinds[k]], outcomes[k]);
  }

  /** The types that something is wanted of, with what is wanted, and how their tables decide the outcome. */
  ghost predicate Decides(hosts: seq<Record>, host: string, dhcpServer: string -> Option<string>,
                          tables: map<string, Table>, outcome: Outcome)
    requires forall h :: h in hosts ==> RESOURCE in h
  {
    match outcome
    case Completed(operations) =>
      && (forall t :: t in tables ==>
            var wanted := WantedOf(hosts, t, host, dhcpServer);
            wanted != {} ==> !ThereTwice(t, wanted, tables[t]) && !NotSortable(t, wanted, tables[t]))
      && ((forall t :: t in tables && WantedOf(hosts, t, host, dhcpServer) != {} ==> NoDuplicates(t, tables[t])) ==>
            operations == |Changes(hosts, host, dhcpServer, tables)|)
    case KeyError =>
      exists t :: t in tables && WantedOf(hosts, t, host, dhcpServer) != {} &&
        ThereTwice(t, WantedOf(hosts, t, host, dhcpServer), tables[t])
    case TypeError =>
      exists t :: t in tables && WantedOf(hosts, t, host, dhcpServer) != {} &&
        NotSortable(t, WantedOf(hosts, t, host, dhcpServer), tables[t])
  }

  /** Every record, with its type, that is on the router or wanted but not both, over the types something is wanted of. */
  ghost function Changes(hosts: seq<Record>, host: string, dhcpServer: string -> Option<string>,
                         tables: map<string, Table>): set<(string, Record)>
    requires forall h :: h in hosts ==> RESOURCE in h
  {
    set t, r | t in tables && WantedOf(hosts, t, host, dhcpServer) != {} &&
               r in Differing(t, WantedOf(hosts, t, host, dhcpServer), tables[t]) :: (t, r)
  }

  lemma CompletedHasNoCause(byType: map<string, set<Record>>, hosts: seq<Record>,
                            host: string, dhcpServer: string -> Option<string>, kinds: seq<string>, dryRun: bool,
                            before: map<string, Table>, now: map<string, Table>, outcomes: seq<Outcome>, t: string)
    requires (forall h :: h in hosts ==> RESOURCE in h) && Grouped(byType, hosts, host, dhcpServer)
    requires Passes(byType, kinds, dryRun, before, now, outcomes) && forall o :: o in outcomes ==> o.Completed?
    requires t in byType && t in kinds
    ensures var wanted := WantedOf(hosts, t, host, dhcpServer);
      t in before && !ThereTwice(t, wanted, before[t]) && !NotSortable(t, wanted, before[t])
  {
    hide Pass, ThereTwice, NotSortable, WantedOf;
    GroupedIsWanted(byType, hosts, host, dhcpServer);
    var k :| 0 <= k < |kinds| && kinds[k] == t;
    OutcomeHasCause(byType, kinds, dryRun, before, now, outcomes, k);
  }

  lemma CompletedCounts(byType: map<string, set<Record>>, hosts: seq<Record>,
                        host: string, dhcpServer: string -> Option<string>, kinds: seq<string>, dryRun: bool,
                        before: map<string, Table>, now: map<string, Table>, outcomes: seq<Outcome>)
    requires (forall h :: h in hosts ==> RESOURCE in h) && Grouped(byType, hosts, host, dhcpServer)
    requires Passes(byType, kinds, dryRun, before, now, outcomes) && forall o :: o in outcomes ==> o.Completed?
    requires forall t :: t in byType ==> t in kinds
    requires forall t :: t in kinds ==> t in before && NoDuplicates(t, before[t])
    ensures Total(outcomes) == |Changes(hosts, host, dhcpServer, before)|
  {
    hide Pass, Total, NoDuplicates, Differing, WantedOf;
    GroupedIsWanted(byType, hosts, host, dhcpServer);
    UpdateCounts(byType, kinds, dryRun, before, now, outcomes);
    assert Changes(hosts, host, dhcpServer, before) == AllDiffering(kinds, byType, before);
  }

  lemma ExceptionHasCause(byType: map<string, set<Record>>, hosts: seq<Record>,
                          host: string, dhcpServer: string -> Option<string>, kinds: seq<string>, dryRun: bool,
                          before: map<string, Table>, now: map<string, Table>, outcomes: seq<Outcome>)
    requires (forall h :: h in hosts ==> RESOURCE in h) && Grouped(byType, hosts, host, dhcpServer)
    requires Passes(byType, kinds, dryRun, before, now, outcomes) && outcomes != []
    requires !outcomes[|outcomes| - 1].Completed?
    ensures Decides(hosts, host, dhcpServer, before, outcomes[|outcomes| - 1])
  {
    hide Pass, ThereTwice, NotSortable, WantedOf;
    var k := |kinds| - 1;
    GroupedIsWanted(byType, hosts, host, dhcpServer);
    OutcomeHasCause(byType, kinds, dryRun, before, now, outcomes, k);
    assert kinds[k] in before && WantedOf(hosts, kinds[k], host, dhcpServer) == byType[kinds[k]];
  }

  lemma CompletedDecides(byType: map<string, set<Record>>, hosts: seq<Record>,
                         host: string, dhcpServer: string -> Option<string>, kinds: seq<string>, dryRun: bool,
                         before: map<string, Table>, now: map<string, Table>, outcomes: seq<Outcome>)
    requires (forall h :: h in hosts ==> RESOURCE in h) && Grouped(byType, hosts, host, dhcpServer)
    requires Passes(byType, kinds, dryRun, before, now, outcomes) && forall o :: o in outcomes ==> o.Completed?
    requires forall t :: t in byType ==> t in kinds
    ensures Decides(hosts, host, dhcpServer, before, Completed(Total(outcomes)))
  {
    hide Pass, Passes, Total, ThereTwice, NotSortable, NoDuplicates, Grouped, Changes, WantedOf;
    NonemptyTypes(byType, hosts, host, dhcpServer);
    forall t | t in before && WantedOf(hosts, t, host, dhcpServer) != {}
      ensures var wanted := WantedOf(hosts, t, host, dhcpServer);
        !ThereTwice(t, wanted, before[t]) && !NotSortable(t, wanted, before[t])
    {
      CompletedHasNoCause(byType, hosts, host, dhcpServer, kinds, dryRun, before, now, outcomes, t);
    }
    KindsAreTyped(byType, kinds, dryRun, before, now, outcomes);
    if forall t :: t in before && WantedOf(hosts, t, host, dhcpServer) != {} ==> NoDuplicates(t, before[t]) {
      CompletedCounts(byType, hosts, host, dhcpServer, kinds, dryRun, before, now, outcomes);
    }
  }

  lemma {:induction false} OutcomeDecided(byType: map<string, set<Record>>, hosts: seq<Record>,
                                          host: string, dhcpServer: string -> Option<string>, kinds: seq<string>,
                                          dryRun: bool, before: map<string, Table>, now: map<string, Table>,
                                          outcomes: seq<Outcome>, outcome: Outcome)
    requires (forall h :: h in hosts ==> RESOURCE in h) && Grouped(byType, hosts, host, dhcpServer)
    requires Passes(byType, kinds, dryRun, before, now, outcomes)
    requires outcome.Completed? ==>
      && (forall t :: t in byType ==> t in kinds)
      && (forall o :: o in outcomes ==> o.Completed?) && outcome.operations == Total(outcomes)
    requires !outcome.Completed? ==> outcomes != [] && outcomes[|outcomes| - 1] == outcome
    ensures Decides(hosts, host, dhcpServer, before, outcome)
  {
    hide Decides, Passes, Grouped, Total;
    if outcome.Completed? {
      CompletedDecides(byType, hosts, host, dhcpServer, kinds, dryRun, before, now, outcomes);
    } else {
      ExceptionHasCause(byType, hosts, host, dhcpServer, kinds, dryRun, before, now, outcomes);
    }
  }

  lemma NonemptyTypes(byType: map<string, set<Record>>, hosts: seq<Record>,
                      host: string, dhcpServer: string -> Option<string>)
    requires (forall h :: h in hosts ==> RESOURCE in h) && Grouped(byType, hosts, host, dhcpServer)
    ensures forall t :: WantedOf(hosts, t, host, dhcpServer) != {} <==> t in byType
  {
    hide WantedOf;
    GroupedIsWanted(byType, hosts, host, dhcpServer);
  }

  lemma KindsAreTyped(byType: map<string, set<Record>>, kinds: seq<string>, dryRun: bool,
                      before: map<string, Table>, now: map<string, Table>, outcomes: seq<Outcome>)
    requires Passes(byType, kinds, dryRun, before, now, outcomes)
    ensures forall t :: t in kinds ==> t in byType && t in before
  {
    hide Pass;
  }

  /** A type has had its pass, whichever way it ended. */
  ghost predicate Handled(t: string, wanted: set<Record>, dryRun: bool, before: Table, now: Table) {
    exists o :: Pass(t, wanted, dryRun, before, now, o)
  }

  lemma EachIsHandled(byType: map<string, set<Record>>, hosts: seq<Record>,
                      host: string, dhcpServer: string -> Option<string>, kinds: seq<string>, dryRun: bool,
                      before: map<string, Table>, now: map<string, Table>, outcomes: seq<Outcome>)
    requires (forall h :: h in hosts ==> RESOURCE in h) && Grouped(byType, hosts, host, dhcpServer)
    requires Passes(byType, kinds, dryRun, before, now, outcomes)
    ensures forall t :: t in before ==>
      now[t] == before[t] || Handled(t, WantedOf(hosts, t, host, dhcpServer), dryRun, before[t], now[t])
    ensures (forall t :: t in byType ==> t in kinds) ==> forall t :: t in before ==>
      var wanted := WantedOf(hosts, t, host, dhcpServer);
      if wanted == {} then now[t] == before[t] else Handled(t, wanted, dryRun, before[t], now[t])
  {
    hide Pass, WantedOf;
    GroupedIsWanted(byType, hosts, host, dhcpServer);
    forall t | t in before && t in kinds
      ensures WantedOf(hosts, t, host, dhcpServer) != {}
      ensures Handled(t, WantedOf(hosts, t, host, dhcpServer), dryRun, before[t], now[t])
    {
      var k :| 0 <= k < |kinds| && kinds[k] == t;
      assert Pass(t, byType[t], dryRun, before[t], now[t], outcomes[k]);
    }
  }

  lemma DryRunLeaves(byType: map<string, set<Record>>, kinds: seq<string>,
                     before: map<string, Table>, now: map<string, Table>, outcomes: seq<Outcome>)
    requires Passes(byType, kinds, true, before, now, outcomes)
    ensures now == before
  {
    forall t | t in before ensures now[t] == before[t] {
      if t in kinds {
        var k :| 0 <= k < |kinds| && kinds[k] == t;
        assert Pass(t, byType[t], true, before[t], now[t], outcomes[k]);
      }
    }
  }

  /** One server, from the hosts to its tables. If the update completes, a handled type is settled exactly when all
    * records wanted of it are canonical; if all of them are settled already, nothing is done, so that the next update is
    * quiet. It completes exactly when no type has a cause for an exception, and then without duplicates it counts every
    * record that is there or wanted, but not both. A table changes only by its type's one pass, which every type with a
    * wanted record has had once the update completes, and in a dry run not at all. */
  method UpdateServer(hosts: seq<Record>, host: string, dhcpServer: string -> Option<string>,
                      router: map<string, Resource>, dryRun: bool)
    returns (outcome: Outcome)
    requires forall h :: h in hosts ==> RESOURCE in h && h[RESOURCE] in router && h[RESOURCE] != ""
    requires Connected(router)
    modifies router.Values
    ensures forall t, r :: Wants(hosts, t, r, host, dhcpServer) ==> t in router
    ensures outcome.Completed? && !dryRun ==>
      forall t, r :: Wants(hosts, t, r, host, dhcpServer) ==>
        (Settled(hosts, t, Tables(router)[t], host, dhcpServer) <==> AllCanonical(hosts, t, host, dhcpServer))
    ensures (forall t, r :: Wants(hosts, t, r, host, dhcpServer) ==>
               Settled(hosts, t, old(Tables(router))[t], host, dhcpServer)) ==>
      outcome == Completed(0) && Tables(router) == old(Tables(router))
    ensures dryRun ==> Tables(router) == old(Tables(router))
    ensures Decides(hosts, host, dhcpServer, old(Tables(router)), outcome)
    ensures forall t :: t in router ==>
      || Tables(router)[t] == old(Tables(router))[t]
      || Handled(t, WantedOf(hosts, t, host, dhcpServer), dryRun, old(Tables(router))[t], Tables(router)[t])
    ensures outcome.Completed? ==> forall t :: t in router && WantedOf(hosts, t, host, dhcpServer) != {} ==>
      Handled(t, WantedOf(hosts, t, host, dhcpServer), dryRun, old(Tables(router))[t], Tables(router)[t])
    ensures forall t :: t in router && (forall r :: !Wants(hosts, t, r, host, dhcpServer)) ==>
      Tables(router)[t] == old(Tables(router))[t]
  {
    hide Wants, Pass, Settled, AllCanonical, Grouped, Total, Tables, Connected, Decides, Handled, WantedOf;
    ghost var before := Tables(router);
    var byType := GetRecordsByType(hosts, host, dhcpServer);
    WantedTypes(byType, hosts, host, dhcpServer);
    ghost var kinds, outcomes;
    outcome, kinds, outcomes := Update(byType, router, dryRun);
    OutcomeDecided(byType, hosts, host, dhcpServer, kinds, dryRun, before, Tables(router), outcomes, outcome);
    EachIsHandled(byType, hosts, host, dhcpServer, kinds, dryRun, before, Tables(router), outcomes);
    if dryRun {
      DryRunLeaves(byType, kinds, before, Tables(router), outcomes);
    }
    if outcome.Completed? && !dryRun {
      ServerSettles(byType, hosts, host, dhcpServer, kinds, before, Tables(router), outcomes);
    }
    if forall t :: t in byType ==> Settled(hosts, t, before[t], host, dhcpServer) {
      ServerIsQuiet(byType, hosts, host, dhcpServer, kinds, dryRun, before, Tables(router), outcomes);
    }
  }
}
