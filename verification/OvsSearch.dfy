/** link_iface_search and link_iface in the terms of the database and the graph: which interfaces are
    taken for the device of an Open vSwitch interface, which of several wins, and when there is doubt. */
module OvsSearch {
  import opened Common
  import opened Model
  import opened Ovs
  import opened OvsDevices
  import opened OvsExact
  import opened OvsInvariant
  import opened OvsTheory
  import opened Resolution
  import opened Search

  // ----- one search

  /** The kernel's datapath holds entry `e`: its master is the ovs-system device, or it has none and the
      kernel answers that namespace `ns` has a vport of its name. */
  ghost predicate InDatapath(o: Config, g: Graph, ns: nat, e: nat)
    requires WF(g) && e < |g.info|
  {
    match g.master.up[e]
    case None => (ns, g.info[e].name) in o.vports
    case Some(m) => g.info[m].name == "ovs-system"
  }

  /** Entry `e` can be the device of interface `i`. `main` is the device of the bridge's main interface,
      absent while that is looked for itself. */
  ghost predicate CanBeDevice(o: Config, g: Graph, i: nat, main: Option<nat>, e: nat)
    requires ConfigOk(o) && WF(g) && i < |o.ifs| && Id(g, main)
  {
    && e < |g.info| && g.info[e].name == o.ifs[i].name
    && (if o.bridges[o.ports[o.ifs[i].port].bridge].netdev
        then o.ifs[i].typ == "internal" && g.info[e].driver == Some("tun") && g.marks[e].subDriver == None
        else
          && (o.ifs[i].typ == "internal" ==> g.info[e].driver == Some("openvswitch"))
          && (main.Some? ==> InDatapath(o, g, g.info[main.value].ns, e)))
  }

  /** The entry is where the device is expected: with the main device, or in the root namespace, the only
      one without a name. */
  ghost predicate Nearby(g: Graph, main: Option<nat>, e: nat)
    requires WF(g) && Id(g, main) && e < |g.info|
  {
    match main
    case None => g.spaces[g.info[e].ns].name == None
    case Some(m) => g.info[e].ns == g.info[m].ns
  }

  ghost predicate DeviceAt(o: Config, g: Graph, i: nat, main: Option<nat>, near: bool, e: nat)
    requires ConfigOk(o) && WF(g) && i < |o.ifs| && Id(g, main)
  {
    CanBeDevice(o, g, i, main, e) && (Nearby(g, main, e) <==> near)
  }

  /** The first such entry of `ids`. */
  ghost function FirstDevice(o: Config, g: Graph, i: nat, main: Option<nat>, near: bool, ids: seq<nat>): Option<nat>
    requires ConfigOk(o) && WF(g) && i < |o.ifs| && Id(g, main) && AllBelow(ids, |g.info|)
  {
    if ids == [] then None
    else if DeviceAt(o, g, i, main, near, ids[0]) then Some(ids[0])
    else FirstDevice(o, g, i, main, near, ids[1..])
  }

  /** The first one nearby, else the first one elsewhere. */
  ghost function BestDevice(o: Config, g: Graph, i: nat, main: Option<nat>): Option<nat>
    requires ConfigOk(o) && WF(g) && i < |o.ifs| && Id(g, main)
  {
    var near := FirstDevice(o, g, i, main, true, Order(g));
    if near.Some? then near else FirstDevice(o, g, i, main, false, Order(g))
  }

  ghost predicate SeveralDevices(o: Config, g: Graph, i: nat, main: Option<nat>, near: bool)
    requires ConfigOk(o) && WF(g) && i < |o.ifs| && Id(g, main)
  {
    exists e: nat, f: nat :: e != f && DeviceAt(o, g, i, main, near, e) && DeviceAt(o, g, i, main, near, f)
  }

  /** Several nearby, or none nearby and several elsewhere. */
  ghost predicate DeviceInDoubt(o: Config, g: Graph, i: nat, main: Option<nat>)
    requires ConfigOk(o) && WF(g) && i < |o.ifs| && Id(g, main)
  {
    || SeveralDevices(o, g, i, main, true)
    || ((forall e: nat :: !DeviceAt(o, g, i, main, true, e)) && SeveralDevices(o, g, i, main, false))
  }

  /** The search as link_iface makes it. */
  ghost function DeviceQuery(o: Config, i: nat, main: Option<nat>): Query
    requires ConfigOk(o) && i < |o.ifs|
  {
    ByOvs(KeyOf(o, i, o.bridges[BridgeOf(o, i)].netdev, main))
  }

  lemma ScoreIs(o: Config, g: Graph, i: nat, main: Option<nat>, e: nat)
    requires ConfigOk(o) && WF(g) && i < |o.ifs| && Id(g, main) && e < |g.info|
    ensures var s := Score(g, DeviceQuery(o, i, main), e);
      && (s == 2 <==> DeviceAt(o, g, i, main, true, e)) && (s == 1 <==> DeviceAt(o, g, i, main, false, e))
  {
  }

  lemma {:induction false} ScoredIsDevice(o: Config, g: Graph, i: nat, main: Option<nat>, near: bool, ids: seq<nat>)
    requires ConfigOk(o) && WF(g) && i < |o.ifs| && Id(g, main) && AllBelow(ids, |g.info|)
    ensures FirstScored(g, DeviceQuery(o, i, main), None, ids, if near then 2 else 1)
         == FirstDevice(o, g, i, main, near, ids)
  {
    hide WF, ConfigOk, DeviceAt, Score;
    if ids != [] {
      ScoreIs(o, g, i, main, ids[0]);
      ScoredIsDevice(o, g, i, main, near, ids[1..]);
    }
  }

  lemma {:induction false} FirstDeviceFound(o: Config, g: Graph, i: nat, main: Option<nat>, near: bool, ids: seq<nat>)
    requires ConfigOk(o) && WF(g) && i < |o.ifs| && Id(g, main) && AllBelow(ids, |g.info|)
    ensures FirstDevice(o, g, i, main, near, ids).Some? <==> exists e :: e in ids && DeviceAt(o, g, i, main, near, e)
  {
    hide WF, ConfigOk, DeviceAt;
    if ids != [] {
      FirstDeviceFound(o, g, i, main, near, ids[1..]);
      assert ids == [ids[0]] + ids[1..];
    }
  }

  /** An interface is taken for the device of an Open vSwitch interface if it can be: the first one in
      list order in the namespace of the main device, or of the root while that is not known; failing
      that, the first one elsewhere. There is doubt exactly when several can be where the search ends. */
  lemma DeviceFound(o: Config, g: Graph, i: nat, main: Option<nat>)
    requires ConfigOk(o) && WF(g) && i < |o.ifs| && Id(g, main)
    ensures var q := DeviceQuery(o, i, main);
      && Result(g, q, None) == BestDevice(o, g, i, main)
      && (Unsure(g, q, None) <==> DeviceInDoubt(o, g, i, main))
  {
    hide WF, ConfigOk, DeviceAt, CanBeDevice, Score, FirstDevice, Result, Unsure;
    var q := DeviceQuery(o, i, main);
    ResultMeaning(g, q, None);
    OrderMembers(g);
    ScoredIsDevice(o, g, i, main, true, Order(g));
    ScoredIsDevice(o, g, i, main, false, Order(g));
    FirstDeviceFound(o, g, i, main, true, Order(g));
    FirstDeviceFound(o, g, i, main, false, Order(g));
    forall e: nat
      ensures DeviceAt(o, g, i, main, true, e) <==> e < |g.info| && Score(g, q, e) == 2
      ensures DeviceAt(o, g, i, main, false, e) <==> e < |g.info| && Score(g, q, e) == 1
    {
      EntriesOnly(o, g, i, main, e);
      if e < |g.info| {
        ScoreIs(o, g, i, main, e);
      }
    }
    if Result(g, q, None).Some? {
      var r := Result(g, q, None).value;
      ResultIsFirst(g, q, None);
      if Score(g, q, r) == 1 {
        forall e: nat ensures !DeviceAt(o, g, i, main, true, e) {
          assert Eligible(g, q, None, e) ==> Score(g, q, e) <= 1;
        }
      } else {
        assert Score(g, q, r) == 2;
      }
    } else {
      forall e: nat, near: bool ensures !DeviceAt(o, g, i, main, near, e) {
        assert !Eligible(g, q, None, e);
      }
    }
  }

  lemma EntriesOnly(o: Config, g: Graph, i: nat, main: Option<nat>, e: nat)
    requires ConfigOk(o) && WF(g) && i < |o.ifs| && Id(g, main)
    ensures forall near :: DeviceAt(o, g, i, main, near, e) ==> e < |g.info|
  {
  }

  // ----- the pass

  /** Interface `m` is the main one of bridge `b`: the only one of the port named like the bridge. */
  predicate IsMain(o: Config, b: nat, m: nat) {
    && b < |o.bridges| && o.bridges[b].system.Some? && o.bridges[b].system.value < |o.ports|
    && o.ports[o.bridges[b].system.value].ifaces == [m] && m < |o.ifs|
  }

  lemma MainIs(o: Config, b: nat)
    requires ConfigOk(o) && b < |o.bridges|
    ensures forall m: nat :: MainOf(o, b) == Some(m) <==> IsMain(o, b, m)
  {
    if o.bridges[b].system.Some? {
      PortIfaces(o, o.bridges[b].system.value);
    }
  }

  /** Entry `d` is found, without doubt, as the device of the main interface of bridge `b`. */
  ghost predicate MainDeviceIs(o: Config, g: Graph, b: nat, d: nat)
    requires ConfigOk(o) && WF(g)
  {
    exists m: nat :: IsMain(o, b, m) && !DeviceInDoubt(o, g, m, None) && BestDevice(o, g, m, None) == Some(d)
  }

  lemma MainDeviceFound(o: Config, g: Graph, b: nat)
    requires ConfigOk(o) && WF(g) && b < |o.bridges|
    ensures forall d: nat ::
      MainDeviceIs(o, g, b, d) <==> MainClear(o, g, b) && Result(g, MainDevice(o, b), None) == Some(d)
  {
    hide WF, ConfigOk, Result, Unsure, DeviceInDoubt, BestDevice, IsMain, MainOf;
    MainIs(o, b);
    if MainOf(o, b).Some? {
      MainBridge(o, b);
      DeviceFound(o, g, MainOf(o, b).value, None);
    }
  }

  /** Listed interface `i` is not in doubt under the main device of its bridge, if that is found. */
  ghost predicate NotInDoubt(o: Config, g: Graph, i: nat)
    requires ConfigOk(o) && WF(g) && i < |o.ifs|
  {
    forall d: nat :: MainDeviceIs(o, g, BridgeOf(o, i), d) ==> Id(g, Some(d)) && !DeviceInDoubt(o, g, i, Some(d))
  }

  lemma BridgeInRange(o: Config, i: nat)
    requires ConfigOk(o) && i < |o.ifs|
    ensures BridgeOf(o, i) < |o.bridges|
  {
  }

  lemma NotInDoubtIs(o: Config, g: Graph, i: nat)
    requires ConfigOk(o) && WF(g) && i < |o.ifs|
    ensures NotInDoubt(o, g, i) <==>
      (MainClear(o, g, BridgeOf(o, i)) ==> !Unsure(g, IfaceQuery(o, g, i), None))
  {
    hide WF, ConfigOk, Result, Unsure, DeviceInDoubt, MainOf;
    var b := BridgeOf(o, i);
    BridgeInRange(o, i);
    MainDeviceFound(o, g, b);
    if MainClear(o, g, b) {
      ResultId(g, MainDevice(o, b), None);
      var d := Result(g, MainDevice(o, b), None).value;
      assert MainDeviceIs(o, g, b, d);
      DeviceFound(o, g, i, Some(d));
    }
  }

  /** Which bridges the pass completes: those with a main device found without doubt, up to the first that
      has a listed interface in doubt. */
  lemma ReachedMeans(o: Config, g: Graph, b: nat)
    requires ConfigOk(o) && WF(g) && b < |o.bridges|
    ensures Reached(o, g, b) <==>
      && (exists d: nat :: MainDeviceIs(o, g, b, d))
      && forall i: nat :: Listed(o, i) && BridgeOf(o, i) <= b ==> NotInDoubt(o, g, i)
  {
    hide WF, ConfigOk, Result, Unsure, DeviceInDoubt, BestDevice, MainOf, MainDeviceIs, IfaceQuery, NotInDoubt;
    MainDeviceFound(o, g, b);
    if MainClear(o, g, b) {
      assert MainDeviceIs(o, g, b, Result(g, MainDevice(o, b), None).value);
    }
    forall i: nat | Listed(o, i)
      ensures NotInDoubt(o, g, i) <==>
        (MainClear(o, g, BridgeOf(o, i)) ==> !Unsure(g, IfaceQuery(o, g, i), None))
    {
      NotInDoubtIs(o, g, i);
    }
    hide MainClear;
    if ClearUpTo(o, g, b + 1) {
      forall i: nat | Listed(o, i) && BridgeOf(o, i) <= b ensures NotInDoubt(o, g, i) {
        assert BridgeClear(o, g, BridgeOf(o, i));
      }
    }
  }

  /** Every interface of such a bridge ends up with the device found for it in the graph before the pass, or
      with a new internal entry that carries its name and the bridge's as internal namespace. The entry
      hangs under the bridge's main device, or under the new entry of its port which hangs there. */
  lemma DevicesFromStart(o: Config, s: State, i: nat, d: nat)
    requires OvsTheory.Initial(o, s) && DistinctNames(o)
    requires Listed(o, i) && Reached(o, s.g, BridgeOf(o, i)) && MainDeviceIs(o, s.g, BridgeOf(o, i), d)
    ensures d < |s.g.info|
    ensures var t := LinkIfaces(o, s, |o.bridges|).s; var device := BestDevice(o, s.g, i, Some(d));
      && i < |t.links| && t.links[i].Some? && t.links[i].value < |t.g.info|
      && (device.Some? ==> t.links[i] == device)
      && (device.None? ==> t.links[i].value >= |s.g.info| && NewFor(o, t, o.ifs[i].name, i, t.links[i].value))
      && Hangs(o, t, i, d, t.links[i].value)
  {
    hide DistinctNames, WF, ConfigOk, LinkIfaces, Reached, Result, Unsure, MainOf, BestDevice, DeviceInDoubt,
      MainDeviceIs;
    var b := BridgeOf(o, i);
    var t := LinkIfaces(o, s, |o.bridges|).s;
    Sizes(t.g);
    BridgeInRange(o, i);
    MainDeviceFound(o, s.g, b);
    ResultId(s.g, MainDevice(o, b), None);
    DeviceFound(o, s.g, i, Some(d));
    ResultId(s.g, DeviceQuery(o, i, Some(d)), None);
    CoveredExactly(o, s, i);
    EveryIfacePlaced(o, s, i);
    PlacedFromStart(o, s, i);
  }

  /** A new entry for a name of interface `i`'s bridge. */
  ghost predicate NewFor(o: Config, t: State, name: string, i: nat, e: nat)
    requires ConfigOk(o) && i < |o.ifs|
  {
    && e < |t.g.info|
    && var x := t.g.info[e];
    && x.name == name && x.internal && !x.up && x.ns == 0 && x.driver == None && x.addrs == []
    && x.internalNs == Some("ovs:" + o.bridges[BridgeOf(o, i)].name)
  }

  ghost predicate Hangs(o: Config, t: State, i: nat, d: nat, e: nat)
    requires ConfigOk(o) && i < |o.ifs|
  {
    var p := o.ifs[i].port;
    && e < |t.g.master.up| && p < |t.portLinks|
    && if |o.ports[p].ifaces| == 1 then t.g.master.up[e] == Some(d)
       else
         && t.portLinks[p].Some? && NewFor(o, t, o.ports[p].name, i, t.portLinks[p].value)
         && t.portLinks[p].value < |t.g.master.up|
         && t.g.master.up[e] == t.portLinks[p] && t.g.master.up[t.portLinks[p].value] == Some(d)
  }
}
