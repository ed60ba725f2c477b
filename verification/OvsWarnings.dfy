/** What link_ifaces reports: no bridge is left out in silence. */
module OvsWarnings {
  import opened Common
  import opened Model
  import opened Ovs
  import opened Resolution
  import opened Search
  import opened Tunnel

  /** Warnings of the root's namespace. */
  ghost function Reported(s: State): nat
    requires |s.g.spaces| > 0
  {
    s.g.spaces[0].warnings
  }

  /** link_iface reports exactly its errors, all of them in the root's namespace. */
  lemma LinkIfaceReports(o: Config, s: State, i: nat, netdev: bool, main: Option<nat>, required: bool)
    requires StateOk(o, s) && i < |o.ifs| && Id(s.g, main)
    ensures var r := LinkIface(o, s, i, netdev, main, required);
      && |r.s.g.spaces| == |s.g.spaces|
      && Reported(r.s) == Reported(s) + (if r.err == 0 then 0 else 1)
      && (forall j :: 0 < j < |s.g.spaces| ==> r.s.g.spaces[j] == s.g.spaces[j])
      && (r.err == 0 || r.err == ENOENT || r.err == ERANGE) && (r.err == 0 && required ==> r.s.links[i].Some?)
      && (r.err == ERANGE <==>
            s.links[i].None? && Unsure(s.g, ByOvs(KeyOf(o, i, netdev, main)), None))
      && (r.err == ENOENT <==>
            s.links[i].None? && !Unsure(s.g, ByOvs(KeyOf(o, i, netdev, main)), None) && required && r.s.links[i].None?)
  {
    hide Unsure, Result;
  }

  lemma AttachReports(o: Config, g: Graph, i: nat, e: nat, master: nat)
    requires WF(g) && |g.spaces| > 0 && i < |o.ifs| && e < |g.info| && master < |g.info|
    ensures |Attach(o, g, i, e, master).spaces| == |g.spaces|
    ensures Attach(o, g, i, e, master).spaces[0].warnings >= g.spaces[0].warnings
  {
    hide Holder, Mirror, Involution, Placed, Result, Unsure;
    var h := SetMaster(g, Some(master), e);
    OwnSpace(h, e);
    HolderId(h, h.info[e].ns, if o.ifs[i].localIp.Local? then o.ifs[i].localIp.addr else Address(0, []));
    ResultId(h, ByPatch(o.ifs[i].peer), None);
  }

  lemma CreateReports(o: Config, s: State, name: string, bridge: string)
    requires StateOk(o, s)
    ensures Reported(Create(o, s, name, bridge)) == Reported(s)
  {
  }

  lemma DoIfaceReports(o: Config, s: State, i: nat, netdev: bool, main: Option<nat>, bridge: string, master: nat)
    requires StateOk(o, s) && i < |o.ifs| && Id(s.g, main) && master < |s.g.info|
    ensures var r := DoIface(o, s, i, netdev, main, bridge, master);
      Reported(r.s) >= Reported(s) + (if r.err == 0 then 0 else 1)
  {
    hide WF, Attach, LinkIface, Create;
    LinkIfaceReports(o, s, i, netdev, main, false);
    var r := LinkIface(o, s, i, netdev, main, false);
    if r.err == 0 {
      CreateReports(o, r.s, o.ifs[i].name, bridge);
      var t := if r.s.links[i].Some? then r.s
               else Create(o, r.s, o.ifs[i].name, bridge).(links := r.s.links[i := Some(|r.s.g.info|)]);
      AttachReports(o, t.g, i, t.links[i].value, master);
    }
  }

  lemma {:induction false} DoIfacesReports(o: Config, s: State, ids: seq<nat>, netdev: bool, main: Option<nat>,
                                           bridge: string, master: nat)
    requires StateOk(o, s) && AllBelow(ids, |o.ifs|) && Id(s.g, main) && master < |s.g.info|
    ensures var r := DoIfaces(o, s, ids, netdev, main, bridge, master);
      Reported(r.s) >= Reported(s) + (if r.err == 0 then 0 else 1)
  {
    hide WF, DoIface;
    if ids != [] {
      var init := ids[..|ids| - 1];
      DoIfacesReports(o, s, init, netdev, main, bridge, master);
      var r := DoIfaces(o, s, init, netdev, main, bridge, master);
      if r.err == 0 {
        DoIfaceReports(o, r.s, ids[|ids| - 1], netdev, main, bridge, master);
      }
    }
  }

  lemma BondReports(o: Config, s: State, p: nat, main: nat, bridge: string)
    requires StateOk(o, s) && p < |o.ports| && main < |s.g.info|
    ensures Reported(Bond(o, s, p, main, bridge)) == Reported(s)
  {
    hide Mirror, Involution, Placed;
  }

  lemma DoPortReports(o: Config, s: State, p: nat, netdev: bool, main: nat, bridge: string)
    requires ConfigOk(o) && StateOk(o, s) && p < |o.ports| && main < |s.g.info|
    ensures var r := DoPort(o, s, p, netdev, main, bridge);
      Reported(r.s) >= Reported(s) + (if r.err == 0 then 0 else 1)
  {
    hide WF, DoIfaces, Bond;
    PortIfaces(o, p);
    var ids := o.ports[p].ifaces;
    if |ids| > 1 {
      BondReports(o, s, p, main, bridge);
      DoIfacesReports(o, Bond(o, s, p, main, bridge), ids, netdev, Some(main), bridge, |s.g.info|);
    } else {
      DoIfacesReports(o, s, ids, netdev, Some(main), bridge, main);
    }
  }

  lemma {:induction false} DoPortsReports(o: Config, s: State, ps: seq<nat>, netdev: bool, main: nat, bridge: string)
    requires ConfigOk(o) && StateOk(o, s) && AllBelow(ps, |o.ports|) && main < |s.g.info|
    ensures var r := DoPorts(o, s, ps, netdev, main, bridge);
      Reported(r.s) >= Reported(s) + (if r.err == 0 then 0 else 1)
  {
    hide WF, DoPort, ConfigOk;
    if ps != [] {
      var init := ps[..|ps| - 1];
      DoPortsReports(o, s, init, netdev, main, bridge);
      var r := DoPorts(o, s, init, netdev, main, bridge);
      if r.err == 0 {
        DoPortReports(o, r.s, ps[|ps| - 1], netdev, main, bridge);
      }
    }
  }

  lemma DoBridgeReports(o: Config, s: State, b: nat)
    requires ConfigOk(o) && StateOk(o, s) && b < |o.bridges|
    ensures var r := DoBridge(o, s, b); Reported(r.s) >= Reported(s) + (if r.resolved then 0 else 1)
    ensures DoBridge(o, s, b).resolved ==> DoBridge(o, s, b).err == 0
    ensures MainOf(o, b).None? ==> DoBridge(o, s, b).s == s.(g := WarnSpace(s.g, 0)) && DoBridge(o, s, b).err == 0
  {
    hide WF, DoPorts, LinkIface;
    if MainOf(o, b).Some? {
      var br := o.bridges[b];
      var i := MainOf(o, b).value;
      LinkIfaceReports(o, s, i, br.netdev, None, true);
      var r := LinkIface(o, s, i, br.netdev, None, true);
      if r.err != ENOENT && r.err != ERANGE {
        BridgePorts(o, b);
        DoPortsReports(o, r.s, br.ports, br.netdev, r.s.links[i].value, br.name);
      }
    }
  }

  /** Bridge `c` ends the pass with an error: it is begun and not completed, and no bridge behind it is. */
  ghost predicate EndsPass(o: Config, s: State, n: nat, c: nat)
    requires ConfigOk(o) && StateOk(o, s) && n <= |o.bridges|
  {
    c < n && LinkIfaces(o, s, c).err == 0 && LinkIfaces(o, s, n).resolved == LinkIfaces(o, s, c).resolved
  }

  /** Every bridge the pass begins and does not complete has a warning of its own in the root's namespace,
      whether it was passed over or ended the pass. */
  lemma {:induction false} LeftOutReported(o: Config, s: State, n: nat)
    requires ConfigOk(o) && StateOk(o, s) && n <= |o.bridges|
    ensures var r := LinkIfaces(o, s, n);
      && (forall b :: b in r.resolved ==> 0 <= b < n)
      && (r.err == 0 ==> Reported(r.s) >= Reported(s) + n - |r.resolved|)
      && (r.err != 0 ==>
            exists c: nat :: EndsPass(o, s, n, c) && Reported(r.s) >= Reported(s) + c + 1 - |r.resolved|)
  {
    hide WF, DoBridge, ConfigOk;
    if n > 0 {
      LeftOutReported(o, s, n - 1);
      var r := LinkIfaces(o, s, n - 1);
      if r.err == 0 {
        DoBridgeReports(o, r.s, n - 1);
        assert LinkIfaces(o, s, n).err != 0 ==> EndsPass(o, s, n, n - 1);
      } else {
        var c: nat :| EndsPass(o, s, n - 1, c) && Reported(r.s) >= Reported(s) + c + 1 - |r.resolved|;
        assert EndsPass(o, s, n, c);
      }
    }
  }
}
