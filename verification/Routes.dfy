/** handlers/route.c: the route dump of a namespace, sorted into its routing tables. */
module Routes {
  import opened Attrs
  import opened Bytes
  import opened Common
  import opened Exchange
  import opened IfAddrs
  import opened NlMsg

  const RTM_NEWROUTE := 24
  const RTMSG := 12
  const RTA_DST := 1
  const RTA_SRC := 2
  const RTA_IIF := 3
  const RTA_OIF := 4
  const RTA_GATEWAY := 5
  const RTA_PRIORITY := 6
  const RTA_PREFSRC := 7
  const RTA_TABLE := 15
  const RTA_MAX := 30
  const TABLES := 256

  /** `oif` and `iif` are positions in the namespace's list of interfaces. A gateway or a preferred
      source has no prefix length. */
  datatype Route = Route(
    family: nat, protocol: nat, scope: nat, tos: nat, typ: nat, tableId: byte,
    src: Option<Addr>, dst: Option<Addr>, gw: Option<(nat, seq<byte>)>, prefsrc: Option<(nat, seq<byte>)>,
    oifIndex: nat, iifIndex: nat, priority: nat, oif: Option<nat>, iif: Option<nat>)

  function Prefix(family: nat, len: nat, rest: seq<byte>, at: Option<nat>): Option<Addr> {
    match at
    case None => None
    case Some(a) => Some(AddrAt(family, len, rest, a))
  }

  function Host(family: nat, rest: seq<byte>, at: Option<nat>): Option<(nat, seq<byte>)> {
    match at
    case None => None
    case Some(a) => Some((family, AddrAt(family, 0, rest, a).raw))
  }

  /** route_create_netlink. The table id is stored in one byte, wherever it came from. */
  function RouteFrom(b: seq<byte>): Option<Route> {
    if |b| < HEADER + RTMSG || TypeOf(b) != RTM_NEWROUTE then None
    else
      var rest := Rest(b, HEADER + RTMSG);
      var xs := Parse(rest, 0);
      var f := b[HEADER];
      Some(Route(
             f, b[HEADER + 5], b[HEADER + 6], b[HEADER + 3], b[HEADER + 7],
             WordOr(rest, At(LastOf(xs, RTA_TABLE)), b[HEADER + 4]) % 0x100,
             Prefix(f, b[HEADER + 2], rest, At(LastOf(xs, RTA_SRC))),
               Prefix(f, b[HEADER + 1], rest, At(LastOf(xs, RTA_DST))),
             Host(f, rest, At(LastOf(xs, RTA_GATEWAY))), Host(f, rest, At(LastOf(xs, RTA_PREFSRC))),
             WordOr(rest, At(LastOf(xs, RTA_OIF)), 0), WordOr(rest, At(LastOf(xs, RTA_IIF)), 0),
             WordOr(rest, At(LastOf(xs, RTA_PRIORITY)), 0), None, None))
  }

  method RouteCreate(m: Message) returns (err: int, r: Option<Route>)
    requires m.Valid() && m.start == HEADER <= m.len
    modifies m`start
    ensures m.Valid() && r == RouteFrom(m.Content()) && err == if r.None? then ENOENT else 0
  {
    hide LastOf, Parse, U16, U32;
    ghost var b := m.Content();
    assert m.buf[4..m.len] == b[4..];
    if U16(m.buf[4..m.len]) != RTM_NEWROUTE {
      return ENOENT, None;
    }
    var at := m.Get(RTMSG);
    if at.None? {
      return ENOENT, None;
    }
    var rest := m.buf[m.start..m.len];
    assert rest == Rest(b, m.start);
    var tb := MsgAttrs(m, RTA_MAX);
    var f: nat := m.buf[HEADER];
    var table: nat := m.buf[HEADER + 4];
    if tb[RTA_TABLE].Some? {
      table := U32(Window(rest, tb[RTA_TABLE].value + NLA_HEADER, 4));
    }
    r := Some(Route(
      f, m.buf[HEADER + 5], m.buf[HEADER + 6], m.buf[HEADER + 3], m.buf[HEADER + 7], table % 0x100,
      Prefix(f, m.buf[HEADER + 2], rest, tb[RTA_SRC]), Prefix(f, m.buf[HEADER + 1], rest, tb[RTA_DST]),
      Host(f, rest, tb[RTA_GATEWAY]), Host(f, rest, tb[RTA_PREFSRC]),
      WordOr(rest, tb[RTA_OIF], 0), WordOr(rest, tb[RTA_IIF], 0), WordOr(rest, tb[RTA_PRIORITY], 0), None, None));
    err := 0;
  }

  // ----- interfaces

  /** The first position of an index. */
  ghost predicate IsFirst(ifaces: seq<nat>, index: nat, k: nat) {
    k < |ifaces| && ifaces[k] == index && forall j :: 0 <= j < k ==> ifaces[j] != index
  }

  function FirstWith(ifaces: seq<nat>, index: nat): (k: Option<nat>)
    ensures k.Some? ==> IsFirst(ifaces, index, k.value)
    ensures k.None? ==> index !in ifaces
  {
    if ifaces == [] then None
    else if FirstWith(ifaces[..|ifaces| - 1], index).Some? then
      assert forall j :: 0 <= j < |ifaces| - 1 ==> ifaces[..|ifaces| - 1][j] == ifaces[j];
      FirstWith(ifaces[..|ifaces| - 1], index)
    else
      assert forall j :: 0 <= j < |ifaces| - 1 ==> ifaces[j] == ifaces[..|ifaces| - 1][j];
      if ifaces[|ifaces| - 1] == index then Some(|ifaces| - 1) else None
  }

  /** find_if_by_ifindex, on the interface indexes of the namespace in list order */
  method FindByIndex(ifaces: seq<nat>, index: nat) returns (k: Option<nat>)
    ensures k == FirstWith(ifaces, index)
    ensures k.Some? <==> index in ifaces
    ensures k.Some? ==> IsFirst(ifaces, index, k.value)
  {
    for j := 0 to |ifaces|
      invariant index !in ifaces[..j]
    {
      if ifaces[j] == index {
        assert IsFirst(ifaces, index, j) by {
          forall i | 0 <= i < j ensures ifaces[i] != index {
            assert ifaces[..j][i] == ifaces[i];
          }
        }
        return Some(j);
      }
    }
    return None;
  }

  // ----- tables

  function WithIfaces(r: Route, ifaces: seq<nat>): Route {
    r.(oif := FirstWith(ifaces, r.oifIndex), iif := FirstWith(ifaces, r.iifIndex))
  }

  /** Are all messages routes? */
  ghost predicate AllRoutes(bs: seq<seq<byte>>) {
    forall k :: 0 <= k < |bs| ==> RouteFrom(bs[k]).Some?
  }

  /** The routes of a dump, in order. */
  ghost function Dumped(bs: seq<seq<byte>>, ifaces: seq<nat>): (rs: seq<Route>)
    requires AllRoutes(bs)
    ensures |rs| == |bs|
  {
    seq(|bs|, k requires 0 <= k < |bs| => WithIfaces(RouteFrom(bs[k]).value, ifaces))
  }

  /** Each leaves through the first interface with its outgoing index and came in through the first with its
      incoming index, in all else it is what its message says. */
  lemma DumpedSays(bs: seq<seq<byte>>, ifaces: seq<nat>, k: nat, p: nat)
    requires AllRoutes(bs) && k < |bs|
    ensures var r := Dumped(bs, ifaces)[k]; var m := RouteFrom(bs[k]).value;
      && (r.oif == Some(p) <==> IsFirst(ifaces, m.oifIndex, p))
      && (r.iif == Some(p) <==> IsFirst(ifaces, m.iifIndex, p))
      && r.(oif := None, iif := None) == m.(oif := None, iif := None)
  {
    hide RouteFrom;
    var m := RouteFrom(bs[k]).value;
    if IsFirst(ifaces, m.oifIndex, p) && FirstWith(ifaces, m.oifIndex).Some? {
      assert FirstWith(ifaces, m.oifIndex).value == p;
    }
    if IsFirst(ifaces, m.iifIndex, p) && FirstWith(ifaces, m.iifIndex).Some? {
      assert FirstWith(ifaces, m.iifIndex).value == p;
    }
  }

  /** The routes with the given table id, in order. */
  function OfTable(rs: seq<Route>, id: nat): (xs: seq<Route>)
    ensures forall k :: 0 <= k < |xs| ==> xs[k].tableId == id
  {
    if rs == [] then []
    else if rs[|rs| - 1].tableId == id then OfTable(rs[..|rs| - 1], id) + [rs[|rs| - 1]]
    else OfTable(rs[..|rs| - 1], id)
  }

  /** `xs` are the routes with the table id at the increasing positions `at`, none left out. */
  ghost predicate InOrder(rs: seq<Route>, id: nat, xs: seq<Route>, at: seq<nat>) {
    && |at| == |xs| && Increasing(at)
    && (forall k :: 0 <= k < |at| ==> at[k] < |rs| && xs[k] == rs[at[k]] && xs[k].tableId == id)
    && (forall i: nat :: i < |rs| && rs[i].tableId == id ==> i in at)
  }

  lemma InOrderSnoc(rs: seq<Route>, id: nat, xs: seq<Route>, at: seq<nat>, r: Route)
    requires InOrder(rs, id, xs, at)
    ensures if r.tableId == id then InOrder(rs + [r], id, xs + [r], at + [|rs|]) else InOrder(rs + [r], id, xs, at)
  {
  }

  /** The routes of a table are in the order of the dump, and all there. */
  lemma {:induction false} OfTableInOrder(rs: seq<Route>, id: nat)
    ensures exists at: seq<nat> :: InOrder(rs, id, OfTable(rs, id), at)
  {
    hide InOrder;
    if rs == [] {
      NoneInOrder(id);
      assert InOrder(rs, id, OfTable(rs, id), []);
    } else {
      var n := |rs| - 1;
      OfTableInOrder(rs[..n], id);
      var at :| InOrder(rs[..n], id, OfTable(rs[..n], id), at);
      InOrderSnoc(rs[..n], id, OfTable(rs[..n], id), at, rs[n]);
      assert rs[..n] + [rs[n]] == rs;
      if rs[n].tableId == id {
        assert InOrder(rs, id, OfTable(rs, id), at + [n]);
      } else {
        assert InOrder(rs, id, OfTable(rs, id), at);
      }
    }
  }

  lemma NoneInOrder(id: nat)
    ensures InOrder([], id, [], [])
  {
  }

  datatype Table = Table(id: nat, routes: seq<Route>)

  /** The tables with ids below `n`, highest id first. */
  function Tables(rs: seq<Route>, n: nat): seq<Table> {
    if n == 0 then []
    else if OfTable(rs, n - 1) == [] then Tables(rs, n - 1)
    else [Table(n - 1, OfTable(rs, n - 1))] + Tables(rs, n - 1)
  }

  /** All routes of some tables, one table after the other. */
  function Joined(ts: seq<Table>): seq<Route> {
    if ts == [] then [] else ts[0].routes + Joined(ts[1..])
  }

  function Below(rs: seq<Route>, n: nat): seq<Route> {
    if rs == [] then []
    else if rs[|rs| - 1].tableId < n then Below(rs[..|rs| - 1], n) + [rs[|rs| - 1]]
    else Below(rs[..|rs| - 1], n)
  }

  lemma {:induction false} BelowStep(rs: seq<Route>, n: nat)
    requires n > 0
    ensures multiset(Below(rs, n)) == multiset(OfTable(rs, n - 1)) + multiset(Below(rs, n - 1))
  {
    if rs != [] {
      BelowStep(rs[..|rs| - 1], n);
    }
  }

  lemma {:induction false} BelowAll(rs: seq<Route>)
    ensures Below(rs, TABLES) == rs
  {
    if rs != [] {
      BelowAll(rs[..|rs| - 1]);
    }
  }

  lemma JoinedCons(t: Table, ts: seq<Table>)
    ensures multiset(Joined([t] + ts)) == multiset(t.routes) + multiset(Joined(ts))
  {
    assert ([t] + ts)[1..] == ts;
  }

  lemma {:induction false} JoinedTables(rs: seq<Route>, n: nat)
    ensures multiset(Joined(Tables(rs, n))) == multiset(Below(rs, n))
  {
    hide Below, OfTable, Joined;
    if n == 0 {
      BelowNothing(rs);
      JoinedNothing();
    } else {
      JoinedTables(rs, n - 1);
      BelowStep(rs, n);
      JoinedCons(Table(n - 1, OfTable(rs, n - 1)), Tables(rs, n - 1));
    }
  }

  lemma JoinedNothing()
    ensures Joined([]) == []
  {
  }

  lemma {:induction false} BelowNothing(rs: seq<Route>)
    ensures Below(rs, 0) == []
  {
    if rs != [] {
      BelowNothing(rs[..|rs| - 1]);
    }
  }

  /** A list of tables without empty ones, ids strictly decreasing from below `n`, each table
      holding the routes of its id in the order of the dump. */
  ghost predicate Sorted(rs: seq<Route>, ts: seq<Table>, n: nat) {
    && (forall k :: 0 <= k < |ts| ==> ts[k].id < n && ts[k].routes != [] && ts[k].routes == OfTable(rs, ts[k].id))
    && (forall j, k :: 0 <= j < k < |ts| ==> ts[j].id > ts[k].id)
    && (forall i :: 0 <= i < |rs| && rs[i].tableId < n ==> HasTable(ts, rs[i].tableId))
  }

  lemma {:induction false} OfTableHas(rs: seq<Route>, i: nat)
    requires i < |rs|
    ensures rs[i] in OfTable(rs, rs[i].tableId)
  {
    if i < |rs| - 1 {
      OfTableHas(rs[..|rs| - 1], i);
    }
  }

  ghost predicate HasTable(ts: seq<Table>, id: nat) {
    exists k :: 0 <= k < |ts| && ts[k].id == id
  }

  /** No route of table `n`: nothing to add. */
  lemma SortedSame(rs: seq<Route>, ts: seq<Table>, n: nat)
    requires Sorted(rs, ts, n) && OfTable(rs, n) == []
    ensures Sorted(rs, ts, n + 1)
  {
    hide OfTable;
    forall i | 0 <= i < |rs| && rs[i].tableId < n + 1 ensures HasTable(ts, rs[i].tableId) {
      OfTableHas(rs, i);
    }
  }

  lemma SortedCons(rs: seq<Route>, ts: seq<Table>, n: nat)
    requires Sorted(rs, ts, n) && OfTable(rs, n) != []
    ensures Sorted(rs, [Table(n, OfTable(rs, n))] + ts, n + 1)
  {
    hide OfTable;
    var us := [Table(n, OfTable(rs, n))] + ts;
    forall i | 0 <= i < |rs| && rs[i].tableId < n + 1 ensures HasTable(us, rs[i].tableId) {
      HasTableCons(us[0], ts, rs[i].tableId);
    }
    assert us[1..] == ts;
    forall k | 0 < k < |us| ensures us[k] == us[1..][k - 1] {
    }
  }

  lemma HasTableCons(t: Table, ts: seq<Table>, id: nat)
    requires t.id == id || HasTable(ts, id)
    ensures HasTable([t] + ts, id)
  {
    if t.id == id {
      assert ([t] + ts)[0].id == id;
    } else {
      var k :| 0 <= k < |ts| && ts[k].id == id;
      assert ([t] + ts)[k + 1].id == id;
    }
  }

  lemma {:induction false} TablesSorted(rs: seq<Route>, n: nat)
    ensures Sorted(rs, Tables(rs, n), n)
  {
    hide Sorted, OfTable;
    if n == 0 {
      NoTables(rs);
    } else {
      TablesSorted(rs, n - 1);
      if OfTable(rs, n - 1) == [] {
        SortedSame(rs, Tables(rs, n - 1), n - 1);
      } else {
        SortedCons(rs, Tables(rs, n - 1), n - 1);
      }
    }
  }

  lemma NoTables(rs: seq<Route>)
    ensures Sorted(rs, [], 0)
  {
  }

  /** The tables partition the dump: every route is in the table of its id and in no other, none is
      lost or duplicated, and order inside a table is the order of the dump. */
  lemma TablesPartition(rs: seq<Route>)
    ensures Sorted(rs, Tables(rs, TABLES), TABLES)
    ensures multiset(Joined(Tables(rs, TABLES))) == multiset(rs)
  {
    hide Sorted, Tables, Joined, Below;
    TablesSorted(rs, TABLES);
    JoinedTables(rs, TABLES);
    BelowAll(rs);
  }

  // ----- the scan

  /** rtable */
  class Rtable {
    const id: nat
    var routes: seq<Route>

    /** rtable_create */
    constructor (id: nat)
      ensures this.id == id && routes == []
    {
      this.id, routes := id, [];
    }
  }

  /** Slot `i` holds the routes seen so far for table `i`, or nothing. */
  ghost predicate SlotOk(t: Rtable?, i: nat, seen: seq<Route>)
    reads t
  {
    if t == null then OfTable(seen, i) == [] else t.id == i && t.routes == OfTable(seen, i) && t.routes != []
  }

  ghost predicate SlotsOk(tables: array<Rtable?>, seen: seq<Route>)
    reads tables, set i | 0 <= i < tables.Length :: tables[i]
  {
    tables.Length == TABLES && forall i :: 0 <= i < TABLES ==> SlotOk(tables[i], i, seen)
  }

  lemma OfTableSnoc(seen: seq<Route>, r: Route, i: nat)
    ensures OfTable(seen + [r], i) == if r.tableId == i then OfTable(seen, i) + [r] else OfTable(seen, i)
  {
    assert (seen + [r])[..|seen|] == seen;
  }

  /** File one route. */
  method FileRoute(tables: array<Rtable?>, r: Route, ghost seen: seq<Route>)
    requires SlotsOk(tables, seen)
    modifies tables, set i | 0 <= i < tables.Length :: tables[i]
    ensures SlotsOk(tables, seen + [r])
    ensures forall i :: 0 <= i < TABLES ==> tables[i] == old(tables[i]) || fresh(tables[i])
  {
    hide OfTable;
    var id := r.tableId;
    assert forall i :: 0 <= i < TABLES ==> SlotOk(tables[i], i, seen);
    if tables[id] == null {
      tables[id] := new Rtable(id);
    }
    tables[id].routes := tables[id].routes + [r];
    forall i | 0 <= i < TABLES ensures SlotOk(tables[i], i, seen + [r]) {
      assert old(SlotOk(tables[i], i, seen)) && old(SlotOk(tables[id], id, seen));
      OfTableSnoc(seen, r, i);
    }
  }

  ghost predicate Shows(rtables: seq<Rtable>, ts: seq<Table>)
    reads rtables
  {
    |rtables| == |ts| && forall k :: 0 <= k < |ts| ==> rtables[k].id == ts[k].id && rtables[k].routes == ts[k].routes
  }

  /** The final loop: the tables in use, highest id first. */
  method ListTables(tables: array<Rtable?>, ghost rs: seq<Route>) returns (rtables: seq<Rtable>)
    requires SlotsOk(tables, rs)
    ensures Shows(rtables, Tables(rs, TABLES))
  {
    hide OfTable;
    rtables := [];
    ghost var done: seq<Table> := [];
    var i := TABLES - 1;
    while i >= 0
      invariant -1 <= i < TABLES && Shows(rtables, done)
      invariant done + Tables(rs, i + 1) == Tables(rs, TABLES)
    {
      assert SlotOk(tables[i], i, rs);
      if tables[i] != null {
        ghost var t := Table(i, OfTable(rs, i));
        assert done + ([t] + Tables(rs, i)) == (done + [t]) + Tables(rs, i);
        rtables := rtables + [tables[i]];
        done := done + [t];
      }
      i := i - 1;
    }
    assert done + [] == done;
  }

  /** route_scan behind the exchange with the kernel: an error leaves the namespace without tables;
      success leaves the dump partitioned, every route with the first interfaces of its indexes. */
  method RouteScan(exchangeErr: int, resp: seq<Message>, ifaces: seq<nat>, ghost bs: seq<seq<byte>>)
    returns (err: int, rtables: seq<Rtable>)
    requires Dump(resp, bs) && NoDup(resp) && forall k :: 0 <= k < |bs| ==> |bs[k]| >= HEADER
    modifies resp`start
    ensures err == if exchangeErr != 0 then exchangeErr else if AllRoutes(bs) then 0 else ENOENT
    ensures err != 0 ==> rtables == []
    ensures err == 0 ==> AllRoutes(bs) && Shows(rtables, Tables(Dumped(bs, ifaces), TABLES))
  {
    hide RouteFrom, OfTable, Tables;
    if exchangeErr != 0 {
      return exchangeErr, [];
    }
    var tables := new Rtable?[TABLES](_ => null);
    ghost var seen: seq<Route> := [];
    NothingSeen(tables);
    for k := 0 to |resp|
      invariant fresh(tables) && forall i :: 0 <= i < tables.Length ==> tables[i] == null || fresh(tables[i])
      invariant SlotsOk(tables, seen)
      invariant forall j :: k <= j < |resp| ==> resp[j].Valid() && resp[j].Content() == bs[j] && resp[j].start == HEADER
      invariant |seen| == k && forall j :: 0 <= j < k ==>
        RouteFrom(bs[j]).Some? && seen[j] == WithIfaces(RouteFrom(bs[j]).value, ifaces)
    {
      var r;
      err, r := RouteCreate(resp[k]);
      if err != 0 {
        return err, [];
      }
      var oif := FindByIndex(ifaces, r.value.oifIndex);
      var iif := FindByIndex(ifaces, r.value.iifIndex);
      var route := r.value.(oif := oif, iif := iif);
      FileRoute(tables, route, seen);
      seen := seen + [route];
    }
    assert seen == Dumped(bs, ifaces);
    rtables := ListTables(tables, seen);
    err := 0;
  }

  lemma NothingSeen(tables: array<Rtable?>)
    requires tables.Length == TABLES && forall i :: 0 <= i < TABLES ==> tables[i] == null
    ensures SlotsOk(tables, [])
  {
  }
}
