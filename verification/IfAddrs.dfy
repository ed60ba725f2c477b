/** if.c's reading of the link dump and of the address dump that all interfaces share. */
module IfAddrs {
  import opened Attrs
  import opened Bytes
  import opened Common
  import opened Exchange
  import opened NlMsg

  const ENOENT := 2
  const AF_INET := 2
  const AF_INET6 := 10
  const RTM_NEWLINK := 16
  const RTM_NEWADDR := 20
  const IFINFOMSG := 16
  const IFADDRMSG := 8
  const IFF_UP := 1

  const IFA_ADDRESS := 1
  const IFA_LOCAL := 2
  const IFA_MAX := 10

  const IFLA_IFNAME := 3
  const IFLA_LINK := 5
  const IFLA_MASTER := 10
  const IFLA_LINK_NETNSID := 37
  const IFLA_MAX := 43

  datatype Addr = Addr(family: nat, prefixlen: nat, raw: seq<byte>)

  /** if_addr; the peer address of a point-to-point interface may be absent */
  datatype IfAddr = IfAddr(addr: Addr, peer: Option<Addr>)

  // ----- one address message, for one interface

  datatype Verdict = TooShort | Skip | Holds(a: IfAddr)

  function AddrAt(family: nat, prefixlen: nat, rest: seq<byte>, at: nat): Addr {
    Addr(family, prefixlen, Window(rest, at + NLA_HEADER, if family == AF_INET then 4 else 16))
  }

  /** The local address is the address, unless only IFA_ADDRESS is present; a differing IFA_ADDRESS
      beside it is the peer's. */
  function AddrFrom(family: nat, prefixlen: nat, rest: seq<byte>, local: Option<nat>, address: Option<nat>): Verdict {
    match (local, address)
    case (None, None) => Skip
    case (None, Some(a)) => Holds(IfAddr(AddrAt(family, prefixlen, rest, a), None))
    case (Some(l), None) => Holds(IfAddr(AddrAt(family, prefixlen, rest, l), None))
    case (Some(l), Some(a)) =>
      var x, y := AddrAt(family, prefixlen, rest, l), AddrAt(family, prefixlen, rest, a);
      Holds(IfAddr(x, if y == x then None else Some(y)))
  }

  /** What message `b` says about the interface with the given index. */
  function Judge(b: seq<byte>, index: nat): Verdict {
    if |b| < HEADER + IFADDRMSG then TooShort
    else if U32(b[HEADER + 4..]) != index || TypeOf(b) != RTM_NEWADDR then Skip
    else if b[HEADER] != AF_INET && b[HEADER] != AF_INET6 then Skip
    else
      var rest := Rest(b, HEADER + IFADDRMSG);
      var xs := Parse(rest, 0);
      AddrFrom(b[HEADER], b[HEADER + 1], rest, At(LastOf(xs, IFA_LOCAL)), At(LastOf(xs, IFA_ADDRESS)))
  }

  /** The attributes behind the fixed part of an address message. */
  function AttrsOf(b: seq<byte>): seq<Attr> {
    Parse(Rest(b, HEADER + IFADDRMSG), 0)
  }

  /** A message counts for an interface exactly when it is a long enough IPv4 or IPv6 address message
      with its index and carries a local or an interface address. */
  lemma JudgeMeaning(b: seq<byte>, index: nat)
    ensures Judge(b, index).TooShort? <==> |b| < HEADER + IFADDRMSG
    ensures Judge(b, index).Holds? <==>
      && |b| >= HEADER + IFADDRMSG && U32(b[HEADER + 4..]) == index && TypeOf(b) == RTM_NEWADDR
      && (b[HEADER] == AF_INET || b[HEADER] == AF_INET6)
      && exists k ::
           0 <= k < |AttrsOf(b)| && (AttrsOf(b)[k].tlv.typ == IFA_LOCAL || AttrsOf(b)[k].tlv.typ == IFA_ADDRESS)
  {
    if |b| >= HEADER + IFADDRMSG {
      LastOfMeaning(AttrsOf(b), IFA_LOCAL);
      LastOfMeaning(AttrsOf(b), IFA_ADDRESS);
    }
  }

  /** The address is the payload of the last local address, or of the last interface address when
      there is no local one, whenever that payload has the length of its family. */
  lemma AddressIsPayload(b: seq<byte>, index: nat)
    requires Judge(b, index).Holds?
    ensures |b| >= HEADER + IFADDRMSG
    ensures var xs := AttrsOf(b);
      var l := if LastOf(xs, IFA_LOCAL).Some? then LastOf(xs, IFA_LOCAL) else LastOf(xs, IFA_ADDRESS);
      && l.Some?
      && (|l.value.tlv.payload| == (if b[HEADER] == AF_INET then 4 else 16) ==>
            Judge(b, index).a.addr == Addr(b[HEADER], b[HEADER + 1], l.value.tlv.payload))
  {
    hide Parse, LastOf, OnAttr, U16, U32;
    var xs := AttrsOf(b);
    LastOfMeaning(xs, IFA_LOCAL);
    LastOfMeaning(xs, IFA_ADDRESS);
    var l := if LastOf(xs, IFA_LOCAL).Some? then LastOf(xs, IFA_LOCAL) else LastOf(xs, IFA_ADDRESS);
    PayloadIs(Rest(b, HEADER + IFADDRMSG), l.value);
  }

  lemma PayloadIs(rest: seq<byte>, x: Attr)
    requires x in Parse(rest, 0)
    ensures Window(rest, x.at + NLA_HEADER, |x.tlv.payload|) == x.tlv.payload
  {
    var xs := Parse(rest, 0);
    ParseMeaning(rest, 0, xs);
    var k :| 0 <= k < |xs| && xs[k] == x;
    assert OnAttr(rest, xs[k].at) && AttrAt(rest, xs[k].at) == xs[k];
  }

  datatype Fill = Fill(err: int, addrs: seq<IfAddr>)

  /** fill_if_addr over the contents of the address dump */
  function FillAll(bs: seq<seq<byte>>, index: nat): Fill {
    if bs == [] then Fill(0, [])
    else
      var r := FillAll(bs[..|bs| - 1], index);
      if r.err != 0 then r
      else
        match Judge(bs[|bs| - 1], index)
        case TooShort => Fill(ENOENT, r.addrs)
        case Skip => r
        case Holds(a) => Fill(0, r.addrs + [a])
  }

  /** The messages of a dump that hold an address of the interface, in order. */
  function Holding(bs: seq<seq<byte>>, index: nat): seq<IfAddr> {
    if bs == [] then []
    else
      var r := Holding(bs[..|bs| - 1], index);
      if Judge(bs[|bs| - 1], index).Holds? then r + [Judge(bs[|bs| - 1], index).a] else r
  }

  /** `xs` are the addresses the messages at the increasing positions `at` hold, none left out. */
  ghost predicate InOrder(bs: seq<seq<byte>>, index: nat, xs: seq<IfAddr>, at: seq<nat>) {
    && |at| == |xs| && Increasing(at)
    && (forall k :: 0 <= k < |at| ==> at[k] < |bs| && Judge(bs[at[k]], index) == Holds(xs[k]))
    && (forall i: nat :: i < |bs| && Judge(bs[i], index).Holds? ==> i in at)
  }

  lemma InOrderSnoc(bs: seq<seq<byte>>, index: nat, xs: seq<IfAddr>, at: seq<nat>, b: seq<byte>)
    requires InOrder(bs, index, xs, at)
    ensures var v := Judge(b, index);
      if v.Holds? then InOrder(bs + [b], index, xs + [v.a], at + [|bs|]) else InOrder(bs + [b], index, xs, at)
  {
    hide Judge;
  }

  /** They are in the order of the dump, and all there. */
  lemma {:induction false} HoldingInOrder(bs: seq<seq<byte>>, index: nat)
    ensures exists at: seq<nat> :: InOrder(bs, index, Holding(bs, index), at)
  {
    hide InOrder, Judge;
    if bs == [] {
      NoneInOrder(index);
      assert InOrder(bs, index, Holding(bs, index), []);
    } else {
      var n := |bs| - 1;
      HoldingInOrder(bs[..n], index);
      var at :| InOrder(bs[..n], index, Holding(bs[..n], index), at);
      InOrderSnoc(bs[..n], index, Holding(bs[..n], index), at, bs[n]);
      assert bs[..n] + [bs[n]] == bs;
      if Judge(bs[n], index).Holds? {
        assert InOrder(bs, index, Holding(bs, index), at + [n]);
      } else {
        assert InOrder(bs, index, Holding(bs, index), at);
      }
    }
  }

  lemma NoneInOrder(index: nat)
    ensures InOrder([], index, [], [])
  {
  }

  /** Success means that no message was too short, and then every address message of the
      interface was taken, in dump order, and nothing else. */
  lemma {:induction false} FillMeaning(bs: seq<seq<byte>>, index: nat)
    ensures FillAll(bs, index).err == 0 <==> forall k :: 0 <= k < |bs| ==> |bs[k]| >= HEADER + IFADDRMSG
    ensures FillAll(bs, index).err == 0 ==> FillAll(bs, index).addrs == Holding(bs, index)
  {
    if bs != [] {
      var init := bs[..|bs| - 1];
      FillMeaning(init, index);
      forall k | 0 <= k < |init| ensures init[k] == bs[k] {
      }
      assert bs == init + [bs[|bs| - 1]];
    }
  }

  lemma {:induction false} FillStops(bs: seq<seq<byte>>, k: nat, index: nat)
    requires k <= |bs| && FillAll(bs[..k], index).err != 0
    ensures FillAll(bs, index) == FillAll(bs[..k], index)
    decreases |bs|
  {
    if k == |bs| {
      assert bs[..k] == bs;
    } else {
      assert bs[..|bs| - 1][..k] == bs[..k];
      FillStops(bs[..|bs| - 1], k, index);
    }
  }

  // ----- the interface record

  /** The fields of if_entry that the dumps fill in. */
  class Record {
    var ifIndex: nat
    var name: seq<byte>
    var up: bool
    var masterIndex: nat
    var linkIndex: nat
    var linkNetnsid: int
    var addrs: seq<IfAddr>

    /** if_create */
    constructor ()
      ensures ifIndex == 0 && name == [] && !up && masterIndex == 0 && linkIndex == 0 && linkNetnsid == -1 &&
        addrs == []
    {
      ifIndex, name, up, masterIndex, linkIndex, linkNetnsid, addrs := 0, [], false, 0, 0, -1, [];
    }
  }

  /** A received dump: the messages hold `bs`, and every cursor is behind the header. */
  ghost predicate Dump(ms: seq<Message>, bs: seq<seq<byte>>)
    reads ms, set k | 0 <= k < |ms| :: ms[k].buf
  {
    && |bs| == |ms|
    && forall k :: 0 <= k < |ms| ==> ms[k].Valid() && ms[k].Content() == bs[k] && ms[k].start == HEADER
  }

  /** The part of fill_if_addr between nlmsg_get and nlmsg_unget. */
  method JudgeMessage(m: Message, at: nat, index: nat) returns (v: Verdict)
    requires m.Valid() && at == HEADER && m.start == HEADER + IFADDRMSG <= m.len
    ensures v == Judge(m.Content(), index)
  {
    ghost var b := m.Content();
    var rest := if m.start <= m.len then m.buf[m.start..m.len] else [];
    assert rest == Rest(b, m.start);
    assert m.buf[at + 4..m.len] == b[at + 4..] && m.buf[4..m.len] == b[4..];
    if U32(m.buf[at + 4..m.len]) != index {
      return Skip;
    }
    if U16(m.buf[4..m.len]) != RTM_NEWADDR {
      return Skip;
    }
    var family: nat, prefixlen: nat := m.buf[at], m.buf[at + 1];
    if family != AF_INET && family != AF_INET6 {
      return Skip;
    }
    var tb := MsgAttrs(m, IFA_MAX);
    var local, address := tb[IFA_LOCAL], tb[IFA_ADDRESS];
    v := AddrFrom(family, prefixlen, rest, local, address);
  }

  /** The body of fill_if_addr's loop. */
  method TakeAddr(dest: Record, ainfo: Message) returns (err: int)
    requires ainfo.Valid() && ainfo.start == HEADER
    modifies dest`addrs, ainfo`start
    ensures ainfo.start == HEADER && ainfo.Valid()
    ensures var v := Judge(ainfo.Content(), dest.ifIndex);
      && err == (if v.TooShort? then ENOENT else 0)
      && dest.addrs == if v.Holds? then old(dest.addrs) + [v.a] else old(dest.addrs)
  {
    hide LastOf, Parse;
    var ifa := ainfo.Get(IFADDRMSG);
    if ifa.None? {
      return ENOENT;
    }
    var v := JudgeMessage(ainfo, ifa.value, dest.ifIndex);
    if v.Holds? {
      dest.addrs := dest.addrs + [v.a];
    }
    ainfo.Unget(IFADDRMSG);
    return 0;
  }

  lemma FillStep(bs: seq<seq<byte>>, k: nat, index: nat)
    requires k < |bs| && FillAll(bs[..k], index).err == 0
    ensures var v := Judge(bs[k], index); var r := FillAll(bs[..k + 1], index);
      && r.err == (if v.TooShort? then ENOENT else 0)
      && r.addrs == (if v.Holds? then FillAll(bs[..k], index).addrs + [v.a] else FillAll(bs[..k], index).addrs)
      && (v.TooShort? ==> FillAll(bs, index) == r)
  {
    hide Judge;
    assert bs[..k + 1][..k] == bs[..k];
    if Judge(bs[k], index).TooShort? {
      FillStops(bs, k + 1, index);
    }
  }

  /** fill_if_addr. Every cursor of the shared dump is back where it was. */
  method FillIfAddr(dest: Record, alist: seq<Message>, ghost bs: seq<seq<byte>>) returns (err: int)
    requires Dump(alist, bs)
    modifies dest`addrs, alist`start
    ensures Dump(alist, bs)
    ensures var r := FillAll(bs, dest.ifIndex); err == r.err && dest.addrs == old(dest.addrs) + r.addrs
  {
    hide Judge, FillAll;
    FillNothing(bs, dest.ifIndex);
    ghost var before := dest.addrs;
    for k := 0 to |alist|
      invariant Dump(alist, bs) && FillAll(bs[..k], dest.ifIndex).err == 0
      invariant dest.addrs == before + FillAll(bs[..k], dest.ifIndex).addrs
    {
      FillStep(bs, k, dest.ifIndex);
      err := TakeAddr(dest, alist[k]);
      if err != 0 {
        return;
      }
    }
    assert bs[..|bs|] == bs;
    return 0;
  }

  lemma FillNothing(bs: seq<seq<byte>>, index: nat)
    ensures FillAll(bs[..0], index) == Fill(0, [])
  {
  }

  // ----- the link dump

  /** What a link message fills in, unless it is unusable. */
  datatype Link = NoLink | Link(ifIndex: nat, name: seq<byte>, up: bool, masterIndex: nat, linkIndex: nat,
    linkNetnsid: int)

  /** A word of an attribute, or a default. */
  function WordOr(rest: seq<byte>, at: Option<nat>, d: nat): nat {
    match at
    case None => d
    case Some(a) => U32(Window(rest, a + NLA_HEADER, 4))
  }

  function SignedOr(rest: seq<byte>, at: Option<nat>, d: int): int {
    match at
    case None => d
    case Some(a) => S32(Window(rest, a + NLA_HEADER, 4))
  }

  /** The bytes of a C string. */
  function CString(s: seq<byte>): seq<byte> {
    if s == [] || s[0] == 0 then [] else [s[0]] + CString(s[1..])
  }

  function LinkFrom(b: seq<byte>): Link {
    if |b| < HEADER + IFINFOMSG || TypeOf(b) != RTM_NEWLINK then NoLink
    else
      var rest := Rest(b, HEADER + IFINFOMSG);
      var xs := Parse(rest, 0);
      var name := At(LastOf(xs, IFLA_IFNAME));
      if name.None? then NoLink
      else Link(
             U32(b[HEADER + 4..]), CString(Rest(rest, name.value + NLA_HEADER)), U32(b[HEADER + 8..]) % 2 == IFF_UP,
             WordOr(rest, At(LastOf(xs, IFLA_MASTER)), 0), WordOr(rest, At(LastOf(xs, IFLA_LINK)), 0),
             SignedOr(rest, At(LastOf(xs, IFLA_LINK_NETNSID)), -1))
  }

  ghost predicate Shows(r: Record, l: Link)
    reads r
  {
    && l.Link? && r.ifIndex == l.ifIndex && r.name == l.name && r.up == l.up
    && r.masterIndex == l.masterIndex && r.linkIndex == l.linkIndex && r.linkNetnsid == l.linkNetnsid
  }

  /** fill_if_link; `hook` is the result of the driver handlers it ends with */
  method FillIfLink(dest: Record, msg: Message, hook: int) returns (err: int)
    requires msg.Valid() && msg.start == HEADER <= msg.len
    requires !dest.up && dest.masterIndex == 0 && dest.linkIndex == 0 && dest.linkNetnsid == -1
    modifies dest, msg`start
    ensures msg.Valid() && dest.addrs == old(dest.addrs)
    ensures var l := LinkFrom(msg.Content());
      && err == (if l.NoLink? then ENOENT else hook)
      && (l.Link? ==> Shows(dest, l))
  {
    hide LastOf, Parse, CString, U16, U32, S32, WordOr, SignedOr;
    ghost var b := msg.Content();
    assert msg.buf[4..msg.len] == b[4..];
    if U16(msg.buf[4..msg.len]) != RTM_NEWLINK {
      return ENOENT;
    }
    var ifi := msg.Get(IFINFOMSG);
    if ifi.None? {
      return ENOENT;
    }
    var rest := msg.buf[msg.start..msg.len];
    assert rest == Rest(b, msg.start);
    assert msg.buf[HEADER + 4..msg.len] == b[HEADER + 4..] && msg.buf[HEADER + 8..msg.len] == b[HEADER + 8..];
    var tb := MsgAttrs(msg, IFLA_MAX);
    if tb[IFLA_IFNAME].None? {
      return ENOENT;
    }
    dest.ifIndex := U32(msg.buf[HEADER + 4..msg.len]);
    dest.name := CString(Rest(rest, tb[IFLA_IFNAME].value + NLA_HEADER));
    if U32(msg.buf[HEADER + 8..msg.len]) % 2 == IFF_UP {
      dest.up := true;
    }
    dest.masterIndex := WordOr(rest, tb[IFLA_MASTER], dest.masterIndex);
    dest.linkIndex := WordOr(rest, tb[IFLA_LINK], dest.linkIndex);
    dest.linkNetnsid := SignedOr(rest, tb[IFLA_LINK_NETNSID], dest.linkNetnsid);
    return hook;
  }

  function HookAt(hooks: seq<int>, k: nat): int {
    if k < |hooks| then hooks[k] else 0
  }

  /** The result of if_list after `n` link messages. */
  function ListErr(ls: seq<seq<byte>>, bs: seq<seq<byte>>, hooks: seq<int>, scans: seq<int>, n: nat): int
    requires n <= |ls|
  {
    if n == 0 then 0
    else if ListErr(ls, bs, hooks, scans, n - 1) != 0 then ListErr(ls, bs, hooks, scans, n - 1)
    else
      var l := LinkFrom(ls[n - 1]);
      if l.NoLink? then ENOENT
      else if HookAt(hooks, n - 1) != 0 then HookAt(hooks, n - 1)
      else if FillAll(bs, l.ifIndex).err != 0 then FillAll(bs, l.ifIndex).err
      else HookAt(scans, n - 1)
  }

  /** Link message `k` goes through: it is usable, its handlers report no error, and no address message is
      too short. */
  ghost predicate GoesThrough(ls: seq<seq<byte>>, bs: seq<seq<byte>>, hooks: seq<int>, scans: seq<int>, k: nat) {
    && k < |ls| && LinkFrom(ls[k]).Link? && HookAt(hooks, k) == 0 && HookAt(scans, k) == 0
    && forall j :: 0 <= j < |bs| ==> |bs[j]| >= HEADER + IFADDRMSG
  }

  /** Why a message does not go through. */
  ghost function Trouble(ls: seq<seq<byte>>, bs: seq<seq<byte>>, hooks: seq<int>, scans: seq<int>, k: nat): int
    requires k < |ls|
  {
    if LinkFrom(ls[k]).NoLink? then 2
    else if HookAt(hooks, k) != 0 then HookAt(hooks, k)
    else if exists j :: 0 <= j < |bs| && |bs[j]| < HEADER + IFADDRMSG then 2
    else HookAt(scans, k)
  }

  lemma ListErrStep(ls: seq<seq<byte>>, bs: seq<seq<byte>>, hooks: seq<int>, scans: seq<int>, n: nat)
    requires n < |ls| && ListErr(ls, bs, hooks, scans, n) == 0
    ensures ListErr(ls, bs, hooks, scans, n + 1) == Trouble(ls, bs, hooks, scans, n)
    ensures Trouble(ls, bs, hooks, scans, n) == 0 <==> GoesThrough(ls, bs, hooks, scans, n)
  {
    hide LinkFrom, FillAll, HookAt;
    if LinkFrom(ls[n]).Link? {
      FillError(bs, LinkFrom(ls[n]).ifIndex);
    }
  }

  lemma {:induction false} FillError(bs: seq<seq<byte>>, index: nat)
    ensures FillAll(bs, index).err == 0 || FillAll(bs, index).err == ENOENT
    ensures FillAll(bs, index).err == 0 <==> forall k :: 0 <= k < |bs| ==> |bs[k]| >= HEADER + IFADDRMSG
  {
    hide Judge;
    FillMeaning(bs, index);
    if bs != [] {
      FillError(bs[..|bs| - 1], index);
    }
  }

  ghost predicate AllThrough(ls: seq<seq<byte>>, bs: seq<seq<byte>>, hooks: seq<int>, scans: seq<int>, n: nat) {
    forall k: nat :: k < n ==> GoesThrough(ls, bs, hooks, scans, k)
  }

  /** Message `k` is the first that does not. */
  ghost predicate Fails(ls: seq<seq<byte>>, bs: seq<seq<byte>>, hooks: seq<int>, scans: seq<int>, n: nat, k: nat) {
    k < n && AllThrough(ls, bs, hooks, scans, k) && !GoesThrough(ls, bs, hooks, scans, k)
  }

  lemma NoListErr(ls: seq<seq<byte>>, bs: seq<seq<byte>>, hooks: seq<int>, scans: seq<int>)
    ensures ListErr(ls, bs, hooks, scans, 0) == 0
  {
  }

  /** The list succeeds exactly when every message goes through; otherwise the first that does not decides
      the error, its handlers' before a too short address message's, and that before the scan's. */
  lemma {:induction false} ListErrMeaning(ls: seq<seq<byte>>, bs: seq<seq<byte>>, hooks: seq<int>, scans: seq<int>,
                                          n: nat)
    requires n <= |ls|
    ensures ListErr(ls, bs, hooks, scans, n) == 0 <==> AllThrough(ls, bs, hooks, scans, n)
    ensures ListErr(ls, bs, hooks, scans, n) != 0 ==>
      exists k: nat ::
        && Fails(ls, bs, hooks, scans, n, k)
        && ListErr(ls, bs, hooks, scans, n) == Trouble(ls, bs, hooks, scans, k)
  {
    hide GoesThrough, Trouble, ListErr;
    if n == 0 {
      NoListErr(ls, bs, hooks, scans);
    } else {
      ListErrMeaning(ls, bs, hooks, scans, n - 1);
      if ListErr(ls, bs, hooks, scans, n - 1) == 0 {
        ListErrStep(ls, bs, hooks, scans, n - 1);
        if ListErr(ls, bs, hooks, scans, n) != 0 {
          assert Fails(ls, bs, hooks, scans, n, n - 1);
        }
      } else {
        ListErrStays(ls, bs, hooks, scans, n - 1, n);
        var k: nat :| Fails(ls, bs, hooks, scans, n - 1, k)
          && ListErr(ls, bs, hooks, scans, n - 1) == Trouble(ls, bs, hooks, scans, k);
        assert Fails(ls, bs, hooks, scans, n, k);
      }
    }
  }

  lemma {:induction false} ListErrStays(ls: seq<seq<byte>>, bs: seq<seq<byte>>, hooks: seq<int>, scans: seq<int>,
                                        m: nat, n: nat)
    requires m <= n <= |ls| && ListErr(ls, bs, hooks, scans, m) != 0
    ensures ListErr(ls, bs, hooks, scans, n) == ListErr(ls, bs, hooks, scans, m)
    decreases n
  {
    if m < n {
      ListErrStays(ls, bs, hooks, scans, m, n - 1);
    }
  }

  /** Record `k` shows link message `k` and has exactly the addresses the dump holds for it. */
  ghost predicate Listed(r: Record, l: seq<byte>, bs: seq<seq<byte>>)
    reads r
  {
    Shows(r, LinkFrom(l)) && r.addrs == Holding(bs, r.ifIndex)
  }

  /** Both dumps' messages are separate objects. */
  ghost predicate Apart(linfo: seq<Message>, ainfo: seq<Message>) {
    && (forall i, j :: 0 <= i < j < |linfo| ==> linfo[i] != linfo[j])
    && (forall i, j :: 0 <= i < |linfo| && 0 <= j < |ainfo| ==> linfo[i] != ainfo[j])
  }

  /** The loop of if_list over both dumps. On success there is one record per link message, in
      order, each with exactly its own addresses in the order of the address dump. */
  method IfList(linfo: seq<Message>, ainfo: seq<Message>, hooks: seq<int>, scans: seq<int>,
                ghost ls: seq<seq<byte>>, ghost bs: seq<seq<byte>>)
    returns (err: int, result: seq<Record>)
    requires Dump(linfo, ls) && Dump(ainfo, bs) && Apart(linfo, ainfo)
    requires forall k :: 0 <= k < |ls| ==> |ls[k]| >= HEADER
    modifies linfo`start, ainfo`start
    ensures Dump(ainfo, bs) && err == ListErr(ls, bs, hooks, scans, |ls|)
    ensures err == 0 ==> |result| == |ls| && forall k :: 0 <= k < |ls| ==> Listed(result[k], ls[k], bs)
  {
    hide LinkFrom, FillAll, Holding, Shows, HookAt;
    result, err := [], 0;
    for k := 0 to |linfo|
      invariant Dump(ainfo, bs) && fresh(result) && |result| == k
      invariant forall j :: k <= j < |linfo| ==>
        linfo[j].Valid() && linfo[j].Content() == ls[j] && linfo[j].start == HEADER
      invariant ListErr(ls, bs, hooks, scans, k) == 0
      invariant forall j :: 0 <= j < k ==> Listed(result[j], ls[j], bs)
    {
      var entry := new Record();
      err := IfListStep(entry, linfo[k], HookAt(hooks, k), HookAt(scans, k), ainfo, bs);
      result := result + [entry];
      if err != 0 {
        ListErrStays(ls, bs, hooks, scans, k + 1, |ls|);
        return;
      }
    }
    err := 0;
  }

  /** The body of if_list's loop for a new entry. */
  method IfListStep(entry: Record, l: Message, hook: int, scan: int, ainfo: seq<Message>, ghost bs: seq<seq<byte>>)
    returns (err: int)
    requires l.Valid() && l.start == HEADER <= l.len && Dump(ainfo, bs) && l !in ainfo
    requires !entry.up && entry.masterIndex == 0 && entry.linkIndex == 0 && entry.linkNetnsid == -1 && entry.addrs == []
    modifies entry, l`start, ainfo`start
    ensures Dump(ainfo, bs) && l.Valid()
    ensures var x := LinkFrom(l.Content());
      err == if x.NoLink? then ENOENT
             else if hook != 0 then hook
             else if FillAll(bs, x.ifIndex).err != 0 then FillAll(bs, x.ifIndex).err
             else scan
    ensures err == 0 ==> Listed(entry, l.Content(), bs)
  {
    hide LinkFrom, FillAll, Holding;
    err := FillIfLink(entry, l, hook);
    if err != 0 {
      return;
    }
    err := FillIfAddr(entry, ainfo, bs);
    if err != 0 {
      return;
    }
    FillMeaning(bs, entry.ifIndex);
    assert [] + Holding(bs, entry.ifIndex) == Holding(bs, entry.ifIndex);
    err := scan;
  }
}
