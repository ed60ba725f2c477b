/** What the kernel writes into link, address and route messages is what if.c and handlers/route.c read out of
    them: the fixed parts laid out field by field, the attributes in any order and mixed with others. */
module Reading {
  import opened Attrs
  import opened Bytes
  import opened Common
  import opened Exchange
  import opened IfAddrs
  import opened NlMsg
  import opened Routes

  /** The payload of the last attribute of type `k`. */
  function Told(ts: seq<Tlv>, k: nat): Option<seq<byte>> {
    if ts == [] then None
    else if ts[|ts| - 1].typ == k then Some(ts[|ts| - 1].payload)
    else Told(ts[..|ts| - 1], k)
  }

  /** A word as an attribute's payload, if there is one. */
  function Word(n: Option<nat>): Option<seq<byte>> {
    match n
    case None => None
    case Some(v) => Some(Le32(v))
  }

  function Signed(n: Option<int>): Option<seq<byte>> {
    match n
    case None => None
    case Some(v) => Some(Le32(v % 0x1_0000_0000))
  }

  predicate IsWord(n: Option<nat>) {
    n.Some? ==> n.value < 0x1_0000_0000
  }

  function Or<T>(x: Option<T>, d: T): T {
    match x
    case None => d
    case Some(v) => v
  }

  ghost predicate Attributes(ts: seq<Tlv>) {
    AllEncodable(ts) && forall k :: 0 <= k < |ts| ==> ts[k].typ < 0x1_0000
  }

  /** A message with a fixed part and attributes. */
  function Built(h: seq<byte>, fixed: seq<byte>, ts: seq<Tlv>): seq<byte>
    requires |h| == HEADER
  {
    AddedAll(h, [Piece(fixed, 0)] + Pieces(ts))
  }

  // ----- finding the attributes again

  lemma {:induction false} ToldIs(xs: seq<Attr>, k: nat)
    ensures Told(Tlvs(xs), k) == match LastOf(xs, k) case None => None case Some(a) => Some(a.tlv.payload)
  {
    if xs != [] {
      ToldIs(xs[..|xs| - 1], k);
      TlvsInit(xs);
    }
  }

  lemma {:induction false} TlvsInit(xs: seq<Attr>)
    requires xs != []
    ensures Tlvs(xs)[..|xs| - 1] == Tlvs(xs[..|xs| - 1])
  {
  }

  /** The message as its reader sees it: type, fixed part, attributes. */
  lemma ReadParts(h: seq<byte>, fixed: seq<byte>, ts: seq<Tlv>)
    requires |h| == HEADER && U32(h) == HEADER && |fixed| % 4 == 0 && Attributes(ts)
    ensures var b := Built(h, fixed, ts);
      && |b| >= HEADER + |fixed| && b[HEADER..HEADER + |fixed|] == fixed && TypeOf(b) == TypeOf(h)
      && Tlvs(Parse(Rest(b, HEADER + |fixed|), 0)) == ts
  {
    hide AddedAll, Parse, Tlvs, Pieces, U32, EncodeAll;
    var b := Built(h, fixed, ts);
    RoundTrip(h, Piece(fixed, 0), ts);
    MessageIs(h, Piece(fixed, 0), ts);
    assert fixed + Zeros(0) == fixed;
    AlignFacts(|fixed|);
    assert b[4..][..HEADER - 4] == h[4..];
    assert b[4..][..2] == h[4..][..2];
    U16Prefix(b[4..], h[4..]);
  }

  /** Where the payload of the last attribute of a type is read. */
  lemma ReadAt(rest: seq<byte>, ts: seq<Tlv>, k: nat)
    requires Tlvs(Parse(rest, 0)) == ts
    ensures var at := At(LastOf(Parse(rest, 0), k));
      && (Told(ts, k).None? <==> at.None?)
      && (Told(ts, k).Some? ==>
            var p := Told(ts, k).value;
            && at.value + NLA_HEADER + |p| <= |rest|
            && rest[at.value + NLA_HEADER..at.value + NLA_HEADER + |p|] == p
            && Window(rest, at.value + NLA_HEADER, |p|) == p)
  {
    hide Parse, OnAttr, AttrAt, Window, LastOf, Told, Tlvs;
    ToldIs(Parse(rest, 0), k);
    LastThere(rest, Parse(rest, 0), k);
    PayloadIn(rest, LastOf(Parse(rest, 0), k), Told(ts, k));
  }

  lemma PayloadIn(rest: seq<byte>, a: Option<Attr>, p: Option<seq<byte>>)
    requires p == match a case None => None case Some(x) => Some(x.tlv.payload)
    requires a.Some? ==> OnAttr(rest, a.value.at) && AttrAt(rest, a.value.at) == a.value
    ensures p.None? <==> At(a).None?
    ensures p.Some? ==>
      && At(a).value + NLA_HEADER + |p.value| <= |rest|
      && rest[At(a).value + NLA_HEADER..At(a).value + NLA_HEADER + |p.value|] == p.value
      && Window(rest, At(a).value + NLA_HEADER, |p.value|) == p.value
  {
    hide OnAttr, AttrAt, Window;
    if a.Some? {
      PayloadThere(rest, a.value);
    }
  }

  lemma LastThere(rest: seq<byte>, xs: seq<Attr>, k: nat)
    requires xs == Parse(rest, 0)
    ensures LastOf(xs, k).Some? ==>
      OnAttr(rest, LastOf(xs, k).value.at) && AttrAt(rest, LastOf(xs, k).value.at) == LastOf(xs, k).value
  {
    hide Parse, OnAttr, AttrAt, LastOf;
    LastOfMeaning(xs, k);
    ParseMeaning(rest, 0, xs);
  }

  lemma PayloadThere(rest: seq<byte>, a: Attr)
    requires OnAttr(rest, a.at) && AttrAt(rest, a.at) == a
    ensures var n := |a.tlv.payload|;
      && a.at + NLA_HEADER + n <= |rest| && rest[a.at + NLA_HEADER..a.at + NLA_HEADER + n] == a.tlv.payload
      && Window(rest, a.at + NLA_HEADER, n) == a.tlv.payload
  {
  }

  lemma WordRead(rest: seq<byte>, ts: seq<Tlv>, k: nat, n: Option<nat>, d: nat)
    requires Tlvs(Parse(rest, 0)) == ts && Told(ts, k) == Word(n) && IsWord(n)
    ensures WordOr(rest, At(LastOf(Parse(rest, 0), k)), d) == Or(n, d)
  {
    hide Parse, LastOf, Told, Window, U32;
    ReadAt(rest, ts, k);
  }

  lemma SignedRead(rest: seq<byte>, ts: seq<Tlv>, k: nat, n: Option<int>, d: int)
    requires Tlvs(Parse(rest, 0)) == ts && Told(ts, k) == Signed(n)
    requires n.Some? ==> -0x8000_0000 <= n.value < 0x8000_0000
    ensures SignedOr(rest, At(LastOf(Parse(rest, 0), k)), d) == Or(n, d)
  {
    hide Parse, LastOf, Told, Window, U32, S32;
    ReadAt(rest, ts, k);
    if n.Some? {
      SignedWord(n.value);
    }
  }

  lemma {:induction false} NameEnds(name: seq<byte>, more: seq<byte>)
    requires 0 !in name
    ensures CString(name + [0] + more) == name
  {
    if name == [] {
      assert ([] + [0] + more)[0] == 0;
    } else {
      NameEnds(name[1..], more);
      assert (name + [0] + more)[1..] == name[1..] + [0] + more;
    }
  }

  lemma NameRead(rest: seq<byte>, ts: seq<Tlv>, k: nat, name: seq<byte>)
    requires Tlvs(Parse(rest, 0)) == ts && Told(ts, k) == Some(name + [0]) && 0 !in name
    ensures At(LastOf(Parse(rest, 0), k)).Some?
    ensures CString(Rest(rest, At(LastOf(Parse(rest, 0), k)).value + NLA_HEADER)) == name
  {
    hide Parse, LastOf, Told, CString;
    ReadAt(rest, ts, k);
    var from := At(LastOf(Parse(rest, 0), k)).value + NLA_HEADER;
    assert rest[from..] == rest[from..from + |name| + 1] + rest[from + |name| + 1..];
    NameEnds(name, rest[from + |name| + 1..]);
  }

  lemma Part(b: seq<byte>, from: nat, fixed: seq<byte>, k: nat, n: nat)
    requires from + |fixed| <= |b| && b[from..from + |fixed|] == fixed && k + n <= |fixed|
    ensures b[from + k..][..n] == fixed[k..][..n]
  {
    forall i | 0 <= i < n ensures b[from + k..][..n][i] == fixed[k..][..n][i] {
      assert fixed[k + i] == b[from..from + |fixed|][k + i];
    }
  }

  // ----- link messages

  /** ifinfomsg */
  function LinkPart(family: byte, kind: nat, index: nat, flags: nat, change: nat): (s: seq<byte>)
    ensures |s| == IFINFOMSG
  {
    [family, 0] + Le16(kind) + Le32(index) + Le32(flags) + Le32(change)
  }

  lemma LinkPartFields(family: byte, kind: nat, index: nat, flags: nat, change: nat)
    ensures var s := LinkPart(family, kind, index, flags, change);
      s[4..][..4] == Le32(index) && s[8..][..4] == Le32(flags)
  {
    hide Le32, Le16;
  }

  /** The attributes of a link message, whatever its fixed part. */
  lemma AttributesRead(h: seq<byte>, fixed: seq<byte>, ts: seq<Tlv>, name: Option<seq<byte>>, master: Option<nat>,
                       link: Option<nat>, netnsid: Option<int>)
    requires |h| == HEADER && U32(h) == HEADER && Attributes(ts) && |fixed| == IFINFOMSG
    requires name.Some? ==> 0 !in name.value
    requires Told(ts, 3) == (match name case None => None case Some(s) => Some(s + [0]))
    requires Told(ts, 10) == Word(master) && IsWord(master) && Told(ts, 5) == Word(link) && IsWord(link)
    requires Told(ts, 37) == Signed(netnsid) && (netnsid.Some? ==> -0x8000_0000 <= netnsid.value < 0x8000_0000)
    ensures var b := Built(h, fixed, ts);
      && |b| >= HEADER + IFINFOMSG && b[HEADER..HEADER + IFINFOMSG] == fixed
      && LinkFrom(b) ==
           if TypeOf(h) != 16 || name.None? then NoLink
           else Link(U32(b[HEADER + 4..]), name.value, U32(b[HEADER + 8..]) % 2 == 1, Or(master, 0), Or(link, 0),
                     Or(netnsid, -1))
  {
    hide Built, Parse, LastOf, Told, CString, U32, U16, WordOr, SignedOr, Tlvs, Rest;
    var b := Built(h, fixed, ts);
    ReadParts(h, fixed, ts);
    var rest := Rest(b, HEADER + IFINFOMSG);
    if name.Some? {
      NameRead(rest, ts, IFLA_IFNAME, name.value);
    } else {
      ReadAt(rest, ts, IFLA_IFNAME);
    }
    WordRead(rest, ts, IFLA_MASTER, master, 0);
    WordRead(rest, ts, IFLA_LINK, link, 0);
    SignedRead(rest, ts, IFLA_LINK_NETNSID, netnsid, -1);
  }

  /** A link message reads back as the index, the up flag, the name, and the master, link and namespace
      identifier it reports, zero, zero and -1 standing for what it does not report. A message without a
      name or of another type is no use. */
  lemma LinkReadsBack(h: seq<byte>, family: byte, kind: nat, index: nat, flags: nat, change: nat, ts: seq<Tlv>,
                      name: Option<seq<byte>>, master: Option<nat>, link: Option<nat>, netnsid: Option<int>)
    requires |h| == HEADER && U32(h) == HEADER && Attributes(ts) && index < 0x1_0000_0000 && flags < 0x1_0000_0000
    requires name.Some? ==> 0 !in name.value
    requires Told(ts, 3) == (match name case None => None case Some(s) => Some(s + [0]))
    requires Told(ts, 10) == Word(master) && IsWord(master) && Told(ts, 5) == Word(link) && IsWord(link)
    requires Told(ts, 37) == Signed(netnsid) && (netnsid.Some? ==> -0x8000_0000 <= netnsid.value < 0x8000_0000)
    ensures LinkFrom(Built(h, LinkPart(family, kind, index, flags, change), ts)) ==
      if TypeOf(h) != 16 || name.None? then NoLink
      else Link(index, name.value, flags % 2 == 1, Or(master, 0), Or(link, 0), Or(netnsid, -1))
  {
    hide Built, Told, U32, U16, LinkPart, Le32, LinkFrom;
    var fixed := LinkPart(family, kind, index, flags, change);
    var b := Built(h, fixed, ts);
    AttributesRead(h, fixed, ts, name, master, link, netnsid);
    LinkPartFields(family, kind, index, flags, change);
    Part(b, HEADER, fixed, 4, 4);
    Part(b, HEADER, fixed, 8, 4);
    U32Prefix(b[HEADER + 4..], Le32(index));
    U32Prefix(b[HEADER + 8..], Le32(flags));
  }

  // ----- address messages

  /** ifaddrmsg */
  function AddrPart(family: byte, prefixlen: byte, flags: byte, scope: byte, index: nat): (s: seq<byte>)
    ensures |s| == IFADDRMSG
  {
    [family, prefixlen, flags, scope] + Le32(index)
  }

  lemma AddrPartFields(family: byte, prefixlen: byte, flags: byte, scope: byte, index: nat)
    ensures var s := AddrPart(family, prefixlen, flags, scope, index);
      s[0] == family && s[1] == prefixlen && s[4..][..4] == Le32(index)
  {
    hide Le32;
  }

  /** An address of the length its family has. */
  predicate IsAddr(family: byte, p: Option<seq<byte>>) {
    p.Some? ==> |p.value| == if family == 2 then 4 else 16
  }

  lemma AddrRead(rest: seq<byte>, ts: seq<Tlv>, k: nat, family: byte, len: nat, p: Option<seq<byte>>)
    requires Tlvs(Parse(rest, 0)) == ts && Told(ts, k) == p && IsAddr(family, p)
    ensures var at := At(LastOf(Parse(rest, 0), k));
      && (p.None? <==> at.None?)
      && (p.Some? ==> AddrAt(family, len, rest, at.value) == Addr(family, len, p.value))
  {
    hide Parse, LastOf, Told, Window;
    ReadAt(rest, ts, k);
  }

  lemma ByteAt(b: seq<byte>, from: nat, fixed: seq<byte>, k: nat)
    requires from + |fixed| <= |b| && b[from..from + |fixed|] == fixed && k < |fixed|
    ensures b[from + k] == fixed[k]
  {
    assert fixed[k] == b[from..from + |fixed|][k];
  }

  /** An IPv4 or IPv6 address message with the wanted index gives the interface its local address, or its
      interface address when that is the only one; a differing interface address beside a local one is the
      peer's. Any other message is skipped. */
  lemma AddressReadsBack(h: seq<byte>, family: byte, prefixlen: byte, flags: byte, scope: byte, index: nat,
                         ts: seq<Tlv>, local: Option<seq<byte>>, address: Option<seq<byte>>, wanted: nat)
    requires |h| == HEADER && U32(h) == HEADER && Attributes(ts) && index < 0x1_0000_0000
    requires Told(ts, 2) == local && IsAddr(family, local) && Told(ts, 1) == address && IsAddr(family, address)
    ensures Judge(Built(h, AddrPart(family, prefixlen, flags, scope, index), ts), wanted) ==
      if TypeOf(h) != 20 || index != wanted || (family != 2 && family != 10) || (local.None? && address.None?) then Skip
      else
        var own := if local.Some? then local.value else address.value;
        Holds(IfAddr(Addr(family, prefixlen, own),
          if address.None? || address.value == own then None else Some(Addr(family, prefixlen, address.value))))
  {
    hide Built, Parse, LastOf, Told, U32, U16, AddrPart, Tlvs, Le32, Rest, AddrAt, IsAddr;
    var fixed := AddrPart(family, prefixlen, flags, scope, index);
    var b := Built(h, fixed, ts);
    ReadParts(h, fixed, ts);
    var rest := Rest(b, HEADER + IFADDRMSG);
    AddrPartFields(family, prefixlen, flags, scope, index);
    Part(b, HEADER, fixed, 4, 4);
    U32Prefix(b[HEADER + 4..], Le32(index));
    ByteAt(b, HEADER, fixed, 0);
    ByteAt(b, HEADER, fixed, 1);
    AddrRead(rest, ts, IFA_LOCAL, family, prefixlen, local);
    AddrRead(rest, ts, IFA_ADDRESS, family, prefixlen, address);
  }

  // ----- route messages

  /** rtmsg; the flags are not looked at */
  function RoutePart(family: byte, dstLen: byte, srcLen: byte, tos: byte, table: byte, protocol: byte, scope: byte,
                     kind: byte, flags: nat): (s: seq<byte>)
    ensures |s| == RTMSG
    ensures s[..8] == [family, dstLen, srcLen, tos, table, protocol, scope, kind]
  {
    [family, dstLen, srcLen, tos, table, protocol, scope, kind] + Le32(flags)
  }

  lemma RouteBytes(b: seq<byte>, fixed: seq<byte>, head: seq<byte>)
    requires HEADER + |fixed| <= |b| && b[HEADER..HEADER + |fixed|] == fixed && |fixed| >= 8 && fixed[..8] == head
    ensures b[HEADER] == head[0] && b[HEADER + 1] == head[1] && b[HEADER + 2] == head[2] && b[HEADER + 3] == head[3]
    ensures b[HEADER + 4] == head[4] && b[HEADER + 5] == head[5] && b[HEADER + 6] == head[6] && b[HEADER + 7] == head[7]
  {
    forall k | 0 <= k < 8 ensures b[HEADER + k] == head[k] {
      ByteAt(b, HEADER, fixed, k);
      assert fixed[k] == fixed[..8][k];
    }
  }

  function Gateway(family: byte, p: Option<seq<byte>>): Option<(nat, seq<byte>)> {
    match p
    case None => None
    case Some(s) => Some((family, s))
  }

  function Network(family: byte, len: byte, p: Option<seq<byte>>): Option<Addr> {
    match p
    case None => None
    case Some(s) => Some(Addr(family, len, s))
  }

  /** A route message reads back as what was written: the bytes of its fixed part, the addresses with their
      prefix lengths, the indexes of its interfaces, its priority, and the low byte of the table's id, which
      an attribute can give in place of the fixed part. */
  lemma RouteReadsBack(h: seq<byte>, family: byte, dstLen: byte, srcLen: byte, tos: byte, table: byte, protocol: byte,
                       scope: byte, kind: byte, flags: nat, ts: seq<Tlv>, wide: Option<nat>, dst: Option<seq<byte>>,
                       src: Option<seq<byte>>, gw: Option<seq<byte>>, prefsrc: Option<seq<byte>>, oif: Option<nat>,
                       iif: Option<nat>, priority: Option<nat>)
    requires |h| == HEADER && U32(h) == HEADER && Attributes(ts)
    requires Told(ts, 1) == dst && IsAddr(family, dst) && Told(ts, 2) == src && IsAddr(family, src)
    requires Told(ts, 5) == gw && IsAddr(family, gw) && Told(ts, 7) == prefsrc && IsAddr(family, prefsrc)
    requires Told(ts, 3) == Word(iif) && IsWord(iif) && Told(ts, 4) == Word(oif) && IsWord(oif)
    requires Told(ts, 6) == Word(priority) && IsWord(priority) && Told(ts, 15) == Word(wide) && IsWord(wide)
    ensures RouteFrom(Built(h, RoutePart(family, dstLen, srcLen, tos, table, protocol, scope, kind, flags), ts)) ==
      if TypeOf(h) != 24 then None
      else Some(Route(
        family, protocol, scope, tos, kind, Or(wide, table) % 0x100, Network(family, srcLen, src),
        Network(family, dstLen, dst), Gateway(family, gw), Gateway(family, prefsrc), Or(oif, 0), Or(iif, 0),
        Or(priority, 0), None, None))
  {
    hide Built, Parse, LastOf, Told, U32, U16, WordOr, RoutePart, Tlvs, Le32, Rest, AddrAt, IsAddr, Word;
    var fixed := RoutePart(family, dstLen, srcLen, tos, table, protocol, scope, kind, flags);
    var b := Built(h, fixed, ts);
    ReadParts(h, fixed, ts);
    var rest := Rest(b, HEADER + RTMSG);
    var xs := Parse(rest, 0);
    RouteBytes(b, fixed, [family, dstLen, srcLen, tos, table, protocol, scope, kind]);
    AddrRead(rest, ts, RTA_DST, family, dstLen, dst);
    AddrRead(rest, ts, RTA_SRC, family, srcLen, src);
    AddrRead(rest, ts, RTA_GATEWAY, family, 0, gw);
    AddrRead(rest, ts, RTA_PREFSRC, family, 0, prefsrc);
    WordRead(rest, ts, RTA_IIF, iif, 0);
    WordRead(rest, ts, RTA_OIF, oif, 0);
    WordRead(rest, ts, RTA_PRIORITY, priority, 0);
    WordRead(rest, ts, RTA_TABLE, wide, table);
    assert Prefix(family, dstLen, rest, At(LastOf(xs, RTA_DST))) == Network(family, dstLen, dst);
    assert Prefix(family, srcLen, rest, At(LastOf(xs, RTA_SRC))) == Network(family, srcLen, src);
    assert Host(family, rest, At(LastOf(xs, RTA_GATEWAY))) == Gateway(family, gw);
    assert Host(family, rest, At(LastOf(xs, RTA_PREFSRC))) == Gateway(family, prefsrc);
  }
}
