/** Netlink attributes (RFC 3549, section 2.2: type-length-value): the iteration macro of
    netlink.h over arbitrary bytes, the attribute tables, and the way back from nla_put. */
module Attrs {
  import opened Bytes
  import opened Common
  import opened NlMsg

  const NLA_HEADER := 4

  datatype Tlv = Tlv(typ: nat, payload: seq<byte>)

  /** An attribute and its position. */
  datatype Attr = Attr(at: nat, tlv: Tlv)

  // ----- iteration

  /** The macro's condition: an attribute fits at `it`. All reads are inside `s`. */
  predicate OnAttr(s: seq<byte>, it: nat) {
    |s| - it >= NLA_HEADER && U16(s[it..]) >= NLA_HEADER && U16(s[it..]) <= |s| - it
  }

  function AttrAt(s: seq<byte>, it: nat): (a: Attr)
    requires OnAttr(s, it)
    ensures a.at + NLA_HEADER + |a.tlv.payload| <= |s|
  {
    Attr(it, Tlv(U16(s[it + 2..]), s[it + NLA_HEADER..it + U16(s[it..])]))
  }

  function Next(a: Attr): (n: nat)
    ensures n > a.at
  {
    a.at + Align4(NLA_HEADER + |a.tlv.payload|)
  }

  /** Everything the loop visits when it starts at `it`. */
  function Parse(s: seq<byte>, it: nat): (xs: seq<Attr>)
    decreases |s| - it
  {
    if OnAttr(s, it) then [AttrAt(s, it)] + Parse(s, Next(AttrAt(s, it))) else []
  }

  /** `xs` are attributes of `s`, the first at `it`, each at the aligned end of the one before,
      and no attribute fits where the last one ends. */
  ghost predicate Chain(s: seq<byte>, it: nat, xs: seq<Attr>) {
    && (forall k :: 0 <= k < |xs| ==> OnAttr(s, xs[k].at) && AttrAt(s, xs[k].at) == xs[k])
    && (forall k :: 0 <= k < |xs| - 1 ==> xs[k + 1].at == Next(xs[k]))
    && (|xs| > 0 ==> xs[0].at == it)
    && !OnAttr(s, if xs == [] then it else Next(xs[|xs| - 1]))
  }

  lemma ChainStart(s: seq<byte>, it: nat, xs: seq<Attr>)
    ensures xs == [] ==> (Chain(s, it, xs) <==> !OnAttr(s, it))
    ensures xs != [] && Chain(s, it, xs) ==> OnAttr(s, it) && xs[0] == AttrAt(s, it)
  {
  }

  lemma ParseOnce(s: seq<byte>, it: nat, xs: seq<Attr>)
    requires OnAttr(s, it) && xs != []
    ensures xs == Parse(s, it) <==> xs[0] == AttrAt(s, it) && xs[1..] == Parse(s, Next(AttrAt(s, it)))
  {
    assert xs == [xs[0]] + xs[1..];
  }

  /** On every byte string there is exactly one such chain, and the loop visits it. */
  lemma {:induction false} ParseMeaning(s: seq<byte>, it: nat, xs: seq<Attr>)
    ensures Chain(s, it, xs) <==> xs == Parse(s, it)
    decreases |s| - it
  {
    hide Chain;
    ChainStart(s, it, xs);
    if OnAttr(s, it) && xs != [] {
      var a := AttrAt(s, it);
      ParseOnce(s, it, xs);
      if xs[0] == a {
        ParseMeaning(s, Next(a), xs[1..]);
        ChainTail(s, it, xs);
      }
    }
  }

  lemma ChainTail(s: seq<byte>, it: nat, xs: seq<Attr>)
    requires xs != [] && OnAttr(s, it) && xs[0] == AttrAt(s, it)
    ensures Chain(s, it, xs) <==> Chain(s, Next(xs[0]), xs[1..])
  {
    var t := xs[1..];
    if Chain(s, Next(xs[0]), t) {
      forall k | 0 <= k < |xs| ensures OnAttr(s, xs[k].at) && AttrAt(s, xs[k].at) == xs[k] {
        assert k > 0 ==> xs[k] == t[k - 1];
      }
      forall k | 0 <= k < |xs| - 1 ensures xs[k + 1].at == Next(xs[k]) {
        assert k > 0 ==> t[k - 1 + 1].at == Next(t[k - 1]);
      }
    }
  }

  // ----- tables

  /** The last attribute of type `k`. */
  function LastOf(xs: seq<Attr>, k: nat): Option<Attr> {
    if xs == [] then None
    else if xs[|xs| - 1].tlv.typ == k then Some(xs[|xs| - 1])
    else LastOf(xs[..|xs| - 1], k)
  }

  lemma {:induction false} LastOfMeaning(xs: seq<Attr>, k: nat)
    ensures LastOf(xs, k).None? <==> forall i :: 0 <= i < |xs| ==> xs[i].tlv.typ != k
    ensures LastOf(xs, k).Some? ==>
      exists i :: 0 <= i < |xs| && xs[i] == LastOf(xs, k).value && xs[i].tlv.typ == k
        && forall j :: i < j < |xs| ==> xs[j].tlv.typ != k
  {
    if xs != [] {
      var init := xs[..|xs| - 1];
      LastOfMeaning(init, k);
      if xs[|xs| - 1].tlv.typ == k {
        assert xs[|xs| - 1] == LastOf(xs, k).value;
      } else if LastOf(xs, k).Some? {
        var i :| 0 <= i < |init| && init[i] == LastOf(init, k).value && init[i].tlv.typ == k
          && forall j :: i < j < |init| ==> init[j].tlv.typ != k;
        assert xs[i] == init[i];
        forall j | i < j < |xs| ensures xs[j].tlv.typ != k {
          assert j < |init| ==> xs[j] == init[j];
        }
      }
    }
  }

  function At(a: Option<Attr>): Option<nat> {
    match a
    case None => None
    case Some(x) => Some(x.at)
  }

  ghost predicate Filled(tb: seq<Option<nat>>, xs: seq<Attr>) {
    forall k :: 0 <= k < |tb| ==> tb[k] == At(LastOf(xs, k))
  }

  lemma FilledStep(tb: seq<Option<nat>>, xs: seq<Attr>, a: Attr)
    requires Filled(tb, xs)
    ensures Filled(if a.tlv.typ < |tb| then tb[a.tlv.typ := Some(a.at)] else tb, xs + [a])
  {
    assert (xs + [a])[..|xs|] == xs;
  }

  lemma FilledStart(tb: seq<Option<nat>>)
    requires forall k :: 0 <= k < |tb| ==> tb[k] == None
    ensures Filled(tb, [])
  {
  }

  lemma FilledEnd(tb: seq<Option<nat>>, xs: seq<Attr>)
    requires Filled(tb, xs)
    ensures forall k :: 0 <= k < |tb| ==> tb[k] == At(LastOf(xs, k))
  {
  }

  lemma OnAttrFacts(s: seq<byte>, it: nat)
    requires OnAttr(s, it)
    ensures it + NLA_HEADER <= |s| && AttrAt(s, it).at == it && AttrAt(s, it).tlv.typ == U16(s[it + 2..])
    ensures Next(AttrAt(s, it)) == it + Align4(U16(s[it..])) && it < Next(AttrAt(s, it))
  {
  }

  lemma ParseEnd(s: seq<byte>, it: nat, seen: seq<Attr>)
    requires !OnAttr(s, it) && seen + Parse(s, it) == Parse(s, 0)
    ensures seen == Parse(s, 0)
  {
    assert seen + [] == seen;
  }

  lemma ParseStep(s: seq<byte>, it: nat, seen: seq<Attr>)
    requires OnAttr(s, it) && seen + Parse(s, it) == Parse(s, 0)
    ensures seen + [AttrAt(s, it)] + Parse(s, Next(AttrAt(s, it))) == Parse(s, 0)
  {
  }

  /** nlmsg_attrs on the rest of a message, nla_nested_attrs on a payload: the table maps every type
      up to `max` to the position of its last occurrence. */
  method AttrTable(s: seq<byte>, max: nat) returns (tb: array<Option<nat>>)
    ensures fresh(tb) && tb.Length == max + 1
    ensures forall k :: 0 <= k <= max ==> tb[k] == At(LastOf(Parse(s, 0), k))
  {
    hide Parse, LastOf, Filled, Align4, OnAttr;
    tb := new Option<nat>[max + 1](_ => None);
    var it := 0;
    ghost var seen: seq<Attr> := [];
    FilledStart(tb[..]);
    while OnAttr(s, it)
      invariant seen + Parse(s, it) == Parse(s, 0) && Filled(tb[..], seen)
      decreases |s| - it
    {
      OnAttrFacts(s, it);
      var nlaLen, nlaType := U16(s[it..]), U16(s[it + 2..]);
      ghost var a := AttrAt(s, it);
      ParseStep(s, it, seen);
      FilledStep(tb[..], seen, a);
      if nlaType <= max {
        tb[nlaType] := Some(it);
      }
      seen := seen + [a];
      it := it + Align4(nlaLen);
    }
    ParseEnd(s, it, seen);
    FilledEnd(tb[..], seen);
  }

  // ----- writing

  /** The bytes of an attribute before alignment; the length field has 16 bits. */
  function Encode(t: Tlv): (s: seq<byte>)
    ensures |s| == NLA_HEADER + |t.payload|
  {
    Le16(|t.payload| + NLA_HEADER) + Le16(t.typ) + t.payload
  }

  /** nla_put is two calls of nlmsg_put. */
  function Pieces(ts: seq<Tlv>): seq<Piece> {
    if ts == [] then []
    else [Piece(Le16(|ts[0].payload| + NLA_HEADER) + Le16(ts[0].typ), 0), Piece(ts[0].payload, 0)] + Pieces(ts[1..])
  }

  /** Attributes one after the other, each but the last padded. */
  function EncodeAll(ts: seq<Tlv>): seq<byte> {
    if ts == [] then []
    else if |ts| == 1 then Encode(ts[0])
    else Encode(ts[0]) + Zeros(Align4(|Encode(ts[0])|) - |Encode(ts[0])|) + EncodeAll(ts[1..])
  }

  function Tlvs(xs: seq<Attr>): (ts: seq<Tlv>)
    ensures |ts| == |xs| && forall k :: 0 <= k < |xs| ==> ts[k] == xs[k].tlv
  {
    if xs == [] then [] else [xs[0].tlv] + Tlvs(xs[1..])
  }

  /** The length field can tell the payload's length. */
  predicate Encodable(t: Tlv) {
    |t.payload| <= 65531
  }

  // ----- the way back

  lemma TlvsCons(x: Attr, xs: seq<Attr>)
    ensures Tlvs([x] + xs) == [x.tlv] + Tlvs(xs)
  {
    assert ([x] + xs)[1..] == xs;
  }

  /** Parsing does not depend on what is in front. */
  lemma {:induction false} ParseShift(a: seq<byte>, s: seq<byte>, it: nat)
    ensures Tlvs(Parse(a + s, |a| + it)) == Tlvs(Parse(s, it))
    decreases |s| - it
  {
    hide Tlvs, AttrAt;
    if it <= |s| {
      SameBytes(a, s, it);
      if OnAttr(s, it) {
        var x, y := AttrAt(s, it), AttrAt(a + s, |a| + it);
        ParseShift(a, s, Next(x));
        TlvsCons(x, Parse(s, Next(x)));
        TlvsCons(y, Parse(a + s, Next(y)));
      }
    }
  }

  lemma SameBytes(a: seq<byte>, s: seq<byte>, it: nat)
    requires it <= |s|
    ensures OnAttr(a + s, |a| + it) <==> OnAttr(s, it)
    ensures OnAttr(s, it) ==> AttrAt(s, it).at == it
    ensures OnAttr(s, it) ==>
      AttrAt(a + s, |a| + it).tlv == AttrAt(s, it).tlv && Next(AttrAt(a + s, |a| + it)) == |a| + Next(AttrAt(s, it))
  {
    assert (a + s)[|a| + it..] == s[it..];
    if OnAttr(s, it) {
      assert (a + s)[|a| + it + 2..] == s[it + 2..];
      var l := U16(s[it..]);
      assert (a + s)[|a| + it + NLA_HEADER..|a| + it + l] == s[it + NLA_HEADER..it + l];
    }
  }

  lemma WordShift(s: seq<byte>, t: seq<byte>, k: nat)
    requires k + 2 <= |s| && k + 2 <= |t| && s[k] == t[k] && s[k + 1] == t[k + 1]
    ensures U16(s[k..]) == U16(t[k..])
  {
  }

  /** What the loop finds first in the encoding of `t` followed by anything. */
  lemma FirstOfEncoding(t: Tlv, rest: seq<byte>)
    requires t.typ < 0x1_0000
    ensures var s := Encode(t) + rest; var l := (|t.payload| + NLA_HEADER) % 0x1_0000;
      && (OnAttr(s, 0) <==> l >= NLA_HEADER)
      && (OnAttr(s, 0) ==> AttrAt(s, 0) == Attr(0, Tlv(t.typ, t.payload[..l - NLA_HEADER])))
  {
    var s := Encode(t) + rest;
    var l := (|t.payload| + NLA_HEADER) % 0x1_0000;
    assert s[0..] == s;
    WordShift(s, Le16(|t.payload| + NLA_HEADER), 0);
    assert Le16(|t.payload| + NLA_HEADER)[0..] == Le16(|t.payload| + NLA_HEADER);
    assert s[2] == Le16(t.typ)[0] && s[3] == Le16(t.typ)[1];
    assert U16(s[2..]) == U16(Le16(t.typ));
    if l >= NLA_HEADER {
      assert s[NLA_HEADER..l] == t.payload[..l - NLA_HEADER];
    }
  }

  lemma ParseOne(s: seq<byte>, t: Tlv)
    requires OnAttr(s, 0) && AttrAt(s, 0) == Attr(0, t)
    ensures Tlvs(Parse(s, 0)) == [t] + Tlvs(Parse(s, Next(Attr(0, t))))
  {
    TlvsCons(Attr(0, t), Parse(s, Next(Attr(0, t))));
  }

  /** An attribute that is padded, then the rest. */
  lemma ParseHead(t: Tlv, rest: seq<byte>)
    requires t.typ < 0x1_0000 && Encodable(t)
    ensures var front := Encode(t) + Zeros(Align4(|Encode(t)|) - |Encode(t)|);
      Tlvs(Parse(front + rest, 0)) == [t] + Tlvs(Parse(rest, 0))
  {
    hide Encode, Tlvs, Parse, OnAttr, AttrAt;
    var pad := Zeros(Align4(|Encode(t)|) - |Encode(t)|);
    var front := Encode(t) + pad;
    FirstOfEncoding(t, pad + rest);
    assert Encode(t) + (pad + rest) == front + rest;
    assert t.payload[..|t.payload|] == t.payload;
    ParseOne(front + rest, t);
    assert |front| == Next(Attr(0, t));
    ParseShift(front, rest, 0);
  }

  /** The last attribute is not padded. */
  lemma ParseSingle(t: Tlv)
    requires t.typ < 0x1_0000 && Encodable(t)
    ensures Tlvs(Parse(Encode(t), 0)) == [t]
  {
    hide Encode;
    FirstOfEncoding(t, []);
    assert Encode(t) + [] == Encode(t);
    assert t.payload[..|t.payload|] == t.payload;
    TlvsCons(Attr(0, t), []);
    assert !OnAttr(Encode(t), Next(Attr(0, t)));
  }

  /** An attribute too long for its length field is lost or shortened. */
  lemma ParseCut(t: Tlv, rest: seq<byte>)
    requires t.typ < 0x1_0000 && !Encodable(t)
    ensures var ts := Tlvs(Parse(Encode(t) + rest, 0)); ts == [] || |ts[0].payload| < |t.payload|
  {
    hide Encode;
    FirstOfEncoding(t, rest);
  }

  ghost predicate AllEncodable(ts: seq<Tlv>) {
    forall k :: 0 <= k < |ts| ==> Encodable(ts[k])
  }

  lemma AllEncodableCons(ts: seq<Tlv>)
    requires ts != []
    ensures AllEncodable(ts) <==> Encodable(ts[0]) && AllEncodable(ts[1..])
  {
    if Encodable(ts[0]) && AllEncodable(ts[1..]) {
      forall k | 0 <= k < |ts| ensures Encodable(ts[k]) {
        assert k > 0 ==> Encodable(ts[1..][k - 1]);
      }
    }
  }

  /** Reading an encoded list back gives the list exactly when every payload's length fits the
      length field. */
  lemma {:induction false} EncodingParses(ts: seq<Tlv>)
    requires forall k :: 0 <= k < |ts| ==> ts[k].typ < 0x1_0000
    ensures Tlvs(Parse(EncodeAll(ts), 0)) == ts <==> AllEncodable(ts)
    decreases ts
  {
    hide Encode, Parse, Encodable, Align4;
    if ts == [] {
      ParseNothing();
    } else {
      var t, tail := ts[0], ts[1..];
      AlignFacts(|Encode(t)|);
      var pad := Zeros(Align4(|Encode(t)|) - |Encode(t)|);
      AllEncodableCons(ts);
      assert ts == [t] + tail;
      if !Encodable(t) {
        ParseCut(t, if tail == [] then [] else pad + EncodeAll(tail));
        assert EncodeAll(ts) == Encode(t) + (if tail == [] then [] else pad + EncodeAll(tail));
      } else if tail == [] {
        ParseSingle(t);
      } else {
        ParseHead(t, EncodeAll(tail));
        EncodingParses(tail);
      }
    }
  }

  lemma ParseNothing()
    ensures Tlvs(Parse([], 0)) == []
  {
  }

  lemma PiecesCons(t: Tlv, rest: seq<Tlv>)
    ensures var ps := Pieces([t] + rest);
      && |ps| >= 2 && ps[0] == Piece(Le16(|t.payload| + NLA_HEADER) + Le16(t.typ), 0)
      && ps[1..] == [Piece(t.payload, 0)] + Pieces(rest)
  {
    assert ([t] + rest)[1..] == rest;
  }

  lemma LayoutCons(n: nat, p: Piece, ps: seq<Piece>)
    ensures Layout(n, [p] + ps) == Chunk(n, p.data, p.padding) + Layout(n + |Chunk(n, p.data, p.padding)|, ps)
  {
    assert ([p] + ps)[1..] == ps;
  }

  lemma PlainChunk(n: nat, data: seq<byte>)
    ensures Align4(n) >= n && Chunk(n, data, 0) == Zeros(Align4(n) - n) + data
  {
  }

  /** The two puts for one attribute behind a message of `m` bytes. */
  lemma LayoutOne(m: nat, t: Tlv, rest: seq<Tlv>)
    ensures Layout(m, Pieces([t] + rest)) ==
      (Zeros(Align4(m) - m) + Encode(t)) + Layout(Align4(m) + |Encode(t)|, Pieces(rest))
  {
    hide Align4, Layout, Chunk, Pieces, Le16;
    AlignFacts(m);
    AlignSum(Align4(m), NLA_HEADER);
    AlignFacts(NLA_HEADER);
    var hdr := Le16(|t.payload| + NLA_HEADER) + Le16(t.typ);
    var ps := Pieces([t] + rest);
    var z := Zeros(Align4(m) - m);
    var q := Align4(m) + NLA_HEADER;
    PiecesCons(t, rest);
    assert ps == [ps[0]] + ps[1..];
    LayoutCons(m, ps[0], ps[1..]);
    LayoutCons(q, Piece(t.payload, 0), Pieces(rest));
    PlainChunk(m, hdr);
    PlainChunk(q, t.payload);
    assert Zeros(0) + t.payload == t.payload;
    Regroup(z + hdr, t.payload, Layout(q + |t.payload|, Pieces(rest)));
    Regroup(z, hdr, t.payload);
  }

  /** What the two puts of every attribute leave behind a message of `m` bytes. */
  lemma {:induction false} LayoutIsEncoding(m: nat, ts: seq<Tlv>)
    ensures Layout(m, Pieces(ts)) == if ts == [] then [] else Zeros(Align4(m) - m) + EncodeAll(ts)
    decreases ts
  {
    hide Align4, Encode, Layout;
    AlignFacts(m);
    if ts == [] {
      LayoutNone(m);
    } else {
      var t, tail := ts[0], ts[1..];
      var q := Align4(m) + |Encode(t)|;
      assert ts == [t] + tail;
      LayoutOne(m, t, tail);
      AlignSum(Align4(m), |Encode(t)|);
      AlignFacts(|Encode(t)|);
      LayoutIsEncoding(q, tail);
      var z := Zeros(Align4(m) - m);
      if tail == [] {
        assert (z + Encode(t)) + [] == z + Encode(t);
      } else {
        var pad := Zeros(Align4(q) - q);
        Regroup(z, Encode(t), pad + EncodeAll(tail));
        Regroup(Encode(t), pad, EncodeAll(tail));
      }
    }
  }

  /** What is left of a message after its fixed part. */
  function Rest(b: seq<byte>, start: nat): seq<byte> {
    if start <= |b| then b[start..] else []
  }

  /** A message made by a header, a fixed part of any size and attributes, read back: the fixed
      part is there, and the loop over what follows gives exactly the attributes put, exactly when
      no payload is longer than 65531 bytes. */
  lemma RoundTrip(h: seq<byte>, fixed: Piece, ts: seq<Tlv>)
    requires |h| == HEADER && U32(h) == HEADER
    requires forall k :: 0 <= k < |ts| ==> ts[k].typ < 0x1_0000
    ensures var b := AddedAll(h, [fixed] + Pieces(ts));
      var n := |fixed.data| + fixed.padding; var start := HEADER + Align4(n);
      && Steps(|b|, HEADER, [Forth(n)]) == Some(start)
      && HEADER + n <= |b| && b[HEADER..HEADER + n] == fixed.data + Zeros(fixed.padding)
      && (Tlvs(Parse(Rest(b, start), 0)) == ts <==> AllEncodable(ts))
  {
    hide AddedAll, Parse, Tlvs, EncodeAll, Pieces, AllEncodable, Align4;
    var b := AddedAll(h, [fixed] + Pieces(ts));
    var n := |fixed.data| + fixed.padding;
    var start := HEADER + Align4(n);
    MessageIs(h, fixed, ts);
    AlignSum(HEADER, n);
    AlignFacts(n);
    assert [Forth(n)][1..] == [];
    if ts == [] {
      Unpack(b, h, fixed.data + Zeros(fixed.padding), [], []);
      assert Rest(b, start) == [];
      EmptyList();
    } else {
      Unpack(b, h, fixed.data + Zeros(fixed.padding), Zeros(Align4(HEADER + n) - (HEADER + n)), EncodeAll(ts));
      EncodingParses(ts);
    }
  }

  lemma EmptyList()
    ensures Tlvs(Parse([], 0)) == [] && AllEncodable([])
  {
  }

  /** The bytes of the message, the length field apart. */
  lemma MessageIs(h: seq<byte>, fixed: Piece, ts: seq<Tlv>)
    requires |h| == HEADER && U32(h) == HEADER
    ensures var b := AddedAll(h, [fixed] + Pieces(ts)); var n := |fixed.data| + fixed.padding;
      && Align4(HEADER + n) >= HEADER + n
      && b[4..] == h[4..] + ((fixed.data + Zeros(fixed.padding))
           + (if ts == [] then [] else Zeros(Align4(HEADER + n) - (HEADER + n)) + EncodeAll(ts)))
  {
    hide AddedAll, EncodeAll, Pieces, Layout, Align4;
    var n := |fixed.data| + fixed.padding;
    AddedAllMeaning(h, [fixed] + Pieces(ts));
    AlignFacts(HEADER + n);
    FirstChunk(fixed, Pieces(ts));
    LayoutIsEncoding(HEADER + n, ts);
  }

  lemma FirstChunk(p: Piece, ps: seq<Piece>)
    ensures Layout(HEADER, [p] + ps) == (p.data + Zeros(p.padding)) + Layout(HEADER + |p.data| + p.padding, ps)
  {
    var qs := [p] + ps;
    assert qs[0] == p && qs[1..] == ps;
    assert Chunk(HEADER, p.data, p.padding) == p.data + Zeros(p.padding);
  }

  lemma Unpack(b: seq<byte>, h: seq<byte>, body: seq<byte>, gap: seq<byte>, tail: seq<byte>)
    requires |b| >= 4 && |h| == HEADER && b[4..] == h[4..] + (body + (gap + tail))
    ensures |b| == HEADER + |body| + |gap| + |tail|
    ensures b[HEADER..HEADER + |body|] == body && b[HEADER + |body| + |gap|..] == tail
  {
    assert b[HEADER..] == b[4..][HEADER - 4..];
    assert b[HEADER..] == body + (gap + tail);
    assert b[HEADER..HEADER + |body|] == b[HEADER..][..|body|];
    assert b[HEADER + |body| + |gap|..] == b[HEADER..][|body| + |gap|..];
  }

  /** nla_put */
  method NlaPut(m: Message, t: Tlv)
    requires m.Valid() && m.Sized() && m.len >= HEADER && Align4(m.len) + NLA_HEADER + |t.payload| < LIMIT
    modifies m`buf, m`room, m`len, m.buf
    ensures m.Valid() && m.Sized() && m.len >= HEADER && (m.buf == old(m.buf) || fresh(m.buf))
    ensures m.Content() == AddedAll(old(m.Content()), Pieces([t]))
  {
    hide Fit, Align4, Added, AddedAll, Le16;
    ghost var s := m.Content();
    var a := Piece(Le16(|t.payload| + NLA_HEADER) + Le16(t.typ), 0);
    var b := Piece(t.payload, 0);
    AlignFacts(m.len);
    AlignFacts(NLA_HEADER);
    AlignSum(Align4(m.len), NLA_HEADER);
    m.Put(a);
    m.Put(b);
    AddedTwo(s, a, b);
    PiecesCons(t, []);
    assert [t] + [] == [t];
    assert Pieces([t]) == [a, b];
  }

  lemma AddedTwo(s: seq<byte>, a: Piece, b: Piece)
    requires |s| >= 4
    ensures AddedAll(s, [a, b]) == Added(Added(s, a), b)
  {
    assert [a, b][..1] == [a] && [a][..0] == [];
    assert AddedAll(s, [a]) == Added(AddedAll(s, []), a);
  }

  /** nlmsg_attrs */
  method MsgAttrs(m: Message, max: nat) returns (tb: array<Option<nat>>)
    requires m.Valid()
    ensures fresh(tb) && tb.Length == max + 1
    ensures forall k :: 0 <= k <= max ==> tb[k] == At(LastOf(Parse(Rest(m.Content(), m.start), 0), k))
  {
    var rest := if m.start <= m.len then m.buf[m.start..m.len] else [];
    assert rest == Rest(m.Content(), m.start);
    tb := AttrTable(rest, max);
  }
}
