/** The growable message buffer of netlink.c (struct nlmsg): appending with alignment, the
    length kept in the message header (RFC 3549, section 2.3.2), and the get/unget cursor. */
module NlMsg {
  import opened Bytes
  import opened Common

  const BASIC_SIZE := 16384
  const HEADER := 16
  const F_REQUEST := 1

  // ----- what the operations mean, on byte strings

  /** The smallest number of the form a * 2^k that is at least `need`. */
  function Fit(a: nat, need: nat): (n: nat)
    requires a > 0
    ensures n >= need && n >= a
    decreases need - a
  {
    if a >= need then a else Fit(2 * a, need)
  }

  predicate Doubled(a: nat, n: nat)
    requires a > 0
    decreases n
  {
    n == a || (n > a && n % 2 == 0 && Doubled(a, n / 2))
  }

  lemma {:induction false} FitIsDoubled(a: nat, b: nat, need: nat)
    requires a > 0 && Doubled(a, b) && b > 0
    ensures Doubled(a, Fit(b, need))
    decreases need - b
  {
    if b < need {
      FitIsDoubled(a, 2 * b, need);
    }
  }

  /** `Fit` is the least doubling that suffices: it is one, and half of it would not do. */
  lemma {:induction false} FitIsLeast(a: nat, need: nat)
    requires a > 0
    ensures Fit(a, need) == a || (Fit(a, need) % 2 == 0 && Fit(a, need) / 2 < need)
    decreases need - a
  {
    if a < need && 2 * a < need {
      FitIsLeast(2 * a, need);
    }
  }

  /** Growing in steps ends where growing at once does. */
  lemma {:induction false} FitSteps(a: nat, m: nat, n: nat)
    requires a > 0 && m <= n
    ensures Fit(Fit(a, m), n) == Fit(a, n)
    decreases m - a
  {
    if a < m {
      FitSteps(2 * a, m, n);
    }
  }

  /** What nlmsg_put_raw appends to a message of `n` bytes. */
  function Chunk(n: nat, data: seq<byte>, padding: nat): (c: seq<byte>)
    ensures n + |c| == Align4(n) + |data| + padding
  {
    Zeros(Align4(n) - n) + data + Zeros(padding)
  }

  /** nlmsg_len := the length of the message. */
  function SetLen(s: seq<byte>): (r: seq<byte>)
    requires |s| >= 4
    ensures |r| == |s| && r[4..] == s[4..] && U32(r) == |s| % 0x1_0000_0000
  {
    var r := Le32(|s|) + s[4..];
    U32Prefix(r, Le32(|s|));
    r
  }

  /** One call of nlmsg_put or nlmsg_put_padded. */
  datatype Piece = Piece(data: seq<byte>, padding: nat)

  /** The message must have room for its length field. */
  function Added(s: seq<byte>, p: Piece): (r: seq<byte>)
    requires |s| >= 4
    ensures |r| == Align4(|s|) + |p.data| + p.padding
  {
    SetLen(s + Chunk(|s|, p.data, p.padding))
  }

  function AddedAll(s: seq<byte>, ps: seq<Piece>): (r: seq<byte>)
    requires |s| >= 4
    ensures |r| >= |s|
  {
    if ps == [] then s else Added(AddedAll(s, ps[..|ps| - 1]), ps[|ps| - 1])
  }

  /** Where the pieces end up when they are laid out one after the other from position `n`. */
  function Layout(n: nat, ps: seq<Piece>): seq<byte>
    decreases ps
  {
    if ps == [] then []
    else
      var c := Chunk(n, ps[0].data, ps[0].padding);
      c + Layout(n + |c|, ps[1..])
  }

  lemma {:induction false} LayoutConcat(n: nat, a: seq<Piece>, b: seq<Piece>)
    ensures Layout(n, a + b) == Layout(n, a) + Layout(n + |Layout(n, a)|, b)
    decreases a
  {
    hide Chunk;
    if a == [] {
      assert a + b == b;
    } else {
      var c := Chunk(n, a[0].data, a[0].padding);
      assert (a + b)[0] == a[0] && (a + b)[1..] == a[1..] + b;
      LayoutConcat(n + |c|, a[1..], b);
      Regroup(c, Layout(n + |c|, a[1..]), Layout(n + |Layout(n, a)|, b));
    }
  }

  /** Over any run of puts: apart from the length field nothing already written changes, what
      is added is the pieces, each at the next multiple of four with zeros in the gap before and
      as padding after it, and the length field always holds the length. */
  lemma {:induction false} AddedAllMeaning(s: seq<byte>, ps: seq<Piece>)
    requires |s| >= 4 && U32(s) == |s| % 0x1_0000_0000
    ensures var r := AddedAll(s, ps);
      && r[4..] == s[4..] + Layout(|s|, ps) && U32(r) == |r| % 0x1_0000_0000
  {
    hide Chunk, SetLen, Align4, Layout;
    if ps == [] {
      LayoutNone(|s|);
    } else {
      var init := ps[..|ps| - 1];
      var p := ps[|ps| - 1];
      AddedAllMeaning(s, init);
      var q := AddedAll(s, init);
      assert |q| == |s| + |Layout(|s|, init)|;
      assert ps == init + [p];
      LayoutConcat(|s|, init, [p]);
      var c := Chunk(|q|, p.data, p.padding);
      LayoutSingle(|q|, p);
      assert (q + c)[4..] == q[4..] + c;
      Regroup(s[4..], Layout(|s|, init), c);
    }
  }

  lemma LayoutNone(n: nat)
    ensures Layout(n, []) == []
  {
  }

  lemma LayoutSingle(n: nat, p: Piece)
    ensures Layout(n, [p]) == Chunk(n, p.data, p.padding)
  {
    var c := Chunk(n, p.data, p.padding);
    assert Layout(n, [p]) == c + Layout(n + |c|, []) == c;
  }

  // ----- the header of a new message

  /** nlmsghdr: length, type, flags, sequence number, port id. */
  function Header(typ: nat, flags: nat): (h: seq<byte>)
    ensures |h| == HEADER
    ensures U32(h) == HEADER && U16(h[4..]) == typ % 0x1_0000 && U16(h[6..]) == WithRequest(flags % 0x1_0000)
    ensures U32(h[8..]) == 0 && U32(h[12..]) == 0
  {
    var h := Le32(HEADER) + Le16(typ) + Le16(WithRequest(flags % 0x1_0000)) + Zeros(8);
    U32Prefix(h, Le32(HEADER));
    U32Prefix(h[8..], Zeros(8));
    U32Prefix(h[12..], Zeros(8));
    assert h[..4] == Le32(HEADER) && h[4..6] == Le16(typ) && h[6..8] == Le16(WithRequest(flags % 0x1_0000));
    h
  }

  /** flags | NLM_F_REQUEST */
  function WithRequest(flags: nat): (f: nat)
    ensures f % 2 == 1 && f / 2 == flags / 2
  {
    if flags % 2 == 0 then flags + F_REQUEST else flags
  }

  lemma {:induction false} DoubledBelow(a: nat, n: nat, top: nat)
    requires a > 0 && Doubled(a, n) && Doubled(a, top) && n < top
    ensures n > 0 && 2 * n <= top
    decreases n
  {
    DoubledAtLeast(a, n);
    DoubledAtLeast(a, top / 2);
    if n != a {
      DoubledBelow(a, n / 2, top / 2);
    }
  }

  function Twice(a: nat, k: nat): nat {
    if k == 0 then a else 2 * Twice(a, k - 1)
  }

  lemma {:induction false} TwiceIsDoubled(a: nat, k: nat)
    requires a > 0
    ensures Doubled(a, Twice(a, k)) && Twice(a, k) >= a
  {
    if k > 0 {
      TwiceIsDoubled(a, k - 1);
    }
  }

  lemma TwiceFour(a: nat, k: nat)
    ensures Twice(a, k + 4) == 16 * Twice(a, k)
  {
    assert Twice(a, k + 4) == 4 * Twice(a, k + 2);
  }

  lemma LimitIsDoubled()
    ensures Doubled(BASIC_SIZE, LIMIT)
  {
    TwiceIsDoubled(BASIC_SIZE, 17);
    TwiceFour(BASIC_SIZE, 13);
    TwiceFour(BASIC_SIZE, 9);
    TwiceFour(BASIC_SIZE, 5);
    TwiceFour(BASIC_SIZE, 1);
  }

  lemma {:induction false} DoubledAtLeast(a: nat, n: nat)
    requires a > 0 && Doubled(a, n)
    ensures n >= a
  {
  }

  // ----- the buffer

  /** The `int` fields bound what a message can hold. */
  const LIMIT := 0x8000_0000

  /** The loop of nlmsg_realloc, in the 32 bits of its variable: within the bounds of a message it
      neither wraps around nor runs forever. */
  method DoubleUntil(room: nat, minLen: nat) returns (newAlloc: nat)
    requires Doubled(BASIC_SIZE, room) && minLen <= LIMIT
    ensures room > 0 && newAlloc == Fit(room, minLen)
  {
    hide Doubled, Fit;
    DoubledAtLeast(BASIC_SIZE, room);
    newAlloc := room;
    while newAlloc < minLen
      invariant 0 < newAlloc && Doubled(BASIC_SIZE, newAlloc)
      invariant Fit(newAlloc, minLen) == Fit(room, minLen)
      decreases minLen - newAlloc
    {
      DoubleStep(newAlloc, minLen);
      newAlloc := newAlloc * 2 % 0x1_0000_0000;
    }
    FitReached(newAlloc, minLen);
  }

  lemma DoubleStep(n: nat, minLen: nat)
    requires Doubled(BASIC_SIZE, n) && n < minLen <= LIMIT
    ensures n > 0 && n * 2 % 0x1_0000_0000 == 2 * n
    ensures Doubled(BASIC_SIZE, 2 * n) && Fit(2 * n, minLen) == Fit(n, minLen)
  {
    LimitIsDoubled();
    DoubledBelow(BASIC_SIZE, n, LIMIT);
    DoubledAtLeast(BASIC_SIZE, n);
  }

  lemma FitReached(n: nat, minLen: nat)
    requires n > 0 && n >= minLen
    ensures Fit(n, minLen) == n
  {
  }

  class Message {
    var buf: array<byte>
    var start: nat
    var len: nat
    /** the source calls it `allocated` */
    var room: nat

    ghost predicate Valid()
      reads this, buf
    {
      len <= room == buf.Length && len < LIMIT
    }

    /** The message so far. */
    ghost function Content(): (s: seq<byte>)
      reads this, buf
      requires Valid()
      ensures |s| == len
    {
      buf[..len]
    }

    /** Room for `need` bytes can be made: it is there, or doubling will reach it. */
    ghost predicate CanHold(need: nat)
      reads this
    {
      need < LIMIT && (need <= room || Doubled(BASIC_SIZE, room))
    }

    /** nlmsg_alloc */
    constructor (size: nat)
      ensures Valid() && fresh(buf) && room == size && start == 0 && len == 0
    {
      buf := new byte[size];
      start, len, room := 0, 0, size;
    }

    /** nlmsg_realloc */
    method Realloc(minLen: nat)
      requires Valid() && CanHold(minLen)
      modifies this`buf, this`room
      ensures Valid() && (buf == old(buf) || fresh(buf)) && Content() == old(Content())
      ensures old(room) < minLen ==> old(room) > 0
      ensures room == if old(room) >= minLen then old(room) else Fit(old(room), minLen)
    {
      if room >= minLen {
        return;
      }
      var newAlloc := DoubleUntil(room, minLen);
      var newBuf := new byte[newAlloc];
      forall k | 0 <= k < len {
        newBuf[k] := buf[k];
      }
      buf, room := newBuf, newAlloc;
    }

    /** memset and memcpy: write `data` from position `at` on. */
    method Write(at: nat, data: seq<byte>)
      requires Valid() && at + |data| <= room
      modifies buf
      ensures buf[..at + |data|] == old(buf[..at]) + data
      ensures forall k :: at + |data| <= k < buf.Length ==> buf[k] == old(buf[k])
    {
      forall k | 0 <= k < |data| {
        buf[at + k] := data[k];
      }
    }

    /** Zeros up to the next multiple of four, the data, and the padding. */
    method Fill(data: seq<byte>, padding: nat)
      requires Valid() && len + |Chunk(len, data, padding)| <= room
      modifies buf
      ensures buf[..len + |Chunk(len, data, padding)|] == old(Content()) + Chunk(len, data, padding)
    {
      hide Align4;
      AlignFacts(len);
      var gap := Align4(len) - len;
      ghost var was := Content();
      Write(len, Zeros(gap));
      Write(len + gap, data);
      ghost var most := was + Zeros(gap) + data;
      if padding > 0 {
        Write(len + gap + |data|, Zeros(padding));
        assert buf[..len + gap + |data| + padding] == most + Zeros(padding);
      } else {
        assert most + Zeros(padding) == most;
      }
      Regroup(was, Zeros(gap), data);
      Regroup(was, Zeros(gap) + data, Zeros(padding));
    }

    /** nlmsg_put_raw */
    method PutRaw(data: seq<byte>, padding: nat)
      requires Valid() && CanHold(Align4(len) + |data| + padding)
      modifies this`buf, this`room, this`len, buf
      ensures Valid() && (buf == old(buf) || fresh(buf))
      ensures Content() == old(Content()) + Chunk(old(len), data, padding)
      ensures old(room) < len ==> old(room) > 0
      ensures room == if old(room) >= len then old(room) else Fit(old(room), len)
    {
      hide Fit, Doubled, Align4, Chunk;
      AlignFacts(len);
      var newLen := Align4(len) + |data| + padding;
      Realloc(newLen);
      Fill(data, padding);
      len := newLen;
    }

    /** nlmsg_get_hdr(msg)->nlmsg_len = msg->len */
    method StoreLen()
      requires Valid() && len >= 4
      modifies buf
      ensures Valid() && Content() == SetLen(old(Content()))
    {
      ghost var was := Content();
      Write(0, Le32(len));
      assert buf[..len] == Le32(len) + was[4..];
    }

    /** nlmsg_put; `padding` is zero for it and size - len for nlmsg_put_padded */
    method PutPiece(data: seq<byte>, padding: nat)
      requires Valid() && CanHold(Align4(len) + |data| + padding) && len + |data| + padding >= 4
      modifies this`buf, this`room, this`len, buf
      ensures Valid() && (buf == old(buf) || fresh(buf))
      ensures Content() == SetLen(old(Content()) + Chunk(old(len), data, padding))
      ensures old(room) < len ==> old(room) > 0
      ensures room == if old(room) >= len then old(room) else Fit(old(room), len)
    {
      PutRaw(data, padding);
      StoreLen();
    }

    /** The buffer is as small as doubling from the basic size allows. */
    ghost predicate Sized()
      reads this
    {
      room == Fit(BASIC_SIZE, len)
    }

    lemma SizedCanHold(need: nat)
      requires Sized() && need < LIMIT
      ensures CanHold(need)
    {
      FitIsDoubled(BASIC_SIZE, BASIC_SIZE, len);
    }

    /** nlmsg_put (no padding) and nlmsg_put_padded on a message made by nlmsg_new. */
    method Put(p: Piece)
      requires Valid() && Sized() && len >= HEADER && Align4(len) + |p.data| + p.padding < LIMIT
      modifies this`buf, this`room, this`len, buf
      ensures Valid() && Sized() && (buf == old(buf) || fresh(buf)) && len >= HEADER
      ensures Content() == Added(old(Content()), p)
    {
      AlignFacts(len);
      SizedCanHold(Align4(len) + |p.data| + p.padding);
      ghost var was := len;
      PutPiece(p.data, p.padding);
      FitSteps(BASIC_SIZE, was, len);
      FitUp(BASIC_SIZE, was, len);
    }

    // ----- the cursor

    /** nlmsg_get: the position of `n` bytes, if so many are left */
    method Get(n: nat) returns (at: Option<nat>)
      modifies this`start
      ensures at == if len - old(start) < n then None else Some(old(start))
      ensures Some(start) == Step(len, old(start), Forth(n))
    {
      if len - start < n {
        return None;
      }
      at := Some(start);
      start := start + Align4(n);
    }

    /** nlmsg_unget, with its assertion as a precondition */
    method Unget(n: nat)
      requires start >= Align4(n)
      modifies this`start
      ensures Some(start) == Step(len, old(start), Back(n))
    {
      start := start - Align4(n);
    }

    /** nlmsg_reset_start */
    method ResetStart()
      modifies this`start
      ensures start == HEADER
    {
      start := Align4(HEADER);
    }
  }

  lemma {:induction false} FitUp(a: nat, m: nat, n: nat)
    requires a > 0 && m <= n
    ensures Fit(a, m) >= n ==> Fit(a, n) == Fit(a, m)
    decreases m - a
  {
    if a < m {
      FitUp(2 * a, m, n);
    }
  }

  /** nlmsg_new */
  method New(typ: nat, flags: nat) returns (m: Message)
    ensures m.Valid() && m.Sized() && fresh(m) && fresh(m.buf) && m.start == 0
    ensures m.Content() == Header(typ, flags)
  {
    m := new Message(BASIC_SIZE);
    var hdr := Zeros(4) + Le16(typ) + Le16(WithRequest(flags % 0x1_0000)) + Zeros(8);
    m.PutPiece(hdr, 0);
    assert [] + Chunk(0, hdr, 0) == hdr;
    assert Le32(HEADER) + hdr[4..] == Header(typ, flags);
  }

  /** A move of the cursor. */
  datatype Move = Forth(n: nat) | Back(n: nat)

  /** Nothing when the assertion of nlmsg_unget fails. */
  function Step(len: nat, start: nat, m: Move): Option<nat> {
    match m
    case Forth(n) => Some(if len - start < n then start else start + Align4(n))
    case Back(n) => if start >= Align4(n) then Some(start - Align4(n)) else None
  }

  function Steps(len: nat, start: nat, ms: seq<Move>): Option<nat>
    decreases ms
  {
    if ms == [] then Some(start)
    else
      match Step(len, start, ms[0])
      case None => None
      case Some(next) => Steps(len, next, ms[1..])
  }

  /** After any moves the cursor is at a multiple of four, at most the aligned length. */
  lemma {:induction false} CursorInBounds(len: nat, start: nat, ms: seq<Move>)
    requires start % 4 == 0 && start <= Align4(len)
    ensures Steps(len, start, ms).Some? ==>
      Steps(len, start, ms).value % 4 == 0 && Steps(len, start, ms).value <= Align4(len)
    decreases ms
  {
    if ms != [] && Step(len, start, ms[0]).Some? {
      var next := Step(len, start, ms[0]).value;
      CursorInBounds(len, next, ms[1..]);
    }
  }

  /** Moving back what was moved forth restores the cursor. */
  lemma ForthAndBack(len: nat, start: nat, n: nat)
    requires len - start >= n
    ensures Steps(len, start, [Forth(n), Back(n)]) == Some(start)
  {
    assert [Forth(n), Back(n)][1..] == [Back(n)];
    assert Steps(len, start + Align4(n), [Back(n)]) == Some(start);
  }
}
