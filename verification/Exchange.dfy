/** The request/response protocol of netlink.c (RFC 3549, sections 2.2 and 2.3.2): sending,
    collecting the replies that belong to the last request, and trying again. */
module Exchange {
  import opened Bytes
  import opened Common
  import opened NlMsg

  const RETRY_COUNT := 16
  const RECV_SIZE := 16384

  const EINTR := 4
  const EAGAIN := 11
  const EPIPE := 32
  const ETIME := 62

  const NLMSG_ERROR := 2
  const NLMSG_DONE := 3
  const F_DUMP_INTR := 0x10

  // ----- messages in a datagram

  function TypeOf(m: seq<byte>): nat
    requires |m| >= HEADER
  {
    U16(m[4..])
  }

  function FlagsOf(m: seq<byte>): nat
    requires |m| >= HEADER
  {
    U16(m[6..])
  }

  function SeqOf(m: seq<byte>): nat
    requires |m| >= HEADER
  {
    U32(m[8..])
  }

  function PidOf(m: seq<byte>): nat
    requires |m| >= HEADER
  {
    U32(m[12..])
  }

  /** nlmsgerr.error */
  function ErrorOf(m: seq<byte>): int {
    S32(Window(m, HEADER, 4))
  }

  predicate DumpInterrupted(m: seq<byte>)
    requires |m| >= HEADER
  {
    FlagsOf(m) / F_DUMP_INTR % 2 == 1
  }

  /** flags & NLM_F_DUMP, two neighbouring bits */
  predicate IsDump(flags: nat) {
    flags / 0x100 % 4 != 0
  }

  type Msg = m: seq<byte> | |m| >= HEADER witness Zeros(HEADER)

  /** NLMSG_OK */
  predicate MsgOk(s: seq<byte>) {
    |s| >= HEADER && U32(s) >= HEADER && U32(s) <= |s|
  }

  /** NLMSG_NEXT */
  function After(s: seq<byte>): (r: seq<byte>)
    requires MsgOk(s)
    ensures |r| < |s|
  {
    if Align4(U32(s)) <= |s| then s[Align4(U32(s))..] else []
  }

  /** The messages the walk over a datagram meets. */
  function Walk(s: seq<byte>): (ms: seq<Msg>)
    decreases |s|
  {
    if MsgOk(s) then [s[..U32(s)]] + Walk(After(s)) else []
  }

  // ----- what arrives

  /** One round of the receive loop: poll fails, times out, or reports data; then recvmsg fails,
      meets the end of the stream, or fills the buffer with a datagram of some sender. */
  datatype Event =
    | PollError(errno: int)
    | Timeout
    | RecvError(errno: int)
    | Eof
    | Datagram(sender: nat, bytes: seq<byte>)

  /** The errors of system calls are not zero. */
  predicate EventOk(e: Event) {
    match e
    case PollError(n) => n != 0
    case RecvError(n) => n != 0
    case Timeout => true
    case Eof => true
    case Datagram(_, b) => |b| > 0
  }

  ghost predicate TraceOk(es: seq<Event>) {
    forall k :: 0 <= k < |es| ==> EventOk(es[k])
  }

  /** What one message or event means to a receiver waiting for replies to request `seq` of `pid`. */
  datatype Item = Stale | Reply(m: Msg) | Done | Failed(err: int)

  function Classify(m: Msg, pid: nat, sq: nat, dump: bool): Item {
    if PidOf(m) != pid || SeqOf(m) != sq then Stale
    else if dump && TypeOf(m) == NLMSG_DONE then Done
    else if TypeOf(m) == NLMSG_ERROR then Failed(-ErrorOf(m))
    else Reply(m)
  }

  function ClassifyAll(ms: seq<Msg>, pid: nat, sq: nat, dump: bool): (xs: seq<Item>)
    ensures |xs| == |ms| && forall k :: 0 <= k < |ms| ==> xs[k] == Classify(ms[k], pid, sq, dump)
  {
    if ms == [] then [] else [Classify(ms[0], pid, sq, dump)] + ClassifyAll(ms[1..], pid, sq, dump)
  }

  /** The messages of a datagram, which the receive buffer may cut short. */
  function Received(e: Event): seq<Msg>
    requires e.Datagram?
  {
    Walk(if |e.bytes| <= RECV_SIZE then e.bytes else e.bytes[..RECV_SIZE])
  }

  /** The items of one event. A datagram that is not from the kernel is skipped. */
  function Items(e: Event, pid: nat, sq: nat, dump: bool): seq<Item> {
    match e
    case PollError(n) => [Failed(n)]
    case Timeout => [Failed(ETIME)]
    case RecvError(n) => [Failed(n)]
    case Eof => [Failed(EPIPE)]
    case Datagram(sender, _) =>
      if sender != 0 then []
      else ClassifyAll(Received(e), pid, sq, dump)
  }

  // ----- one receive

  /** Where the receive loop stands: still collecting, or returning. */
  datatype Scan = More(dest: seq<Msg>) | Stop(err: int, dest: seq<Msg>)

  function Take(xs: seq<Item>, dest: seq<Msg>, dump: bool): Scan
    decreases xs
  {
    if xs == [] then More(dest)
    else
      match xs[0]
      case Stale => Take(xs[1..], dest, dump)
      case Done => Stop(0, dest)
      case Failed(e) => Stop(e, [])
      case Reply(m) => if dump then Take(xs[1..], dest + [m], dump) else Stop(0, dest + [m])
  }

  datatype Outcome = Outcome(err: int, dest: seq<Msg>, used: nat)

  /** nl_recv with `dest` collected so far. After the last event nothing arrives, so poll times out. */
  function Recv(es: seq<Event>, pid: nat, sq: nat, dump: bool, dest: seq<Msg>): (r: Outcome)
    ensures r.used <= |es|
    decreases es
  {
    if es == [] then Outcome(ETIME, [], 0)
    else
      match Take(Items(es[0], pid, sq, dump), dest, dump)
      case Stop(e, d) => Outcome(e, d, 1)
      case More(d) => var r := Recv(es[1..], pid, sq, dump, d); r.(used := r.used + 1)
  }

  /** Everything a receiver may get to see, in order. */
  function Stream(es: seq<Event>, pid: nat, sq: nat, dump: bool): seq<Item> {
    if es == [] then [Failed(ETIME)] else Items(es[0], pid, sq, dump) + Stream(es[1..], pid, sq, dump)
  }

  lemma {:induction false} TakeConcat(xs: seq<Item>, ys: seq<Item>, dest: seq<Msg>, dump: bool)
    ensures Take(xs + ys, dest, dump) ==
      match Take(xs, dest, dump) case Stop(e, d) => Stop(e, d) case More(d) => Take(ys, d, dump)
    decreases xs
  {
    if xs == [] {
      assert xs + ys == ys;
    } else {
      assert (xs + ys)[1..] == xs[1..] + ys;
      var d := if xs[0].Reply? then dest + [xs[0].m] else dest;
      TakeConcat(xs[1..], ys, d, dump);
    }
  }

  /** How the messages are packed into datagrams does not matter. */
  lemma {:induction false} RecvIsFlat(es: seq<Event>, pid: nat, sq: nat, dump: bool, dest: seq<Msg>)
    ensures var r := Recv(es, pid, sq, dump, dest);
      Take(Stream(es, pid, sq, dump), dest, dump) == Stop(r.err, r.dest)
    decreases es
  {
    if es != [] {
      TakeConcat(Items(es[0], pid, sq, dump), Stream(es[1..], pid, sq, dump), dest, dump);
      var s := Take(Items(es[0], pid, sq, dump), dest, dump);
      if s.More? {
        RecvIsFlat(es[1..], pid, sq, dump, s.dest);
      }
    }
  }

  /** The replies among the items, in order. */
  function Replies(xs: seq<Item>): seq<Msg> {
    if xs == [] then []
    else if xs[|xs| - 1].Reply? then Replies(xs[..|xs| - 1]) + [xs[|xs| - 1].m]
    else Replies(xs[..|xs| - 1])
  }

  /** Item `k` is the first that ends a receive. */
  ghost predicate Ends(xs: seq<Item>, k: nat, dump: bool) {
    && k < |xs| && Final(xs[k], dump)
    && forall j :: 0 <= j < k ==> !Final(xs[j], dump)
  }

  predicate Final(x: Item, dump: bool) {
    x.Done? || x.Failed? || (x.Reply? && !dump)
  }

  lemma {:induction false} TakeUntil(xs: seq<Item>, k: nat, dump: bool)
    requires k <= |xs| && forall j :: 0 <= j < k ==> !Final(xs[j], dump)
    ensures Take(xs[..k], [], dump) == More(Replies(xs[..k]))
  {
    if k > 0 {
      TakeUntil(xs, k - 1, dump);
      assert xs[..k][..k - 1] == xs[..k - 1];
      assert xs[..k] == xs[..k - 1] + [xs[k - 1]];
      TakeConcat(xs[..k - 1], [xs[k - 1]], [], dump);
    }
  }

  /** The first item that ends a receive decides its outcome. */
  lemma TakeMeaning(xs: seq<Item>, k: nat, dump: bool)
    requires Ends(xs, k, dump)
    ensures Take(xs, [], dump) ==
      match xs[k]
      case Done => Stop(0, Replies(xs[..k]))
      case Failed(e) => Stop(e, [])
      case Reply(m) => Stop(0, Replies(xs[..k]) + [m])
  {
    TakeUntil(xs, k, dump);
    assert xs == xs[..k] + xs[k..];
    TakeConcat(xs[..k], xs[k..], [], dump);
  }

  /** A dump succeeds exactly when what ends it is a matching DONE, or a matching error message
      with code zero; its result is then all matching messages before the DONE, in order, or
      nothing. A failed receive leaves nothing. */
  lemma DumpMeaning(es: seq<Event>, pid: nat, sq: nat, k: nat)
    requires Ends(Stream(es, pid, sq, true), k, true)
    ensures var r := Recv(es, pid, sq, true, []); var xs := Stream(es, pid, sq, true);
      && (r.err == 0 <==> xs[k].Done? || xs[k] == Failed(0))
      && (xs[k].Done? ==> r.dest == Replies(xs[..k]))
      && (xs[k].Failed? ==> r.err == xs[k].err && r.dest == [])
  {
    RecvIsFlat(es, pid, sq, true, []);
    TakeMeaning(Stream(es, pid, sq, true), k, true);
  }

  /** A request that is not a dump gets the first matching message. */
  lemma SingleMeaning(es: seq<Event>, pid: nat, sq: nat, k: nat)
    requires Ends(Stream(es, pid, sq, false), k, false)
    ensures var r := Recv(es, pid, sq, false, []); var xs := Stream(es, pid, sq, false);
      && (xs[k].Reply? ==> r.err == 0 && r.dest == [xs[k].m])
      && (xs[k].Failed? ==> r.err == xs[k].err && r.dest == [])
  {
    RecvIsFlat(es, pid, sq, false, []);
    TakeMeaning(Stream(es, pid, sq, false), k, false);
    NoReplies(Stream(es, pid, sq, false), k);
  }

  lemma {:induction false} NoReplies(xs: seq<Item>, k: nat)
    requires k <= |xs| && forall j :: 0 <= j < k ==> !Final(xs[j], false)
    ensures Replies(xs[..k]) == []
  {
    if k > 0 {
      NoReplies(xs, k - 1);
      assert xs[..k][..k - 1] == xs[..k - 1];
    }
  }

  // ----- the outcome in terms of the messages

  predicate Answers(m: Msg, pid: nat, sq: nat) {
    PidOf(m) == pid && SeqOf(m) == sq
  }

  /** The messages that answer the request, in order. */
  function Answering(ms: seq<Msg>, pid: nat, sq: nat): seq<Msg> {
    if ms == [] then []
    else if Answers(ms[|ms| - 1], pid, sq) then Answering(ms[..|ms| - 1], pid, sq) + [ms[|ms| - 1]]
    else Answering(ms[..|ms| - 1], pid, sq)
  }

  /** An answer that ends the receive: any answer, or in a dump a DONE or an error message. */
  predicate LastAnswer(m: Msg, pid: nat, sq: nat, dump: bool) {
    Answers(m, pid, sq) && (!dump || TypeOf(m) == NLMSG_DONE || TypeOf(m) == NLMSG_ERROR)
  }

  /** The messages of all datagrams from the kernel up to the first event that is no datagram. */
  function Heard(es: seq<Event>): seq<Msg> {
    if es == [] || !es[0].Datagram? then []
    else (if es[0].sender == 0 then Received(es[0]) else []) + Heard(es[1..])
  }

  /** The error of that event; a timeout when there is none. */
  function Silence(es: seq<Event>): int {
    if es == [] then ETIME
    else
      match es[0]
      case PollError(n) => n
      case Timeout => ETIME
      case RecvError(n) => n
      case Eof => EPIPE
      case Datagram(_, _) => Silence(es[1..])
  }

  /** Message `k` is the first last answer. */
  ghost predicate FirstLast(ms: seq<Msg>, pid: nat, sq: nat, dump: bool, k: nat) {
    k < |ms| && LastAnswer(ms[k], pid, sq, dump) && forall j :: 0 <= j < k ==> !LastAnswer(ms[j], pid, sq, dump)
  }

  lemma {:induction false} StreamIsHeard(es: seq<Event>, pid: nat, sq: nat, dump: bool)
    ensures var xs := Stream(es, pid, sq, dump); var ms := Heard(es);
      && |ms| < |xs| && xs[|ms|] == Failed(Silence(es))
      && forall j :: 0 <= j < |ms| ==> xs[j] == Classify(ms[j], pid, sq, dump)
  {
    hide Classify;
    if es != [] && es[0].Datagram? {
      StreamIsHeard(es[1..], pid, sq, dump);
    }
  }

  lemma FinalIsLast(m: Msg, pid: nat, sq: nat, dump: bool)
    ensures Final(Classify(m, pid, sq, dump), dump) <==> LastAnswer(m, pid, sq, dump)
    ensures !Final(Classify(m, pid, sq, dump), dump) ==>
      Classify(m, pid, sq, dump) == if Answers(m, pid, sq) then Reply(m) else Stale
  {
  }

  lemma {:induction false} RepliesAreAnswers(xs: seq<Item>, ms: seq<Msg>, pid: nat, sq: nat, dump: bool)
    requires |xs| == |ms| && forall j :: 0 <= j < |ms| ==>
      xs[j] == Classify(ms[j], pid, sq, dump) && !LastAnswer(ms[j], pid, sq, dump)
    ensures Replies(xs) == Answering(ms, pid, sq)
  {
    hide Classify, LastAnswer, Answers;
    if ms != [] {
      FinalIsLast(ms[|ms| - 1], pid, sq, dump);
      RepliesAreAnswers(xs[..|xs| - 1], ms[..|ms| - 1], pid, sq, dump);
    }
  }

  /** What a receive makes of the messages: the first last answer decides. A DONE ends a dump with all
      answers before it, an error message gives its number negated and nothing else, and for a request
      that is no dump the first answer is the result. Without a last answer it is the error of the first
      event that is no datagram. */
  ghost predicate ReceivedRight(es: seq<Event>, pid: nat, sq: nat, dump: bool, err: int, dest: seq<Msg>) {
    var ms := Heard(es);
    && ((forall j :: 0 <= j < |ms| ==> !LastAnswer(ms[j], pid, sq, dump)) ==> err == Silence(es) && dest == [])
    && (forall k: nat :: FirstLast(ms, pid, sq, dump, k) ==>
          if dump && TypeOf(ms[k]) == NLMSG_DONE then err == 0 && dest == Answering(ms[..k], pid, sq)
          else if TypeOf(ms[k]) == NLMSG_ERROR then err == -ErrorOf(ms[k]) && dest == []
          else err == 0 && dest == [ms[k]])
  }

  lemma RecvMeaning(es: seq<Event>, pid: nat, sq: nat, dump: bool)
    ensures var r := Recv(es, pid, sq, dump, []); ReceivedRight(es, pid, sq, dump, r.err, r.dest)
  {
    hide Recv, Stream, Heard, LastAnswer, Classify, Take, Replies, Final, Silence;
    var xs, ms, r := Stream(es, pid, sq, dump), Heard(es), Recv(es, pid, sq, dump, []);
    StreamIsHeard(es, pid, sq, dump);
    RecvIsFlat(es, pid, sq, dump, []);
    forall j | 0 <= j < |ms| ensures Final(xs[j], dump) <==> LastAnswer(ms[j], pid, sq, dump) {
      FinalIsLast(ms[j], pid, sq, dump);
    }
    if forall j :: 0 <= j < |ms| ==> !LastAnswer(ms[j], pid, sq, dump) {
      FailedIsFinal(xs, |ms|, dump);
      TakeMeaning(xs, |ms|, dump);
    }
    forall k: nat | FirstLast(ms, pid, sq, dump, k)
      ensures if dump && TypeOf(ms[k]) == NLMSG_DONE then r.err == 0 && r.dest == Answering(ms[..k], pid, sq)
              else if TypeOf(ms[k]) == NLMSG_ERROR then r.err == -ErrorOf(ms[k]) && r.dest == []
              else r.err == 0 && r.dest == [ms[k]]
    {
      TakeMeaning(xs, k, dump);
      RepliesAreAnswers(xs[..k], ms[..k], pid, sq, dump);
      LastIs(ms[k], pid, sq, dump);
      if !dump {
        NoAnswers(ms[..k], pid, sq);
      }
    }
  }

  lemma FailedIsFinal(xs: seq<Item>, k: nat, dump: bool)
    requires k < |xs| && xs[k].Failed?
    ensures Final(xs[k], dump)
  {
  }

  lemma LastIs(m: Msg, pid: nat, sq: nat, dump: bool)
    requires LastAnswer(m, pid, sq, dump)
    ensures Classify(m, pid, sq, dump) ==
      if dump && TypeOf(m) == NLMSG_DONE then Done
      else if TypeOf(m) == NLMSG_ERROR then Failed(-ErrorOf(m)) else Reply(m)
    ensures dump ==> TypeOf(m) == NLMSG_DONE || TypeOf(m) == NLMSG_ERROR
  {
  }

  lemma {:induction false} NoAnswers(ms: seq<Msg>, pid: nat, sq: nat)
    requires forall j :: 0 <= j < |ms| ==> !LastAnswer(ms[j], pid, sq, false)
    ensures Answering(ms, pid, sq) == []
  {
    if ms != [] {
      NoAnswers(ms[..|ms| - 1], pid, sq);
    }
  }

  /** The event ends a receive. */
  ghost predicate Decides(e: Event, pid: nat, sq: nat, dump: bool) {
    e.Datagram? ==> e.sender == 0 && exists j :: 0 <= j < |Received(e)| && LastAnswer(Received(e)[j], pid, sq, dump)
  }

  lemma {:induction false} TakeMore(ms: seq<Msg>, pid: nat, sq: nat, dest: seq<Msg>, dump: bool)
    ensures Take(ClassifyAll(ms, pid, sq, dump), dest, dump).Stop? <==>
      exists j :: 0 <= j < |ms| && LastAnswer(ms[j], pid, sq, dump)
    decreases ms
  {
    hide LastAnswer, Classify;
    if ms != [] {
      FinalIsLast(ms[0], pid, sq, dump);
      var x := Classify(ms[0], pid, sq, dump);
      TakeMore(ms[1..], pid, sq, if x.Reply? then dest + [x.m] else dest, dump);
      assert ClassifyAll(ms, pid, sq, dump)[1..] == ClassifyAll(ms[1..], pid, sq, dump);
      assert ms == [ms[0]] + ms[1..];
      if j :| 0 <= j < |ms| && LastAnswer(ms[j], pid, sq, dump) {
        assert j > 0 ==> ms[1..][j - 1] == ms[j];
      }
      if j :| 0 <= j < |ms[1..]| && LastAnswer(ms[1..][j], pid, sq, dump) {
        assert ms[j + 1] == ms[1..][j];
      }
    }
  }

  lemma DecidesIs(e: Event, pid: nat, sq: nat, dest: seq<Msg>, dump: bool)
    ensures Take(Items(e, pid, sq, dump), dest, dump).Stop? <==> Decides(e, pid, sq, dump)
  {
    hide LastAnswer, Classify;
    if e.Datagram? && e.sender == 0 {
      TakeMore(Received(e), pid, sq, dest, dump);
    }
  }

  /** A receive takes in everything up to the first event that ends it, and nothing behind that. */
  lemma {:induction false} RecvUses(es: seq<Event>, pid: nat, sq: nat, dump: bool, dest: seq<Msg>)
    ensures var n := Recv(es, pid, sq, dump, dest).used;
      && (forall j :: 0 <= j < n - 1 ==> !Decides(es[j], pid, sq, dump))
      && (n < |es| ==> n > 0 && Decides(es[n - 1], pid, sq, dump))
      && (n == 0 ==> es == [])
    decreases es
  {
    hide Decides, Items, Take;
    if es != [] {
      DecidesIs(es[0], pid, sq, dest, dump);
      var s := Take(Items(es[0], pid, sq, dump), dest, dump);
      if s.More? {
        RecvUses(es[1..], pid, sq, dump, s.dest);
        var n := Recv(es, pid, sq, dump, dest).used;
        forall j | 0 <= j < n - 1 ensures !Decides(es[j], pid, sq, dump) {
          assert j > 0 ==> es[j] == es[1..][j - 1];
        }
      }
    }
  }

  // ----- acknowledgements

  predicate Ack(m: Msg, pid: nat, sq: nat) {
    PidOf(m) == pid && SeqOf(m) == sq && TypeOf(m) == NLMSG_ERROR && ErrorOf(m) == 0
  }

  /** No error message with code zero answers the request. */
  ghost predicate NoAck(es: seq<Event>, pid: nat, sq: nat) {
    forall k, j :: 0 <= k < |es| && es[k].Datagram? && es[k].sender == 0 && 0 <= j < |Received(es[k])| ==>
      !Ack(Received(es[k])[j], pid, sq)
  }

  lemma NoAckTail(es: seq<Event>, pid: nat, sq: nat)
    requires es != [] && NoAck(es, pid, sq)
    ensures NoAck(es[1..], pid, sq)
  {
    var t := es[1..];
    forall k, j | 0 <= k < |t| && t[k].Datagram? && t[k].sender == 0 && 0 <= j < |Received(t[k])|
      ensures !Ack(Received(t[k])[j], pid, sq)
    {
      assert t[k] == es[k + 1];
    }
  }

  /** A successful dump returns all replies before its end exactly if that end is a DONE or there are
      none: an acknowledgement throws away what came before it. */
  lemma CompleteExactly(es: seq<Event>, pid: nat, sq: nat, k: nat)
    requires Ends(Stream(es, pid, sq, true), k, true) && Recv(es, pid, sq, true, []).err == 0
    ensures var xs := Stream(es, pid, sq, true);
      Recv(es, pid, sq, true, []).dest == Replies(xs[..k]) <==> xs[k].Done? || Replies(xs[..k]) == []
  {
    hide Recv, Stream, Replies;
    DumpMeaning(es, pid, sq, k);
  }

  /** A message as it stands in a datagram in front of another. */
  predicate OnWire(m: Msg) {
    U32(m) == |m| && |m| % 4 == 0
  }

  lemma LengthKept(m: Msg, rest: seq<byte>)
    requires OnWire(m)
    ensures U32(m + rest) == |m|
  {
    hide U32;
    U32Prefix(m + rest, m);
  }

  lemma WalkFirst(m: Msg, rest: seq<byte>)
    requires OnWire(m)
    ensures Walk(m + rest) == [m] + Walk(rest)
  {
    hide U32;
    LengthKept(m, rest);
    assert (m + rest)[..|m|] == m && (m + rest)[|m|..] == rest;
    assert After(m + rest) == rest;
  }

  /** Messages one after the other, each padded to a multiple of four. */
  function Packed(ms: seq<Msg>): seq<byte> {
    if ms == [] then [] else ms[0] + Zeros(Align4(|ms[0]|) - |ms[0]|) + Packed(ms[1..])
  }

  lemma WalkPadded(m: Msg, rest: seq<byte>)
    requires U32(m) == |m|
    ensures Walk(m + Zeros(Align4(|m|) - |m|) + rest) == [m] + Walk(rest)
  {
    hide U32, Align4;
    AlignFacts(|m|);
    var s := m + Zeros(Align4(|m|) - |m|) + rest;
    assert s[..|m|] == m && s[Align4(|m|)..] == rest;
    U32Prefix(s, m);
    assert After(s) == rest;
  }

  /** The walk over a datagram finds the messages packed into it. */
  lemma {:induction false} WalkPacked(ms: seq<Msg>)
    requires forall k :: 0 <= k < |ms| ==> U32(ms[k]) == |ms[k]|
    ensures Walk(Packed(ms)) == ms
    ensures |Packed(ms)| <= RECV_SIZE ==> Received(Datagram(0, Packed(ms))) == ms
  {
    hide U32;
    if ms != [] {
      WalkPadded(ms[0], Packed(ms[1..]));
      WalkPacked(ms[1..]);
    }
  }

  /** A message as the kernel lays it out (section 2.3.2 of RFC 3549). */
  function LaidOut(typ: nat, flags: nat, sq: nat, pid: nat, body: seq<byte>): (m: Msg) {
    Le32(HEADER + |body|) + Le16(typ) + Le16(flags) + Le32(sq) + Le32(pid) + body
  }

  /** The fields are read from where they are laid out; an error message starts with its number. */
  lemma FieldsRead(typ: nat, flags: nat, sq: nat, pid: nat, body: seq<byte>, code: int)
    requires typ < 0x1_0000 && flags < 0x1_0000 && sq < 0x1_0000_0000 && pid < 0x1_0000_0000
    requires HEADER + |body| < 0x1_0000_0000
    ensures var m := LaidOut(typ, flags, sq, pid, body);
      && U32(m) == |m| && TypeOf(m) == typ && FlagsOf(m) == flags && SeqOf(m) == sq && PidOf(m) == pid
      && (-0x8000_0000 <= code < 0x8000_0000 && |body| >= 4 && body[..4] == Le32(code % 0x1_0000_0000) ==>
            ErrorOf(m) == code)
  {
    hide U32, Le32, Le16;
    var m := LaidOut(typ, flags, sq, pid, body);
    assert m[..4] == Le32(HEADER + |body|) && m[4..][..2] == Le16(typ) && m[6..][..2] == Le16(flags);
    assert m[8..][..4] == Le32(sq) && m[12..][..4] == Le32(pid);
    U32Prefix(m, Le32(HEADER + |body|));
    U32Prefix(m[8..], Le32(sq));
    U32Prefix(m[12..], Le32(pid));
    U16Prefix(m[4..], Le16(typ));
    U16Prefix(m[6..], Le16(flags));
    if -0x8000_0000 <= code < 0x8000_0000 && |body| >= 4 && body[..4] == Le32(code % 0x1_0000_0000) {
      assert Window(m, HEADER, 4) == m[HEADER..HEADER + 4] == body[..4];
      SignedWord(code);
    }
  }

  lemma WalkTwo(m: Msg, a: Msg)
    requires OnWire(m) && OnWire(a)
    ensures Walk(m + a) == [m, a]
  {
    hide U32;
    WalkFirst(m, a);
    WalkFirst(a, []);
    assert a + [] == a;
  }

  lemma TakeTwo(m: Msg, a: Msg, pid: nat, sq: nat)
    requires Classify(m, pid, sq, true).Reply? && Ack(a, pid, sq)
    ensures Take(ClassifyAll([m, a], pid, sq, true), [], true) == Stop(0, [])
  {
    assert [m, a][1..] == [a];
    assert ClassifyAll([m, a], pid, sq, true) == [Reply(m), Failed(0)];
    assert [Reply(m), Failed(0)][1..] == [Failed(0)];
  }

  /** The case: whatever follows, a dump answered by one datagram with a reply and an acknowledgement
      succeeds without a message. */
  lemma AckLosesReplies(m: Msg, a: Msg, pid: nat, sq: nat, es: seq<Event>)
    requires OnWire(m) && OnWire(a) && |m| + |a| <= RECV_SIZE
    requires Classify(m, pid, sq, true).Reply? && Ack(a, pid, sq)
    ensures Recv([Datagram(0, m + a)] + es, pid, sq, true, []) == Outcome(0, [], 1)
  {
    hide Walk, Take, ClassifyAll, OnWire, Ack, Classify;
    WalkTwo(m, a);
    TakeTwo(m, a, pid, sq);
    var e := Datagram(0, m + a);
    assert Received(e) == [m, a];
    assert Items(e, pid, sq, true) == ClassifyAll([m, a], pid, sq, true);
    assert ([e] + es)[0] == e;
  }

  // ----- the exchange

  /** What an exchange returns, the sequence number it used last, and how often it sent. */
  datatype Result = Result(err: int, dest: seq<Msg>, sq: nat, sends: nat, used: nat)

  predicate Interrupted(ms: seq<Msg>) {
    exists k :: 0 <= k < |ms| && DumpInterrupted(ms[k])
  }

  function NextSeq(sq: nat): nat {
    (sq + 1) % 0x1_0000_0000
  }

  /** The result of sendmsg, 0 or an error number; attempts beyond the list succeed. */
  function SendError(fails: seq<int>): int {
    if fails == [] then 0 else fails[0]
  }

  predicate Again(r: Outcome, dump: bool) {
    r.err == ETIME || r.err == EAGAIN || r.err == EINTR || (r.err == 0 && dump && Interrupted(r.dest))
  }

  /** nl_exchange with `tries` attempts left */
  function Run(es: seq<Event>, fails: seq<int>, pid: nat, sq: nat, dump: bool, tries: nat): (r: Result)
    ensures r.used <= |es| && r.sends <= tries
    ensures r.err != 0 ==> r.dest == []
    decreases tries
  {
    if tries == 0 then Result(EINTR, [], sq, 0, 0)
    else if SendError(fails) != 0 then Result(SendError(fails), [], NextSeq(sq), 1, 0)
    else
      var o := Recv(es, pid, NextSeq(sq), dump, []);
      if Again(o, dump) then
        var r := Run(es[o.used..], if fails == [] then [] else fails[1..], pid, NextSeq(sq), dump, tries - 1);
        r.(sends := r.sends + 1, used := r.used + o.used)
      else Result(o.err, if o.err == 0 then o.dest else [], NextSeq(sq), 1, o.used)
  }

  lemma SeqSum(sq: nat, n: nat)
    ensures (NextSeq(sq) + n) % 0x1_0000_0000 == (sq + (n + 1)) % 0x1_0000_0000
    ensures NextSeq(sq) == (sq + 1) % 0x1_0000_0000
  {
    var m := 0x1_0000_0000;
    var a, b := sq + 1, (sq + 1) / m;
    assert a == m * b + a % m;
    var c := a % m + n;
    assert a + n == m * (b + c / m) + c % m;
  }

  /** A successful exchange: after `n - 1` attempts that were to be repeated, the last one received
      `dest` from the events behind those attempts, and for a dump no message was interrupted. */
  lemma {:induction false} RunSucceeds(es: seq<Event>, fails: seq<int>, pid: nat, sq: nat, dump: bool, tries: nat)
    returns (from: nat)
    requires Run(es, fails, pid, sq, dump, tries).err == 0
    ensures var r := Run(es, fails, pid, sq, dump, tries);
      && 1 <= r.sends <= tries && r.sq == (sq + r.sends) % 0x1_0000_0000
      && from <= |es| && Recv(es[from..], pid, r.sq, dump, []).err == 0
      && r.dest == Recv(es[from..], pid, r.sq, dump, []).dest
      && (dump ==> !Interrupted(r.dest))
    decreases tries
  {
    hide Recv, Interrupted, NextSeq;
    var o := Recv(es, pid, NextSeq(sq), dump, []);
    if Again(o, dump) {
      var rest := if fails == [] then [] else fails[1..];
      from := RunSucceeds(es[o.used..], rest, pid, NextSeq(sq), dump, tries - 1);
      SeqSum(sq, Run(es[o.used..], rest, pid, NextSeq(sq), dump, tries - 1).sends);
      assert es[o.used..][from..] == es[o.used + from..];
      from := o.used + from;
    } else {
      from := 0;
      SeqSum(sq, 0);
      assert es[0..] == es;
    }
  }

  /** The result of the `j`th sendmsg. */
  function SendErrorAt(fails: seq<int>, j: nat): int {
    if j < |fails| then fails[j] else 0
  }

  /** The receive of an attempt that starts with event `from` under sequence number `sq` + `j` + 1. */
  function ReceiveAt(es: seq<Event>, from: nat, pid: nat, sq: nat, j: nat, dump: bool): Outcome
    requires from <= |es|
  {
    Recv(es[from..], pid, (sq + j + 1) % 0x1_0000_0000, dump, [])
  }

  /** A receive that timed out, met nothing to read or was interrupted, or a dump of which some message
      says that it was. */
  ghost predicate WorthRepeating(o: Outcome, dump: bool) {
    || o.err == ETIME || o.err == EAGAIN || o.err == EINTR
    || (o.err == 0 && dump && exists k :: 0 <= k < |o.dest| && FlagsOf(o.dest[k]) / 0x10 % 2 == 1)
  }

  /** Attempt `j` started with event `at[j]`, was sent, and was worth repeating. */
  ghost predicate Repeated(es: seq<Event>, fails: seq<int>, pid: nat, sq: nat, dump: bool, at: seq<nat>, j: nat) {
    && j + 1 < |at| && at[j] <= |es| && SendErrorAt(fails, j) == 0
    && var o := ReceiveAt(es, at[j], pid, sq, j, dump); WorthRepeating(o, dump) && at[j + 1] == at[j] + o.used
  }

  /** Attempt `j` is the last: it could not be sent, or it is the last one allowed, or it is not worth
      repeating and its outcome is the result. */
  ghost predicate Settles(es: seq<Event>, fails: seq<int>, pid: nat, sq: nat, dump: bool, tries: nat, from: nat, j: nat,
                          r: Result)
  {
    && from <= |es| && r.sq == (sq + j + 1) % 0x1_0000_0000
    && var o := ReceiveAt(es, from, pid, sq, j, dump);
    && (SendErrorAt(fails, j) != 0 ==> r.err == SendErrorAt(fails, j) && r.dest == [] && r.used == from)
    && (SendErrorAt(fails, j) == 0 ==>
          && r.used == from + o.used
          && if WorthRepeating(o, dump) then j + 1 == tries && r.err == EINTR && r.dest == []
             else r.err == o.err && r.dest == if o.err == 0 then o.dest else [])
  }

  lemma AgainIs(o: Outcome, dump: bool)
    ensures Again(o, dump) <==> WorthRepeating(o, dump)
  {
    if k :| 0 <= k < |o.dest| && FlagsOf(o.dest[k]) / 0x10 % 2 == 1 {
      assert DumpInterrupted(o.dest[k]);
    }
  }

  /** The course of an exchange: attempt after attempt, each with the next sequence number and from the
      event where the one before it stopped reading, is repeated exactly as long as that is worthwhile
      and allowed; the last one gives the result. */
  lemma {:induction false} RunHistory(es: seq<Event>, fails: seq<int>, pid: nat, sq: nat, dump: bool, tries: nat)
    returns (at: seq<nat>)
    requires tries > 0
    ensures var r := Run(es, fails, pid, sq, dump, tries);
      && |at| == r.sends && 1 <= r.sends <= tries && at[0] == 0
      && (forall j :: 0 <= j < |at| - 1 ==> Repeated(es, fails, pid, sq, dump, at, j))
      && Settles(es, fails, pid, sq, dump, tries, at[|at| - 1], |at| - 1, r)
    decreases tries
  {
    hide Recv, Again, WorthRepeating, Repeated, Settles, NextSeq;
    var o := Recv(es, pid, NextSeq(sq), dump, []);
    FirstAttempt(es, fails, pid, sq, dump, tries);
    if SendError(fails) == 0 && Again(o, dump) && tries > 1 {
      var rest := if fails == [] then [] else fails[1..];
      var later := RunHistory(es[o.used..], rest, pid, NextSeq(sq), dump, tries - 1);
      at := [0] + seq(|later|, j requires 0 <= j < |later| => o.used + later[j]);
      forall j | 0 <= j < |at| - 1 ensures Repeated(es, fails, pid, sq, dump, at, j) {
        if j > 0 {
          assert Repeated(es[o.used..], rest, pid, NextSeq(sq), dump, later, j - 1);
          LaterRepeated(es, fails, o.used, later, at, pid, sq, j - 1, dump);
        } else {
          FirstRepeated(es, fails, pid, sq, dump, at);
        }
      }
      LaterSettles(es, fails, o.used, later[|later| - 1], pid, sq, |later| - 1, dump, tries - 1,
        Run(es[o.used..], rest, pid, NextSeq(sq), dump, tries - 1));
    } else {
      at := [0];
    }
  }

  lemma FirstAttempt(es: seq<Event>, fails: seq<int>, pid: nat, sq: nat, dump: bool, tries: nat)
    requires tries > 0
    ensures var o := Recv(es, pid, NextSeq(sq), dump, []); var r := Run(es, fails, pid, sq, dump, tries);
      if SendError(fails) == 0 && Again(o, dump) && tries > 1 then
        var rest := if fails == [] then [] else fails[1..];
        var l := Run(es[o.used..], rest, pid, NextSeq(sq), dump, tries - 1);
        r == l.(sends := l.sends + 1, used := l.used + o.used)
      else r.sends == 1 && Settles(es, fails, pid, sq, dump, tries, 0, 0, r)
  {
    hide Recv, Again, WorthRepeating;
    AgainIs(Recv(es, pid, NextSeq(sq), dump, []), dump);
    assert es[0..] == es;
    if tries == 1 && SendError(fails) == 0 && Again(Recv(es, pid, NextSeq(sq), dump, []), dump) {
      assert Run(es[Recv(es, pid, NextSeq(sq), dump, []).used..], if fails == [] then [] else fails[1..], pid,
        NextSeq(sq), dump, 0) == Result(EINTR, [], NextSeq(sq), 0, 0);
    }
  }

  lemma FirstRepeated(es: seq<Event>, fails: seq<int>, pid: nat, sq: nat, dump: bool, at: seq<nat>)
    requires SendError(fails) == 0 && Again(Recv(es, pid, NextSeq(sq), dump, []), dump)
    requires |at| > 1 && at[0] == 0 && at[1] == Recv(es, pid, NextSeq(sq), dump, []).used
    ensures Repeated(es, fails, pid, sq, dump, at, 0)
  {
    hide Recv, Again, WorthRepeating;
    AgainIs(Recv(es, pid, NextSeq(sq), dump, []), dump);
    assert es[0..] == es;
  }

  lemma LaterRepeated(es: seq<Event>, fails: seq<int>, used: nat, later: seq<nat>, at: seq<nat>, pid: nat, sq: nat,
                      j: nat, dump: bool)
    requires used <= |es| && |at| == |later| + 1 && forall i :: 0 <= i < |later| ==> at[i + 1] == used + later[i]
    requires Repeated(es[used..], if fails == [] then [] else fails[1..], pid, NextSeq(sq), dump, later, j)
    ensures Repeated(es, fails, pid, sq, dump, at, j + 1)
  {
    hide Recv, WorthRepeating, NextSeq;
    Shifted(es, fails, used, later[j], pid, sq, j, dump);
  }

  lemma LaterSettles(es: seq<Event>, fails: seq<int>, used: nat, from: nat, pid: nat, sq: nat, j: nat, dump: bool,
                     tries: nat, r: Result)
    requires used <= |es|
    requires Settles(es[used..], if fails == [] then [] else fails[1..], pid, NextSeq(sq), dump, tries, from, j, r)
    ensures Settles(es, fails, pid, sq, dump, tries + 1, used + from, j + 1,
      r.(sends := r.sends + 1, used := r.used + used))
  {
    hide Recv, WorthRepeating, NextSeq;
    Shifted(es, fails, used, from, pid, sq, j, dump);
  }

  lemma Shifted(es: seq<Event>, fails: seq<int>, used: nat, from: nat, pid: nat, sq: nat, j: nat, dump: bool)
    requires used <= |es| && from <= |es[used..]|
    ensures ReceiveAt(es[used..], from, pid, NextSeq(sq), j, dump) == ReceiveAt(es, used + from, pid, sq, j + 1, dump)
    ensures SendErrorAt(if fails == [] then [] else fails[1..], j) == SendErrorAt(fails, j + 1)
    ensures (NextSeq(sq) + j + 1) % 0x1_0000_0000 == (sq + (j + 1) + 1) % 0x1_0000_0000
  {
    hide Recv;
    SeqSum(sq, j + 1);
    assert es[used..][from..] == es[used + from..];
  }

  /** For every trace without acknowledgements a successful dump returns, after at most sixteen
      requests, exactly the messages that match the handle's port and the last sequence number
      and precede the first matching DONE, in order, none flagged as interrupted. Nothing in front of
      that DONE is a matching error. */
  lemma DumpExchange(es: seq<Event>, fails: seq<int>, pid: nat, sq: nat) returns (from: nat, k: nat)
    requires TraceOk(es) && forall n :: NoAck(es, pid, n)
    requires Run(es, fails, pid, sq, true, RETRY_COUNT).err == 0
    ensures var r := Run(es, fails, pid, sq, true, RETRY_COUNT);
      && 1 <= r.sends <= 16 && r.sq == (sq + r.sends) % 0x1_0000_0000 && from <= |es|
      && var ms := Heard(es[from..]);
      && k < |ms| && PidOf(ms[k]) == pid && SeqOf(ms[k]) == r.sq && TypeOf(ms[k]) == NLMSG_DONE
      && (forall j :: 0 <= j < k && PidOf(ms[j]) == pid && SeqOf(ms[j]) == r.sq ==>
            TypeOf(ms[j]) != NLMSG_DONE && TypeOf(ms[j]) != NLMSG_ERROR)
      && r.dest == Answering(ms[..k], pid, r.sq)
      && (forall j :: 0 <= j < |r.dest| ==> FlagsOf(r.dest[j]) / 0x10 % 2 == 0)
  {
    hide Recv, Interrupted, Heard, Run, NoAck, TraceOk, Silence, ReceivedRight;
    from := RunSucceeds(es, fails, pid, sq, true, RETRY_COUNT);
    var r := Run(es, fails, pid, sq, true, RETRY_COUNT);
    var rest := es[from..];
    assert NoAck(es, pid, r.sq);
    DropOk(es, from, pid, r.sq);
    k := SucceededBy(rest, pid, r.sq, true, r.dest);
    NotFlagged(r.dest);
  }

  lemma NotFlagged(ms: seq<Msg>)
    requires !Interrupted(ms)
    ensures forall j :: 0 <= j < |ms| ==> FlagsOf(ms[j]) / 0x10 % 2 == 0
  {
    forall j | 0 <= j < |ms| ensures FlagsOf(ms[j]) / 0x10 % 2 == 0 {
      assert !DumpInterrupted(ms[j]);
    }
  }

  /** A receive succeeds by its first last answer. */
  lemma SucceededBy(es: seq<Event>, pid: nat, sq: nat, dump: bool, dest: seq<Msg>) returns (k: nat)
    requires TraceOk(es) && NoAck(es, pid, sq)
    requires Recv(es, pid, sq, dump, []).err == 0 && Recv(es, pid, sq, dump, []).dest == dest
    ensures var ms := Heard(es);
      && FirstLast(ms, pid, sq, dump, k) && TypeOf(ms[k]) != NLMSG_ERROR
      && dest == if dump then Answering(ms[..k], pid, sq) else [ms[k]]
  {
    hide Recv, Heard, Silence, TraceOk, NoAck;
    var ms := Heard(es);
    RecvMeaning(es, pid, sq, dump);
    SilenceFails(es);
    var n :| 0 <= n < |ms| && LastAnswer(ms[n], pid, sq, dump);
    k := FirstOfLast(ms, pid, sq, dump, n);
    NoAckHeard(es, pid, sq, k);
  }

  lemma FirstOfLast(ms: seq<Msg>, pid: nat, sq: nat, dump: bool, n: nat) returns (k: nat)
    requires n < |ms| && LastAnswer(ms[n], pid, sq, dump)
    ensures FirstLast(ms, pid, sq, dump, k)
  {
    k := 0;
    while !LastAnswer(ms[k], pid, sq, dump)
      invariant k <= n && forall j :: 0 <= j < k ==> !LastAnswer(ms[j], pid, sq, dump)
      decreases n - k
    {
      k := k + 1;
    }
  }

  lemma {:induction false} SilenceFails(es: seq<Event>)
    requires TraceOk(es)
    ensures Silence(es) != 0
  {
    if es != [] {
      assert EventOk(es[0]);
      forall k | 0 <= k < |es[1..]| ensures EventOk(es[1..][k]) {
        assert es[1..][k] == es[k + 1];
      }
      SilenceFails(es[1..]);
    }
  }

  lemma {:induction false} NoAckHeard(es: seq<Event>, pid: nat, sq: nat, k: nat)
    requires NoAck(es, pid, sq) && k < |Heard(es)|
    ensures !Ack(Heard(es)[k], pid, sq)
  {
    var first := if es[0].sender == 0 then Received(es[0]) else [];
    if k >= |first| {
      NoAckTail(es, pid, sq);
      NoAckHeard(es[1..], pid, sq, k - |first|);
    }
  }

  /** A successful request that is no dump returns the first answer to the last sequence number. */
  lemma SingleExchange(es: seq<Event>, fails: seq<int>, pid: nat, sq: nat) returns (from: nat, k: nat)
    requires TraceOk(es) && forall n :: NoAck(es, pid, n)
    requires Run(es, fails, pid, sq, false, RETRY_COUNT).err == 0
    ensures var r := Run(es, fails, pid, sq, false, RETRY_COUNT);
      && 1 <= r.sends <= 16 && r.sq == (sq + r.sends) % 0x1_0000_0000 && from <= |es|
      && var ms := Heard(es[from..]);
      && k < |ms| && PidOf(ms[k]) == pid && SeqOf(ms[k]) == r.sq && TypeOf(ms[k]) != NLMSG_ERROR && r.dest == [ms[k]]
      && (forall j :: 0 <= j < k ==> PidOf(ms[j]) != pid || SeqOf(ms[j]) != r.sq)
  {
    hide Recv, Interrupted, Heard, Run, NoAck, TraceOk, Silence, ReceivedRight;
    from := RunSucceeds(es, fails, pid, sq, false, RETRY_COUNT);
    var r := Run(es, fails, pid, sq, false, RETRY_COUNT);
    assert NoAck(es, pid, r.sq);
    DropOk(es, from, pid, r.sq);
    k := SucceededBy(es[from..], pid, r.sq, false, r.dest);
  }

  lemma DropOk(es: seq<Event>, from: nat, pid: nat, sq: nat)
    requires from <= |es| && TraceOk(es) && NoAck(es, pid, sq)
    ensures TraceOk(es[from..]) && NoAck(es[from..], pid, sq)
  {
    var t := es[from..];
    forall k | 0 <= k < |t| ensures EventOk(t[k]) {
      assert t[k] == es[from + k];
    }
    forall k, j | 0 <= k < |t| && t[k].Datagram? && t[k].sender == 0 && 0 <= j < |Received(t[k])|
      ensures !Ack(Received(t[k])[j], pid, sq)
    {
      assert t[k] == es[from + k];
    }
  }

  // ----- the loops

  /** nl_handle, with what its socket will still deliver and which sends will fail. */
  class Handle {
    const pid: nat
    var sq: nat
    var events: seq<Event>
    var fails: seq<int>

    constructor (pid: nat, events: seq<Event>, fails: seq<int>)
      ensures this.pid == pid && sq == 0 && this.events == events && this.fails == fails
    {
      this.pid, sq, this.events, this.fails := pid, 0, events, fails;
    }
  }

  /** The header with its sequence number set. */
  function WithSeq(m: seq<byte>, sq: nat): (r: seq<byte>)
    requires |m| >= HEADER
    ensures |r| == |m| && SeqOf(r) == sq % 0x1_0000_0000
    ensures r[..8] == m[..8] && r[12..] == m[12..]
  {
    var r := m[..8] + Le32(sq) + m[12..];
    U32Prefix(r[8..], Le32(sq));
    r
  }

  /** nl_send */
  method NlSend(h: Handle, src: Message) returns (err: int)
    requires src.Valid() && src.len >= HEADER
    modifies h`sq, h`fails, src.buf
    ensures src.Valid() && src.Content() == WithSeq(old(src.Content()), h.sq)
    ensures h.sq == NextSeq(old(h.sq)) && err == SendError(old(h.fails))
    ensures h.fails == if old(h.fails) == [] then [] else old(h.fails)[1..]
  {
    h.sq := NextSeq(h.sq);
    ghost var was := src.Content();
    src.Write(8, Le32(h.sq));
    assert src.buf[..src.len] == was[..8] + Le32(h.sq) + was[12..];
    err := SendError(h.fails);
    h.fails := if h.fails == [] then [] else h.fails[1..];
  }

  /** The walk over a received datagram: `stop` when nl_recv returns from inside it. */
  method Collect(h: Handle, datagram: seq<byte>, isDump: bool, before: seq<Msg>)
    returns (stop: bool, err: int, dest: seq<Msg>)
    ensures Take(ClassifyAll(Walk(datagram), h.pid, h.sq, isDump), before, isDump) ==
      if stop then Stop(err, dest) else More(dest)
  {
    dest, err, stop := before, 0, false;
    var n := datagram;
    while MsgOk(n)
      invariant Take(ClassifyAll(Walk(datagram), h.pid, h.sq, isDump), before, isDump)
             == Take(ClassifyAll(Walk(n), h.pid, h.sq, isDump), dest, isDump)
      decreases |n|
    {
      var m: Msg := n[..U32(n)];
      WalkStep(n, h.pid, h.sq, isDump);
      if PidOf(m) == h.pid && SeqOf(m) == h.sq {
        if isDump && TypeOf(m) == NLMSG_DONE {
          return true, 0, dest;
        }
        if TypeOf(m) == NLMSG_ERROR {
          return true, -ErrorOf(m), [];
        }
        dest := dest + [m];
        if !isDump {
          return true, 0, dest;
        }
      }
      n := After(n);
    }
  }

  lemma WalkStep(n: seq<byte>, pid: nat, sq: nat, dump: bool)
    requires MsgOk(n)
    ensures var xs := ClassifyAll(Walk(n), pid, sq, dump);
      xs != [] && xs[0] == Classify(n[..U32(n)], pid, sq, dump) && xs[1..] == ClassifyAll(Walk(After(n)), pid, sq, dump)
  {
    assert Walk(n)[1..] == Walk(After(n));
  }

  /** The list entry nl_recv makes of a message it keeps. */
  method MakeEntry(n: Msg) returns (entry: Message)
    requires |n| < LIMIT
    ensures fresh(entry) && fresh(entry.buf) && entry.Valid() && entry.Content() == n && entry.start == HEADER
  {
    entry := new Message(|n|);
    entry.PutRaw(n, 0);
    assert [] + Chunk(0, n, 0) == n;
    entry.ResetStart();
  }

  /** The received messages as a list of separate entries. */
  method MakeEntries(ms: seq<Msg>) returns (list: seq<Message>)
    requires forall k :: 0 <= k < |ms| ==> |ms[k]| < LIMIT
    ensures |list| == |ms| && fresh(list) && NoDup(list)
    ensures forall k :: 0 <= k < |ms| ==> list[k].Valid() && list[k].Content() == ms[k] && list[k].start == HEADER
  {
    list := [];
    for k := 0 to |ms|
      invariant |list| == k && fresh(list) && NoDup(list)
      invariant forall j :: 0 <= j < k ==> fresh(list[j].buf)
      invariant forall j :: 0 <= j < k ==> list[j].Valid() && list[j].Content() == ms[j] && list[j].start == HEADER
    {
      var entry := MakeEntry(ms[k]);
      NoDupAppend(list, entry);
      list := list + [entry];
    }
  }

  /** nl_recv */
  method NlRecv(h: Handle, isDump: bool) returns (err: int, dest: seq<Msg>)
    modifies h`events
    ensures var r := Recv(old(h.events), h.pid, h.sq, isDump, []);
      err == r.err && dest == r.dest && h.events == old(h.events)[r.used..]
    ensures ReceivedRight(old(h.events), h.pid, h.sq, isDump, err, dest)
  {
    hide Take, Items, ReceivedRight;
    RecvMeaning(h.events, h.pid, h.sq, isDump);
    dest := [];
    ghost var n := 0;
    while h.events != []
      invariant n <= |old(h.events)| && h.events == old(h.events)[n..]
      invariant var r := Recv(h.events, h.pid, h.sq, isDump, dest);
        Recv(old(h.events), h.pid, h.sq, isDump, []) == r.(used := r.used + n)
      decreases |h.events|
    {
      var e := h.events[0];
      h.events := h.events[1..];
      n := n + 1;
      EventItems(e, h.pid, h.sq, isDump, dest);
      match e
      case PollError(errno) => return errno, [];
      case Timeout => return ETIME, [];
      case RecvError(errno) => return errno, [];
      case Eof => return EPIPE, [];
      case Datagram(sender, bytes) =>
        if sender == 0 {
          var stop;
          stop, err, dest := Collect(h, if |bytes| <= RECV_SIZE then bytes else bytes[..RECV_SIZE], isDump, dest);
          if stop {
            return;
          }
        }
    }
    return ETIME, [];
  }

  lemma EventItems(e: Event, pid: nat, sq: nat, dump: bool, dest: seq<Msg>)
    ensures Take(Items(e, pid, sq, dump), dest, dump) ==
      match e
      case PollError(n) => Stop(n, [])
      case Timeout => Stop(ETIME, [])
      case RecvError(n) => Stop(n, [])
      case Eof => Stop(EPIPE, [])
      case Datagram(sender, _) =>
        if sender != 0 then More(dest) else Take(ClassifyAll(Received(e), pid, sq, dump), dest, dump)
  {
  }

  /** nl_check_interrupted_dump */
  method CheckInterrupted(ms: seq<Msg>) returns (yes: bool)
    ensures yes <==> Interrupted(ms)
  {
    for k := 0 to |ms|
      invariant forall j :: 0 <= j < k ==> !DumpInterrupted(ms[j])
    {
      if DumpInterrupted(ms[k]) {
        return true;
      }
    }
    return false;
  }

  /** One round of nl_exchange: send, receive, decide whether to try again. */
  method Attempt(h: Handle, src: Message, isDump: bool) returns (again: bool, err: int, dest: seq<Msg>)
    requires src.Valid() && src.len >= HEADER
    modifies h`sq, h`fails, h`events, src.buf
    ensures src.Valid() && src.Content() == WithSeq(old(src.Content()), h.sq)
    ensures h.sq == NextSeq(old(h.sq))
    ensures h.fails == if old(h.fails) == [] then [] else old(h.fails)[1..]
    ensures SendError(old(h.fails)) != 0 ==>
      !again && err == SendError(old(h.fails)) && dest == [] && h.events == old(h.events)
    ensures SendError(old(h.fails)) == 0 ==>
      var o := Recv(old(h.events), h.pid, h.sq, isDump, []);
      && h.events == old(h.events)[o.used..] && again == Again(o, isDump)
      && (!again ==> err == o.err && dest == if err == 0 then o.dest else [])
  {
    hide Recv, Interrupted, NextSeq, WithSeq;
    err := NlSend(h, src);
    if err != 0 {
      return false, err, [];
    }
    err, dest := NlRecv(h, isDump);
    if err == ETIME || err == EAGAIN || err == EINTR {
      return true, err, [];
    }
    if err != 0 {
      return false, err, [];
    }
    again := false;
    if isDump {
      again := CheckInterrupted(dest);
    }
  }

  /** nl_exchange */
  method NlExchange(h: Handle, src: Message) returns (err: int, dest: seq<Msg>)
    requires src.Valid() && src.len >= HEADER
    modifies h`sq, h`fails, h`events, src.buf
    ensures src.Valid() && |old(src.Content())| >= HEADER
    ensures var r := Run(old(h.events), old(h.fails), h.pid, old(h.sq), IsDump(FlagsOf(old(src.Content()))),
      RETRY_COUNT);
      && err == r.err && dest == r.dest && h.sq == r.sq && h.events == old(h.events)[r.used..]
      && src.Content() == WithSeq(old(src.Content()), h.sq)
  {
    hide Recv, Again, NextSeq, WithSeq, Run, Interrupted, IsDump, U16, Later;
    ghost var c0 := src.Content();
    assert src.buf[6..src.len] == c0[6..];
    var isDump := IsDump(U16(src.buf[6..src.len]));
    var retry: nat := RETRY_COUNT;
    ghost var used: nat, sent: nat := 0, 0;
    ghost var was := Run(h.events, h.fails, h.pid, h.sq, isDump, RETRY_COUNT);
    LaterNothing(was);
    while true
      invariant src.Valid() && src.len == |c0| && sent + retry == RETRY_COUNT
      invariant src.Content() == if sent == 0 then c0 else WithSeq(c0, h.sq)
      invariant used <= |old(h.events)| && h.events == old(h.events)[used..]
      invariant was == Later(Run(h.events, h.fails, h.pid, h.sq, isDump, retry), sent, used)
      decreases retry
    {
      if retry == 0 {
        NoneLeft(h.events, h.fails, h.pid, h.sq, isDump, sent, used);
        return EINTR, [];
      }
      retry := retry - 1;
      ghost var es, fails, sq := h.events, h.fails, h.sq;
      var again;
      again, err, dest := Attempt(h, src, isDump);
      TwiceSet(c0, sq, h.sq);
      sent := sent + 1;
      RunStep(was, es, fails, h.pid, sq, isDump, retry, sent - 1, used);
      if !again {
        return;
      }
      ghost var n := Recv(es, h.pid, h.sq, isDump, []).used;
      assert old(h.events)[used..][n..] == old(h.events)[used + n..];
      used := used + n;
    }
  }

  /** The result as seen from before `sends` requests and `used` events. */
  function Later(r: Result, sends: nat, used: nat): Result {
    r.(sends := r.sends + sends, used := r.used + used)
  }

  lemma LaterNothing(r: Result)
    ensures Later(r, 0, 0) == r
  {
  }

  lemma NoneLeft(es: seq<Event>, fails: seq<int>, pid: nat, sq: nat, dump: bool, sent: nat, used: nat)
    ensures Later(Run(es, fails, pid, sq, dump, 0), sent, used) == Result(EINTR, [], sq, sent, used)
  {
  }

  lemma TwiceSet(m: seq<byte>, a: nat, b: nat)
    requires |m| >= HEADER
    ensures WithSeq(WithSeq(m, a), b) == WithSeq(m, b)
  {
  }

  /** One round, in the middle of a run whose result is `was`. */
  lemma RunStep(was: Result, es: seq<Event>, fails: seq<int>, pid: nat, sq: nat, dump: bool, tries: nat, sent: nat,
                used: nat)
    requires was == Later(Run(es, fails, pid, sq, dump, tries + 1), sent, used)
    ensures var o := Recv(es, pid, NextSeq(sq), dump, []);
      if SendError(fails) != 0 then
        was.err == SendError(fails) && was.dest == [] && was.sq == NextSeq(sq) && was.used == used
      else if Again(o, dump) then
        var rest := if fails == [] then [] else fails[1..];
        was == Later(Run(es[o.used..], rest, pid, NextSeq(sq), dump, tries), sent + 1, used + o.used)
      else
        && was.err == o.err && was.dest == (if o.err == 0 then o.dest else [])
        && was.sq == NextSeq(sq) && was.used == used + o.used
  {
    hide Recv, Again, NextSeq, Interrupted;
    var o := Recv(es, pid, NextSeq(sq), dump, []);
    if SendError(fails) == 0 && Again(o, dump) {
      var r := Run(es[o.used..], if fails == [] then [] else fails[1..], pid, NextSeq(sq), dump, tries);
      assert Run(es, fails, pid, sq, dump, tries + 1) == r.(sends := r.sends + 1, used := r.used + o.used);
    }
  }
}
