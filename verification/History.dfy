/** Whole runs of the setters of master.c: what any sequence of master_set, link_set and
    peer_set calls leaves behind. */
module History {
  import opened Common
  import opened Model

  /** One call on one relation: point `who` at `target`. */
  datatype Call = Call(target: Option<nat>, who: nat)

  ghost predicate CallsFit(cs: seq<Call>, n: nat) {
    forall k :: 0 <= k < |cs| ==> cs[k].who < n && (cs[k].target.Some? ==> cs[k].target.value < n)
  }

  ghost function Run(r: Rel, cs: seq<Call>): (q: Rel)
    requires Mirror(r) && CallsFit(cs, |r.up|)
    ensures Mirror(q) && |q.up| == |r.up|
  {
    if cs == [] then r
    else
      var q := Run(r, cs[..|cs| - 1]);
      var c := cs[|cs| - 1];
      SetUpKeepsMirror(q, c.target, c.who);
      SetUp(q, c.target, c.who)
  }

  /** The position of the last call about `x`. */
  function Last(cs: seq<Call>, x: nat): Option<nat> {
    if cs == [] then None
    else if cs[|cs| - 1].who == x then Some(|cs| - 1)
    else Last(cs[..|cs| - 1], x)
  }

  lemma {:induction false} LastIsCall(cs: seq<Call>, x: nat)
    ensures Last(cs, x).Some? ==> Last(cs, x).value < |cs| && cs[Last(cs, x).value].who == x
  {
    if cs != [] {
      LastIsCall(cs[..|cs| - 1], x);
    }
  }

  /** Each forward pointer is what the last call about the entry asked for. */
  lemma {:induction false} LastCallWins(r: Rel, cs: seq<Call>, x: nat)
    requires Mirror(r) && CallsFit(cs, |r.up|) && x < |r.up|
    ensures Last(cs, x).Some? ==> Last(cs, x).value < |cs|
    ensures Run(r, cs).up[x] == match Last(cs, x) case None => r.up[x] case Some(k) => cs[k].target
  {
    LastIsCall(cs, x);
    if cs != [] {
      var init := cs[..|cs| - 1];
      LastCallWins(r, init, x);
      LastIsCall(init, x);
      SetUpKeepsMirror(Run(r, init), cs[|cs| - 1].target, cs[|cs| - 1].who);
    }
  }

  /** `x` was on the list before `y`. */
  ghost predicate Precedes(s: seq<nat>, x: nat, y: nat) {
    exists i, j :: 0 <= i < j < |s| && s[i] == x && s[j] == y
  }

  /** The order a run puts on the reverse list of `m`: entries never called about first, as they
      were, then the others by the time of their last call. */
  ghost predicate Earlier(r: Rel, cs: seq<Call>, m: nat, x: nat, y: nat)
    requires m < |r.down|
  {
    match (Last(cs, x), Last(cs, y))
    case (None, None) => Precedes(r.down[m], x, y)
    case (None, Some(_)) => true
    case (Some(_), None) => false
    case (Some(i), Some(j)) => i < j
  }

  ghost predicate InOrder(r: Rel, cs: seq<Call>, m: nat, s: seq<nat>)
    requires m < |r.down|
  {
    forall i, j :: 0 <= i < j < |s| ==> Earlier(r, cs, m, s[i], s[j])
  }

  lemma {:induction false} WithoutKeepsOrder(s: seq<nat>, z: nat, i: nat, j: nat) returns (i': nat, j': nat)
    requires i < j < |Without(s, z)|
    ensures i' < j' < |s| && s[i'] == Without(s, z)[i] && s[j'] == Without(s, z)[j]
  {
    if s[0] == z {
      i', j' := WithoutKeepsOrder(s[1..], z, i, j);
      i', j' := i' + 1, j' + 1;
    } else if i == 0 {
      WithoutMembers(s[1..], z);
      assert Without(s[1..], z)[j - 1] in s[1..];
      var k :| 0 <= k < |s[1..]| && s[1..][k] == Without(s[1..], z)[j - 1];
      i', j' := 0, k + 1;
    } else {
      i', j' := WithoutKeepsOrder(s[1..], z, i - 1, j - 1);
      i', j' := i' + 1, j' + 1;
    }
  }

  lemma DownAfter(q: Rel, t: Option<nat>, x: nat, m: nat)
    requires Mirror(q) && x < |q.up| && (t.Some? ==> t.value < |q.up|) && m < |q.down|
    ensures |SetUp(q, t, x).down| == |q.down|
    ensures SetUp(q, t, x).down[m] == Without(q.down[m], x) + (if t == Some(m) then [x] else [])
  {
    if q.up[x] != Some(m) {
      WithoutAbsent(q.down[m], x);
    }
  }

  /** Every reverse list is in the order of the last calls. With `LastCallWins` and the mirror
      property this determines every list completely. */
  lemma {:induction false} ListsInCallOrder(r: Rel, cs: seq<Call>, m: nat)
    requires Mirror(r) && CallsFit(cs, |r.up|) && m < |r.down|
    ensures m < |Run(r, cs).down| && InOrder(r, cs, m, Run(r, cs).down[m])
  {
    if cs == [] {
      forall i, j | 0 <= i < j < |r.down[m]| ensures Earlier(r, cs, m, r.down[m][i], r.down[m][j]) {
        assert Precedes(r.down[m], r.down[m][i], r.down[m][j]);
      }
    } else {
      var init := cs[..|cs| - 1];
      var c := cs[|cs| - 1];
      var q := Run(r, init);
      ListsInCallOrder(r, init, m);
      DownAfter(q, c.target, c.who, m);
      var was := q.down[m];
      var w := Without(was, c.who);
      WithoutMembers(was, c.who);
      var s := Run(r, cs).down[m];
      forall i, j | 0 <= i < j < |s| ensures Earlier(r, cs, m, s[i], s[j]) {
        assert s[i] == w[i] && w[i] in w;
        LastIsCall(init, s[i]);
        if j < |w| {
          assert w[j] in w;
          var i', j' := WithoutKeepsOrder(was, c.who, i, j);
          assert Earlier(r, init, m, was[i'], was[j']);
        }
      }
    }
  }

  // ----- the three families together

  datatype GraphCall =
    | MasterCall(call: Call)
    | LinkCall(call: Call)
    | PeerCall(first: Option<nat>, second: Option<nat>)

  ghost predicate Fits(c: GraphCall, n: nat) {
    match c
    case MasterCall(k) => CallsFit([k], n)
    case LinkCall(k) => CallsFit([k], n)
    case PeerCall(a, b) => (a.Some? ==> a.value < n) && (b.Some? ==> b.value < n)
  }

  ghost function Apply(g: Graph, c: GraphCall): (h: Graph)
    requires WF(g) && Fits(c, |g.info|)
    ensures WF(h) && h.info == g.info
  {
    match c
    case MasterCall(k) => assert [k][0] == k; SetMaster(g, k.target, k.who)
    case LinkCall(k) => assert [k][0] == k; SetLink(g, k.target, k.who)
    case PeerCall(a, b) => Pair(g, a, b)
  }

  ghost predicate AllFit(cs: seq<GraphCall>, n: nat) {
    forall k :: 0 <= k < |cs| ==> Fits(cs[k], n)
  }

  ghost function RunAll(g: Graph, cs: seq<GraphCall>): (h: Graph)
    requires WF(g) && AllFit(cs, |g.info|)
    ensures WF(h) && h.info == g.info
  {
    if cs == [] then g else Apply(RunAll(g, cs[..|cs| - 1]), cs[|cs| - 1])
  }

  function MasterCalls(cs: seq<GraphCall>): seq<Call> {
    if cs == [] then []
    else
      var rest := MasterCalls(cs[..|cs| - 1]);
      if cs[|cs| - 1].MasterCall? then rest + [cs[|cs| - 1].call] else rest
  }

  function LinkCalls(cs: seq<GraphCall>): seq<Call> {
    if cs == [] then []
    else
      var rest := LinkCalls(cs[..|cs| - 1]);
      if cs[|cs| - 1].LinkCall? then rest + [cs[|cs| - 1].call] else rest
  }

  /** Over any mixture of calls the two relations evolve as if each had been alone: no call
      disturbs a list of another family. */
  lemma {:induction false} FamiliesAreApart(g: Graph, cs: seq<GraphCall>)
    requires WF(g) && AllFit(cs, |g.info|)
    ensures CallsFit(MasterCalls(cs), |g.info|) && CallsFit(LinkCalls(cs), |g.info|)
    ensures |g.master.up| == |g.link.up| == |g.info|
    ensures RunAll(g, cs).master == Run(g.master, MasterCalls(cs))
    ensures RunAll(g, cs).link == Run(g.link, LinkCalls(cs))
  {
    hide Mirror, Placed, Involution, InRange;
    if cs != [] {
      var init := cs[..|cs| - 1];
      var c := cs[|cs| - 1];
      FamiliesAreApart(g, init);
      match c
      case MasterCall(k) =>
        assert [k][0] == k;
        assert MasterCalls(cs)[..|MasterCalls(init)|] == MasterCalls(init);
      case LinkCall(k) =>
        assert [k][0] == k;
        assert LinkCalls(cs)[..|LinkCalls(init)|] == LinkCalls(init);
      case PeerCall(_, _) =>
    }
  }
}
