/** handler.c's if_handler_post with the handlers that change relations: veth, and those of the kernel
    tunnels (handlers/vxlan.c, gre.c, vti.c, ipxipy.c). */
module PostPass {
  import opened Common
  import opened Model
  import opened Resolution
  import opened Search
  import opened Tunnel
  import opened Veth

  const TUNNEL_DRIVERS := {
    "vxlan", "gre", "gretap", "erspan", "ip6gre", "ip6gretap", "ip6erspan", "vti", "vti6", "ipip", "sit", "ip6tnl"
  }

  /** driver_match for the tunnel handlers. */
  predicate IsKernelTunnel(g: Graph, x: nat) {
    x < |g.info| && g.info[x].driver.Some? && g.info[x].driver.value in TUNNEL_DRIVERS
  }

  /** The namespace the tunnel's packets leave through. */
  ghost function Underlay(g: Graph, x: nat): (ns: nat)
    requires WF(g) && x < |g.info|
    ensures ns < |g.spaces|
  {
    match g.marks[x].linkNet
    case Some(j) => j
    case None => g.info[x].ns
  }

  /** The interface a kernel tunnel is attached to: the one that alone is up there with its local address. */
  ghost function TunnelEnd(g: Graph, x: nat): (e: Option<nat>)
    requires WF(g) && x < |g.info|
    ensures Id(g, e)
  {
    if IsKernelTunnel(g, x) && g.info[x].local.Some? then
      var e := Holder(g, Underlay(g, x), g.info[x].local.value);
      HolderIsHeld(g, Underlay(g, x), g.info[x].local.value);
      e
    else None
  }

  lemma HolderIsHeld(g: Graph, ns: nat, a: Address)
    requires WF(g) && ns < |g.spaces|
    ensures Holder(g, ns, a).Some? ==> Holds(g, ns, a, Holder(g, ns, a).value)
  {
    if Holder(g, ns, a).Some? {
      HolderMeaning(g, ns, a, Holder(g, ns, a).value);
    }
  }

  /** vxlan_post, gre_post, vti_post, ipxipy_post */
  ghost function TunnelPost(g: Graph, x: nat): (h: Graph)
    requires WF(g) && x < |g.info|
    ensures WF(h) && h == g.(link := h.link, marks := h.marks)
  {
    match TunnelEnd(g, x)
    case None => g
    case Some(e) =>
      var h := SetLink(g, Some(e), x);
      SetMarks(h, x, h.marks[x].(weakLink := true))
  }

  /** The post callback of the entry's driver. */
  ghost function PostOne(g: Graph, x: nat): (r: Run)
    requires WF(g) && x < |g.info|
    ensures WF(r.g) && r.g.info == g.info
  {
    if IsVeth(g, x) then Post(g, x) else Run(TunnelPost(g, x), 0)
  }

  /** The pass over `ids`; an error ends it. */
  ghost function HandleAll(g: Graph, ids: seq<nat>): (r: Run)
    requires WF(g) && AllBelow(ids, |g.info|)
    ensures WF(r.g) && r.g.info == g.info
  {
    if ids == [] then Run(g, 0)
    else
      var r := HandleAll(g, ids[..|ids| - 1]);
      if r.err != 0 then r else PostOne(r.g, ids[|ids| - 1])
  }

  /** After a stop, nothing more happens. */
  lemma {:induction false} StoppedForGood(g: Graph, a: seq<nat>, b: seq<nat>)
    requires WF(g) && AllBelow(a, |g.info|) && AllBelow(b, |g.info|) && HandleAll(g, a).err != 0
    ensures AllBelow(a + b, |g.info|) && HandleAll(g, a + b) == HandleAll(g, a)
    decreases |b|
  {
    hide WF, PostOne;
    if b == [] {
      assert a + b == a;
    } else {
      StoppedForGood(g, a, b[..|b| - 1]);
      assert (a + b)[..|a + b| - 1] == a + b[..|b| - 1];
    }
  }

  // ----- the handlers do not get into each other's way

  /** The two graphs differ in links and weak marks only. */
  ghost predicate SameButLinks(g: Graph, h: Graph) {
    && h == g.(link := h.link, marks := h.marks) && |h.marks| == |g.marks|
    && forall x :: 0 <= x < |g.marks| ==> h.marks[x] == g.marks[x].(weakLink := h.marks[x].weakLink)
  }

  ghost predicate SameWeak(g: Graph, h: Graph) {
    |h.marks| == |g.marks| && forall x :: 0 <= x < |g.marks| ==> h.marks[x].weakLink == g.marks[x].weakLink
  }

  lemma SearchesSame(g: Graph, h: Graph, x: nat)
    requires WF(g) && WF(h) && SameButLinks(g, h) && x < |g.info|
    ensures Doubtful(g, ByPeer(x), x) == Doubtful(h, ByPeer(x), x)
    ensures Result(g, ByPeer(x), Some(x)) == Result(h, ByPeer(x), Some(x)) && Id(g, Result(g, ByPeer(x), Some(x)))
  {
    hide Result, Unsure, Mirror, Involution, Placed;
    SearchSame(g, h, ByPeer(x), Some(x));
    ResultId(g, ByPeer(x), Some(x));
  }

  /** veth_post neither looks at links nor changes them. */
  lemma PostSame(g: Graph, h: Graph, x: nat)
    requires WF(g) && WF(h) && SameButLinks(g, h) && x < |g.info|
    ensures Post(g, x).err == Post(h, x).err && SameButLinks(Post(g, x).g, Post(h, x).g)
    ensures Post(h, x).g.link == h.link && SameWeak(h, Post(h, x).g)
  {
    hide Result, Unsure, Doubtful, Mirror, Involution, Placed, SetPeer;
    SearchesSame(g, h, x);
  }

  /** The tunnel handlers touch nothing but links and weak marks. */
  lemma TunnelPostSame(g: Graph, x: nat)
    requires WF(g) && x < |g.info|
    ensures SameButLinks(g, TunnelPost(g, x))
  {
    hide Holder;
  }

  lemma SameTrans(g: Graph, h: Graph, k: Graph)
    requires SameButLinks(g, h) && SameButLinks(h, k)
    ensures SameButLinks(g, k)
  {
  }

  /** For peers, warnings and the outcome, the pass with all these handlers is the one with the veth
      handler alone. */
  lemma {:induction false} VethPartAlone(g: Graph, ids: seq<nat>)
    requires WF(g) && AllBelow(ids, |g.info|)
    ensures HandleAll(g, ids).err == PostAll(g, ids).err
    ensures SameButLinks(PostAll(g, ids).g, HandleAll(g, ids).g)
  {
    hide WF, Post, TunnelPost, SameButLinks;
    if ids == [] {
      SameSelf(g);
    } else {
      var init := ids[..|ids| - 1];
      var x := ids[|ids| - 1];
      VethPartAlone(g, init);
      var v, h := PostAll(g, init), HandleAll(g, init);
      if v.err == 0 {
        if IsVeth(g, x) {
          PostSame(v.g, h.g, x);
        } else {
          TunnelPostSame(h.g, x);
          SameTrans(v.g, h.g, TunnelPost(h.g, x));
        }
      }
    }
  }

  lemma SameSelf(g: Graph)
    ensures SameButLinks(g, g)
  {
  }

  // ----- what the tunnel handlers achieve

  /** The pass gets to `x`. */
  ghost predicate Visited(g: Graph, ids: seq<nat>, x: nat)
    requires WF(g) && AllBelow(ids, |g.info|)
  {
    exists k: nat :: VisitedAt(g, ids, x, k)
  }

  ghost predicate VisitedAt(g: Graph, ids: seq<nat>, x: nat, k: nat)
    requires WF(g) && AllBelow(ids, |g.info|)
  {
    k < |ids| && ids[k] == x && PostAll(g, ids[..k]).err == 0
  }

  lemma TunnelEndSame(g: Graph, h: Graph, x: nat)
    requires WF(g) && WF(h) && x < |g.info| && h.info == g.info && |h.spaces| == |g.spaces|
    requires x < |g.marks| && x < |h.marks| && h.marks[x].linkNet == g.marks[x].linkNet
    ensures TunnelEnd(h, x) == TunnelEnd(g, x)
  {
    hide Holder;
    if g.info[x].local.Some? {
      HolderSame(g, h, Underlay(g, x), g.info[x].local.value);
    }
  }

  /** Link and weak mark of entry `x` after the pass. */
  ghost predicate TunnelDone(g: Graph, h: Graph, x: nat, visited: bool)
    requires WF(g) && x < |g.info|
  {
    && x < |h.link.up| && x < |h.marks|
    && (if visited && TunnelEnd(g, x).Some?
        then h.link.up[x] == TunnelEnd(g, x) && h.marks[x].weakLink
        else h.link.up[x] == g.link.up[x] && h.marks[x].weakLink == g.marks[x].weakLink)
  }

  lemma VisitedBefore(g: Graph, ids: seq<nat>, x: nat, k: nat)
    requires WF(g) && AllBelow(ids, |g.info|) && k < |ids| - 1
    ensures VisitedAt(g, ids, x, k) <==> VisitedAt(g, ids[..|ids| - 1], x, k)
  {
    hide WF, PostAll;
    assert ids[..|ids| - 1][..k] == ids[..k];
  }

  lemma VisitedLast(g: Graph, ids: seq<nat>, x: nat)
    requires WF(g) && AllBelow(ids, |g.info|) && ids != []
    ensures var init := ids[..|ids| - 1];
      Visited(g, ids, x) <==> Visited(g, init, x) || (PostAll(g, init).err == 0 && x == ids[|ids| - 1])
  {
    hide WF, PostAll, VisitedAt;
    var n := |ids| - 1;
    var init := ids[..n];
    AtLast(g, ids, x);
    if Visited(g, ids, x) {
      var k: nat :| VisitedAt(g, ids, x, k);
      AtRange(g, ids, x, k);
      if k < n {
        VisitedBefore(g, ids, x, k);
      }
    }
    if Visited(g, init, x) {
      var k: nat :| VisitedAt(g, init, x, k);
      AtRange(g, init, x, k);
      VisitedBefore(g, ids, x, k);
    }
  }

  lemma AtLast(g: Graph, ids: seq<nat>, x: nat)
    requires WF(g) && AllBelow(ids, |g.info|) && ids != []
    ensures VisitedAt(g, ids, x, |ids| - 1) <==> PostAll(g, ids[..|ids| - 1]).err == 0 && x == ids[|ids| - 1]
  {
  }

  lemma AtRange(g: Graph, ids: seq<nat>, x: nat, k: nat)
    requires WF(g) && AllBelow(ids, |g.info|) && VisitedAt(g, ids, x, k)
    ensures k < |ids|
  {
  }

  lemma TunnelStep(g: Graph, h: Graph, z: nat, x: nat, visited: bool)
    requires WF(g) && WF(h) && h.info == g.info && |h.spaces| == |g.spaces| && z < |g.info| && x < |g.info|
    requires |h.marks| == |g.marks| && forall y :: 0 <= y < |g.marks| ==> h.marks[y].linkNet == g.marks[y].linkNet
    requires TunnelDone(g, h, x, visited)
    ensures TunnelDone(g, TunnelPost(h, z), x, visited || x == z)
  {
    hide Holder, Mirror, Involution, Placed;
    Sizes(g);
    TunnelEndSame(g, h, z);
    SetUpKeepsMirror(h.link, TunnelEnd(h, z), z);
  }

  /** A veth device is none of the tunnels. */
  lemma NoTunnel(g: Graph, x: nat)
    requires WF(g) && IsVeth(g, x)
    ensures TunnelEnd(g, x).None?
  {
    assert "veth" !in TUNNEL_DRIVERS by {
      assert "veth"[0] == 'v' && "veth"[1] == 'e' && |"veth"| == 4;
      assert "vti6"[1] == 't' && "ipip"[0] == 'i';
    }
  }

  lemma VethStep(g: Graph, h: Graph, z: nat, x: nat, visited: bool)
    requires WF(g) && WF(h) && h.info == g.info && IsVeth(g, z) && x < |g.info| && TunnelDone(g, h, x, visited)
    ensures TunnelDone(g, Post(h, z).g, x, visited || x == z)
  {
    hide TunnelEnd, Post;
    NoTunnel(g, z);
    SameSelf(h);
    PostSame(h, h, z);
    Sizes(h);
  }

  /** The pass so far leaves alone what the tunnel handlers look at. */
  lemma LookupsKept(g: Graph, ids: seq<nat>)
    requires WF(g) && AllBelow(ids, |g.info|)
    ensures var h := HandleAll(g, ids).g;
      && h.info == g.info && SameLists(g, h) && h.master == g.master && |h.marks| == |g.marks|
      && forall y :: 0 <= y < |g.marks| ==> h.marks[y].linkNet == g.marks[y].linkNet
  {
    hide WF, HandleAll, PostAll, NewPairsFit;
    VethPartAlone(g, ids);
    PassOnlyPairs(g, ids);
  }

  /** Every kernel tunnel the pass gets to, and whose local address one interface alone holds, is linked
      to that interface, weakly; all other links and weak marks stay. */
  lemma {:induction false} TunnelsLinked(g: Graph, ids: seq<nat>, x: nat)
    requires WF(g) && AllBelow(ids, |g.info|) && x < |g.info|
    ensures TunnelDone(g, HandleAll(g, ids).g, x, Visited(g, ids, x))
  {
    hide WF, Post, TunnelPost, TunnelDone, PostAll, Visited, TunnelEnd;
    if ids == [] {
      NothingDone(g, x);
    } else {
      var init := ids[..|ids| - 1];
      var z := ids[|ids| - 1];
      TunnelsLinked(g, init, x);
      VisitedLast(g, ids, x);
      VethPartAlone(g, init);
      LookupsKept(g, init);
      var h := HandleAll(g, init);
      if h.err == 0 {
        if IsVeth(g, z) {
          VethStep(g, h.g, z, x, Visited(g, init, x));
        } else {
          TunnelStep(g, h.g, z, x, Visited(g, init, x));
        }
      }
    }
  }

  lemma NothingDone(g: Graph, x: nat)
    requires WF(g) && x < |g.info|
    ensures TunnelDone(g, g, x, Visited(g, [], x))
  {
  }

  /** The kernel's tunnel drivers, one by one. */
  predicate Named(driver: string) {
    || driver == "vxlan" || driver == "gre" || driver == "gretap" || driver == "erspan" || driver == "ip6gre"
    || driver == "ip6gretap" || driver == "ip6erspan" || driver == "vti" || driver == "vti6" || driver == "ipip"
    || driver == "sit" || driver == "ip6tnl"
  }

  /** Interface `f` alone is up with the local address of `x` in the namespace the packets of `x` leave
      through: its own unless the kernel names another. */
  ghost predicate Carries(g: Graph, x: nat, f: nat) {
    && x < |g.info| && x < |g.marks| && g.info[x].local.Some?
    && HoldsAlone(g, if g.marks[x].linkNet.Some? then g.marks[x].linkNet.value else g.info[x].ns,
                  g.info[x].local.value, f)
  }

  lemma TunnelEndNamed(g: Graph, x: nat, f: nat)
    requires WF(g) && x < |g.info|
    ensures TunnelEnd(g, x) == Some(f) <==>
      g.info[x].driver.Some? && Named(g.info[x].driver.value) && Carries(g, x, f)
  {
    hide Holder, HoldsAlone;
    if g.info[x].local.Some? {
      HolderMeaning(g, Underlay(g, x), g.info[x].local.value, f);
    }
  }

  /** Every device of these drivers that the pass gets to ends linked, weakly, to the interface that carries
      it, if there is one. Every other device keeps link and mark. */
  lemma NamedTunnelsLinked(g: Graph, ids: seq<nat>, x: nat)
    requires WF(g) && AllBelow(ids, |g.info|) && x < |g.info| && Visited(g, ids, x)
    ensures var h := HandleAll(g, ids).g;
      var carried := g.info[x].driver.Some? && Named(g.info[x].driver.value) && exists f: nat :: Carries(g, x, f);
      && x < |h.link.up| && x < |h.marks| && x < |g.link.up| && x < |g.marks|
      && (carried ==> h.link.up[x].Some? && Carries(g, x, h.link.up[x].value) && h.marks[x].weakLink)
      && (!carried ==> h.link.up[x] == g.link.up[x] && h.marks[x].weakLink == g.marks[x].weakLink)
  {
    hide HandleAll, Visited, TunnelEnd, Carries, Named, Placed, Mirror, Involution;
    TunnelsLinked(g, ids, x);
    if TunnelEnd(g, x).Some? {
      TunnelEndNamed(g, x, TunnelEnd(g, x).value);
    }
    if f: nat :| Carries(g, x, f) {
      TunnelEndNamed(g, x, f);
    }
  }

  /** Without an error the pass gets to everything. */
  lemma {:induction false} AllVisited(g: Graph, ids: seq<nat>, x: nat)
    requires WF(g) && AllBelow(ids, |g.info|) && x in ids && PostAll(g, ids).err == 0
    ensures Visited(g, ids, x)
  {
    hide WF, Post, Visited;
    VisitedLast(g, ids, x);
    if x in ids[..|ids| - 1] {
      AllVisited(g, ids[..|ids| - 1], x);
    }
  }
}
