/** handlers/veth.c, and handler.c's post pass as far as the veth handler goes, as functions of the
    graph. */
module Veth {
  import opened Common
  import opened Model
  import opened Resolution
  import opened Search

  const ENOENT := 2

  datatype Run = Run(g: Graph, err: int)

  /** driver_match for the veth handler. */
  predicate IsVeth(g: Graph, x: nat) {
    x < |g.info| && g.info[x].driver == Some("veth")
  }

  /** veth_scan, before any pass: the kernel's link report is really the peer's. `probed` is the
      peer index asked from the driver when there is no link report. */
  function Scanned(i: Info, probed: nat): Info {
    if i.linkIndex != 0
    then i.(peerIndex := i.linkIndex, peerNetnsid := i.linkNetnsid, linkIndex := 0, linkNetnsid := -1)
    else i.(peerIndex := probed)
  }

  /** veth_post */
  ghost function Post(g: Graph, x: nat): (r: Run)
    requires WF(g) && x < |g.info|
    ensures WF(r.g) && r.g.info == g.info
  {
    if g.peer[x].Some? then Run(g, 0)
    else if g.info[x].peerIndex == 0 then Run(g, ENOENT)
    else
      ResultId(g, ByPeer(x), Some(x));
      if Doubtful(g, ByPeer(x), x) then Run(Warn(g, x), 0)
      else Run(Pair(g, Some(x), Result(g, ByPeer(x), Some(x))), 0)
  }

  /** What the veth handler does in a post pass over `ids`; an error ends it. */
  ghost function PostAll(g: Graph, ids: seq<nat>): (r: Run)
    requires WF(g) && AllBelow(ids, |g.info|)
    ensures WF(r.g) && r.g.info == g.info
  {
    if ids == [] then Run(g, 0)
    else
      var r := PostAll(g, ids[..|ids| - 1]);
      var x := ids[|ids| - 1];
      if r.err != 0 || !IsVeth(g, x) then r else Post(r.g, x)
  }

  // ----- one call

  /** `h` is `g` with more pairs and more warnings. */
  ghost predicate Extends(g: Graph, h: Graph) {
    && SameLists(g, h) && h.info == g.info && h.master == g.master && h.link == g.link
    && |h.peer| == |g.peer| && |h.marks| == |g.marks|
    && (forall x :: 0 <= x < |g.peer| && g.peer[x].Some? ==> h.peer[x] == g.peer[x])
    && (forall x :: 0 <= x < |g.marks| ==>
          h.marks[x].warnings >= g.marks[x].warnings && h.marks[x] == g.marks[x].(warnings := h.marks[x].warnings))
  }

  /** The two ends name each other and both are veth devices. */
  predicate Ends(g: Graph, x: nat, y: nat) {
    && x != y && IsVeth(g, x) && IsVeth(g, y)
    && g.info[x].peerIndex == g.info[y].ifIndex && g.info[y].peerIndex == g.info[x].ifIndex
  }

  /** Every pair of `h` that `g` lacks joins two ends that were free. */
  ghost predicate NewPairsFit(g: Graph, h: Graph) {
    |h.peer| == |g.peer| && forall x: nat :: x < |g.peer| ==> NewPairFits(g, h, x)
  }

  ghost predicate NewPairFits(g: Graph, h: Graph, x: nat)
    requires x < |g.peer| == |h.peer|
  {
    g.peer[x].None? && h.peer[x].Some? ==>
      var y := h.peer[x].value; y < |g.peer| && g.peer[y].None? && Ends(g, x, y)
  }

  lemma PeerEligible(g: Graph, x: nat, y: nat)
    requires WF(g) && x < |g.info| && g.peer[x].None? && IsVeth(g, x)
    ensures Eligible(g, ByPeer(x), Some(x), y) <==> Ends(g, x, y) && g.peer[y].None?
  {
    if y < |g.info| {
      assert Mutual(g.peer, y);
    }
  }

  lemma PostEffect(g: Graph, x: nat)
    requires WF(g) && IsVeth(g, x)
    ensures Extends(g, Post(g, x).g) && NewPairsFit(g, Post(g, x).g)
    ensures Post(g, x).err == if g.peer[x].None? && g.info[x].peerIndex == 0 then ENOENT else 0
    ensures Post(g, x).err == 0 ==>
      Post(g, x).g.peer[x].Some? || Post(g, x).g.marks[x].warnings > g.marks[x].warnings
    ensures g.peer[x].None? && g.info[x].peerIndex != 0 && !Doubtful(g, ByPeer(x), x) ==>
      Post(g, x).g.peer[x] == Result(g, ByPeer(x), Some(x))
  {
    hide Result, Unsure;
    var h := Post(g, x).g;
    if g.peer[x].None? && g.info[x].peerIndex != 0 && !Doubtful(g, ByPeer(x), x) {
      ResultMeaning(g, ByPeer(x), Some(x));
      var y := Result(g, ByPeer(x), Some(x)).value;
      PeerEligible(g, x, y);
      SetPeerEffect(g.peer, Some(x), Some(y));
      forall z: nat | z < |g.peer| ensures NewPairFits(g, h, z) {
        assert h.peer[z] == PeerAfter(g.peer, Some(x), Some(y), z);
      }
      forall z | 0 <= z < |g.peer| && g.peer[z].Some? ensures h.peer[z] == g.peer[z] {
        assert h.peer[z] == PeerAfter(g.peer, Some(x), Some(y), z) && Mutual(g.peer, z);
      }
    }
  }

  // ----- the pass

  lemma ExtendsTrans(g: Graph, h: Graph, k: Graph)
    requires Extends(g, h) && Extends(h, k) && NewPairsFit(g, h) && NewPairsFit(h, k)
    ensures Extends(g, k) && NewPairsFit(g, k)
  {
    forall x: nat | x < |g.peer| ensures NewPairFits(g, k, x) {
      assert NewPairFits(g, h, x) && NewPairFits(h, k, x);
    }
  }

  /** The pass never breaks or changes a pair, and every pair it adds joins two veth ends that
      were free and name each other. */
  lemma {:induction false} PassOnlyPairs(g: Graph, ids: seq<nat>)
    requires WF(g) && AllBelow(ids, |g.info|)
    ensures Extends(g, PostAll(g, ids).g) && NewPairsFit(g, PostAll(g, ids).g)
  {
    hide Post, WF;
    if ids != [] {
      var init := ids[..|ids| - 1];
      PassOnlyPairs(g, init);
      var r := PostAll(g, init);
      if r.err == 0 && IsVeth(g, ids[|ids| - 1]) {
        PostEffect(r.g, ids[|ids| - 1]);
        ExtendsTrans(g, r.g, Post(r.g, ids[|ids| - 1]).g);
      }
    }
  }

  /** A veth device without a peer and without a peer index. */
  ghost predicate Stopper(g: Graph, x: nat) {
    IsVeth(g, x) && x < |g.peer| && g.peer[x].None? && g.info[x].peerIndex == 0
  }

  /** Device indexes start at one. */
  ghost predicate VethIndexed(g: Graph) {
    forall x: nat :: IsVeth(g, x) ==> g.info[x].ifIndex != 0
  }

  /** The pass fails exactly when it meets a stopper: nothing the pass does can rescue one. */
  lemma {:induction false} PassStops(g: Graph, ids: seq<nat>)
    requires WF(g) && AllBelow(ids, |g.info|) && VethIndexed(g)
    ensures PostAll(g, ids).err == 0 || PostAll(g, ids).err == ENOENT
    ensures PostAll(g, ids).err == ENOENT <==> exists x :: x in ids && Stopper(g, x)
  {
    hide Post, WF, Extends;
    if ids != [] {
      var init := ids[..|ids| - 1];
      var x := ids[|ids| - 1];
      assert ids == init + [x];
      PassStops(g, init);
      assert forall z {:trigger z in ids} {:trigger z in init} :: z in ids <==> z in init || z == x;
      PassOnlyPairs(g, init);
      var r := PostAll(g, init);
      if r.err == 0 && IsVeth(g, x) {
        PostEffect(r.g, x);
        Peerage(g, r.g, x);
        assert PostAll(g, ids) == Post(r.g, x);
        assert Post(r.g, x).err == ENOENT <==> Stopper(g, x);
      } else {
        assert PostAll(g, ids) == r;
        assert r.err == 0 ==> !Stopper(g, x);
      }
      assert x in ids;
    }
  }

  lemma Peerage(g: Graph, h: Graph, x: nat)
    requires WF(g) && WF(h) && Extends(g, h) && NewPairsFit(g, h) && IsVeth(g, x) && VethIndexed(g)
    ensures x < |g.peer| == |h.peer|
    ensures g.info[x].peerIndex == 0 ==> h.peer[x] == g.peer[x]
    ensures h.info == g.info
  {
    assert NewPairFits(g, h, x);
  }

  /** After a pass without error every visited veth device has a peer or a new warning. */
  lemma {:induction false} PairedOrWarned(g: Graph, ids: seq<nat>, x: nat)
    requires WF(g) && AllBelow(ids, |g.info|) && x in ids && IsVeth(g, x)
    requires PostAll(g, ids).err == 0
    ensures x < |g.marks| == |PostAll(g, ids).g.marks| && x < |PostAll(g, ids).g.peer|
    ensures var h := PostAll(g, ids).g; h.peer[x].Some? || h.marks[x].warnings > g.marks[x].warnings
  {
    hide Post;
    var init := ids[..|ids| - 1];
    var z := ids[|ids| - 1];
    assert ids == init + [z];
    var r := PostAll(g, init);
    PassOnlyPairs(g, init);
    if x in init {
      PairedOrWarned(g, init, x);
    }
    if IsVeth(g, z) {
      PostEffect(r.g, z);
    }
  }

  /** No third device could be taken for the other end of `x`. */
  ghost predicate NoRival(g: Graph, x: nat, y: nat) {
    forall z: nat :: Ends(g, x, z) ==> z == y
  }

  /** Two free ends that name each other, and that nobody else could be mistaken for, are peers
      after a pass that visits one of them, whichever comes first. */
  lemma {:induction false} TruePairsMeet(g: Graph, ids: seq<nat>, x: nat, y: nat)
    requires WF(g) && AllBelow(ids, |g.info|) && PostAll(g, ids).err == 0
    requires Ends(g, x, y) && NoRival(g, x, y) && NoRival(g, y, x) && VethIndexed(g)
    requires x < |g.peer| && y < |g.peer| && g.peer[x].None? && g.peer[y].None?
    ensures var h := PostAll(g, ids).g;
      && |h.peer| == |g.peer|
      && (x in ids || y in ids ==> h.peer[x] == Some(y) && h.peer[y] == Some(x))
      && (h.peer[x] == None || h.peer[x] == Some(y)) && (h.peer[y] == None || h.peer[y] == Some(x))
  {
    hide Post, PostAll;
    var h := PostAll(g, ids).g;
    PassOnlyPairs(g, ids);
    assert NewPairFits(g, h, x) && NewPairFits(g, h, y);
    if x in ids || y in ids {
      var z := if x in ids then x else y;
      FreeEndPairs(g, ids, z, if x in ids then y else x);
      assert Mutual(h.peer, z);
    }
  }

  lemma {:induction false} FreeEndPairs(g: Graph, ids: seq<nat>, x: nat, y: nat)
    requires WF(g) && AllBelow(ids, |g.info|) && PostAll(g, ids).err == 0 && x in ids
    requires Ends(g, x, y) && NoRival(g, x, y) && NoRival(g, y, x) && VethIndexed(g)
    requires x < |g.peer| && y < |g.peer| && g.peer[x].None? && g.peer[y].None?
    ensures |PostAll(g, ids).g.peer| == |g.peer| && PostAll(g, ids).g.peer[x] == Some(y)
  {
    hide Post;
    var init := ids[..|ids| - 1];
    var z := ids[|ids| - 1];
    assert ids == init + [z];
    var r := PostAll(g, init);
    PassOnlyPairs(g, init);
    if x in init {
      FreeEndPairs(g, init, x, y);
      if IsVeth(g, z) {
        PostEffect(r.g, z);
      }
    } else {
      FreeEndVisited(g, r.g, x, y);
    }
  }

  lemma FreeEndVisited(g: Graph, h: Graph, x: nat, y: nat)
    requires WF(g) && WF(h) && Extends(g, h) && NewPairsFit(g, h)
    requires Ends(g, x, y) && NoRival(g, x, y) && NoRival(g, y, x) && VethIndexed(g)
    requires g.peer[x].None? && g.peer[y].None?
    ensures |Post(h, x).g.peer| == |g.peer| && Post(h, x).g.peer[x] == Some(y)
  {
    hide Post;
    assert NewPairFits(g, h, x) && NewPairFits(g, h, y);
    assert Mutual(h.peer, x) && Mutual(h.peer, y);
    PostEffect(h, x);
    if h.peer[x].None? {
      ResultMeaning(h, ByPeer(x), Some(x));
      forall z: nat ensures Eligible(h, ByPeer(x), Some(x), z) <==> z == y {
        PeerEligible(h, x, z);
        assert Ends(h, x, z) == Ends(g, x, z);
      }
      assert Eligible(h, ByPeer(x), Some(x), y);
      assert Result(h, ByPeer(x), Some(x)) == Some(y) && !Doubtful(h, ByPeer(x), x);
      assert h.info[x].peerIndex != 0;
    }
  }

  // ----- pairs within a namespace

  /** The ends of a pair whose devices are in one namespace. */
  predicate Local(g: Graph, x: nat, y: nat) {
    Ends(g, x, y) && g.info[x].ns == g.info[y].ns
  }

  /** Device `z` names `x` or `y` and is named by it. */
  predicate Competes(g: Graph, x: nat, y: nat, z: nat) {
    Ends(g, x, z) || Ends(g, y, z)
  }

  ghost predicate Free(g: Graph, x: nat) {
    x < |g.peer| && g.peer[x].None?
  }

  /** Whoever could be taken for `x` or `y` and is free has a free other end in its own namespace. */
  ghost predicate RivalsServed(g: Graph, x: nat, y: nat) {
    forall z: nat :: Competes(g, x, y, z) && Free(g, z) ==> exists w: nat :: Local(g, z, w) && Free(g, w)
  }

  /** The pairs made so far among those devices are within a namespace. */
  ghost predicate OnlyLocal(g: Graph, h: Graph, x: nat, y: nat) {
    && |h.peer| == |g.peer|
    && forall z: nat :: Competes(g, x, y, z) && Free(g, z) && h.peer[z].Some? ==> Local(g, z, h.peer[z].value)
  }

  lemma LocalUnique(g: Graph, z: nat, w: nat, v: nat)
    requires UniqueIndexes(g) && WF(g) && Local(g, z, w) && Local(g, z, v)
    ensures w == v
  {
  }

  /** A free device with a free other end in its own namespace finds it, whoever else is free. */
  lemma LocalFound(g: Graph, z: nat, w: nat)
    requires WF(g) && UniqueIndexes(g) && VethIndexed(g) && Local(g, z, w) && Free(g, z) && Free(g, w)
    ensures Post(g, z).g.peer == SetPeer(g.peer, Some(z), Some(w)) && Post(g, z).err == 0
  {
    hide Result, Unsure, WF, VethIndexed, UniqueIndexes;
    ResultMeaning(g, ByPeer(z), Some(z));
    PeerEligible(g, z, w);
    NamedIndex(g, z, w);
    forall v: nat | Eligible(g, ByPeer(z), Some(z), v) && v != w
      ensures Score(g, ByPeer(z), v) < Score(g, ByPeer(z), w) {
      PeerEligible(g, z, v);
      LocalBest(g, z, w, v);
    }
  }

  lemma NamedIndex(g: Graph, z: nat, w: nat)
    requires VethIndexed(g) && Ends(g, z, w)
    ensures g.info[z].peerIndex != 0
  {
  }

  lemma LocalBest(g: Graph, z: nat, w: nat, v: nat)
    requires WF(g) && UniqueIndexes(g) && Local(g, z, w) && Free(g, z) && Free(g, w) && Ends(g, z, v) && v != w
    ensures Score(g, ByPeer(z), w) == 2 && Score(g, ByPeer(z), v) <= 1
  {
    if g.info[v].ns == g.info[z].ns {
      LocalUnique(g, z, w, v);
    }
  }

  /** A call pairs nobody but the entry it is made on. */
  lemma PostPairsOwn(h: Graph, z: nat, c: nat)
    requires WF(h) && IsVeth(h, z) && Free(h, c)
    ensures var k := Post(h, z).g;
      |k.peer| == |h.peer| && (k.peer[c].Some? ==> c == z || k.peer[c] == Some(z))
  {
    hide Result, Unsure;
    ResultId(h, ByPeer(z), Some(z));
    SetPeerEffect(h.peer, Some(z), Result(h, ByPeer(z), Some(z)));
  }

  lemma CompetesOn(g: Graph, x: nat, y: nat, z: nat, w: nat)
    requires Ends(g, x, y) && Competes(g, x, y, z) && Ends(g, z, w)
    ensures Competes(g, x, y, w)
  {
  }

  lemma BothCompete(g: Graph, x: nat, y: nat)
    requires Ends(g, x, y)
    ensures Competes(g, x, y, x) && Competes(g, x, y, y)
  {
  }

  /** The local other end of a competing device is still free when that device is visited free. */
  lemma StillFree(g: Graph, h: Graph, x: nat, y: nat, z: nat, w: nat)
    requires WF(g) && WF(h) && Extends(g, h) && OnlyLocal(g, h, x, y) && UniqueIndexes(g)
    requires Ends(g, x, y) && Competes(g, x, y, z) && Free(h, z) && Local(g, z, w) && Free(g, w)
    ensures Free(h, w)
  {
    BothCompete(g, x, y);
    CompetesOn(g, x, y, z, w);
    hide WF, UniqueIndexes;
    if h.peer[w].Some? {
      PeersMutual(h, w);
      LocalUnique(g, w, h.peer[w].value, z);
      assert false;
    }
  }

  lemma PeersMutual(h: Graph, w: nat)
    requires WF(h) && w < |h.peer| && h.peer[w].Some?
    ensures h.peer[w].value < |h.peer| && h.peer[h.peer[w].value] == Some(w)
  {
    assert Mutual(h.peer, w);
  }

  lemma CompetingStep(g: Graph, h: Graph, x: nat, y: nat, z: nat)
    requires WF(g) && WF(h) && Extends(g, h) && OnlyLocal(g, h, x, y) && RivalsServed(g, x, y)
    requires UniqueIndexes(g) && VethIndexed(g) && Ends(g, x, y) && Competes(g, x, y, z) && Free(h, z)
    ensures OnlyLocal(g, Post(h, z).g, x, y) && Post(h, z).g.peer[z].Some?
  {
    hide Post, WF, UniqueIndexes, VethIndexed;
    ExtendsFree(g, h, z);
    var w: nat :| Local(g, z, w) && Free(g, w);
    StillFree(g, h, x, y, z, w);
    SameIndexes(g, h);
    LocalFound(h, z, w);
    PairedPeers(h, z, w);
  }

  lemma PairedPeers(h: Graph, z: nat, w: nat)
    requires WF(h) && Free(h, z) && Free(h, w) && z != w
    ensures var p := SetPeer(h.peer, Some(z), Some(w));
      && |p| == |h.peer| && p[z] == Some(w) && p[w] == Some(z)
      && forall c :: 0 <= c < |p| && c != z && c != w ==> p[c] == h.peer[c]
  {
    SetPeerEffect(h.peer, Some(z), Some(w));
    forall c | 0 <= c < |h.peer| && c != z && c != w ensures SetPeer(h.peer, Some(z), Some(w))[c] == h.peer[c] {
      assert Mutual(h.peer, c);
    }
  }

  lemma ExtendsFree(g: Graph, h: Graph, z: nat)
    requires Extends(g, h) && Free(h, z)
    ensures Free(g, z)
  {
  }

  lemma SameIndexes(g: Graph, h: Graph)
    requires h.info == g.info
    ensures UniqueIndexes(g) == UniqueIndexes(h) && VethIndexed(g) == VethIndexed(h)
  {
  }

  lemma OtherStep(g: Graph, h: Graph, x: nat, y: nat, z: nat)
    requires WF(g) && WF(h) && Extends(g, h) && OnlyLocal(g, h, x, y)
    requires Ends(g, x, y) && !Competes(g, x, y, z) && IsVeth(g, z)
    ensures OnlyLocal(g, Post(h, z).g, x, y)
  {
    hide Post, WF;
    PostEffect(h, z);
    var k := Post(h, z).g;
    forall c: nat | Competes(g, x, y, c) && Free(g, c) && k.peer[c].Some? ensures Local(g, c, k.peer[c].value) {
      if Free(h, c) {
        PostPairsOwn(h, z, c);
        assert NewPairFits(h, k, c);
        BothCompete(g, x, y);
        CompetesOn(g, x, y, c, k.peer[c].value);
        assert false;
      }
    }
  }

  lemma {:induction false} PassOnlyLocal(g: Graph, ids: seq<nat>, x: nat, y: nat)
    requires WF(g) && AllBelow(ids, |g.info|) && UniqueIndexes(g) && VethIndexed(g)
    requires Ends(g, x, y) && RivalsServed(g, x, y)
    ensures OnlyLocal(g, PostAll(g, ids).g, x, y)
  {
    hide Post, WF, UniqueIndexes, VethIndexed, RivalsServed;
    if ids != [] {
      var init := ids[..|ids| - 1];
      var z := ids[|ids| - 1];
      PassOnlyLocal(g, init, x, y);
      PassOnlyPairs(g, init);
      var r := PostAll(g, init);
      if r.err == 0 && IsVeth(g, z) {
        VisitLocal(g, r.g, x, y, z);
      }
    }
  }

  lemma VisitLocal(g: Graph, h: Graph, x: nat, y: nat, z: nat)
    requires WF(g) && WF(h) && Extends(g, h) && OnlyLocal(g, h, x, y) && RivalsServed(g, x, y)
    requires UniqueIndexes(g) && VethIndexed(g) && Ends(g, x, y) && IsVeth(g, z)
    ensures OnlyLocal(g, Post(h, z).g, x, y)
    ensures Competes(g, x, y, z) && Free(g, z) && z < |Post(h, z).g.peer| ==> Post(h, z).g.peer[z].Some?
  {
    Sizes(h);
    hide WF, UniqueIndexes, VethIndexed, RivalsServed, Result, Unsure, Doubtful;
    if !Competes(g, x, y, z) {
      OtherStep(g, h, x, y, z);
    } else if h.peer[z].None? {
      CompetingStep(g, h, x, y, z);
    }
  }

  lemma {:induction false} LocalVisited(g: Graph, ids: seq<nat>, x: nat, y: nat, z: nat)
    requires WF(g) && AllBelow(ids, |g.info|) && UniqueIndexes(g) && VethIndexed(g) && PostAll(g, ids).err == 0
    requires Ends(g, x, y) && RivalsServed(g, x, y) && Competes(g, x, y, z) && Free(g, z) && z in ids
    ensures |PostAll(g, ids).g.peer| == |g.peer| && PostAll(g, ids).g.peer[z].Some?
  {
    hide Post, WF, UniqueIndexes, VethIndexed, RivalsServed;
    var init := ids[..|ids| - 1];
    var c := ids[|ids| - 1];
    assert ids == init + [c];
    PassOnlyPairs(g, ids);
    PassOnlyPairs(g, init);
    PassOnlyLocal(g, init, x, y);
    if z in init {
      LocalVisited(g, init, x, y, z);
      if IsVeth(g, c) {
        PostEffect(PostAll(g, init).g, c);
      }
    } else {
      VisitLocal(g, PostAll(g, init).g, x, y, z);
    }
  }

  /** With indexes unique per namespace, the free ends of a pair in one namespace become peers as soon as
      one is visited, however many devices elsewhere name the same indexes, if each free one of these has
      a free other end in its own namespace. */
  lemma LocalPairsMeet(g: Graph, ids: seq<nat>, x: nat, y: nat)
    requires WF(g) && AllBelow(ids, |g.info|) && UniqueIndexes(g) && VethIndexed(g) && PostAll(g, ids).err == 0
    requires Local(g, x, y) && Free(g, x) && Free(g, y) && RivalsServed(g, x, y)
    requires x in ids || y in ids
    ensures var h := PostAll(g, ids).g;
      |h.peer| == |g.peer| && h.peer[x] == Some(y) && h.peer[y] == Some(x)
  {
    hide PostAll, WF, UniqueIndexes, VethIndexed, RivalsServed;
    var h := PostAll(g, ids).g;
    PassOnlyLocal(g, ids, x, y);
    BothCompete(g, x, y);
    var z, w := if x in ids then x else y, if x in ids then y else x;
    LocalVisited(g, ids, x, y, z);
    LocalUnique(g, z, h.peer[z].value, w);
    PeersMutual(h, z);
  }
}
