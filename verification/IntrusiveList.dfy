/** The doubly linked lists of list.h: nodes embedded in their containers, and lists
    that keep two sentinel nodes around the members. */
module IntrusiveList {
  import opened Common

  /** Which member of which structure: the role of the member and the number of the structure. */
  datatype Tag = Tag(role: nat, holder: nat)

  class Node {
    var next: Node?
    var prev: Node?
    /** The structure the node is embedded in, by number; looking it up stands for NODE_CONTAINER. */
    const holder: nat
    ghost const role: nat
    /** The list the node is currently threaded on, if any. */
    ghost var home: List?

    constructor (ghost role: nat, holder: nat)
      ensures next == null && prev == null && home == null
      ensures this.role == role && this.holder == holder
    {
      next, prev, home := null, null, null;
      this.role, this.holder := role, holder;
    }
  }

  class List {
    const head: Node
    const tail: Node
    ghost const tag: Tag
    /** All nodes in order, sentinels included. */
    ghost var nodes: seq<Node>

    ghost predicate Valid()
      reads this, nodes
    {
      && |nodes| >= 2 && nodes[0] == head && nodes[|nodes| - 1] == tail
      && head.prev == null && tail.next == null
      && (forall i :: 0 <= i < |nodes| ==> nodes[i].home == this)
      && (forall i {:trigger nodes[i].next} :: 0 <= i < |nodes| - 1 ==> nodes[i].next == nodes[i + 1])
      && (forall i {:trigger nodes[i].prev} :: 1 <= i < |nodes| ==> nodes[i].prev == nodes[i - 1])
      && (forall i, j :: 0 <= i < j < |nodes| ==> nodes[i] != nodes[j])
    }

    /** All nodes come from `s`. */
    ghost predicate Within(s: set<Node>)
      reads this
    {
      forall n :: n in nodes ==> n in s
    }

    /** All nodes know the list they are on. */
    ghost predicate AtHome()
      reads this, nodes
    {
      forall n :: n in nodes ==> n.home == this
    }

    constructor (ghost tag: Tag)
      ensures Valid() && fresh(head) && fresh(tail)
      ensures this.tag == tag
      ensures nodes == [head, tail] && AtHome()
    {
      var h := new Node(tag.role, 0);
      var t := new Node(tag.role, 0);
      head, tail := h, t;
      this.tag := tag;
      nodes := [h, t];
      new;
      head.next := tail;
      tail.prev := head;
      head.home, tail.home := this, this;
    }

    method Append(n: Node)
      requires Valid() && n.home == null
      modifies this`nodes, nodes`next, nodes`prev, n`next, n`prev, n`home
      ensures Valid() && n.home == this
      ensures nodes == old(nodes[..|nodes| - 1]) + [n, tail]
      ensures AtHome()
    {
      InsertBefore(tail, n, |nodes| - 1);
    }

    method Prepend(n: Node)
      requires Valid() && n.home == null
      modifies this`nodes, nodes`next, nodes`prev, n`next, n`prev, n`home
      ensures Valid() && n.home == this
      ensures nodes == [head, n] + old(nodes[1..])
    {
      InsertAfter(head, n, 0);
    }

    method InsertBefore(before: Node, n: Node, ghost k: nat)
      requires Valid() && n.home == null
      requires 0 < k < |nodes| && before == nodes[k]
      modifies this`nodes, nodes`next, nodes`prev, n`next, n`prev, n`home
      ensures Valid() && n.home == this
      ensures nodes == old(nodes[..k]) + [n] + old(nodes[k..])
    {
      var a := before.prev;
      before.prev := n;
      n.next := before;
      n.prev := a;
      a.next := n;
      n.home := this;
      nodes := nodes[..k] + [n] + nodes[k..];
    }

    method InsertAfter(after: Node, n: Node, ghost k: nat)
      requires Valid() && n.home == null
      requires k < |nodes| - 1 && after == nodes[k]
      modifies this`nodes, nodes`next, nodes`prev, n`next, n`prev, n`home
      ensures Valid() && n.home == this
      ensures nodes == old(nodes[..k + 1]) + [n] + old(nodes[k + 1..])
    {
      var z := after.next;
      after.next := n;
      n.prev := after;
      n.next := z;
      z.prev := n;
      n.home := this;
      nodes := nodes[..k + 1] + [n] + nodes[k + 1..];
    }

    method Pop() returns (n: Node?)
      requires Valid()
      modifies this, nodes
      ensures Valid()
      ensures old(|nodes|) == 2 ==> n == null && nodes == old(nodes)
      ensures old(|nodes|) > 2 ==> n == old(nodes[|nodes| - 2]) && n.home == null
      ensures old(|nodes|) > 2 ==> nodes == old(nodes[..|nodes| - 2]) + [tail]
    {
      if head.next.next == null {
        assert head.next == nodes[1];
        assert nodes[1] == nodes[|nodes| - 1];
        n := null;
      } else {
        assert head.next == nodes[1];
        n := tail.prev;
        NodeRemove(tail.prev, |nodes| - 2);
      }
    }
  }

  /** `k` is the position of `n` on its list, known to the proof only. */
  method NodeRemove(n: Node, ghost k: nat)
    requires n.home != null && n.home.Valid()
    requires 0 < k < |n.home.nodes| - 1 && n.home.nodes[k] == n
    modifies n.home`nodes, n.home.nodes`next, n.home.nodes`prev, n`home
    ensures n.home == null && n.next == null && n.prev == null
    ensures old(n.home).Valid()
    ensures old(n.home).nodes == old(n.home.nodes[..k]) + old(n.home.nodes[k + 1..])
    ensures old(n.home).AtHome()
  {
    ghost var l := n.home;
    var z := n.prev;
    var a := n.next;
    z.next := a;
    a.prev := z;
    n.next := null;
    n.prev := null;
    n.home := null;
    l.nodes := l.nodes[..k] + l.nodes[k + 1..];
  }

  /** Every list and node of the program. It owns nothing the original has; it lets the proof
      say that an operation on one list leaves all the others alone. */
  class ListStore {
    /** The members of each list, sentinels left out. */
    ghost var members: map<List, seq<Node>>
    /** The nodes on no list. */
    ghost var free: set<Node>
    ghost var nodes: set<Node>

    ghost predicate Sound(l: List)
      reads this, l, nodes
      requires l in members
    {
      l.Within(nodes) && l.AtHome() && l.nodes == [l.head] + members[l] + [l.tail] && l.Valid()
    }

    ghost predicate Valid()
      reads this, members.Keys, nodes
    {
      && (forall l :: l in members ==> Sound(l))
      && (forall n :: n in nodes && n.home != null ==> n.home in members)
      && (forall n :: n in free ==> n in nodes && n.home == null)
    }

    constructor ()
      ensures Valid() && members == map[] && free == {} && nodes == {}
    {
      members, free, nodes := map[], {}, {};
    }

    method NewNode(ghost role: nat, holder: nat) returns (n: Node)
      requires Valid()
      modifies this`free, this`nodes
      ensures Valid() && members == old(members) && fresh(n)
      ensures nodes == old(nodes) + {n} && free == old(free) + {n}
      ensures n.role == role && n.holder == holder
    {
      hide List.Valid;
      n := new Node(role, holder);
      nodes, free := nodes + {n}, free + {n};
      forall l | l in members ensures Sound(l) {
        assert old(Sound(l));
      }
    }

    method NewList(ghost tag: Tag) returns (l: List)
      requires Valid()
      modifies this`members, this`nodes
      ensures Valid() && fresh(l) && fresh(l.head) && fresh(l.tail)
      ensures members == old(members)[l := []] && free == old(free)
      ensures nodes == old(nodes) + {l.head, l.tail}
      ensures l.tag == tag
    {
      hide List.Valid;
      l := new List(tag);
      members := members[l := []];
      nodes := nodes + {l.head, l.tail};
      forall o | o in members && o != l ensures Sound(o) {
        assert old(Sound(o));
      }
      assert Sound(l);
    }

    /** Splicing a node into or out of `l` leaves every other list sound. */
    twostate lemma OthersKept(l: List)
      requires old(Valid()) && nodes == old(nodes) && members.Keys == old(members).Keys
      requires forall o :: o in members && o != l ==> unchanged(o) && members[o] == old(members)[o]
      requires forall x :: x in nodes && old(x.home) != null && old(x.home) != l ==> unchanged(x)
      ensures forall o :: o in members && o != l ==> Sound(o)
    {
      forall o | o in members && o != l
        ensures Sound(o)
      {
        assert old(Sound(o));
        assert forall x :: x in o.nodes ==> unchanged(x);
      }
    }

    /** list_append */
    method Append(l: List, n: Node)
      requires Valid() && l in members && n in free
      modifies this`members, this`free, l`nodes, nodes`next, nodes`prev, nodes`home
      ensures Valid()
      ensures members == old(members)[l := old(members)[l] + [n]] && members.Keys == old(members.Keys)
      ensures free == old(free) - {n}
    {
      hide List.Valid, List.Within, List.AtHome, Sound;
      assert Sound(l);
      ghost var was, before := members[l], l.nodes;
      InStore(l);
      l.Append(n);
      AppendBetween(l.head, was, l.tail, n);
      members := members[l := was + [n]];
      free := free - {n};
      OthersKept(l);
      FewerWithin(l, before + [n]);
      SoundNow(l);
    }

    lemma InStore(l: List)
      requires l in members && Sound(l)
      ensures forall k :: 0 <= k < |members[l]| ==> l.nodes[k + 1] == members[l][k]
      ensures l.nodes == [l.head] + members[l] + [l.tail] && l.Valid()
      ensures forall x :: x in l.nodes ==> x in nodes && x.home == l
    {
    }

    lemma SoundNow(l: List)
      requires l in members && l.Within(nodes) && l.AtHome() && l.Valid()
      requires l.nodes == [l.head] + members[l] + [l.tail]
      ensures Sound(l)
    {
    }

    lemma FewerWithin(l: List, was: seq<Node>)
      requires (forall x :: x in was ==> x in nodes) && forall x :: x in l.nodes ==> x in was
      ensures l.Within(nodes)
    {
    }

    /** node_remove of a node at position `k` of `l`. */
    method Remove(n: Node, ghost l: List, ghost k: nat)
      requires Valid() && l in members && k < |members[l]| && members[l][k] == n
      modifies this`members, this`free, l`nodes, nodes`next, nodes`prev, nodes`home
      ensures Valid()
      ensures members == old(members)[l := old(members)[l][..k] + old(members)[l][k + 1..]]
      ensures members.Keys == old(members.Keys)
      ensures free == old(free) + {n}
    {
      hide List.Valid, List.Within, List.AtHome, Sound;
      assert Sound(l);
      ghost var was, before := members[l], l.nodes;
      ghost var now := was[..k] + was[k + 1..];
      InStore(l);
      NodeRemove(n, k + 1);
      CutBetween(l.head, was, l.tail, k);
      members := members[l := now];
      free := free + {n};
      OthersKept(l);
      FewerWithin(l, before);
      SoundNow(l);
      assert forall x :: x in nodes && x != n ==> x.home == old(x.home);
    }
  }
}
