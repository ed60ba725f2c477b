/** utils.c: the identifiers of namespaces and interfaces, built in fixed-size buffers. */
module Ident {
  import opened Common

  const NAME_MAX := 255
  const IFNAMSIZ := 16
  const INTERNAL_NS_MAX := NAME_MAX
  const NETNS_MAX := NAME_MAX + 1
  const IFID_MAX := INTERNAL_NS_MAX + NETNS_MAX + IFNAMSIZ + 1

  /** What snprintf leaves in a buffer of `size` bytes. */
  function Printed(s: string, size: nat): (r: string)
    requires size > 0
    ensures |r| < size
    ensures |s| < size ==> r == s
  {
    if |s| < size then s else s[..size - 1]
  }

  /** nsid; the root namespace has no name */
  function NsId(name: Option<string>): string {
    match name
    case None => "/"
    case Some(n) => Printed(n + "/", NETNS_MAX + 1)
  }

  /** ifid; an interface without an internal namespace has none in its id */
  function IfId(ns: Option<string>, internalNs: Option<string>, name: string): string {
    Printed(NsId(ns) + Text(internalNs) + "/" + name, IFID_MAX + 1)
  }

  function Text(s: Option<string>): string {
    match s
    case None => ""
    case Some(t) => t
  }

  predicate NsFits(name: Option<string>) {
    name.Some? ==> 0 < |name.value| <= NAME_MAX
  }

  /** No buffer cuts the identifier. */
  predicate Whole(ns: Option<string>, internalNs: Option<string>, name: string) {
    |Text(ns)| <= NAME_MAX && |Text(ns)| + |Text(internalNs)| + |name| + 2 <= IFID_MAX
  }

  /** The identifier as a whole fits its buffer; interface and internal names have no slash. A namespace
      name may have one. */
  predicate Fits(ns: Option<string>, internalNs: Option<string>, name: string) {
    NsFits(ns) && Whole(ns, internalNs, name) && '/' !in Text(internalNs) && '/' !in name
  }

  lemma NsIdWhole(name: Option<string>)
    requires NsFits(name)
    ensures NsId(name) == Text(name) + "/"
  {
  }

  lemma IfIdWhole(ns: Option<string>, internalNs: Option<string>, name: string)
    requires Fits(ns, internalNs, name)
    ensures IfId(ns, internalNs, name) == ((Text(ns) + "/") + Text(internalNs)) + "/" + name
  {
    NsIdWhole(ns);
  }

  /** The last slash splits a string in one way only. */
  lemma LastSlash(a: string, x: string, b: string, y: string)
    requires '/' !in x && '/' !in y && a + "/" + x == b + "/" + y
    ensures a == b && x == y
  {
    var s := a + "/" + x;
    if |a| < |b| {
      SlashInside(a, x, b, y);
      assert false;
    } else if |b| < |a| {
      SlashInside(b, y, a, x);
      assert false;
    }
    assert a == s[..|a|] && b == (b + "/" + y)[..|b|];
    assert x == s[|a| + 1..] && y == (b + "/" + y)[|b| + 1..];
  }

  /** If the first split were further left, the other's slash would be inside its right part. */
  lemma SlashInside(a: string, x: string, b: string, y: string)
    requires a + "/" + x == b + "/" + y && |a| < |b|
    ensures '/' in x
  {
    var s := a + "/" + x;
    assert s[|b|] == '/' && x[|b| - |a| - 1] == s[|b|];
  }

  /** Namespace ids tell namespaces apart. */
  lemma NsIdInjective(a: Option<string>, b: Option<string>)
    requires NsFits(a) && NsFits(b)
    ensures NsId(a) == NsId(b) <==> a == b
  {
    NsIdWhole(a);
    NsIdWhole(b);
    if NsId(a) == NsId(b) {
      assert Text(a) == NsId(a)[..|NsId(a)| - 1] && Text(b) == NsId(b)[..|NsId(b)| - 1];
    }
  }

  /** Interface ids tell interfaces apart by namespace, internal namespace and name. */
  lemma IfIdInjective(ns: Option<string>, ins: Option<string>, name: string,
                      ns': Option<string>, ins': Option<string>, name': string)
    requires Fits(ns, ins, name) && Fits(ns', ins', name')
    ensures IfId(ns, ins, name) == IfId(ns', ins', name') <==> ns == ns' && Text(ins) == Text(ins') && name == name'
  {
    IfIdWhole(ns, ins, name);
    IfIdWhole(ns', ins', name');
    if IfId(ns, ins, name) == IfId(ns', ins', name') {
      LastSlash((Text(ns) + "/") + Text(ins), name, (Text(ns') + "/") + Text(ins'), name');
      LastSlash(Text(ns), Text(ins), Text(ns'), Text(ins'));
    }
  }

  /** The parts of a string before and behind its last slash. */
  function AtLastSlash(s: string): (r: (string, string))
    requires '/' in s
    ensures s == r.0 + "/" + r.1 && '/' !in r.1
  {
    if s[|s| - 1] == '/' then (s[..|s| - 1], "")
    else
      var r := AtLastSlash(s[..|s| - 1]);
      (r.0, r.1 + [s[|s| - 1]])
  }

  /** The text of an identifier before it is put into the buffer. */
  function FullId(ns: Option<string>, internalNs: Option<string>, name: string): (r: string)
    ensures '/' in r && '/' in AtLastSlash(r).0
  {
    var left := (Text(ns) + "/") + Text(internalNs);
    var r := left + "/" + name;
    assert left[|Text(ns)|] == '/' && r[|left|] == '/';
    TwoSlashes(left, name);
    r
  }

  lemma TwoSlashes(left: string, name: string)
    requires '/' in left
    ensures '/' in left + "/" + name && '/' in AtLastSlash(left + "/" + name).0
  {
    var r := left + "/" + name;
    assert r[|left|] == '/';
    var c := AtLastSlash(r);
    if |c.0| < |left| {
      SlashInside(c.0, c.1, left, name);
      assert false;
    }
    var k :| 0 <= k < |left| && left[k] == '/';
    assert c.0[k] == r[k] == left[k];
  }

  /** Namespace, internal namespace and name as the last two slashes separate them. */
  function Reading(ns: Option<string>, internalNs: Option<string>, name: string): (string, string, string) {
    var outer := AtLastSlash(FullId(ns, internalNs, name));
    var inner := AtLastSlash(outer.0);
    (inner.0, inner.1, outer.1)
  }

  lemma WholeId(ns: Option<string>, internalNs: Option<string>, name: string)
    requires Whole(ns, internalNs, name)
    ensures IfId(ns, internalNs, name) == FullId(ns, internalNs, name)
  {
  }

  lemma FitsReading(ns: Option<string>, internalNs: Option<string>, name: string)
    requires Fits(ns, internalNs, name)
    ensures Whole(ns, internalNs, name) && Reading(ns, internalNs, name) == (Text(ns), Text(internalNs), name)
  {
    var outer := AtLastSlash(FullId(ns, internalNs, name));
    LastSlash(outer.0, outer.1, (Text(ns) + "/") + Text(internalNs), name);
    var inner := AtLastSlash(outer.0);
    LastSlash(inner.0, inner.1, Text(ns), Text(internalNs));
  }

  /** Which fitting interface an uncut identifier stands for, also that of an interface with slashes
      or an empty namespace name: the one read off at the last two slashes. */
  lemma SameIdExactly(ns: Option<string>, ins: Option<string>, name: string,
                      ns': Option<string>, ins': Option<string>, name': string)
    requires Whole(ns, ins, name) && Fits(ns', ins', name')
    ensures IfId(ns, ins, name) == IfId(ns', ins', name') <==> Reading(ns, ins, name) == (Text(ns'), Text(ins'), name')
  {
    hide AtLastSlash;
    FitsReading(ns', ins', name');
    WholeId(ns, ins, name);
    WholeId(ns', ins', name');
    var outer := AtLastSlash(FullId(ns, ins, name));
    var inner := AtLastSlash(outer.0);
    assert FullId(ns, ins, name) == (inner.0 + "/" + inner.1) + "/" + outer.1;
  }

  /** An uncut identifier is that of some fitting interface exactly if what stands before its last two
      slashes is short enough for a namespace name. */
  lemma CollidesExactly(ns: Option<string>, ins: Option<string>, name: string)
    requires Whole(ns, ins, name)
    ensures (exists n, i, m {:trigger Fits(n, i, m)} :: Fits(n, i, m) && IfId(n, i, m) == IfId(ns, ins, name)) <==>
      |Reading(ns, ins, name).0| <= NAME_MAX
  {
    hide AtLastSlash;
    var r := Reading(ns, ins, name);
    forall n, i, m | Fits(n, i, m) && IfId(n, i, m) == IfId(ns, ins, name)
      ensures |r.0| <= NAME_MAX
    {
      SameIdExactly(ns, ins, name, n, i, m);
    }
    if |r.0| <= NAME_MAX {
      var n := if r.0 == "" then None else Some(r.0);
      assert Fits(n, Some(r.1), r.2);
      SameIdExactly(ns, ins, name, n, Some(r.1), r.2);
    }
  }

  /** Each condition is needed: an empty namespace name looks like the root, a slash in an internal
      name can be shifted into a namespace name, and a name longer than the buffer is cut. */
  lemma ConditionsNeeded()
    ensures NsId(Some("")) == NsId(None)
    ensures IfId(None, Some("a/b"), "eth0") == IfId(Some("/a"), Some("b"), "eth0")
    ensures forall s: string, c, d :: |s| == NETNS_MAX ==> NsId(Some(s + [c])) == NsId(Some(s + [d]))
  {
    assert "" + "/" == "/";
    assert ("/" + "a/b") + "/" + "eth0" == ("/a" + "/") + "b" + "/" + "eth0";
    forall s: string, c, d | |s| == NETNS_MAX ensures NsId(Some(s + [c])) == NsId(Some(s + [d])) {
      assert (s + [c] + "/")[..NETNS_MAX] == s == (s + [d] + "/")[..NETNS_MAX];
    }
  }
}
