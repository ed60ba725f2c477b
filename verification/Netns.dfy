/** netns.c: collecting the network namespaces of the run directory and of /proc, one entry per
    kernel id, process namespaces named after their lowest process id. */
module Netns {
  import opened Common

  // ----- the list as a value

  /** `pid` is 0 for the root and for entries of the run directory; the root has no name. */
  datatype Ns = Ns(kernelId: int, pid: nat, name: Option<string>)

  /** netns_check_duplicate */
  function Duplicate(ns: seq<Ns>, id: int): (k: Option<nat>)
    ensures k.Some? ==> k.value < |ns| && ns[k.value].kernelId == id
    ensures k.None? ==> forall j :: 0 <= j < |ns| ==> ns[j].kernelId != id
  {
    if ns == [] then None
    else if ns[0].kernelId == id then Some(0)
    else
      match Duplicate(ns[1..], id)
      case None =>
        assert forall j :: 0 < j < |ns| ==> ns[j] == ns[1..][j - 1];
        None
      case Some(k) => Some(k + 1)
  }

  ghost predicate DistinctIds(ns: seq<Ns>) {
    forall i, j :: 0 <= i < j < |ns| ==> ns[i].kernelId != ns[j].kernelId
  }

  /** An entry of the run directory: it cannot be opened or entered; or it can, and then its kernel
      id is read, negative for an error, before going back to the root, which may fail with an
      error, or with a negative result when there is no namespace support. */
  datatype VarEntry = Unusable(name: string) | Usable(name: string, kernelId: int, backErr: int)

  /** `at` is the kernel id of the namespace the program is in afterwards. */
  datatype VarResult = VarResult(err: int, list: seq<Ns>, at: int)

  /** netns_get_var_entry and the loop of netns_add_var_list, `root` being the root's kernel id. Once
      entered, a namespace is left only for an entry that is no duplicate. */
  function AddVar(ns: seq<Ns>, es: seq<VarEntry>, root: int, at: int): VarResult
    decreases es
  {
    if es == [] then VarResult(0, ns, at)
    else
      match es[0]
      case Unusable(_) => AddVar(ns, es[1..], root, at)
      case Usable(name, id, backErr) =>
        if id < 0 then VarResult(-id, ns, id)
        else if Duplicate(ns, id).Some? || backErr < 0 then AddVar(ns, es[1..], root, id)
        else if backErr != 0 then VarResult(backErr, ns, id)
        else AddVar(ns + [Ns(id, 0, Some(name))], es[1..], root, root)
  }

  lemma {:induction false} AddVarMeaning(ns: seq<Ns>, es: seq<VarEntry>, root: int, at: int)
    requires DistinctIds(ns)
    ensures var l := AddVar(ns, es, root, at).list;
      && DistinctIds(l) && ns <= l
      && (forall k :: |ns| <= k < |l| ==> l[k].pid == 0 && l[k].kernelId >= 0 && l[k].name.Some?)
      && (AddVar(ns, es, root, at).err == 0 ==>
            forall j :: 0 <= j < |es| && es[j].Usable? && es[j].backErr == 0 ==> Duplicate(l, es[j].kernelId).Some?)
    decreases es
  {
    if es != [] {
      if es[0].Unusable? {
        AddVarMeaning(ns, es[1..], root, at);
      } else if Duplicate(ns, es[0].kernelId).Some? || es[0].backErr < 0 {
        AddVarMeaning(ns, es[1..], root, es[0].kernelId);
      } else {
        AddVarMeaning(ns + [Ns(es[0].kernelId, 0, Some(es[0].name))], es[1..], root, root);
      }
      if AddVar(ns, es, root, at).err == 0 {
        var l := AddVar(ns, es, root, at).list;
        forall j | 0 <= j < |es| && es[j].Usable? && es[j].backErr == 0 ensures Duplicate(l, es[j].kernelId).Some? {
          if j == 0 {
            KnownId(ns, es[0], es[1..], root, at);
          } else {
            assert es[j] == es[1..][j - 1];
          }
        }
      }
    }
  }

  /** What was added or found for the first entry is still there at the end. */
  lemma KnownId(ns: seq<Ns>, e: VarEntry, rest: seq<VarEntry>, root: int, at: int)
    requires e.Usable? && e.backErr == 0 && AddVar(ns, [e] + rest, root, at).err == 0
    requires var l := AddVar(ns, [e] + rest, root, at).list;
      if Duplicate(ns, e.kernelId).Some? then ns <= l else ns + [Ns(e.kernelId, 0, Some(e.name))] <= l
    ensures Duplicate(AddVar(ns, [e] + rest, root, at).list, e.kernelId).Some?
  {
    var l := AddVar(ns, [e] + rest, root, at).list;
    if Duplicate(ns, e.kernelId).Some? {
      assert l[Duplicate(ns, e.kernelId).value] == ns[Duplicate(ns, e.kernelId).value];
    } else {
      assert l[|ns|] == (ns + [Ns(e.kernelId, 0, Some(e.name))])[|ns|];
    }
  }

  /** Entry `e` bears the kernel id and the name of some file of the directory. */
  ghost predicate FromFile(es: seq<VarEntry>, e: Ns) {
    exists j :: 0 <= j < |es| && es[j].Usable? && e == Ns(es[j].kernelId, 0, Some(es[j].name))
  }

  /** The error of some file: its kernel id could not be read, or there was no way back from it. */
  ghost predicate FailedFile(es: seq<VarEntry>, err: int) {
    exists j :: 0 <= j < |es| && es[j].Usable? &&
      (if es[j].kernelId < 0 then err == -es[j].kernelId else err == es[j].backErr && err > 0)
  }

  lemma TailFiles(es: seq<VarEntry>, e: Ns, err: int)
    requires es != []
    ensures FromFile(es[1..], e) ==> FromFile(es, e)
    ensures FailedFile(es[1..], err) ==> FailedFile(es, err)
  {
    if FromFile(es[1..], e) {
      var j :| 0 <= j < |es[1..]| && es[1..][j].Usable? && e == Ns(es[1..][j].kernelId, 0, Some(es[1..][j].name));
      assert es[j + 1] == es[1..][j];
    }
    if FailedFile(es[1..], err) {
      var j :| 0 <= j < |es[1..]| && es[1..][j].Usable? &&
        (if es[1..][j].kernelId < 0 then err == -es[1..][j].kernelId else err == es[1..][j].backErr && err > 0);
      assert es[j + 1] == es[1..][j];
    }
  }

  /** Every entry added bears kernel id and name of a file of the directory; an error is some file's. */
  lemma {:induction false} AddVarNames(ns: seq<Ns>, es: seq<VarEntry>, root: int, at: int)
    ensures var r := AddVar(ns, es, root, at);
      && ns <= r.list && (forall k :: |ns| <= k < |r.list| ==> FromFile(es, r.list[k]))
      && (r.err != 0 ==> FailedFile(es, r.err))
    decreases es
  {
    hide FromFile, FailedFile;
    if es != [] {
      var r := AddVar(ns, es, root, at);
      FirstFile(es);
      if es[0].Unusable? {
        AddVarNames(ns, es[1..], root, at);
      } else if es[0].kernelId >= 0 && (Duplicate(ns, es[0].kernelId).Some? || es[0].backErr < 0) {
        AddVarNames(ns, es[1..], root, es[0].kernelId);
      } else if es[0].kernelId >= 0 && es[0].backErr == 0 {
        AddVarNames(ns + [Ns(es[0].kernelId, 0, Some(es[0].name))], es[1..], root, root);
      }
      TailFiles(es, Ns(0, 0, None), r.err);
      forall k | |ns| <= k < |r.list| ensures FromFile(es, r.list[k]) {
        TailFiles(es, r.list[k], 0);
      }
    }
  }

  lemma FirstFile(es: seq<VarEntry>)
    requires es != []
    ensures es[0].Usable? ==> FromFile(es, Ns(es[0].kernelId, 0, Some(es[0].name)))
    ensures es[0].Usable? && es[0].kernelId < 0 ==> FailedFile(es, -es[0].kernelId)
    ensures es[0].Usable? && es[0].kernelId >= 0 && es[0].backErr > 0 ==> FailedFile(es, es[0].backErr)
  {
  }

  // ----- where the program is afterwards

  /** The last entry of the run directory that was entered. */
  function LastEntered(es: seq<VarEntry>): (m: Option<nat>)
    ensures m.Some? ==> m.value < |es| && es[m.value].Usable?
    ensures forall j :: (if m.Some? then m.value + 1 else 0) <= j < |es| ==> es[j].Unusable?
  {
    if es == [] then None
    else
      var m := LastEntered(es[1..]);
      assert forall j :: 1 <= j < |es| ==> es[j] == es[1..][j - 1];
      if m.Some? then Some(m.value + 1) else if es[0].Usable? then Some(0) else None
  }

  /** The entry can put `id` on the list. */
  predicate Lists(e: VarEntry, id: int) {
    e.Usable? && e.backErr == 0 && e.kernelId == id
  }

  /** None of the first `m` entries can. */
  ghost predicate NoneLists(es: seq<VarEntry>, id: int, m: nat)
    requires m <= |es|
  {
    forall j :: 0 <= j < m ==> !Lists(es[j], id)
  }

  /** The program came back to the root's namespace from entry `m`: that entry was listed, or it is the
      root's own namespace. */
  ghost predicate CameBack(ns: seq<Ns>, es: seq<VarEntry>, root: int, m: nat)
    requires m < |es| && es[m].Usable?
  {
    || es[m].kernelId == root
    || (es[m].backErr == 0 && Duplicate(ns, es[m].kernelId).None? && NoneLists(es, es[m].kernelId, m))
  }

  lemma NoneListsTail(e: VarEntry, rest: seq<VarEntry>, id: int, m: nat)
    requires m <= |rest|
    ensures NoneLists([e] + rest, id, m + 1) <==> !Lists(e, id) && NoneLists(rest, id, m)
  {
    var es := [e] + rest;
    assert forall j {:trigger es[j]} :: 1 <= j < |es| ==> es[j] == rest[j - 1];
    assert forall j {:trigger rest[j]} :: 0 <= j < |rest| ==> rest[j] == es[j + 1];
    assert es[0] == e;
  }

  lemma DuplicateIn(ns: seq<Ns>, a: Ns, id: int)
    ensures Duplicate(ns + [a], id).None? <==> Duplicate(ns, id).None? && a.kernelId != id
  {
    var all := ns + [a];
    assert all[|ns|] == a;
    if Duplicate(ns, id).Some? {
      assert all[Duplicate(ns, id).value] == ns[Duplicate(ns, id).value];
    }
    if Duplicate(all, id).Some? {
      assert Duplicate(all, id).value < |ns| ==> ns[Duplicate(all, id).value] == all[Duplicate(all, id).value];
    }
  }

  /** One entry at the front, listed or not, makes no difference to the ones behind it. */
  lemma CameBackTail(ns: seq<Ns>, e: VarEntry, rest: seq<VarEntry>, root: int, m: nat)
    requires m < |rest| && rest[m].Usable?
    ensures ([e] + rest)[m + 1] == rest[m]
    ensures e.Usable? && e.backErr == 0 && Duplicate(ns, e.kernelId).None? ==>
      (CameBack(ns + [Ns(e.kernelId, 0, Some(e.name))], rest, root, m) <==> CameBack(ns, [e] + rest, root, m + 1))
    ensures (e.Usable? ==> Duplicate(ns, e.kernelId).Some? || e.backErr < 0) ==>
      (CameBack(ns, rest, root, m) <==> CameBack(ns, [e] + rest, root, m + 1))
  {
    NoneListsTail(e, rest, rest[m].kernelId, m);
    if e.Usable? {
      DuplicateIn(ns, Ns(e.kernelId, 0, Some(e.name)), rest[m].kernelId);
    }
    hide NoneLists;
  }

  /** After the run directory the program is in the root's namespace exactly if it did not enter any
      entry, or came back from the last one it entered. */
  lemma {:induction false} BackExactly(ns: seq<Ns>, es: seq<VarEntry>, root: int, at: int)
    requires AddVar(ns, es, root, at).err == 0
    ensures AddVar(ns, es, root, at).at == root <==>
      match LastEntered(es)
      case None => at == root
      case Some(m) => CameBack(ns, es, root, m)
    decreases es
  {
    hide NoneLists;
    if es != [] {
      var e, rest := es[0], es[1..];
      assert es == [e] + rest;
      if LastEntered(rest).Some? {
        CameBackTail(ns, e, rest, root, LastEntered(rest).value);
      }
      if e.Unusable? || Duplicate(ns, e.kernelId).Some? || e.backErr < 0 {
        BackExactly(ns, rest, root, if e.Unusable? then at else e.kernelId);
      } else {
        BackExactly(ns + [Ns(e.kernelId, 0, Some(e.name))], rest, root, root);
      }
      NoneListsBefore(es, e);
    }
  }

  lemma NoneListsBefore(es: seq<VarEntry>, e: VarEntry)
    ensures e.Usable? ==> NoneLists(es, e.kernelId, 0)
  {
  }

  // ----- processes

  /** A process directory: its name, the kernel id of its namespace (negative if unreadable),
      whether the namespace file can be opened, and the command name if it can be read. */
  datatype Proc = Proc(spid: string, kernelId: int, openable: bool, comm: Option<string>)

  predicate Digit(c: char) {
    '0' <= c <= '9'
  }

  /** Value of the leading digits. */
  function Atol(s: string, acc: nat): nat {
    if s == [] || !Digit(s[0]) then acc
    else Atol(s[1..], acc * 10 + (s[0] as int - '0' as int))
  }

  function PidOf(p: Proc): nat {
    Atol(p.spid, 0)
  }

  /** A number in decimal. */
  function Decimal(n: nat): (s: string)
    ensures s != [] && forall k :: 0 <= k < |s| ==> Digit(s[k])
  {
    (if n < 10 then [] else Decimal(n / 10)) + [['0', '1', '2', '3', '4', '5', '6', '7', '8', '9'][n % 10]]
  }

  lemma {:induction false} AtolSplit(a: string, b: string, acc: nat)
    requires forall k :: 0 <= k < |a| ==> Digit(a[k])
    ensures Atol(a + b, acc) == Atol(b, Atol(a, acc))
    decreases a
  {
    if a == [] {
      assert a + b == b;
    } else {
      assert (a + b)[1..] == a[1..] + b && (a + b)[0] == a[0];
      AtolSplit(a[1..], b, acc * 10 + (a[0] as int - '0' as int));
    }
  }

  /** The decimal text of a number, and whatever follows it unless that is a digit, reads as the number. */
  lemma {:induction false} AtolReadsDecimal(n: nat, rest: string)
    requires rest == [] || !Digit(rest[0])
    ensures Atol(Decimal(n) + rest, 0) == n
  {
    AtolSplit(Decimal(n), rest, 0);
    var last := [['0', '1', '2', '3', '4', '5', '6', '7', '8', '9'][n % 10]];
    if n < 10 {
      assert [] + last == last;
      LastDigit(n % 10, 0);
    } else {
      AtolReadsDecimal(n / 10, []);
      assert Decimal(n / 10) + [] == Decimal(n / 10);
      AtolSplit(Decimal(n / 10), last, 0);
      LastDigit(n % 10, n / 10);
    }
  }

  lemma LastDigit(d: nat, acc: nat)
    requires d < 10
    ensures Atol([['0', '1', '2', '3', '4', '5', '6', '7', '8', '9'][d]], acc) == acc * 10 + d
  {
    var s := [['0', '1', '2', '3', '4', '5', '6', '7', '8', '9'][d]];
    assert s[1..] == [];
    assert s[0] as int - '0' as int == d;
  }

  /** netns_proc_entry_set_name, within its 4096-byte buffer */
  function NameOf(p: Proc): string {
    var s := match p.comm
      case None => "PID " + p.spid
      case Some(c) => "PID " + p.spid + " (" + c + ")";
    if |s| < 4096 then s else s[..4095]
  }

  /** The name tells the process id the entry has: it is what stands behind "PID ". */
  lemma NameTellsPid(n: nat, kernelId: int, openable: bool, comm: Option<string>)
    requires |Decimal(n)| < 4000
    ensures var p := Proc(Decimal(n), kernelId, openable, comm);
      Numeric(p) && PidOf(p) == n && |NameOf(p)| > 4 && NameOf(p)[..4] == "PID " && Atol(NameOf(p)[4..], 0) == n
  {
    hide Atol, Decimal;
    var p := Proc(Decimal(n), kernelId, openable, comm);
    AtolReadsDecimal(n, []);
    assert Decimal(n) + [] == Decimal(n);
    var tail := match comm case None => "" case Some(c) => " (" + c + ")";
    var s := "PID " + (Decimal(n) + tail);
    var cut := tail[..if |s| < 4096 then |tail| else 4095 - 4 - |Decimal(n)|];
    assert NameOf(p) == "PID " + (Decimal(n) + cut);
    AtolReadsDecimal(n, cut);
  }

  predicate Numeric(p: Proc) {
    p.spid != [] && Digit(p.spid[0])
  }

  /** netns_get_proc_entry for one directory entry */
  function Step(ns: seq<Ns>, p: Proc): (l: seq<Ns>)
    ensures |l| >= |ns|
  {
    if !Numeric(p) || p.kernelId < 0 then ns
    else
      match Duplicate(ns, p.kernelId)
      case Some(k) =>
        if ns[k].pid != 0 && ns[k].pid > PidOf(p) then ns[k := ns[k].(pid := PidOf(p), name := Some(NameOf(p)))] else ns
      case None =>
        if p.openable then ns + [Ns(p.kernelId, PidOf(p), Some(NameOf(p)))] else ns
  }

  /** netns_add_proc_list */
  function AddProcs(ns: seq<Ns>, ps: seq<Proc>): (l: seq<Ns>)
    ensures |l| >= |ns|
  {
    if ps == [] then ns else Step(AddProcs(ns, ps[..|ps| - 1]), ps[|ps| - 1])
  }

  /** Does process `j` count for namespace `id`: it shows it, and it or an earlier one could open it? */
  ghost predicate Counts(ps: seq<Proc>, id: int, j: nat) {
    && j < |ps| && Numeric(ps[j]) && ps[j].kernelId == id
    && exists i :: 0 <= i <= j && Opens(ps[i], id)
  }

  predicate Opens(p: Proc, id: int) {
    Numeric(p) && p.kernelId == id && p.openable
  }

  /** Entry `e` was made for a process namespace: its pid is the lowest that counts, and its name
      is that of a process with this pid. */
  ghost predicate Lowest(ps: seq<Proc>, e: Ns) {
    && (exists j: nat :: Counts(ps, e.kernelId, j) && PidOf(ps[j]) == e.pid && e.name == Some(NameOf(ps[j])))
    && (forall j: nat :: Counts(ps, e.kernelId, j) ==> e.pid <= PidOf(ps[j]))
  }

  /** What the scan has achieved: no two entries with one id, the earlier entries untouched, and
      exactly one entry for every other namespace that some process could open. */
  ghost predicate Achieved(ns: seq<Ns>, ps: seq<Proc>, l: seq<Ns>) {
    && DistinctIds(l) && ns <= l
    && (forall k :: |ns| <= k < |l| ==> l[k].kernelId >= 0 && Lowest(ps, l[k]))
    && (forall j :: 0 <= j < |ps| && ps[j].kernelId >= 0 && Opens(ps[j], ps[j].kernelId) ==>
      Duplicate(l, ps[j].kernelId).Some?)
  }

  lemma CountsSnoc(ps: seq<Proc>, p: Proc, id: int, j: nat)
    ensures j < |ps| ==> (Counts(ps + [p], id, j) <==> Counts(ps, id, j))
    ensures j >= |ps| && Counts(ps + [p], id, j) ==> j == |ps| && Numeric(p) && p.kernelId == id
  {
    assert forall i :: 0 <= i < |ps| ==> (ps + [p])[i] == ps[i];
  }

  /** A process of another namespace, or a higher one, changes nothing. */
  lemma LowestElsewhere(ps: seq<Proc>, p: Proc, e: Ns)
    requires Lowest(ps, e) && (e.kernelId != p.kernelId || !Numeric(p) || e.pid <= PidOf(p))
    ensures Lowest(ps + [p], e)
  {
    hide PidOf, NameOf, Opens;
    var qs := ps + [p];
    forall j: nat | Counts(qs, e.kernelId, j) ensures e.pid <= PidOf(qs[j]) {
      CountsSnoc(ps, p, e.kernelId, j);
    }
    var j: nat :| Counts(ps, e.kernelId, j) && PidOf(ps[j]) == e.pid && e.name == Some(NameOf(ps[j]));
    CountsSnoc(ps, p, e.kernelId, j);
    assert Counts(qs, e.kernelId, j) && qs[j] == ps[j];
  }

  /** A lower process takes the entry over. */
  lemma LowestHere(ps: seq<Proc>, p: Proc, e: Ns)
    requires Numeric(p) && p.kernelId == e.kernelId && e.pid == PidOf(p) && e.name == Some(NameOf(p))
    requires p.openable || exists i :: 0 <= i < |ps| && Opens(ps[i], e.kernelId)
    requires forall j: nat :: Counts(ps, e.kernelId, j) ==> e.pid <= PidOf(ps[j])
    ensures Lowest(ps + [p], e)
  {
    var qs := ps + [p];
    assert Counts(qs, e.kernelId, |ps|) by {
      if p.openable {
        assert Opens(qs[|ps|], e.kernelId);
      } else {
        var i :| 0 <= i < |ps| && Opens(ps[i], e.kernelId);
        assert Opens(qs[i], e.kernelId);
      }
    }
    forall j: nat ensures Counts(qs, e.kernelId, j) ==> e.pid <= PidOf(qs[j]) {
      CountsSnoc(ps, p, e.kernelId, j);
    }
  }

  lemma StepAchieves(ns: seq<Ns>, ps: seq<Proc>, l: seq<Ns>, p: Proc)
    requires Achieved(ns, ps, l) && forall k :: 0 <= k < |ns| ==> ns[k].pid == 0
    ensures Achieved(ns, ps + [p], Step(l, p))
  {
    hide Lowest, NameOf, PidOf;
    var qs, m := ps + [p], Step(l, p);
    forall k | |ns| <= k < |m| ensures m[k].kernelId >= 0 && Lowest(qs, m[k]) {
      StepEntry(ns, ps, l, p, k);
    }
    forall j | 0 <= j < |qs| && qs[j].kernelId >= 0 && Opens(qs[j], qs[j].kernelId)
      ensures Duplicate(m, qs[j].kernelId).Some?
    {
      if j < |ps| {
        assert qs[j] == ps[j];
        SameIds(l, p, Duplicate(l, qs[j].kernelId).value);
      } else if Duplicate(l, p.kernelId).Some? {
        SameIds(l, p, Duplicate(l, p.kernelId).value);
      } else {
        assert m[|l|].kernelId == p.kernelId;
      }
    }
    forall i, j | 0 <= i < j < |m| ensures m[i].kernelId != m[j].kernelId {
      if j < |l| {
        SameIds(l, p, j);
      }
      SameIds(l, p, i);
    }
    forall k | 0 <= k < |ns| ensures m[k] == ns[k] {
      assert l[k] == ns[k];
    }
  }

  lemma SameIds(l: seq<Ns>, p: Proc, k: nat)
    requires k < |l|
    ensures Step(l, p)[k].kernelId == l[k].kernelId
  {
  }

  lemma StepEntry(ns: seq<Ns>, ps: seq<Proc>, l: seq<Ns>, p: Proc, k: nat)
    requires Achieved(ns, ps, l) && forall k :: 0 <= k < |ns| ==> ns[k].pid == 0
    requires |ns| <= k < |Step(l, p)|
    ensures Step(l, p)[k].kernelId >= 0 && Lowest(ps + [p], Step(l, p)[k])
  {
    hide Lowest, NameOf, PidOf, Opens;
    var m := Step(l, p);
    if k < |l| {
      assert Lowest(ps, l[k]);
      OwnDuplicate(l, k);
      if m[k] == l[k] {
        LowestElsewhere(ps, p, l[k]);
      } else {
        SomeOpens(ps, l[k]);
        LowestHere(ps, p, m[k]);
      }
    } else {
      NoneCounts(ps, l, p.kernelId);
      LowestHere(ps, p, m[k]);
    }
  }

  lemma OwnDuplicate(l: seq<Ns>, k: nat)
    requires k < |l| && DistinctIds(l)
    ensures Duplicate(l, l[k].kernelId) == Some(k)
  {
  }

  lemma SomeOpens(ps: seq<Proc>, e: Ns)
    requires Lowest(ps, e)
    ensures exists i :: 0 <= i < |ps| && Opens(ps[i], e.kernelId)
    ensures forall j: nat :: Counts(ps, e.kernelId, j) ==> e.pid <= PidOf(ps[j])
  {
    var j: nat :| Counts(ps, e.kernelId, j);
    var i :| 0 <= i <= j && Opens(ps[i], e.kernelId);
    assert i < |ps|;
  }

  lemma CountsOpens(ps: seq<Proc>, id: int, j: nat)
    requires Counts(ps, id, j)
    ensures exists i :: 0 <= i < |ps| && ps[i].kernelId == id && Opens(ps[i], ps[i].kernelId)
  {
    var i :| 0 <= i <= j && Opens(ps[i], id);
    assert ps[i].kernelId == id && Opens(ps[i], ps[i].kernelId);
  }

  lemma NoneCounts(ps: seq<Proc>, l: seq<Ns>, id: int)
    requires id >= 0 && Duplicate(l, id).None?
    requires forall j :: 0 <= j < |ps| && ps[j].kernelId >= 0 && Opens(ps[j], ps[j].kernelId) ==>
      Duplicate(l, ps[j].kernelId).Some?
    ensures forall j: nat :: !Counts(ps, id, j)
  {
    forall j: nat ensures !Counts(ps, id, j) {
      if Counts(ps, id, j) {
        CountsOpens(ps, id, j);
        assert false;
      }
    }
  }

  /** Whatever the directory holds: kernel ids stay distinct, the entries there before are not
      touched, and every namespace some process opened has exactly one entry, with the lowest
      process id from its first opener on and the name of such a process. */
  lemma {:induction false} ProcsMeaning(ns: seq<Ns>, ps: seq<Proc>)
    requires DistinctIds(ns) && forall k :: 0 <= k < |ns| ==> ns[k].pid == 0
    ensures Achieved(ns, ps, AddProcs(ns, ps))
  {
    if ps != [] {
      ProcsMeaning(ns, ps[..|ps| - 1]);
      StepAchieves(ns, ps[..|ps| - 1], AddProcs(ns, ps[..|ps| - 1]), ps[|ps| - 1]);
      assert ps == ps[..|ps| - 1] + [ps[|ps| - 1]];
    }
  }

  // ----- dependence on the directory order

  /** The process id recorded for a kernel id, if it is listed. */
  function PidFor(l: seq<Ns>, id: int): Option<nat> {
    match Duplicate(l, id)
    case None => None
    case Some(k) => Some(l[k].pid)
  }

  /** The entries from before the scan have distinct kernel ids and no process ids. */
  ghost predicate Fresh(ns: seq<Ns>) {
    DistinctIds(ns) && forall k :: 0 <= k < |ns| ==> ns[k].pid == 0
  }

  ghost predicate SomeOpener(ps: seq<Proc>, id: int) {
    exists j :: 0 <= j < |ps| && Opens(ps[j], id)
  }

  /** A process shows the namespace, whether or not it can open it. */
  predicate ShowsNs(p: Proc, id: int) {
    Numeric(p) && p.kernelId == id
  }

  /** Process `j` can open the namespace and no process showing it has a lower id. */
  ghost predicate LowestOpens(ps: seq<Proc>, id: int, j: nat) {
    && j < |ps| && Opens(ps[j], id)
    && forall k :: 0 <= k < |ps| && ShowsNs(ps[k], id) ==> PidOf(ps[j]) <= PidOf(ps[k])
  }

  /** What the scan records for an id that was not listed before. */
  lemma PidMeaning(ns: seq<Ns>, ps: seq<Proc>, id: int)
    requires Fresh(ns) && id >= 0 && Duplicate(ns, id).None?
    ensures PidFor(AddProcs(ns, ps), id).Some? <==> SomeOpener(ps, id)
    ensures PidFor(AddProcs(ns, ps), id).Some? ==>
      var m := PidFor(AddProcs(ns, ps), id).value;
      && (exists j: nat :: Counts(ps, id, j) && PidOf(ps[j]) == m)
      && (forall j: nat :: Counts(ps, id, j) ==> m <= PidOf(ps[j]))
  {
    ProcsMeaning(ns, ps);
    hide AddProcs, PidOf;
    var l := AddProcs(ns, ps);
    if PidFor(l, id).Some? {
      var k := Duplicate(l, id).value;
      assert forall i {:trigger l[i]} :: 0 <= i < |ns| ==> l[i] == ns[i];
      assert Lowest(ps, l[k]);
      SomeOpens(ps, l[k]);
    }
    if j :| 0 <= j < |ps| && Opens(ps[j], id) {
      assert Opens(ps[j], ps[j].kernelId);
    }
  }

  /** An id listed before, or not readable, is recorded alike in every order. */
  lemma {:induction false} PidSettled(ns: seq<Ns>, ps: seq<Proc>, id: int)
    requires Fresh(ns) && (id < 0 || Duplicate(ns, id).Some?)
    ensures PidFor(AddProcs(ns, ps), id) == PidFor(ns, id)
  {
    ProcsMeaning(ns, ps);
    var l := AddProcs(ns, ps);
    hide AddProcs, Lowest;
    if Duplicate(ns, id).Some? {
      var k := Duplicate(ns, id).value;
      assert l[k] == ns[k];
      OwnDuplicate(l, k);
    } else if Duplicate(l, id).Some? {
      ListedId(ns, ps, l, id);
      assert false;
    }
  }

  lemma ListedId(ns: seq<Ns>, ps: seq<Proc>, l: seq<Ns>, id: int)
    requires Achieved(ns, ps, l) && Duplicate(l, id).Some?
    ensures id >= 0 || Duplicate(ns, id).Some?
  {
    var k := Duplicate(l, id).value;
    assert forall i {:trigger l[i]} :: 0 <= i < |ns| ==> l[i] == ns[i];
  }

  /** If a lowest process can open the namespace, its id is recorded. */
  lemma LowestRecorded(ns: seq<Ns>, ps: seq<Proc>, id: int, j: nat)
    requires Fresh(ns) && id >= 0 && Duplicate(ns, id).None? && LowestOpens(ps, id, j)
    ensures PidFor(AddProcs(ns, ps), id) == Some(PidOf(ps[j]))
  {
    PidMeaning(ns, ps, id);
    hide AddProcs, PidOf;
    assert Counts(ps, id, j);
  }

  lemma {:induction false} LowestOpensElsewhere(ps: seq<Proc>, qs: seq<Proc>, id: int, j: nat) returns (i: nat)
    requires multiset(ps) == multiset(qs) && LowestOpens(ps, id, j)
    ensures LowestOpens(qs, id, i) && qs[i] == ps[j]
  {
    hide PidOf;
    assert ps[j] in multiset(qs);
    i :| i < |qs| && qs[i] == ps[j];
    forall k | 0 <= k < |qs| && ShowsNs(qs[k], id) ensures PidOf(qs[i]) <= PidOf(qs[k]) {
      assert qs[k] in multiset(ps);
      var h :| 0 <= h < |ps| && ps[h] == qs[k];
    }
  }

  lemma {:induction false} OpenersElsewhere(ps: seq<Proc>, qs: seq<Proc>, id: int)
    requires multiset(ps) == multiset(qs) && SomeOpener(ps, id)
    ensures SomeOpener(qs, id)
  {
    var j :| 0 <= j < |ps| && Opens(ps[j], id);
    assert ps[j] in multiset(qs);
    var i :| 0 <= i < |qs| && qs[i] == ps[j];
  }

  /** The processes that can open the namespace, and the others. */
  function Part(ps: seq<Proc>, id: int, openers: bool): (qs: seq<Proc>)
    ensures forall j :: 0 <= j < |qs| ==> Opens(qs[j], id) == openers
  {
    if ps == [] then []
    else if Opens(ps[0], id) == openers then [ps[0]] + Part(ps[1..], id, openers)
    else Part(ps[1..], id, openers)
  }

  lemma {:induction false} PartsAreAll(ps: seq<Proc>, id: int)
    ensures multiset(Part(ps, id, true)) + multiset(Part(ps, id, false)) == multiset(ps)
  {
    if ps != [] {
      PartsAreAll(ps[1..], id);
      assert ps == [ps[0]] + ps[1..];
    }
  }

  /** With the others in front, only processes that can open the namespace count. */
  lemma {:induction false} OthersFirst(ps: seq<Proc>, id: int, j: nat)
    requires Counts(Part(ps, id, false) + Part(ps, id, true), id, j)
    ensures Opens((Part(ps, id, false) + Part(ps, id, true))[j], id)
  {
    var a := Part(ps, id, false);
    var qs := a + Part(ps, id, true);
    var i :| 0 <= i <= j && Opens(qs[i], id);
    assert i >= |a|;
  }

  /** With the openers in front, every process showing the namespace counts. */
  lemma {:induction false} OpenersFirst(ps: seq<Proc>, id: int, p: Proc) returns (j: nat)
    requires SomeOpener(ps, id) && p in ps && ShowsNs(p, id)
    ensures Counts(Part(ps, id, true) + Part(ps, id, false), id, j)
    ensures (Part(ps, id, true) + Part(ps, id, false))[j] == p
  {
    var a := Part(ps, id, true);
    var qs := a + Part(ps, id, false);
    PartsAreAll(ps, id);
    assert multiset(qs) == multiset(ps);
    assert p in multiset(qs);
    j :| j < |qs| && qs[j] == p;
    OpenersElsewhere(ps, qs, id);
    var i :| 0 <= i < |qs| && Opens(qs[i], id);
    assert i < |a|;
    assert Opens(qs[0], id);
  }

  /** Two orders that record different process ids, when no lowest process can open the namespace. */
  lemma {:induction false} OrdersDiffer(ns: seq<Ns>, ps: seq<Proc>, id: int) returns (qs: seq<Proc>, rs: seq<Proc>)
    requires Fresh(ns) && id >= 0 && Duplicate(ns, id).None? && SomeOpener(ps, id)
    requires forall j: nat :: !LowestOpens(ps, id, j)
    ensures multiset(qs) == multiset(rs) == multiset(ps)
    ensures PidFor(AddProcs(ns, qs), id) != PidFor(AddProcs(ns, rs), id)
  {
    hide AddProcs, PidOf, Part;
    qs := Part(ps, id, false) + Part(ps, id, true);
    rs := Part(ps, id, true) + Part(ps, id, false);
    PartsAreAll(ps, id);
    OpenersElsewhere(ps, qs, id);
    OpenersElsewhere(ps, rs, id);
    PidMeaning(ns, qs, id);
    PidMeaning(ns, rs, id);
    var i: nat :| Counts(qs, id, i) && PidOf(qs[i]) == PidFor(AddProcs(ns, qs), id).value;
    OthersFirst(ps, id, i);
    assert qs[i] in multiset(ps);
    var h: nat :| h < |ps| && ps[h] == qs[i];
    assert !LowestOpens(ps, id, h);
    var k :| 0 <= k < |ps| && ShowsNs(ps[k], id) && PidOf(ps[k]) < PidOf(ps[h]);
    var j := OpenersFirst(ps, id, ps[k]);
  }

  /** Does the recorded process id come out alike in every order of the directory? */
  ghost predicate OrderFree(ns: seq<Ns>, ps: seq<Proc>, id: int) {
    forall qs: seq<Proc> {:trigger multiset(qs)} :: multiset(qs) == multiset(ps) ==>
      PidFor(AddProcs(ns, qs), id) == PidFor(AddProcs(ns, ps), id)
  }

  /** What is recorded for a namespace does not depend on the order of the directory exactly when it
      was listed before, no process can open it, or some lowest process showing it can. */
  lemma {:induction false} OrderIrrelevantExactly(ns: seq<Ns>, ps: seq<Proc>, id: int)
    requires Fresh(ns)
    ensures OrderFree(ns, ps, id) <==>
      id < 0 || Duplicate(ns, id).Some? || !SomeOpener(ps, id) || exists j: nat :: LowestOpens(ps, id, j)
  {
    hide AddProcs, PidOf, LowestOpens;
    if id < 0 || Duplicate(ns, id).Some? {
      forall qs: seq<Proc> {:trigger multiset(qs)} | multiset(qs) == multiset(ps)
        ensures PidFor(AddProcs(ns, qs), id) == PidFor(AddProcs(ns, ps), id)
      {
        PidSettled(ns, qs, id);
        PidSettled(ns, ps, id);
      }
    } else if !SomeOpener(ps, id) {
      forall qs: seq<Proc> {:trigger multiset(qs)} | multiset(qs) == multiset(ps)
        ensures PidFor(AddProcs(ns, qs), id) == PidFor(AddProcs(ns, ps), id)
      {
        PidMeaning(ns, ps, id);
        PidMeaning(ns, qs, id);
        if SomeOpener(qs, id) {
          OpenersElsewhere(qs, ps, id);
        }
      }
    } else if j: nat :| LowestOpens(ps, id, j) {
      forall qs: seq<Proc> {:trigger multiset(qs)} | multiset(qs) == multiset(ps)
        ensures PidFor(AddProcs(ns, qs), id) == PidFor(AddProcs(ns, ps), id)
      {
        var i := LowestOpensElsewhere(ps, qs, id, j);
        LowestRecorded(ns, ps, id, j);
        LowestRecorded(ns, qs, id, i);
      }
    } else {
      var qs, rs := OrdersDiffer(ns, ps, id);
      assert multiset(qs) == multiset(ps) && multiset(rs) == multiset(ps);
    }
  }

  ghost predicate AllOpen(ps: seq<Proc>) {
    forall j :: 0 <= j < |ps| && Numeric(ps[j]) ==> ps[j].openable
  }

  /** In particular, when every process namespace can be opened nothing depends on the order. */
  lemma {:induction false} OrderIrrelevant(ns: seq<Ns>, ps: seq<Proc>, id: int)
    requires Fresh(ns) && AllOpen(ps)
    ensures OrderFree(ns, ps, id)
  {
    hide OrderFree, PidOf;
    OrderIrrelevantExactly(ns, ps, id);
    if id >= 0 && Duplicate(ns, id).None? && SomeOpener(ps, id) {
      var j := LowestShower(ps, id);
      assert LowestOpens(ps, id, j);
    }
  }

  lemma {:induction false} LowestShower(ps: seq<Proc>, id: int) returns (j: nat)
    requires exists k :: 0 <= k < |ps| && ShowsNs(ps[k], id)
    ensures j < |ps| && ShowsNs(ps[j], id)
    ensures forall k :: 0 <= k < |ps| && ShowsNs(ps[k], id) ==> PidOf(ps[j]) <= PidOf(ps[k])
  {
    hide PidOf;
    var init, p := ps[..|ps| - 1], ps[|ps| - 1];
    assert forall k :: 0 <= k < |init| ==> init[k] == ps[k];
    if exists k :: 0 <= k < |init| && ShowsNs(init[k], id) {
      j := LowestShower(init, id);
      if ShowsNs(p, id) && PidOf(p) < PidOf(ps[j]) {
        j := |ps| - 1;
      }
    } else {
      j := |ps| - 1;
    }
  }

  /** An input on which it matters: the lowest process cannot open the namespace, another one can. */
  lemma OrderMatters()
    ensures var a := Proc("7", 1, false, None); var b := Proc("8", 1, true, None);
      PidFor(AddProcs([], [a, b]), 1) == Some(8) && PidFor(AddProcs([], [b, a]), 1) == Some(7)
  {
    var a, b := Proc("7", 1, false, None), Proc("8", 1, true, None);
    assert PidOf(a) == 7 && PidOf(b) == 8 && Numeric(a) && Numeric(b);
    AddTwo([], a, b);
    AddTwo([], b, a);
  }

  lemma AddTwo(ns: seq<Ns>, a: Proc, b: Proc)
    ensures AddProcs(ns, [a, b]) == Step(Step(ns, a), b)
  {
    hide Step;
    assert [a, b][..1] == [a] && [a][..0] == [];
    assert AddProcs(ns, [a]) == Step(AddProcs(ns, []), a);
  }

  /** The whole list: the root, then the run directory, then /proc. */
  function AllNs(rootId: int, es: seq<VarEntry>, ps: seq<Proc>): seq<Ns> {
    AddProcs(AddVar([Ns(rootId, 0, None)], es, rootId, rootId).list, ps)
  }

  lemma WholeList(rootId: int, es: seq<VarEntry>, ps: seq<Proc>)
    requires AddVar([Ns(rootId, 0, None)], es, rootId, rootId).err == 0
    ensures var root := [Ns(rootId, 0, None)]; var named := AddVar(root, es, rootId, rootId).list;
      var l := AllNs(rootId, es, ps);
      && DistinctIds(l) && root <= named <= l
      && (forall k :: 1 <= k < |named| ==> named[k].pid == 0)
      && (forall k :: 0 < k < |l| ==> l[k].name.Some?)
      && (forall j :: 0 <= j < |es| && es[j].Usable? && es[j].backErr == 0 ==> Duplicate(named, es[j].kernelId).Some?)
      && (forall k :: |named| <= k < |l| ==> l[k].kernelId >= 0 && Lowest(ps, l[k]))
      && (forall j :: 0 <= j < |ps| && ps[j].kernelId >= 0 && Opens(ps[j], ps[j].kernelId) ==>
            Duplicate(l, ps[j].kernelId).Some?)
  {
    var root := [Ns(rootId, 0, None)];
    AddVarMeaning(root, es, rootId, rootId);
    var named := AddVar(root, es, rootId, rootId).list;
    assert named[0] == root[0];
    ProcsMeaning(named, ps);
  }

  // ----- the scan

  /** The namespace each entry is scanned from by netns_fill_list, starting in `at`: a named entry is
      entered first, the root is not. */
  function ScannedFrom(l: seq<Ns>, at: int): (r: seq<int>)
    ensures |r| == |l|
    ensures forall k :: 0 <= k < |l| && l[k].name.Some? ==> r[k] == l[k].kernelId
    decreases l
  {
    if l == [] then []
    else
      var here := if l[0].name.Some? then l[0].kernelId else at;
      var r := [here] + ScannedFrom(l[1..], here);
      assert forall k :: 0 < k < |l| ==> r[k] == ScannedFrom(l[1..], here)[k - 1];
      r
  }

  /** Each entry is scanned from its own namespace. */
  ghost predicate ScannedAtHome(l: seq<Ns>, at: int) {
    forall k :: 0 <= k < |l| ==> ScannedFrom(l, at)[k] == l[k].kernelId
  }

  /** The root's entry is scanned where the program is after the run directory. That is the root's own
      namespace exactly if no entry of the directory was entered, the last one entered was listed, or it
      names the root's namespace. A second name of another namespace in the last place is the exception. */
  lemma ScannedAtHomeExactly(rootId: int, es: seq<VarEntry>, ps: seq<Proc>)
    requires AddVar([Ns(rootId, 0, None)], es, rootId, rootId).err == 0
    ensures ScannedAtHome(AllNs(rootId, es, ps), AddVar([Ns(rootId, 0, None)], es, rootId, rootId).at) <==>
      match LastEntered(es)
      case None => true
      case Some(m) => CameBack([Ns(rootId, 0, None)], es, rootId, m)
  {
    hide AddVar, AllNs, CameBack, LastEntered, Lowest;
    var root := [Ns(rootId, 0, None)];
    BackExactly(root, es, rootId, rootId);
    WholeList(rootId, es, ps);
    var l := AllNs(rootId, es, ps);
    assert l[0] == root[0];
  }

  /** An input with that exception: two names of one namespace. */
  lemma SecondName(rootId: int, id: int)
    requires rootId != id && id >= 0
    ensures var es := [Usable("a", id, 0), Usable("b", id, 0)];
      && AddVar([Ns(rootId, 0, None)], es, rootId, rootId).err == 0
      && !ScannedAtHome(AllNs(rootId, es, []), AddVar([Ns(rootId, 0, None)], es, rootId, rootId).at)
  {
    var a, b := Usable("a", id, 0), Usable("b", id, 0);
    var root := [Ns(rootId, 0, None)];
    var listed := root + [Ns(id, 0, Some("a"))];
    assert [a, b][1..] == [b] && [b][1..] == [];
    assert listed[1].kernelId == id;
    assert AddVar(listed, [b], rootId, rootId) == VarResult(0, listed, id);
    assert AddVar(root, [a, b], rootId, rootId) == VarResult(0, listed, id);
    WholeList(rootId, [a, b], []);
    var l := AllNs(rootId, [a, b], []);
    assert l[0] == root[0];
    assert ScannedFrom(l, id)[0] == id;
  }

  // ----- the list of entries

  class NetnsEntry {
    const kernelId: int
    var pid: nat
    var name: Option<string>

    constructor (kernelId: int, pid: nat, name: Option<string>)
      ensures this.kernelId == kernelId && this.pid == pid && this.name == name
    {
      this.kernelId, this.pid, this.name := kernelId, pid, name;
    }
  }

  ghost predicate Shows(list: seq<NetnsEntry>, ns: seq<Ns>)
    reads list
  {
    |list| == |ns| && forall k :: 0 <= k < |ns| ==> ns[k] == Ns(list[k].kernelId, list[k].pid, list[k].name)
  }

  lemma FoundIs(ns: seq<Ns>, k: nat, id: int)
    requires k < |ns| && ns[k].kernelId == id && forall j :: 0 <= j < k ==> ns[j].kernelId != id
    ensures Duplicate(ns, id) == Some(k)
  {
    if k > 0 {
      assert forall j :: 0 <= j < k - 1 ==> ns[1..][j] == ns[j + 1];
      FoundIs(ns[1..], k - 1, id);
    }
  }

  /** netns_check_duplicate */
  method CheckDuplicate(list: seq<NetnsEntry>, kernelId: int, ghost ns: seq<Ns>) returns (k: Option<nat>)
    requires Shows(list, ns)
    ensures k == Duplicate(ns, kernelId)
  {
    for j := 0 to |list|
      invariant forall i :: 0 <= i < j ==> ns[i].kernelId != kernelId
    {
      if list[j].kernelId == kernelId {
        FoundIs(ns, j, kernelId);
        return Some(j);
      }
    }
    return None;
  }

  /** netns_get_proc_entry */
  method GetProcEntry(list: seq<NetnsEntry>, p: Proc, ghost ns: seq<Ns>) returns (result: seq<NetnsEntry>)
    requires Shows(list, ns) && NoDup(list) && Numeric(p)
    modifies list
    ensures Shows(result, Step(ns, p)) && NoDup(result) && list <= result
    ensures forall j :: |list| <= j < |result| ==> fresh(result[j])
  {
    if p.kernelId < 0 {
      return list;
    }
    var pid := PidOf(p);
    var dup := CheckDuplicate(list, p.kernelId, ns);
    if dup.Some? {
      var e := list[dup.value];
      if e.pid != 0 && e.pid > pid {
        e.pid := pid;
        e.name := Some(NameOf(p));
      }
      return list;
    }
    if !p.openable {
      return list;
    }
    var entry := new NetnsEntry(p.kernelId, pid, Some(NameOf(p)));
    NoDupAppend(list, entry);
    result := list + [entry];
  }

  /** netns_add_proc_list */
  method AddProcList(list: seq<NetnsEntry>, ps: seq<Proc>, ghost ns: seq<Ns>) returns (result: seq<NetnsEntry>)
    requires Shows(list, ns) && NoDup(list)
    modifies list
    ensures Shows(result, AddProcs(ns, ps)) && NoDup(result) && list <= result
  {
    hide Step;
    result := list;
    assert ps[..0] == [];
    for k := 0 to |ps|
      invariant Shows(result, AddProcs(ns, ps[..k])) && NoDup(result) && list <= result
      invariant forall j :: |list| <= j < |result| ==> fresh(result[j])
    {
      assert ps[..k + 1][..k] == ps[..k];
      if Numeric(ps[k]) {
        result := GetProcEntry(result, ps[k], AddProcs(ns, ps[..k]));
      } else {
        NotListed(AddProcs(ns, ps[..k]), ps[k]);
      }
    }
    assert ps[..|ps|] == ps;
  }

  lemma NotListed(ns: seq<Ns>, p: Proc)
    requires !Numeric(p)
    ensures Step(ns, p) == ns
  {
  }

  /** The program as setns sees it: `at` is the namespace it is in. */
  class Process {
    const root: int
    var at: int

    constructor (root: int)
      ensures this.root == root && at == root
    {
      this.root, at := root, root;
    }
  }

  ghost predicate VarResultIs(p: Process, err: int, list: seq<NetnsEntry>, r: VarResult)
    reads p, list
  {
    err == r.err && Shows(list, r.list) && p.at == r.at
  }

  /** netns_add_var_list */
  method AddVarList(p: Process, list: seq<NetnsEntry>, es: seq<VarEntry>, ghost ns: seq<Ns>)
    returns (err: int, result: seq<NetnsEntry>)
    requires Shows(list, ns)
    modifies p
    ensures VarResultIs(p, err, result, AddVar(ns, es, p.root, old(p.at)))
  {
    result := list;
    ghost var now := ns;
    for k := 0 to |es|
      invariant Shows(result, now) && AddVar(now, es[k..], p.root, p.at) == AddVar(ns, es, p.root, old(p.at))
    {
      assert es[k..][1..] == es[k + 1..];
      match es[k]
      case Unusable(_) =>
      case Usable(name, id, backErr) =>
        p.at := id;
        if id < 0 {
          return -id, result;
        }
        var dup := CheckDuplicate(result, id, now);
        if dup.None? && backErr >= 0 {
          if backErr != 0 {
            return backErr, result;
          }
          var entry := new NetnsEntry(id, 0, Some(name));
          p.at := p.root;
          result := result + [entry];
          now := now + [Ns(id, 0, Some(name))];
        }
    }
    err := 0;
  }
}
