/** The best-match search of match.c and match.h, for any scoring callback: the callback is
    present as the score it gives each candidate, in the order the lists are walked. */
module Match {
  import opened Common

  datatype Mode = Heuristic | First

  /** A candidate and what the callback says about it: an error if negative, nothing if zero. */
  datatype Cand = Cand(id: nat, score: int)

  /** The part of match_desc the search updates. */
  datatype Desc = Desc(found: Option<nat>, best: int, count: nat)

  datatype Outcome = Done(desc: Desc) | Failed(err: int)

  /** match_init */
  const INIT := Desc(None, 0, 0)

  function Found(d: Desc): Option<nat> {
    if d.best > 0 then d.found else None
  }

  predicate Ambiguous(d: Desc) {
    d.best > 0 && d.count > 1
  }

  /** match_if_ns: one namespace. */
  function ScanNs(mode: Mode, c: seq<Cand>, d: Desc): Outcome {
    if c == [] then Done(d)
    else if c[0].score < 0 then Failed(-c[0].score)
    else if c[0].score > d.best then
      var d' := Desc(Some(c[0].id), c[0].score, 1);
      if mode.First? then Done(d') else ScanNs(mode, c[1..], d')
    else ScanNs(mode, c[1..], if c[0].score == d.best then d.(count := d.count + 1) else d)
  }

  /** match_if over all namespaces. */
  function Scan(mode: Mode, cs: seq<seq<Cand>>, d: Desc): Outcome {
    if cs == [] then Done(d)
    else match ScanNs(mode, cs[0], d)
      case Failed(e) => Failed(e)
      case Done(d') => Scan(mode, cs[1..], d')
  }

  function Flatten<T>(ss: seq<seq<T>>): seq<T> {
    if ss == [] then [] else ss[0] + Flatten(ss[1..])
  }

  // ----- heuristic mode

  lemma {:induction false} ScanNsConcat(a: seq<Cand>, b: seq<Cand>, d: Desc)
    ensures ScanNs(Heuristic, a + b, d) ==
      match ScanNs(Heuristic, a, d) case Failed(e) => Failed(e) case Done(d') => ScanNs(Heuristic, b, d')
  {
    if a == [] {
      assert a + b == b;
    } else {
      assert (a + b)[1..] == a[1..] + b;
      var x := a[0];
      if x.score >= 0 {
        ScanNsConcat(a[1..], b,
          if x.score > d.best then Desc(Some(x.id), x.score, 1)
          else if x.score == d.best then d.(count := d.count + 1) else d);
      }
    }
  }

  /** In heuristic mode the borders between namespaces do not matter. */
  lemma {:induction false} ScanIsFlat(cs: seq<seq<Cand>>, d: Desc)
    ensures Scan(Heuristic, cs, d) == ScanNs(Heuristic, Flatten(cs), d)
  {
    if cs != [] {
      ScanNsConcat(cs[0], Flatten(cs[1..]), d);
      var o := ScanNs(Heuristic, cs[0], d);
      if o.Done? {
        ScanIsFlat(cs[1..], o.desc);
      }
    }
  }

  ghost predicate NoErrors(c: seq<Cand>) {
    forall k :: 0 <= k < |c| ==> c[k].score >= 0
  }

  /** `k` is the first candidate with the maximal score, and that score is positive. */
  ghost predicate IsFirstBest(c: seq<Cand>, k: nat) {
    && k < |c| && c[k].score > 0
    && (forall j :: 0 <= j < |c| ==> c[j].score <= c[k].score)
    && (forall j :: 0 <= j < k ==> c[j].score < c[k].score)
  }

  /** Two candidates share score `s`. */
  ghost predicate Tied(c: seq<Cand>, s: int) {
    exists i, j :: 0 <= i < j < |c| && c[i].score == s && c[j].score == s
  }

  /** `d` sums up the candidates `c` seen so far. */
  ghost predicate Sums(c: seq<Cand>, d: Desc) {
    && d.best >= 0
    && (forall j :: 0 <= j < |c| ==> c[j].score <= d.best)
    && (d.best > 0 ==>
          && (exists k: nat :: IsFirstBest(c, k) && d.found == Some(c[k].id) && d.best == c[k].score)
          && d.count >= 1
          && (d.count > 1 <==> Tied(c, d.best)))
  }

  lemma TiedStep(c: seq<Cand>, x: Cand, s: int)
    ensures Tied(c + [x], s) <==> Tied(c, s) || (x.score == s && exists i :: 0 <= i < |c| && c[i].score == s)
  {
    var c' := c + [x];
    if i, j :| 0 <= i < j < |c'| && c'[i].score == s && c'[j].score == s {
      assert c[i].score == s;
    }
    if i, j :| 0 <= i < j < |c| && c[i].score == s && c[j].score == s {
      assert c'[i].score == s && c'[j].score == s;
    }
    if i :| x.score == s && 0 <= i < |c| && c[i].score == s {
      assert c'[i].score == s && c'[|c|].score == s;
    }
  }

  lemma SumsStep(c: seq<Cand>, d: Desc, x: Cand)
    requires Sums(c, d) && x.score >= 0
    ensures Sums(c + [x], if x.score > d.best then Desc(Some(x.id), x.score, 1)
                          else if x.score == d.best then d.(count := d.count + 1) else d)
  {
    hide Tied;
    var c' := c + [x];
    if x.score > d.best {
      TiedStep(c, x, x.score);
      NotTied(c, x.score);
      assert IsFirstBest(c', |c|);
    } else if d.best > 0 {
      TiedStep(c, x, d.best);
      var k: nat :| IsFirstBest(c, k) && d.found == Some(c[k].id) && d.best == c[k].score;
      assert IsFirstBest(c', k) && c'[k] == c[k];
    }
  }

  lemma NotTied(c: seq<Cand>, s: int)
    requires forall j :: 0 <= j < |c| ==> c[j].score < s
    ensures !Tied(c, s)
  {
  }

  lemma {:induction false} ScanNsSums(c: seq<Cand>, rest: seq<Cand>, d: Desc)
    requires Sums(c, d) && NoErrors(rest)
    ensures ScanNs(Heuristic, rest, d).Done? && Sums(c + rest, ScanNs(Heuristic, rest, d).desc)
    decreases |rest|
  {
    if rest == [] {
      assert c + rest == c;
    } else {
      var x := rest[0];
      SumsStep(c, d, x);
      assert c + rest == c + [x] + rest[1..];
      ScanNsSums(c + [x], rest[1..],
        if x.score > d.best then Desc(Some(x.id), x.score, 1)
        else if x.score == d.best then d.(count := d.count + 1) else d);
    }
  }

  lemma {:induction false} ScanNsError(c: seq<Cand>, k: nat, d: Desc)
    requires k < |c| && c[k].score < 0 && (forall j :: 0 <= j < k ==> c[j].score >= 0)
    ensures ScanNs(Heuristic, c, d) == Failed(-c[k].score)
  {
    if k > 0 {
      var x := c[0];
      ScanNsError(c[1..], k - 1,
        if x.score > d.best then Desc(Some(x.id), x.score, 1)
        else if x.score == d.best then d.(count := d.count + 1) else d);
    }
  }

  /** What a heuristic search means, for any callback: the first candidate with the maximal
      positive score is found, ambiguity is reported exactly when another one ties with it,
      nothing is found exactly when no score is positive. */
  lemma HeuristicMeaning(cs: seq<seq<Cand>>)
    requires NoErrors(Flatten(cs))
    ensures Scan(Heuristic, cs, INIT).Done?
    ensures var d := Scan(Heuristic, cs, INIT).desc; var c := Flatten(cs);
      && (Found(d).Some? <==> exists k :: 0 <= k < |c| && c[k].score > 0)
      && (forall k: nat :: IsFirstBest(c, k) ==> Found(d) == Some(c[k].id))
      && (forall k: nat :: IsFirstBest(c, k) ==>
        (Ambiguous(d) <==> exists j :: 0 <= j < |c| && j != k && c[j].score == c[k].score))
      && (Found(d).None? ==> !Ambiguous(d))
  {
    var c := Flatten(cs);
    ScanIsFlat(cs, INIT);
    NotTied([], 1);
    ScanNsSums([], c, INIT);
    assert [] + c == c;
    SumsMeaning(c, Scan(Heuristic, cs, INIT).desc);
  }

  lemma SumsMeaning(c: seq<Cand>, d: Desc)
    requires Sums(c, d)
    ensures Found(d).Some? <==> exists k :: 0 <= k < |c| && c[k].score > 0
    ensures forall k: nat :: IsFirstBest(c, k) ==> Found(d) == Some(c[k].id)
    ensures forall k: nat :: IsFirstBest(c, k) ==>
      (Ambiguous(d) <==> exists j :: 0 <= j < |c| && j != k && c[j].score == c[k].score)
  {
    forall k: nat | IsFirstBest(c, k)
      ensures Found(d) == Some(c[k].id)
      ensures Ambiguous(d) <==> exists j :: 0 <= j < |c| && j != k && c[j].score == c[k].score
    {
      var k': nat :| IsFirstBest(c, k') && d.found == Some(c[k'].id) && d.best == c[k'].score;
      assert k == k';
      if j :| 0 <= j < |c| && j != k && c[j].score == c[k].score {
        assert k < j;
      }
    }
  }

  /** The first negative score ends the search and becomes the error code. */
  lemma HeuristicError(cs: seq<seq<Cand>>, k: nat)
    requires k < |Flatten(cs)| && Flatten(cs)[k].score < 0
    requires forall j :: 0 <= j < k ==> Flatten(cs)[j].score >= 0
    ensures Scan(Heuristic, cs, INIT) == Failed(-Flatten(cs)[k].score)
  {
    ScanIsFlat(cs, INIT);
    ScanNsError(Flatten(cs), k, INIT);
  }

  // ----- first-match mode

  /** Scores of a yes/no callback. */
  ghost predicate YesNo(c: seq<Cand>) {
    forall k :: 0 <= k < |c| ==> c[k].score == 0 || c[k].score == 1
  }

  function FirstYes(c: seq<Cand>): Option<nat> {
    if c == [] then None else if c[0].score == 1 then Some(c[0].id) else FirstYes(c[1..])
  }

  lemma {:induction false} FirstYesConcat(a: seq<Cand>, b: seq<Cand>)
    ensures FirstYes(a + b) == if FirstYes(a).Some? then FirstYes(a) else FirstYes(b)
  {
    if a == [] {
      assert a + b == b;
    } else {
      assert (a + b)[1..] == a[1..] + b;
      FirstYesConcat(a[1..], b);
    }
  }

  // What first-match mode does with any callback that reports no error: each namespace may replace
  // the result of the ones before it, but only by a candidate with a higher score.

  ghost predicate NoneAbove(c: seq<Cand>, s: int) {
    forall k :: 0 <= k < |c| ==> c[k].score <= s
  }

  /** The result is one of the candidates. */
  ghost predicate Among(c: seq<Cand>, e: Desc) {
    exists k :: 0 <= k < |c| && e.found == Some(c[k].id) && e.best == c[k].score
  }

  lemma AmongParts(a: seq<Cand>, b: seq<Cand>, e: Desc)
    requires Among(a, e) || Among(b, e)
    ensures Among(a + b, e)
  {
    if k :| 0 <= k < |a| && e.found == Some(a[k].id) && e.best == a[k].score {
      assert (a + b)[k] == a[k];
    } else {
      var k :| 0 <= k < |b| && e.found == Some(b[k].id) && e.best == b[k].score;
      assert (a + b)[|a| + k] == b[k];
    }
  }

  lemma {:induction false} ScanNsFirst(c: seq<Cand>, d: Desc)
    requires NoErrors(c) && d.best >= 0
    ensures ScanNs(First, c, d).Done?
    ensures var e := ScanNs(First, c, d).desc;
      && (NoneAbove(c, d.best) ==> e.found == d.found && e.best == d.best)
      && (!NoneAbove(c, d.best) ==> e.best > d.best && Among(c, e))
  {
    if c != [] {
      if c[0].score <= d.best {
        var d' := if c[0].score == d.best then d.(count := d.count + 1) else d;
        ScanNsFirst(c[1..], d');
        assert c == [c[0]] + c[1..];
        if !NoneAbove(c[1..], d.best) {
          var k :| 0 <= k < |c[1..]| && ScanNs(First, c, d).desc.found == Some(c[1..][k].id) &&
            ScanNs(First, c, d).desc.best == c[1..][k].score;
          assert c[k + 1] == c[1..][k];
        }
      } else {
        assert ScanNs(First, c, d).desc == Desc(Some(c[0].id), c[0].score, 1);
      }
    }
  }

  /** The first candidate above the best score so far is the one a namespace contributes. */
  lemma {:induction false} ScanNsHit(c: seq<Cand>, k: nat, d: Desc)
    requires NoErrors(c) && k < |c| && c[k].score > d.best >= 0 && NoneAbove(c[..k], d.best)
    ensures ScanNs(First, c, d) == Done(Desc(Some(c[k].id), c[k].score, 1))
  {
    if k > 0 {
      assert c[..k][0] == c[0] && c[1..][..k - 1] == c[..k][1..];
      ScanNsHit(c[1..], k - 1, if c[0].score == d.best then d.(count := d.count + 1) else d);
    }
  }

  lemma FlattenParts(cs: seq<seq<Cand>>)
    requires cs != []
    ensures NoErrors(Flatten(cs)) <==> NoErrors(cs[0]) && NoErrors(Flatten(cs[1..]))
    ensures forall s: int :: NoneAbove(Flatten(cs), s) <==> NoneAbove(cs[0], s) && NoneAbove(Flatten(cs[1..]), s)
    ensures YesNo(Flatten(cs)) <==> YesNo(cs[0]) && YesNo(Flatten(cs[1..]))
  {
    var a, b := cs[0], Flatten(cs[1..]);
    assert forall k :: 0 <= k < |a| ==> (a + b)[k] == a[k];
    assert forall k :: 0 <= k < |b| ==> (a + b)[|a| + k] == b[k];
  }

  lemma AboveMore(c: seq<Cand>, s: int, t: int)
    requires s <= t && !NoneAbove(c, t)
    ensures !NoneAbove(c, s)
  {
  }

  lemma AmongSame(c: seq<Cand>, d: Desc, e: Desc)
    requires Among(c, d) && e.found == d.found && e.best == d.best
    ensures Among(c, e)
  {
  }

  /** Later namespaces keep the result exactly if they hold nothing better; what replaces it is one
      of their candidates. */
  lemma {:induction false} ScanFirst(cs: seq<seq<Cand>>, d: Desc)
    requires NoErrors(Flatten(cs)) && d.best >= 0
    ensures Scan(First, cs, d).Done?
    ensures var e := Scan(First, cs, d).desc; var c := Flatten(cs);
      && (NoneAbove(c, d.best) ==> e.found == d.found && e.best == d.best)
      && (!NoneAbove(c, d.best) ==> e.best > d.best && Among(c, e))
  {
    hide NoErrors, Among, ScanNs;
    if cs != [] {
      var a, b := cs[0], Flatten(cs[1..]);
      FlattenParts(cs);
      ScanNsFirst(a, d);
      var d' := ScanNs(First, a, d).desc;
      ScanFirst(cs[1..], d');
      assert NoneAbove(Flatten(cs), d.best) <==> NoneAbove(a, d.best) && NoneAbove(b, d.best);
      var e := Scan(First, cs, d).desc;
      if Among(a, e) || Among(b, e) {
        AmongParts(a, b, e);
      }
      if !NoneAbove(b, d'.best) {
        AboveMore(b, d.best, d'.best);
      }
      if NoneAbove(b, d'.best) && !NoneAbove(a, d.best) {
        AmongSame(a, d', e);
      }
    }
  }

  /** Candidate `k` of namespace `j` is the first positive one over all namespaces. */
  ghost predicate FirstHit(cs: seq<seq<Cand>>, j: nat, k: nat) {
    && j < |cs| && k < |cs[j]| && cs[j][k].score > 0
    && NoneAbove(Flatten(cs[..j]), 0) && NoneAbove(cs[j][..k], 0)
  }

  ghost predicate DistinctIds(c: seq<Cand>) {
    forall i, j :: 0 <= i < j < |c| ==> c[i].id != c[j].id
  }

  lemma {:induction false} ScanConcat(a: seq<seq<Cand>>, b: seq<seq<Cand>>, d: Desc)
    ensures Scan(First, a + b, d) ==
      match Scan(First, a, d) case Failed(e) => Failed(e) case Done(d') => Scan(First, b, d')
    ensures Flatten(a + b) == Flatten(a) + Flatten(b)
    decreases a
  {
    if a == [] {
      assert a + b == b;
    } else {
      assert (a + b)[0] == a[0] && (a + b)[1..] == a[1..] + b;
      ScanConcat(a[1..], b, match ScanNs(First, a[0], d) case Failed(_) => d case Done(d') => d');
    }
  }

  /** From the first positive candidate on, the outcome is a matter of the later namespaces. */
  lemma FirstReached(cs: seq<seq<Cand>>, j: nat, k: nat)
    requires NoErrors(Flatten(cs)) && FirstHit(cs, j, k)
    ensures NoErrors(Flatten(cs[j + 1..]))
    ensures Flatten(cs) == Flatten(cs[..j]) + (cs[j] + Flatten(cs[j + 1..]))
    ensures Scan(First, cs, INIT) == Scan(First, cs[j + 1..], Desc(Some(cs[j][k].id), cs[j][k].score, 1))
  {
    var before, rest := cs[..j], cs[j..];
    assert cs == before + rest && rest[0] == cs[j] && rest[1..] == cs[j + 1..];
    ScanConcat(before, rest, INIT);
    assert forall i :: 0 <= i < |Flatten(before)| ==> Flatten(cs)[i] == Flatten(before)[i];
    assert forall i :: 0 <= i < |Flatten(rest)| ==> Flatten(cs)[|Flatten(before)| + i] == Flatten(rest)[i];
    FlattenParts(rest);
    ScanFirst(before, INIT);
    ScanNsHit(cs[j], k, Scan(First, before, INIT).desc);
  }

  lemma {:induction false} NoneAboveEach(cs: seq<seq<Cand>>, s: int)
    ensures NoneAbove(Flatten(cs), s) <==> forall i :: 0 <= i < |cs| ==> NoneAbove(cs[i], s)
  {
    if cs != [] {
      FlattenParts(cs);
      NoneAboveEach(cs[1..], s);
      assert cs == [cs[0]] + cs[1..];
    }
  }

  lemma LaterEach(cs: seq<seq<Cand>>, j: nat, s: int)
    requires j < |cs|
    ensures NoneAbove(Flatten(cs[j + 1..]), s) <==> forall i: nat :: j < i < |cs| ==> NoneAbove(cs[i], s)
  {
    hide NoneAbove, Flatten;
    var later := cs[j + 1..];
    NoneAboveEach(later, s);
    assert forall i: nat :: j < i < |cs| ==> cs[i] == later[i - j - 1];
    assert forall i {:trigger later[i]} :: 0 <= i < |later| ==> later[i] == cs[j + 1 + i];
  }

  lemma LaterIds(cs: seq<seq<Cand>>, j: nat, k: nat, i: nat)
    requires NoErrors(Flatten(cs)) && DistinctIds(Flatten(cs)) && FirstHit(cs, j, k) && i < |Flatten(cs[j + 1..])|
    ensures Flatten(cs[j + 1..])[i].id != cs[j][k].id
  {
    FirstReached(cs, j, k);
    hide NoneAbove, Flatten, Scan, NoErrors;
    var all, n := Flatten(cs), |Flatten(cs[..j])|;
    assert all[n + k] == cs[j][k] && all[n + |cs[j]| + i] == Flatten(cs[j + 1..])[i];
  }

  /** First-match mode leaves only the loop over one namespace. It finds the first match over all
      namespaces exactly when no namespace behind that match holds a candidate with a higher score. */
  lemma FirstExactly(cs: seq<seq<Cand>>, j: nat, k: nat)
    requires NoErrors(Flatten(cs)) && DistinctIds(Flatten(cs)) && FirstHit(cs, j, k)
    ensures Scan(First, cs, INIT).Done?
    ensures Found(Scan(First, cs, INIT).desc) == Some(cs[j][k].id) <==>
      forall i: nat :: j < i < |cs| ==> NoneAbove(cs[i], cs[j][k].score)
  {
    hide NoneAbove, Flatten, Scan, DistinctIds, NoErrors;
    FirstReached(cs, j, k);
    LaterEach(cs, j, cs[j][k].score);
    ScanFirst(cs[j + 1..], Desc(Some(cs[j][k].id), cs[j][k].score, 1));
    var later := Flatten(cs[j + 1..]);
    forall i | 0 <= i < |later| ensures later[i].id != cs[j][k].id {
      LaterIds(cs, j, k, i);
    }
  }

  /** Without any positive score nothing is found. */
  lemma FirstNothing(cs: seq<seq<Cand>>)
    requires NoErrors(Flatten(cs)) && NoneAbove(Flatten(cs), 0)
    ensures Scan(First, cs, INIT).Done? && Found(Scan(First, cs, INIT).desc) == None
  {
    ScanFirst(cs, INIT);
  }

  lemma {:induction false} HitExists(cs: seq<seq<Cand>>) returns (j: nat, k: nat)
    requires YesNo(Flatten(cs)) && FirstYes(Flatten(cs)).Some?
    ensures FirstHit(cs, j, k) && FirstYes(Flatten(cs)) == Some(cs[j][k].id)
  {
    FlattenParts(cs);
    FirstYesConcat(cs[0], Flatten(cs[1..]));
    if FirstYes(cs[0]).Some? {
      k := YesAt(cs[0]);
      j := 0;
      assert cs[..0] == [];
    } else {
      j, k := HitExists(cs[1..]);
      NoYes(cs[0]);
      assert cs[..j + 1][0] == cs[0] && cs[..j + 1][1..] == cs[1..][..j];
      FlattenParts(cs[..j + 1]);
      j := j + 1;
    }
  }

  lemma {:induction false} YesAt(c: seq<Cand>) returns (k: nat)
    requires YesNo(c) && FirstYes(c).Some?
    ensures k < |c| && c[k].score == 1 && NoneAbove(c[..k], 0) && FirstYes(c) == Some(c[k].id)
  {
    if c[0].score == 1 {
      k := 0;
    } else {
      k := YesAt(c[1..]);
      assert c[..k + 1] == [c[0]] + c[1..][..k];
      k := k + 1;
    }
  }

  lemma {:induction false} NoYes(c: seq<Cand>)
    requires YesNo(c) && FirstYes(c).None?
    ensures NoneAbove(c, 0)
  {
    if c != [] {
      NoYes(c[1..]);
      assert c == [c[0]] + c[1..];
    }
  }

  /** With a yes/no callback, such as the one of the program's only first-match search, it always
      does. */
  lemma FirstMeaning(cs: seq<seq<Cand>>)
    requires YesNo(Flatten(cs))
    ensures Scan(First, cs, INIT).Done?
    ensures Found(Scan(First, cs, INIT).desc) == FirstYes(Flatten(cs))
  {
    if FirstYes(Flatten(cs)).Some? {
      var j, k := HitExists(cs);
      FirstReached(cs, j, k);
      var later := Flatten(cs[j + 1..]);
      assert forall i :: 0 <= i < |later| ==> later[i] == Flatten(cs)[|Flatten(cs[..j])| + |cs[j]| + i];
      assert Flatten(cs)[|Flatten(cs[..j])| + k] == cs[j][k];
      ScanFirst(cs[j + 1..], Desc(Some(cs[j][k].id), cs[j][k].score, 1));
    } else {
      NoYes(Flatten(cs));
      FirstNothing(cs);
    }
  }

  /** An input with finer scores on which it does not: a later namespace wins. */
  lemma FirstIsPerNamespace()
    ensures var cs := [[Cand(0, 1), Cand(1, 5)], [Cand(2, 2)]];
      Scan(First, cs, INIT).Done? && Found(Scan(First, cs, INIT).desc) == Some(2)
  {
    var cs := [[Cand(0, 1), Cand(1, 5)], [Cand(2, 2)]];
    assert cs[1..] == [[Cand(2, 2)]];
    assert cs[1..][1..] == [];
  }
}
