/** frontend.c's output options: the list of outputs they build, newest first. */
module Frontend {
  import opened Common

  const EINVAL := 22
  const DEFAULT_FORMAT := "dot"
  const ALL_PROPS := 0xFFFF_FFFF

  datatype Opt = Format(format: string) | Output(file: string) | ConfigOnly

  /** output_entry */
  datatype Entry = Entry(format: string, file: Option<string>, mask: nat)

  /** The static variables: `outputs`, newest first, and `used_default_format`. */
  datatype State = State(outputs: seq<Entry>, usedDefault: bool)

  const START := State([], false)

  /** print_mask &= ~IF_PROP_STATE */
  function NoState(mask: nat): (m: nat)
    ensures m % 2 == 0 && m / 2 == mask / 2
  {
    mask - mask % 2
  }

  function Add(s: State, format: string): State {
    s.(outputs := [Entry(format, None, ALL_PROPS)] + s.outputs)
  }

  function Require(s: State): (t: State)
    ensures t.outputs != []
  {
    if s.outputs == [] then Add(s, DEFAULT_FORMAT).(usedDefault := true) else s
  }

  /** One option; None when it is rejected. */
  function Step(s: State, o: Opt): Option<State> {
    match o
    case Format(f) => if s.usedDefault then None else Some(Add(s, f))
    case Output(f) =>
      var r := Require(s);
      var t := if r.outputs[0].file.Some? then Add(r, r.outputs[0].format) else r;
      Some(t.(outputs := [t.outputs[0].(file := Some(f))] + t.outputs[1..]))
    case ConfigOnly =>
      var r := Require(s);
      Some(r.(outputs := [r.outputs[0].(mask := NoState(r.outputs[0].mask))] + r.outputs[1..]))
  }

  /** Options up to the first rejected one; parsing stops there. */
  function Run(os: seq<Opt>): Option<State> {
    if os == [] then Some(START)
    else
      match Run(os[..|os| - 1])
      case None => None
      case Some(s) => Step(s, os[|os| - 1])
  }

  // ----- what a command line means

  /** The format an option is under: the last one given before it, else the default. */
  function FormatAt(os: seq<Opt>, k: nat): string
    requires k <= |os|
  {
    if k == 0 then DEFAULT_FORMAT
    else if os[k - 1].Format? then os[k - 1].format
    else FormatAt(os, k - 1)
  }

  /** Does option `k` start a new record? A format does, an output does unless the record made by
      the format before it is still without a file, and whatever comes first does. */
  predicate Starts(os: seq<Opt>, k: nat)
    requires k < |os|
  {
    match os[k]
    case Format(_) => true
    case Output(_) => k == 0 || FileSince(os, k)
    case ConfigOnly => k == 0
  }

  /** Was there an output after the last format before option `k`? */
  predicate FileSince(os: seq<Opt>, k: nat)
    requires k <= |os|
  {
    k > 0 && (os[k - 1].Output? || (os[k - 1].ConfigOnly? && FileSince(os, k - 1)))
  }

  /** The file given by options `k` up to `e`. */
  function FileIn(os: seq<Opt>, k: nat, e: nat): Option<string>
    requires e <= |os|
  {
    if e <= k then None
    else if os[e - 1].Output? then Some(os[e - 1].file)
    else FileIn(os, k, e - 1)
  }

  predicate ConfigIn(os: seq<Opt>, k: nat, e: nat)
    requires e <= |os|
  {
    exists i :: k <= i < e && os[i].ConfigOnly?
  }

  /** The record started by option `k` when the next one is started by option `e`. */
  function Record(os: seq<Opt>, k: nat, e: nat): Entry
    requires k < e <= |os|
  {
    Entry(FormatAt(os, k + 1), FileIn(os, k, e), if ConfigIn(os, k, e) then NoState(ALL_PROPS) else ALL_PROPS)
  }

  /** The records started before option `n`, newest first, when the one after them is started by
      option `e`. */
  function Records(os: seq<Opt>, n: nat, e: nat): seq<Entry>
    requires n <= e <= |os|
  {
    if n == 0 then []
    else if Starts(os, n - 1) then [Record(os, n - 1, e)] + Records(os, n - 1, n - 1)
    else Records(os, n - 1, e)
  }

  // ----- prefixes

  lemma {:induction false} FormatAtPrefix(os: seq<Opt>, o: Opt, k: nat)
    requires k <= |os|
    ensures FormatAt(os + [o], k) == FormatAt(os, k) && FileSince(os + [o], k) == FileSince(os, k)
  {
    if k > 0 {
      FormatAtPrefix(os, o, k - 1);
    }
  }

  lemma StartsPrefix(os: seq<Opt>, o: Opt, k: nat)
    requires k < |os|
    ensures Starts(os + [o], k) == Starts(os, k)
  {
    FormatAtPrefix(os, o, k);
  }

  lemma {:induction false} FileInPrefix(os: seq<Opt>, o: Opt, k: nat, e: nat)
    requires e <= |os|
    ensures FileIn(os + [o], k, e) == FileIn(os, k, e)
  {
    if k < e {
      FileInPrefix(os, o, k, e - 1);
    }
  }

  lemma RecordPrefix(os: seq<Opt>, o: Opt, k: nat, e: nat)
    requires k < e <= |os|
    ensures Record(os + [o], k, e) == Record(os, k, e)
  {
    FormatAtPrefix(os, o, k + 1);
    FileInPrefix(os, o, k, e);
    assert forall i :: 0 <= i < |os| ==> (os + [o])[i] == os[i];
  }

  lemma {:induction false} RecordsPrefix(os: seq<Opt>, o: Opt, n: nat, e: nat)
    requires n <= e <= |os|
    ensures Records(os + [o], n, e) == Records(os, n, e)
    decreases n
  {
    hide Record, Starts;
    if n > 0 {
      StartsPrefix(os, o, n - 1);
      RecordPrefix(os, o, n - 1, e);
      RecordsPrefix(os, o, n - 1, n - 1);
      RecordsPrefix(os, o, n - 1, e);
    }
  }

  /** The newest record, after one option that starts none. */
  function Amend(r: Entry, o: Opt): Entry {
    match o
    case Format(_) => r
    case Output(f) => r.(file := Some(f))
    case ConfigOnly => r.(mask := NoState(r.mask))
  }

  lemma RecordGrows(os: seq<Opt>, o: Opt, k: nat)
    requires k < |os|
    ensures Record(os + [o], k, |os| + 1) == Amend(Record(os, k, |os|), o)
  {
    var ps := os + [o];
    RecordPrefix(os, o, k, |os|);
    ConfigGrows(ps, k, |os|);
  }

  lemma ConfigGrows(os: seq<Opt>, k: nat, e: nat)
    requires k <= e < |os|
    ensures ConfigIn(os, k, e + 1) <==> ConfigIn(os, k, e) || os[e].ConfigOnly?
  {
    if os[e].ConfigOnly? {
      assert k <= e < e + 1 && os[e].ConfigOnly?;
    }
  }

  lemma {:induction false} RecordsGrow(os: seq<Opt>, o: Opt, n: nat)
    requires n <= |os|
    ensures var rs := Records(os, n, |os|); var qs := Records(os + [o], n, |os| + 1);
      qs == if rs == [] then [] else [Amend(rs[0], o)] + rs[1..]
  {
    hide Record, Starts;
    if n > 0 {
      StartsPrefix(os, o, n - 1);
      if Starts(os, n - 1) {
        RecordGrows(os, o, n - 1);
        RecordsPrefix(os, o, n - 1, n - 1);
        var rest := Records(os, n - 1, n - 1);
        assert ([Record(os, n - 1, |os|)] + rest)[1..] == rest;
      } else {
        RecordsGrow(os, o, n - 1);
      }
    }
  }

  // ----- refinement

  /** What the state is after accepted options. */
  ghost predicate Matches(os: seq<Opt>, s: State) {
    && s.outputs == Records(os, |os|, |os|)
    && (os == [] <==> s.outputs == [])
    && (os != [] ==>
          && s.outputs[0].format == FormatAt(os, |os|)
          && (s.outputs[0].file.Some? <==> FileSince(os, |os|))
          && (s.usedDefault <==> !os[0].Format?))
    && (os == [] ==> !s.usedDefault)
  }

  lemma FreshRecord(os: seq<Opt>, o: Opt)
    ensures var n := |os|;
      Record(os + [o], n, n + 1) == Amend(Entry(if o.Format? then o.format else FormatAt(os, n), None, ALL_PROPS), o)
  {
    var ps := os + [o];
    assert ps[|os|] == o;
    FormatAtPrefix(os, o, |os|);
    assert FileIn(ps, |os|, |os|) == None;
    assert FormatAt(ps, |os| + 1) == if o.Format? then o.format else FormatAt(ps, |os|);
    if o.ConfigOnly? {
      assert ConfigIn(ps, |os|, |os| + 1);
    }
  }

  lemma StepMatches(os: seq<Opt>, s: State, o: Opt)
    requires Matches(os, s) && Step(s, o).Some?
    ensures Matches(os + [o], Step(s, o).value)
  {
    hide Record, Records;
    var ps, n := os + [o], |os|;
    assert ps[n] == o && (n > 0 ==> ps[0] == os[0]);
    FormatAtPrefix(os, o, n);
    var t := Step(s, o).value;
    LastRecord(ps);
    if Starts(ps, n) {
      FreshRecord(os, o);
      RecordsPrefix(os, o, n, n);
    } else {
      RecordsGrow(os, o, n);
      assert t.outputs == [Amend(s.outputs[0], o)] + s.outputs[1..];
    }
  }

  lemma LastRecord(ps: seq<Opt>)
    requires ps != []
    ensures var n := |ps| - 1;
      Records(ps, n + 1, n + 1) ==
        if Starts(ps, n) then [Record(ps, n, n + 1)] + Records(ps, n, n) else Records(ps, n, n + 1)
  {
  }

  /** The list of outputs is exactly the list of records the command line describes: one per
      format given or needed, each with the file and the restrictions given for it. */
  lemma {:induction false} OutputsAreRecords(os: seq<Opt>)
    requires Run(os).Some?
    ensures Matches(os, Run(os).value)
  {
    if os != [] {
      var init := os[..|os| - 1];
      OutputsAreRecords(init);
      StepMatches(init, Run(init).value, os[|os| - 1]);
      assert os == init + [os[|os| - 1]];
    }
  }

  /** A command line is accepted exactly when it starts with a format or has none at all: once the
      default was used, every format is rejected. */
  lemma {:induction false} AcceptedExactly(os: seq<Opt>)
    ensures Run(os).Some? <==> os == [] || os[0].Format? || forall k :: 0 <= k < |os| ==> !os[k].Format?
  {
    if os != [] {
      var init := os[..|os| - 1];
      AcceptedExactly(init);
      assert os == init + [os[|os| - 1]];
      if Run(init).Some? {
        OutputsAreRecords(init);
      }
    }
  }

  /** The pairs of file and format, oldest first. */
  function Files(es: seq<Entry>): seq<(string, string)> {
    if es == [] then []
    else if es[0].file.Some? then Files(es[1..]) + [(es[0].file.value, es[0].format)]
    else Files(es[1..])
  }

  /** What the output options ask for, in order. */
  function Wanted(os: seq<Opt>): seq<(string, string)> {
    if os == [] then []
    else
      var o := os[|os| - 1];
      var w := Wanted(os[..|os| - 1]);
      if o.Output? then w + [(o.file, FormatAt(os, |os|))] else w
  }

  /** Every accepted output option yields exactly one record with its file, in the most recent
      format, and no other record has a file. */
  lemma {:induction false} EveryOutputOnce(os: seq<Opt>)
    requires Run(os).Some?
    ensures Files(Run(os).value.outputs) == Wanted(os)
  {
    if os != [] {
      var init, o := os[..|os| - 1], os[|os| - 1];
      EveryOutputOnce(init);
      OutputsAreRecords(init);
      assert os == init + [o];
      FormatAtPrefix(init, o, |init|);
      var s := Run(init).value;
      FilesStep(s, o);
    }
  }

  lemma FilesStep(s: State, o: Opt)
    requires Step(s, o).Some?
    ensures var t := Step(s, o).value;
      && t.outputs != []
      && Files(t.outputs) == Files(s.outputs) + (if o.Output? then [(o.file, t.outputs[0].format)] else [])
      && (o.Output? ==> t.outputs[0].format == if s.outputs == [] then DEFAULT_FORMAT else s.outputs[0].format)
  {
    var r := Require(s);
    assert r.outputs[1..] == if s.outputs == [] then [] else s.outputs[1..];
    match o
    case Format(f) => assert Add(s, f).outputs[1..] == s.outputs;
    case Output(f) =>
      assert Add(r, r.outputs[0].format).outputs[1..] == r.outputs;
      assert Step(s, o).value.outputs[1..] == if r.outputs[0].file.Some? then r.outputs else r.outputs[1..];
    case ConfigOnly =>
      assert Step(s, o).value.outputs[1..] == r.outputs[1..];
  }

  /** No option touches a record that is not the newest. */
  lemma OnlyNewest(s: State, o: Opt)
    requires Step(s, o).Some? && s.outputs != []
    ensures var t := Step(s, o).value;
      && |t.outputs| >= |s.outputs| && t.outputs[|t.outputs| - |s.outputs| + 1..] == s.outputs[1..]
      && (o.ConfigOnly? ==>
            |t.outputs| == |s.outputs| && t.outputs[0] == s.outputs[0].(mask := NoState(s.outputs[0].mask)))
  {
  }

  lemma SameDefault(os: seq<Opt>)
    requires |os| > 1 && Run(os).Some?
    ensures Run(os).value.usedDefault == Run(os[..|os| - 1]).value.usedDefault
  {
    OutputsAreRecords(os);
    OutputsAreRecords(os[..|os| - 1]);
  }

  /** Once the default format was used, every record stays in it. */
  lemma {:induction false} DefaultStays(os: seq<Opt>)
    requires Run(os).Some? && Run(os).value.usedDefault
    ensures forall k :: 0 <= k < |Run(os).value.outputs| ==> Run(os).value.outputs[k].format == DEFAULT_FORMAT
    ensures forall f :: Run(os + [Format(f)]).None?
  {
    if os != [] {
      var init := os[..|os| - 1];
      if init != [] {
        SameDefault(os);
        DefaultStays(init);
      }
    }
    forall f ensures Run(os + [Format(f)]).None? {
      assert (os + [Format(f)])[..|os|] == os;
    }
  }

  // ----- the callbacks

  class OutputEntry {
    var format: string
    var file: Option<string>
    var printMask: nat

    constructor (format: string)
      ensures this.format == format && file == None && printMask == ALL_PROPS
    {
      this.format, file, printMask := format, None, ALL_PROPS;
    }
  }

  class Options {
    var outputs: seq<OutputEntry>
    var usedDefaultFormat: bool

    ghost predicate Valid()
      reads this
    {
      NoDup(outputs)
    }

    ghost function Now(): State
      reads this, outputs
    {
      State(seq(|outputs|, k requires 0 <= k < |outputs| reads this, outputs =>
              Entry(outputs[k].format, outputs[k].file, outputs[k].printMask)), usedDefaultFormat)
    }

    constructor ()
      ensures Valid() && Now() == START
    {
      outputs, usedDefaultFormat := [], false;
    }

    /** add_output */
    method AddOutput(format: string)
      requires Valid()
      modifies this`outputs
      ensures Valid() && Now() == Add(old(Now()), format)
      ensures |outputs| == |old(outputs)| + 1 && outputs[1..] == old(outputs) && fresh(outputs[0])
    {
      var out := new OutputEntry(format);
      outputs := [out] + outputs;
    }

    /** add_format */
    method AddFormat(arg: string) returns (err: int)
      requires Valid()
      modifies this`outputs
      ensures Valid() && err == (if Step(old(Now()), Format(arg)).Some? then 0 else EINVAL)
      ensures Now() == if err == 0 then Step(old(Now()), Format(arg)).value else old(Now())
    {
      if usedDefaultFormat {
        return EINVAL;
      }
      AddOutput(arg);
      return 0;
    }

    /** require_format */
    method RequireFormat()
      requires Valid()
      modifies this`outputs, this`usedDefaultFormat
      ensures Valid() && Now() == Require(old(Now())) && outputs != []
      ensures fresh(outputs[0]) || outputs == old(outputs)
    {
      if outputs == [] {
        AddOutput(DEFAULT_FORMAT);
        usedDefaultFormat := true;
      }
    }

    /** set_output */
    method SetOutput(arg: string)
      requires Valid()
      modifies this, outputs
      ensures Valid() && Step(old(Now()), Output(arg)) == Some(Now())
    {
      RequireFormat();
      if outputs[0].file.Some? {
        AddOutput(outputs[0].format);
      }
      ghost var t := Now();
      outputs[0].file := Some(arg);
      assert Now().outputs == [t.outputs[0].(file := Some(arg))] + t.outputs[1..];
    }

    /** set_nostate */
    method SetNoState()
      requires Valid()
      modifies this, outputs
      ensures Valid() && Step(old(Now()), ConfigOnly) == Some(Now())
    {
      RequireFormat();
      ghost var t := Now();
      outputs[0].printMask := NoState(outputs[0].printMask);
      assert Now().outputs == [t.outputs[0].(mask := NoState(t.outputs[0].mask))] + t.outputs[1..];
    }
  }
}
