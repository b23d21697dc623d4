/** What one host's upload pass issues, as values: the resolved entries, the
    directory-to-permission map, the planned host operations in order, and the run of
    that plan that stops at the first operation the host refuses. The imperative pass in
    module Phase is proved to issue exactly this. */
module PhasePlan {
  import opened Wrappers
  import Paths
  import opened Cluster

  /** An operation the pass asks of the host. */
  datatype Op =
    | MkDir(path: string)
    | Chmod(path: string, perm: string)
    | Upload(src: string, dest: string)
    | DownloadURL(url: string, dest: string)

  predicate IsTransfer(op: Op) { op.Upload? || op.DownloadURL? }

  /** The error the pass returns. Resolve and Destination errors are returned as they are. */
  datatype UploadError =
    | EntryFailed(cause: Error)
    | MkDirFailed(dir: string)
    | ChmodDirFailed(dir: string)
    | UploadFailed(src: string, dest: string)
    | DownloadFailed(url: string, dest: string)
    | ChmodFileFailed(dest: string)

  /** A planned operation and the error the pass returns when the host refuses it. */
  datatype Step = Step(op: Op, failure: UploadError)

  /** Whether the host refuses an operation, given the operations it received before. */
  type FailureOracle = (seq<Op>, Op) -> bool

  function Ops(steps: seq<Step>): (r: seq<Op>)
    ensures |r| == |steps|
    ensures forall i :: 0 <= i < |steps| ==> r[i] == steps[i].op
  {
    if steps == [] then [] else [steps[0].op] + Ops(steps[1..])
  }

  lemma OpsAppend(a: seq<Step>, b: seq<Step>)
    ensures Ops(a + b) == Ops(a) + Ops(b)
  {
    var x, y := Ops(a + b), Ops(a) + Ops(b);
    forall i | 0 <= i < |x|
      ensures x[i] == y[i]
    {
      if i < |a| {
        assert (a + b)[i] == a[i];
      } else {
        assert (a + b)[i] == b[i - |a|];
      }
    }
  }

  /** The paths a successful operation brings into existence. */
  function Creates(op: Op): set<string>
  {
    match op
    case MkDir(d) => {d}
    case Chmod(_, _) => {}
    case Upload(_, dest) => {dest}
    case DownloadURL(_, dest) => {dest}
  }

  function CreatedBy(ops: seq<Op>): set<string>
  {
    if ops == [] then {} else CreatedBy(ops[..|ops| - 1]) + Creates(ops[|ops| - 1])
  }

  lemma {:induction false} CreatedByAppend(a: seq<Op>, b: seq<Op>)
    ensures CreatedBy(a + b) == CreatedBy(a) + CreatedBy(b)
    decreases |b|
  {
    if b != [] {
      assert (a + b)[..|a + b| - 1] == a + b[..|b| - 1];
      CreatedByAppend(a, b[..|b| - 1]);
    } else {
      assert a + b == a;
    }
  }

  /** No step of `steps` is refused when they are issued in order after `hist`. */
  predicate NoneFail(fails: FailureOracle, hist: seq<Op>, steps: seq<Step>)
    decreases |steps|
  {
    steps == [] ||
    (!fails(hist, steps[0].op) && NoneFail(fails, hist + [steps[0].op], steps[1..]))
  }

  lemma {:induction false} NoneFailAppend(fails: FailureOracle, hist: seq<Op>, a: seq<Step>, s: Step)
    ensures NoneFail(fails, hist, a + [s]) <==> NoneFail(fails, hist, a) && !fails(hist + Ops(a), s.op)
    decreases |a|
  {
    if a == [] {
      assert a + [s] == [s];
      assert hist + Ops(a) == hist;
    } else {
      assert (a + [s])[0] == a[0];
      assert (a + [s])[1..] == a[1..] + [s];
      NoneFailAppend(fails, hist + [a[0].op], a[1..], s);
      assert hist + [a[0].op] + Ops(a[1..]) == hist + Ops(a);
    }
  }

  /** The operations the host received, and the error if one was refused. */
  datatype Outcome = Outcome(issued: seq<Op>, error: Option<UploadError>)

  /** Issue the plan in order and stop at the first refused operation. */
  function Run(fails: FailureOracle, hist: seq<Op>, plan: seq<Step>): Outcome
    decreases |plan|
  {
    if plan == [] then Outcome([], None)
    else if fails(hist, plan[0].op) then Outcome([plan[0].op], Some(plan[0].failure))
    else
      var o := Run(fails, hist + [plan[0].op], plan[1..]);
      Outcome([plan[0].op] + o.issued, o.error)
  }

  /** What a run issues is a prefix of the plan. */
  lemma {:induction false} RunIssuesPrefix(fails: FailureOracle, hist: seq<Op>, plan: seq<Step>)
    ensures var o := Run(fails, hist, plan);
      |o.issued| <= |plan| && o.issued == Ops(plan)[..|o.issued|]
    decreases |plan|
  {
    if plan != [] && !fails(hist, plan[0].op) {
      RunIssuesPrefix(fails, hist + [plan[0].op], plan[1..]);
    }
  }

  /** A run ends without error exactly when the host refuses none of the plan, and then
      it has issued all of it. */
  lemma {:induction false} RunCompletes(fails: FailureOracle, hist: seq<Op>, plan: seq<Step>)
    ensures var o := Run(fails, hist, plan);
      (o.error.None? <==> NoneFail(fails, hist, plan)) &&
      (o.error.None? ==> o.issued == Ops(plan))
    decreases |plan|
  {
    if plan != [] && !fails(hist, plan[0].op) {
      RunCompletes(fails, hist + [plan[0].op], plan[1..]);
    }
  }

  /** A run that ends in error stops at the refused operation: it is the last one issued,
      none before it was refused, and its error is the one returned. */
  lemma {:induction false} RunStopsAtRefusal(fails: FailureOracle, hist: seq<Op>, plan: seq<Step>)
    ensures var o := Run(fails, hist, plan);
      o.error.Some? ==>
        1 <= |o.issued| <= |plan| &&
        var n := |o.issued| - 1;
        NoneFail(fails, hist, plan[..n]) &&
        fails(hist + o.issued[..n], o.issued[n]) &&
        o.error == Some(plan[n].failure)
    decreases |plan|
  {
    if plan != [] && !fails(hist, plan[0].op) {
      RunStopsAtRefusal(fails, hist + [plan[0].op], plan[1..]);
      var o := Run(fails, hist + [plan[0].op], plan[1..]);
      if o.error.Some? {
        var n := |o.issued| - 1;
        assert plan[..n + 1][0] == plan[0];
        assert plan[..n + 1][1..] == plan[1..][..n];
        var r := Run(fails, hist, plan);
        assert r.issued[..n + 1] == [plan[0].op] + o.issued[..n];
        assert hist + r.issued[..n + 1] == hist + [plan[0].op] + o.issued[..n];
      }
    } else if plan != [] {
      assert plan[..0] == [];
      assert hist + Run(fails, hist, plan).issued[..0] == hist;
    }
  }

  /** Issuing `a + b` when the host accepts all of `a` is issuing `a`, then `b`. */
  lemma {:induction false} RunAfter(fails: FailureOracle, hist: seq<Op>, a: seq<Step>, b: seq<Step>)
    requires NoneFail(fails, hist, a)
    ensures Run(fails, hist, a + b) ==
      Outcome(Ops(a) + Run(fails, hist + Ops(a), b).issued, Run(fails, hist + Ops(a), b).error)
    decreases |a|
  {
    if a == [] {
      assert a + b == b;
      assert hist + Ops(a) == hist;
    } else {
      assert (a + b)[0] == a[0];
      assert (a + b)[1..] == a[1..] + b;
      RunAfter(fails, hist + [a[0].op], a[1..], b);
      assert hist + [a[0].op] + Ops(a[1..]) == hist + Ops(a);
    }
  }

  /** The operations the host carried out: all that were issued when none was refused,
      else all but the refused last one. */
  function Applied(o: Outcome): seq<Op>
  {
    if o.error.None? || o.issued == [] then o.issued else o.issued[..|o.issued| - 1]
  }

  /** Running `a + b` runs `a`; if that ends in a refusal nothing of `b` is issued,
      otherwise `b` is run after what `a` issued. */
  lemma {:induction false} RunThen(fails: FailureOracle, hist: seq<Op>, a: seq<Step>, b: seq<Step>)
    ensures var oa := Run(fails, hist, a);
      oa.error.Some? ==> Run(fails, hist, a + b) == oa
    ensures var oa := Run(fails, hist, a);
      var ob := Run(fails, hist + oa.issued, b);
      oa.error.None? ==> Run(fails, hist, a + b) == Outcome(oa.issued + ob.issued, ob.error)
    decreases |a|
  {
    if a == [] {
      assert a + b == b;
      assert hist + [] == hist;
    } else {
      assert (a + b)[0] == a[0];
      assert (a + b)[1..] == a[1..] + b;
      if !fails(hist, a[0].op) {
        RunThen(fails, hist + [a[0].op], a[1..], b);
        var o' := Run(fails, hist + [a[0].op], a[1..]);
        assert hist + [a[0].op] + o'.issued == hist + ([a[0].op] + o'.issued);
        assert [a[0].op] + o'.issued + Run(fails, hist + Run(fails, hist, a).issued, b).issued ==
          [a[0].op] + (o'.issued + Run(fails, hist + Run(fails, hist, a).issued, b).issued);
      }
    }
  }

  /** A run of two steps. */
  lemma RunTwo(fails: FailureOracle, hist: seq<Op>, s1: Step, s2: Step)
    ensures var o := Run(fails, hist, [s1, s2]);
      o == (if fails(hist, s1.op) then Outcome([s1.op], Some(s1.failure))
            else if fails(hist + [s1.op], s2.op) then Outcome([s1.op, s2.op], Some(s2.failure))
            else Outcome([s1.op, s2.op], None)) &&
      CreatedBy(Applied(o)) ==
        (if fails(hist, s1.op) then {}
         else if fails(hist + [s1.op], s2.op) then Creates(s1.op)
         else Creates(s1.op) + Creates(s2.op))
  {
    assert [s1, s2][1..] == [s2];
    assert [s2][1..] == [];
    assert [s2.op] + [] == [s2.op];
    assert Run(fails, hist + [s1.op] + [s2.op], []) == Outcome([], None);
    var o2 := Run(fails, hist + [s1.op], [s2]);
    assert o2 == if fails(hist + [s1.op], s2.op) then Outcome([s2.op], Some(s2.failure))
                 else Outcome([s2.op], None);
    assert [s1.op] + [s2.op] == [s1.op, s2.op];
    assert [s2.op] + [] == [s2.op];
    assert [s1.op, s2.op][..1] == [s1.op];
    assert [s1.op][..0] == [];
    assert CreatedBy([s1.op]) == Creates(s1.op);
    assert CreatedBy([s1.op, s2.op]) == Creates(s1.op) + Creates(s2.op);
  }

  /** Once a run of `a` ends in a refusal, whatever follows `a` is never issued. */
  lemma RefusalEndsRun(fails: FailureOracle, hist: seq<Op>, a: seq<Step>, b: seq<Step>)
    requires Run(fails, hist, a).error.Some?
    ensures Run(fails, hist, a + b) == Run(fails, hist, a)
  {
    RunThen(fails, hist, a, b);
  }

  /** When `a` runs through, what the host carried out of `a + b` is all of `a` and then
      what it carried out of `b`. */
  lemma AppliedThen(fails: FailureOracle, hist: seq<Op>, a: seq<Step>, b: seq<Step>)
    requires Run(fails, hist, a).error.None?
    ensures var oa := Run(fails, hist, a);
      Applied(Run(fails, hist, a + b)) == oa.issued + Applied(Run(fails, hist + oa.issued, b))
  {
    RunThen(fails, hist, a, b);
    var oa := Run(fails, hist, a);
    var ob := Run(fails, hist + oa.issued, b);
    RunStopsAtRefusal(fails, hist + oa.issued, b);
    if ob.error.Some? {
      var x, y := oa.issued, ob.issued;
      assert (x + y)[..|x + y| - 1] == x + y[..|y| - 1];
    }
  }

  /** The host's trace and existing paths after `steps` were issued from history `hist`
      with existing paths `ex`: the run's operations were appended, what it carried out
      was created, and `err` is the run's error. */
  ghost predicate Reached(fails: FailureOracle, hist: seq<Op>, ex: set<string>, steps: seq<Step>,
                          trace: seq<Op>, existing: set<string>, err: Option<UploadError>)
  {
    var o := Run(fails, hist, steps);
    trace == hist + o.issued && err == o.error && existing == ex + CreatedBy(Applied(o))
  }

  /** Issuing `b` after `a` ran through: together they reach what `b` reached. */
  lemma ReachedConcat(fails: FailureOracle, hist0: seq<Op>, ex0: set<string>, a: seq<Step>, b: seq<Step>,
                      hist: seq<Op>, ex: set<string>, trace: seq<Op>, existing: set<string>,
                      err: Option<UploadError>)
    requires Reached(fails, hist0, ex0, a, hist, ex, None)
    requires Reached(fails, hist, ex, b, trace, existing, err)
    ensures Reached(fails, hist0, ex0, a + b, trace, existing, err)
  {
    var o1 := Run(fails, hist0, a);
    var o2 := Run(fails, hist, b);
    RunThen(fails, hist0, a, b);
    AppliedThen(fails, hist0, a, b);
    CreatedByAppend(o1.issued, Applied(o2));
    ConcatAssoc(hist0, o1.issued, o2.issued);
  }

  /** A run refused within `a` reaches the same state whatever follows `a`. */
  lemma ReachedRefused(fails: FailureOracle, hist: seq<Op>, ex: set<string>, a: seq<Step>, b: seq<Step>,
                       trace: seq<Op>, existing: set<string>, err: Option<UploadError>)
    requires Reached(fails, hist, ex, a, trace, existing, err) && err.Some?
    ensures Reached(fails, hist, ex, a + b, trace, existing, err)
  {
    RefusalEndsRun(fails, hist, a, b);
  }

  /** A run in which the first n steps go through and step n is refused issues the first
      n + 1 operations and returns step n's error. */
  lemma RunFailsAt(fails: FailureOracle, hist: seq<Op>, plan: seq<Step>, n: nat)
    requires n < |plan| && NoneFail(fails, hist, plan[..n])
    requires fails(hist + Ops(plan[..n]), plan[n].op)
    ensures Run(fails, hist, plan) == Outcome(Ops(plan[..n + 1]), Some(plan[n].failure))
    ensures Applied(Run(fails, hist, plan)) == Ops(plan[..n])
  {
    assert plan == plan[..n] + plan[n..];
    RunAfter(fails, hist, plan[..n], plan[n..]);
    assert plan[n..][0] == plan[n];
    assert plan[..n + 1] == plan[..n] + [plan[n]];
    OpsAppend(plan[..n], [plan[n]]);
  }

  // ---------------------------------------------------------------------------
  // Resolving all of a host's entries
  // ---------------------------------------------------------------------------

  /** The in-order concatenation of every entry's resolution, or the first error. */
  function ResolveAll(files: seq<UploadFile>, stat: string -> StatResult, glob: string -> GlobResult)
    : Result<seq<UploadFile>, Error>
  {
    if files == [] then Ok([])
    else match ResolveAll(files[..|files| - 1], stat, glob)
      case Err(e) => Err(e)
      case Ok(rs) =>
        match Resolved(files[|files| - 1], stat, glob)
        case Err(e) => Err(e)
        case Ok(fs) => Ok(rs + fs)
  }

  /** Once a prefix of the entries fails to resolve, so do all of them, with that error. */
  lemma {:induction false} ResolveAllPrefixErr(files: seq<UploadFile>, k: nat,
                                               stat: string -> StatResult, glob: string -> GlobResult)
    requires k <= |files| && ResolveAll(files[..k], stat, glob).Err?
    ensures ResolveAll(files, stat, glob) == ResolveAll(files[..k], stat, glob)
    decreases |files|
  {
    if k < |files| {
      var init := files[..|files| - 1];
      assert init[..k] == files[..k];
      ResolveAllPrefixErr(init, k, stat, glob);
    } else {
      assert files[..k] == files;
    }
  }

  /** All entries resolve iff each does; otherwise the error is that of the first entry
      that does not. */
  lemma {:induction false} ResolveAllFirstError(files: seq<UploadFile>,
                                                stat: string -> StatResult, glob: string -> GlobResult)
    ensures ResolveAll(files, stat, glob).Ok? <==>
      forall i :: 0 <= i < |files| ==> Resolved(files[i], stat, glob).Ok?
    ensures ResolveAll(files, stat, glob).Err? ==>
      exists i :: 0 <= i < |files| && Resolved(files[i], stat, glob) == Err(ResolveAll(files, stat, glob).error) &&
                  (forall j :: 0 <= j < i ==> Resolved(files[j], stat, glob).Ok?)
  {
    ResolveAllEach(files, stat, glob);
    if ResolveAll(files, stat, glob).Err? {
      var i := FirstUnresolved(files, stat, glob);
    }
  }

  lemma {:induction false} ResolveAllEach(files: seq<UploadFile>,
                                          stat: string -> StatResult, glob: string -> GlobResult)
    ensures ResolveAll(files, stat, glob).Ok? <==>
      forall i :: 0 <= i < |files| ==> Resolved(files[i], stat, glob).Ok?
    decreases |files|
  {
    if files != [] {
      var init, e := files[..|files| - 1], files[|files| - 1];
      ResolveAllEach(init, stat, glob);
      assert ResolveAll(files, stat, glob).Ok? <==>
        ResolveAll(init, stat, glob).Ok? && Resolved(e, stat, glob).Ok?;
      assert forall i :: 0 <= i < |init| ==> init[i] == files[i];
    }
  }

  lemma {:induction false} FirstUnresolved(files: seq<UploadFile>,
                                           stat: string -> StatResult, glob: string -> GlobResult)
    returns (i: nat)
    requires ResolveAll(files, stat, glob).Err?
    ensures i < |files| && Resolved(files[i], stat, glob) == Err(ResolveAll(files, stat, glob).error)
    ensures forall j :: 0 <= j < i ==> Resolved(files[j], stat, glob).Ok?
    decreases |files|
  {
    var init := files[..|files| - 1];
    if ResolveAll(init, stat, glob).Err? {
      i := FirstUnresolved(init, stat, glob);
      assert init[i] == files[i];
      assert forall j :: 0 <= j < i ==> init[j] == files[j];
    } else {
      i := |files| - 1;
      ResolveAllEach(init, stat, glob);
      assert forall j :: 0 <= j < i ==> init[j] == files[j];
    }
  }

  /** Resolving two runs of entries one after the other: the whole resolves iff both
      parts do, and then its list is the first part's followed by the second's. */
  lemma {:induction false} ResolveAllAppend(a: seq<UploadFile>, b: seq<UploadFile>,
                                            stat: string -> StatResult, glob: string -> GlobResult)
    ensures ResolveAll(a + b, stat, glob).Ok? <==>
      ResolveAll(a, stat, glob).Ok? && ResolveAll(b, stat, glob).Ok?
    ensures ResolveAll(a + b, stat, glob).Ok? ==>
      ResolveAll(a + b, stat, glob).value == ResolveAll(a, stat, glob).value + ResolveAll(b, stat, glob).value
    decreases |b|
  {
    if b == [] {
      assert a + b == a;
    } else {
      var b', e := b[..|b| - 1], b[|b| - 1];
      assert (a + b)[..|a + b| - 1] == a + b' && (a + b)[|a + b| - 1] == e;
      ResolveAllAppend(a, b', stat, glob);
      if ResolveAll(a + b, stat, glob).Ok? {
        var x, y, z := ResolveAll(a, stat, glob).value, ResolveAll(b', stat, glob).value, Resolved(e, stat, glob).value;
        ConcatAssoc(x, y, z);
      }
    }
  }

  /** Splitting the entries at any index: the whole resolves iff the part before and
      the part after do, and the result is their lists in order. A single entry resolves
      as the entry itself does. */
  lemma ResolveAllSplit(files: seq<UploadFile>, k: nat, stat: string -> StatResult, glob: string -> GlobResult)
    requires k <= |files|
    ensures ResolveAll(files, stat, glob).Ok? <==>
      ResolveAll(files[..k], stat, glob).Ok? && ResolveAll(files[k..], stat, glob).Ok?
    ensures ResolveAll(files, stat, glob).Ok? ==>
      ResolveAll(files, stat, glob).value ==
        ResolveAll(files[..k], stat, glob).value + ResolveAll(files[k..], stat, glob).value
    ensures |files| == 1 ==> ResolveAll(files, stat, glob) == Resolved(files[0], stat, glob)
  {
    assert files[..k] + files[k..] == files;
    ResolveAllAppend(files[..k], files[k..], stat, glob);
    if |files| == 1 {
      assert files[..0] == [];
      if Resolved(files[0], stat, glob).Ok? {
        assert [] + Resolved(files[0], stat, glob).value == Resolved(files[0], stat, glob).value;
      }
    }
  }

  // ---------------------------------------------------------------------------
  // The directory map
  // ---------------------------------------------------------------------------

  function DestDir(e: UploadFile): string
    requires Destination(e).Ok?
  {
    Destination(e).value.0
  }

  /** Each resolved entry's destination directory mapped to its PermString, written in
      order so that the last entry for a directory wins; or the first Destination error. */
  function DirPerms(rs: seq<UploadFile>): (r: Result<map<string, string>, Error>)
    ensures r.Ok? ==> forall k :: 0 <= k < |rs| ==> Destination(rs[k]).Ok?
  {
    if rs == [] then Ok(map[])
    else match DirPerms(rs[..|rs| - 1])
      case Err(e) => Err(e)
      case Ok(m) =>
        match Destination(rs[|rs| - 1])
        case Err(e) => Err(e)
        case Ok(dd) => Ok(m[dd.0 := rs[|rs| - 1].permString])
  }

  lemma {:induction false} DirPermsPrefixErr(rs: seq<UploadFile>, k: nat)
    requires k <= |rs| && DirPerms(rs[..k]).Err?
    ensures DirPerms(rs) == DirPerms(rs[..k])
    decreases |rs|
  {
    if k < |rs| {
      var init := rs[..|rs| - 1];
      assert init[..k] == rs[..k];
      DirPermsPrefixErr(init, k);
    } else {
      assert rs[..k] == rs;
    }
  }

  /** The map is built iff every entry has a destination; otherwise the error is the
      Destination error of the first entry without one. */
  lemma {:induction false} DirPermsFirstError(rs: seq<UploadFile>)
    ensures DirPerms(rs).Ok? <==> forall i :: 0 <= i < |rs| ==> Destination(rs[i]).Ok?
    ensures DirPerms(rs).Err? ==>
      exists i :: 0 <= i < |rs| && Destination(rs[i]) == Err(DirPerms(rs).error) &&
                  (forall j :: 0 <= j < i ==> Destination(rs[j]).Ok?)
    decreases |rs|
  {
    if rs != [] {
      var init := rs[..|rs| - 1];
      DirPermsFirstError(init);
      assert forall i :: 0 <= i < |init| ==> init[i] == rs[i];
    }
  }

  /** The map's keys are exactly the entries' destination directories. */
  lemma DirPermsKeys(rs: seq<UploadFile>)
    requires forall k :: 0 <= k < |rs| ==> Destination(rs[k]).Ok?
    ensures DirPerms(rs).Ok?
    ensures forall d :: d in DirPerms(rs).value <==> d in DestDirs(rs)
  {
    DirPermsAsMap(rs);
    WriterMapKeys(DestDirs(rs), PermStrings(rs));
  }

  /** A directory maps to the PermString of the last entry going to it. */
  lemma DirPermsLastWriter(rs: seq<UploadFile>)
    requires forall k :: 0 <= k < |rs| ==> Destination(rs[k]).Ok?
    ensures DirPerms(rs).Ok?
    ensures var ds := DestDirs(rs);
      forall k :: 0 <= k < |rs| && (forall j :: k < j < |rs| ==> ds[j] != ds[k]) ==>
        ds[k] in DirPerms(rs).value && DirPerms(rs).value[ds[k]] == rs[k].permString
  {
    DirPermsAsMap(rs);
    WriterMapLast(DestDirs(rs), PermStrings(rs));
  }

  /** The entries' destination directories, in order. */
  function DestDirs(rs: seq<UploadFile>): (ds: seq<string>)
    requires forall k :: 0 <= k < |rs| ==> Destination(rs[k]).Ok?
    ensures |ds| == |rs| && forall k :: 0 <= k < |rs| ==> ds[k] == DestDir(rs[k])
  {
    seq(|rs|, k requires 0 <= k < |rs| && Destination(rs[k]).Ok? => DestDir(rs[k]))
  }

  /** The entries' PermStrings, in order. */
  function PermStrings(rs: seq<UploadFile>): (ps: seq<string>)
    ensures |ps| == |rs| && forall k :: 0 <= k < |rs| ==> ps[k] == rs[k].permString
  {
    seq(|rs|, k requires 0 <= k < |rs| => rs[k].permString)
  }

  /** Writing ps[k] under ds[k] for each k in order. */
  function WriterMap(ds: seq<string>, ps: seq<string>): map<string, string>
    requires |ds| == |ps|
  {
    if ds == [] then map[] else WriterMap(ds[..|ds| - 1], ps[..|ps| - 1])[ds[|ds| - 1] := ps[|ps| - 1]]
  }

  /** When every entry has a destination, the map is the one written from the entries'
      directories and PermStrings. */
  lemma {:induction false} DirPermsAsMap(rs: seq<UploadFile>)
    requires forall k :: 0 <= k < |rs| ==> Destination(rs[k]).Ok?
    ensures DirPerms(rs) == Ok(WriterMap(DestDirs(rs), PermStrings(rs)))
    decreases |rs|
  {
    if rs != [] {
      var n := |rs| - 1;
      var init := rs[..n];
      DirPermsAsMap(init);
      assert DestDirs(rs)[..n] == DestDirs(init);
      assert PermStrings(rs)[..n] == PermStrings(init);
    }
  }

  lemma {:induction false} WriterMapKeys(ds: seq<string>, ps: seq<string>)
    requires |ds| == |ps|
    ensures forall d :: d in WriterMap(ds, ps) <==> d in ds
    decreases |ds|
  {
    if ds != [] {
      var n := |ds| - 1;
      WriterMapKeys(ds[..n], ps[..n]);
      assert ds == ds[..n] + [ds[n]];
    }
  }

  lemma {:induction false} WriterMapLast(ds: seq<string>, ps: seq<string>)
    requires |ds| == |ps|
    ensures forall k :: 0 <= k < |ds| && (forall j :: k < j < |ds| ==> ds[j] != ds[k]) ==>
      ds[k] in WriterMap(ds, ps) && WriterMap(ds, ps)[ds[k]] == ps[k]
    decreases |ds|
  {
    if ds != [] {
      var n := |ds| - 1;
      WriterMapLast(ds[..n], ps[..n]);
      forall k | 0 <= k < n && (forall j :: k < j < |ds| ==> ds[j] != ds[k])
        ensures ds[k] in WriterMap(ds, ps) && WriterMap(ds, ps)[ds[k]] == ps[k]
      {
        assert ds[..n][k] == ds[k] && ps[..n][k] == ps[k];
        assert forall j :: k < j < n ==> ds[..n][j] != ds[..n][k];
      }
    }
  }

  /** Each directory in the map has a last entry writing it, whose PermString it holds. */
  lemma LastWriterExists(rs: seq<UploadFile>, d: string)
    requires forall k :: 0 <= k < |rs| ==> Destination(rs[k]).Ok?
    requires DirPerms(rs).Ok? && d in DirPerms(rs).value
    ensures var ds := DestDirs(rs);
      exists k :: 0 <= k < |rs| && ds[k] == d && DirPerms(rs).value[d] == rs[k].permString &&
                  (forall j :: k < j < |rs| ==> ds[j] != d)
  {
    DirPermsAsMap(rs);
    WriterMapHasLast(DestDirs(rs), PermStrings(rs), d);
  }

  /** A key of the written map has a last index writing it, whose value it holds. */
  lemma WriterMapHasLast(ds: seq<string>, ps: seq<string>, d: string)
    requires |ds| == |ps| && d in WriterMap(ds, ps)
    ensures exists k :: 0 <= k < |ds| && ds[k] == d && WriterMap(ds, ps)[d] == ps[k] &&
                        (forall j :: k < j < |ds| ==> ds[j] != d)
  {
    WriterMapKeys(ds, ps);
    WriterMapLast(ds, ps);
    var k :| 0 <= k < |ds| && ds[k] == d;
    while exists j :: k < j < |ds| && ds[j] == d
      invariant 0 <= k < |ds| && ds[k] == d
      decreases |ds| - k
    {
      var j :| k < j < |ds| && ds[j] == d;
      k := j;
    }
  }

  // ---------------------------------------------------------------------------
  // The plan
  // ---------------------------------------------------------------------------

  /** The remote path an entry is written to. */
  function DestPath(e: UploadFile): string
    requires Destination(e).Ok?
  {
    Paths.Join(Destination(e).value.0, Destination(e).value.1)
  }

  /** A file "/tmp/f" sent to the directory "/etc/app" is written to "/etc/app/f". */
  lemma DestPathExample()
    ensures var e := UploadFile("", "/tmp/f", "/etc/app", "", Str("0644"), "0644");
      Destination(e) == Ok(("/etc/app", "f")) && DestPath(e) == "/etc/app/f"
  {
    BaseExample();
    JoinExample();
  }

  lemma BaseExample()
    ensures Paths.Base("/tmp/f") == "f"
  {
    assert "/tmp/f" == "/tmp" + "/" + "f";
    Paths.BaseOfSnoc("/tmp", "f");
  }

  lemma JoinExample()
    ensures Paths.Join("/etc/app", "f") == "/etc/app/f"
  {
    assert Paths.JoinSlash(["etc", "app"]) == "etc/app" by {
      assert ["etc", "app"][1..] == ["app"];
    }
    Paths.JoinPlain("/etc/app", ["etc", "app"], "f");
  }

  /** What the file loop needs of a resolved entry: its source, whether that is a URL,
      the remote path it is written to, and its PermString. */
  datatype Target = Target(source: string, url: bool, dest: string, perm: string)

  function TargetOf(e: UploadFile): Target
    requires Destination(e).Ok?
  {
    Target(e.source, IsURL(e), DestPath(e), e.permString)
  }

  /** Each entry's target, in order. */
  function Targets(rs: seq<UploadFile>): (ts: seq<Target>)
    requires forall k :: 0 <= k < |rs| ==> Destination(rs[k]).Ok?
    ensures |ts| == |rs|
    ensures forall k :: 0 <= k < |rs| ==> ts[k] == TargetOf(rs[k])
  {
    seq(|rs|, k requires 0 <= k < |rs| && Destination(rs[k]).Ok? => TargetOf(rs[k]))
  }

  /** A URL is downloaded by the host; anything else is uploaded from the local source. */
  function TransferStep(t: Target): (s: Step)
    ensures IsTransfer(s.op)
  {
    if t.url then Step(DownloadURL(t.source, t.dest), DownloadFailed(t.source, t.dest))
    else Step(Upload(t.source, t.dest), UploadFailed(t.source, t.dest))
  }

  /** The transfer of one entry and the chmod of what it wrote. */
  function TargetSteps(t: Target): seq<Step>
  {
    [TransferStep(t), Step(Chmod(t.dest, t.perm), ChmodFileFailed(t.dest))]
  }

  function FileSteps(ts: seq<Target>): seq<Step>
  {
    if ts == [] then [] else FileSteps(ts[..|ts| - 1]) + TargetSteps(ts[|ts| - 1])
  }

  /** A directory that does not exist yet is created and then chmod-ed. */
  function DirStepsFor(d: string, perm: string, existing: set<string>): seq<Step>
  {
    if d in existing then []
    else [Step(MkDir(d), MkDirFailed(d)), Step(Chmod(d, perm), ChmodDirFailed(d))]
  }

  function DirSteps(order: seq<string>, perms: map<string, string>, existing: set<string>): seq<Step>
    requires forall d :: d in order ==> d in perms
  {
    if order == [] then []
    else
      var d := order[|order| - 1];
      DirSteps(order[..|order| - 1], perms, existing) + DirStepsFor(d, perms[d], existing)
  }

  predicate Distinct(s: seq<string>)
  {
    forall i, j :: 0 <= i < j < |s| ==> s[i] != s[j]
  }

  /** `order` lists every key exactly once. */
  ghost predicate IsOrdering(order: seq<string>, keys: set<string>)
  {
    Distinct(order) && forall d :: d in order <==> d in keys
  }

  /** Everything the pass asks of the host once resolution and destinations succeeded:
      the directories in `order`, then the entries in order. */
  function Plan(rs: seq<UploadFile>, perms: map<string, string>, order: seq<string>, existing: set<string>)
    : seq<Step>
    requires forall k :: 0 <= k < |rs| ==> Destination(rs[k]).Ok?
    requires forall d :: d in order ==> d in perms
  {
    DirSteps(order, perms, existing) + FileSteps(Targets(rs))
  }

  lemma {:induction false} DirStepsAppend(a: seq<string>, b: seq<string>, perms: map<string, string>,
                                          existing: set<string>)
    requires forall d :: d in a + b ==> d in perms
    ensures DirSteps(a + b, perms, existing) == DirSteps(a, perms, existing) + DirSteps(b, perms, existing)
    decreases |b|
  {
    if b == [] {
      assert a + b == a;
    } else {
      var b' := b[..|b| - 1];
      assert (a + b)[..|a + b| - 1] == a + b';
      DirStepsAppend(a, b', perms, existing);
    }
  }

  lemma {:induction false} FileStepsAppend(a: seq<Target>, b: seq<Target>)
    ensures FileSteps(a + b) == FileSteps(a) + FileSteps(b)
    decreases |b|
  {
    if b == [] {
      assert a + b == a;
    } else {
      var b', e := b[..|b| - 1], b[|b| - 1];
      assert (a + b)[..|a + b| - 1] == a + b' && (a + b)[|a + b| - 1] == e;
      FileStepsAppend(a, b');
      var x, y, z := FileSteps(a), FileSteps(b'), TargetSteps(e);
      assert x + y + z == x + (y + z);
    }
  }

  /** The operations for one directory: none when it exists, else its mkdir and chmod. */
  lemma DirStepsForOps(d: string, perm: string, existing: set<string>)
    ensures Ops(DirStepsFor(d, perm, existing)) ==
      if d in existing then [] else [MkDir(d), Chmod(d, perm)]
    ensures CreatedBy(Ops(DirStepsFor(d, perm, existing))) ==
      if d in existing then {} else {d}
  {
    var ops := Ops(DirStepsFor(d, perm, existing));
    if d !in existing {
      assert ops == [MkDir(d), Chmod(d, perm)];
      assert ops[..|ops| - 1] == [MkDir(d)];
      assert [MkDir(d)][..0] == [];
      assert CreatedBy([MkDir(d)]) == {d};
    }
  }

  /** Unfolding DirSteps one directory at a time, at the level of operations. */
  lemma DirOpsUnfold(order: seq<string>, perms: map<string, string>, existing: set<string>)
    requires order != [] && forall d :: d in order ==> d in perms
    ensures var d := order[|order| - 1];
      Ops(DirSteps(order, perms, existing)) ==
        Ops(DirSteps(order[..|order| - 1], perms, existing)) + Ops(DirStepsFor(d, perms[d], existing))
  {
    var d := order[|order| - 1];
    OpsAppend(DirSteps(order[..|order| - 1], perms, existing), DirStepsFor(d, perms[d], existing));
  }

  /** The directory part of the plan holds only mkdirs and chmods, and every mkdir is of a
      listed directory that did not exist, followed at once by the chmod of that
      directory to its mapped permission. */
  lemma {:induction false} DirStepsMkDirs(order: seq<string>, perms: map<string, string>, existing: set<string>)
    requires forall d :: d in order ==> d in perms
    ensures var ops := Ops(DirSteps(order, perms, existing));
      (forall i :: 0 <= i < |ops| ==> ops[i].MkDir? || ops[i].Chmod?) &&
      (forall i :: 0 <= i < |ops| && ops[i].MkDir? ==>
         i + 1 < |ops| && ops[i].path in order && ops[i].path !in existing &&
         ops[i + 1] == Chmod(ops[i].path, perms[ops[i].path]))
    decreases |order|
  {
    if order != [] {
      var init := order[..|order| - 1];
      var d := order[|order| - 1];
      DirStepsMkDirs(init, perms, existing);
      DirOpsUnfold(order, perms, existing);
      DirStepsForOps(d, perms[d], existing);
      var oa := Ops(DirSteps(init, perms, existing));
      var ob := Ops(DirStepsFor(d, perms[d], existing));
      var ops := oa + ob;
      forall i | 0 <= i < |ops| && ops[i].MkDir?
        ensures i + 1 < |ops| && ops[i].path in order && ops[i].path !in existing &&
                ops[i + 1] == Chmod(ops[i].path, perms[ops[i].path])
      {
        if i < |oa| {
          assert ops[i] == oa[i] && ops[i + 1] == oa[i + 1];
        } else {
          assert ops[i] == ob[i - |oa|];
        }
      }
    }
  }

  /** Every chmod of the directory part comes right after the mkdir of the same path. */
  lemma {:induction false} DirStepsChmods(order: seq<string>, perms: map<string, string>, existing: set<string>)
    requires forall d :: d in order ==> d in perms
    ensures var ops := Ops(DirSteps(order, perms, existing));
      forall i :: 0 <= i < |ops| && ops[i].Chmod? ==> 0 < i && ops[i - 1] == MkDir(ops[i].path)
    decreases |order|
  {
    if order != [] {
      var init := order[..|order| - 1];
      var d := order[|order| - 1];
      DirStepsChmods(init, perms, existing);
      DirOpsUnfold(order, perms, existing);
      DirStepsForOps(d, perms[d], existing);
      var oa := Ops(DirSteps(init, perms, existing));
      var ob := Ops(DirStepsFor(d, perms[d], existing));
      var ops := oa + ob;
      forall i | 0 <= i < |ops| && ops[i].Chmod?
        ensures 0 < i && ops[i - 1] == MkDir(ops[i].path)
      {
        if i < |oa| {
          assert ops[i] == oa[i] && ops[i - 1] == oa[i - 1];
        } else {
          assert ops[i] == ob[i - |oa|];
          assert i - |oa| == 1;
          assert ops[i - 1] == ob[0];
        }
      }
    }
  }

  /** Every listed directory that did not exist is created by the directory part. */
  lemma DirStepsCreatesListed(order: seq<string>, perms: map<string, string>, existing: set<string>)
    requires forall d :: d in order ==> d in perms
    ensures forall d :: d in order && d !in existing ==> MkDir(d) in Ops(DirSteps(order, perms, existing))
  {
    forall d | d in order && d !in existing ensures MkDir(d) in Ops(DirSteps(order, perms, existing)) {
      var i :| 0 <= i < |order| && order[i] == d;
      DirStepsCreatesAt(order, perms, existing, i);
    }
  }

  /** The directory at index `i` of the listing is created when it did not exist. */
  lemma DirStepsCreatesAt(order: seq<string>, perms: map<string, string>, existing: set<string>, i: nat)
    requires forall d :: d in order ==> d in perms
    requires i < |order| && order[i] !in existing
    ensures MkDir(order[i]) in Ops(DirSteps(order, perms, existing))
  {
    DirStepsSplit(order, perms, existing, i);
    var a := DirSteps(order[..i], perms, existing);
    var f := DirStepsFor(order[i], perms[order[i]], existing);
    var b := DirSteps(order[i + 1..], perms, existing);
    OpsAppend(a + f, b);
    OpsAppend(a, f);
    DirStepsForOps(order[i], perms[order[i]], existing);
    assert (Ops(a) + Ops(f) + Ops(b))[|Ops(a)|] == MkDir(order[i]);
  }

  /** A directory is created by the directory part iff it is listed and did not exist. */
  lemma DirStepsCreatesIff(order: seq<string>, perms: map<string, string>, existing: set<string>)
    requires forall d :: d in order ==> d in perms
    ensures forall d :: MkDir(d) in Ops(DirSteps(order, perms, existing)) <==> d in order && d !in existing
  {
    DirStepsMkDirs(order, perms, existing);
    DirStepsCreatesListed(order, perms, existing);
  }

  /** When the listing has no repeats, no directory is created twice. */
  lemma {:induction false} DirStepsOnce(order: seq<string>, perms: map<string, string>, existing: set<string>)
    requires forall d :: d in order ==> d in perms
    requires Distinct(order)
    ensures var ops := Ops(DirSteps(order, perms, existing));
      forall i, j :: 0 <= i < j < |ops| && ops[i].MkDir? ==> ops[j] != ops[i]
    decreases |order|
  {
    if order != [] {
      var init := order[..|order| - 1];
      var d := order[|order| - 1];
      DirStepsOnce(init, perms, existing);
      DirStepsCreatesIff(init, perms, existing);
      DirOpsUnfold(order, perms, existing);
      DirStepsForOps(d, perms[d], existing);
      var oa := Ops(DirSteps(init, perms, existing));
      var ob := Ops(DirStepsFor(d, perms[d], existing));
      var ops := oa + ob;
      assert d !in init;
      forall i, j | 0 <= i < j < |ops| && ops[i].MkDir? ensures ops[j] != ops[i] {
        if j >= |oa| && i < |oa| {
          assert oa[i] in oa;
        }
      }
    }
  }

  /** What the directory part creates are listed directories. */
  lemma {:induction false} DirStepsCreates(order: seq<string>, perms: map<string, string>, existing: set<string>)
    requires forall d :: d in order ==> d in perms
    ensures forall p :: p in CreatedBy(Ops(DirSteps(order, perms, existing))) ==> p in order
    decreases |order|
  {
    if order != [] {
      var init := order[..|order| - 1];
      var d := order[|order| - 1];
      DirStepsCreates(init, perms, existing);
      DirOpsUnfold(order, perms, existing);
      DirStepsForOps(d, perms[d], existing);
      CreatedByAppend(Ops(DirSteps(init, perms, existing)), Ops(DirStepsFor(d, perms[d], existing)));
    }
  }

  /** The file part of the plan: for target k, its transfer at 2k and the chmod of its
      path to its PermString at 2k + 1. */
  lemma {:induction false} FileStepsShape(ts: seq<Target>)
    ensures |FileSteps(ts)| == 2 * |ts|
    ensures forall k :: 0 <= k < |ts| ==>
      FileSteps(ts)[2 * k] == TransferStep(ts[k]) &&
      FileSteps(ts)[2 * k + 1] == Step(Chmod(ts[k].dest, ts[k].perm), ChmodFileFailed(ts[k].dest))
    decreases |ts|
  {
    if ts != [] {
      var init := ts[..|ts| - 1];
      var last := ts[|ts| - 1];
      FileStepsShape(init);
      var fa, fb := FileSteps(init), TargetSteps(last);
      assert FileSteps(ts) == fa + fb;
      forall k | 0 <= k < |ts|
        ensures FileSteps(ts)[2 * k] == TransferStep(ts[k])
        ensures FileSteps(ts)[2 * k + 1] == Step(Chmod(ts[k].dest, ts[k].perm), ChmodFileFailed(ts[k].dest))
      {
        if k < |init| {
          assert ts[k] == init[k];
          assert (fa + fb)[2 * k] == fa[2 * k] && (fa + fb)[2 * k + 1] == fa[2 * k + 1];
        } else {
          assert ts[k] == last;
          assert (fa + fb)[2 * k] == fb[0] && (fa + fb)[2 * k + 1] == fb[1];
        }
      }
    }
  }

  /** The file part holds no mkdir. */
  lemma {:induction false} FileStepsNoMkDir(ts: seq<Target>)
    ensures forall i :: 0 <= i < |Ops(FileSteps(ts))| ==> !Ops(FileSteps(ts))[i].MkDir?
    decreases |ts|
  {
    if ts != [] {
      var init, last := ts[..|ts| - 1], ts[|ts| - 1];
      FileStepsNoMkDir(init);
      var a, b := Ops(FileSteps(init)), Ops(TargetSteps(last));
      OpsAppend(FileSteps(init), TargetSteps(last));
      assert forall j :: 0 <= j < |b| ==> !b[j].MkDir?;
      forall i | 0 <= i < |a + b| ensures !(a + b)[i].MkDir? {
        if i < |a| {
          assert (a + b)[i] == a[i];
        } else {
          assert (a + b)[i] == b[i - |a|];
        }
      }
    }
  }

  /** Directory operations followed by operations without mkdirs: every mkdir is in the
      first part, every transfer in the second. */
  lemma DirsThenFiles(oa: seq<Op>, ob: seq<Op>)
    requires forall i :: 0 <= i < |oa| ==> oa[i].MkDir? || oa[i].Chmod?
    requires forall i :: 0 <= i < |ob| ==> !ob[i].MkDir?
    ensures forall i :: 0 <= i < |oa + ob| && (oa + ob)[i].MkDir? ==> i < |oa|
    ensures forall j :: 0 <= j < |oa + ob| && IsTransfer((oa + ob)[j]) ==> |oa| <= j
    ensures forall d :: MkDir(d) in oa + ob <==> MkDir(d) in oa
  {
    assert forall d :: MkDir(d) !in ob;
  }

  /** The plan's operations are the directory part's, then the file part's. */
  lemma PlanOps(rs: seq<UploadFile>, perms: map<string, string>, order: seq<string>, existing: set<string>)
    requires forall k :: 0 <= k < |rs| ==> Destination(rs[k]).Ok?
    requires forall d :: d in order ==> d in perms
    ensures Ops(Plan(rs, perms, order, existing)) ==
      Ops(DirSteps(order, perms, existing)) + Ops(FileSteps(Targets(rs)))
  {
    OpsAppend(DirSteps(order, perms, existing), FileSteps(Targets(rs)));
  }

  /** Where each target's operations sit: after the n directory operations, the transfer
      of target k is at n + 2k and the chmod of its path to its PermString at n + 2k + 1. */
  lemma PlanTargetLayout(rs: seq<UploadFile>, perms: map<string, string>, order: seq<string>, existing: set<string>)
    requires forall k :: 0 <= k < |rs| ==> Destination(rs[k]).Ok?
    requires forall d :: d in order ==> d in perms
    ensures var ops, n, ts := Ops(Plan(rs, perms, order, existing)), |DirSteps(order, perms, existing)|, Targets(rs);
      |ops| == n + 2 * |rs| &&
      forall k :: 0 <= k < |rs| ==>
        ops[n + 2 * k] == TransferStep(ts[k]).op && ops[n + 2 * k + 1] == Chmod(ts[k].dest, ts[k].perm)
  {
    PlanOps(rs, perms, order, existing);
    TargetsLayout(Ops(DirSteps(order, perms, existing)), Targets(rs));
  }

  /** Where each entry's operations sit: after the n directory operations, entry k is
      downloaded (a URL) or uploaded (anything else) to its joined destination at n + 2k,
      and that path is chmod-ed to the entry's PermString at n + 2k + 1. */
  lemma PlanLayout(rs: seq<UploadFile>, perms: map<string, string>, order: seq<string>, existing: set<string>)
    requires forall k :: 0 <= k < |rs| ==> Destination(rs[k]).Ok?
    requires forall d :: d in order ==> d in perms
    ensures var ops, n := Ops(Plan(rs, perms, order, existing)), |DirSteps(order, perms, existing)|;
      |ops| == n + 2 * |rs| &&
      forall k :: 0 <= k < |rs| ==>
        ops[n + 2 * k] == (if IsURL(rs[k]) then DownloadURL(rs[k].source, DestPath(rs[k]))
                           else Upload(rs[k].source, DestPath(rs[k]))) &&
        ops[n + 2 * k + 1] == Chmod(DestPath(rs[k]), rs[k].permString)
  {
    PlanTargetLayout(rs, perms, order, existing);
    EntriesLayout(Ops(Plan(rs, perms, order, existing)), |DirSteps(order, perms, existing)|, rs, Targets(rs));
  }

  /** Operations laid out per target are laid out per entry, since each target is its
      entry's. */
  lemma EntriesLayout(ops: seq<Op>, n: nat, rs: seq<UploadFile>, ts: seq<Target>)
    requires forall k :: 0 <= k < |rs| ==> Destination(rs[k]).Ok?
    requires |ts| == |rs| && forall k :: 0 <= k < |rs| ==> ts[k] == TargetOf(rs[k])
    requires |ops| == n + 2 * |rs|
    requires forall k :: 0 <= k < |rs| ==>
      ops[n + 2 * k] == TransferStep(ts[k]).op && ops[n + 2 * k + 1] == Chmod(ts[k].dest, ts[k].perm)
    ensures forall k :: 0 <= k < |rs| ==>
      ops[n + 2 * k] == (if IsURL(rs[k]) then DownloadURL(rs[k].source, DestPath(rs[k]))
                         else Upload(rs[k].source, DestPath(rs[k]))) &&
      ops[n + 2 * k + 1] == Chmod(DestPath(rs[k]), rs[k].permString)
  {
    forall k | 0 <= k < |rs|
      ensures ops[n + 2 * k] == (if IsURL(rs[k]) then DownloadURL(rs[k].source, DestPath(rs[k]))
                                 else Upload(rs[k].source, DestPath(rs[k])))
      ensures ops[n + 2 * k + 1] == Chmod(DestPath(rs[k]), rs[k].permString)
    {
      assert ts[k].dest == DestPath(rs[k]) && ts[k].perm == rs[k].permString;
    }
  }

  /** Operations followed by the file part for targets `ts`: target k's transfer sits at
      |oa| + 2k and the chmod of its path at |oa| + 2k + 1. */
  lemma TargetsLayout(oa: seq<Op>, ts: seq<Target>)
    ensures var ops := oa + Ops(FileSteps(ts));
      |ops| == |oa| + 2 * |ts| &&
      forall k :: 0 <= k < |ts| ==>
        ops[|oa| + 2 * k] == TransferStep(ts[k]).op && ops[|oa| + 2 * k + 1] == Chmod(ts[k].dest, ts[k].perm)
  {
    FileStepsShape(ts);
    var ob := Ops(FileSteps(ts));
    forall k | 0 <= k < |ts|
      ensures (oa + ob)[|oa| + 2 * k] == TransferStep(ts[k]).op
      ensures (oa + ob)[|oa| + 2 * k + 1] == Chmod(ts[k].dest, ts[k].perm)
    {
      assert (oa + ob)[|oa| + 2 * k] == ob[2 * k];
      assert (oa + ob)[|oa| + 2 * k + 1] == ob[2 * k + 1];
    }
  }

  /** Directories come first: each mkdir is of a listed directory that did not exist and
      is followed at once by the chmod of that directory to its mapped permission, and
      both come before every transfer. */
  lemma PlanDirsFirst(rs: seq<UploadFile>, perms: map<string, string>, order: seq<string>, existing: set<string>)
    requires forall k :: 0 <= k < |rs| ==> Destination(rs[k]).Ok?
    requires forall d :: d in order ==> d in perms
    ensures var ops := Ops(Plan(rs, perms, order, existing));
      (forall i :: 0 <= i < |ops| && ops[i].MkDir? ==>
         i + 1 < |ops| && ops[i].path in order && ops[i].path !in existing &&
         ops[i + 1] == Chmod(ops[i].path, perms[ops[i].path])) &&
      (forall i, j :: 0 <= i < |ops| && 0 <= j < |ops| && ops[i].MkDir? && IsTransfer(ops[j]) ==> i + 1 < j)
  {
    PlanOps(rs, perms, order, existing);
    DirStepsMkDirs(order, perms, existing);
    FileStepsNoMkDir(Targets(rs));
    var oa, ob := Ops(DirSteps(order, perms, existing)), Ops(FileSteps(Targets(rs)));
    DirsThenFiles(oa, ob);
  }

  /** Appending operations without mkdirs creates no directory twice if the first part
      did not. */
  lemma OnceThenFiles(oa: seq<Op>, ob: seq<Op>)
    requires forall i, j :: 0 <= i < j < |oa| && oa[i].MkDir? ==> oa[j] != oa[i]
    requires forall i :: 0 <= i < |ob| ==> !ob[i].MkDir?
    ensures var ops := oa + ob;
      forall i, j :: 0 <= i < j < |ops| && ops[i].MkDir? ==> ops[j] != ops[i]
  {
  }

  /** A directory is created iff some entry goes to it and it did not exist. */
  lemma PlanCreates(rs: seq<UploadFile>, order: seq<string>, existing: set<string>)
    requires forall k :: 0 <= k < |rs| ==> Destination(rs[k]).Ok?
    requires DirPerms(rs).Ok? && IsOrdering(order, DirPerms(rs).value.Keys)
    ensures forall d :: MkDir(d) in Ops(Plan(rs, DirPerms(rs).value, order, existing)) <==>
      d in DestDirs(rs) && d !in existing
  {
    var perms := DirPerms(rs).value;
    PlanOps(rs, perms, order, existing);
    DirPermsKeys(rs);
    DirStepsCreatesIff(order, perms, existing);
    DirStepsMkDirs(order, perms, existing);
    FileStepsNoMkDir(Targets(rs));
    DirsThenFiles(Ops(DirSteps(order, perms, existing)), Ops(FileSteps(Targets(rs))));
  }

  /** No directory is created twice. */
  lemma PlanCreatesOnce(rs: seq<UploadFile>, order: seq<string>, existing: set<string>)
    requires forall k :: 0 <= k < |rs| ==> Destination(rs[k]).Ok?
    requires DirPerms(rs).Ok? && IsOrdering(order, DirPerms(rs).value.Keys)
    ensures var ops := Ops(Plan(rs, DirPerms(rs).value, order, existing));
      forall i, j :: 0 <= i < j < |ops| && ops[i].MkDir? ==> ops[j] != ops[i]
  {
    var perms := DirPerms(rs).value;
    PlanOps(rs, perms, order, existing);
    DirStepsOnce(order, perms, existing);
    FileStepsNoMkDir(Targets(rs));
    OnceThenFiles(Ops(DirSteps(order, perms, existing)), Ops(FileSteps(Targets(rs))));
  }

  /** Directory chmods: in the directory part of the plan, every chmod follows the mkdir
      of its directory, so a directory that already existed is never chmod-ed, and no
      directory is chmod-ed twice. */
  lemma PlanDirChmods(rs: seq<UploadFile>, order: seq<string>, existing: set<string>)
    requires forall k :: 0 <= k < |rs| ==> Destination(rs[k]).Ok?
    requires DirPerms(rs).Ok? && IsOrdering(order, DirPerms(rs).value.Keys)
    ensures var ops, n := Ops(Plan(rs, DirPerms(rs).value, order, existing)),
                          |DirSteps(order, DirPerms(rs).value, existing)|;
      n <= |ops| &&
      (forall i :: 0 <= i < n && ops[i].Chmod? ==>
         0 < i && ops[i - 1] == MkDir(ops[i].path) && ops[i].path !in existing) &&
      (forall i, j :: 0 <= i < j < n && ops[i].Chmod? && ops[j].Chmod? ==> ops[i].path != ops[j].path)
  {
    var perms := DirPerms(rs).value;
    var oa, ob := Ops(DirSteps(order, perms, existing)), Ops(FileSteps(Targets(rs)));
    PlanOps(rs, perms, order, existing);
    DirStepsChmods(order, perms, existing);
    DirStepsMkDirs(order, perms, existing);
    DirStepsOnce(order, perms, existing);
    var ops := oa + ob;
    forall i | 0 <= i < |oa| && ops[i].Chmod?
      ensures 0 < i && ops[i - 1] == MkDir(ops[i].path) && ops[i].path !in existing
    {
      assert ops[i] == oa[i] && ops[i - 1] == oa[i - 1];
    }
    forall i, j | 0 <= i < j < |oa| && ops[i].Chmod? && ops[j].Chmod?
      ensures ops[i].path != ops[j].path
    {
      assert ops[i] == oa[i] && ops[j] == oa[j];
      assert oa[i - 1].MkDir? && oa[j - 1].MkDir?;
      assert oa[j - 1] != oa[i - 1];
    }
  }

  /** The chmod that follows a mkdir sets the PermString of the last entry going to that
      directory. */
  lemma PlanDirPerm(rs: seq<UploadFile>, order: seq<string>, existing: set<string>)
    requires forall k :: 0 <= k < |rs| ==> Destination(rs[k]).Ok?
    requires DirPerms(rs).Ok? && IsOrdering(order, DirPerms(rs).value.Keys)
    ensures var ops, ds, ps := Ops(Plan(rs, DirPerms(rs).value, order, existing)), DestDirs(rs), PermStrings(rs);
      forall i :: 0 <= i < |ops| && ops[i].MkDir? ==>
        i + 1 < |ops| &&
        exists k :: 0 <= k < |ds| && ds[k] == ops[i].path && (forall j :: k < j < |ds| ==> ds[j] != ops[i].path) &&
                    ops[i + 1] == Chmod(ops[i].path, ps[k])
  {
    var perms := DirPerms(rs).value;
    var ops := Ops(Plan(rs, perms, order, existing));
    DirPermsLastWriters(rs);
    PlanMkDirChmod(rs, perms, order, existing, ops);
    ChmodOfLastWriter(ops, DestDirs(rs), PermStrings(rs), perms, order);
  }

  /** Every directory in the map holds the PermString of its last writer. */
  lemma DirPermsLastWriters(rs: seq<UploadFile>)
    requires forall k :: 0 <= k < |rs| ==> Destination(rs[k]).Ok?
    ensures DirPerms(rs).Ok?
    ensures var perms, ds, ps := DirPerms(rs).value, DestDirs(rs), PermStrings(rs);
      forall d :: d in perms ==>
        exists k :: 0 <= k < |ds| && ds[k] == d && perms[d] == ps[k] && (forall j :: k < j < |ds| ==> ds[j] != d)
  {
    var ds, ps := DestDirs(rs), PermStrings(rs);
    DirPermsAsMap(rs);
    forall d | d in WriterMap(ds, ps)
      ensures exists k :: 0 <= k < |ds| && ds[k] == d && WriterMap(ds, ps)[d] == ps[k] && (forall j :: k < j < |ds| ==> ds[j] != d)
    {
      WriterMapHasLast(ds, ps, d);
    }
  }

  /** In the whole plan, each mkdir is of a listed directory and is followed at once by
      its chmod to the mapped permission. */
  lemma PlanMkDirChmod(rs: seq<UploadFile>, perms: map<string, string>, order: seq<string>, existing: set<string>,
                       ops: seq<Op>)
    requires forall k :: 0 <= k < |rs| ==> Destination(rs[k]).Ok?
    requires forall d :: d in order ==> d in perms
    requires ops == Ops(Plan(rs, perms, order, existing))
    ensures forall i :: 0 <= i < |ops| && ops[i].MkDir? ==>
      i + 1 < |ops| && ops[i].path in order && ops[i + 1] == Chmod(ops[i].path, perms[ops[i].path])
  {
    var oa, ob := Ops(DirSteps(order, perms, existing)), Ops(FileSteps(Targets(rs)));
    PlanOps(rs, perms, order, existing);
    DirStepsMkDirs(order, perms, existing);
    FileStepsNoMkDir(Targets(rs));
    MkDirChmodThenFiles(oa, ob, order, perms);
  }

  /** Appending operations without mkdirs keeps "each mkdir is of a listed directory and is
      followed at once by its chmod". */
  lemma MkDirChmodThenFiles(oa: seq<Op>, ob: seq<Op>, order: seq<string>, perms: map<string, string>)
    requires forall d :: d in order ==> d in perms
    requires forall i :: 0 <= i < |oa| && oa[i].MkDir? ==>
      i + 1 < |oa| && oa[i].path in order && oa[i + 1] == Chmod(oa[i].path, perms[oa[i].path])
    requires forall i :: 0 <= i < |ob| ==> !ob[i].MkDir?
    ensures forall i :: 0 <= i < |oa + ob| && (oa + ob)[i].MkDir? ==>
      i + 1 < |oa + ob| && (oa + ob)[i].path in order &&
      (oa + ob)[i + 1] == Chmod((oa + ob)[i].path, perms[(oa + ob)[i].path])
  {
    forall i | 0 <= i < |oa + ob| && (oa + ob)[i].MkDir?
      ensures i + 1 < |oa + ob| && (oa + ob)[i].path in order &&
              (oa + ob)[i + 1] == Chmod((oa + ob)[i].path, perms[(oa + ob)[i].path])
    {
      if i < |oa| {
        assert (oa + ob)[i] == oa[i];
      }
    }
  }

  /** Combines "a mkdir is followed by the chmod to the directory's mapped permission" with
      "a directory maps to the value of its last writer". */
  lemma ChmodOfLastWriter(ops: seq<Op>, ds: seq<string>, ps: seq<string>, perms: map<string, string>,
                          order: seq<string>)
    requires |ds| == |ps|
    requires forall d :: d in order ==> d in perms
    requires forall i :: 0 <= i < |ops| && ops[i].MkDir? ==>
      i + 1 < |ops| && ops[i].path in order && ops[i + 1] == Chmod(ops[i].path, perms[ops[i].path])
    requires forall d :: d in perms ==>
      exists k :: 0 <= k < |ds| && ds[k] == d && perms[d] == ps[k] && (forall j :: k < j < |ds| ==> ds[j] != d)
    ensures forall i :: 0 <= i < |ops| && ops[i].MkDir? ==>
      i + 1 < |ops| &&
      exists k :: 0 <= k < |ds| && ds[k] == ops[i].path && (forall j :: k < j < |ds| ==> ds[j] != ops[i].path) &&
                  ops[i + 1] == Chmod(ops[i].path, ps[k])
  {
    forall i | 0 <= i < |ops| && ops[i].MkDir?
      ensures i + 1 < |ops| &&
        exists k :: 0 <= k < |ds| && ds[k] == ops[i].path && (forall j :: k < j < |ds| ==> ds[j] != ops[i].path) &&
                    ops[i + 1] == Chmod(ops[i].path, ps[k])
    {
      var d := ops[i].path;
      var k :| 0 <= k < |ds| && ds[k] == d && perms[d] == ps[k] && (forall j :: k < j < |ds| ==> ds[j] != d);
    }
  }

  /** The directory steps for one more directory. */
  lemma DirStepsNext(order: seq<string>, perms: map<string, string>, existing: set<string>, i: nat)
    requires i < |order| && forall d :: d in order ==> d in perms
    ensures DirSteps(order[..i + 1], perms, existing) ==
      DirSteps(order[..i], perms, existing) + DirStepsFor(order[i], perms[order[i]], existing)
  {
    assert order[..i + 1][..i] == order[..i];
  }

  /** The file steps for one more entry. */
  lemma FileStepsNext(ts: seq<Target>, i: nat)
    requires i < |ts|
    ensures FileSteps(ts[..i + 1]) == FileSteps(ts[..i]) + TargetSteps(ts[i])
  {
    assert ts[..i + 1][..i] == ts[..i];
  }

  /** One more directory handled: either the loop goes on with a longer prefix, or the
      refusal stands for the whole listing. */
  lemma DirTurn(fails: FailureOracle, hist0: seq<Op>, ex0: set<string>, order: seq<string>,
                perms: map<string, string>, i: nat, hist: seq<Op>, ex: set<string>,
                trace: seq<Op>, existing: set<string>, err: Option<UploadError>)
    requires i < |order| && forall d :: d in order ==> d in perms
    requires Reached(fails, hist0, ex0, DirSteps(order[..i], perms, ex0), hist, ex, None)
    requires Reached(fails, hist, ex, DirStepsFor(order[i], perms[order[i]], ex0), trace, existing, err)
    ensures err.None? ==> Reached(fails, hist0, ex0, DirSteps(order[..i + 1], perms, ex0), trace, existing, err)
    ensures err.Some? ==> Reached(fails, hist0, ex0, DirSteps(order, perms, ex0), trace, existing, err)
  {
    DirStepsSplit(order, perms, ex0, i);
    ReachedTurn(fails, hist0, ex0, DirSteps(order[..i], perms, ex0), DirStepsFor(order[i], perms[order[i]], ex0),
                DirSteps(order[i + 1..], perms, ex0), hist, ex, trace, existing, err);
  }

  /** One more entry transferred: either the loop goes on with a longer prefix, or the
      refusal stands for all entries. */
  lemma FileTurn(fails: FailureOracle, hist0: seq<Op>, ex0: set<string>, ts: seq<Target>, i: nat,
                 hist: seq<Op>, ex: set<string>, trace: seq<Op>, existing: set<string>,
                 err: Option<UploadError>)
    requires i < |ts|
    requires Reached(fails, hist0, ex0, FileSteps(ts[..i]), hist, ex, None)
    requires Reached(fails, hist, ex, TargetSteps(ts[i]), trace, existing, err)
    ensures err.None? ==> Reached(fails, hist0, ex0, FileSteps(ts[..i + 1]), trace, existing, err)
    ensures err.Some? ==> Reached(fails, hist0, ex0, FileSteps(ts), trace, existing, err)
  {
    FileStepsSplit(ts, i);
    ReachedTurn(fails, hist0, ex0, FileSteps(ts[..i]), TargetSteps(ts[i]), FileSteps(ts[i + 1..]),
                hist, ex, trace, existing, err);
  }

  /** A turn of a loop that issues `step` after `done`: when it goes through, the run
      has reached the end of `done + step`; when it is refused, nothing of `rest` runs. */
  lemma ReachedTurn(fails: FailureOracle, hist0: seq<Op>, ex0: set<string>, done: seq<Step>, step: seq<Step>,
                    rest: seq<Step>, hist: seq<Op>, ex: set<string>, trace: seq<Op>, existing: set<string>,
                    err: Option<UploadError>)
    requires Reached(fails, hist0, ex0, done, hist, ex, None)
    requires Reached(fails, hist, ex, step, trace, existing, err)
    ensures err.None? ==> Reached(fails, hist0, ex0, done + step, trace, existing, err)
    ensures err.Some? ==> Reached(fails, hist0, ex0, done + step + rest, trace, existing, err)
  {
    ReachedConcat(fails, hist0, ex0, done, step, hist, ex, trace, existing, err);
    if err.Some? {
      ReachedRefused(fails, hist0, ex0, done + step, rest, trace, existing, err);
    }
  }

  /** The file steps split around target `i`. */
  lemma FileStepsSplit(ts: seq<Target>, i: nat)
    requires i < |ts|
    ensures FileSteps(ts[..i + 1]) == FileSteps(ts[..i]) + TargetSteps(ts[i])
    ensures FileSteps(ts) == FileSteps(ts[..i]) + TargetSteps(ts[i]) + FileSteps(ts[i + 1..])
  {
    FileStepsNext(ts, i);
    SplitAt(ts, i + 1);
    FileStepsAppend(ts[..i + 1], ts[i + 1..]);
  }

  lemma SplitAt<T>(s: seq<T>, n: nat)
    requires n <= |s|
    ensures s[..n] + s[n..] == s
  {
  }

  lemma ConcatAssoc<T>(x: seq<T>, y: seq<T>, z: seq<T>)
    ensures x + y + z == x + (y + z)
  {
  }

  /** The directory steps split around directory `i`. */
  lemma DirStepsSplit(order: seq<string>, perms: map<string, string>, existing: set<string>, i: nat)
    requires i < |order| && forall d :: d in order ==> d in perms
    ensures DirSteps(order[..i + 1], perms, existing) ==
      DirSteps(order[..i], perms, existing) + DirStepsFor(order[i], perms[order[i]], existing)
    ensures DirSteps(order, perms, existing) ==
      DirSteps(order[..i], perms, existing) + DirStepsFor(order[i], perms[order[i]], existing) +
      DirSteps(order[i + 1..], perms, existing)
  {
    DirStepsNext(order, perms, existing, i);
    SplitAt(order, i + 1);
    DirStepsAppend(order[..i + 1], order[i + 1..], perms, existing);
  }
}
