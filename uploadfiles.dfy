/** The upload-files phase (phase/uploadfiles.go): a host with its remote file system
    and the record of what it was asked to do, and the phase object that picks the hosts
    with files and runs the upload pass on one host. */
module Phase {
  import opened Wrappers
  import Paths
  import opened Cluster
  import opened PhasePlan

  /** A host as the upload pass sees it: its declared files, which remote paths exist,
      every operation it has been asked to carry out, and which of them it refuses. */
  class Host {
    const name: string
    const files: seq<UploadFile>
    /** Whether the host refuses an operation, given the operations asked of it before. */
    const fails: FailureOracle
    var existing: set<string>
    var trace: seq<Op>

    constructor(name: string, files: seq<UploadFile>, fails: FailureOracle, existing: set<string>)
      ensures this.name == name && this.files == files && this.fails == fails
      ensures this.existing == existing && this.trace == []
    {
      this.name := name;
      this.files := files;
      this.fails := fails;
      this.existing := existing;
      this.trace := [];
    }

    /** Configurer.FileExist */
    predicate FileExist(p: string)
      reads this
    {
      p in existing
    }

    /** Asks the host to carry out `op` (a mkdir, chmod, upload or download): the request
        is recorded; the host refuses it or carries it out, and what it creates then
        exists. */
    method Perform(op: Op) returns (ok: bool)
      modifies this
      ensures trace == old(trace) + [op]
      ensures ok == !fails(old(trace), op)
      ensures existing == if ok then old(existing) + Creates(op) else old(existing)
    {
      ok := !fails(trace, op);
      trace := trace + [op];
      if ok {
        existing := existing + Creates(op);
      }
    }
  }

  /** Hosts.Filter with "has at least one file", keeping the order of the hosts. */
  function WithFiles(hs: seq<Host>): seq<Host>
  {
    if hs == [] then []
    else (if |hs[0].files| > 0 then [hs[0]] else []) + WithFiles(hs[1..])
  }

  /** The filter keeps exactly the hosts that have files. */
  lemma {:induction false} WithFilesMembers(hs: seq<Host>)
    ensures forall h :: h in WithFiles(hs) <==> h in hs && |h.files| > 0
  {
    if hs != [] {
      WithFilesMembers(hs[1..]);
      assert forall h :: h in hs <==> h == hs[0] || h in hs[1..];
    }
  }

  /** The filter keeps the hosts in their order. */
  lemma {:induction false} WithFilesAppend(a: seq<Host>, b: seq<Host>)
    ensures WithFiles(a + b) == WithFiles(a) + WithFiles(b)
  {
    if a == [] {
      assert a + b == b;
    } else {
      assert (a + b)[0] == a[0];
      assert (a + b)[1..] == a[1..] + b;
      WithFilesAppend(a[1..], b);
    }
  }

  /** The filter leaves some host iff some host has files. */
  lemma WithFilesNonEmpty(hs: seq<Host>)
    ensures |WithFiles(hs)| > 0 <==> exists i :: 0 <= i < |hs| && |hs[i].files| > 0
  {
    WithFilesMembers(hs);
    if exists i :: 0 <= i < |hs| && |hs[i].files| > 0 {
      var i :| 0 <= i < |hs| && |hs[i].files| > 0;
      assert hs[i] in WithFiles(hs);
    }
    if |WithFiles(hs)| > 0 {
      assert WithFiles(hs)[0] in WithFiles(hs);
    }
  }

  /** The order in which `for d := range dirs` visits a Go map is unspecified: some
      listing of its keys, each exactly once. */
  method SomeOrdering(keys: set<string>) returns (order: seq<string>)
    ensures IsOrdering(order, keys) && |order| == |keys|
  {
    order := [];
    var left := keys;
    while left != {}
      invariant left <= keys
      invariant Distinct(order) && |order| + |left| == |keys|
      invariant forall d :: d in order <==> d in keys && d !in left
      decreases left
    {
      var d :| d in left;
      order := order + [d];
      left := left - {d};
    }
  }

  /** The phase object: the cluster's hosts and those that have files to upload. */
  class UploadFilesPhase {
    var config: seq<Host>
    var hosts: seq<Host>

    constructor()
      ensures config == [] && hosts == []
    {
      config := [];
      hosts := [];
    }

    /** Prepare: remembers the cluster's hosts and keeps those with files. */
    method Prepare(cfg: seq<Host>)
      modifies this
      ensures config == cfg && hosts == WithFiles(cfg)
      ensures ShouldRun() <==> exists i :: 0 <= i < |cfg| && |cfg[i].files| > 0
    {
      config := cfg;
      hosts := WithFiles(cfg);
      WithFilesNonEmpty(cfg);
    }

    /** ShouldRun: there is some host with files. */
    predicate ShouldRun()
      reads this
    {
      |hosts| > 0
    }

    /** uploadLocal: the host receives the local source at `dest`. */
    method UploadLocal(h: Host, f: UploadFile, dest: string) returns (err: Option<UploadError>)
      modifies h
      ensures h.trace == old(h.trace) + [Upload(f.source, dest)]
      ensures err == if h.fails(old(h.trace), Upload(f.source, dest)) then Some(UploadFailed(f.source, dest)) else None
      ensures h.existing == if err.None? then old(h.existing) + {dest} else old(h.existing)
    {
      var ok := h.Perform(Upload(f.source, dest));
      err := if ok then None else Some(UploadFailed(f.source, dest));
    }

    /** uploadURL: the host downloads the URL to `dest` itself. */
    method UploadURL(h: Host, f: UploadFile, dest: string) returns (err: Option<UploadError>)
      modifies h
      ensures h.trace == old(h.trace) + [DownloadURL(f.source, dest)]
      ensures err == if h.fails(old(h.trace), DownloadURL(f.source, dest)) then Some(DownloadFailed(f.source, dest)) else None
      ensures h.existing == if err.None? then old(h.existing) + {dest} else old(h.existing)
    {
      var ok := h.Perform(DownloadURL(f.source, dest));
      err := if ok then None else Some(DownloadFailed(f.source, dest));
    }

    /** uploadFiles for one host: resolve every entry, map each destination directory to
        a PermString, create and chmod the missing directories in map order, then
        transfer and chmod every entry, stopping at the first error. A resolution or
        destination error leaves the host untouched; otherwise the host is asked for the
        plan's operations up to and including the first it refuses, and `dirOrder` is the
        order in which the map was visited. A host without files is asked for nothing. */
    method UploadFiles(h: Host, stat: string -> StatResult, glob: string -> GlobResult)
      returns (err: Option<UploadError>, dirOrder: seq<string>)
      modifies h
      ensures ResolveAll(h.files, stat, glob).Err? ==>
        err == Some(EntryFailed(ResolveAll(h.files, stat, glob).error)) &&
        h.trace == old(h.trace) && h.existing == old(h.existing)
      ensures ResolveAll(h.files, stat, glob).Ok? && DirPerms(ResolveAll(h.files, stat, glob).value).Err? ==>
        err == Some(EntryFailed(DirPerms(ResolveAll(h.files, stat, glob).value).error)) &&
        h.trace == old(h.trace) && h.existing == old(h.existing)
      ensures ResolveAll(h.files, stat, glob).Ok? && DirPerms(ResolveAll(h.files, stat, glob).value).Ok? ==>
        var rs := ResolveAll(h.files, stat, glob).value;
        var perms := DirPerms(rs).value;
        IsOrdering(dirOrder, perms.Keys) && |dirOrder| == |perms.Keys| &&
        var o := Run(h.fails, old(h.trace), Plan(rs, perms, dirOrder, old(h.existing)));
        h.trace == old(h.trace) + o.issued && err == o.error &&
        h.existing == old(h.existing) + CreatedBy(Applied(o))
      ensures h.files == [] ==> err == None && h.trace == old(h.trace) && h.existing == old(h.existing)
    {
      dirOrder := [];
      var r := ResolveEntries(h.files, stat, glob);
      if r.Err? {
        return Some(EntryFailed(r.error)), dirOrder;
      }
      var resolved := r.value;
      var m := CollectDirs(resolved);
      if m.Err? {
        return Some(EntryFailed(m.error)), dirOrder;
      }
      var dirs := m.value;
      DirPermsFirstError(resolved);
      dirOrder := SomeOrdering(dirs.Keys);

      ghost var trace0, existing0 := h.trace, h.existing;
      ghost var a, b := DirSteps(dirOrder, dirs, existing0), FileSteps(Targets(resolved));
      err := MakeDirs(h, dirOrder, dirs);
      if err.Some? {
        ReachedRefused(h.fails, trace0, existing0, a, b, h.trace, h.existing, err);
        return;
      }
      ghost var trace1, existing1 := h.trace, h.existing;
      err := TransferFiles(h, resolved);
      ReachedConcat(h.fails, trace0, existing0, a, b, trace1, existing1, h.trace, h.existing, err);
      if h.files == [] {
        assert resolved == [] && dirs == map[] && dirOrder == [];
        assert a == [] && b == [];
      }
    }

    /** The directory loop: each listed directory that does not exist yet is created and
        chmod-ed to its mapped PermString, stopping at the first refusal. */
    method MakeDirs(h: Host, order: seq<string>, dirs: map<string, string>) returns (err: Option<UploadError>)
      requires Distinct(order) && forall d :: d in order ==> d in dirs
      modifies h
      ensures var o := Run(h.fails, old(h.trace), DirSteps(order, dirs, old(h.existing)));
        h.trace == old(h.trace) + o.issued && err == o.error &&
        h.existing == old(h.existing) + CreatedBy(Applied(o))
    {
      ghost var trace0, existing0 := h.trace, h.existing;
      assert order[..0] == [];
      for i := 0 to |order|
        invariant Reached(h.fails, trace0, existing0, DirSteps(order[..i], dirs, existing0), h.trace, h.existing, None)
      {
        var d := order[i];
        ghost var hist, ex := h.trace, h.existing;
        assert DirStepsFor(d, dirs[d], ex) == DirStepsFor(d, dirs[d], existing0) by {
          ghost var done := DirSteps(order[..i], dirs, existing0);
          RunCompletes(h.fails, trace0, done);
          DirStepsCreates(order[..i], dirs, existing0);
          assert d !in order[..i];
        }
        err := EnsureDir(h, d, dirs[d]);
        DirTurn(h.fails, trace0, existing0, order, dirs, i, hist, ex, h.trace, h.existing, err);
        if err.Some? {
          return;
        }
      }
      assert order[..|order|] == order;
      return None;
    }

    /** One turn of the directory loop: nothing when the directory exists, else mkdir
        and chmod, stopping at a refusal. */
    method EnsureDir(h: Host, d: string, perm: string) returns (err: Option<UploadError>)
      modifies h
      ensures var o := Run(h.fails, old(h.trace), DirStepsFor(d, perm, old(h.existing)));
        h.trace == old(h.trace) + o.issued && err == o.error &&
        h.existing == old(h.existing) + CreatedBy(Applied(o))
    {
      if h.FileExist(d) {
        assert DirStepsFor(d, perm, h.existing) == [];
        assert h.trace + [] == h.trace;
        return None;
      }
      ghost var mkdir, chmod := Step(MkDir(d), MkDirFailed(d)), Step(Chmod(d, perm), ChmodDirFailed(d));
      assert DirStepsFor(d, perm, h.existing) == [mkdir, chmod];
      RunTwo(h.fails, h.trace, mkdir, chmod);
      var ok := h.Perform(MkDir(d));
      if !ok {
        return Some(MkDirFailed(d));
      }
      ok := h.Perform(Chmod(d, perm));
      if !ok {
        return Some(ChmodDirFailed(d));
      }
      return None;
    }

    /** The file loop: each entry is transferred to its joined destination and that path
        chmod-ed to the entry's PermString, stopping at the first refusal. Every entry
        has a destination here, since the directory map was built from all of them. */
    method TransferFiles(h: Host, rs: seq<UploadFile>) returns (err: Option<UploadError>)
      requires forall k :: 0 <= k < |rs| ==> Destination(rs[k]).Ok?
      modifies h
      ensures var o := Run(h.fails, old(h.trace), FileSteps(Targets(rs)));
        h.trace == old(h.trace) + o.issued && err == o.error &&
        h.existing == old(h.existing) + CreatedBy(Applied(o))
    {
      ghost var trace0, existing0 := h.trace, h.existing;
      ghost var ts := Targets(rs);
      assert ts[..0] == [];
      for i := 0 to |rs|
        invariant Reached(h.fails, trace0, existing0, FileSteps(ts[..i]), h.trace, h.existing, None)
      {
        ghost var hist, ex := h.trace, h.existing;
        err := TransferEntry(h, rs[i]);
        FileTurn(h.fails, trace0, existing0, ts, i, hist, ex, h.trace, h.existing, err);
        if err.Some? {
          return;
        }
      }
      assert ts[..|rs|] == ts;
      return None;
    }

    /** One turn of the file loop: the transfer (a download on the host for a URL, an
        upload otherwise) and the chmod of the written path, stopping at a refusal. */
    method TransferEntry(h: Host, f: UploadFile) returns (err: Option<UploadError>)
      requires Destination(f).Ok?
      modifies h
      ensures var o := Run(h.fails, old(h.trace), TargetSteps(TargetOf(f)));
        h.trace == old(h.trace) + o.issued && err == o.error &&
        h.existing == old(h.existing) + CreatedBy(Applied(o))
    {
      var dd := Destination(f);
      var dest := Paths.Join(dd.value.0, dd.value.1);
      ghost var transfer, chmod := TransferStep(TargetOf(f)), Step(Chmod(dest, f.permString), ChmodFileFailed(dest));
      assert TargetSteps(TargetOf(f)) == [transfer, chmod];
      assert transfer == if IsURL(f) then Step(DownloadURL(f.source, dest), DownloadFailed(f.source, dest))
                         else Step(Upload(f.source, dest), UploadFailed(f.source, dest));
      RunTwo(h.fails, h.trace, transfer, chmod);
      if IsURL(f) {
        err := UploadURL(h, f, dest);
      } else {
        err := UploadLocal(h, f, dest);
      }
      if err.Some? {
        return;
      }
      var ok := h.Perform(Chmod(dest, f.permString));
      if !ok {
        return Some(ChmodFileFailed(dest));
      }
      return None;
    }
  }

  /** The resolve loop: every entry resolved in order, the results appended, stopping at
      the first error. */
  method ResolveEntries(files: seq<UploadFile>, stat: string -> StatResult, glob: string -> GlobResult)
    returns (r: Result<seq<UploadFile>, Error>)
    ensures r == ResolveAll(files, stat, glob)
  {
    var resolved: seq<UploadFile> := [];
    for i := 0 to |files|
      invariant ResolveAll(files[..i], stat, glob) == Ok(resolved)
    {
      var fs := Resolve(files[i], stat, glob);
      assert files[..i + 1][..i] == files[..i];
      if fs.Err? {
        ResolveAllPrefixErr(files, i + 1, stat, glob);
        return Err(fs.error);
      }
      resolved := resolved + fs.value;
    }
    assert files[..|files|] == files;
    return Ok(resolved);
  }

  /** The map loop: each resolved entry's destination directory mapped to its PermString,
      stopping at the first entry without a destination. */
  method CollectDirs(rs: seq<UploadFile>) returns (r: Result<map<string, string>, Error>)
    ensures r == DirPerms(rs)
  {
    var dirs: map<string, string> := map[];
    for i := 0 to |rs|
      invariant DirPerms(rs[..i]) == Ok(dirs)
    {
      var dd := Destination(rs[i]);
      assert rs[..i + 1][..i] == rs[..i];
      if dd.Err? {
        DirPermsPrefixErr(rs, i + 1);
        return Err(dd.error);
      }
      dirs := dirs[dd.value.0 := rs[i].permString];
    }
    assert rs[..|rs|] == rs;
    return Ok(dirs);
  }
}
