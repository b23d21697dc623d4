/** One `files:` entry of a host in the cluster configuration: how its permission is
    read and validated, how its source is classified (URL, glob pattern, plain path), how
    it expands into concrete entries, and where each concrete entry lands on the host.
    The local file system is reached only through two oracles: a `stat` of a path and a
    `glob` of a pattern. */
module Cluster {
  import opened Wrappers
  import Paths
  import Format

  /** The decoded `perm` value: a YAML integer, a YAML string, or anything else. */
  datatype PermMode = Int(n: int) | Str(s: string) | Other

  datatype UploadFile = UploadFile(
    name: string,
    source: string,
    destinationDir: string,
    destinationFile: string,
    permMode: PermMode,
    permString: string)

  datatype Error =
    | NegativePerm(value: int)          // "must be a positive value"
    | NilPerm                           // integer 0
    | PermNotStringOrNumber
    | PermParse(perm: string)           // a character that is not a decimal digit
    | OwnerAccess(perm: string)         // owner digit below 4
    | OverSeven(perm: string)           // a digit 8 or 9
    | StatFailed(cause: string)         // the error os.Stat returned
    | GlobFailed(cause: string)         // the error filepath.Glob returned
    | MultipleMatches(entry: string)    // several matches for a single `dst`
    | NoDestination(entry: string)
    | NotAbsolute(entry: string)

  /** What os.Stat says about a local path. */
  datatype StatResult = StatError(cause: string) | IsFile | IsDir

  /** What filepath.Glob says about a pattern: a pattern error, or the matches in order. */
  datatype GlobResult = BadPattern(cause: string) | Matches(paths: seq<string>)

  // ---------------------------------------------------------------------------
  // Permission (UnmarshalYAML)
  // ---------------------------------------------------------------------------

  /** The PermString a decoded `perm` becomes, or the error that rejects it before any
      character is looked at. */
  function PermCandidate(mode: PermMode): (r: Result<string, Error>)
    ensures mode.Int? && mode.n < 0 ==> r == Err(NegativePerm(mode.n))
    ensures mode == Int(0) ==> r == Err(NilPerm)
    ensures mode.Other? ==> r == Err(PermNotStringOrNumber)
    ensures mode.Str? ==> r == Ok(mode.s)
    ensures mode.Int? && mode.n > 0 ==>
      r.Ok? && |r.value| >= 2 && r.value[0] == '0' && r.value[1] != '0' &&
      (forall i :: 0 <= i < |r.value| ==> Format.IsOctalDigit(r.value[i])) &&
      Format.OctalValue(r.value[1..]) == mode.n
  {
    match mode
    case Int(n) =>
      if n < 0 then Err(NegativePerm(n))
      else if n == 0 then Err(NilPerm)
      else
        var s := "0" + Format.Octal(n);
        assert s[1..] == Format.Octal(n);
        Format.OctalRoundTrip(n);
        Ok(s)
    case Str(s) => Ok(s)
    case Other => Err(PermNotStringOrNumber)
  }

  /** The verdict on the character at index `i` of a permission string. */
  function CharError(s: string, i: nat): (r: Option<Error>)
    requires i < |s|
  {
    if !Format.IsDecimalDigit(s[i]) then Some(PermParse(s))
    else if i == 1 && s[i] < '4' then Some(OwnerAccess(s))
    else if s[i] > '7' then Some(OverSeven(s))
    else None
  }

  /** The first error among the characters from index `from` on. */
  function FirstPermError(s: string, from: nat): (r: Option<Error>)
    requires from <= |s|
    ensures r.Some? ==> exists i :: from <= i < |s| && CharError(s, i) == r
    ensures r.None? <==> forall i :: from <= i < |s| ==> CharError(s, i).None?
    decreases |s| - from
  {
    if from == |s| then None
    else if CharError(s, from).Some? then CharError(s, from)
    else FirstPermError(s, from + 1)
  }

  /** The outcome of the validating scan over a PermString. */
  function ValidatePerm(s: string): Option<Error>
  {
    FirstPermError(s, 0)
  }

  /** A PermString passes iff every character is an octal digit and, when there is a
      second character, that owner digit is at least 4. */
  lemma ValidatePermIff(s: string)
    ensures ValidatePerm(s).None? <==>
      (forall i :: 0 <= i < |s| ==> Format.IsOctalDigit(s[i])) && (|s| >= 2 ==> s[1] >= '4')
  {
    if ValidatePerm(s).None? {
      forall i | 0 <= i < |s| ensures Format.IsOctalDigit(s[i]) {
        assert CharError(s, i).None?;
      }
      if |s| >= 2 { assert CharError(s, 1).None?; }
    }
  }

  /** A rejected PermString is rejected for the first offending character. */
  lemma ValidatePermFirstError(s: string)
    requires ValidatePerm(s).Some?
    ensures exists i :: 0 <= i < |s| && ValidatePerm(s) == CharError(s, i) &&
                        (forall j :: 0 <= j < i ==> CharError(s, j).None?)
  {
    var i := FirstErrorIsFirst(s, 0);
  }

  /** The index of the offending character that the scan from `from` reports. */
  lemma {:induction false} FirstErrorIsFirst(s: string, from: nat) returns (i: nat)
    requires from <= |s| && FirstPermError(s, from).Some?
    ensures from <= i < |s| && FirstPermError(s, from) == CharError(s, i)
    ensures forall j :: from <= j < i ==> CharError(s, j).None?
    decreases |s| - from
  {
    if CharError(s, from).Some? {
      i := from;
    } else {
      i := FirstErrorIsFirst(s, from + 1);
    }
  }

  /** A positive integer perm is accepted iff the highest group of three bits of its
      value has its top bit set, that is iff it lies in [4 * 8^k, 8 * 8^k) for some k:
      420 (0644) passes, while 644 written in decimal (01204) does not. */
  lemma IntPermAcceptedIff(n: int)
    requires n > 0
    ensures PermCandidate(Int(n)).Ok?
    ensures ValidatePerm(PermCandidate(Int(n)).value).None? <==>
      exists k: nat :: 4 * Format.Pow8(k) <= n < 8 * Format.Pow8(k)
  {
    var s := PermCandidate(Int(n)).value;
    assert s == "0" + Format.Octal(n);
    assert s[1] == Format.Octal(n)[0];
    ValidatePermIff(s);
    Format.LeadingOctalDigit(n);
  }

  /** Worked examples of the conversion: the number 420 is written "0644", and 644, the
      decimal a user may have meant as octal, becomes "01204", which the scan refuses. */
  lemma ConversionExamples()
    ensures PermCandidate(Int(420)) == Ok("0644")
    ensures PermCandidate(Int(644)) == Ok("01204")
    ensures ValidatePerm("01204") == Some(OwnerAccess("01204"))
  {
    assert Format.Octal(420) == "644" by {
      assert Format.Octal(6) == "6";
      assert Format.Octal(52) == "64";
    }
    assert "0" + "644" == "0644";
    assert Format.Octal(644) == "1204" by {
      assert Format.Octal(1) == "1";
      assert Format.Octal(10) == "12";
      assert Format.Octal(80) == "120";
    }
    assert "0" + "1204" == "01204";
    assert CharError("01204", 1) == Some(OwnerAccess("01204"));
  }

  /** Worked examples of the scan on strings. */
  lemma ScanExamples()
    ensures ValidatePerm("") == None && ValidatePerm("0644") == None
    ensures ValidatePerm("600") == Some(OwnerAccess("600"))
    ensures ValidatePerm("0844") == Some(OverSeven("0844"))
    ensures ValidatePerm("07a5") == Some(PermParse("07a5"))
  {
    assert CharError("0644", 1).None? && CharError("0644", 2).None? && CharError("0644", 3).None?;
    assert CharError("600", 1) == Some(OwnerAccess("600"));
    assert CharError("0844", 1) == Some(OverSeven("0844"));
    assert CharError("07a5", 2) == Some(PermParse("07a5"));
  }

  /** UnmarshalYAML after the YAML decode: sets PermString from `perm` and validates it
      character by character. As in the source, PermString has already been assigned when
      the scan rejects it. */
  method UnmarshalPerm(u: UploadFile) returns (r: UploadFile, err: Option<Error>)
    ensures PermCandidate(u.permMode).Err? ==>
      r == u && err == Some(PermCandidate(u.permMode).error)
    ensures PermCandidate(u.permMode).Ok? ==>
      r == u.(permString := PermCandidate(u.permMode).value) && err == ValidatePerm(r.permString)
  {
    r := u;
    match u.permMode {
      case Int(t) =>
        if t < 0 {
          return u, Some(NegativePerm(t));
        }
        if t == 0 {
          return u, Some(NilPerm);
        }
        r := u.(permString := "0" + Format.Octal(t));
      case Str(t) =>
        r := u.(permString := t);
      case Other =>
        return u, Some(PermNotStringOrNumber);
    }
    var s := r.permString;
    var i := 0;
    while i < |s|
      invariant 0 <= i <= |s|
      invariant FirstPermError(s, i) == ValidatePerm(s)
    {
      var c := s[i];
      if !Format.IsDecimalDigit(c) {
        return r, Some(PermParse(s));
      }
      if i == 1 && c < '4' {
        return r, Some(OwnerAccess(s));
      }
      if c > '7' {
        return r, Some(OverSeven(s));
      }
      i := i + 1;
    }
    err := None;
  }

  // ---------------------------------------------------------------------------
  // Classification: String, isGlob, IsURL
  // ---------------------------------------------------------------------------

  /** The entry's label: its Name, or its Source when it has no name. */
  function String(u: UploadFile): (r: string)
    ensures u.name != "" ==> r == u.name
    ensures u.name == "" ==> r == u.source
  {
    if u.name == "" then u.source else u.name
  }

  /** strings.ContainsAny */
  function ContainsAny(s: string, chars: string): (r: bool)
    ensures r <==> exists i :: 0 <= i < |s| && s[i] in chars
  {
    if s == [] then false
    else if s[|s| - 1] in chars then true
    else
      assert forall i :: 0 <= i < |s| - 1 ==> s[..|s| - 1][i] == s[i];
      ContainsAny(s[..|s| - 1], chars)
  }

  const GlobChars: string := "*%?[]{}"

  /** A source is treated as a pattern iff it contains one of * % ? [ ] { }. */
  function IsGlob(s: string): (r: bool)
    ensures r <==> exists i :: 0 <= i < |s| && s[i] in {'*', '%', '?', '[', ']', '{', '}'}
  {
    assert forall c :: c in GlobChars <==> c in {'*', '%', '?', '[', ']', '{', '}'};
    ContainsAny(s, GlobChars)
  }

  predicate OccursAt(s: string, t: string, i: int)
  {
    0 <= i && i + |t| <= |s| && s[i..i + |t|] == t
  }

  /** strings.Contains */
  function Contains(s: string, t: string): (r: bool)
    ensures r <==> exists i :: OccursAt(s, t, i)
    decreases |s|
  {
    if |s| < |t| then false
    else if s[..|t|] == t then
      assert OccursAt(s, t, 0);
      true
    else
      var r := Contains(s[1..], t);
      assert forall i :: OccursAt(s[1..], t, i) <==> OccursAt(s, t, i + 1) by {
        forall i ensures OccursAt(s[1..], t, i) <==> OccursAt(s, t, i + 1) {
          if 0 <= i && i + |t| <= |s| - 1 {
            assert s[1..][i..i + |t|] == s[i + 1..i + 1 + |t|];
          }
        }
      }
      assert forall i :: OccursAt(s, t, i) ==> i == 0 || OccursAt(s[1..], t, i - 1);
      r
  }

  /** A source is a URL iff it contains "://". */
  function IsURL(u: UploadFile): (r: bool)
    ensures r <==> exists i :: OccursAt(u.source, "://", i)
  {
    Contains(u.source, "://")
  }

  // ---------------------------------------------------------------------------
  // Expansion: glob and Resolve
  // ---------------------------------------------------------------------------

  /** The label of the i-th of several matches: "Name: match (i+1 of n)". */
  function NumberedName(name: string, path: string, i: nat, n: nat): string
  {
    name + ": " + path + " (" + Format.Decimal(i + 1) + " of " + Format.Decimal(n) + ")"
  }

  /** The entry built for the i-th match. PermString is not copied, so it is empty. */
  function Expanded(u: UploadFile, matches: seq<string>, i: nat): (r: UploadFile)
    requires i < |matches|
  {
    UploadFile(
      if |matches| > 1 then NumberedName(u.name, matches[i], i, |matches|) else u.name,
      matches[i], u.destinationDir, u.destinationFile, u.permMode, "")
  }

  /** What glob(pattern) yields for entry `u`. */
  function Globbed(u: UploadFile, pattern: string, glob: string -> GlobResult)
    : Result<seq<UploadFile>, Error>
  {
    match glob(pattern)
    case BadPattern(e) => Err(GlobFailed(e))
    case Matches(ms) =>
      if |ms| > 1 && u.destinationFile != "" then Err(MultipleMatches(String(u)))
      else Ok(seq(|ms|, i requires 0 <= i < |ms| => Expanded(u, ms, i)))
  }

  /** A pattern error is returned as it is; several matches with a destination file are
      refused; otherwise there is one entry per match, in match order, with the match as
      its source, the destination and perm copied, an empty PermString, and the name
      kept for a single match or numbered "Name: match (i of n)" for several. */
  lemma GlobbedEntries(u: UploadFile, pattern: string, glob: string -> GlobResult)
    ensures glob(pattern).BadPattern? ==>
      Globbed(u, pattern, glob) == Err(GlobFailed(glob(pattern).cause))
    ensures glob(pattern).Matches? ==>
      var ms, r := glob(pattern).paths, Globbed(u, pattern, glob);
      (r.Err? <==> |ms| > 1 && u.destinationFile != "") &&
      (r.Err? ==> r.error == MultipleMatches(String(u))) &&
      (r.Ok? ==>
         |r.value| == |ms| &&
         forall i :: 0 <= i < |ms| ==>
           r.value[i].source == ms[i] &&
           r.value[i].destinationDir == u.destinationDir &&
           r.value[i].destinationFile == u.destinationFile &&
           r.value[i].permMode == u.permMode &&
           r.value[i].permString == "" &&
           r.value[i].name == (if |ms| == 1 then u.name else NumberedName(u.name, ms[i], i, |ms|)))
  {
  }

  /** glob: asks the oracle for the matches and builds one entry per match, in order. */
  method Glob(u: UploadFile, pattern: string, glob: string -> GlobResult)
    returns (r: Result<seq<UploadFile>, Error>)
    ensures r == Globbed(u, pattern, glob)
  {
    var files: seq<UploadFile> := [];
    var found := glob(pattern);
    if found.BadPattern? {
      return Err(GlobFailed(found.cause));
    }
    var sources := found.paths;
    if |sources| > 1 && u.destinationFile != "" {
      return Err(MultipleMatches(String(u)));
    }
    for i := 0 to |sources|
      invariant |files| == i
      invariant forall k :: 0 <= k < i ==> files[k] == Expanded(u, sources, k)
    {
      var name := u.name;
      if |sources| > 1 {
        name := NumberedName(u.name, sources[i], i, |sources|);
      }
      files := files + [UploadFile(name, sources[i], u.destinationDir, u.destinationFile, u.permMode, "")];
    }
    assert files == seq(|sources|, i requires 0 <= i < |sources| => Expanded(u, sources, i));
    r := Ok(files);
  }

  /** The pattern a directory source expands to. */
  function DirPattern(source: string): string
  {
    Paths.Join(source, "**/*")
  }

  /** What Resolve yields for entry `u`: a URL as it is, a pattern through glob, and
      otherwise by what stat says: the error, a directory through glob of
      "<source>/**/*", or the file itself. */
  function Resolved(u: UploadFile, stat: string -> StatResult, glob: string -> GlobResult)
    : (r: Result<seq<UploadFile>, Error>)
  {
    if IsURL(u) then Ok([u])
    else if IsGlob(u.source) then Globbed(u, u.source, glob)
    else match stat(u.source)
      case StatError(e) => Err(StatFailed(e))
      case IsDir => Globbed(u, DirPattern(u.source), glob)
      case IsFile => Ok([u])
  }

  /** Resolve */
  method Resolve(u: UploadFile, stat: string -> StatResult, glob: string -> GlobResult)
    returns (r: Result<seq<UploadFile>, Error>)
    ensures r == Resolved(u, stat, glob)
  {
    if IsURL(u) {
      return Ok([u]);
    }
    if IsGlob(u.source) {
      r := Glob(u, u.source, glob);
      return;
    }
    var st := stat(u.source);
    if st.StatError? {
      return Err(StatFailed(st.cause));
    }
    if st.IsDir? {
      r := Glob(u, DirPattern(u.source), glob);
      return;
    }
    r := Ok([u]);
  }

  /** A URL resolves to itself whatever the local file system holds: neither stat nor
      glob is consulted. */
  lemma ResolveUrlIgnoresFilesystem(u: UploadFile, stat1: string -> StatResult, glob1: string -> GlobResult,
                                    stat2: string -> StatResult, glob2: string -> GlobResult)
    requires exists i :: OccursAt(u.source, "://", i)
    ensures Resolved(u, stat1, glob1) == Resolved(u, stat2, glob2) == Ok([u])
  {
  }

  /** A plain file (no URL, no pattern, stat says file) resolves to itself, unchanged:
      its PermString survives, and glob is never consulted. */
  lemma ResolvePlainFile(u: UploadFile, stat: string -> StatResult, glob: string -> GlobResult)
    requires !IsURL(u) && !IsGlob(u.source) && stat(u.source) == IsFile
    ensures Resolved(u, stat, glob) == Ok([u])
  {
  }

  /** Every entry Resolve yields keeps the declared destination directory, destination
      file and perm; it is either the declared entry itself or a glob match whose
      PermString is empty. Several entries come out only when no destination file was
      declared. */
  lemma ResolvedEntries(u: UploadFile, stat: string -> StatResult, glob: string -> GlobResult)
    requires Resolved(u, stat, glob).Ok?
    ensures var rs := Resolved(u, stat, glob).value;
      (|rs| > 1 ==> u.destinationFile == "") &&
      forall i :: 0 <= i < |rs| ==>
        rs[i].destinationDir == u.destinationDir &&
        rs[i].destinationFile == u.destinationFile &&
        rs[i].permMode == u.permMode &&
        (rs[i] == u || rs[i].permString == "")
  {
    GlobbedEntries(u, u.source, glob);
    GlobbedEntries(u, DirPattern(u.source), glob);
  }

  // ---------------------------------------------------------------------------
  // Destination
  // ---------------------------------------------------------------------------

  /** Destination: the target directory and file name of an entry. */
  function Destination(u: UploadFile): Result<(string, string), Error>
  {
    if u.destinationDir == "" then
      if u.destinationFile == "" then Err(NoDestination(String(u)))
      else
        var (dir, fn) := Paths.Split(u.destinationFile);
        if dir == "" || fn == "" then Err(NotAbsolute(String(u)))
        else Ok((dir, fn))
    else if u.destinationFile != "" then Ok((u.destinationDir, u.destinationFile))
    else Ok((u.destinationDir, Paths.Base(u.source)))
  }

  /** Destination fails exactly when no directory is declared and the declared file is
      not a path with both a directory part and a non-empty name; a success always names
      a directory and a file; a declared directory is used as it is, with the declared
      file or the source's base name; a lone destination file is split after its last
      '/', which the directory keeps. */
  lemma DestinationCases(u: UploadFile)
    ensures var r := Destination(u);
      (r.Err? <==>
         u.destinationDir == "" &&
         ('/' !in u.destinationFile || u.destinationFile[|u.destinationFile| - 1] == '/')) &&
      (r.Err? && u.destinationFile == "" ==> r.error == NoDestination(String(u))) &&
      (r.Err? && u.destinationFile != "" ==> r.error == NotAbsolute(String(u))) &&
      (r.Ok? ==> r.value.0 != "" && r.value.1 != "") &&
      (u.destinationDir != "" ==>
         r == Ok((u.destinationDir,
                  if u.destinationFile != "" then u.destinationFile else Paths.Base(u.source)))) &&
      (r.Ok? && u.destinationDir == "" ==>
         r.value.0 + r.value.1 == u.destinationFile &&
         r.value.0[|r.value.0| - 1] == '/' && '/' !in r.value.1)
  {
  }
}
