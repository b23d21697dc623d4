/** Go's slash-separated `path` package, as far as the upload logic uses it:
    `strings.LastIndex(p, "/")`, `path.Split`, `path.Base`, `path.Clean` and a
    two-element `path.Join`. Purely lexical; the file system is never consulted. */
module Paths {

  /** Index of the last '/' in `p`, or -1 when there is none. */
  function LastSlash(p: string): (r: int)
    ensures -1 <= r < |p|
    ensures r >= 0 ==> p[r] == '/'
    ensures forall i :: r < i < |p| ==> p[i] != '/'
  {
    if p == [] then -1
    else if p[|p| - 1] == '/' then |p| - 1
    else LastSlash(p[..|p| - 1])
  }

  lemma LastSlashNone(p: string)
    ensures LastSlash(p) < 0 <==> '/' !in p
  {
    if '/' in p {
      var i :| 0 <= i < |p| && p[i] == '/';
      assert i <= LastSlash(p);
    }
  }

  lemma AfterLastSlash(p: string)
    ensures '/' !in p[LastSlash(p) + 1..]
  {
  }

  /** path.Split: everything up to and including the last '/', and the rest. */
  function Split(p: string): (r: (string, string))
    ensures r.0 + r.1 == p
    ensures '/' !in r.1
    ensures r.0 == "" <==> '/' !in p
    ensures r.0 != "" ==> r.0[|r.0| - 1] == '/'
  {
    var k := LastSlash(p);
    LastSlashNone(p);
    AfterLastSlash(p);
    assert p[..k + 1] + p[k + 1..] == p;
    (p[..k + 1], p[k + 1..])
  }

  /** `p` without its trailing slashes. */
  function TrimTrailingSlashes(p: string): (r: string)
    ensures |r| <= |p| && r == p[..|r|]
    ensures r == "" || r[|r| - 1] != '/'
    ensures forall i :: |r| <= i < |p| ==> p[i] == '/'
  {
    if p != [] && p[|p| - 1] == '/' then TrimTrailingSlashes(p[..|p| - 1]) else p
  }

  /** path.Base: the last element of `p`; "." for the empty path and "/" for a path of slashes. */
  function Base(p: string): (r: string)
    ensures r != ""
    ensures p == "" ==> r == "."
    ensures '/' in r ==> r == "/"
    ensures p != "" && '/' !in p ==> r == p
  {
    if p == "" then "."
    else
      var t := TrimTrailingSlashes(p);
      var b := t[LastSlash(t) + 1..];
      AfterLastSlash(t);
      if b == "" then "/" else b
  }

  /** Base names the last element: for a path with something other than slashes, the
      base is the slash-free end of the path once its trailing slashes are dropped,
      preceded by a '/' or by nothing; a path of slashes only has the base "/". */
  lemma BaseIsLastElement(p: string)
    ensures p != "" && TrimTrailingSlashes(p) == "" ==> Base(p) == "/"
    ensures TrimTrailingSlashes(p) != "" ==>
      '/' !in Base(p) &&
      exists k :: TrimTrailingSlashes(p) == k + Base(p) && (k == "" || k[|k| - 1] == '/')
  {
    var t := TrimTrailingSlashes(p);
    if t != "" {
      var k := LastElement(t);
      assert Base(p) == t[LastSlash(t) + 1..];
    } else if p != "" {
      assert LastSlash(t) == -1;
    }
  }

  /** What follows the last '/' of a path that does not end in '/' is a non-empty,
      slash-free last element; what precedes it, `k`, is empty or ends in '/'. */
  lemma LastElement(t: string) returns (k: string)
    requires t != "" && t[|t| - 1] != '/'
    ensures var b := t[LastSlash(t) + 1..];
      b != "" && '/' !in b && t == k + b && (k == "" || k[|k| - 1] == '/')
  {
    k := Split(t).0;
    assert LastSlash(t) < |t| - 1;
  }

  /** The '/'-separated fields of `p` ("a//b" has the fields "a", "" and "b"). */
  function Fields(p: string): (r: seq<string>)
    ensures |r| >= 1
    decreases |p|
  {
    var k := LastSlash(p);
    if k < 0 then [p] else Fields(p[..k]) + [p[k + 1..]]
  }

  /** One step of lexical cleaning: drop empty and "." elements, let ".." remove the
      element before it, and keep a leading ".." only in a relative path. */
  function Push(stack: seq<string>, elem: string, rooted: bool): seq<string>
  {
    if elem == "" || elem == "." then stack
    else if elem == ".." then
      if |stack| > 0 && stack[|stack| - 1] != ".." then stack[..|stack| - 1]
      else if rooted then stack
      else stack + [".."]
    else stack + [elem]
  }

  function Reduce(stack: seq<string>, elems: seq<string>, rooted: bool): seq<string>
    decreases |elems|
  {
    if elems == [] then stack else Reduce(Push(stack, elems[0], rooted), elems[1..], rooted)
  }

  function JoinSlash(elems: seq<string>): string
  {
    if elems == [] then ""
    else if |elems| == 1 then elems[0]
    else elems[0] + "/" + JoinSlash(elems[1..])
  }

  /** path.Clean: the shortest lexically equivalent path; "." when nothing is left. */
  function Clean(p: string): (r: string)
    ensures r != ""
    ensures p != "" && p[0] == '/' ==> r[0] == '/'
  {
    var rooted := p != "" && p[0] == '/';
    var body := JoinSlash(Reduce([], Fields(p), rooted));
    if rooted then "/" + body else if body == "" then "." else body
  }

  /** path.Join(a, b): the non-empty arguments joined by '/', then cleaned; "" when both are empty. */
  function Join(a: string, b: string): (r: string)
    ensures r == "" <==> a == "" && b == ""
    ensures a != "" && a[0] == '/' ==> r[0] == '/'
  {
    if a == "" && b == "" then ""
    else if a == "" then Clean(b)
    else Clean(a + "/" + b)
  }

  /** A path element that cleaning keeps as it is: non-empty, not "." or "..", no '/'. */
  predicate PlainElement(e: string)
  {
    e != "" && e != "." && e != ".." && '/' !in e
  }

  /** Joining a cleaned absolute directory other than "/", written as '/' and one or
      more plain elements separated by '/', with a plain file name puts exactly one '/'
      between them. (The root itself joins to "/" + the name.) */
  lemma JoinPlain(a: string, es: seq<string>, b: string)
    requires |es| >= 1 && forall i :: 0 <= i < |es| ==> PlainElement(es[i])
    requires a == "/" + JoinSlash(es) && PlainElement(b)
    ensures Join(a, b) == a + "/" + b
  {
    var es' := es + [b];
    JoinSlashSnoc(es, b);
    assert a + "/" + b == "/" + JoinSlash(es');
    CleanOfPlain(es');
  }

  /** Cleaning leaves a path of '/' and plain elements separated by '/' unchanged. */
  lemma CleanOfPlain(es: seq<string>)
    requires |es| >= 1 && forall i :: 0 <= i < |es| ==> PlainElement(es[i])
    ensures Clean("/" + JoinSlash(es)) == "/" + JoinSlash(es)
  {
    var p := "/" + JoinSlash(es);
    FieldsOfPlain(es);
    assert Fields(p) == [""] + es;
    assert ([""] + es)[1..] == es;
    ReduceOfPlain([], es);
    assert [] + es == es;
  }

  lemma {:induction false} JoinSlashSnoc(es: seq<string>, e: string)
    requires |es| >= 1
    ensures JoinSlash(es + [e]) == JoinSlash(es) + "/" + e
    decreases |es|
  {
    if |es| == 1 {
      assert (es + [e])[1..] == [e];
    } else {
      var rest := es[1..];
      assert (es + [e])[1..] == rest + [e];
      JoinSlashSnoc(rest, e);
      var x := es[0];
      assert x + "/" + (JoinSlash(rest) + "/" + e) == (x + "/" + JoinSlash(rest)) + "/" + e;
    }
  }

  /** The last '/' of `x + "/" + e` is the one added, when `e` has none. */
  lemma LastSlashAt(x: string, e: string)
    requires '/' !in e
    ensures LastSlash(x + "/" + e) == |x|
  {
    var p := x + "/" + e;
    var r := LastSlash(p);
    assert p[|x|] == '/';
  }

  /** The base name of `x + "/" + e` is `e` when `e` is a non-empty element. */
  lemma BaseOfSnoc(x: string, e: string)
    requires e != "" && '/' !in e
    ensures Base(x + "/" + e) == e
  {
    var p := x + "/" + e;
    assert p[|p| - 1] == e[|e| - 1];
    assert TrimTrailingSlashes(p) == p;
    LastSlashAt(x, e);
    assert p[|x| + 1..] == e;
  }

  /** A slash-free element after a '/' is the last field. */
  lemma FieldsSnoc(x: string, e: string)
    requires '/' !in e
    ensures Fields(x + "/" + e) == Fields(x) + [e]
  {
    LastSlashAt(x, e);
    var p := x + "/" + e;
    assert p[..|x|] == x && p[|x| + 1..] == e;
  }

  lemma {:induction false} FieldsOfPlain(es: seq<string>)
    requires |es| >= 1 && forall i :: 0 <= i < |es| ==> '/' !in es[i]
    ensures Fields("/" + JoinSlash(es)) == [""] + es
    decreases |es|
  {
    var n := |es| - 1;
    var init, e := es[..n], es[n];
    assert es == init + [e];
    if n == 0 {
      assert "/" + JoinSlash(es) == "" + "/" + e;
      FieldsSnoc("", e);
    } else {
      JoinSlashSnoc(init, e);
      FieldsRootedSnoc(JoinSlash(init), JoinSlash(es), e);
      FieldsOfPlain(init);
      assert ([""] + init) + [e] == [""] + es;
    }
  }

  /** Rooting `x + "/" + e` adds the field `e` to the fields of the rooted `x`. */
  lemma FieldsRootedSnoc(x: string, y: string, e: string)
    requires '/' !in e && y == x + "/" + e
    ensures Fields("/" + y) == Fields("/" + x) + [e]
  {
    assert "/" + y == ("/" + x) + "/" + e;
    FieldsSnoc("/" + x, e);
  }

  lemma {:induction false} ReduceOfPlain(stack: seq<string>, es: seq<string>)
    requires forall i :: 0 <= i < |es| ==> PlainElement(es[i])
    ensures Reduce(stack, es, true) == stack + es
    decreases |es|
  {
    if es == [] {
      assert stack + es == stack;
    } else {
      ReduceOfPlain(stack + [es[0]], es[1..]);
      assert stack + [es[0]] + es[1..] == stack + es;
    }
  }
}
