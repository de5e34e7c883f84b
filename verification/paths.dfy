/**
  The rewriting of a path into the form the program prints: the generic
  string, read up to its first NUL character (the result is built from a C
  string), with every `/` turned into `\`.
 */
module OutputPaths {

  /** The prefix of `s` a C string view of it exposes: everything before the
      first NUL character. */
  function CString(s: string): (r: string)
    ensures r <= s
    ensures '\0' !in r
    ensures '\0' in s ==> |r| < |s| && s[|r|] == '\0'
    ensures '\0' !in s ==> r == s
  {
    if s == [] || s[0] == '\0' then []
    else [s[0]] + CString(s[1..])
  }

  function Backslashed(c: char): (r: char)
    ensures r != '/'
  {
    if c == '/' then '\\' else c
  }

  /** Every `/` of `s` replaced by `\`, every other character kept. */
  function ReplaceSeparators(s: string): (r: string)
    ensures |r| == |s|
    ensures forall i :: 0 <= i < |s| ==> (s[i] == '/' ==> r[i] == '\\') && (s[i] != '/' ==> r[i] == s[i])
  {
    if s == [] then []
    else [Backslashed(s[0])] + ReplaceSeparators(s[1..])
  }

  /** The text printed for a path whose generic string is `generic`. */
  function OutputPath(generic: string): (r: string)
    ensures '/' !in r && '\0' !in r
    ensures |r| <= |generic|
    ensures forall i :: 0 <= i < |r| ==> r[i] == (if generic[i] == '/' then '\\' else generic[i])
    ensures '\0' !in generic ==> |r| == |generic|
    ensures '\0' in generic ==> generic[|r|] == '\0'
  {
    ReplaceSeparators(CString(generic))
  }

  /** The inverse direction: every `\` turned back into `/`. */
  function GenericSeparators(s: string): (r: string)
    ensures |r| == |s|
    ensures forall i :: 0 <= i < |s| ==> (s[i] == '\\' ==> r[i] == '/') && (s[i] != '\\' ==> r[i] == s[i])
  {
    if s == [] then []
    else [if s[0] == '\\' then '/' else s[0]] + GenericSeparators(s[1..])
  }

  /** Rewriting an already rewritten path changes nothing. */
  lemma OutputPathIdempotent(generic: string)
    ensures OutputPath(OutputPath(generic)) == OutputPath(generic)
  {
    var r := OutputPath(generic);
    var rr := OutputPath(r);
    assert CString(r) == r;
    assert |rr| == |r|;
    forall i | 0 <= i < |r|
      ensures rr[i] == r[i]
    {
      assert r[i] != '/';
    }
  }

  /** A path without backslashes or NUL characters is recovered from its
      printed form by turning the backslashes back into slashes. */
  lemma OutputPathRoundTrip(generic: string)
    requires '\0' !in generic && '\\' !in generic
    ensures GenericSeparators(OutputPath(generic)) == generic
  {
    var r := OutputPath(generic);
    var g := GenericSeparators(r);
    assert |g| == |generic|;
    forall i | 0 <= i < |generic|
      ensures g[i] == generic[i]
    {
      assert generic[i] != '\\';
    }
  }

  /** A path without `/` or NUL prints as itself. */
  lemma OutputPathPlain(s: string)
    requires '/' !in s && '\0' !in s
    ensures OutputPath(s) == s
  {
    var r := OutputPath(s);
    forall i | 0 <= i < |s|
      ensures r[i] == s[i]
    {
      assert s[i] != '/';
    }
  }

  /** Printing distributes over the separator: joining two NUL-free paths
      with `/` prints as their printed forms joined with `\`. */
  lemma OutputPathJoin(a: string, b: string)
    requires '\0' !in a && '\0' !in b
    ensures OutputPath(a + "/" + b) == OutputPath(a) + "\\" + OutputPath(b)
  {
    var g := a + "/" + b;
    assert '\0' !in g by {
      assert forall i :: 0 <= i < |g| ==> g[i] in a || g[i] == '/' || g[i] in b;
    }
    ReplaceSeparatorsAppend(a, "/" + b);
    ReplaceSeparatorsAppend("/", b);
    assert ReplaceSeparators("/") == "\\";
  }

  lemma {:induction false} ReplaceSeparatorsAppend(x: string, y: string)
    ensures ReplaceSeparators(x + y) == ReplaceSeparators(x) + ReplaceSeparators(y)
  {
    if x != [] {
      assert (x + y)[1..] == x[1..] + y;
      ReplaceSeparatorsAppend(x[1..], y);
    }
  }
}
