/**
  The console text of an output block. Every printed line ends with a
  carriage return and a line feed; a content block is the path line followed
  by one `line <n> : <text>` line per hit, in hit order.
 */
module BlockFormat {
  import opened SearchTypes
  import opened OutputPaths
  import opened Decimal
  import opened LineReader

  const CRLF: string := "\r\n"

  /** The report line of one hit, without its terminator: `line `, the
      index in decimal, ` : `, then the line's text verbatim. */
  function HitLine(h: Hit): (r: string)
    ensures |r| == |"line "| + |NatToString(h.line)| + |" : "| + |h.text|
    ensures "line " <= r
    ensures r[|r| - |h.text|..] == h.text
  {
    var r := "line " + NatToString(h.line) + " : " + h.text;
    assert r == "line " + (NatToString(h.line) + " : " + h.text);
    r
  }

  /** The report lines of `hits`, each followed by CRLF. */
  function HitLines(hits: seq<Hit>): (r: string)
    ensures r == [] <==> hits == []
    ensures hits != [] ==> |r| >= 2 && r[|r| - 2..] == CRLF
  {
    if hits == [] then [] else HitLine(hits[0]) + CRLF + HitLines(hits[1..])
  }

  /** The text written, under one lock, for a block: the printed path and
      CRLF, then for a content block its report lines. */
  function Text(b: Block): (r: string)
    ensures OutputPath(b.path) + CRLF <= r
    ensures |r| >= 2 && r[|r| - 2..] == CRLF
    ensures b.PathLine? ==> |r| == |OutputPath(b.path)| + 2
    ensures b.ContentReport? && b.hits != [] ==> |r| > |OutputPath(b.path)| + 2
  {
    match b
    case PathLine(p) => OutputPath(p) + CRLF
    case ContentReport(p, hits) => OutputPath(p) + CRLF + HitLines(hits)
  }

  /** Length of the run of decimal digits `s` starts with. */
  function DigitRun(s: string): (k: nat)
    ensures k <= |s|
    ensures forall i :: 0 <= i < k ==> IsDigit(s[i])
    ensures k < |s| ==> !IsDigit(s[k])
  {
    if s == [] || !IsDigit(s[0]) then 0 else 1 + DigitRun(s[1..])
  }

  /** Reads a report line back into the hit it reports, if it has the form
      `line <digits> : <text>`. */
  function ParseHitLine(s: string): (r: Option<Hit>)
    ensures r.Some? ==> |s| >= 8 + |r.value.text| && s[..5] == "line " && s[|s| - |r.value.text|..] == r.value.text
  {
    if |s| < 5 || s[..5] != "line " then None
    else
      var digits := DigitRun(s[5..]);
      var after := s[5 + digits..];
      if digits == 0 || |after| < 3 || after[..3] != " : " then None
      else
        var n := StringToNat(s[5..5 + digits]);
        var h := Hit(after[3..], n);
        assert s[|s| - |h.text|..] == after[3..];
        Some(h)
  }

  /** A report line has no line feed when its text has none. */
  lemma HitLineHasNoNewline(h: Hit)
    requires '\n' !in h.text
    ensures '\n' !in HitLine(h) + "\r"
  {
    var d := NatToString(h.line);
    assert '\n' !in d by {
      forall i | 0 <= i < |d|
        ensures d[i] != '\n'
      {
        assert IsDigit(d[i]);
      }
    }
  }

  lemma DigitRunOfNumber(n: nat, tail: string)
    ensures DigitRun(NatToString(n) + " : " + tail) == |NatToString(n)|
  {
    var d := NatToString(n);
    var s := d + " : " + tail;
    assert forall i :: 0 <= i < |d| ==> s[i] == d[i];
    assert s[|d|] == ' ';
  }

  /** A report line reads back as the hit it was printed for. */
  lemma ParseHitLineOfHitLine(h: Hit)
    ensures ParseHitLine(HitLine(h)) == Some(h)
  {
    var d := NatToString(h.line);
    var s := HitLine(h);
    assert s[..5] == "line ";
    assert s[5..] == d + " : " + h.text;
    DigitRunOfNumber(h.line, h.text);
    assert s[5..5 + |d|] == d;
    assert s[5 + |d|..] == " : " + h.text;
    StringToNatOfNatToString(h.line);
  }

  /** A line the line reader delivers for a printed line: with the carriage
      return it kept removed. */
  function StripCR(l: string): (r: Option<string>)
    ensures r.Some? ==> l == r.value + "\r"
  {
    if |l| > 0 && l[|l|-1] == '\r' then Some(l[..|l|-1]) else None
  }

  function ParseHitLines(ls: seq<string>): (r: Option<seq<Hit>>)
    ensures r.Some? ==> |r.value| == |ls|
  {
    if ls == [] then Some([])
    else
      match StripCR(ls[0])
      case None => None
      case Some(l) =>
        match ParseHitLine(l)
        case None => None
        case Some(h) =>
          match ParseHitLines(ls[1..])
          case None => None
          case Some(hs) => Some([h] + hs)
  }

  /** Reads a printed content block back: the printed path and the hits. */
  function ParseReport(s: string): (r: Option<(string, seq<Hit>)>) {
    var ls := Lines(s);
    if ls == [] then None
    else
      match StripCR(ls[0])
      case None => None
      case Some(path) =>
        match ParseHitLines(ls[1..])
        case None => None
        case Some(hits) => Some((path, hits))
  }

  /** The terminated report lines, each ending in a carriage return, as the
      line reader splits them. */
  function ReportLines(hits: seq<Hit>): (ls: seq<string>)
    ensures |ls| == |hits|
    ensures forall k :: 0 <= k < |hits| ==> ls[k] == HitLine(hits[k]) + "\r"
  {
    if hits == [] then [] else [HitLine(hits[0]) + "\r"] + ReportLines(hits[1..])
  }

  lemma {:induction false} HitLinesAsUnlines(hits: seq<Hit>)
    ensures HitLines(hits) == Unlines(ReportLines(hits))
  {
    if hits != [] {
      HitLinesAsUnlines(hits[1..]);
      assert ReportLines(hits)[1..] == ReportLines(hits[1..]);
      assert HitLine(hits[0]) + CRLF + HitLines(hits[1..])
          == (HitLine(hits[0]) + "\r") + "\n" + HitLines(hits[1..]);
    }
  }

  lemma {:induction false} ParseReportLines(hits: seq<Hit>)
    ensures ParseHitLines(ReportLines(hits)) == Some(hits)
  {
    if hits != [] {
      var ls := ReportLines(hits);
      assert StripCR(ls[0]) == Some(HitLine(hits[0]));
      ParseHitLineOfHitLine(hits[0]);
      assert ls[1..] == ReportLines(hits[1..]);
      ParseReportLines(hits[1..]);
      assert [hits[0]] + hits[1..] == hits;
    }
  }

  /** A content block whose path and texts hold no line feed reads back as
      its printed path and exactly its hits, in order: the block is one path
      line followed by one report line per hit. */
  lemma ContentReportRoundTrip(path: string, hits: seq<Hit>)
    requires '\n' !in path
    requires forall k :: 0 <= k < |hits| ==> '\n' !in hits[k].text
    ensures ParseReport(Text(ContentReport(path, hits))) == Some((OutputPath(path), hits))
  {
    var ls := [OutputPath(path) + "\r"] + ReportLines(hits);
    TextAsUnlines(path, hits);
    TerminatedLinesHaveNoNewline(path, hits);
    LinesOfUnlines(ls);
    assert StripCR(ls[0]) == Some(OutputPath(path));
    assert ls[1..] == ReportLines(hits);
    ParseReportLines(hits);
  }

  /** A content block is its path line and its report lines, each ended by a
      line feed. */
  lemma TextAsUnlines(path: string, hits: seq<Hit>)
    ensures Text(ContentReport(path, hits)) == Unlines([OutputPath(path) + "\r"] + ReportLines(hits))
  {
    var p := OutputPath(path);
    var ls := [p + "\r"] + ReportLines(hits);
    HitLinesAsUnlines(hits);
    assert ls[0] == p + "\r" && ls[1..] == ReportLines(hits);
    assert Unlines(ls) == ls[0] + "\n" + Unlines(ls[1..]);
    assert (p + "\r") + "\n" == p + CRLF;
  }

  lemma TerminatedLinesHaveNoNewline(path: string, hits: seq<Hit>)
    requires '\n' !in path
    requires forall k :: 0 <= k < |hits| ==> '\n' !in hits[k].text
    ensures var ls := [OutputPath(path) + "\r"] + ReportLines(hits);
            forall i :: 0 <= i < |ls| ==> '\n' !in ls[i]
  {
    var ls := [OutputPath(path) + "\r"] + ReportLines(hits);
    assert '\n' !in OutputPath(path) by {
      var g := CString(path);
      forall i | 0 <= i < |g|
        ensures OutputPath(path)[i] != '\n'
      {
        assert g[i] == path[i];
      }
    }
    forall i | 0 <= i < |ls|
      ensures '\n' !in ls[i]
    {
      if i > 0 {
        assert ls[i] == ReportLines(hits)[i-1];
        HitLineHasNoNewline(hits[i-1]);
      }
    }
  }
}
