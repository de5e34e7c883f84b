/**
  The content scan of one file: every line the stream delivers is matched
  against the pattern, and each matching line is reported with its 0-based
  index, counting every line read.
 */
module ContentSearch {
  import opened SearchTypes
  import opened LineReader

  predicate StrictlyIncreasing(hits: seq<Hit>) {
    forall i, j :: 0 <= i < j < |hits| ==> hits[i].line < hits[j].line
  }

  /** Some hit of `hits` carries line index `i`. */
  ghost predicate Reported(hits: seq<Hit>, i: nat) {
    exists k :: 0 <= k < |hits| && hits[k].line == i
  }

  /** `hits` reports exactly the lines of `lines` that match `pattern`:
      in increasing index order, each with its own text, index `i` reported
      if and only if line `i` matches. */
  ghost predicate ReportsMatches(lines: seq<string>, pattern: string, find: Matcher, hits: seq<Hit>) {
    && StrictlyIncreasing(hits)
    && (forall k :: 0 <= k < |hits| ==>
          hits[k].line < |lines| && hits[k].text == lines[hits[k].line] && find(hits[k].text, pattern))
    && (forall i {:trigger Reported(hits, i)} :: 0 <= i < |lines| ==>
          (Reported(hits, i) <==> find(lines[i], pattern)))
  }

  /** `hits` reports exactly the matching lines of `lines` from index
      `start` on. */
  ghost predicate ReportsFrom(lines: seq<string>, start: nat, pattern: string, find: Matcher, hits: seq<Hit>) {
    && StrictlyIncreasing(hits)
    && (forall k :: 0 <= k < |hits| ==>
          start <= hits[k].line < |lines| && hits[k].text == lines[hits[k].line] && find(hits[k].text, pattern))
    && (forall i {:trigger Reported(hits, i)} :: start <= i < |lines| && find(lines[i], pattern) ==>
          Reported(hits, i))
  }

  /** The hits among the lines from index `start` on. */
  function MatchesFrom(lines: seq<string>, start: nat, pattern: string, find: Matcher): (hits: seq<Hit>)
    requires start <= |lines|
    ensures ReportsFrom(lines, start, pattern, find, hits)
    decreases |lines| - start
  {
    if start == |lines| then []
    else
      var rest := MatchesFrom(lines, start + 1, pattern, find);
      if find(lines[start], pattern) then
        PrependMatch(lines, start, pattern, find, rest);
        [Hit(lines[start], start)] + rest
      else
        rest
  }

  /** A matching line at `start` goes in front of the report of the lines
      after it. */
  lemma PrependMatch(lines: seq<string>, start: nat, pattern: string, find: Matcher, rest: seq<Hit>)
    requires start < |lines| && find(lines[start], pattern)
    requires ReportsFrom(lines, start + 1, pattern, find, rest)
    ensures ReportsFrom(lines, start, pattern, find, [Hit(lines[start], start)] + rest)
  {
    var hits := [Hit(lines[start], start)] + rest;
    assert forall k :: 1 <= k < |hits| ==> hits[k] == rest[k-1];
    forall i | start <= i < |lines| && find(lines[i], pattern)
      ensures Reported(hits, i)
    {
      if i == start {
        assert hits[0].line == i;
      } else {
        assert Reported(rest, i);
        var k :| 0 <= k < |rest| && rest[k].line == i;
        assert hits[k+1].line == i;
      }
    }
  }

  /** What the scan of a file reports: nothing when the stream cannot be
      opened, otherwise the matching lines among those it delivers. */
  function ContentHits(stream: Stream, pattern: string, find: Matcher): (hits: seq<Hit>)
    ensures stream.Unopenable? ==> hits == []
    ensures stream.Opened? ==> ReportsMatches(Lines(stream.content), pattern, find, hits)
  {
    match stream
    case Unopenable => []
    case Opened(content) =>
      var lines := Lines(content);
      var hits := MatchesFrom(lines, 0, pattern, find);
      assert forall i {:trigger Reported(hits, i)} :: 0 <= i < |lines| ==>
               (Reported(hits, i) <==> find(lines[i], pattern)) by {
        forall i | 0 <= i < |lines| && Reported(hits, i)
          ensures find(lines[i], pattern)
        {
          var k :| 0 <= k < |hits| && hits[k].line == i;
        }
      }
      hits
  }

  /** The scan loop itself: one `getline` per iteration, a line counter that
      advances after every line, matching or not. */
  method SearchContent(stream: Stream, pattern: string, find: Matcher) returns (result: seq<Hit>)
    ensures stream.Unopenable? ==> result == []
    ensures stream.Opened? ==> ReportsMatches(Lines(stream.content), pattern, find, result)
    ensures result == ContentHits(stream, pattern, find)
  {
    result := [];
    if stream.Opened? {
      ghost var seen: seq<string> := [];
      var rest := stream.content;
      var line: nat := 0;
      var next := GetLine(rest);
      while next.Some?
        invariant next == GetLine(rest)
        invariant line == |seen| && seen + Lines(rest) == Lines(stream.content)
        invariant ReportsMatches(seen, pattern, find, result)
        decreases |rest|
      {
        var buffer := next.value.0;
        ReadStep(seen, rest);
        if find(buffer, pattern) {
          ExtendWithMatch(seen, buffer, pattern, find, result);
          result := result + [Hit(buffer, line)];
        } else {
          ExtendWithoutMatch(seen, buffer, pattern, find, result);
        }
        seen := seen + [buffer];
        line := line + 1;
        rest := next.value.1;
        next := GetLine(rest);
      }
      assert seen == Lines(stream.content);
    }
    ContentHitsUnique(stream, pattern, find, result);
  }

  /** One iteration of the scan loop: the line `getline` delivers follows the
      lines already read. */
  lemma ReadStep(seen: seq<string>, rest: string)
    requires GetLine(rest).Some?
    ensures seen + Lines(rest) == (seen + [GetLine(rest).value.0]) + Lines(GetLine(rest).value.1)
  {
    var l, rest' := GetLine(rest).value.0, GetLine(rest).value.1;
    assert Lines(rest) == [l] + Lines(rest');
    assert seen + ([l] + Lines(rest')) == (seen + [l]) + Lines(rest');
  }

  /** Reading one more line that matches extends the report by that line,
      at the count of lines read before it. */
  lemma ExtendWithMatch(lines: seq<string>, line: string, pattern: string, find: Matcher, hits: seq<Hit>)
    requires ReportsMatches(lines, pattern, find, hits)
    requires find(line, pattern)
    ensures ReportsMatches(lines + [line], pattern, find, hits + [Hit(line, |lines|)])
  {
    var all, h := lines + [line], Hit(line, |lines|);
    var hits' := hits + [h];
    forall i, j | 0 <= i < j < |hits'|
      ensures hits'[i].line < hits'[j].line
    {
      assert hits'[i] == hits[i];
      if j < |hits| {
        assert hits'[j] == hits[j];
      }
    }
    forall k | 0 <= k < |hits'|
      ensures hits'[k].line < |all| && hits'[k].text == all[hits'[k].line] && find(hits'[k].text, pattern)
    {
      if k < |hits| {
        assert hits'[k] == hits[k];
        assert all[hits[k].line] == lines[hits[k].line];
      }
    }
    forall i | 0 <= i < |all|
      ensures Reported(hits', i) <==> find(all[i], pattern)
    {
      ReportedAppend(hits, h, i);
      if i < |lines| {
        assert all[i] == lines[i];
        assert Reported(hits, i) <==> find(lines[i], pattern);
      } else {
        NotReportedBeyond(hits, |lines|);
      }
    }
  }

  /** Reading one more line that does not match leaves the report as it is,
      and it is still exact for the longer prefix. */
  lemma ExtendWithoutMatch(lines: seq<string>, line: string, pattern: string, find: Matcher, hits: seq<Hit>)
    requires ReportsMatches(lines, pattern, find, hits)
    requires !find(line, pattern)
    ensures ReportsMatches(lines + [line], pattern, find, hits)
  {
    var all := lines + [line];
    forall k | 0 <= k < |hits|
      ensures hits[k].line < |all| && hits[k].text == all[hits[k].line]
    {
      assert all[hits[k].line] == lines[hits[k].line];
    }
    forall i | 0 <= i < |all|
      ensures Reported(hits, i) <==> find(all[i], pattern)
    {
      if i < |lines| {
        assert all[i] == lines[i];
        assert Reported(hits, i) <==> find(lines[i], pattern);
      } else {
        NotReportedBeyond(hits, |lines|);
      }
    }
  }

  lemma NotReportedBeyond(hits: seq<Hit>, n: nat)
    requires forall k :: 0 <= k < |hits| ==> hits[k].line < n
    ensures !Reported(hits, n)
  {
  }

  lemma ReportedAppend(hits: seq<Hit>, h: Hit, i: nat)
    ensures Reported(hits + [h], i) <==> Reported(hits, i) || h.line == i
  {
    var hits' := hits + [h];
    if Reported(hits, i) {
      var k :| 0 <= k < |hits| && hits[k].line == i;
      assert hits'[k] == hits[k];
    }
    if h.line == i {
      assert hits'[|hits|] == h;
    }
    if Reported(hits', i) {
      var k :| 0 <= k < |hits'| && hits'[k].line == i;
      if k < |hits| {
        assert hits[k] == hits'[k];
      }
    }
  }

  lemma ContentHitsUnique(stream: Stream, pattern: string, find: Matcher, hits: seq<Hit>)
    requires stream.Unopenable? ==> hits == []
    requires stream.Opened? ==> ReportsMatches(Lines(stream.content), pattern, find, hits)
    ensures hits == ContentHits(stream, pattern, find)
  {
    if stream.Opened? {
      ReportsMatchesUnique(Lines(stream.content), pattern, find, hits, ContentHits(stream, pattern, find));
    }
  }

  function LineNumbers(hits: seq<Hit>): (ns: seq<nat>)
    ensures |ns| == |hits|
    ensures forall k :: 0 <= k < |hits| ==> ns[k] == hits[k].line
  {
    if hits == [] then [] else [hits[0].line] + LineNumbers(hits[1..])
  }

  lemma FirstIsMember(s: seq<nat>)
    requires s != []
    ensures s[0] in s
  {
  }

  /** Two strictly increasing sequences holding the same numbers are equal. */
  lemma {:induction false} IncreasingUnique(a: seq<nat>, b: seq<nat>)
    requires forall i, j :: 0 <= i < j < |a| ==> a[i] < a[j]
    requires forall i, j :: 0 <= i < j < |b| ==> b[i] < b[j]
    requires forall x :: x in a <==> x in b
    ensures a == b
    decreases |a|
  {
    if a == [] {
      if b != [] {
        FirstIsMember(b);
        assert false;
      }
    } else {
      FirstIsMember(a);
      FirstIsMember(b);
      SmallestFirst(a, b[0]);
      SmallestFirst(b, a[0]);
      TailMembers(a);
      TailMembers(b);
      IncreasingUnique(a[1..], b[1..]);
      assert a == [a[0]] + a[1..] && b == [b[0]] + b[1..];
    }
  }

  /** The first element of a strictly increasing sequence is its smallest. */
  lemma SmallestFirst(a: seq<nat>, x: nat)
    requires forall i, j :: 0 <= i < j < |a| ==> a[i] < a[j]
    requires x in a
    ensures a[0] <= x
  {
    var i :| 0 <= i < |a| && a[i] == x;
    if i > 0 {
      assert a[0] < a[i];
    }
  }

  /** The tail of a strictly increasing sequence holds everything but the
      first element. */
  lemma TailMembers(a: seq<nat>)
    requires forall i, j :: 0 <= i < j < |a| ==> a[i] < a[j]
    requires a != []
    ensures forall i, j :: 0 <= i < j < |a[1..]| ==> a[1..][i] < a[1..][j]
    ensures forall x :: x in a[1..] <==> x in a && x != a[0]
  {
    forall x | x in a && x != a[0]
      ensures x in a[1..]
    {
      var i :| 0 <= i < |a| && a[i] == x;
      assert a[1..][i-1] == x;
    }
    forall x | x in a[1..]
      ensures x != a[0]
    {
      var i :| 0 <= i < |a[1..]| && a[1..][i] == x;
      assert a[i+1] == x;
    }
  }

  /** The matching lines of a file determine its report completely. */
  lemma ReportsMatchesUnique(lines: seq<string>, pattern: string, find: Matcher, h1: seq<Hit>, h2: seq<Hit>)
    requires ReportsMatches(lines, pattern, find, h1)
    requires ReportsMatches(lines, pattern, find, h2)
    ensures h1 == h2
  {
    var a, b := LineNumbers(h1), LineNumbers(h2);
    forall x
      ensures x in a <==> x in b
    {
      if x in a {
        var k :| 0 <= k < |a| && a[k] == x;
        assert Reported(h1, x);
        assert Reported(h2, x);
        var k' :| 0 <= k' < |h2| && h2[k'].line == x;
        assert b[k'] == x;
      }
      if x in b {
        var k :| 0 <= k < |b| && b[k] == x;
        assert Reported(h2, x);
        assert Reported(h1, x);
        var k' :| 0 <= k' < |h1| && h1[k'].line == x;
        assert a[k'] == x;
      }
    }
    IncreasingUnique(a, b);
    forall k | 0 <= k < |h1|
      ensures h1[k] == h2[k]
    {
      assert a[k] == b[k];
    }
  }
}
