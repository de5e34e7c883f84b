/**
  Reading a text stream line by line, as repeated `getline` calls do: a line
  ends at a newline, which is consumed and not kept; a last line without a
  newline is still delivered; reading stops once nothing is left.
 */
module LineReader {
  import opened SearchTypes

  /** Index of the first newline of `s`, or `|s|` when there is none. */
  function NewlineIndex(s: string): (k: nat)
    ensures k <= |s|
    ensures '\n' !in s[..k]
    ensures k < |s| ==> s[k] == '\n'
  {
    if s == [] || s[0] == '\n' then 0
    else 1 + NewlineIndex(s[1..])
  }

  /** One `getline` on the unread characters `s`: fails when nothing is
      left, otherwise yields the next line and the characters after it. */
  function GetLine(s: string): (r: Option<(string, string)>)
    ensures r.None? <==> s == []
    ensures r.Some? ==> '\n' !in r.value.0 && |r.value.1| < |s|
    ensures r.Some? ==> (s == r.value.0 && r.value.1 == []) || s == r.value.0 + "\n" + r.value.1
  {
    if s == [] then None
    else
      var k := NewlineIndex(s);
      if k == |s| then Some((s, []))
      else
        assert s == s[..k] + "\n" + s[k+1..];
        Some((s[..k], s[k+1..]))
  }

  /** All the lines a stream with contents `s` delivers, in order. */
  function Lines(s: string): (r: seq<string>)
    ensures forall i :: 0 <= i < |r| ==> '\n' !in r[i]
    decreases |s|
  {
    match GetLine(s)
    case None => []
    case Some((line, rest)) => [line] + Lines(rest)
  }

  /** The contents of a stream made of `lines`, each ended by a newline. */
  function Unlines(lines: seq<string>): (s: string)
    ensures s == [] <==> lines == []
    ensures lines != [] ==> s[|s| - 1] == '\n'
  {
    if lines == [] then [] else lines[0] + "\n" + Unlines(lines[1..])
  }

  lemma NewlineIndexOfLine(line: string, rest: string)
    requires '\n' !in line
    ensures NewlineIndex(line + "\n" + rest) == |line|
  {
    if line != [] {
      assert (line + "\n" + rest)[1..] == line[1..] + "\n" + rest;
      NewlineIndexOfLine(line[1..], rest);
    }
  }

  /** Newline-terminated lines are read back exactly. */
  lemma {:induction false} LinesOfUnlines(lines: seq<string>)
    requires forall i :: 0 <= i < |lines| ==> '\n' !in lines[i]
    ensures Lines(Unlines(lines)) == lines
  {
    if lines != [] {
      var s := Unlines(lines);
      var rest := Unlines(lines[1..]);
      assert s == lines[0] + "\n" + rest;
      NewlineIndexOfLine(lines[0], rest);
      assert s[..|lines[0]|] == lines[0];
      assert s[|lines[0]|+1..] == rest;
      assert GetLine(s) == Some((lines[0], rest));
      LinesOfUnlines(lines[1..]);
    }
  }

  /** The newline `Unlines` adds when the contents do not end with one. */
  function MissingNewline(s: string): (r: string)
    ensures |r| <= 1
  {
    if s != [] && s[|s|-1] != '\n' then "\n" else ""
  }

  /** Reading a stream and writing its lines back yields the contents, plus
      a newline when the contents did not end with one. */
  lemma {:induction false} UnlinesOfLines(s: string)
    ensures Unlines(Lines(s)) == s + MissingNewline(s)
    decreases |s|
  {
    if s != [] {
      var k := NewlineIndex(s);
      if k == |s| {
        LastLine(s);
      } else {
        var line, rest := s[..k], s[k+1..];
        SplitAtNewline(s);
        UnlinesOfLines(rest);
        UnlinesCons(line, Lines(rest));
        MissingNewlineOfSuffix(line, rest);
      }
    }
  }

  lemma SplitAtNewline(s: string)
    requires NewlineIndex(s) < |s|
    ensures var k := NewlineIndex(s);
            && s == s[..k] + "\n" + s[k+1..]
            && Lines(s) == [s[..k]] + Lines(s[k+1..])
  {
    var k := NewlineIndex(s);
    assert GetLine(s) == Some((s[..k], s[k+1..]));
  }

  lemma UnlinesCons(line: string, lines: seq<string>)
    ensures Unlines([line] + lines) == line + "\n" + Unlines(lines)
  {
    assert ([line] + lines)[1..] == lines;
  }

  lemma MissingNewlineOfSuffix(line: string, rest: string)
    ensures MissingNewline(line + "\n" + rest) == MissingNewline(rest)
  {
    var s := line + "\n" + rest;
    if rest != [] {
      assert s[|s|-1] == rest[|rest|-1];
    }
  }

  lemma LastLine(s: string)
    requires s != [] && NewlineIndex(s) == |s|
    ensures Unlines(Lines(s)) == s + MissingNewline(s)
  {
    assert s[..|s|] == s;
    assert s[|s|-1] in s;
    assert MissingNewline(s) == "\n";
    assert GetLine(s) == Some((s, []));
    assert Lines(s) == [s] + Lines([]);
    assert [s][1..] == [];
    assert Unlines([s]) == s + "\n" + Unlines([]);
  }
}
