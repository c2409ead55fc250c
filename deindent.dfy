/** The reformatting the auto-discovery step applies to the text already inside the
    target element: line endings become `\n`, leading blank lines go, and the first
    line's indentation is removed from every line that starts with that much whitespace. */
module Deindent {
  import opened Text

  /** `s.replace(/\r\n/g, "\n")`. */
  function ReplaceCrLf(s: string): string {
    if |s| >= 2 && s[0] == '\r' && s[1] == '\n' then "\n" + ReplaceCrLf(s[2..])
    else if s == [] then []
    else [s[0]] + ReplaceCrLf(s[1..])
  }

  /** `s.replace(/\r/g, "\n")`. */
  function ReplaceCr(s: string): string {
    seq(|s|, i requires 0 <= i < |s| => if s[i] == '\r' then '\n' else s[i])
  }

  /** Both replacements, in the script's order. */
  function NormalizeNewlines(s: string): (r: string)
    ensures '\r' !in r
  {
    ReplaceCr(ReplaceCrLf(s))
  }

  /** Normalising reads the text one line break at a time: CRLF and a lone CR each become
      one LF, and every other character is kept. */
  lemma NormalizeSteps(c: char, s: string)
    ensures NormalizeNewlines("\r\n" + s) == "\n" + NormalizeNewlines(s)
    ensures (s == [] || s[0] != '\n') ==> NormalizeNewlines("\r" + s) == "\n" + NormalizeNewlines(s)
    ensures c != '\r' ==> NormalizeNewlines([c] + s) == [c] + NormalizeNewlines(s)
  {
    assert ("\r\n" + s)[2..] == s;
    assert ([c] + s)[1..] == s;
    assert ("\r" + s)[1..] == s;
  }

  /** Text without a CR is left as it is. */
  lemma {:induction false} NormalizeIdentity(s: string)
    requires '\r' !in s
    ensures NormalizeNewlines(s) == s
  {
    if s != [] {
      assert '\r' !in s[1..];
      NormalizeIdentity(s[1..]);
      NormalizeSteps(s[0], s[1..]);
      assert [s[0]] + s[1..] == s;
    }
  }

  /** `line.trim().length === 0`, stated by the leading trim alone: a line trims to
      nothing exactly when its leading whitespace is all of it (`BlankIffTrimEmpty`). */
  predicate IsBlank(line: string) {
    TrimStart(line) == []
  }

  /** `line.length - line.replace(/^\s+/, "").length`: the width of the leading whitespace. */
  function Indent(line: string): nat {
    |line| - |TrimStart(line)|
  }

  predicate AllSpace(s: string) {
    forall i :: 0 <= i < |s| ==> IsSpace(s[i])
  }

  function Min(a: nat, b: nat): nat {
    if a <= b then a else b
  }

  /** The `while` loop's result: the lines from the first non-blank one on. */
  function DropBlank(lines: seq<string>): (r: seq<string>)
    ensures |r| <= |lines| && r == lines[|lines| - |r|..]
    ensures r != [] ==> !IsBlank(r[0])
  {
    if lines != [] && IsBlank(lines[0]) then DropBlank(lines[1..]) else lines
  }

  /** Every line `DropBlank` drops is blank. */
  lemma {:induction false} DropBlankSkipsBlank(lines: seq<string>)
    ensures forall i :: 0 <= i < |lines| - |DropBlank(lines)| ==> IsBlank(lines[i])
  {
    if lines != [] && IsBlank(lines[0]) {
      DropBlankSkipsBlank(lines[1..]);
      forall i | 1 <= i < |lines| - |DropBlank(lines)| ensures IsBlank(lines[i]) {
        assert lines[i] == lines[1..][i - 1];
      }
    }
  }

  /** One line of the `map`: `line.substring(prefix)` unless `line.substring(0, prefix)`
      holds a non-whitespace character. */
  function StripIndent(line: string, prefix: nat): string {
    var n := Min(prefix, |line|);
    if AllSpace(line[..n]) then line[n..] else line
  }

  /** `lines.map(...)` with `StripIndent`. */
  function StripAll(lines: seq<string>, prefix: nat): (r: seq<string>)
    ensures |r| == |lines|
  {
    seq(|lines|, i requires 0 <= i < |lines| => StripIndent(lines[i], prefix))
  }

  /** The reformatted lines. */
  function DeindentLines(lines: seq<string>): seq<string> {
    var ls := DropBlank(lines);
    if ls == [] then []
    else
      StripAll(ls, Indent(ls[0]))
  }

  /** The reformatted text. */
  function Reformat(source: string): string {
    Join(DeindentLines(Split(NormalizeNewlines(source), '\n')), '\n')
  }

  /** The reformatting as the script performs it: two replacements, a split, a loop that
      shifts blank lines off the front, and a map over what is left. */
  method ReformatSource(existingSource: string) returns (out: string)
    ensures out == Reformat(existingSource)
  {
    var text := ReplaceCrLf(existingSource);
    text := ReplaceCr(text);
    ghost var all := Split(text, '\n');
    var lines := Split(text, '\n');
    while |lines| > 0 && IsBlank(lines[0])
      invariant DropBlank(lines) == DropBlank(all)
      decreases |lines|
    {
      lines := lines[1..];
    }
    var prefix := if |lines| > 0 then Indent(lines[0]) else 0;
    out := Join(StripAll(lines, prefix), '\n');
  }

  lemma {:induction false} TrimStartSkip(s: string, n: nat)
    requires n <= |s| && AllSpace(s[..n])
    ensures TrimStart(s[n..]) == TrimStart(s)
  {
    if n > 0 {
      assert IsSpace(s[..n][0]);
      assert s[1..][..n - 1] == s[..n][1..];
      TrimStartSkip(s[1..], n - 1);
      assert s[1..][n - 1..] == s[n..];
    }
  }

  /** A stripped line keeps its indentation relative to the first line. */
  lemma StripKeepsRelativeIndent(line: string, prefix: nat)
    requires AllSpace(line[..Min(prefix, |line|)])
    ensures Indent(StripIndent(line, prefix)) == if Indent(line) >= prefix then Indent(line) - prefix else 0
  {
    var n := Min(prefix, |line|);
    assert StripIndent(line, prefix) == line[n..];
    TrimStartSkip(line, n);
    assert Indent(line[n..]) == |line| - n - |TrimStart(line)|;
    if |line| < prefix {
      assert line[..n] == line;
      TrimEmptyIffSpace(line);
    } else {
      IndentAtLeast(line, prefix);
    }
  }

  /** Leading whitespace of width `n` counts towards the indentation. */
  lemma IndentAtLeast(line: string, n: nat)
    requires n <= |line| && AllSpace(line[..n])
    ensures Indent(line) >= n
  {
    var t := TrimStart(line);
    var k := |line| - |t|;
    if t != [] {
      assert line[k] == t[0];
    }
    forall i | 0 <= i < n ensures IsSpace(line[i]) {
      assert line[..n][i] == line[i];
    }
  }

  /** A line is blank exactly when `line.trim()` is empty. */
  lemma BlankIffTrimEmpty(line: string)
    ensures IsBlank(line) <==> |Trim(line)| == 0
  {
    TrimEmptyIffSpace(line);
  }

  /** `out` is `line` with a whitespace prefix of at most `limit` characters removed. */
  predicate WhitespaceCut(line: string, out: string, limit: nat) {
    var cut := |line| - |out|;
    0 <= cut <= limit && out == line[cut..] && AllSpace(line[..cut])
  }

  /** One line loses either nothing or its first `prefix` characters (all of it when
      shorter), and only when they are all whitespace. */
  lemma StripIndentShape(line: string, prefix: nat)
    ensures var out := StripIndent(line, prefix);
            var cut := |line| - |out|;
            WhitespaceCut(line, out, prefix) && (cut == 0 || cut == Min(prefix, |line|))
  {
    var n := Min(prefix, |line|);
    if AllSpace(line[..n]) {
      assert line[..|line| - |line[n..]|] == line[..n];
    } else {
      assert line[..0] == [];
    }
  }

  /** Every line of the result is its input line with at most the first line's
      indentation removed, and only whitespace is ever removed. */
  lemma DeindentLinesShape(lines: seq<string>)
    ensures var ls := DropBlank(lines);
            var out := DeindentLines(lines);
            |out| == |ls| &&
            forall i :: 0 <= i < |ls| ==> WhitespaceCut(ls[i], out[i], Indent(ls[0]))
  {
    var ls := DropBlank(lines);
    if ls != [] {
      var p := Indent(ls[0]);
      var out := StripAll(ls, p);
      assert DeindentLines(lines) == out;
      forall i | 0 <= i < |ls| ensures WhitespaceCut(ls[i], out[i], p) {
        StripIndentShape(ls[i], p);
      }
    }
  }

  /** Stripping a line by its own indentation leaves exactly its trimmed start. */
  lemma StripOwnIndent(line: string)
    ensures StripIndent(line, Indent(line)) == TrimStart(line)
  {
    var t := TrimStart(line);
    var n := |line| - |t|;
    TrimStartRemovesSpace(line);
    assert Min(n, |line|) == n;
    forall i | 0 <= i < n ensures IsSpace(line[..n][i]) {
      assert line[..n][i] == line[i];
    }
    assert line[n..] == t;
  }

  /** The first remaining line loses exactly its indentation, so the result starts with
      a non-whitespace character unless nothing is left. */
  lemma FirstLineUnindented(lines: seq<string>)
    ensures var ls := DropBlank(lines);
            var out := DeindentLines(lines);
            ls != [] ==> out[0] == TrimStart(ls[0]) && out[0] != [] && !IsSpace(out[0][0])
  {
    var ls := DropBlank(lines);
    if ls != [] {
      assert DeindentLines(lines)[0] == StripIndent(ls[0], Indent(ls[0]));
      StripOwnIndent(ls[0]);
    }
  }

  lemma {:induction false} SplitPiecesAvoid(s: string, sep: char, c: char)
    requires c !in s
    ensures forall i :: 0 <= i < |Split(s, sep)| ==> c !in Split(s, sep)[i]
  {
    if s != [] {
      assert c !in s[1..];
      SplitPiecesAvoid(s[1..], sep, c);
    }
  }

  lemma {:induction false} JoinAvoids(parts: seq<string>, sep: char, c: char)
    requires c != sep && forall i :: 0 <= i < |parts| ==> c !in parts[i]
    ensures c !in Join(parts, sep)
  {
    if |parts| > 1 {
      JoinAvoids(parts[1..], sep, c);
    }
  }

  /** Stripping only removes characters. */
  lemma StripIndentAvoids(line: string, prefix: nat, c: char)
    requires c !in line
    ensures c !in StripIndent(line, prefix)
  {
    var n := Min(prefix, |line|);
    forall j | 0 <= j < |line| - n ensures line[n..][j] != c {
      assert line[n..][j] == line[n + j];
    }
  }

  /** Stripping every line only removes characters. */
  lemma StripAllAvoids(ls: seq<string>, prefix: nat, c: char)
    requires forall i :: 0 <= i < |ls| ==> c !in ls[i]
    ensures forall i :: 0 <= i < |StripAll(ls, prefix)| ==> c !in StripAll(ls, prefix)[i]
  {
    forall i | 0 <= i < |ls| ensures c !in StripAll(ls, prefix)[i] {
      StripIndentAvoids(ls[i], prefix, c);
    }
  }

  /** A suffix of lines that all avoid `c` avoids `c` too. */
  lemma SuffixAvoids(lines: seq<string>, k: nat, c: char)
    requires k <= |lines|
    requires forall i :: 0 <= i < |lines| ==> c !in lines[i]
    ensures forall i :: 0 <= i < |lines[k..]| ==> c !in lines[k..][i]
  {
    forall i | 0 <= i < |lines[k..]| ensures c !in lines[k..][i] {
      assert lines[k..][i] == lines[k + i];
    }
  }

  /** Reformatting only removes characters, so a character absent from every input line
      is absent from every output line. */
  lemma DeindentLinesAvoid(lines: seq<string>, c: char)
    requires forall i :: 0 <= i < |lines| ==> c !in lines[i]
    ensures forall i :: 0 <= i < |DeindentLines(lines)| ==> c !in DeindentLines(lines)[i]
  {
    var ls := DropBlank(lines);
    if ls != [] {
      SuffixAvoids(lines, |lines| - |ls|, c);
      StripAllAvoids(ls, Indent(ls[0]), c);
    }
  }

  /** The text of the result splits back into exactly the reformatted lines. */
  lemma ReformatLines(source: string)
    ensures var out := DeindentLines(Split(NormalizeNewlines(source), '\n'));
            out == [] ==> Reformat(source) == ""
    ensures var out := DeindentLines(Split(NormalizeNewlines(source), '\n'));
            out != [] ==> Split(Reformat(source), '\n') == out
    ensures '\r' !in Reformat(source)
  {
    var text := NormalizeNewlines(source);
    var pieces := Split(text, '\n');
    var out := DeindentLines(pieces);
    SplitPiecesAvoid(text, '\n', '\r');
    SplitPiecesFree(text, '\n');
    DeindentLinesAvoid(pieces, '\r');
    DeindentLinesAvoid(pieces, '\n');
    JoinAvoids(out, '\n', '\r');
    if out != [] {
      SplitJoin(out, '\n');
    }
  }

  /** Line by line: after the leading blank lines are dropped, each line of the result is
      the input line without its first `prefix` characters when those are all whitespace
      (`prefix` being the first line's indentation), and the input line unchanged otherwise. */
  lemma ReformatPerLine(source: string)
    ensures var ls := DropBlank(Split(NormalizeNewlines(source), '\n'));
            ls != [] ==>
              var out := Split(Reformat(source), '\n');
              var p := Indent(ls[0]);
              |out| == |ls| &&
              forall i :: 0 <= i < |ls| ==>
                (AllSpace(ls[i][..Min(p, |ls[i]|)]) ==> out[i] == ls[i][Min(p, |ls[i]|)..]) &&
                (!AllSpace(ls[i][..Min(p, |ls[i]|)]) ==> out[i] == ls[i])
  {
    ReformatLines(source);
  }

  /** Lines that start with an unindented, non-blank line are left as they are. */
  lemma DeindentLinesFixed(lines: seq<string>)
    requires lines != [] && lines[0] != [] && !IsSpace(lines[0][0])
    ensures DeindentLines(lines) == lines
  {
    var first := lines[0];
    assert TrimStart(first) == first;
    assert Indent(first) == 0;
    forall i | 0 <= i < |lines| ensures StripIndent(lines[i], 0) == lines[i] {
      assert lines[i][..0] == [];
    }
  }

  /** Reformatting reformatted text changes nothing. */
  lemma ReformatIdempotent(source: string)
    ensures Reformat(Reformat(source)) == Reformat(source)
  {
    var pieces := Split(NormalizeNewlines(source), '\n');
    var out := DeindentLines(pieces);
    var r := Reformat(source);
    ReformatLines(source);
    NormalizeIdentity(r);
    if out == [] {
      assert Split("", '\n') == [""];
      assert DropBlank([""]) == [];
    } else {
      FirstLineUnindented(pieces);
      assert Split(NormalizeNewlines(r), '\n') == out;
      DeindentLinesFixed(out);
    }
  }
}
