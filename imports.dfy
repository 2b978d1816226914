/** The `import <name> as <alias>` directive as both generations of the loader
    read it: a line is an import when it starts with `import`; the name and
    alias come from `line.lstrip('import ').split(' as ')`, which strips the
    SET of characters {i, m, p, o, r, t, space} from the left and must split
    into exactly two pieces. */
module Imports {
  import opened Wrappers
  import opened Text

  const IMPORT_STRIP: set<char> := {'i', 'm', 'p', 'o', 'r', 't', ' '}
  const AS: string := " as "

  /** `line.startswith('import')`: also true of `important = 1`. */
  predicate IsImportLine(line: string) {
    StartsWith(line, "import")
  }

  /** `name, alias = line.lstrip('import ').split(' as ')`; `None` is the
      ValueError raised when the split does not give exactly two pieces. */
  function ParseImport(line: string): Option<(string, string)> {
    var parts := SplitOn(LStrip(line, IMPORT_STRIP), AS);
    if |parts| == 2 then Some((parts[0], parts[1])) else None
  }

  /** An import parses exactly when the stripped line contains the separator
      exactly once; the name and the alias are the text around it. */
  lemma ParseImportSpec(line: string)
    ensures var stripped := LStrip(line, IMPORT_STRIP);
      var r := ParseImport(line);
      && (r.Some? <==> |SplitOn(stripped, AS)| == 2)
      && (r.Some? ==> stripped == r.value.0 + AS + r.value.1)
      && (r.Some? ==> !Contains(r.value.0, AS) && !Contains(r.value.1, AS))
  {
    var stripped := LStrip(line, IMPORT_STRIP);
    var parts := SplitOn(stripped, AS);
    SplitOnPieces(stripped, AS);
    if |parts| == 2 {
      JoinSplit(stripped, AS);
      assert parts == [parts[0]] + [parts[1]];
      JoinCons(AS, parts[0], [parts[1]]);
    }
  }

  /** The lines that are not imports, in their original order. */
  function CodeLines(lines: seq<string>): (r: seq<string>)
    ensures forall k :: 0 <= k < |r| ==> !IsImportLine(r[k])
    ensures |r| <= |lines|
  {
    if lines == [] then []
    else
      var last := lines[|lines| - 1];
      CodeLines(lines[..|lines| - 1]) + (if IsImportLine(last) then [] else [last])
  }

  /** The import lines, in their original order. */
  function ImportLines(lines: seq<string>): (r: seq<string>)
    ensures forall k :: 0 <= k < |r| ==> IsImportLine(r[k])
    ensures |r| <= |lines|
  {
    if lines == [] then []
    else
      var last := lines[|lines| - 1];
      ImportLines(lines[..|lines| - 1]) + (if IsImportLine(last) then [last] else [])
  }

  /** Every line goes to exactly one side: the two counts add up. */
  lemma {:induction false} LinesPartitioned(lines: seq<string>)
    ensures |CodeLines(lines)| + |ImportLines(lines)| == |lines|
  {
    if lines != [] {
      LinesPartitioned(lines[..|lines| - 1]);
    }
  }

  /** Without import lines, nothing is removed. */
  lemma {:induction false} CodeLinesOfCode(lines: seq<string>)
    requires forall k :: 0 <= k < |lines| ==> !IsImportLine(lines[k])
    ensures CodeLines(lines) == lines && ImportLines(lines) == []
  {
    if lines != [] {
      CodeLinesOfCode(lines[..|lines| - 1]);
      assert lines == lines[..|lines| - 1] + [lines[|lines| - 1]];
    }
  }

  /** The strip removes a set of characters, not the word `import`:
      `import token as t` names the contract `ken`. */
  lemma ImportStripsCharacters(line: string)
    requires line == "import token as t"
    ensures ParseImport(line) == Some(("ken", "t"))
  {
    LStripStopsAt(line, IMPORT_STRIP, 9);
    assert line[9..] == "ken" + AS + "t";
    SplitAfterPiece("ken", AS, "t");
    SplitOnShort("t", AS);
  }

  /** Two separators give three pieces, which cannot be unpacked into two. */
  lemma ImportWithTwoSeparatorsFails(line: string)
    requires line == "import a as b as c"
    ensures ParseImport(line).None?
  {
    LStripStopsAt(line, IMPORT_STRIP, 7);
    assert line[7..] == "a" + AS + ("b" + AS + "c");
    SplitAfterPiece("a", AS, "b" + AS + "c");
    SplitAfterPiece("b", AS, "c");
    SplitOnShort("c", AS);
  }
}
