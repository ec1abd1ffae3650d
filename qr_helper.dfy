/**
 * scripts/qr-helper.py: turns the lines of a text picture of a QR code
 * into bitmap rows, `#` for a dark module (`1`) and anything else for a
 * light one (`0`), skipping blank lines.
 */
module QrHelper {
  import opened PyText

  /** `"".join("1" if ch == "#" else "0" for ch in line)`. */
  function Row(line: string): (row: string)
    ensures |row| == |line|
    ensures forall i :: 0 <= i < |line| ==> (row[i] == '1' <==> line[i] == '#')
    ensures forall i :: 0 <= i < |row| ==> row[i] == '0' || row[i] == '1'
  {
    if line == [] then [] else [if line[0] == '#' then '1' else '0'] + Row(line[1..])
  }

  /** `not line.strip()` for the line with its trailing newlines removed. */
  predicate Blank(line: string) {
    Strip(RStripNewlines(line)) == []
  }

  /** A line is skipped exactly when every character of it is whitespace. */
  lemma BlankIffAllSpace(line: string)
    ensures Blank(line) <==> forall i :: 0 <= i < |line| ==> IsSpace(line[i])
  {
    var t := RStripNewlines(line);
    StripEmpty(t);
    if Blank(line) {
      forall i | 0 <= i < |line| ensures IsSpace(line[i]) {
        if i < |t| { assert line[i] == t[i]; }
      }
    } else {
      var i :| 0 <= i < |t| && !IsSpace(t[i]);
      assert line[i] == t[i];
    }
  }

  /** The rows `out` holds after the lines `lines` were read, first to last. */
  function Rows(lines: seq<string>): seq<string>
    decreases |lines|
  {
    if lines == [] then []
    else
      var line := lines[|lines| - 1];
      Rows(lines[..|lines| - 1]) + (if Blank(line) then [] else [Row(RStripNewlines(line))])
  }

  /** The loop over the file: blank lines are skipped and every other line becomes a row. */
  method BuildRows(lines: seq<string>) returns (out: seq<string>)
    ensures out == Rows(lines)
  {
    out := [];
    var i := 0;
    while i < |lines|
      invariant 0 <= i <= |lines|
      invariant out == Rows(lines[..i])
    {
      var line := RStripNewlines(lines[i]);
      assert lines[..i + 1][..i] == lines[..i];
      i := i + 1;
      if Strip(line) == [] {
        continue;
      }
      var row := Row(line);
      out := out + [row];
    }
    assert lines[..|lines|] == lines;
  }

  /** Rows keep the order of their lines: reading more lines only appends. */
  lemma {:induction false} RowsAppend(a: seq<string>, b: seq<string>)
    ensures Rows(a + b) == Rows(a) + Rows(b)
    decreases |b|
  {
    if b == [] {
      assert a + b == a;
    } else {
      var init := b[..|b| - 1];
      assert (a + b)[..|a + b| - 1] == a + init;
      assert (a + b)[|a + b| - 1] == b[|b| - 1];
      RowsAppend(a, init);
    }
  }

  /**
   * One line gives no row when it is all whitespace, and otherwise one
   * row as long as the line without its trailing newlines.
   */
  lemma RowsOfLine(line: string)
    ensures Rows([line]) == [] <==> forall i :: 0 <= i < |line| ==> IsSpace(line[i])
    ensures Rows([line]) != [] ==> Rows([line]) == [Row(RStripNewlines(line))]
    ensures |Rows([line])| <= 1
  {
    BlankIffAllSpace(line);
    assert [line][..0] == [];
  }

  /** The number of lines that are not blank. */
  function Kept(lines: seq<string>): nat
    decreases |lines|
  {
    if lines == [] then 0
    else Kept(lines[..|lines| - 1]) + (if Blank(lines[|lines| - 1]) then 0 else 1)
  }

  /** There is one row per non-blank line. */
  lemma {:induction false} RowsCount(lines: seq<string>)
    ensures |Rows(lines)| == Kept(lines)
    decreases |lines|
  {
    if lines != [] {
      RowsCount(lines[..|lines| - 1]);
    }
  }

  /** Every row is the encoding of a non-blank line, so it is made of `0` and `1` only. */
  lemma {:induction false} RowsFromLines(lines: seq<string>)
    ensures forall k :: 0 <= k < |Rows(lines)| ==>
              exists i :: 0 <= i < |lines| && !Blank(lines[i]) && Rows(lines)[k] == Row(RStripNewlines(lines[i]))
    decreases |lines|
  {
    if lines != [] {
      var init, last := lines[..|lines| - 1], lines[|lines| - 1];
      var rows := Rows(lines);
      assert rows == Rows(init) + (if Blank(last) then [] else [Row(RStripNewlines(last))]);
      RowsFromLines(init);
      forall k | 0 <= k < |Rows(lines)|
        ensures exists i :: 0 <= i < |lines| && !Blank(lines[i]) && Rows(lines)[k] == Row(RStripNewlines(lines[i]))
      {
        if k < |Rows(init)| {
          var i :| 0 <= i < |init| && !Blank(init[i]) && Rows(init)[k] == Row(RStripNewlines(init[i]));
          assert lines[i] == init[i] && rows[k] == Rows(init)[k];
        } else {
          assert !Blank(lines[|lines| - 1]) && rows[k] == Row(RStripNewlines(lines[|lines| - 1]));
        }
      }
    } else {
      assert Rows(lines) == [];
    }
  }

  /** Every character of every row is `0` or `1`. */
  lemma RowsAreBits(lines: seq<string>)
    ensures forall k, j :: 0 <= k < |Rows(lines)| && 0 <= j < |Rows(lines)[k]| ==>
              Rows(lines)[k][j] == '0' || Rows(lines)[k][j] == '1'
  {
    RowsFromLines(lines);
  }
}
