/**
 * CSV output of virt-filesystems, and a reader that follows section 2 of RFC 4180 with
 * line feeds as record separators and carriage returns as data.
 */
module Csv {
  import opened Wrappers
  import opened Seqs

  datatype Cell = Null | Text(s: string)

  // ---------- what is printed

  predicate Special(c: char) { c == ' ' || c == '"' || c == '\n' || c == ',' }

  predicate NeedsQuoting(s: string) { exists i :: 0 <= i < |s| && Special(s[i]) }

  function Doubled(s: string): string {
    if s == "" then "" else Doubled(s[..|s| - 1]) + if s[|s| - 1] == '"' then "\"\"" else [s[|s| - 1]]
  }

  function FieldText(s: string): string {
    if NeedsQuoting(s) then "\"" + Doubled(s) + "\"" else s
  }

  function CellText(c: Cell): string { if c.Null? then "" else FieldText(c.s) }

  /** The cells of a row separated by commas, then a newline; a row without cells is a bare newline. */
  function RowText(row: seq<Cell>): string {
    if row == [] then "\n" else CellText(row[0]) + RowTail(row[1..])
  }

  function RowTail(row: seq<Cell>): string {
    if row == [] then "\n" else "," + (CellText(row[0]) + RowTail(row[1..]))
  }

  function RowsText(rows: seq<seq<Cell>>): string {
    if rows == [] then "" else RowText(rows[0]) + RowsText(rows[1..])
  }

  /** write_csv_field */
  method WriteCsvField(field: string) returns (text: string)
    ensures text == FieldText(field)
  {
    var needsQuoting := false;
    var i := 0;
    while i < |field|
      invariant 0 <= i <= |field| && !needsQuoting
      invariant forall k :: 0 <= k < i ==> !Special(field[k])
    {
      if field[i] == ' ' || field[i] == '"' || field[i] == '\n' || field[i] == ',' {
        needsQuoting := true;
        break;
      }
      i := i + 1;
    }
    if !needsQuoting {
      return field;
    }
    assert Special(field[i]);
    text := "\"";
    i := 0;
    while i < |field|
      invariant 0 <= i <= |field| && text == "\"" + Doubled(field[..i])
    {
      assert field[..i + 1][..i] == field[..i];
      if field[i] == '"' {
        text := text + "\"" + "\"";
      } else {
        text := text + [field[i]];
      }
      i := i + 1;
    }
    TakeAll(field);
    text := text + "\"";
  }

  /** write_row_strings in CSV mode */
  method WriteRowStrings(strings: seq<Cell>) returns (text: string)
    ensures text == RowText(strings)
  {
    text := "";
    var i := 0;
    assert "" + RowText(strings) == RowText(strings);
    while i < |strings|
      invariant 0 <= i <= |strings| && text + Left(strings, i) == RowText(strings)
    {
      RowStep(strings, i, text);
      if i > 0 {
        text := text + ",";
      }
      if strings[i].Text? {
        var f := WriteCsvField(strings[i].s);
        text := text + f;
      }
      i := i + 1;
    }
    text := text + "\n";
  }

  /** What is still to be printed of a row before its i-th cell. */
  function Left(row: seq<Cell>, i: nat): string
    requires i <= |row|
  {
    if i == 0 then RowText(row) else RowTail(row[i..])
  }

  function Printed(before: string, row: seq<Cell>, i: nat): string
    requires i < |row|
  {
    var s := if i > 0 then before + "," else before;
    if row[i].Null? then s else s + FieldText(row[i].s)
  }

  lemma {:induction false} RowStep(row: seq<Cell>, i: nat, before: string)
    requires i < |row| && before + Left(row, i) == RowText(row)
    ensures Printed(before, row, i) + Left(row, i + 1) == RowText(row)
  {
    var cell, tail := CellText(row[i]), RowTail(row[i + 1..]);
    assert i > 0 ==> row[i..][1..] == row[i + 1..];
    Assemble(before, ",", cell, tail);
    Assemble(before, "", cell, tail);
    assert before + "," + "" == before + "," && before + "" == before;
  }

  lemma {:induction false} Assemble(before: string, comma: string, cell: string, tail: string)
    ensures before + (comma + (cell + tail)) == before + comma + cell + tail
    ensures before + (cell + tail) == before + cell + tail
  {
  }

  // ---------- the reader

  /** Inside quotes: up to the quote that is not doubled. */
  function ReadQuoted(s: string): (r: Option<(string, string)>)
    ensures r.Some? ==> |r.value.1| < |s|
  {
    if s == "" then None
    else if s[0] != '"' then
      match ReadQuoted(s[1..])
      case None => None
      case Some((f, rest)) => Some(([s[0]] + f, rest))
    else if |s| > 1 && s[1] == '"' then
      match ReadQuoted(s[2..])
      case None => None
      case Some((f, rest)) => Some(("\"" + f, rest))
    else Some(("", s[1..]))
  }

  /** Outside quotes: up to a comma or a line feed; a quote in between is malformed. */
  function ReadPlain(s: string): (r: Option<(string, string)>)
    ensures r.Some? ==> |r.value.1| <= |s|
  {
    if s == "" || s[0] == '"' then None
    else if s[0] == ',' || s[0] == '\n' then Some(("", s))
    else
      match ReadPlain(s[1..])
      case None => None
      case Some((f, rest)) => Some(([s[0]] + f, rest))
  }

  function ReadField(s: string): (r: Option<(string, string)>)
    ensures r.Some? ==> |r.value.1| <= |s|
  {
    if s != "" && s[0] == '"' then ReadQuoted(s[1..]) else ReadPlain(s)
  }

  function ReadRow(s: string): (r: Option<(seq<string>, string)>)
    ensures r.Some? ==> |r.value.1| < |s|
    decreases |s|
  {
    match ReadField(s)
    case None => None
    case Some((f, rest)) =>
      if rest == "" then None
      else if rest[0] == '\n' then Some(([f], rest[1..]))
      else if rest[0] != ',' then None
      else
        match ReadRow(rest[1..])
        case None => None
        case Some((fs, rest)) => Some(([f] + fs, rest))
  }

  function ReadRows(s: string): Option<seq<seq<string>>>
    decreases |s|
  {
    if s == "" then Some([])
    else
      match ReadRow(s)
      case None => None
      case Some((row, rest)) =>
        match ReadRows(rest)
        case None => None
        case Some(rows) => Some([row] + rows)
  }

  // ---------- round trip

  predicate Delimited(t: string) { t != "" && (t[0] == ',' || t[0] == '\n') }

  lemma {:induction false} DoubledCons(c: char, s: string)
    ensures Doubled([c] + s) == (if c == '"' then "\"\"" else [c]) + Doubled(s)
  {
    if s == "" {
      assert [c] + s == [c] && [c][..0] == "";
      assert (if c == '"' then "\"\"" else [c]) + "" == if c == '"' then "\"\"" else [c];
    } else {
      var n := |s| - 1;
      DoubledCons(c, s[..n]);
      assert ([c] + s)[..|s|] == [c] + s[..n];
    }
  }

  lemma {:induction false} QuotedRoundTrip(s: string, t: string)
    requires Delimited(t)
    ensures ReadQuoted(Doubled(s) + ("\"" + t)) == Some((s, t))
  {
    if s == "" {
      var u := "" + ("\"" + t);
      assert u == "\"" + t;
      assert u[1..] == t;
    } else {
      var c, r := s[0], s[1..];
      assert s == [c] + r;
      DoubledCons(c, r);
      QuotedRoundTrip(r, t);
      QuotedStep(c, Doubled(r) + ("\"" + t));
      Concat(if c == '"' then "\"\"" else [c], Doubled(r), "\"" + t);
    }
  }

  lemma {:induction false} QuotedStep(c: char, u: string)
    requires ReadQuoted(u).Some?
    ensures ReadQuoted((if c == '"' then "\"\"" else [c]) + u) ==
            Some(([c] + ReadQuoted(u).value.0, ReadQuoted(u).value.1))
  {
    if c == '"' {
      var v := "\"\"" + u;
      assert v[0] == '"' && v[1] == '"' && v[2..] == u;
    } else {
      assert ([c] + u)[1..] == u;
    }
  }

  lemma {:induction false} PlainRoundTrip(s: string, t: string)
    requires Delimited(t) && forall i :: 0 <= i < |s| ==> !Special(s[i])
    ensures ReadPlain(s + t) == Some((s, t))
  {
    if s == "" {
      assert s + t == t;
    } else {
      PlainRoundTrip(s[1..], t);
      assert (s + t)[1..] == s[1..] + t && s == [s[0]] + s[1..];
      assert !Special(s[0]);
    }
  }

  lemma {:induction false} FieldRoundTrip(s: string, t: string)
    requires Delimited(t)
    ensures ReadField(FieldText(s) + t) == Some((s, t))
  {
    if NeedsQuoting(s) {
      var u := "\"" + Doubled(s) + "\"" + t;
      assert u == "\"" + (Doubled(s) + ("\"" + t));
      assert u[1..] == Doubled(s) + ("\"" + t);
      QuotedRoundTrip(s, t);
    } else {
      PlainRoundTrip(s, t);
      if s == "" {
        assert s + t == t;
      } else {
        assert !Special(s[0]);
      }
    }
  }

  function Shown(c: Cell): string { if c.Null? then "" else c.s }

  function ShownRow(row: seq<Cell>): seq<string> {
    if row == [] then [] else [Shown(row[0])] + ShownRow(row[1..])
  }

  function ShownRows(rows: seq<seq<Cell>>): seq<seq<string>> {
    if rows == [] then [] else [ShownRow(rows[0])] + ShownRows(rows[1..])
  }

  lemma {:induction false} CellRoundTrip(c: Cell, t: string)
    requires Delimited(t)
    ensures ReadField(CellText(c) + t) == Some((Shown(c), t))
  {
    FieldRoundTrip(Shown(c), t);
    assert FieldText("") == "";
  }

  lemma {:induction false} RowRoundTrip(row: seq<Cell>, t: string)
    requires row != []
    ensures ReadRow(RowText(row) + t) == Some((ShownRow(row), t))
  {
    var rest := row[1..];
    var u := RowTail(rest) + t;
    Concat(CellText(row[0]), RowTail(rest), t);
    if rest == [] {
      assert u == "\n" + t && u[1..] == t;
      CellRoundTrip(row[0], u);
      assert ShownRow(row) == [Shown(row[0])] + [] == [Shown(row[0])];
      assert RowText(row) + t == CellText(row[0]) + u;
    } else {
      RowRoundTrip(rest, t);
      Concat(",", RowText(rest), t);
      assert u == "," + (RowText(rest) + t) && u[1..] == RowText(rest) + t;
      CellRoundTrip(row[0], u);
    }
  }

  /** The reader recovers every list of non-empty rows, with NULL read back as the empty string. */
  lemma {:induction false} RowsRoundTrip(rows: seq<seq<Cell>>)
    requires forall k :: 0 <= k < |rows| ==> rows[k] != []
    ensures ReadRows(RowsText(rows)) == Some(ShownRows(rows))
  {
    if rows != [] {
      RowsRoundTrip(rows[1..]);
      RowRoundTrip(rows[0], RowsText(rows[1..]));
    }
  }
}
