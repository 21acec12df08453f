/**
 * The text transforms of the table editor: CSV export and import of cells,
 * the edit dialog's display and save of a row, and the row delete and save
 * that build the new list of entries.
 *
 * A cell is a number, a string or null. Numbers are integers here and are
 * written in decimal; `+text || 0` reads decimal integer text and gives 0
 * for anything else.
 */
module TableEditor {
  import opened Wrappers

  datatype Cell = Num(n: int) | Str(s: string) | Null

  /** Column formats: the editor only distinguishes string columns from numeric ones. */
  datatype FieldType = StringField | NumberField

  // ---------------------------------------------------------------------
  // String replacement and joining

  /** `s.replace(/pat/g, rep)`: leftmost, non-overlapping occurrences, scanning left to right. */
  function ReplaceAll(s: string, pat: string, rep: string): string
    requires |pat| > 0
    decreases |s|
  {
    if |s| == 0 then ""
    else if pat <= s then rep + ReplaceAll(s[|pat|..], pat, rep)
    else [s[0]] + ReplaceAll(s[1..], pat, rep)
  }

  /** `parts.join(sep)`. */
  function Join(parts: seq<string>, sep: string): string
    decreases |parts|
  {
    if |parts| == 0 then ""
    else if |parts| == 1 then parts[0]
    else parts[0] + sep + Join(parts[1..], sep)
  }

  function Concat(parts: seq<string>): string
    decreases |parts|
  {
    if |parts| == 0 then "" else parts[0] + Concat(parts[1..])
  }

  /** The pieces a joined string falls into when each piece after the first keeps its separator in front. */
  function Separated(parts: seq<string>, sep: string): (r: seq<string>)
    ensures |r| == |parts|
  {
    seq(|parts|, i requires 0 <= i < |parts| => if i == 0 then parts[0] else sep + parts[i])
  }

  /** A joined string is the concatenation of its separated pieces. */
  lemma {:induction false} JoinIsConcat(parts: seq<string>, sep: string)
    ensures Join(parts, sep) == Concat(Separated(parts, sep))
    decreases |parts|
  {
    if |parts| >= 2 {
      var rest := parts[1..];
      JoinIsConcat(rest, sep);
      var pieces := Separated(parts, sep);
      var tail := Separated(rest, sep);
      assert pieces[1..][0] == sep + tail[0];
      assert pieces[1..][1..] == tail[1..];
      assert Concat(pieces[1..]) == sep + Concat(tail) by {
        assert Concat(pieces[1..]) == sep + tail[0] + Concat(tail[1..]);
      }
    } else if |parts| == 1 {
      var pieces := Separated(parts, sep);
      assert pieces[1..] == [];
    }
  }

  // ---------------------------------------------------------------------
  // Decimal numbers

  /** The decimal digit character for `d`. */
  function DigitChar(d: int): char
    requires 0 <= d < 10
  {
    ('0' as int + d) as char
  }

  predicate IsDigit(c: char) {
    '0' <= c <= '9'
  }

  function DigitValue(c: char): int
    requires IsDigit(c)
  {
    c as int - '0' as int
  }

  /** `"" + n` for a natural number. */
  function NatText(n: nat): (t: string)
    ensures |t| > 0 && forall i :: 0 <= i < |t| ==> IsDigit(t[i])
    decreases n
  {
    if n < 10 then [DigitChar(n)] else NatText(n / 10) + [DigitChar(n % 10)]
  }

  /** `"" + n`. */
  function IntText(n: int): string {
    if n < 0 then "-" + NatText(-n) else NatText(n)
  }

  predicate AllDigits(s: string) {
    forall i :: 0 <= i < |s| ==> IsDigit(s[i])
  }

  function DigitsValue(s: string): nat
    requires AllDigits(s)
    decreases |s|
  {
    if |s| == 0 then 0 else DigitsValue(s[..|s| - 1]) * 10 + DigitValue(s[|s| - 1])
  }

  /** `+text` on decimal integer text; None stands for NaN. */
  function ToNumber(s: string): Option<int> {
    if |s| == 0 then Some(0)
    else if s[0] == '-' then (if |s| > 1 && AllDigits(s[1..]) then Some(0 - DigitsValue(s[1..]) as int) else None)
    else if AllDigits(s) then Some(DigitsValue(s))
    else None
  }

  /** `+text || 0`. */
  function NumberValue(s: string): int {
    ToNumber(s).GetOr(0)
  }

  lemma {:induction false} NatTextValue(n: nat)
    ensures DigitsValue(NatText(n)) == n
    decreases n
  {
    if n >= 10 {
      NatTextValue(n / 10);
      var t := NatText(n);
      assert t[..|t| - 1] == NatText(n / 10);
    }
  }

  /** Writing a number and reading it back gives the number. */
  lemma NumberRoundTrip(n: int)
    ensures NumberValue(IntText(n)) == n
  {
    if n < 0 {
      NegativeRoundTrip(n);
    } else {
      var t := NatText(n);
      NatTextValue(n);
      assert IsDigit(t[0]);
    }
  }

  /** A negative number reads back through its minus sign. */
  lemma NegativeRoundTrip(n: int)
    requires n < 0
    ensures NumberValue(IntText(n)) == n
  {
    var t := NatText(-n);
    NegativeText(n);
    NatTextValue(-n);
    NegativeValue(t);
    assert NumberValue(IntText(n)) == NumberValue("-" + t);
  }

  /** A negative number is written as a minus sign and its magnitude. */
  lemma NegativeText(n: int)
    requires n < 0
    ensures IntText(n) == "-" + NatText(-n)
  {
  }

  /** A minus sign followed by digits reads as the negated value of the digits. */
  lemma NegativeValue(t: string)
    requires |t| > 0 && AllDigits(t)
    ensures NumberValue("-" + t) == 0 - DigitsValue(t)
  {
    var s := "-" + t;
    assert s[1..] == t;
  }

  // ---------------------------------------------------------------------
  // CSV

  predicate NeedsQuotes(s: string) {
    ',' in s || '\n' in s || '"' in s
  }

  /** The text one cell is exported as. */
  function ExportCell(c: Cell): (t: string)
    ensures NeedsQuotes(t) ==> c.Str? && NeedsQuotes(c.s) && |t| >= 2 && t[0] == '"' && t[|t| - 1] == '"'
  {
    match c
    case Num(n) =>
      assert !NeedsQuotes(IntText(n)) by {
        if n < 0 {
          assert forall i :: 1 <= i < |IntText(n)| ==> IntText(n)[i] == NatText(-n)[i - 1];
        }
      }
      IntText(n)
    case Null => "[null]"
    case Str(s) => if NeedsQuotes(s) then "\"" + ReplaceAll(s, "\"", "\"\"") + "\"" else s
  }

  function ExportRow(row: seq<Cell>): string {
    Join(seq(|row|, i requires 0 <= i < |row| => ExportCell(row[i])), ",")
  }

  /** Export CSV: cells joined by commas, rows by newlines. */
  function ExportCsv(entries: seq<seq<Cell>>): string {
    Join(seq(|entries|, i requires 0 <= i < |entries| => ExportRow(entries[i])), "\n")
  }

  /** The cell a matched piece of a CSV row is imported as. */
  function ImportCell(colText: string, isString: bool): Cell {
    var t := if |colText| > 0 && colText[0] == ',' then colText[1..] else colText;
    // `substring(1, length - 1)` swaps its bounds when the text is a lone quote
    var u := if |t| > 0 && t[0] == '"' then ReplaceAll(if |t| == 1 then t else t[1..|t| - 1], "\"\"", "\"") else t;
    if !isString then Num(NumberValue(u))
    else if u == "[null]" then Null
    else Str(u)
  }

  function IsStringColumn(formats: seq<FieldType>, col: int): bool {
    0 <= col < |formats| && formats[col] == StringField
  }

  /** The cells of one imported row, from the pieces the row pattern matched. */
  function ImportRow(formats: seq<FieldType>, colTexts: seq<string>): (row: seq<Cell>)
    ensures |row| == |colTexts|
  {
    seq(|colTexts|, i requires 0 <= i < |colTexts| => ImportCell(colTexts[i], IsStringColumn(formats, i)))
  }

  /** Doubling quotes and then halving doubled quotes gives the string back. */
  lemma {:induction false} QuoteRoundTrip(s: string)
    ensures ReplaceAll(ReplaceAll(s, "\"", "\"\""), "\"\"", "\"") == s
    decreases |s|
  {
    if |s| > 0 {
      QuoteRoundTrip(s[1..]);
      var q := ReplaceAll(s[1..], "\"", "\"\"");
      if s[0] == '"' {
        assert ReplaceAll(s, "\"", "\"\"") == "\"\"" + q;
        assert ("\"\"" + q)[2..] == q;
      } else {
        assert ReplaceAll(s, "\"", "\"\"") == [s[0]] + q;
        assert ([s[0]] + q)[1..] == q;
      }
    }
  }

  /** A cell suits its column: strings and null in string columns, numbers elsewhere. */
  predicate Fits(c: Cell, isString: bool) {
    if isString then !c.Num? else c.Num?
  }

  /**
   * Importing an exported cell gives the cell back, with or without the
   * comma that precedes every cell but the first; the one exception is the
   * string "[null]", which reads back as null.
   */
  lemma CellRoundTrip(c: Cell, isString: bool)
    requires Fits(c, isString) && c != Str("[null]")
    ensures ImportCell(ExportCell(c), isString) == c
    ensures ImportCell("," + ExportCell(c), isString) == c
  {
    match c
    case Num(n) => NumCellRoundTrip(n);
    case Null => assert ("," + ExportCell(c))[1..] == ExportCell(c);
    case Str(s) => StrCellRoundTrip(s);
  }

  /** A number column's cell reads back as the same number. */
  lemma NumCellRoundTrip(n: int)
    ensures ImportCell(ExportCell(Num(n)), false) == Num(n)
    ensures ImportCell("," + ExportCell(Num(n)), false) == Num(n)
  {
    assert ("," + ExportCell(Num(n)))[1..] == ExportCell(Num(n));
    NumberRoundTrip(n);
    if n < 0 {
      assert IntText(n)[0] == '-';
    } else {
      assert IsDigit(IntText(n)[0]);
    }
  }

  /** A string column's cell reads back as the same string, quoted or not. */
  lemma StrCellRoundTrip(s: string)
    requires s != "[null]"
    ensures ImportCell(ExportCell(Str(s)), true) == Str(s)
    ensures ImportCell("," + ExportCell(Str(s)), true) == Str(s)
  {
    assert ("," + ExportCell(Str(s)))[1..] == ExportCell(Str(s));
    if NeedsQuotes(s) {
      QuotedCellRoundTrip(s);
    } else {
      PlainCellRoundTrip(s);
    }
  }

  /** A string with a comma, newline or quote is exported quoted and reads back unquoted. */
  lemma QuotedCellRoundTrip(s: string)
    requires NeedsQuotes(s)
    ensures ImportCell(ExportCell(Str(s)), true) == Str(s)
  {
    var q := ReplaceAll(s, "\"", "\"\"");
    var t := "\"" + q + "\"";
    assert ExportCell(Str(s)) == t;
    assert t[0] != ',' && t[0] == '"' && |t| > 1;
    assert t[1..|t| - 1] == q;
    QuoteRoundTrip(s);
    NullNeedsNoQuotes();
    assert ReplaceAll(if |t| == 1 then t else t[1..|t| - 1], "\"\"", "\"") == s;
  }

  /** The null sentinel has nothing that would make it quoted. */
  lemma NullNeedsNoQuotes()
    ensures !NeedsQuotes("[null]")
  {
  }

  /** Any other string is exported as itself and reads back as itself. */
  lemma PlainCellRoundTrip(s: string)
    requires !NeedsQuotes(s) && s != "[null]"
    ensures ImportCell(ExportCell(Str(s)), true) == Str(s)
  {
    if |s| > 0 {
      assert s[0] in s;
    }
  }

  /** A row exported and matched cell by cell imports as the same row. */
  lemma RowRoundTrip(formats: seq<FieldType>, row: seq<Cell>)
    requires forall i :: 0 <= i < |row| ==> Fits(row[i], IsStringColumn(formats, i)) && row[i] != Str("[null]")
    ensures var texts := seq(|row|, i requires 0 <= i < |row| => ExportCell(row[i]));
            ExportRow(row) == Concat(Separated(texts, ",")) &&
            ImportRow(formats, Separated(texts, ",")) == row
  {
    var texts := seq(|row|, i requires 0 <= i < |row| => ExportCell(row[i]));
    JoinIsConcat(texts, ",");
    var pieces := Separated(texts, ",");
    forall i | 0 <= i < |row|
      ensures ImportRow(formats, pieces)[i] == row[i]
    {
      CellRoundTrip(row[i], IsStringColumn(formats, i));
    }
  }

  // ---------------------------------------------------------------------
  // The edit dialog

  /** How a cell shows in the dialog: line breaks marked `[br]`, `[next]` set on a line of its own. */
  function DisplayText(c: Cell): string {
    match c
    case Str(s) => NextLayout(ReplaceAll(s, "\n", "[br]\n"))
    case Num(n) => IntText(n)
    case Null => "[null]"
  }

  function DisplayRow(row: seq<Cell>): (values: seq<string>)
    ensures |values| == |row|
  {
    seq(|row|, i requires 0 <= i < |row| => DisplayText(row[i]))
  }

  /** The value a dialog field is saved as; a missing field is `None`. */
  function SavedField(isString: bool, text: Option<string>): (c: Cell)
    ensures Fits(c, isString)
  {
    if isString then
      if text.None? || text.value == "[null]" then Null
      else Str(ReplaceAll(ReplaceAll(text.value, "\n", ""), "[br]", "\n"))
    else Num(if text.None? then 0 else NumberValue(text.value))
  }

  /** The row saved from the dialog's fields, one cell per column of the table's format. */
  function SavedRow(formats: seq<FieldType>, values: seq<string>): (row: seq<Cell>)
    ensures |row| == |formats|
    ensures forall i :: 0 <= i < |formats| ==> Fits(row[i], formats[i] == StringField)
  {
    seq(|formats|, i requires 0 <= i < |formats| =>
      SavedField(formats[i] == StringField, if i < |values| then Some(values[i]) else None))
  }

  function Drop(s: string): string {
    ReplaceAll(s, "\n", "")
  }

  lemma {:induction false} DropAppend(a: string, b: string)
    ensures Drop(a + b) == Drop(a) + Drop(b)
    decreases |a|
  {
    if |a| == 0 {
      assert a + b == b;
    } else {
      DropAppend(a[1..], b);
      assert (a + b)[1..] == a[1..] + b;
      assert (a + b)[0] == a[0];
    }
  }

  /** The `[next]` layout of a text. */
  function NextLayout(x: string): string {
    ReplaceAll(x, "[next]", "\n[next]\n")
  }

  /** Dropping line breaks from the laid-out marker gives the bare marker. */
  lemma NextMarkerDrop()
    ensures Drop("\n[next]\n") == "[next]" && Drop("[next]") == "[next]"
  {
    var m := "[next]";
    assert forall i :: 0 <= i < |m| ==> m[i] != '\n';
    NoNewlineFixed(m);
    assert "\n[next]\n" == "\n" + (m + "\n");
    DropAppend("\n", m + "\n");
    DropAppend(m, "\n");
  }

  /** Dropping the newlines undoes the `[next]` layout. */
  lemma {:induction false} DropNextLayout(x: string)
    ensures Drop(NextLayout(x)) == Drop(x)
    decreases |x|
  {
    if |x| > 0 {
      if "[next]" <= x {
        var rest := x[6..];
        DropNextLayout(rest);
        assert NextLayout(x) == "\n[next]\n" + NextLayout(rest);
        DropAppend("\n[next]\n", NextLayout(rest));
        assert x == "[next]" + rest;
        DropAppend("[next]", rest);
        NextMarkerDrop();
      } else {
        var rest := x[1..];
        DropNextLayout(rest);
        assert NextLayout(x) == [x[0]] + NextLayout(rest);
        DropAppend([x[0]], NextLayout(rest));
        assert x == [x[0]] + rest;
        DropAppend([x[0]], rest);
      }
    }
  }

  function Marked(s: string): string {
    ReplaceAll(s, "\n", "[br]")
  }

  /** Dropping the newlines of the `[br]` layout leaves `[br]` where each line break was. */
  lemma {:induction false} DropBreakLayout(s: string)
    ensures Drop(ReplaceAll(s, "\n", "[br]\n")) == Marked(s)
    decreases |s|
  {
    if |s| > 0 {
      var rest := s[1..];
      DropBreakLayout(rest);
      if s[0] == '\n' {
        DropAppend("[br]\n", ReplaceAll(rest, "\n", "[br]\n"));
        NoNewlineFixed("[br]");
        DropAppend("[br]", "\n");
      } else {
        DropAppend([s[0]], ReplaceAll(rest, "\n", "[br]\n"));
      }
    }
  }

  /** A literal `[br]` starts at index `i`. */
  predicate BrAt(s: string, i: int) {
    0 <= i && i + 4 <= |s| && s[i] == '[' && s[i + 1] == 'b' && s[i + 2] == 'r' && s[i + 3] == ']'
  }

  ghost predicate NoBr(s: string) {
    forall i :: !BrAt(s, i)
  }

  /** Text without line breaks is left alone by dropping them and by marking them. */
  lemma {:induction false} NoNewlineFixed(s: string)
    requires '\n' !in s
    ensures Drop(s) == s && Marked(s) == s
    decreases |s|
  {
    if |s| > 0 {
      assert s[0] != '\n';
      assert '\n' !in s[1..] by {
        forall i | 0 <= i < |s[1..]|
          ensures s[1..][i] != '\n'
        {
          assert s[1..][i] == s[i + 1];
        }
      }
      NoNewlineFixed(s[1..]);
    }
  }

  /** The text `[null]` holds no line break and no `[br]`, so saving leaves it as it is. */
  lemma NullTextFixed()
    ensures Drop("[null]") == "[null]" && Marked("[null]") == "[null]"
    ensures ReplaceAll("[null]", "[br]", "\n") == "[null]"
  {
    var t := "[null]";
    assert forall i :: 0 <= i < |t| ==> t[i] != '\n';
    NoNewlineFixed(t);
    forall i
      ensures !BrAt(t, i)
    {
      if 0 <= i && i + 4 <= |t| {
        assert i == 0 || i == 1 || i == 2;
      }
    }
    UnmarkMarked(t);
  }

  /** A prefix without `[` or newline seen in the marked text was already in the text. */
  lemma {:induction false} MarkedPrefix(s: string, p: string)
    requires forall i :: 0 <= i < |p| ==> p[i] != '[' && p[i] != '\n'
    requires p <= Marked(s)
    ensures p <= s
    decreases |p|
  {
    if |p| > 0 {
      assert |s| > 0;
      assert Marked(s)[0] == (if s[0] == '\n' then '[' else s[0]);
      assert Marked(s) == [s[0]] + Marked(s[1..]);
      MarkedPrefix(s[1..], p[1..]);
    }
  }

  /** Turning `[br]` back into line breaks undoes the marking, if the text had no `[br]` of its own. */
  lemma {:induction false} UnmarkMarked(s: string)
    requires NoBr(s)
    ensures ReplaceAll(Marked(s), "[br]", "\n") == s
    decreases |s|
  {
    if |s| > 0 {
      var rest := s[1..];
      assert NoBr(rest) by {
        forall i
          ensures !BrAt(rest, i)
        {
          assert !BrAt(s, i + 1);
        }
      }
      UnmarkMarked(rest);
      if s[0] == '\n' {
        assert Marked(s) == "[br]" + Marked(rest);
        assert ("[br]" + Marked(rest))[4..] == Marked(rest);
      } else {
        assert Marked(s) == [s[0]] + Marked(rest);
        if "[br]" <= Marked(s) {
          assert Marked(s)[1..4] == Marked(rest)[..3];
          assert "br]" <= Marked(rest);
          MarkedPrefix(rest, "br]");
          assert BrAt(s, 0);
        }
        assert ([s[0]] + Marked(rest))[1..] == Marked(rest);
      }
    }
  }

  /**
   * Saving a string field unedited restores the original string, provided
   * it has no literal `[br]` and is not the text `[null]`.
   */
  lemma SaveDisplayedString(s: string)
    requires NoBr(s) && s != "[null]"
    ensures SavedField(true, Some(DisplayText(Str(s)))) == Str(s)
  {
    var shown := DisplayText(Str(s));
    DropNextLayout(ReplaceAll(s, "\n", "[br]\n"));
    DropBreakLayout(s);
    UnmarkMarked(s);
    NullTextFixed();
  }

  /** Saving an unedited row restores it, under the same conditions on its strings. */
  lemma SaveDisplayedRow(formats: seq<FieldType>, row: seq<Cell>)
    requires |row| == |formats|
    requires forall i :: 0 <= i < |row| ==> Fits(row[i], formats[i] == StringField)
    requires forall i :: 0 <= i < |row| && row[i].Str? ==> NoBr(row[i].s) && row[i].s != "[null]"
    ensures SavedRow(formats, DisplayRow(row)) == row
  {
    forall i | 0 <= i < |row|
      ensures SavedRow(formats, DisplayRow(row))[i] == row[i]
    {
      match row[i]
      case Str(s) => SaveDisplayedString(s);
      case Num(n) => NumberRoundTrip(n);
      case Null =>
    }
  }

  // ---------------------------------------------------------------------
  // Row delete and save

  /** Delete: a copy of the entries without the dialog's row. */
  function Deleted(entries: seq<seq<Cell>>, row: nat): (r: seq<seq<Cell>>)
    requires row < |entries|
    ensures |r| == |entries| - 1
    ensures forall j :: 0 <= j < row ==> r[j] == entries[j]
    ensures forall j :: row <= j < |r| ==> r[j] == entries[j + 1]
  {
    entries[..row] + entries[row + 1..]
  }

  /** Save: a copy of the entries with the dialog's row overwritten, or appended when the row is new. */
  function SavedAt(entries: seq<seq<Cell>>, row: nat, cells: seq<Cell>): (r: seq<seq<Cell>>)
    requires row <= |entries|
    ensures row < |entries| ==> |r| == |entries| && r[row] == cells &&
                                forall j :: 0 <= j < |entries| && j != row ==> r[j] == entries[j]
    ensures row == |entries| ==> |r| == |entries| + 1 && r[..row] == entries && r[row] == cells
  {
    if row < |entries| then entries[row := cells] else entries + [cells]
  }

  /** Deleting takes out exactly one row, the one being edited. */
  lemma DeletedRemovesOne(entries: seq<seq<Cell>>, row: nat)
    requires row < |entries|
    ensures multiset(Deleted(entries, row)) + multiset{entries[row]} == multiset(entries)
  {
    assert entries == entries[..row] + [entries[row]] + entries[row + 1..];
  }

  /** Adding a row and then deleting it gives the entries back. */
  lemma AddThenDelete(entries: seq<seq<Cell>>, cells: seq<Cell>)
    ensures Deleted(SavedAt(entries, |entries|, cells), |entries|) == entries
  {
  }

  /** Opening a row and saving it unedited leaves the entries as they were. */
  lemma SaveUneditedRow(formats: seq<FieldType>, entries: seq<seq<Cell>>, row: nat)
    requires row < |entries| && |entries[row]| == |formats|
    requires forall i :: 0 <= i < |formats| ==> Fits(entries[row][i], formats[i] == StringField)
    requires forall i :: 0 <= i < |formats| && entries[row][i].Str? ==> NoBr(entries[row][i].s) && entries[row][i].s != "[null]"
    ensures SavedAt(entries, row, SavedRow(formats, DisplayRow(entries[row]))) == entries
  {
    SaveDisplayedRow(formats, entries[row]);
  }
}
