/**
 * columnize: turns lines of delimiter-separated fields into text whose
 * columns line up. Each line is split on the delimiter and its fields are
 * trimmed; a width table records, per column, the widest visible field of
 * any line; every field but a line's last is padded to its column's width
 * and followed by the glue; each line starts with the prefix and ends in a
 * newline, and the output drops its one trailing newline.
 */
module Columnize {
  import opened Wrappers
  import opened GoStrings
  import opened GoFmt
  import opened ColorCodes

  function Max(a: nat, b: nat): nat { if a < b then b else a }
  function Min(a: nat, b: nat): nat { if a < b then a else b }

  // ---------------------------------------------------------------------
  // Configuration
  // ---------------------------------------------------------------------

  /**
   * Config: the delimiter lines are split on, the glue written between
   * output columns, the prefix written before each line, and the text that
   * stands in for an empty field.
   */
  datatype Config = Config(delim: string, glue: string, prefix: string, empty: string)

  /** DefaultConfig: split on `|`, glue with two spaces, no prefix, no placeholder. */
  function DefaultConfig(): (c: Config)
    ensures c.delim == "|" && c.glue == "  "
    ensures c.prefix == "" && c.empty == ""
  {
    Config("|", "  ", "", "")
  }

  /** One field of a merge: the override when it is set, the base value otherwise. */
  function Override(base: string, over: string): string {
    if over != "" then over else base
  }

  /**
   * The merge of configurations: every field of `b` that is set replaces
   * the same field of `a`; with no `b`, the result is `a`.
   */
  function Merge(a: Config, b: Option<Config>): (r: Config)
    ensures b.None? ==> r == a
    ensures b.Some? ==> r.delim == (if b.value.delim != "" then b.value.delim else a.delim)
    ensures b.Some? ==> r.glue == (if b.value.glue != "" then b.value.glue else a.glue)
    ensures b.Some? ==> r.prefix == (if b.value.prefix != "" then b.value.prefix else a.prefix)
    ensures b.Some? ==> r.empty == (if b.value.empty != "" then b.value.empty else a.empty)
  {
    match b
    case None => a
    case Some(o) =>
      Config(Override(a.delim, o.delim), Override(a.glue, o.glue),
             Override(a.prefix, o.prefix), Override(a.empty, o.empty))
  }

  /**
   * MergeConfig: copies `a` and overwrites each field for which `b` has a
   * non-empty value. `a` is a value, so it cannot be changed by the merge.
   */
  method MergeConfig(a: Config, b: Option<Config>) returns (result: Config)
    ensures result == Merge(a, b)
  {
    result := a;
    if b.None? {
      return;
    }
    var o := b.value;
    if o.delim != "" {
      result := result.(delim := o.delim);
    }
    if o.glue != "" {
      result := result.(glue := o.glue);
    }
    if o.prefix != "" {
      result := result.(prefix := o.prefix);
    }
    if o.empty != "" {
      result := result.(empty := o.empty);
    }
  }

  /** A merge never empties a field: an override only replaces it with a non-empty string. */
  lemma MergeKeepsSet(a: Config, b: Option<Config>)
    ensures a.delim != "" ==> Merge(a, b).delim != ""
    ensures a.glue != "" ==> Merge(a, b).glue != ""
    ensures a.prefix != "" ==> Merge(a, b).prefix != ""
    ensures a.empty != "" ==> Merge(a, b).empty != ""
  {
  }

  /** Merging any configuration over the defaults leaves a usable delimiter and glue. */
  lemma MergedDefaultsUsable(config: Option<Config>)
    ensures Merge(DefaultConfig(), config).delim != ""
    ensures Merge(DefaultConfig(), config).glue != ""
  {
    MergeKeepsSet(DefaultConfig(), config);
  }

  /** Merging twice in a row equals merging once with the two overrides merged first. */
  lemma MergeAssociative(a: Config, b: Config, c: Config)
    ensures Merge(Merge(a, Some(b)), Some(c)) == Merge(a, Some(Merge(b, Some(c))))
  {
  }

  /** Applying the same override twice changes nothing more. */
  lemma MergeIdempotent(a: Config, b: Config)
    ensures Merge(Merge(a, Some(b)), Some(b)) == Merge(a, Some(b))
  {
  }

  // ---------------------------------------------------------------------
  // Splitting a line into elements
  // ---------------------------------------------------------------------

  /** One element: the trimmed field, or the placeholder when the field is blank and one is set. */
  function Element(c: Config, field: string): string {
    var value := TrimSpace(field);
    if value == "" && c.empty != "" then c.empty else value
  }

  /** The elements of the given fields, in order. */
  function ElementsOf(c: Config, fields: seq<string>): (es: seq<string>)
    ensures |es| == |fields|
  {
    seq(|fields|, k requires 0 <= k < |fields| => Element(c, fields[k]))
  }

  /** The elements of a line. */
  function Elements(c: Config, line: string): seq<string>
    requires c.delim != ""
  {
    ElementsOf(c, Split(line, c.delim))
  }

  /** getElementsFromLine: splits the line on the delimiter and converts each field in turn. */
  method GetElementsFromLine(config: Config, line: string) returns (elements: seq<string>)
    requires config.delim != ""
    ensures elements == Elements(config, line)
  {
    var fields := Split(line, config.delim);
    elements := [];
    for i := 0 to |fields|
      invariant elements == ElementsOf(config, fields[..i])
    {
      var value := TrimSpace(fields[i]);
      if value == "" && config.empty != "" {
        value := config.empty;
      }
      elements := elements + [value];
    }
    assert fields[..|fields|] == fields;
  }

  /**
   * A line has one element more than it has non-overlapping occurrences of
   * the delimiter, so at least one, even when the line is empty.
   */
  lemma ElementsCount(c: Config, line: string)
    requires c.delim != ""
    ensures |Elements(c, line)| == Count(line, c.delim) + 1
    ensures |Elements(c, line)| >= 1
  {
    SplitCount(line, c.delim);
  }

  /**
   * Every element is a field of the line with its surrounding whitespace
   * removed, or the placeholder standing in for a blank field; an element is
   * empty only when no placeholder is set.
   */
  lemma ElementsTrimmed(c: Config, line: string)
    requires c.delim != ""
    ensures forall k :: 0 <= k < |Elements(c, line)| ==>
      var field := Split(line, c.delim)[k];
      if TrimSpace(field) == "" && c.empty != "" then Elements(c, line)[k] == c.empty
      else Elements(c, line)[k] == TrimSpace(field) && IsTrimmed(Elements(c, line)[k])
    ensures forall k :: 0 <= k < |Elements(c, line)| && Elements(c, line)[k] == "" ==> c.empty == ""
  {
  }

  // ---------------------------------------------------------------------
  // The width table
  // ---------------------------------------------------------------------

  /** The number of characters of `e` a terminal shows. */
  function VisibleLen(e: string): nat {
    |RemoveColorCode(e)|
  }

  /** The visible length of each element. */
  function VisibleLens(es: seq<string>): (ls: seq<nat>)
    ensures |ls| == |es|
  {
    seq(|es|, k requires 0 <= k < |es| => VisibleLen(es[k]))
  }

  /** The visible lengths of a line's elements. */
  function Lens(c: Config, line: string): seq<nat>
    requires c.delim != ""
  {
    VisibleLens(Elements(c, line))
  }

  /** Column `i` of a width table after it has seen lengths `ls`. */
  function ObserveAt(ws: seq<nat>, ls: seq<nat>, i: nat): nat
    requires i < |ws| || i < |ls|
  {
    if i < |ws| && i < |ls| then Max(ws[i], ls[i])
    else if i < |ws| then ws[i]
    else ls[i]
  }

  /**
   * A width table after it has seen one more line's lengths: it grows to
   * the longer of the two, and each column keeps the larger value.
   */
  function Observe(ws: seq<nat>, ls: seq<nat>): (r: seq<nat>)
    ensures |r| == Max(|ws|, |ls|)
    ensures forall i :: 0 <= i < |ws| ==> ws[i] <= r[i]
    ensures forall i :: 0 <= i < |ls| ==> ls[i] <= r[i]
    ensures forall i :: 0 <= i < |r| ==> (i < |ws| && r[i] == ws[i]) || (i < |ls| && r[i] == ls[i])
  {
    seq(Max(|ws|, |ls|), i requires 0 <= i < Max(|ws|, |ls|) => ObserveAt(ws, ls, i))
  }

  /** The visible lengths of the elements of each line. */
  function Rows(c: Config, lines: seq<string>): (rows: seq<seq<nat>>)
    requires c.delim != ""
    ensures |rows| == |lines|
  {
    seq(|lines|, j requires 0 <= j < |lines| => Lens(c, lines[j]))
  }

  /** The width table of rows of lengths, built one row at a time. */
  function TableOf(rows: seq<seq<nat>>): seq<nat> {
    if rows == [] then []
    else Observe(TableOf(rows[..|rows| - 1]), rows[|rows| - 1])
  }

  /** The width table of a list of lines. */
  function WidthsOf(c: Config, lines: seq<string>): seq<nat>
    requires c.delim != ""
  {
    TableOf(Rows(c, lines))
  }

  /** Seeing one more length: the table grows by it, or raises its column, or stays. */
  lemma ObserveStep(ws: seq<nat>, ls: seq<nat>, i: nat)
    requires i < |ls|
    ensures var w := Observe(ws, ls[..i]);
      Observe(ws, ls[..i + 1]) ==
        if |w| <= i then w + [ls[i]]
        else if w[i] < ls[i] then w[i := ls[i]]
        else w
  {
    var w := Observe(ws, ls[..i]);
    var v := Observe(ws, ls[..i + 1]);
    var u := if |w| <= i then w + [ls[i]] else if w[i] < ls[i] then w[i := ls[i]] else w;
    assert |v| == |u|;
    forall k | 0 <= k < |v|
      ensures v[k] == u[k]
    {
      assert ObserveAt(ws, ls[..i + 1], k) == v[k];
      if k < i {
        assert ObserveAt(ws, ls[..i], k) == w[k];
      } else if k == i {
        if i < |ws| {
          assert ObserveAt(ws, ls[..i], k) == w[k];
        }
      } else {
        assert ObserveAt(ws, ls[..i], k) == w[k];
      }
    }
  }

  /** The rows of one more line are the rows so far and that line's row. */
  lemma RowsSnoc(c: Config, lines: seq<string>, j: nat)
    requires c.delim != "" && j < |lines|
    ensures Rows(c, lines[..j + 1]) == Rows(c, lines[..j]) + [Lens(c, lines[j])]
  {
    var r := Rows(c, lines[..j + 1]);
    var q := Rows(c, lines[..j]) + [Lens(c, lines[j])];
    forall k | 0 <= k < |r|
      ensures r[k] == q[k]
    {
      assert lines[..j + 1][k] == lines[k];
      if k < j {
        assert lines[..j][k] == lines[k];
      }
    }
  }

  /**
   * getWidthsFromLines: for each line and each of its elements in turn,
   * appends the element's visible length when the table has no column for
   * it yet, and otherwise raises the column to that length when it is larger.
   */
  method GetWidthsFromLines(config: Config, lines: seq<string>) returns (widths: seq<nat>)
    requires config.delim != ""
    ensures widths == WidthsOf(config, lines)
  {
    widths := [];
    for j := 0 to |lines|
      invariant widths == TableOf(Rows(config, lines[..j]))
    {
      var elems := GetElementsFromLine(config, lines[j]);
      ghost var before := widths;
      ghost var ls := VisibleLens(elems);
      assert before == Observe(before, ls[..0]);
      for i := 0 to |elems|
        invariant widths == Observe(before, ls[..i])
      {
        var l := |RemoveColorCode(elems[i])|;
        ObserveStep(before, ls, i);
        if |widths| <= i {
          widths := widths + [l];
        } else if widths[i] < l {
          widths := widths[i := l];
        }
      }
      assert ls[..|elems|] == ls;
      RowsSnoc(config, lines, j);
      ghost var rows := Rows(config, lines[..j + 1]);
      assert rows[..j] == Rows(config, lines[..j]);
    }
    assert lines[..|lines|] == lines;
  }

  /**
   * A width table has one column per entry of its longest row: no row is
   * longer, some row is exactly that long, and a table of no rows is empty.
   */
  lemma {:induction false} TableLength(rows: seq<seq<nat>>)
    ensures forall j :: 0 <= j < |rows| ==> |rows[j]| <= |TableOf(rows)|
    ensures rows != [] ==> exists j :: 0 <= j < |rows| && |rows[j]| == |TableOf(rows)|
    ensures rows == [] ==> TableOf(rows) == []
    decreases |rows|
  {
    if rows != [] {
      var init := rows[..|rows| - 1];
      TableLength(init);
      assert forall j :: 0 <= j < |init| ==> init[j] == rows[j];
      if |init| > 0 && |TableOf(init)| >= |rows[|rows| - 1]| {
        var j :| 0 <= j < |init| && |init[j]| == |TableOf(init)|;
        assert |rows[j]| == |TableOf(rows)|;
      }
    }
  }

  /** Row `r` fits under table `t`: it has no more entries, and none exceeds its column. */
  predicate Below(r: seq<nat>, t: seq<nat>) {
    |r| <= |t| && forall i :: 0 <= i < |r| ==> r[i] <= t[i]
  }

  /** Row `j` fits under the width table. */
  lemma {:induction false} TableBoundAt(rows: seq<seq<nat>>, j: nat)
    requires j < |rows|
    ensures Below(rows[j], TableOf(rows))
    decreases |rows|
  {
    var init := rows[..|rows| - 1];
    if j < |init| {
      assert init[j] == rows[j];
      TableBoundAt(init, j);
    }
  }

  /** Every row fits under the width table. */
  lemma TableBound(rows: seq<seq<nat>>)
    ensures forall j :: 0 <= j < |rows| ==> Below(rows[j], TableOf(rows))
  {
    forall j | 0 <= j < |rows|
      ensures Below(rows[j], TableOf(rows))
    {
      TableBoundAt(rows, j);
    }
  }

  /** Some row has `w` as its entry for column `i`. */
  predicate Attained(rows: seq<seq<nat>>, i: nat, w: nat) {
    exists j :: 0 <= j < |rows| && i < |rows[j]| && rows[j][i] == w
  }

  /** Every column of a width table is some row's entry for it. */
  lemma {:induction false} TableAttained(rows: seq<seq<nat>>)
    ensures forall i :: 0 <= i < |TableOf(rows)| ==> Attained(rows, i, TableOf(rows)[i])
    decreases |rows|
  {
    if rows != [] {
      var init := rows[..|rows| - 1];
      var last := |rows| - 1;
      TableAttained(init);
      forall i | 0 <= i < |TableOf(rows)|
        ensures Attained(rows, i, TableOf(rows)[i])
      {
        var w := TableOf(init);
        if i < |w| && TableOf(rows)[i] == w[i] {
          assert Attained(init, i, w[i]);
          var j :| 0 <= j < |init| && i < |init[j]| && init[j][i] == w[i];
          assert init[j] == rows[j];
        } else {
          assert i < |rows[last]| && rows[last][i] == TableOf(rows)[i];
        }
      }
    } else {
      assert TableOf(rows) == [];
    }
  }

  /**
   * The width table has one column per element of the longest line: no line
   * has more elements than it has columns, some line has exactly that many,
   * and the table of no lines is empty.
   */
  lemma WidthsLength(c: Config, lines: seq<string>)
    requires c.delim != ""
    ensures forall j :: 0 <= j < |lines| ==> |Elements(c, lines[j])| <= |WidthsOf(c, lines)|
    ensures lines != [] ==> exists j :: 0 <= j < |lines| && |Elements(c, lines[j])| == |WidthsOf(c, lines)|
    ensures lines == [] ==> WidthsOf(c, lines) == []
  {
    var rows := Rows(c, lines);
    TableLength(rows);
    assert forall j :: 0 <= j < |lines| ==> |rows[j]| == |Elements(c, lines[j])|;
  }

  /** Every column is at least as wide as the visible text of every element in it. */
  lemma WidthsBound(c: Config, lines: seq<string>)
    requires c.delim != ""
    ensures forall j :: 0 <= j < |lines| ==> Below(Lens(c, lines[j]), WidthsOf(c, lines))
  {
    var rows := Rows(c, lines);
    TableBound(rows);
    assert forall j :: 0 <= j < |lines| ==> rows[j] == Lens(c, lines[j]);
  }

  /** Every column is exactly as wide as the visible text of some element in it. */
  lemma WidthsAttained(c: Config, lines: seq<string>)
    requires c.delim != ""
    ensures forall i :: 0 <= i < |WidthsOf(c, lines)| ==> Attained(Rows(c, lines), i, WidthsOf(c, lines)[i])
    ensures forall j :: 0 <= j < |lines| ==> Rows(c, lines)[j] == Lens(c, lines[j])
  {
    TableAttained(Rows(c, lines));
  }

  // ---------------------------------------------------------------------
  // The format string of a line
  // ---------------------------------------------------------------------

  /**
   * The field width for a padded element: its column's width, plus the
   * length of its colour codes when it has any, so that the padding counts
   * visible characters only.
   */
  function PadWidth(w: nat, e: string): nat {
    if ContainsColorCode(e) then w + ColorCodeLen(e) else w
  }

  /**
   * The marker test is only a shortcut: a string without the marker has no
   * colour codes, so the field width is always the column's width plus the
   * string's invisible characters.
   */
  lemma PadWidthCodes(w: nat, e: string)
    ensures PadWidth(w, e) == w + ColorCodeLen(e)
    ensures PadWidth(w, e) == w + |e| - VisibleLen(e)
  {
  }

  /** The directives for element `i`: `%s\n` for the last element, `%-Ns` and the glue otherwise. */
  function FieldFormat(c: Config, widths: seq<nat>, elems: seq<string>, i: nat): seq<Directive>
    requires i < |elems| && i < |widths|
  {
    if i == |elems| - 1 then [Verb, Literal("\n")]
    else [Padded(PadWidth(widths[i], elems[i])), Literal(c.glue)]
  }

  /** The format string built from the prefix and the first `n` elements. */
  function FormatUpTo(c: Config, widths: seq<nat>, elems: seq<string>, n: nat): (f: seq<Directive>)
    requires n <= |elems| && n <= |widths|
    ensures |f| == 1 + 2 * n
    decreases n
  {
    if n == 0 then [Literal(c.prefix)]
    else FormatUpTo(c, widths, elems, n - 1) + FieldFormat(c, widths, elems, n - 1)
  }

  /** The format string of a line: one pair of directives per element that has a column. */
  function StringFormat(c: Config, widths: seq<nat>, elems: seq<string>): seq<Directive> {
    FormatUpTo(c, widths, elems, Min(|elems|, |widths|))
  }

  /** getStringFormat: starts from the prefix and appends each element's directives in turn. */
  method GetStringFormat(c: Config, widths: seq<nat>, elems: seq<string>) returns (stringfmt: seq<Directive>)
    ensures stringfmt == StringFormat(c, widths, elems)
  {
    stringfmt := [Literal(c.prefix)];
    var i := 0;
    while i < |elems| && i < |widths|
      invariant i <= |elems| && i <= |widths|
      invariant stringfmt == FormatUpTo(c, widths, elems, i)
    {
      if i == |elems| - 1 {
        stringfmt := stringfmt + [Verb, Literal("\n")];
      } else {
        if ContainsColorCode(elems[i]) {
          stringfmt := stringfmt + [Padded(widths[i] + ColorCodeLen(elems[i])), Literal(c.glue)];
        } else {
          stringfmt := stringfmt + [Padded(widths[i]), Literal(c.glue)];
        }
      }
      i := i + 1;
    }
  }

  /** Each element's pair of directives holds one verb. */
  lemma FieldFormatVerbs(c: Config, widths: seq<nat>, elems: seq<string>, i: nat)
    requires i < |elems| && i < |widths|
    ensures Verbs(FieldFormat(c, widths, elems, i)) == 1
  {
    if i == |elems| - 1 {
      VerbsPair(Verb, "\n");
    } else {
      VerbsPair(Padded(PadWidth(widths[i], elems[i])), c.glue);
    }
  }

  /** The format string for the first `n` elements holds one verb per element. */
  lemma {:induction false} FormatUpToVerbs(c: Config, widths: seq<nat>, elems: seq<string>, n: nat)
    requires n <= |elems| && n <= |widths|
    ensures Verbs(FormatUpTo(c, widths, elems, n)) == n
    decreases n
  {
    if n == 0 {
      assert [Literal(c.prefix)][1..] == [];
    } else {
      FormatUpToVerbs(c, widths, elems, n - 1);
      FieldFormatVerbs(c, widths, elems, n - 1);
      VerbsAppend(FormatUpTo(c, widths, elems, n - 1), FieldFormat(c, widths, elems, n - 1));
    }
  }

  /**
   * The shape of a format string: the prefix first; for every element but
   * the last, the element padded to its field width, then the glue; for the
   * last element, `%s` then a newline.
   */
  lemma {:induction false} FormatShape(c: Config, widths: seq<nat>, elems: seq<string>, n: nat)
    requires n <= |elems| && n <= |widths|
    ensures var f := FormatUpTo(c, widths, elems, n);
      && f[0] == Literal(c.prefix)
      && (forall i :: 0 <= i < n && i != |elems| - 1 ==>
            f[1 + 2 * i] == Padded(PadWidth(widths[i], elems[i])) && f[2 + 2 * i] == Literal(c.glue))
      && (n == |elems| && 0 < n ==> f[2 * n - 1] == Verb && f[2 * n] == Literal("\n"))
    decreases n
  {
    if n > 0 {
      var g := FormatUpTo(c, widths, elems, n - 1);
      var h := FieldFormat(c, widths, elems, n - 1);
      FormatShape(c, widths, elems, n - 1);
      forall i | 0 <= i < n && i != |elems| - 1
        ensures (g + h)[1 + 2 * i] == Padded(PadWidth(widths[i], elems[i]))
        ensures (g + h)[2 + 2 * i] == Literal(c.glue)
      {
        if i < n - 1 {
          assert (g + h)[1 + 2 * i] == g[1 + 2 * i];
          assert (g + h)[2 + 2 * i] == g[2 + 2 * i];
        }
      }
    }
  }

  /** A line never has more elements than the table has columns, so every element gets a verb. */
  lemma FormatVerbs(c: Config, widths: seq<nat>, elems: seq<string>)
    requires |elems| <= |widths|
    ensures Verbs(StringFormat(c, widths, elems)) == |elems|
  {
    FormatUpToVerbs(c, widths, elems, |elems|);
  }

  // ---------------------------------------------------------------------
  // Rendering a line
  // ---------------------------------------------------------------------

  /** The text of element `i` in its column: padded and glued, or the last element and a newline. */
  function Cell(c: Config, widths: seq<nat>, elems: seq<string>, i: nat): string
    requires i < |elems| && i < |widths|
  {
    if i == |elems| - 1 then elems[i] + "\n"
    else PadRight(elems[i], PadWidth(widths[i], elems[i])) + c.glue
  }

  /** The prefix followed by the cells of the first `n` elements. */
  function CellsUpTo(c: Config, widths: seq<nat>, elems: seq<string>, n: nat): string
    requires n <= |elems| && n <= |widths|
    decreases n
  {
    if n == 0 then c.prefix
    else CellsUpTo(c, widths, elems, n - 1) + Cell(c, widths, elems, n - 1)
  }

  /** `fmt.Sprintf(stringfmt, elems...)` for one line. */
  function RenderLine(c: Config, widths: seq<nat>, elems: seq<string>): string
    requires |elems| <= |widths|
  {
    FormatVerbs(c, widths, elems);
    Sprintf(StringFormat(c, widths, elems), elems)
  }

  /** Every rendered line starts with the prefix and holds every element in full. */
  lemma RenderLinePrefix(c: Config, widths: seq<nat>, elems: seq<string>)
    requires |elems| <= |widths|
    ensures var r := RenderLine(c, widths, elems);
      |c.prefix| <= |r| && r[..|c.prefix|] == c.prefix && |r| >= |c.prefix| + ArgsLen(elems)
  {
    var f := StringFormat(c, widths, elems);
    FormatVerbs(c, widths, elems);
    FormatShape(c, widths, elems, |elems|);
    SprintfLength(f, elems);
    assert Sprintf(f, elems) == c.prefix + Sprintf(f[1..], elems);
    assert TextLen(f) >= |c.prefix|;
  }

  /** Element `i`'s pair of directives renders to its cell. */
  lemma CellRenders(c: Config, widths: seq<nat>, elems: seq<string>, i: nat)
    requires i < |elems| && i < |widths|
    ensures Verbs(FieldFormat(c, widths, elems, i)) == 1
    ensures Sprintf(FieldFormat(c, widths, elems, i), [elems[i]]) == Cell(c, widths, elems, i)
  {
    if i == |elems| - 1 {
      SprintfPair(Verb, "\n", elems[i]);
    } else {
      SprintfPair(Padded(PadWidth(widths[i], elems[i])), c.glue, elems[i]);
    }
  }

  /** Rendering the directives of one more element appends its cell. */
  lemma FormatRendersStep(c: Config, widths: seq<nat>, elems: seq<string>, n: nat)
    requires 0 < n <= |elems| && n <= |widths|
    requires Verbs(FormatUpTo(c, widths, elems, n - 1)) == n - 1
    requires Sprintf(FormatUpTo(c, widths, elems, n - 1), elems[..n - 1]) == CellsUpTo(c, widths, elems, n - 1)
    ensures Verbs(FormatUpTo(c, widths, elems, n)) == n
    ensures Sprintf(FormatUpTo(c, widths, elems, n), elems[..n]) == CellsUpTo(c, widths, elems, n)
  {
    var g := FormatUpTo(c, widths, elems, n - 1);
    var h := FieldFormat(c, widths, elems, n - 1);
    var e := elems[n - 1];
    CellRenders(c, widths, elems, n - 1);
    assert elems[..n] == elems[..n - 1] + [e];
    SprintfAppend(g, h, elems[..n - 1], [e]);
  }

  /** The format string of the first `n` elements renders to the prefix and their cells. */
  lemma {:induction false} FormatRendersCells(c: Config, widths: seq<nat>, elems: seq<string>, n: nat)
    requires n <= |elems| && n <= |widths|
    ensures Verbs(FormatUpTo(c, widths, elems, n)) == n
    ensures Sprintf(FormatUpTo(c, widths, elems, n), elems[..n]) == CellsUpTo(c, widths, elems, n)
    decreases n
  {
    if n == 0 {
      assert [Literal(c.prefix)][1..] == [];
    } else {
      FormatRendersCells(c, widths, elems, n - 1);
      FormatRendersStep(c, widths, elems, n);
    }
  }

  /**
   * A rendered line is the prefix and then its cells in order; the last cell
   * is the last element as it is, followed by a newline.
   */
  lemma RenderLineCells(c: Config, widths: seq<nat>, elems: seq<string>)
    requires |elems| <= |widths|
    ensures RenderLine(c, widths, elems) == CellsUpTo(c, widths, elems, |elems|)
  {
    FormatRendersCells(c, widths, elems, |elems|);
    assert elems[..|elems|] == elems;
  }

  /** A rendered line of at least one element ends in a newline. */
  lemma RenderLineEnds(c: Config, widths: seq<nat>, elems: seq<string>)
    requires 1 <= |elems| <= |widths|
    ensures |RenderLine(c, widths, elems)| >= 1
    ensures RenderLine(c, widths, elems)[|RenderLine(c, widths, elems)| - 1] == '\n'
  {
    RenderLineCells(c, widths, elems);
  }

  /**
   * A padded element shows exactly its column's width: it is padded with
   * spaces, which cannot form part of a colour code, to the width plus the
   * length of its colour codes.
   */
  lemma PaddedVisible(w: nat, e: string)
    requires VisibleLen(e) <= w
    ensures VisibleLen(PadRight(e, PadWidth(w, e))) == w
  {
    var n := PadWidth(w, e);
    var sp := Spaces(n - |e|);
    assert PadRight(e, n) == e + sp;
    assert Inert(sp);
    RemoveColorCodeAppendInert(e, sp);
  }

  // ---------------------------------------------------------------------
  // Format
  // ---------------------------------------------------------------------

  /** Every line of `lines` fits the width table. */
  predicate Fits(c: Config, widths: seq<nat>, lines: seq<string>)
    requires c.delim != ""
  {
    forall j :: 0 <= j < |lines| ==> |Elements(c, lines[j])| <= |widths|
  }

  /** The rendering of each line, in input order. */
  function Renderings(c: Config, widths: seq<nat>, lines: seq<string>): (rs: seq<string>)
    requires c.delim != "" && Fits(c, widths, lines)
    ensures |rs| == |lines|
  {
    seq(|lines|, j requires 0 <= j < |lines| => RenderLine(c, widths, Elements(c, lines[j])))
  }

  /** The strings of `rs`, one after another. */
  function Concat(rs: seq<string>): string {
    if rs == [] then "" else Concat(rs[..|rs| - 1]) + rs[|rs| - 1]
  }

  /** The renderings of `lines`, one after another. */
  function Rendered(c: Config, widths: seq<nat>, lines: seq<string>): string
    requires c.delim != "" && Fits(c, widths, lines)
  {
    Concat(Renderings(c, widths, lines))
  }

  /** Rendering one more line appends its rendering. */
  lemma RenderedSnoc(c: Config, widths: seq<nat>, lines: seq<string>, j: nat)
    requires c.delim != "" && j < |lines| && Fits(c, widths, lines)
    ensures Fits(c, widths, lines[..j]) && Fits(c, widths, lines[..j + 1])
    ensures Rendered(c, widths, lines[..j + 1]) ==
      Rendered(c, widths, lines[..j]) + RenderLine(c, widths, Elements(c, lines[j]))
  {
    assert forall k :: 0 <= k < j ==> lines[..j][k] == lines[k];
    assert forall k :: 0 <= k <= j ==> lines[..j + 1][k] == lines[k];
    var rs := Renderings(c, widths, lines[..j + 1]);
    assert rs[..j] == Renderings(c, widths, lines[..j]);
  }

  /** The output with its one trailing newline removed, if it has one. */
  function TrimNewline(s: string): (r: string)
    ensures |s| > 0 && s[|s| - 1] == '\n' ==> r + "\n" == s
    ensures !(|s| > 0 && s[|s| - 1] == '\n') ==> r == s
  {
    if |s| > 0 && s[|s| - 1] == '\n' then s[..|s| - 1] else s
  }

  /** The configuration Format works with: `config` merged over the defaults. */
  function Effective(config: Option<Config>): (conf: Config)
    ensures conf.delim != "" && conf.glue != ""
  {
    MergedDefaultsUsable(config);
    Merge(DefaultConfig(), config)
  }

  /** The width table Format uses, which every line fits. */
  function Table(conf: Config, lines: seq<string>): (widths: seq<nat>)
    requires conf.delim != ""
    ensures Fits(conf, widths, lines)
  {
    WidthsLength(conf, lines);
    WidthsOf(conf, lines)
  }

  /** What Format returns for `lines` and `config`. */
  function Formatted(lines: seq<string>, config: Option<Config>): string {
    var conf := Effective(config);
    TrimNewline(Rendered(conf, Table(conf, lines), lines))
  }

  /**
   * Format: merges the configuration over the defaults, computes the width
   * table of all lines, renders each line with its format string, and drops
   * the output's trailing newline.
   */
  method Format(lines: seq<string>, config: Option<Config>) returns (result: string)
    ensures result == Formatted(lines, config)
  {
    var conf := MergeConfig(DefaultConfig(), config);
    MergedDefaultsUsable(config);
    var widths := GetWidthsFromLines(conf, lines);
    WidthsLength(conf, lines);
    result := "";
    for j := 0 to |lines|
      invariant Fits(conf, widths, lines[..j])
      invariant result == Rendered(conf, widths, lines[..j])
    {
      var elems := GetElementsFromLine(conf, lines[j]);
      var stringfmt := GetStringFormat(conf, widths, elems);
      FormatVerbs(conf, widths, elems);
      RenderedSnoc(conf, widths, lines, j);
      result := result + Sprintf(stringfmt, elems);
    }
    assert lines[..|lines|] == lines;
    if |result| > 0 && result[|result| - 1] == '\n' {
      result := result[..|result| - 1];
    }
  }

  /** SimpleFormat: Format with the default configuration. */
  method SimpleFormat(lines: seq<string>) returns (result: string)
    ensures result == Formatted(lines, None)
  {
    result := Format(lines, None);
  }

  /** No lines format to the empty string. */
  lemma FormatEmpty(config: Option<Config>)
    ensures Formatted([], config) == ""
  {
  }

  /** `r` ends in a newline. */
  predicate EndsInNewline(r: string) {
    |r| > 0 && r[|r| - 1] == '\n'
  }

  /** The strings of `rs`, each without its closing newline. */
  function Chomped(rs: seq<string>): (bs: seq<string>)
    requires forall j :: 0 <= j < |rs| ==> EndsInNewline(rs[j])
    ensures |bs| == |rs|
  {
    seq(|rs|, j requires 0 <= j < |rs| && EndsInNewline(rs[j]) => rs[j][..|rs[j]| - 1])
  }

  /** Strings that each end in a newline are, one after another, their bodies joined by newlines plus one more. */
  lemma {:induction false} ConcatLines(rs: seq<string>)
    requires rs != [] && forall j :: 0 <= j < |rs| ==> EndsInNewline(rs[j])
    ensures Concat(rs) == Join(Chomped(rs), "\n") + "\n"
    decreases |rs|
  {
    var n := |rs|;
    var init := rs[..n - 1];
    var last := rs[n - 1];
    assert last == last[..|last| - 1] + "\n";
    if n == 1 {
      assert Chomped(rs) == [last[..|last| - 1]];
      assert init == [];
    } else {
      assert forall j :: 0 <= j < |init| ==> init[j] == rs[j];
      ConcatLines(init);
      assert Chomped(rs) == Chomped(init) + [last[..|last| - 1]];
      JoinSnoc(Chomped(init), last[..|last| - 1], "\n");
    }
  }

  /** Every line's rendering ends in a newline. */
  lemma RenderingsEnd(c: Config, widths: seq<nat>, lines: seq<string>)
    requires c.delim != "" && Fits(c, widths, lines)
    ensures forall j :: 0 <= j < |lines| ==> EndsInNewline(Renderings(c, widths, lines)[j])
  {
    forall j | 0 <= j < |lines|
      ensures EndsInNewline(Renderings(c, widths, lines)[j])
    {
      ElementsCount(c, lines[j]);
      RenderLineEnds(c, widths, Elements(c, lines[j]));
    }
  }

  /** Each line's rendering without its closing newline, in input order. */
  function Bodies(c: Config, widths: seq<nat>, lines: seq<string>): (bs: seq<string>)
    requires c.delim != "" && Fits(c, widths, lines)
    ensures |bs| == |lines|
  {
    RenderingsEnd(c, widths, lines);
    Chomped(Renderings(c, widths, lines))
  }

  /**
   * Format's output is the bodies of the lines, in input order, joined by
   * newlines: every line's newline is kept except the last one's.
   */
  lemma FormattedIsJoin(lines: seq<string>, config: Option<Config>)
    requires lines != []
    ensures var conf := Effective(config);
      Formatted(lines, config) == Join(Bodies(conf, Table(conf, lines), lines), "\n")
  {
    var conf := Effective(config);
    var widths := Table(conf, lines);
    RenderingsEnd(conf, widths, lines);
    ConcatLines(Renderings(conf, widths, lines));
  }

  /**
   * Every element but the last on each line has a column, and once padded
   * it shows exactly that column's width in visible characters. This is a
   * statement about each padded element alone: a colour code left open in
   * an element can still swallow the glue and the next element when the
   * whole line is displayed.
   */
  lemma ColumnsAlign(lines: seq<string>, config: Option<Config>)
    ensures var conf := Effective(config);
      var widths := WidthsOf(conf, lines);
      forall j, i :: 0 <= j < |lines| && 0 <= i < |Elements(conf, lines[j])| - 1 ==>
        i < |widths| &&
        VisibleLen(PadRight(Elements(conf, lines[j])[i], PadWidth(widths[i], Elements(conf, lines[j])[i]))) == widths[i]
  {
    var conf := Effective(config);
    var widths := WidthsOf(conf, lines);
    WidthsBound(conf, lines);
    forall j, i | 0 <= j < |lines| && 0 <= i < |Elements(conf, lines[j])| - 1
      ensures i < |widths|
      ensures VisibleLen(PadRight(Elements(conf, lines[j])[i], PadWidth(widths[i], Elements(conf, lines[j])[i]))) == widths[i]
    {
      var e := Elements(conf, lines[j])[i];
      assert Below(Lens(conf, lines[j]), widths);
      assert Lens(conf, lines[j])[i] == VisibleLen(e);
      PaddedVisible(widths[i], e);
    }
  }
}
