/**
 * Concrete inputs and the outputs the model gives for them.
 */
module ColumnizeExamples {
  import opened Wrappers
  import opened GoStrings
  import opened GoFmt
  import opened ColorCodes
  import opened Columnize

  /** A short plain element: trimmed, no colour codes. */
  lemma Plain(e: string)
    requires |e| >= 1 && forall k :: 0 <= k < |e| ==> e[k] != ESC && !IsSpace(e[k])
    ensures TrimSpace(e) == e
    ensures VisibleLen(e) == |e|
    ensures !ContainsColorCode(e)
  {
    TrimSpaceFixed(e);
    NoEscapePlain(e);
  }

  lemma ElementsABC()
    ensures Elements(DefaultConfig(), "a|b|c") == ["a", "b", "c"]
    ensures Lens(DefaultConfig(), "a|b|c") == [1, 1, 1]
  {
    ElementsOfThree("a|b|c", "a", "b", "c");
  }

  lemma TableABC()
    ensures Table(DefaultConfig(), ["a|b|c"]) == [1, 1, 1]
  {
    var c := DefaultConfig();
    ElementsABC();
    assert Rows(c, ["a|b|c"]) == [[1, 1, 1]];
    assert Rows(c, ["a|b|c"])[..0] == [];
  }

  lemma RenderABC()
    ensures RenderLine(DefaultConfig(), [1, 1, 1], ["a", "b", "c"]) == "a  b  c\n"
  {
    RenderThree(DefaultConfig(), [1, 1, 1], "a", "b", "c", "a", "b");
  }

  /** Three single-character fields on one line are glued with two spaces. */
  lemma SimpleLine()
    ensures Formatted(["a|b|c"], None) == "a  b  c"
  {
    var c := Effective(None);
    assert c == DefaultConfig();
    ElementsABC();
    TableABC();
    RenderABC();
    var widths := Table(c, ["a|b|c"]);
    assert Renderings(c, widths, ["a|b|c"]) == ["a  b  c\n"];
    assert ["a  b  c\n"][..0] == [];
  }

  /** `x` has no `|`, the delimiter of the examples. */
  predicate NoBar(x: string) {
    forall k :: 0 <= k < |x| ==> x[k] != '|'
  }

  /** A field without the delimiter, then the delimiter, splits off that field. */
  lemma SplitField(line: string, x: string, rest: string)
    requires NoBar(x) && line == x + "|" + rest
    ensures Split(line, "|") == [x] + Split(rest, "|")
  {
    forall j | 0 <= j < |x|
      ensures !OccursAt(line, "|", j)
    {
      assert line[j..j + 1][0] == x[j];
    }
    assert OccursAt(line, "|", |x|) by {
      assert line[|x|..|x| + 1] == "|";
    }
    assert Index(line, "|") == Some(|x|);
    assert line[..|x|] == x && line[|x| + 1..] == rest;
  }

  /** A line without the delimiter is a single field. */
  lemma SplitLast(x: string)
    requires NoBar(x)
    ensures Split(x, "|") == [x]
  {
    forall j | 0 <= j <= |x|
      ensures !OccursAt(x, "|", j)
    {
      if j + 1 <= |x| {
        assert x[j..j + 1][0] == x[j];
      }
    }
  }

  /** Two fields without the delimiter, joined by it, split back into those fields. */
  lemma Split2(line: string, y: string, z: string)
    requires NoBar(y) && NoBar(z) && line == y + "|" + z
    ensures Split(line, "|") == [y, z]
  {
    SplitField(line, y, z);
    SplitLast(z);
  }

  /** Three fields without the delimiter, joined by it, split back into those fields. */
  lemma Split3(line: string, x: string, y: string, z: string)
    requires NoBar(x) && NoBar(y) && NoBar(z) && line == x + "|" + y + "|" + z
    ensures Split(line, "|") == [x, y, z]
  {
    var rest := y + "|" + z;
    assert line == x + "|" + rest;
    SplitField(line, x, rest);
    Split2(rest, y, z);
  }

  /** The elements and visible lengths of a line of three plain fields. */
  lemma Elements3(line: string, x: string, y: string, z: string)
    requires Split(line, "|") == [x, y, z]
    requires TrimSpace(x) == x && TrimSpace(y) == y && TrimSpace(z) == z
    requires x != "" && y != "" && z != ""
    ensures Elements(DefaultConfig(), line) == [x, y, z]
    ensures Lens(DefaultConfig(), line) == [VisibleLen(x), VisibleLen(y), VisibleLen(z)]
  {
    var c := DefaultConfig();
    assert Element(c, x) == x && Element(c, y) == y && Element(c, z) == z;
  }

  /** A field with no delimiter, no space and no escape character. */
  predicate PlainField(e: string) {
    |e| >= 1 && NoBar(e) && forall k :: 0 <= k < |e| ==> e[k] != ESC && !IsSpace(e[k])
  }

  /** A line of three plain fields. */
  lemma ElementsOfThree(line: string, x: string, y: string, z: string)
    requires PlainField(x) && PlainField(y) && PlainField(z)
    requires line == x + "|" + y + "|" + z
    ensures Elements(DefaultConfig(), line) == [x, y, z]
    ensures Lens(DefaultConfig(), line) == [|x|, |y|, |z|]
  {
    Split3(line, x, y, z);
    Plain(x);
    Plain(y);
    Plain(z);
    Elements3(line, x, y, z);
  }

  lemma ElementsFirst()
    ensures Elements(DefaultConfig(), "a|bb|c") == ["a", "bb", "c"]
    ensures Lens(DefaultConfig(), "a|bb|c") == [1, 2, 1]
  {
    ElementsOfThree("a|bb|c", "a", "bb", "c");
  }

  lemma ElementsSecond()
    ensures Elements(DefaultConfig(), "aaa|b|c") == ["aaa", "b", "c"]
    ensures Lens(DefaultConfig(), "aaa|b|c") == [3, 1, 1]
  {
    ElementsOfThree("aaa|b|c", "aaa", "b", "c");
  }

  /** The width table of two rows. */
  lemma TableOfTwo(r1: seq<nat>, r2: seq<nat>)
    ensures TableOf([r1, r2]) == Observe(Observe([], r1), r2)
  {
    assert [r1, r2][..1] == [r1];
    assert [r1][..0] == [];
    assert TableOf([r1]) == Observe([], r1);
  }

  lemma RowsTwo()
    ensures Rows(DefaultConfig(), ["a|bb|c", "aaa|b|c"]) == [[1, 2, 1], [3, 1, 1]]
  {
    ElementsFirst();
    ElementsSecond();
  }

  lemma ObserveTwo()
    ensures Observe(Observe([], [1, 2, 1]), [3, 1, 1]) == [3, 2, 1]
  {
    assert Observe([], [1, 2, 1]) == [1, 2, 1];
  }

  lemma TableTwo()
    ensures Table(DefaultConfig(), ["a|bb|c", "aaa|b|c"]) == [3, 2, 1]
  {
    RowsTwo();
    TableOfTwo([1, 2, 1], [3, 1, 1]);
    ObserveTwo();
  }

  /** The cells of a line of three elements. */
  lemma CellsThree(c: Config, widths: seq<nat>, x: string, y: string, z: string)
    requires |widths| >= 3
    ensures RenderLine(c, widths, [x, y, z]) ==
      c.prefix + (PadRight(x, PadWidth(widths[0], x)) + c.glue)
        + (PadRight(y, PadWidth(widths[1], y)) + c.glue) + (z + "\n")
  {
    var es := [x, y, z];
    RenderLineCells(c, widths, es);
    assert CellsUpTo(c, widths, es, 1) == c.prefix + (PadRight(x, PadWidth(widths[0], x)) + c.glue);
  }

  /** A line of three elements, the first two without colour codes and padded to `px` and `py`. */
  lemma RenderThree(c: Config, widths: seq<nat>, x: string, y: string, z: string, px: string, py: string)
    requires |widths| >= 3 && PlainField(x) && PlainField(y)
    requires PadRight(x, widths[0]) == px && PadRight(y, widths[1]) == py
    ensures RenderLine(c, widths, [x, y, z]) == c.prefix + px + c.glue + py + c.glue + z + "\n"
  {
    Plain(x);
    Plain(y);
    CellsThree(c, widths, x, y, z);
  }

  lemma RenderFirst()
    ensures RenderLine(DefaultConfig(), [3, 2, 1], ["a", "bb", "c"]) == "a    bb  c" + "\n"
  {
    RenderThree(DefaultConfig(), [3, 2, 1], "a", "bb", "c", "a  ", "bb");
    assert "" + "a  " + "  " + "bb" + "  " + "c" == "a    bb  c";
  }

  lemma RenderSecond()
    ensures RenderLine(DefaultConfig(), [3, 2, 1], ["aaa", "b", "c"]) == "aaa  b   c" + "\n"
  {
    RenderThree(DefaultConfig(), [3, 2, 1], "aaa", "b", "c", "aaa", "b ");
    assert "" + "aaa" + "  " + "b " + "  " + "c" == "aaa  b   c";
  }

  /** Two strings, one after another. */
  lemma ConcatTwo(a: string, b: string)
    ensures Concat([a, b]) == a + b
  {
    assert [a, b][..1] == [a];
    assert [a][..0] == [];
    assert Concat([a]) == a;
  }

  lemma FitsTwo()
    ensures Fits(DefaultConfig(), [3, 2, 1], ["a|bb|c", "aaa|b|c"])
  {
    ElementsFirst();
    ElementsSecond();
  }

  lemma RenderingsTwo()
    ensures Fits(DefaultConfig(), [3, 2, 1], ["a|bb|c", "aaa|b|c"])
    ensures Renderings(DefaultConfig(), [3, 2, 1], ["a|bb|c", "aaa|b|c"]) == ["a    bb  c" + "\n", "aaa  b   c" + "\n"]
  {
    FitsTwo();
    var c := DefaultConfig();
    var lines := ["a|bb|c", "aaa|b|c"];
    var rs := Renderings(c, [3, 2, 1], lines);
    assert rs[0] == "a    bb  c" + "\n" by {
      ElementsFirst();
      RenderFirst();
    }
    assert rs[1] == "aaa  b   c" + "\n" by {
      ElementsSecond();
      RenderSecond();
    }
  }

  /** The trailing newline Format drops. */
  lemma TrimAdded(s: string)
    ensures TrimNewline(s + "\n") == s
  {
    assert (s + "\n")[..|s|] == s;
  }

  /** Each column is as wide as its widest element, and the columns are glued with two spaces. */
  lemma RenderedTwo()
    ensures Fits(DefaultConfig(), [3, 2, 1], ["a|bb|c", "aaa|b|c"])
    ensures Rendered(DefaultConfig(), [3, 2, 1], ["a|bb|c", "aaa|b|c"]) == ("a    bb  c" + "\n") + ("aaa  b   c" + "\n")
  {
    RenderingsTwo();
    ConcatTwo("a    bb  c" + "\n", "aaa  b   c" + "\n");
  }

  /** Format's output for two lines: their renderings joined, without the last newline. */
  lemma FormattedOfTwo(lines: seq<string>, config: Option<Config>, widths: seq<nat>, b1: string, b2: string)
    requires Table(Effective(config), lines) == widths
    requires Rendered(Effective(config), widths, lines) == (b1 + "\n") + (b2 + "\n")
    ensures Formatted(lines, config) == b1 + "\n" + b2
  {
    assert (b1 + "\n") + (b2 + "\n") == (b1 + "\n" + b2) + "\n";
    TrimAdded(b1 + "\n" + b2);
  }

  lemma TwoLines()
    ensures Formatted(["a|bb|c", "aaa|b|c"], None) == "a    bb  c" + "\n" + "aaa  b   c"
  {
    assert Effective(None) == DefaultConfig();
    TableTwo();
    RenderedTwo();
    FormattedOfTwo(["a|bb|c", "aaa|b|c"], None, [3, 2, 1], "a    bb  c", "aaa  b   c");
  }

  /** A colour code at index `i` is skipped whole. */
  lemma StripSkip(s: string, i: nat, n: nat)
    requires CodeAt(s, i, n)
    ensures StripFrom(s, i) == StripFrom(s, i + n)
  {
    MatchAtExact(s, i, n);
  }

  /** A character that does not open a colour code is kept. */
  lemma StripKeep(s: string, i: nat)
    requires i < |s| && (s[i] != ESC || i + 1 == |s| || s[i + 1] != '[')
    ensures StripFrom(s, i) == [s[i]] + StripFrom(s, i + 1)
  {
    var m := MatchAt(s, i);
    if m.Some? {
      MatchAtExact(s, i, m.value);
    }
  }

  /** `t` has no escape character, so no colour code can start in it. */
  predicate EscapeFree(t: string) {
    forall k :: 0 <= k < |t| ==> t[k] != ESC
  }

  /** Characters other than the escape character are kept one by one. */
  lemma {:induction false} StripText(s: string, i: nat, to: nat)
    requires i <= to <= |s|
    requires forall k :: i <= k < to ==> s[k] != ESC
    ensures StripFrom(s, i) == s[i..to] + StripFrom(s, to)
    decreases |s| - i
  {
    if i < to {
      calc {
        StripFrom(s, i);
        { StripKeep(s, i); }
        [s[i]] + StripFrom(s, i + 1);
        { StripText(s, i + 1, to); }
        [s[i]] + (s[i + 1..to] + StripFrom(s, to));
        { assert s[i..to] == [s[i]] + s[i + 1..to]; }
        s[i..to] + StripFrom(s, to);
      }
    }
  }

  /** A colour code placed at index `at` of `s` is skipped whole. */
  lemma SkipInside(s: string, at: nat, code: string)
    requires IsColorCode(code) && at + |code| <= |s| && s[at..at + |code|] == code
    ensures StripFrom(s, at) == StripFrom(s, at + |code|)
  {
    forall k | at <= k < at + |code|
      ensures s[k] == code[k - at]
    {
      assert s[at..at + |code|][k - at] == s[k];
    }
    StripSkip(s, at, |code|);
  }

  /** Text placed at index `at` of `s` without escape characters is kept as it is. */
  lemma TextInside(s: string, at: nat, text: string)
    requires at + |text| <= |s| && s[at..at + |text|] == text
    requires EscapeFree(text)
    ensures StripFrom(s, at) == text + StripFrom(s, at + |text|)
  {
    forall k | at <= k < at + |text|
      ensures s[k] != ESC
    {
      assert s[at..at + |text|][k - at] == s[k];
    }
    StripText(s, at, at + |text|);
  }

  /** Text without escape characters between two colour codes is all that remains visible. */
  lemma StripWrapped(c1: string, text: string, c2: string)
    requires IsColorCode(c1) && IsColorCode(c2)
    requires EscapeFree(text)
    ensures RemoveColorCode(c1 + text + c2) == text
  {
    var s := c1 + text + c2;
    assert s[0..|c1|] == c1;
    assert s[|c1|..|c1| + |text|] == text;
    assert s[|c1| + |text|..|c1| + |text| + |c2|] == c2;
    StripCodeTextCode(s, c1, text, c2);
  }

  /** The stripping of a string laid out as a code, then text, then a code. */
  lemma StripCodeTextCode(s: string, c1: string, text: string, c2: string)
    requires IsColorCode(c1) && IsColorCode(c2) && EscapeFree(text)
    requires |s| == |c1| + |text| + |c2|
    requires s[0..|c1|] == c1
    requires s[|c1|..|c1| + |text|] == text
    requires s[|c1| + |text|..|c1| + |text| + |c2|] == c2
    ensures RemoveColorCode(s) == text
  {
    StripLeadingCode(s, c1);
    StripTextCode(s, |c1|, text, c2);
  }

  /** A string that starts with a colour code shows what follows the code. */
  lemma StripLeadingCode(s: string, c: string)
    requires IsColorCode(c) && |c| <= |s| && s[0..|c|] == c
    ensures RemoveColorCode(s) == StripFrom(s, |c|)
  {
    RemoveColorCodeIsReplace(s);
    SkipInside(s, 0, c);
  }

  /** From index `at`, text and then a colour code that ends `s` show as the text. */
  lemma StripTextCode(s: string, at: nat, text: string, c: string)
    requires IsColorCode(c) && EscapeFree(text)
    requires |s| == at + |text| + |c|
    requires s[at..at + |text|] == text
    requires s[at + |text|..at + |text| + |c|] == c
    ensures StripFrom(s, at) == text
  {
    TextInside(s, at, text);
    SkipInside(s, at + |text|, c);
    assert text + "" == text;
  }

  /** An escape character that opens no code, then a colour code, then plain text. */
  lemma StripAfterLoneEscape(c: string, t: string)
    requires IsColorCode(c)
    requires EscapeFree(t)
    ensures RemoveColorCode([ESC] + c + t) == [ESC] + t
  {
    var s := [ESC] + c + t;
    assert s[1..1 + |c|] == c;
    assert s[1 + |c|..1 + |c| + |t|] == t;
    StripEscapeCodeText(s, c, t);
  }

  /** The stripping of a string laid out as an escape character, then a code, then text. */
  lemma StripEscapeCodeText(s: string, c: string, t: string)
    requires IsColorCode(c) && EscapeFree(t)
    requires |s| == 1 + |c| + |t| && s[0] == ESC
    requires s[1..1 + |c|] == c
    requires s[1 + |c|..1 + |c| + |t|] == t
    ensures RemoveColorCode(s) == [ESC] + t
  {
    assert s[1] == c[0];
    StripLoneEscape(s);
    StripCodeText(s, 1, c, t);
  }

  /** An escape character not followed by `[` is shown. */
  lemma StripLoneEscape(s: string)
    requires |s| >= 2 && s[0] == ESC && s[1] != '['
    ensures RemoveColorCode(s) == [ESC] + StripFrom(s, 1)
  {
    RemoveColorCodeIsReplace(s);
    StripKeep(s, 0);
  }

  /** From index `at`, a colour code and then text that ends `s` show as the text. */
  lemma StripCodeText(s: string, at: nat, c: string, t: string)
    requires IsColorCode(c) && EscapeFree(t)
    requires |s| == at + |c| + |t|
    requires s[at..at + |c|] == c
    requires s[at + |c|..at + |c| + |t|] == t
    ensures StripFrom(s, at) == t
  {
    SkipInside(s, at, c);
    TextInside(s, at + |c|, t);
    assert t + "" == t;
  }

  /** A whole colour code is invisible. */
  lemma StripCode(c: string)
    requires IsColorCode(c)
    ensures RemoveColorCode(c) == ""
  {
    assert c[0..|c|] == c;
    SkipInside(c, 0, c);
    RemoveColorCodeIsReplace(c);
  }

  /** The codes around a coloured word are invisible. */
  lemma ColoredWord()
    ensures RemoveColorCode("\U{1B}[31m" + "red" + "\U{1B}[0m") == "red"
  {
    StripWrapped("\U{1B}[31m", "red", "\U{1B}[0m");
  }

  /**
   * A single pass of the pattern can leave a colour code behind: removing
   * the inner code joins an escape character to the text after it.
   */
  lemma StripOnce()
    ensures RemoveColorCode("\U{1B}" + "\U{1B}[1m" + "[2m") == "\U{1B}" + "[2m"
    ensures IsColorCode("\U{1B}" + "[2m")
    ensures RemoveColorCode("\U{1B}" + "[2m") == ""
  {
    StripAfterLoneEscape("\U{1B}[1m", "[2m");
    assert "\U{1B}" + "[2m" == "\U{1B}[2m";
    StripCode("\U{1B}[2m");
  }

  /** A line of two elements: the first padded and glued, the second as it is. */
  lemma RenderTwo(c: Config, widths: seq<nat>, x: string, y: string)
    requires |widths| >= 2
    ensures RenderLine(c, widths, [x, y]) ==
      c.prefix + (PadRight(x, PadWidth(widths[0], x)) + c.glue) + (y + "\n")
  {
    RenderLineCells(c, widths, [x, y]);
  }

  /** A line of one element is the prefix, that element and a newline. */
  lemma RenderOne(c: Config, widths: seq<nat>, x: string)
    requires |widths| >= 1
    ensures RenderLine(c, widths, [x]) == c.prefix + (x + "\n")
  {
    RenderLineCells(c, widths, [x]);
  }

  /** Format's output for one line whose elements are `es` and whose table is `ls`. */
  lemma FormattedOfOne(line: string, es: seq<string>, ls: seq<nat>, body: string)
    requires Elements(DefaultConfig(), line) == es && Lens(DefaultConfig(), line) == ls
    requires |es| <= |ls| && RenderLine(DefaultConfig(), ls, es) == body + "\n"
    ensures Formatted([line], None) == body
  {
    var c := Effective(None);
    assert c == DefaultConfig();
    assert Rows(c, [line]) == [ls];
    assert Rows(c, [line])[..0] == [];
    assert Table(c, [line]) == ls;
    assert Renderings(c, ls, [line]) == [body + "\n"];
    assert [body + "\n"][..0] == [];
    TrimAdded(body);
  }

  /** A field followed by the delimiter ends in an empty element. */
  lemma ElementsTrailingBar()
    ensures Elements(DefaultConfig(), "a|") == ["a", ""]
    ensures Lens(DefaultConfig(), "a|") == [1, 0]
  {
    Split2("a|", "a", "");
    Plain("a");
    NoEscapePlain("");
    assert Element(DefaultConfig(), "") == "" by {
      TrimSpaceFixed("");
    }
  }

  /** A field with trailing spaces is trimmed to one element. */
  lemma ElementsTrailingSpaces()
    ensures Elements(DefaultConfig(), "a  ") == ["a"]
    ensures Lens(DefaultConfig(), "a  ") == [1]
  {
    SplitLast("a  ");
    assert TrimSpace("a  ") == "a";
    Plain("a");
  }

  /**
   * Formatting is not idempotent: an empty last field leaves the glue at
   * the end of the line, and formatting that output again trims it away.
   */
  lemma ReformatTrims()
    ensures Formatted(["a|"], None) == "a  "
    ensures Formatted(["a  "], None) == "a"
  {
    var c := DefaultConfig();
    ElementsTrailingBar();
    Plain("a");
    RenderTwo(c, [1, 0], "a", "");
    assert PadRight("a", PadWidth(1, "a")) == "a";
    FormattedOfOne("a|", ["a", ""], [1, 0], "a  ");
    ElementsTrailingSpaces();
    RenderOne(c, [1], "a");
    FormattedOfOne("a  ", ["a"], [1], "a");
  }
}
