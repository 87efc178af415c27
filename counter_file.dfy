/**
 * The counter table of the ticket dispenser and the text file that persists
 * it: one `code:count` line per operation code.
 */
module CounterFile {
  import opened Wrappers
  import opened PyText

  /**
   * A counter table maps each operation code, "V" (Versement), "R" (Retrait)
   * and "I" (Informations), to a count, possibly negative; no other key is
   * ever added.
   */
  type Table = t: map<string, int> | t.Keys == {"V", "R", "I"}
    witness map["V" := 0, "R" := 0, "I" := 0]

  /** The order in which the table lists its codes, and so the file its lines. */
  const Order: seq<string> := ["V", "R", "I"]

  /** The table a dispenser starts from. */
  const Zero: Table := map["V" := 0, "R" := 0, "I" := 0]

  /** The text written when the file does not exist yet. */
  const DefaultText: string := "V:0\nR:0\nI:0"

  // ---------------------------------------------------------------------
  // Serialising

  /** One entry as written, `f"{code}:{count}"`, without its newline. */
  function EntryText(t: Table, code: string): string
    requires code in t
  {
    code + ":" + IntToString(t[code])
  }

  /** The lines written for the codes `cs`, in that order, each ending in a newline. */
  function SerializeCodes(t: Table, cs: seq<string>): string
    requires forall j :: 0 <= j < |cs| ==> cs[j] in t
  {
    if cs == [] then ""
    else SerializeCodes(t, cs[..|cs| - 1]) + EntryText(t, cs[|cs| - 1]) + "\n"
  }

  /** The whole file text for a table. */
  function Serialize(t: Table): string {
    SerializeCodes(t, Order)
  }

  // ---------------------------------------------------------------------
  // Parsing

  /** How one line of the file is read. */
  datatype LineKind =
    | NoSeparator                         // no ':' in the line: skipped
    | TooManyColons                       // the two-value unpack fails
    | Field(key: string, count: string)   // `key:count` after stripping

  /**
   * A line without ':' is skipped; otherwise the stripped line is split at
   * ':' and must give exactly two parts.
   */
  function Classify(line: string): LineKind {
    if ':' !in line then NoSeparator
    else
      var parts := Split(Strip(line), ':');
      if |parts| != 2 then TooManyColons else Field(parts[0], parts[1])
  }

  /**
   * The two-part unpack fails exactly when the line has two or more ':',
   * and neither part of a field holds a ':'.
   */
  lemma ClassifyCases(line: string)
    ensures Classify(line) == NoSeparator <==> ':' !in line
    ensures Classify(line) == TooManyColons <==> multiset(line)[':'] >= 2
    ensures Classify(line).Field? ==> ':' !in Classify(line).key && ':' !in Classify(line).count
  {
    StripKeepsCount(line, ':');
    SplitCount(Strip(line), ':');
  }

  /** `int(count)`, with the ValueError case read as 0. */
  function CountValue(count: string): int {
    match ParseInt(count)
    case Some(n) => n
    case None => 0
  }

  /** The effect of one line: the table after it, or the abort of the whole parse. */
  datatype Step = Continue(table: Table) | Abort

  function ApplyLine(t: Table, line: string): Step {
    match Classify(line)
    case NoSeparator => Continue(t)
    case TooManyColons => Abort
    case Field(key, count) =>
      if key in t then Continue(t[key := CountValue(count)]) else Continue(t)
  }

  /** The end of a parse: every line read, or stopped by an exception, with the table at that point. */
  datatype Outcome = Complete(table: Table) | Aborted(table: Table)

  /** Reading the lines in order from table `t`. */
  function ApplyLines(t: Table, lines: seq<string>): Outcome {
    if lines == [] then Complete(t)
    else
      match ApplyLine(t, lines[0])
      case Abort => Aborted(t)
      case Continue(t') => ApplyLines(t', lines[1..])
  }

  /** A line that sets `code`. */
  predicate Mentions(line: string, code: string) {
    Classify(line).Field? && Classify(line).key == code
  }

  // ---------------------------------------------------------------------
  // Properties of the parse

  /**
   * A line `key:count` with no ':' in either part and no whitespace at its
   * ends reads as that key and that count.
   */
  lemma EntryLineReads(key: string, count: string)
    requires ':' !in key && ':' !in count
    requires key == [] || !IsSpace(key[0])
    requires count == [] || !IsSpace(count[|count| - 1])
    ensures Classify(key + ":" + count) == Field(key, count)
  {
    var line := key + ":" + count;
    assert line == key + [':'] + count;
    assert line[|key|] == ':';
    StripEnds(line);
    SplitAtFirst(key, ':', count);
    SplitWithoutSeparator(count, ':');
  }

  /** Reading `a + b` is reading `a`, then `b` from where `a` left the table, unless `a` aborted. */
  lemma {:induction false} ApplyLinesAppend(t: Table, a: seq<string>, b: seq<string>)
    ensures ApplyLines(t, a + b) ==
      match ApplyLines(t, a)
      case Complete(t') => ApplyLines(t', b)
      case Aborted(t') => Aborted(t')
  {
    if a == [] {
      assert a + b == b;
    } else {
      assert (a + b)[0] == a[0];
      assert (a + b)[1..] == a[1..] + b;
      match ApplyLine(t, a[0])
      case Abort =>
      case Continue(t') => ApplyLinesAppend(t', a[1..], b);
    }
  }

  /** A code that no line sets keeps the value it had, whether the parse completes or aborts. */
  lemma {:induction false} UnmentionedCodeKept(t: Table, lines: seq<string>, code: string)
    requires code in t
    requires forall j :: 0 <= j < |lines| ==> !Mentions(lines[j], code)
    ensures ApplyLines(t, lines).table[code] == t[code]
  {
    if lines != [] {
      assert !Mentions(lines[0], code);
      match ApplyLine(t, lines[0])
      case Abort =>
      case Continue(t') =>
        assert t'[code] == t[code];
        UnmentionedCodeKept(t', lines[1..], code);
    }
  }

  /**
   * The last line that sets a code decides its value: its count, or 0 when
   * the count is not an integer, provided the parse got that far.
   */
  lemma LastMentionWins(t: Table, lines: seq<string>, k: nat, code: string, count: string)
    requires code in t
    requires k < |lines| && Classify(lines[k]) == Field(code, count)
    requires forall j :: k < j < |lines| ==> !Mentions(lines[j], code)
    requires ApplyLines(t, lines[..k]).Complete?
    ensures ApplyLines(t, lines).table[code] == CountValue(count)
    ensures ParseInt(count).None? ==> ApplyLines(t, lines).table[code] == 0
  {
    assert lines == lines[..k] + lines[k..];
    ApplyLinesAppend(t, lines[..k], lines[k..]);
    var t1 := ApplyLines(t, lines[..k]).table;
    var t2 := t1[code := CountValue(count)];
    assert ApplyLine(t1, lines[k]) == Continue(t2);
    assert ApplyLines(t1, lines[k..]) == ApplyLines(t2, lines[k + 1..]);
    UnmentionedCodeKept(t2, lines[k + 1..], code);
  }

  /**
   * A line with two or more ':' stops the parse: the lines after it are not
   * read, and the table keeps what the lines before it set.
   */
  lemma AbortStopsParse(t: Table, before: seq<string>, line: string, after: seq<string>)
    requires multiset(line)[':'] >= 2
    requires ApplyLines(t, before).Complete?
    ensures ApplyLines(t, before + [line] + after) == Aborted(ApplyLines(t, before).table)
  {
    ClassifyCases(line);
    ApplyLinesAppend(t, before, [line] + after);
    assert before + [line] + after == before + ([line] + after);
  }

  /**
   * Lines that the parse skips or ignores leave the table as it was: a line
   * without ':', and a line whose key, after stripping, is not a code.
   */
  lemma SkippedLines(t: Table, line: string)
    ensures ':' !in line ==> ApplyLine(t, line) == Continue(t)
    ensures Classify(line).Field? && Classify(line).key !in t ==> ApplyLine(t, line) == Continue(t)
  {
  }

  /**
   * A line read with its line end is read as the line without it: `readlines`
   * keeps the '\n', which `strip()` drops before the split.
   */
  lemma LineEndIgnored(line: string)
    ensures Classify(line + "\n") == Classify(line)
  {
    assert ':' in line + "\n" <==> ':' in line by {
      assert line + "\n" == line + ['\n'];
      assert forall k :: 0 <= k < |line| ==> (line + "\n")[k] == line[k];
    }
    StripDropsTrailingSpace(line, '\n');
  }

  /** A `key:count` line whose key is not V, R or I is ignored. */
  lemma UnknownKeyIgnored(t: Table, key: string, count: string)
    requires ':' !in key && ':' !in count
    requires key == [] || !IsSpace(key[0])
    requires count == [] || !IsSpace(count[|count| - 1])
    requires key !in t
    ensures Classify(key + ":" + count) == Field(key, count)
    ensures ApplyLine(t, key + ":" + count) == Continue(t)
  {
    EntryLineReads(key, count);
  }

  // ---------------------------------------------------------------------
  // Round trip

  /** Three lines joined by newlines, with or without a final newline, are read back as those lines. */
  lemma ReadThreeLines(a: string, b: string, c: string, tail: string)
    requires '\n' !in a && '\n' !in b && '\n' !in c
    requires '\r' !in a && '\r' !in b && '\r' !in c
    requires tail == "" || tail == "\n"
    ensures ReadLines(a + "\n" + b + "\n" + c + tail) == [a, b, c] + (if tail == "" then [] else [""])
  {
    var ab := a + "\n" + b;
    var abc := ab + "\n" + c;
    var text := abc + tail;
    assert '\r' !in text;
    TranslateNewlinesFacts(text);
    SplitWithoutSeparator(a, '\n');
    SplitAtLast(a, '\n', b);
    SplitAtLast(ab, '\n', c);
    assert Split(abc, '\n') == [a, b, c];
    if tail == "\n" {
      assert text == abc + ['\n'] + "";
      SplitAtLast(abc, '\n', "");
    } else {
      assert text == abc;
    }
  }

  /** The three entry lines, with or without a final newline, read back as the table they were made from. */
  lemma EntriesReadBack(t0: Table, t: Table, tail: string)
    requires tail == "" || tail == "\n"
    ensures ApplyLines(t0, ReadLines(EntryText(t, "V") + "\n" + EntryText(t, "R") + "\n" + EntryText(t, "I") + tail))
         == Complete(t)
  {
    EntryReads(t, "V");
    EntryReads(t, "R");
    EntryReads(t, "I");
    FieldLinesReadBack(t0, EntryText(t, "V"), EntryText(t, "R"), EntryText(t, "I"), tail,
                       IntToString(t["V"]), IntToString(t["R"]), IntToString(t["I"]));
    OverwriteAll(t0, t);
  }

  /** Setting all three codes to their values in `t` gives `t`, whatever the table held before. */
  lemma OverwriteAll(t0: Table, t: Table)
    ensures t0["V" := t["V"]]["R" := t["R"]]["I" := t["I"]] == t
  {
  }

  /** The text of three `code:count` lines for V, R and I sets the three codes. */
  lemma FieldLinesReadBack(t0: Table, a: string, b: string, c: string, tail: string, x: string, y: string, z: string)
    requires Classify(a) == Field("V", x) && Classify(b) == Field("R", y) && Classify(c) == Field("I", z)
    requires '\n' !in a && '\n' !in b && '\n' !in c
    requires '\r' !in a && '\r' !in b && '\r' !in c
    requires tail == "" || tail == "\n"
    ensures ApplyLines(t0, ReadLines(a + "\n" + b + "\n" + c + tail))
         == Complete(t0["V" := CountValue(x)]["R" := CountValue(y)]["I" := CountValue(z)])
  {
    ReadThreeLines(a, b, c, tail);
    ApplyThreeFields(t0, a, b, c, if tail == "" then [] else [""], x, y, z);
  }

  /** Three `code:count` lines for V, R and I, then possibly an empty line, set the three codes. */
  lemma ApplyThreeFields(t0: Table, a: string, b: string, c: string, rest: seq<string>, x: string, y: string, z: string)
    requires Classify(a) == Field("V", x) && Classify(b) == Field("R", y) && Classify(c) == Field("I", z)
    requires rest == [] || rest == [""]
    ensures ApplyLines(t0, [a, b, c] + rest)
         == Complete(t0["V" := CountValue(x)]["R" := CountValue(y)]["I" := CountValue(z)])
  {
    var t1 := t0["V" := CountValue(x)];
    ApplyTwoFields(t1, b, c, rest, y, z);
    ApplyFieldLine(t0, a, "V", x, [b, c] + rest);
    assert [a, b, c] + rest == [a] + ([b, c] + rest);
  }

  lemma ApplyTwoFields(t1: Table, b: string, c: string, rest: seq<string>, y: string, z: string)
    requires Classify(b) == Field("R", y) && Classify(c) == Field("I", z)
    requires rest == [] || rest == [""]
    ensures ApplyLines(t1, [b, c] + rest) == Complete(t1["R" := CountValue(y)]["I" := CountValue(z)])
  {
    var t2 := t1["R" := CountValue(y)];
    var t3 := t2["I" := CountValue(z)];
    SkipEmptyTail(t3, rest);
    ApplyFieldLine(t2, c, "I", z, rest);
    ApplyFieldLine(t1, b, "R", y, [c] + rest);
    assert [b, c] + rest == [b] + ([c] + rest);
  }

  lemma SkipEmptyTail(t: Table, rest: seq<string>)
    requires rest == [] || rest == [""]
    ensures ApplyLines(t, rest) == Complete(t)
  {
    if rest != [] {
      assert Classify("") == NoSeparator;
      assert rest[1..] == [];
    }
  }

  /** Reading a `code:count` line sets that code to the count. */
  lemma ApplyFieldLine(current: Table, line: string, code: string, count: string, rest: seq<string>)
    requires code in current && Classify(line) == Field(code, count)
    ensures ApplyLines(current, [line] + rest) == ApplyLines(current[code := CountValue(count)], rest)
  {
    assert ([line] + rest)[0] == line;
    assert ([line] + rest)[1..] == rest;
  }

  /** One entry line is a well-formed `code:count` line whose count reads back exactly. */
  lemma EntryReads(t: Table, code: string)
    requires code in t
    ensures Classify(EntryText(t, code)) == Field(code, IntToString(t[code]))
    ensures CountValue(IntToString(t[code])) == t[code]
    ensures '\n' !in EntryText(t, code) && '\r' !in EntryText(t, code)
  {
    var s := IntToString(t[code]);
    IntRoundTrip(t[code]);
    NumberHasNoSeparator(t[code]);
    CodeHasNoSeparator(code);
    assert EntryText(t, code) == code + ":" + s;
    EntryLineReads(code, s);
  }

  lemma NumberHasNoSeparator(n: int)
    ensures ':' !in IntToString(n) && '\n' !in IntToString(n) && '\r' !in IntToString(n)
    ensures !IsSpace(IntToString(n)[|IntToString(n)| - 1])
  {
    var s := IntToString(n);
    IntToStringChars(n);
    forall k | 0 <= k < |s| ensures s[k] != ':' && s[k] != '\n' && s[k] != '\r' {
      assert IsDigit(s[k]) || s[k] == '-';
    }
    assert IsDigit(s[|s| - 1]);
  }

  lemma CodeHasNoSeparator(code: string)
    requires code in Zero
    ensures ':' !in code && '\n' !in code && '\r' !in code && !IsSpace(code[0])
  {
    assert code == "V" || code == "R" || code == "I";
  }

  /**
   * Serialising a table and parsing the text back gives the same table, for
   * any counts and whatever table the parse starts from.
   */
  lemma SerializeRoundTrip(t0: Table, t: Table)
    ensures ApplyLines(t0, ReadLines(Serialize(t))) == Complete(t)
  {
    SerializeLines(t);
    assert Serialize(t) == EntryText(t, "V") + "\n" + EntryText(t, "R") + "\n" + EntryText(t, "I") + "\n";
    EntriesReadBack(t0, t, "\n");
  }

  lemma SerializeLines(t: Table)
    ensures Serialize(t) == EntryText(t, "V") + "\n" + EntryText(t, "R") + "\n" + EntryText(t, "I") + "\n"
  {
    var ev, er, ei := EntryText(t, "V"), EntryText(t, "R"), EntryText(t, "I");
    assert ["V"][..0] == [] && "" + ev == ev;
    assert SerializeCodes(t, ["V"]) == ev + "\n";
    assert ["V", "R"][..1] == ["V"];
    assert SerializeCodes(t, ["V", "R"]) == ev + "\n" + er + "\n";
    assert Order[..2] == ["V", "R"];
  }

  /** The text written for a missing file reads back as the all-zero table. */
  lemma DefaultTextReadsZero(t0: Table)
    ensures ApplyLines(t0, ReadLines(DefaultText)) == Complete(Zero)
  {
    assert EntryText(Zero, "V") == "V:0" && EntryText(Zero, "R") == "R:0" && EntryText(Zero, "I") == "I:0";
    assert DefaultText == EntryText(Zero, "V") + "\n" + EntryText(Zero, "R") + "\n" + EntryText(Zero, "I") + "";
    EntriesReadBack(t0, Zero, "");
  }

  /**
   * Parsing is tolerant: a count that is not an integer reads as 0, a line
   * without ':' is skipped, and a code the file does not mention keeps 0.
   *
   * The text is a parameter pinned by the precondition rather than a literal
   * in the postcondition: Dafny unfolds functions applied to literals without
   * a fuel bound, and on this text that makes the proof too costly.
   */
  lemma TolerantParse(text: string)
    requires text == "V:abc\nR:3\nbogusline\n"
    ensures ApplyLines(Zero, ReadLines(text)) == Complete(Zero["R" := 3])
  {
    var a, b, c := "V:abc", "R:3", "bogusline";
    assert ReadLines(text) == [a, b, c, ""] by {
      TolerantLines(text, a, b, c);
    }
    assert ApplyLines(Zero, [a, b, c, ""]) == Complete(Zero["V" := 0]["R" := 3]) by {
      TolerantFields(a, b, c);
      TolerantCounts();
      ApplyTwoFieldsThenSkip(Zero, a, b, c, "abc", "3");
    }
    assert Zero["V" := 0]["R" := 3] == Zero["R" := 3];
  }

  lemma TolerantFields(a: string, b: string, c: string)
    requires a == "V:abc" && b == "R:3" && c == "bogusline"
    ensures Classify(a) == Field("V", "abc") && Classify(b) == Field("R", "3") && ':' !in c
  {
    assert a == "V" + ":" + "abc" && b == "R" + ":" + "3";
    EntryLineReads("V", "abc");
    EntryLineReads("R", "3");
  }

  lemma TolerantLines(text: string, a: string, b: string, c: string)
    requires text == "V:abc\nR:3\nbogusline\n"
    requires a == "V:abc" && b == "R:3" && c == "bogusline"
    ensures ReadLines(text) == [a, b, c, ""]
  {
    assert text == a + "\n" + b + "\n" + c + "\n";
    ReadThreeLines(a, b, c, "\n");
  }

  lemma TolerantCounts()
    ensures CountValue("abc") == 0 && CountValue("3") == 3
  {
    TrimIntSpaceKeeps("abc");
    assert !IsDigit("abc"[0]);
    TrimIntSpaceKeeps("3");
    assert DigitsValue("3") == 3;
  }

  lemma ApplyTwoFieldsThenSkip(t: Table, a: string, b: string, c: string, x: string, y: string)
    requires Classify(a) == Field("V", x) && Classify(b) == Field("R", y) && ':' !in c
    ensures ApplyLines(t, [a, b, c, ""]) == Complete(t["V" := CountValue(x)]["R" := CountValue(y)])
  {
    var t2 := t["V" := CountValue(x)]["R" := CountValue(y)];
    assert ApplyLine(t2, c) == Continue(t2);
    SkipEmptyTail(t2, [""]);
    assert ApplyLines(t2, [c, ""]) == ApplyLines(t2, [""]);
    ApplyFieldLine(t["V" := CountValue(x)], b, "R", y, [c, ""]);
    assert [b, c, ""] == [b] + [c, ""];
    ApplyFieldLine(t, a, "V", x, [b, c, ""]);
    assert [a, b, c, ""] == [a] + [b, c, ""];
  }
}
