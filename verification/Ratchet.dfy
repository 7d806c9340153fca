/**
The warning ratchet (tools/ci/check_warning_ratchet.py): writing and loading the per-file baseline,
and the comparison that lets counts fall and never rise. How a number is read is a parameter: all that
is assumed of it is that it reads what the writer prints.
*/
module Ratchet {
  import opened Options

  /** Warnings counted in a log, per file. */
  type Counts = map<string, nat>

  /** What a baseline file allows per file; a hand-written one may hold any integer. */
  type Baseline = map<string, int>

  function Get(c: Baseline, name: string): int { if name in c then c[name] else 0 }

  // ---------------------------------------------------------------- numbers as text

  predicate IsDigit(c: char) { '0' <= c <= '9' }

  function Digit(d: nat): (c: char)
    requires d < 10
    ensures IsDigit(c) && (c as int) - ('0' as int) == d
  {
    ['0', '1', '2', '3', '4', '5', '6', '7', '8', '9'][d]
  }

  function Decimal(n: nat): (s: string)
    ensures s != "" && forall i | 0 <= i < |s| :: IsDigit(s[i])
  {
    if n < 10 then [Digit(n)] else Decimal(n / 10) + [Digit(n % 10)]
  }

  /** The conversion of a string to an integer; None stands for its exception. */
  type Parser = string -> Option<int>

  /** It reads every printed count; what it makes of other strings is left open. */
  ghost predicate Inverts(parse: Parser) { forall n: nat :: parse(Decimal(n)) == Some(n) }

  /** One such conversion: the value of a nonempty string of digits. */
  function ParseDecimal(s: string): Option<int> {
    if s == "" || !IsDigit(s[|s| - 1]) then None
    else
      var d := (s[|s| - 1] as int) - ('0' as int);
      if |s| == 1 then Some(d)
      else match ParseDecimal(s[..|s| - 1]) case None => None case Some(n) => Some(10 * n + d)
  }

  lemma DecimalInverts()
    ensures Inverts(ParseDecimal)
  {
    forall n: nat ensures ParseDecimal(Decimal(n)) == Some(n) {
      DecimalRoundTrip(n);
    }
  }

  lemma {:induction false} DecimalRoundTrip(n: nat)
    ensures ParseDecimal(Decimal(n)) == Some(n)
  {
    if n >= 10 {
      DecimalRoundTrip(n / 10);
      var s := Decimal(n);
      assert s[..|s| - 1] == Decimal(n / 10);
    }
  }

  // ---------------------------------------------------------------- lines

  /** The characters at which Python's splitlines ends a line. */
  predicate IsBreak(c: char) {
    c == '\n' || c == '\r' || c == '\U{b}' || c == '\U{c}' || c == '\U{1c}' || c == '\U{1d}' || c == '\U{1e}'
    || c == '\U{85}' || c == '\U{2028}' || c == '\U{2029}'
  }

  predicate BreakFree(s: string) { forall i | 0 <= i < |s| :: !IsBreak(s[i]) }

  function FirstBreak(s: string): (n: nat)
    ensures n <= |s| && BreakFree(s[..n]) && (n < |s| ==> IsBreak(s[n]))
  {
    if s == "" || IsBreak(s[0]) then 0
    else
      var n := 1 + FirstBreak(s[1..]);
      assert s[..n] == [s[0]] + s[1..][..n - 1];
      n
  }

  /** What follows the break at position n; a carriage return and a line feed together are one break. */
  function AfterBreak(s: string, n: nat): string
    requires n < |s|
  {
    if s[n] == '\r' && n + 1 < |s| && s[n + 1] == '\n' then s[n + 2..] else s[n + 1..]
  }

  /** Lines without their ends; a carriage return and a line feed together end one line. */
  function SplitLines(s: string): (lines: seq<string>)
    ensures forall i | 0 <= i < |lines| :: BreakFree(lines[i])
    decreases |s|
  {
    if s == "" then []
    else
      var n := FirstBreak(s);
      if n == |s| then [s]
      else [s[..n]] + SplitLines(AfterBreak(s, n))
  }

  /** The characters that end a line, written out: nothing else does, and a carriage return and a line feed make one end. */
  lemma SplitsExactlyAt(c: char)
    ensures SplitLines(['a', c, 'b'])
            == if c in ['\n', '\r', '\U{b}', '\U{c}', '\U{1c}', '\U{1d}', '\U{1e}', '\U{85}', '\U{2028}', '\U{2029}']
               then ["a", "b"] else [['a', c, 'b']]
    ensures SplitLines("a\r\nb") == ["a", "b"]
  {
    assert BreakFree("a") && BreakFree("b");
    assert SplitLines("b") == ["b"] by {
      assert FirstBreak("b") == 1;
    }
    if IsBreak(c) {
      FirstLine("a", c, "b");
      assert "a" + [c] + "b" == ['a', c, 'b'];
    } else {
      var s := ['a', c, 'b'];
      var n := FirstBreak(s);
      assert n == 3;
    }
    var t := "a\r\nb";
    var n := FirstBreak(t);
    assert t[0] == 'a' && t[1] == '\r' && t[2] == '\n';
    forall i | 0 <= i < n ensures !IsBreak(t[i]) {
      assert t[..n][i] == t[i];
    }
    assert n == 1;
    assert t[..1] == "a" && t[3..] == "b";
  }

  /** Each line followed by a line feed. */
  function JoinLines(lines: seq<string>): string {
    if lines == [] then "" else lines[0] + "\n" + JoinLines(lines[1..])
  }

  /** Any break ends a line, unless it is the first half of a pair. */
  lemma FirstLine(line: string, end: char, rest: string)
    requires BreakFree(line) && IsBreak(end) && !(end == '\r' && rest != "" && rest[0] == '\n')
    ensures SplitLines(line + [end] + rest) == [line] + SplitLines(rest)
  {
    var s := line + [end] + rest;
    var n := FirstBreak(s);
    assert s[|line|] == end;
    forall i | 0 <= i < n ensures !IsBreak(s[i]) {
      assert s[..n][i] == s[i];
    }
    assert forall i | 0 <= i < |line| :: s[i] == line[i];
    assert s[..n] == line && s[n + 1..] == rest;
    assert n + 1 < |s| ==> s[n + 1] == rest[0];
    hide IsBreak;
  }

  lemma Regrouped(a: string, c: char, b: string, rest: string)
    ensures a + [c] + b + rest == a + [c] + (b + rest)
  {
  }

  lemma HeadAndTail(lines: seq<string>, more: seq<string>)
    requires lines != []
    ensures [lines[0]] + (lines[1..] + more) == lines + more
  {
  }

  lemma {:induction false} SplitJoined(lines: seq<string>, rest: string)
    requires forall i | 0 <= i < |lines| :: BreakFree(lines[i])
    ensures SplitLines(JoinLines(lines) + rest) == lines + SplitLines(rest)
    decreases |lines|
  {
    if lines == [] {
      assert JoinLines(lines) + rest == rest;
    } else {
      hide SplitLines, BreakFree;
      var more := JoinLines(lines[1..]);
      assert JoinLines(lines) == lines[0] + ['\n'] + more;
      hide JoinLines;
      Regrouped(lines[0], '\n', more, rest);
      FirstLine(lines[0], '\n', more + rest);
      SplitJoined(lines[1..], rest);
      HeadAndTail(lines, SplitLines(rest));
    }
  }

  lemma LinesRoundTrip(lines: seq<string>)
    requires forall i | 0 <= i < |lines| :: BreakFree(lines[i])
    ensures SplitLines(JoinLines(lines)) == lines
  {
    hide BreakFree;
    SplitJoined(lines, "");
    assert JoinLines(lines) + "" == JoinLines(lines) && lines + [] == lines;
  }

  lemma {:induction false} JoinAppended(a: seq<string>, b: seq<string>)
    ensures JoinLines(a + b) == JoinLines(a) + JoinLines(b)
    decreases |a|
  {
    if a == [] {
      assert a + b == b;
    } else {
      assert (a + b)[1..] == a[1..] + b;
      JoinAppended(a[1..], b);
    }
  }

  // ---------------------------------------------------------------- the baseline file

  // The two long lines are written in pieces, each short enough to be checked character by character.
  const TITLE: string := "# Per-file warning " + "counts under the " + "strict sweep (see " + "WSE_WARNING_SWEEP)."
  const RULE: string := "# A count may only " + "decrease; regenerating" + " this file is a " + "reviewed action."
  const COLUMNS: string := "# file<TAB>count"

  const HEADER: seq<string> := [TITLE, RULE, COLUMNS]

  function EntryLine(name: string, count: nat): string { name + "\t" + Decimal(count) }

  function EntryLines(names: seq<string>, counts: Counts): seq<string>
    requires forall i | 0 <= i < |names| :: names[i] in counts
  {
    seq(|names|, i requires 0 <= i < |names| => EntryLine(names[i], counts[names[i]]))
  }

  /** `names` lists the files of `counts`, each once; the program lists them in sorted order. */
  ghost predicate Lists(names: seq<string>, counts: Counts) {
    && (forall n :: n in names <==> n in counts)
    && (forall i, j | 0 <= i < j < |names| :: names[i] != names[j])
  }

  function WriteBaseline(names: seq<string>, counts: Counts): string
    requires forall i | 0 <= i < |names| :: names[i] in counts
  {
    JoinLines(HEADER + EntryLines(names, counts))
  }

  /** What a written baseline looks like: the comment lines, then name, tab and count, each with a line feed. */
  lemma WrittenText(name: string)
    ensures WriteBaseline([name], map[name := 120]) == TITLE + "\n" + (RULE + "\n" + (COLUMNS + "\n" + (name + "\t120" + "\n")))
  {
    assert Decimal(120) == Decimal(12) + ['0'] && Decimal(12) == Decimal(1) + ['2'] && Decimal(1) == ['1'];
    assert Decimal(120) == "120";
    assert EntryLine(name, 120) == name + "\t120";
    hide Decimal, EntryLine;
    var counts: Counts := map[name := 120];
    var lines := HEADER + EntryLines([name], counts);
    assert lines == [TITLE, RULE, COLUMNS, EntryLine(name, 120)];
    FourLines(TITLE, RULE, COLUMNS, EntryLine(name, 120));
  }

  lemma FourLines(a: string, b: string, c: string, d: string)
    ensures JoinLines([a, b, c, d]) == a + "\n" + (b + "\n" + (c + "\n" + (d + "\n")))
  {
    assert [a, b, c, d][1..] == [b, c, d] && [b, c, d][1..] == [c, d] && [c, d][1..] == [d] && [d][1..] == [];
    assert JoinLines([]) == "" && JoinLines([d]) == d + "\n" + "";
    assert d + "\n" + "" == d + "\n";
    assert JoinLines([c, d]) == c + "\n" + (d + "\n");
    assert JoinLines([b, c, d]) == b + "\n" + (c + "\n" + (d + "\n"));
  }

  /** Position of the last tab, or the length when there is none. */
  function LastTab(s: string): (n: nat)
    ensures n <= |s| && (n < |s| ==> s[n] == '\t')
    ensures forall i | 0 <= i < |s| && s[i] == '\t' :: n < |s| && i <= n
  {
    if s == "" then 0
    else if s[|s| - 1] == '\t' then |s| - 1
    else
      var n := LastTab(s[..|s| - 1]);
      if n == |s| - 1 then |s| else n
  }

  predicate Skipped(line: string) { line == "" || line[0] == '#' }

  /** What a line says: nothing, a count for a file, or something that is no number. */
  datatype Reading = Ignored | Entry(key: string, value: int) | Broken

  /** One line: everything before the last tab names the file, the rest is its count. */
  function Read(parse: Parser, line: string): Reading {
    if Skipped(line) then Ignored
    else
      var t := LastTab(line);
      var (name, value) := if t < |line| then (line[..t], line[t + 1..]) else ("", line);
      match parse(value) case None => Broken case Some(n) => Entry(name, n)
  }

  function LoadLine(parse: Parser, line: string, counts: Baseline): Option<Baseline> {
    match Read(parse, line)
    case Ignored => Some(counts)
    case Entry(key, value) => Some(counts[key := value])
    case Broken => None
  }

  function LoadLines(parse: Parser, lines: seq<string>, counts: Baseline): Option<Baseline>
    decreases |lines|
  {
    if lines == [] then Some(counts)
    else match LoadLine(parse, lines[0], counts) case None => None case Some(c) => LoadLines(parse, lines[1..], c)
  }

  /** Lines, written out: blank lines and comments say nothing, and only the last tab separates. */
  lemma LinesReadAs(parse: Parser)
    requires parse("7") == Some(7)
    ensures Read(parse, "") == Ignored && Read(parse, "#\t7") == Ignored
    ensures Read(parse, "a\tb\t7") == Entry("a\tb", 7) && Read(parse, "7") == Entry("", 7)
  {
    var line := "a\tb\t7";
    assert line[3] == '\t' && line[4] == '7';
    assert LastTab(line) == 3 && line[..3] == "a\tb" && line[4..] == "7";
    assert LastTab("7") == 1;
  }

  /** A missing baseline file counts as an empty one. */
  function LoadBaseline(parse: Parser, file: Option<string>): Option<Baseline> {
    match file case None => Some(map[]) case Some(text) => LoadLines(parse, SplitLines(text), map[])
  }

  /** The names a baseline can carry. */
  predicate Plain(name: string) { BreakFree(name) && (name == "" || name[0] != '#') }

  // ---------------------------------------------------------------- round trip

  lemma EntryReads(parse: Parser, name: string, count: nat)
    requires Inverts(parse) && BreakFree(name)
    ensures BreakFree(EntryLine(name, count)) && EntryLine(name, count) != ""
    ensures Read(parse, EntryLine(name, count)) == if Plain(name) then Entry(name, count) else Ignored
  {
    var line, digits := EntryLine(name, count), Decimal(count);
    forall i | 0 <= i < |line| ensures !IsBreak(line[i]) {
      if i > |name| { assert line[i] == digits[i - |name| - 1]; }
    }
    if Plain(name) {
      assert line[|name|] == '\t';
      var t := LastTab(line);
      forall i | |name| < i < |line| ensures line[i] != '\t' {
        assert line[i] == digits[i - |name| - 1];
      }
      assert line[..t] == name && line[t + 1..] == digits;
      assert parse(digits) == Some(count);
      hide Decimal;
    } else {
      assert line[0] == '#';
    }
  }

  /** The listed entries that survive being written and loaded. */
  ghost function PlainPart(names: seq<string>, counts: Counts): Counts {
    map n | n in names && n in counts && Plain(n) :: counts[n]
  }

  lemma PlainPartStep(names: seq<string>, counts: Counts, acc: Baseline)
    requires names != [] && names[0] in counts
    ensures (if Plain(names[0]) then acc[names[0] := counts[names[0]]] else acc) + PlainPart(names[1..], counts)
         == acc + PlainPart(names, counts)
  {
    hide Plain;
    assert forall n :: n in names <==> n == names[0] || n in names[1..];
  }

  lemma {:induction false} EntriesLoad(parse: Parser, names: seq<string>, counts: Counts, acc: Baseline)
    requires Inverts(parse) && forall i | 0 <= i < |names| :: names[i] in counts && BreakFree(names[i])
    ensures LoadLines(parse, EntryLines(names, counts), acc) == Some(acc + PlainPart(names, counts))
    decreases |names|
  {
    if names == [] {
      assert acc + PlainPart(names, counts) == acc;
    } else {
      hide Read, EntryLine, Plain, Inverts;
      var lines := EntryLines(names, counts);
      EntryReads(parse, names[0], counts[names[0]]);
      assert lines[0] == EntryLine(names[0], counts[names[0]]) && lines[1..] == EntryLines(names[1..], counts);
      var acc' := if Plain(names[0]) then acc[names[0] := counts[names[0]]] else acc;
      EntriesLoad(parse, names[1..], counts, acc');
      PlainPartStep(names, counts, acc);
    }
  }

  lemma {:induction false} LoadSkips(parse: Parser, a: seq<string>, b: seq<string>, counts: Baseline)
    requires forall i | 0 <= i < |a| :: Skipped(a[i])
    ensures LoadLines(parse, a + b, counts) == LoadLines(parse, b, counts)
    decreases |a|
  {
    if a == [] {
      assert a + b == b;
    } else {
      assert (a + b)[0] == a[0] && (a + b)[1..] == a[1..] + b;
      LoadSkips(parse, a[1..], b, counts);
    }
  }

  lemma HeaderIsPlainText()
    ensures forall i | 0 <= i < |HEADER| :: BreakFree(HEADER[i]) && Skipped(HEADER[i])
  {
    TitleBreakFree();
    RuleBreakFree();
  }

  lemma TitleBreakFree()
    ensures BreakFree(TITLE)
  {
    assert BreakFree("# Per-file warning ") && BreakFree("counts under the ");
    assert BreakFree("strict sweep (see ") && BreakFree("WSE_WARNING_SWEEP).");
  }

  lemma RuleBreakFree()
    ensures BreakFree(RULE)
  {
    assert BreakFree("# A count may only ") && BreakFree("decrease; regenerating");
    assert BreakFree(" this file is a ") && BreakFree("reviewed action.");
  }

  lemma SkipHeader(parse: Parser, header: seq<string>, entries: string, lines: seq<string>)
    requires forall i | 0 <= i < |header| :: BreakFree(header[i]) && Skipped(header[i])
    requires SplitLines(entries) == lines
    ensures LoadLines(parse, SplitLines(JoinLines(header) + entries), map[]) == LoadLines(parse, lines, map[])
  {
    hide BreakFree, Skipped, SplitLines, JoinLines, LoadLines;
    SplitJoined(header, entries);
    LoadSkips(parse, header, lines, map[]);
  }

  /** What a written baseline loads is what the lines of its entries load. */
  lemma WrittenLines(parse: Parser, names: seq<string>, counts: Counts, lines: seq<string>)
    requires forall i | 0 <= i < |names| :: names[i] in counts
    requires SplitLines(JoinLines(EntryLines(names, counts))) == lines
    ensures LoadBaseline(parse, Some(WriteBaseline(names, counts))) == LoadLines(parse, lines, map[])
  {
    hide BreakFree, Skipped, SplitLines, JoinLines, LoadLines, EntryLines;
    HeaderIsPlainText();
    JoinAppended(HEADER, EntryLines(names, counts));
    SkipHeader(parse, HEADER, JoinLines(EntryLines(names, counts)), lines);
  }

  /** Loading a written baseline restores exactly the entries whose names do not start a comment. */
  lemma WrittenLoads(parse: Parser, names: seq<string>, counts: Counts)
    requires Inverts(parse) && Lists(names, counts) && forall n | n in names :: BreakFree(n)
    ensures LoadBaseline(parse, Some(WriteBaseline(names, counts))) == Some(PlainPart(names, counts))
  {
    var lines := EntryLines(names, counts);
    forall i | 0 <= i < |lines| ensures BreakFree(lines[i]) {
      EntryReads(parse, names[i], counts[names[i]]);
    }
    hide BreakFree, EntryLine, Plain, WriteBaseline, LoadBaseline, Inverts, SplitLines, JoinLines;
    LinesRoundTrip(lines);
    WrittenLines(parse, names, counts, lines);
    EntriesLoad(parse, names, counts, map[]);
    var kept: Baseline := PlainPart(names, counts);
    assert map[] + kept == kept;
  }

  lemma {:induction false} LoadedNamesPlain(parse: Parser, lines: seq<string>, counts: Baseline)
    requires forall i | 0 <= i < |lines| :: BreakFree(lines[i])
    requires forall n | n in counts :: Plain(n)
    ensures LoadLines(parse, lines, counts).Some? ==> forall n | n in LoadLines(parse, lines, counts).value :: Plain(n)
    decreases |lines|
  {
    if lines != [] {
      var r := LoadLine(parse, lines[0], counts);
      if r.Some? {
        LoadedNamePlain(parse, lines[0], counts);
        LoadedNamesPlain(parse, lines[1..], r.value);
      }
    }
  }

  lemma LoadedNamePlain(parse: Parser, line: string, counts: Baseline)
    requires BreakFree(line) && forall n | n in counts :: Plain(n)
    ensures LoadLine(parse, line, counts).Some? ==> forall n | n in LoadLine(parse, line, counts).value :: Plain(n)
  {
    if !Skipped(line) {
      var t := LastTab(line);
      assert Plain(line[..t]);
    }
  }

  /** Counts survive a rewrite of the baseline exactly when every file name is plain; tabs do no harm. */
  lemma BaselineRoundTripIff(parse: Parser, names: seq<string>, counts: Counts)
    requires Inverts(parse) && Lists(names, counts)
    ensures LoadBaseline(parse, Some(WriteBaseline(names, counts))) == Some(counts) <==> forall n | n in counts :: Plain(n)
  {
    if forall n | n in counts :: Plain(n) {
      WrittenLoads(parse, names, counts);
      assert PlainPart(names, counts) == counts;
    } else {
      LoadedNamesPlain(parse, SplitLines(WriteBaseline(names, counts)), map[]);
    }
  }

  // ---------------------------------------------------------------- names with line breaks

  /** A name cut at its line breaks: the pieces before the last, and the last. */
  function Pieces(name: string): (r: (seq<string>, string))
    ensures BreakFree(r.1) && forall i | 0 <= i < |r.0| :: BreakFree(r.0[i])
    decreases |name|
  {
    var n := FirstBreak(name);
    if n == |name| then
      assert name[..n] == name;
      ([], name)
    else
      var (front, last) := Pieces(AfterBreak(name, n));
      ([name[..n]] + front, last)
  }

  /** The lines that an entry becomes: the pieces as they are, and the last one with the count. */
  function NameLines(name: string, count: nat): seq<string> {
    Pieces(name).0 + [EntryLine(Pieces(name).1, count)]
  }

  function AllLines(names: seq<string>, counts: Counts): seq<string>
    requires forall i | 0 <= i < |names| :: names[i] in counts
    decreases |names|
  {
    if names == [] then [] else NameLines(names[0], counts[names[0]]) + AllLines(names[1..], counts)
  }

  /** Text after a name that does not start with a break leaves the pieces of the name alone. */
  lemma {:induction false} SplitName(name: string, tail: string)
    requires tail != "" && !IsBreak(tail[0])
    ensures SplitLines(name + tail) == Pieces(name).0 + SplitLines(Pieces(name).1 + tail)
    decreases |name|
  {
    hide SplitLines, BreakFree, IsBreak;
    var n := FirstBreak(name);
    if n == |name| {
      assert Pieces(name) == ([], name);
    } else {
      var rest := AfterBreak(name, n);
      assert Pieces(name) == ([name[..n]] + Pieces(rest).0, Pieces(rest).1);
      hide Pieces;
      CutAtBreak(name, n, tail);
      SplitName(rest, tail);
      Reassociated([name[..n]], Pieces(rest).0, SplitLines(Pieces(rest).1 + tail));
    }
  }

  lemma Reassociated(a: seq<string>, b: seq<string>, c: seq<string>)
    ensures a + (b + c) == (a + b) + c
  {
  }

  lemma CutAtBreak(name: string, n: nat, tail: string)
    requires n == FirstBreak(name) < |name| && tail != "" && !IsBreak(tail[0])
    ensures SplitLines(name + tail) == [name[..n]] + SplitLines(AfterBreak(name, n) + tail)
  {
    var s := name + tail;
    FirstBreakIs(s, n, name);
    AfterBreakAppended(name, n, tail);
    assert s[..n] == name[..n];
    hide AfterBreak, BreakFree;
  }

  lemma AfterBreakAppended(name: string, n: nat, tail: string)
    requires n < |name| && tail != "" && !IsBreak(tail[0])
    ensures AfterBreak(name + tail, n) == AfterBreak(name, n) + tail
  {
    var s := name + tail;
    assert s[n] == name[n];
    assert n + 1 < |s| && s[n + 1] == if n + 1 < |name| then name[n + 1] else tail[0];
    assert s[n + 1..] == name[n + 1..] + tail;
    assert n + 2 <= |name| ==> s[n + 2..] == name[n + 2..] + tail;
  }

  lemma FirstBreakIs(s: string, n: nat, name: string)
    requires n == FirstBreak(name) < |name| <= |s| && forall i | 0 <= i < |name| :: s[i] == name[i]
    ensures FirstBreak(s) == n
  {
    var m := FirstBreak(s);
    forall i | 0 <= i < n ensures !IsBreak(s[i]) {
      assert name[..n][i] == name[i];
    }
    forall i | 0 <= i < m ensures !IsBreak(s[i]) {
      assert s[..m][i] == s[i];
    }
    assert IsBreak(s[n]);
  }

  /** The text of written entries splits into the lines of their names. */
  lemma {:induction false} SplitEntries(names: seq<string>, counts: Counts)
    requires forall i | 0 <= i < |names| :: names[i] in counts
    ensures SplitLines(JoinLines(EntryLines(names, counts))) == AllLines(names, counts)
    decreases |names|
  {
    if names != [] {
      var name, count := names[0], counts[names[0]];
      var more := JoinLines(EntryLines(names[1..], counts));
      EntriesText(names, counts);
      SplitEntry(name, count, more);
      SplitEntries(names[1..], counts);
      hide SplitLines, JoinLines, EntryLines, NameLines;
    }
  }

  lemma EntriesText(names: seq<string>, counts: Counts)
    requires names != [] && forall i | 0 <= i < |names| :: names[i] in counts
    ensures JoinLines(EntryLines(names, counts))
            == EntryLine(names[0], counts[names[0]]) + ['\n'] + JoinLines(EntryLines(names[1..], counts))
  {
    var lines := EntryLines(names, counts);
    assert lines[1..] == EntryLines(names[1..], counts);
    hide EntryLine;
  }

  lemma SplitEntry(name: string, count: nat, more: string)
    ensures SplitLines(EntryLine(name, count) + ['\n'] + more) == NameLines(name, count) + SplitLines(more)
  {
    var front, last := Pieces(name).0, Pieces(name).1;
    var tail := "\t" + Decimal(count) + ['\n'] + more;
    var line := EntryLine(last, count);
    hide Decimal, BreakFree, SplitLines, Read, Pieces;
    NameAndTail(name, "\t", Decimal(count), more);
    NameAndTail(last, "\t", Decimal(count), more);
    DecimalInverts();
    EntryReads(ParseDecimal, last, count);
    assert tail[0] == '\t';
    hide EntryLine;
    SplitName(name, tail);
    FirstLine(line, '\n', more);
    Reassociated(front, [line], SplitLines(more));
  }

  lemma NameAndTail(name: string, tab: string, digits: string, more: string)
    ensures name + tab + digits + ['\n'] + more == name + (tab + digits + ['\n'] + more)
  {
  }

  // ---------------------------------------------------------------- which assignment a key gets

  /** A written baseline assigns fixed values, from pieces inside names, and counts, from the ends of entries. */
  datatype Setting = Fixed(key: string, value: int) | Counted(key: string, name: string)

  function FrontSettings(parse: Parser, pieces: seq<string>): Option<seq<Setting>>
    decreases |pieces|
  {
    if pieces == [] then Some([])
    else
      match FrontSettings(parse, pieces[1..])
      case None => None
      case Some(rest) =>
        match Read(parse, pieces[0])
        case Ignored => Some(rest)
        case Entry(key, value) => Some([Fixed(key, value)] + rest)
        case Broken => None
  }

  function EndSettings(last: string, name: string): seq<Setting> { if Plain(last) then [Counted(last, name)] else [] }

  /** The assignments of all entries in order; None when some piece inside a name is no entry. */
  function Settings(parse: Parser, names: seq<string>): Option<seq<Setting>>
    decreases |names|
  {
    if names == [] then Some([])
    else
      match (FrontSettings(parse, Pieces(names[0]).0), Settings(parse, names[1..]))
      case (Some(front), Some(rest)) => Some(front + EndSettings(Pieces(names[0]).1, names[0]) + rest)
      case _ => None
  }

  ghost predicate Backed(ss: seq<Setting>, counts: Counts) {
    forall i | 0 <= i < |ss| && ss[i].Counted? :: ss[i].name in counts
  }

  function ValueOf(s: Setting, counts: Counts): int
    requires s.Counted? ==> s.name in counts
  {
    if s.Counted? then counts[s.name] else s.value
  }

  ghost function Applied(ss: seq<Setting>, counts: Counts, b: Baseline): Baseline
    requires Backed(ss, counts)
    decreases |ss|
  {
    if ss == [] then b else Applied(ss[1..], counts, b[ss[0].key := ValueOf(ss[0], counts)])
  }

  lemma {:induction false} AppliedJoined(a: seq<Setting>, c: seq<Setting>, counts: Counts, b: Baseline)
    requires Backed(a, counts) && Backed(c, counts)
    ensures Backed(a + c, counts) && Applied(a + c, counts, b) == Applied(c, counts, Applied(a, counts, b))
    decreases |a|
  {
    if a == [] {
      assert a + c == c;
    } else {
      assert (a + c)[0] == a[0] && (a + c)[1..] == a[1..] + c;
      AppliedJoined(a[1..], c, counts, b[a[0].key := ValueOf(a[0], counts)]);
    }
  }

  lemma {:induction false} LoadJoined(parse: Parser, a: seq<string>, c: seq<string>, b: Baseline)
    ensures LoadLines(parse, a + c, b)
            == match LoadLines(parse, a, b) case None => None case Some(m) => LoadLines(parse, c, m)
    decreases |a|
  {
    hide LoadLine;
    if a == [] {
      assert a + c == c;
    } else {
      assert (a + c)[0] == a[0] && (a + c)[1..] == a[1..] + c;
      var r := LoadLine(parse, a[0], b);
      if r.Some? {
        LoadJoined(parse, a[1..], c, r.value);
      }
    }
  }

  lemma {:induction false} FrontLoads(parse: Parser, pieces: seq<string>, counts: Counts, b: Baseline)
    ensures var ss := FrontSettings(parse, pieces);
            && (ss.Some? ==> Backed(ss.value, counts))
            && LoadLines(parse, pieces, b) == match ss case None => None case Some(v) => Some(Applied(v, counts, b))
    decreases |pieces|
  {
    hide Read;
    if pieces != [] {
      match Read(parse, pieces[0])
      case Ignored =>
        FrontLoads(parse, pieces[1..], counts, b);
      case Entry(key, value) =>
        FrontLoads(parse, pieces[1..], counts, b[key := value]);
        var rest := FrontSettings(parse, pieces[1..]);
        if rest.Some? {
          var ss := [Fixed(key, value)] + rest.value;
          assert ss[1..] == rest.value;
        }
      case Broken =>
    }
  }

  lemma NameLoads(parse: Parser, name: string, counts: Counts, b: Baseline)
    requires Inverts(parse) && name in counts
    ensures var front := FrontSettings(parse, Pieces(name).0);
            && (front.Some? ==> Backed(front.value + EndSettings(Pieces(name).1, name), counts))
            && LoadLines(parse, NameLines(name, counts[name]), b)
               == match front case None => None
                              case Some(v) => Some(Applied(v + EndSettings(Pieces(name).1, name), counts, b))
  {
    var pieces, last := Pieces(name).0, Pieces(name).1;
    var line, end := EntryLine(last, counts[name]), EndSettings(last, name);
    EntryReads(parse, last, counts[name]);
    hide Read, EntryLine, Plain, Pieces, Inverts, FrontSettings;
    FrontLoads(parse, pieces, counts, b);
    LoadJoined(parse, pieces, [line], b);
    var front := FrontSettings(parse, pieces);
    if front.Some? {
      var mid := Applied(front.value, counts, b);
      AppliedJoined(front.value, end, counts, b);
      OneLine(parse, line, mid);
      assert Plain(last) ==> end[1..] == [];
    }
  }

  lemma OneLine(parse: Parser, line: string, b: Baseline)
    ensures LoadLines(parse, [line], b) == LoadLine(parse, line, b)
  {
    hide Read;
    assert [line][1..] == [];
  }

  /** What the lines of written entries load is what their settings assign. */
  lemma {:induction false} SettingsLoad(parse: Parser, names: seq<string>, counts: Counts, b: Baseline)
    requires Inverts(parse) && forall i | 0 <= i < |names| :: names[i] in counts
    ensures var ss := Settings(parse, names);
            && (ss.Some? ==> Backed(ss.value, counts))
            && LoadLines(parse, AllLines(names, counts), b) == match ss case None => None case Some(v) => Some(Applied(v, counts, b))
    decreases |names|
  {
    if names != [] {
      hide NameLines, Pieces, Inverts, FrontSettings, EndSettings;
      var name := names[0];
      NameLoads(parse, name, counts, b);
      LoadJoined(parse, NameLines(name, counts[name]), AllLines(names[1..], counts), b);
      var front := FrontSettings(parse, Pieces(name).0);
      var rest := Settings(parse, names[1..]);
      if front.Some? {
        var mine := front.value + EndSettings(Pieces(name).1, name);
        SettingsLoad(parse, names[1..], counts, Applied(mine, counts, b));
        if rest.Some? {
          AppliedJoined(mine, rest.value, counts, b);
        }
      }
    }
  }

  /** The last assignment to a key. */
  function LastFor(ss: seq<Setting>, key: string): (r: Option<Setting>)
    ensures r.Some? ==> r.value.key == key && r.value in ss
  {
    if ss == [] then None
    else if ss[|ss| - 1].key == key then Some(ss[|ss| - 1])
    else LastFor(ss[..|ss| - 1], key)
  }

  lemma {:induction false} LastForFirst(ss: seq<Setting>, key: string)
    requires ss != []
    ensures LastFor(ss, key)
            == if LastFor(ss[1..], key).Some? then LastFor(ss[1..], key) else if ss[0].key == key then Some(ss[0]) else None
    decreases |ss|
  {
    var n := |ss| - 1;
    if n > 0 {
      LastForFirst(ss[..n], key);
      assert ss[..n][1..] == ss[1..][..n - 1] && ss[1..][n - 1] == ss[n];
    }
  }

  lemma {:induction false} AppliedGet(ss: seq<Setting>, counts: Counts, b: Baseline, key: string)
    requires Backed(ss, counts)
    ensures var last := LastFor(ss, key);
            && (key in Applied(ss, counts, b) <==> last.Some? || key in b)
            && (last.Some? ==> (last.value.Counted? ==> last.value.name in counts)
                               && Applied(ss, counts, b)[key] == ValueOf(last.value, counts))
            && (last.None? && key in b ==> Applied(ss, counts, b)[key] == b[key])
    decreases |ss|
  {
    if ss != [] {
      LastForFirst(ss, key);
      hide LastFor;
      AppliedGet(ss[1..], counts, b[ss[0].key := ValueOf(ss[0], counts)], key);
    }
  }

  // ---------------------------------------------------------------- the gate

  /** No file has more warnings than its baseline; a file without an entry must have none. */
  ghost predicate Holds(counts: Baseline, baseline: Baseline) {
    forall n :: Get(counts, n) <= Get(baseline, n)
  }

  /** The comparison loop over the files of either side. */
  method Compare(counts: Counts, baseline: Baseline, names: seq<string>) returns (regressions: seq<string>, improvements: seq<string>)
    requires forall n :: n in names <==> n in counts || n in baseline
    ensures regressions == [] <==> Holds(counts, baseline)
    ensures forall n :: n in regressions <==> Get(counts, n) > Get(baseline, n)
    ensures forall n :: n in improvements <==> Get(counts, n) < Get(baseline, n)
    ensures forall n | n in counts && n in baseline :: n in regressions <==> counts[n] > baseline[n]
    ensures forall n | n in counts && n !in baseline :: n in regressions <==> counts[n] > 0
    ensures forall n | n !in counts && n in baseline :: n in improvements <==> 0 < baseline[n]
  {
    regressions, improvements := [], [];
    for i := 0 to |names|
      invariant forall n :: n in regressions <==> n in names[..i] && Get(counts, n) > Get(baseline, n)
      invariant forall n :: n in improvements <==> n in names[..i] && Get(counts, n) < Get(baseline, n)
    {
      var now, was := Get(counts, names[i]), Get(baseline, names[i]);
      assert forall n :: n in names[..i + 1] <==> n in names[..i] || n == names[i];
      if now > was {
        regressions := regressions + [names[i]];
      } else if now < was {
        improvements := improvements + [names[i]];
      }
    }
    assert names[..|names|] == names;
    if regressions != [] {
      assert regressions[0] in regressions;
    }
  }

  lemma HoldsTransitive(a: Baseline, b: Baseline, c: Baseline)
    requires Holds(a, b) && Holds(b, c)
    ensures Holds(a, c)
  {
    forall n ensures Get(a, n) <= Get(c, n) {
      assert Get(a, n) <= Get(b, n) <= Get(c, n);
    }
  }

  ghost predicate Passes(parse: Parser, file: Option<string>, counts: Counts) {
    LoadBaseline(parse, file).Some? && Holds(counts, LoadBaseline(parse, file).value)
  }

  /** Without a baseline file only a log without warnings passes. */
  lemma MissingBaseline(parse: Parser, counts: Counts)
    ensures Passes(parse, None, counts) <==> forall n | n in counts :: counts[n] == 0
  {
    if forall n | n in counts :: counts[n] == 0 {
      assert Holds(counts, map[]);
    } else {
      var n :| n in counts && counts[n] != 0;
      assert Get(counts, n) > Get(map[], n);
    }
  }

  // ---------------------------------------------------------------- the total

  ghost function Total(c: Baseline): int
    decreases |c|
  {
    if c == map[] then 0 else var n :| n in c; c[n] + Total(c - {n})
  }

  lemma {:induction false} TotalWithout(c: Baseline, n: string)
    requires n in c
    ensures Total(c) == c[n] + Total(c - {n})
    decreases |c|
  {
    var m :| m in c && Total(c) == c[m] + Total(c - {m});
    if m != n {
      TotalWithout(c - {m}, n);
      TotalWithout(c - {n}, m);
      assert c - {m} - {n} == c - {n} - {m};
    }
  }

  lemma {:induction false} TotalNonnegative(c: Baseline)
    requires Holds(map[], c)
    ensures Total(c) >= 0
    decreases |c|
  {
    if c != map[] {
      var n :| n in c;
      TotalWithout(c, n);
      assert Get(map[], n) <= Get(c, n);
      assert Holds(map[], c - {n}) by {
        forall m ensures Get(map[], m) <= Get(c - {n}, m) {
          assert Get(map[], m) <= Get(c, m);
        }
      }
      TotalNonnegative(c - {n});
    }
  }

  lemma {:induction false} TotalMonotone(a: Baseline, b: Baseline)
    requires Holds(a, b)
    ensures Total(a) <= Total(b)
    decreases |a|
  {
    if a == map[] {
      TotalNonnegative(b);
    } else {
      var n :| n in a;
      TotalWithout(a, n);
      assert Get(a, n) <= Get(b, n);
      assert Holds(a - {n}, b - {n}) by {
        forall m ensures Get(a - {n}, m) <= Get(b - {n}, m) {
          assert Get(a, m) <= Get(b, m);
        }
      }
      TotalMonotone(a - {n}, b - {n});
      if n in b {
        TotalWithout(b, n);
      } else {
        assert b - {n} == b;
      }
    }
  }

  // ---------------------------------------------------------------- when a rewrite is safe

  /** Every listed file has warnings, as every file in a log does. */
  ghost predicate Positive(names: seq<string>, counts: Counts) {
    Lists(names, counts) && forall n | n in counts :: counts[n] >= 1
  }

  /** No gate that passes against the rewritten baseline has a higher count than was written. */
  ghost predicate RewriteSafe(parse: Parser, names: seq<string>, counted: Counts)
    requires Lists(names, counted)
  {
    forall counts: Counts | Passes(parse, Some(WriteBaseline(names, counted)), counts) :: Holds(counts, counted)
  }

  /** A last assignment that allows no more than was counted, whatever was counted. */
  ghost predicate Harmless(s: Setting, names: seq<string>) {
    match s
    case Counted(key, name) => key == name
    case Fixed(key, value) => value <= if key in names then 1 else 0
  }

  /**
  What can be checked on the names alone: a piece inside a name is no entry, so that the file never loads; or some
  file ends up with a negative count, so that no gate ever passes; or every file that gets a count gets it last
  from its own entry, or from a piece inside a name that says at most one for a counted file and at most zero
  for another.
  */
  ghost predicate SafeNames(parse: Parser, names: seq<string>) {
    var ss := Settings(parse, names);
    || ss.None?
    || (exists key :: NegativeLast(ss.value, key))
    || (forall key :: var last := LastFor(ss.value, key); last.Some? ==> Harmless(last.value, names))
  }

  ghost predicate NegativeLast(ss: seq<Setting>, key: string) {
    LastFor(ss, key).Some? && LastFor(ss, key).value.Fixed? && LastFor(ss, key).value.value < 0
  }

  /** What a rewritten baseline loads. */
  lemma RewrittenLoads(parse: Parser, names: seq<string>, counted: Counts)
    requires Inverts(parse) && Lists(names, counted)
    ensures var ss := Settings(parse, names);
            && (ss.Some? ==> Backed(ss.value, counted))
            && LoadBaseline(parse, Some(WriteBaseline(names, counted)))
               == match ss case None => None case Some(v) => Some(Applied(v, counted, map[]))
  {
    hide LoadBaseline, WriteBaseline, Inverts, LoadLines, AllLines, SplitLines, JoinLines, EntryLines, Settings;
    SplitEntries(names, counted);
    WrittenLines(parse, names, counted, AllLines(names, counted));
    SettingsLoad(parse, names, counted, map[]);
  }

  lemma SafeNamesSuffice(parse: Parser, names: seq<string>, counted: Counts)
    requires Inverts(parse) && Positive(names, counted) && SafeNames(parse, names)
    ensures RewriteSafe(parse, names, counted)
  {
    RewrittenLoads(parse, names, counted);
    hide LoadBaseline, WriteBaseline, Inverts, Settings, LastFor;
    var ss := Settings(parse, names);
    forall counts: Counts | Passes(parse, Some(WriteBaseline(names, counted)), counts) ensures Holds(counts, counted) {
      var loaded := Applied(ss.value, counted, map[]);
      forall key ensures Get(counts, key) <= Get(counted, key) {
        assert Get(counts, key) <= Get(loaded, key);
        AppliedGet(ss.value, counted, map[], key);
        if neg :| NegativeLast(ss.value, neg) {
          AppliedGet(ss.value, counted, map[], neg);
          assert Get(counts, neg) <= Get(loaded, neg);
        }
      }
    }
  }

  /** Counts of one everywhere, and of two for one name. */
  function Ones(names: seq<string>, two: string): Counts { map n | n in names :: if n == two then 2 else 1 }

  lemma UnsafeNamesFail(parse: Parser, names: seq<string>) returns (counted: Counts)
    requires Inverts(parse) && !SafeNames(parse, names) && forall i, j | 0 <= i < j < |names| :: names[i] != names[j]
    ensures Positive(names, counted) && !RewriteSafe(parse, names, counted)
  {
    hide LoadBaseline, WriteBaseline, Inverts, Settings, LastFor;
    var ss := Settings(parse, names).value;
    var key :| LastFor(ss, key).Some? && !Harmless(LastFor(ss, key).value, names);
    var last := LastFor(ss, key).value;
    counted := Ones(names, if last.Counted? then last.name else "");
    if last.Fixed? && key in names {
      counted := map n | n in names :: 1;
    }
    RewrittenLoads(parse, names, counted);
    var loaded := Applied(ss, counted, map[]);
    forall k | k in loaded ensures loaded[k] >= 0 {
      AppliedGet(ss, counted, map[], k);
      assert !NegativeLast(ss, k);
    }
    var later: Counts := map k | k in loaded :: loaded[k] as nat;
    assert later == loaded;
    AppliedGet(ss, counted, map[], key);
    assert Get(later, key) > Get(counted, key);
    assert Passes(parse, Some(WriteBaseline(names, counted)), later);
  }

  /** A rewrite lets no later count rise, whatever was counted for the names, if and only if the names are safe. */
  lemma RewriteSafeIff(parse: Parser, names: seq<string>)
    requires Inverts(parse) && forall i, j | 0 <= i < j < |names| :: names[i] != names[j]
    ensures (forall counted: Counts | Positive(names, counted) :: RewriteSafe(parse, names, counted)) <==> SafeNames(parse, names)
  {
    hide RewriteSafe, SafeNames, Inverts;
    if SafeNames(parse, names) {
      forall counted: Counts | Positive(names, counted) ensures RewriteSafe(parse, names, counted) {
        SafeNamesSuffice(parse, names, counted);
      }
    } else {
      var counted := UnsafeNamesFail(parse, names);
    }
  }

  /** Names without line breaks are safe, tabs and comment signs included. */
  lemma {:induction false} UnbrokenSettings(parse: Parser, names: seq<string>)
    requires forall i | 0 <= i < |names| :: BreakFree(names[i])
    ensures var ss := Settings(parse, names);
            ss.Some? && forall i | 0 <= i < |ss.value| :: ss.value[i].Counted? && ss.value[i].key == ss.value[i].name
    decreases |names|
  {
    if names != [] {
      var n := FirstBreak(names[0]);
      assert n == |names[0]|;
      assert Pieces(names[0]) == ([], names[0]);
      UnbrokenSettings(parse, names[1..]);
    }
  }

  lemma UnbrokenNamesSafe(parse: Parser, names: seq<string>)
    requires forall i | 0 <= i < |names| :: BreakFree(names[i])
    ensures SafeNames(parse, names)
  {
    UnbrokenSettings(parse, names);
    hide Settings;
  }

  // ---------------------------------------------------------------- a count that rises

  /** A counted name with a break inside reads back as two entries, the first with a count of its own. */
  lemma BrokenNameReadsAsTwo(parse: Parser, a: string, v: nat, sep: char, b: string, n: nat)
    requires Inverts(parse) && Plain(a) && Plain(b) && IsBreak(sep)
    ensures var name := EntryLine(a, v) + [sep] + b;
            LoadBaseline(parse, Some(WriteBaseline([name], map[name := n]))) == Some(map[a := v][b := n])
  {
    var name := EntryLine(a, v) + [sep] + b;
    var counts: Counts := map[name := n];
    BrokenPieces(a, v, sep, b);
    EntryReads(parse, a, v);
    assert Lists([name], counts) by { assert forall m :: m in [name] <==> m == name; }
    hide LoadBaseline, WriteBaseline, EntryLine, Pieces, Inverts, Read, Plain;
    RewrittenLoads(parse, [name], counts);
    OneBrokenName(parse, name, EntryLine(a, v), a, v, b);
    TwoSettings(Fixed(a, v), Counted(b, name), counts);
  }

  lemma OneBrokenName(parse: Parser, name: string, piece: string, key: string, value: int, last: string)
    requires Pieces(name) == ([piece], last) && Read(parse, piece) == Entry(key, value) && Plain(last)
    ensures Settings(parse, [name]) == Some([Fixed(key, value), Counted(last, name)])
  {
    hide Pieces, Read, Plain;
    assert [piece][1..] == [] && [name][1..] == [];
    assert FrontSettings(parse, []) == Some([]) && Settings(parse, []) == Some([]);
    assert [Fixed(key, value)] + [] == [Fixed(key, value)];
    assert FrontSettings(parse, [piece]) == Some([Fixed(key, value)]);
    assert [Fixed(key, value)] + [Counted(last, name)] + [] == [Fixed(key, value), Counted(last, name)];
  }

  lemma TwoSettings(first: Setting, second: Setting, counts: Counts)
    requires Backed([first, second], counts)
    ensures [first, second][0] == first && [first, second][1] == second
    ensures (first.Counted? ==> first.name in counts) && (second.Counted? ==> second.name in counts)
    ensures Applied([first, second], counts, map[])
            == map[first.key := ValueOf(first, counts)][second.key := ValueOf(second, counts)]
  {
    var ss := [first, second];
    assert ss[0] == first && ss[1] == second && ss[1..] == [second] && ss[1..][1..] == [];
    var m: Baseline := map[first.key := ValueOf(first, counts)];
    assert map[][first.key := ValueOf(first, counts)] == m;
    assert Applied(ss, counts, map[]) == Applied(ss[1..], counts, m);
    assert Applied(ss[1..], counts, m) == Applied([], counts, m[second.key := ValueOf(second, counts)]);
  }

  lemma BrokenPieces(a: string, v: nat, sep: char, b: string)
    requires BreakFree(a) && BreakFree(b) && IsBreak(sep)
    ensures Pieces(EntryLine(a, v) + [sep] + b) == ([EntryLine(a, v)], b)
  {
    var first := EntryLine(a, v);
    var name := first + [sep] + b;
    DecimalInverts();
    EntryReads(ParseDecimal, a, v);
    hide EntryLine, Read;
    var n := FirstBreak(name);
    assert name[|first|] == sep;
    forall i | 0 <= i < n ensures !IsBreak(name[i]) {
      assert name[..n][i] == name[i];
    }
    assert forall i | 0 <= i < |first| :: name[i] == first[i];
    assert n == |first| && name[..n] == first && name[n + 1..] == b;
    assert n + 1 < |name| ==> name[n + 1] == b[0];
    assert FirstBreak(b) == |b|;
    assert [first] + [] == [first];
  }

  /** A gate that counted nothing in `a.c` lets nine warnings through next time; its one name holds a vertical tab. */
  lemma BreaksLetCountsRise(parse: Parser) returns (names: seq<string>, counted: Counts, counts: Counts)
    requires Inverts(parse)
    ensures Positive(names, counted) && Passes(parse, Some(WriteBaseline(names, counted)), counts) && !Holds(counts, counted)
  {
    var name := EntryLine("a.c", 9) + ['\U{b}'] + "b.c";
    names, counted, counts := [name], map[name := 1], map["a.c" := 9];
    BrokenNameReadsAsTwo(parse, "a.c", 9, '\U{b}', "b.c", 1);
    assert |name| > 3;
    hide WriteBaseline, LoadBaseline, EntryLine, Inverts;
    assert forall m :: m in [name] <==> m == name;
    assert name != "a.c";
    assert Get(counts, "a.c") > Get(counted, "a.c");
  }

  // ---------------------------------------------------------------- whole runs

  /** One gate that passes against the current baseline file and then rewrites it from its own counts. */
  datatype Gate = Gate(counts: Counts, names: seq<string>)

  ghost predicate Sound(parse: Parser, g: Gate) { Positive(g.names, g.counts) && SafeNames(parse, g.names) }

  /** A run of gates, starting from the baseline `file`. */
  ghost predicate PassingRun(parse: Parser, file: Option<string>, gates: seq<Gate>)
    decreases |gates|
  {
    gates == [] ||
    (Sound(parse, gates[0]) && Passes(parse, file, gates[0].counts)
     && PassingRun(parse, Some(Rewritten(parse, gates[0])), gates[1..]))
  }

  ghost function Rewritten(parse: Parser, g: Gate): string
    requires Sound(parse, g)
  {
    WriteBaseline(g.names, g.counts)
  }

  lemma PassingRewritten(parse: Parser, g: Gate, counts: Counts)
    requires Inverts(parse) && Sound(parse, g) && Passes(parse, Some(Rewritten(parse, g)), counts)
    ensures Holds(counts, g.counts)
  {
    SafeNamesSuffice(parse, g.names, g.counts);
    hide Holds, SafeNames, Inverts, Passes;
  }

  /** Over any run of passing gates with safe names, no file's count and no total ever rises above what an earlier gate saw. */
  lemma {:induction false} CountsNeverRise(parse: Parser, file: Option<string>, gates: seq<Gate>, i: nat, j: nat)
    requires Inverts(parse) && PassingRun(parse, file, gates) && i <= j < |gates|
    ensures Holds(gates[j].counts, gates[i].counts)
    ensures Total(gates[j].counts) <= Total(gates[i].counts)
    decreases |gates|
  {
    hide Passes, Rewritten, Sound, Get, Inverts;
    if i > 0 {
      CountsNeverRise(parse, Some(Rewritten(parse, gates[0])), gates[1..], i - 1, j - 1);
    } else if j > 0 {
      CountsNeverRise(parse, Some(Rewritten(parse, gates[0])), gates[1..], 0, j - 1);
      PassingRewritten(parse, gates[0], gates[1].counts);
      HoldsTransitive(gates[j].counts, gates[1].counts, gates[0].counts);
      TotalMonotone(gates[j].counts, gates[0].counts);
    }
  }

  /** The first gate is in turn bounded by the baseline the run started from. */
  lemma NeverAboveBaseline(parse: Parser, file: Option<string>, gates: seq<Gate>, j: nat)
    requires Inverts(parse) && PassingRun(parse, file, gates) && j < |gates|
    ensures Passes(parse, file, gates[j].counts)
    ensures Total(gates[j].counts) <= Total(LoadBaseline(parse, file).value)
  {
    CountsNeverRise(parse, file, gates, 0, j);
    hide Get, Rewritten, Sound, Inverts;
    HoldsTransitive(gates[j].counts, gates[0].counts, LoadBaseline(parse, file).value);
    TotalMonotone(gates[j].counts, LoadBaseline(parse, file).value);
  }
}
