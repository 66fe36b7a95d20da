/** The text hint reader `ReadFromFile`, over the lines of the file: section
    markers, hint lines of space separated tokens whose last character is
    dropped before the number is parsed, and a blank board of the hints'
    dimensions. */
module HintFile {
  import opened Failures
  import opened Hints
  import opened Lines
  import opened GameStates

  const RowsMarker: string := ": rows"
  const ColumnsMarker: string := ": columns"

  /** The range of a 32-bit signed integer, which `int.Parse` returns. */
  const Int32Min: int := -0x8000_0000
  const Int32Max: int := 0x7fff_ffff

  // ---------------------------------------------------------------------
  // Splitting on a separator, keeping empty pieces (`String.Split(char)`)
  // ---------------------------------------------------------------------

  /** The pieces of `s` between occurrences of `sep`, left to right. Adjacent,
      leading and trailing separators give empty pieces, so there is always
      one piece more than there are separators. */
  function Split(s: string, sep: char): (parts: seq<string>)
    ensures |parts| >= 1
    ensures forall k :: 0 <= k < |parts| ==> sep !in parts[k]
    decreases |s|
  {
    if |s| == 0 then [""]
    else
      var tail := Split(s[1..], sep);
      if s[0] == sep then [""] + tail
      else [[s[0]] + tail[0]] + tail[1..]
  }

  /** The pieces glued back together with one separator between neighbours. */
  function Join(parts: seq<string>, sep: char): string
    requires |parts| >= 1
    decreases |parts|
  {
    if |parts| == 1 then parts[0] else parts[0] + [sep] + Join(parts[1..], sep)
  }

  /** Splitting loses nothing: joining the pieces gives the text back. */
  lemma {:induction false} JoinSplit(s: string, sep: char)
    ensures Join(Split(s, sep), sep) == s
    decreases |s|
  {
    if |s| > 0 {
      var tail := Split(s[1..], sep);
      JoinSplit(s[1..], sep);
      if s[0] == sep {
        assert Split(s, sep)[1..] == tail;
      } else {
        var parts := Split(s, sep);
        assert parts[0] == [s[0]] + tail[0];
        if |tail| > 1 {
          assert parts[1..] == tail[1..];
          assert Join(tail, sep) == tail[0] + [sep] + Join(tail[1..], sep);
        }
      }
    }
  }

  /** Splitting after a separator-free prefix extends the first piece. */
  lemma {:induction false} SplitPrefix(p: string, rest: string, sep: char)
    requires sep !in p
    ensures Split(p + rest, sep) == [p + Split(rest, sep)[0]] + Split(rest, sep)[1..]
    decreases |p|
  {
    if |p| == 0 {
      assert p + rest == rest;
      assert p + Split(rest, sep)[0] == Split(rest, sep)[0];
      assert Split(rest, sep) == [Split(rest, sep)[0]] + Split(rest, sep)[1..];
    } else {
      assert (p + rest)[1..] == p[1..] + rest;
      assert p[0] == p[0..1][0];
      SplitPrefix(p[1..], rest, sep);
      assert [p[0]] + (p[1..] + Split(rest, sep)[0]) == p + Split(rest, sep)[0];
    }
  }

  /** Joining separator-free pieces and splitting again gives the pieces. */
  lemma {:induction false} SplitJoin(parts: seq<string>, sep: char)
    requires |parts| >= 1
    requires forall k :: 0 <= k < |parts| ==> sep !in parts[k]
    ensures Split(Join(parts, sep), sep) == parts
    decreases |parts|
  {
    if |parts| == 1 {
      SplitPrefix(parts[0], "", sep);
      assert parts[0] + "" == parts[0];
    } else {
      var rest := [sep] + Join(parts[1..], sep);
      assert Join(parts, sep) == parts[0] + rest;
      SplitPrefix(parts[0], rest, sep);
      assert rest[0] == sep && rest[1..] == Join(parts[1..], sep);
      SplitJoin(parts[1..], sep);
      assert parts[0] + "" == parts[0];
    }
  }

  // ---------------------------------------------------------------------
  // `int.Parse` with the default integer style
  // ---------------------------------------------------------------------

  /** The white space the default integer style allows around the number:
      tab, line feed, vertical tab, form feed, carriage return and space. */
  predicate IsWhite(c: char) {
    c == ' ' || '\t' <= c <= '\r'
  }

  predicate IsDigit(c: char) {
    '0' <= c <= '9'
  }

  predicate AllDigits(s: string) {
    forall k :: 0 <= k < |s| ==> IsDigit(s[k])
  }

  function DigitValue(c: char): (d: nat)
    requires IsDigit(c)
    ensures d < 10
  {
    c as int - '0' as int
  }

  /** The magnitude after reading the digits `d` with `m` already read, most
      significant digit first. */
  function Accumulate(m: nat, d: string): nat
    requires AllDigits(d)
    decreases |d|
  {
    if |d| == 0 then m else Accumulate(m * 10 + DigitValue(d[0]), d[1..])
  }

  /** Where `int.Parse` is in the text: in leading white space, just after a
      sign, in the digits, or in trailing white space. */
  datatype NumberPhase = Leading | Signed | InDigits | Trailing

  /** The number with its sign, or an overflow outside 32 bits. */
  function Ranged(negative: bool, magnitude: nat): (r: Result<int>)
    ensures r.Ok? ==> Int32Min <= r.value <= Int32Max
    ensures r.Err? ==> r.fault == Overflow
  {
    var v: int := if negative then -(magnitude as int) else magnitude;
    if v < Int32Min || Int32Max < v then Err(Overflow) else Ok(v)
  }

  /** The scan of `int.Parse` from character `i` on: white space, then an
      optional sign, then at least one digit, then white space. Any other
      character is a format error, which takes precedence over an overflow,
      so the range is checked only at the end. */
  function ScanInt(s: string, i: nat, phase: NumberPhase, negative: bool, magnitude: nat): (r: Result<int>)
    requires i <= |s|
    ensures r.Ok? ==> Int32Min <= r.value <= Int32Max
    ensures r.Err? ==> r.fault == Format || r.fault == Overflow
    decreases |s| - i
  {
    if i == |s| then
      if phase == InDigits || phase == Trailing then Ranged(negative, magnitude) else Err(Format)
    else
      var c := s[i];
      match phase
      case Leading =>
        if IsWhite(c) then ScanInt(s, i + 1, Leading, negative, magnitude)
        else if c == '-' || c == '+' then ScanInt(s, i + 1, Signed, c == '-', magnitude)
        else if IsDigit(c) then ScanInt(s, i + 1, InDigits, negative, DigitValue(c))
        else Err(Format)
      case Signed =>
        if IsDigit(c) then ScanInt(s, i + 1, InDigits, negative, DigitValue(c)) else Err(Format)
      case InDigits =>
        if IsDigit(c) then ScanInt(s, i + 1, InDigits, negative, magnitude * 10 + DigitValue(c))
        else if IsWhite(c) then ScanInt(s, i + 1, Trailing, negative, magnitude)
        else Err(Format)
      case Trailing =>
        if IsWhite(c) then ScanInt(s, i + 1, Trailing, negative, magnitude) else Err(Format)
  }

  /** `int.Parse` with the default integer style. */
  function ParseInt(s: string): (r: Result<int>)
    ensures r.Ok? ==> Int32Min <= r.value <= Int32Max
    ensures r.Err? ==> r.fault == Format || r.fault == Overflow
  {
    ScanInt(s, 0, Leading, false, 0)
  }

  /** Reading the rest of a run of digits accumulates them. */
  lemma {:induction false} ScanDigits(s: string, i: nat, negative: bool, m: nat)
    requires i <= |s| && AllDigits(s[i..])
    ensures ScanInt(s, i, InDigits, negative, m) == Ranged(negative, Accumulate(m, s[i..]))
    decreases |s| - i
  {
    if i < |s| {
      assert s[i..][0] == s[i] && s[i..][1..] == s[i + 1..];
      ScanDigits(s, i + 1, negative, m * 10 + DigitValue(s[i]));
    }
  }

  /** Appending a digit multiplies the magnitude by ten and adds it. */
  lemma {:induction false} AccumulateSnoc(m: nat, d: string, c: char)
    requires AllDigits(d) && IsDigit(c)
    ensures AllDigits(d + [c])
    ensures Accumulate(m, d + [c]) == Accumulate(m, d) * 10 + DigitValue(c)
    decreases |d|
  {
    if |d| > 0 {
      assert (d + [c])[0] == d[0] && (d + [c])[1..] == d[1..] + [c];
      AccumulateSnoc(m * 10 + DigitValue(d[0]), d[1..], c);
    } else {
      assert d + [c] == [c];
    }
  }

  function DigitChar(d: nat): (c: char)
    requires d < 10
    ensures IsDigit(c) && DigitValue(c) == d
  {
    ('0' as int + d) as char
  }

  /** The shortest decimal text of `n`. */
  function Digits(n: nat): (s: string)
    ensures |s| >= 1 && AllDigits(s)
    decreases n
  {
    if n < 10 then [DigitChar(n)] else Digits(n / 10) + [DigitChar(n % 10)]
  }

  /** The decimal text denotes the number it was written from. */
  lemma {:induction false} DigitsValueOf(n: nat)
    ensures Accumulate(0, Digits(n)) == n
    decreases n
  {
    if n >= 10 {
      DigitsValueOf(n / 10);
      AccumulateSnoc(0, Digits(n / 10), DigitChar(n % 10));
    }
  }

  /** The text of an integer: a minus sign for negative numbers, then its
      digits. */
  function IntText(n: int): (s: string)
    ensures |s| >= 1 && ' ' !in s
  {
    if n < 0 then "-" + Digits(-n) else Digits(n)
  }

  /** Reading a run of digits from its first one gives their value. */
  lemma {:induction false} ScanNumber(s: string, i: nat, phase: NumberPhase, negative: bool, n: nat)
    requires phase == Leading || phase == Signed
    requires i <= |s| && s[i..] == Digits(n)
    ensures ScanInt(s, i, phase, negative, 0) == Ranged(negative, n)
  {
    var d := Digits(n);
    assert s[i] == d[0];
    assert s[i + 1..] == d[1..];
    ScanDigits(s, i + 1, negative, DigitValue(d[0]));
    DigitsValueOf(n);
  }

  /** `int.Parse` reads back the text of every 32-bit integer, and reports an
      overflow for the text of any other integer. */
  lemma {:induction false} ParseIntText(n: int)
    ensures ParseInt(IntText(n)) == if Int32Min <= n <= Int32Max then Ok(n) else Err(Overflow)
  {
    var s := IntText(n);
    if n < 0 {
      assert s[0] == '-' && s[1..] == Digits(-n);
      ScanNumber(s, 1, Signed, true, -n);
    } else {
      assert s[0..] == s;
      ScanNumber(s, 0, Leading, false, n);
    }
  }

  /** White space around the number is allowed. */
  lemma ParseIntPadded()
    ensures ParseInt(" 12\t") == Ok(12)
  {
  }

  /** Text that holds no digit, or white space inside the number, is a
      format error. */
  lemma ParseIntRejects()
    ensures ParseInt("") == Err(Format)
    ensures ParseInt("+") == Err(Format)
    ensures ParseInt("1 2") == Err(Format)
  {
  }

  // ---------------------------------------------------------------------
  // Hint lines
  // ---------------------------------------------------------------------

  /** One token of a hint line: its last character (the separator written
      after each number) is cut off and the rest parsed. Cutting the last
      character of an empty token is a negative-length `Substring`. */
  function HintToken(e: string): (r: Result<int>)
    ensures r.Ok? ==> Int32Min <= r.value <= Int32Max
    ensures r.Err? ==> r.fault in {ArgumentOutOfRange, Format, Overflow}
    ensures r == Err(ArgumentOutOfRange) <==> |e| == 0
  {
    if |e| == 0 then Err(ArgumentOutOfRange) else ParseInt(e[..|e| - 1])
  }

  /** The tokens' numbers, left to right; the first token that fails ends the
      line with its exception. */
  function ParseTokens(es: seq<string>): (r: Result<seq<int>>)
    ensures r.Ok? <==> forall k :: 0 <= k < |es| ==> HintToken(es[k]).Ok?
    ensures r.Ok? ==> |r.value| == |es| && forall k :: 0 <= k < |es| ==> HintToken(es[k]) == Ok(r.value[k])
    ensures r.Err? ==> exists k :: 0 <= k < |es| && HintToken(es[k]) == Err(r.fault)
    decreases |es|
  {
    if |es| == 0 then Ok([])
    else
      var v :- HintToken(es[0]);
      var rest :- ParseTokens(es[1..]);
      Ok([v] + rest)
  }

  /** A hint line: split on single spaces, every token parsed. */
  function ParseHintLine(line: string): (r: Result<Hint>)
    ensures r.Ok? ==> Writable(r.value) && r.value.Length() == |Split(line, ' ')|
    ensures r.Err? ==> r.fault in {ArgumentOutOfRange, Format, Overflow}
  {
    var numbers :- ParseTokens(Split(line, ' '));
    Ok(Hint(numbers))
  }

  /** The hints a file can hold: at least one block, each within 32 bits. */
  predicate Writable(h: Hint) {
    h.Length() >= 1 && forall k :: 0 <= k < h.Length() ==> Int32Min <= h.At(k) <= Int32Max
  }

  /** The token written for one block: its number and a comma. */
  function BlockToken(b: int): (e: string)
    ensures |e| >= 2 && ' ' !in e
  {
    IntText(b) + ","
  }

  /** A hint written as a line: one token per block, separated by spaces. */
  function HintLine(h: Hint): string
    requires Writable(h)
  {
    Join(seq(h.Length(), k requires 0 <= k < h.Length() => BlockToken(h.At(k))), ' ')
  }

  /** Every 32-bit block length is read back from its token. */
  lemma {:induction false} BlockTokenParses(b: int)
    requires Int32Min <= b <= Int32Max
    ensures HintToken(BlockToken(b)) == Ok(b)
  {
    var e := BlockToken(b);
    assert e[..|e| - 1] == IntText(b);
    ParseIntText(b);
  }

  /** A written hint line is read back as the same hint. */
  lemma {:induction false} HintLineParses(h: Hint)
    requires Writable(h)
    ensures ParseHintLine(HintLine(h)) == Ok(h)
  {
    var tokens := seq(h.Length(), k requires 0 <= k < h.Length() => BlockToken(h.At(k)));
    SplitJoin(tokens, ' ');
    forall k | 0 <= k < |tokens|
      ensures HintToken(tokens[k]) == Ok(h.blocks[k])
    {
      BlockTokenParses(h.At(k));
    }
    var r := ParseTokens(tokens);
    assert r.Ok?;
    assert r.value == h.blocks;
  }

  /** A written hint line starts with a digit or a minus sign, so it is never
      mistaken for a section marker. */
  lemma {:induction false} HintLineIsNoMarker(h: Hint)
    requires Writable(h)
    ensures HintLine(h) != RowsMarker && HintLine(h) != ColumnsMarker
  {
    var tokens := seq(h.Length(), k requires 0 <= k < h.Length() => BlockToken(h.At(k)));
    var line := HintLine(h);
    assert line[0] == tokens[0][0] by {
      if |tokens| > 1 {
        assert line == tokens[0] + [' '] + Join(tokens[1..], ' ');
      }
    }
    assert tokens[0][0] == IntText(h.At(0))[0];
    assert line[0] != ':';
  }

  // ---------------------------------------------------------------------
  // The reader
  // ---------------------------------------------------------------------

  /** Where the reader is: before the first marker, or in a section. */
  datatype Section = Preamble | RowSection | ColumnSection

  /** The reader's state: its section and the hints read so far. */
  datatype Reader = Reader(section: Section, rows: seq<Hint>, columns: seq<Hint>)

  /** One line of the file. Before the first marker, lines are skipped; a
      marker switches section and yields no hint; any other line is a hint
      of the current section. */
  function Feed(rd: Reader, line: string): (r: Result<Reader>)
    ensures (line == RowsMarker || line == ColumnsMarker) ==> r.Ok? && r.value.rows == rd.rows && r.value.columns == rd.columns
    ensures line == RowsMarker ==> r.value.section == RowSection
    ensures line == ColumnsMarker ==> r.value.section == ColumnSection
    ensures rd.section == Preamble && line != RowsMarker && line != ColumnsMarker ==> r == Ok(rd)
    ensures r.Ok? ==> rd.rows <= r.value.rows && rd.columns <= r.value.columns
    ensures r.Ok? ==> |r.value.rows| + |r.value.columns| <= |rd.rows| + |rd.columns| + 1
    ensures r.Ok? && rd.section == RowSection ==> r.value.columns == rd.columns
    ensures r.Ok? && rd.section == ColumnSection ==> r.value.rows == rd.rows
  {
    if rd.section == Preamble && line != RowsMarker && line != ColumnsMarker then Ok(rd)
    else if line == RowsMarker then Ok(rd.(section := RowSection))
    else if line == ColumnsMarker then Ok(rd.(section := ColumnSection))
    else
      var h :- ParseHintLine(line);
      if rd.section == RowSection then Ok(rd.(rows := rd.rows + [h]))
      else Ok(rd.(columns := rd.columns + [h]))
  }

  /** The lines fed in file order; the first exception ends the read. */
  function FeedAll(rd: Reader, lines: seq<string>): (r: Result<Reader>)
    ensures r.Ok? ==> rd.rows <= r.value.rows && rd.columns <= r.value.columns
    ensures r.Ok? ==> |r.value.rows| + |r.value.columns| <= |rd.rows| + |rd.columns| + |lines|
    decreases |lines|
  {
    if |lines| == 0 then Ok(rd)
    else
      var next :- Feed(rd, lines[0]);
      FeedAll(next, lines[1..])
  }

  /** A grid of `n` rows of `m` undecided cells. */
  function BlankGrid(n: nat, m: nat): (cells: seq<Line>)
    ensures |cells| == n
    ensures forall i :: 0 <= i < n ==> cells[i] == Repeat(Blank, m)
  {
    seq(n, _ => Repeat(Blank, m))
  }

  /** `ReadFromFile`: the hints of the row and column sections, in file
      order, on a blank board with one row per row hint and one column per
      column hint. */
  function ReadFromFile(lines: seq<string>): (r: Result<GameState>)
    ensures r.Ok? ==> r.value.WellFormed()
    ensures r.Ok? ==> forall i, j :: 0 <= i < r.value.Height() && 0 <= j < r.value.Width() ==> r.value.cells[i][j] == Blank
    ensures r.Err? ==> r.fault in {ArgumentOutOfRange, Format, Overflow}
  {
    FeedAllFaults(Reader(Preamble, [], []), lines);
    var rd :- FeedAll(Reader(Preamble, [], []), lines);
    Ok(GameState(BlankGrid(|rd.rows|, |rd.columns|), HintSet(rd.rows), HintSet(rd.columns)))
  }

  /** The failures a read can end with are those of the hint lines. */
  lemma {:induction false} FeedAllFaults(rd: Reader, lines: seq<string>)
    ensures FeedAll(rd, lines).Err? ==> FeedAll(rd, lines).fault in {ArgumentOutOfRange, Format, Overflow}
    decreases |lines|
  {
    if |lines| > 0 {
      var f := Feed(rd, lines[0]);
      if f.Err? {
        var es := Split(lines[0], ' ');
        var k :| 0 <= k < |es| && HintToken(es[k]) == Err(ParseTokens(es).fault);
      } else {
        FeedAllFaults(f.value, lines[1..]);
      }
    }
  }

  /** Reading `a + b` is reading `a`, then `b` from where `a` left off. */
  lemma {:induction false} FeedAllConcat(rd: Reader, a: seq<string>, b: seq<string>)
    ensures FeedAll(rd, a + b) == if FeedAll(rd, a).Err? then FeedAll(rd, a) else FeedAll(FeedAll(rd, a).value, b)
    decreases |a|
  {
    if |a| == 0 {
      assert a + b == b;
    } else {
      assert (a + b)[0] == a[0];
      assert (a + b)[1..] == a[1..] + b;
      var f := Feed(rd, a[0]);
      if f.Ok? {
        FeedAllConcat(f.value, a[1..], b);
      }
    }
  }

  /** Lines before the first marker do not change what is read. */
  lemma {:induction false} PreambleSkipped(pre: seq<string>, rest: seq<string>)
    requires forall k :: 0 <= k < |pre| ==> pre[k] != RowsMarker && pre[k] != ColumnsMarker
    ensures ReadFromFile(pre + rest) == ReadFromFile(rest)
  {
    var start := Reader(Preamble, [], []);
    PreambleStays(start, pre);
    FeedAllConcat(start, pre, rest);
  }

  lemma {:induction false} PreambleStays(rd: Reader, pre: seq<string>)
    requires rd.section == Preamble
    requires forall k :: 0 <= k < |pre| ==> pre[k] != RowsMarker && pre[k] != ColumnsMarker
    ensures FeedAll(rd, pre) == Ok(rd)
    decreases |pre|
  {
    if |pre| > 0 {
      PreambleStays(rd, pre[1..]);
    }
  }

  // ---------------------------------------------------------------------
  // Writing a hint file, and reading it back
  // ---------------------------------------------------------------------

  /** The lines of a sequence of hints, one per hint. */
  function HintLines(hs: seq<Hint>): (lines: seq<string>)
    requires forall k :: 0 <= k < |hs| ==> Writable(hs[k])
    ensures |lines| == |hs|
    ensures forall k :: 0 <= k < |hs| ==> lines[k] == HintLine(hs[k])
  {
    seq(|hs|, k requires 0 <= k < |hs| => HintLine(hs[k]))
  }

  /** A hint file: the row section, then the column section. */
  function Render(rows: seq<Hint>, columns: seq<Hint>): seq<string>
    requires forall k :: 0 <= k < |rows| ==> Writable(rows[k])
    requires forall k :: 0 <= k < |columns| ==> Writable(columns[k])
  {
    [RowsMarker] + HintLines(rows) + [ColumnsMarker] + HintLines(columns)
  }

  /** `lines` are hint lines that read as `hs`, one for one, and none is a
      marker. */
  predicate ReadsAs(lines: seq<string>, hs: seq<Hint>)
    decreases |lines|
  {
    && |lines| == |hs|
    && (|lines| > 0 ==>
      && lines[0] != RowsMarker && lines[0] != ColumnsMarker
      && ParseHintLine(lines[0]) == Ok(hs[0])
      && ReadsAs(lines[1..], hs[1..]))
  }

  /** Written hint lines read back as their hints. */
  lemma {:induction false} HintLinesParse(hs: seq<Hint>)
    requires forall k :: 0 <= k < |hs| ==> Writable(hs[k])
    ensures ReadsAs(HintLines(hs), hs)
    decreases |hs|
  {
    if |hs| > 0 {
      HintLineParses(hs[0]);
      HintLineIsNoMarker(hs[0]);
      assert HintLines(hs)[1..] == HintLines(hs[1..]);
      HintLinesParse(hs[1..]);
    }
  }

  /** Inside a section, a line that reads as a hint appends it. */
  lemma {:induction false} FeedParsed(rd: Reader, line: string, h: Hint)
    requires rd.section != Preamble && line != RowsMarker && line != ColumnsMarker
    requires ParseHintLine(line) == Ok(h)
    ensures rd.section == RowSection ==> Feed(rd, line) == Ok(rd.(rows := rd.rows + [h]))
    ensures rd.section == ColumnSection ==> Feed(rd, line) == Ok(rd.(columns := rd.columns + [h]))
  {
  }

  /** Inside a section, lines that read as hints are appended to it in
      order. */
  lemma {:induction false} SectionRead(rd: Reader, lines: seq<string>, hs: seq<Hint>)
    requires rd.section != Preamble && ReadsAs(lines, hs)
    ensures rd.section == RowSection ==> FeedAll(rd, lines) == Ok(rd.(rows := rd.rows + hs))
    ensures rd.section == ColumnSection ==> FeedAll(rd, lines) == Ok(rd.(columns := rd.columns + hs))
    decreases |hs|
  {
    if |hs| == 0 {
      assert rd.rows + hs == rd.rows && rd.columns + hs == rd.columns;
    } else {
      var h := hs[0];
      FeedParsed(rd, lines[0], h);
      assert [h] + hs[1..] == hs;
      if rd.section == RowSection {
        var next := rd.(rows := rd.rows + [h]);
        assert FeedAll(rd, lines) == FeedAll(next, lines[1..]);
        SectionRead(next, lines[1..], hs[1..]);
        assert next.rows + hs[1..] == rd.rows + hs;
      } else {
        var next := rd.(columns := rd.columns + [h]);
        assert FeedAll(rd, lines) == FeedAll(next, lines[1..]);
        SectionRead(next, lines[1..], hs[1..]);
        assert next.columns + hs[1..] == rd.columns + hs;
      }
    }
  }

  /** A marker followed by written hint lines switches to the marker's
      section and appends the hints to it. */
  lemma {:induction false} MarkedSectionRead(rd: Reader, marker: string, hs: seq<Hint>)
    requires marker == RowsMarker || marker == ColumnsMarker
    requires forall k :: 0 <= k < |hs| ==> Writable(hs[k])
    ensures marker == RowsMarker ==> FeedAll(rd, [marker] + HintLines(hs)) == Ok(Reader(RowSection, rd.rows + hs, rd.columns))
    ensures marker == ColumnsMarker ==> FeedAll(rd, [marker] + HintLines(hs)) == Ok(Reader(ColumnSection, rd.rows, rd.columns + hs))
  {
    var lines := HintLines(hs);
    var m := Feed(rd, marker).value;
    assert ([marker] + lines)[0] == marker;
    assert ([marker] + lines)[1..] == lines;
    assert FeedAll(rd, [marker] + lines) == FeedAll(m, lines);
    HintLinesParse(hs);
    SectionRead(m, lines, hs);
  }

  /** Reading a written hint file, after any lines that hold no marker, gives
      back its hints on a blank board of their dimensions. */
  lemma {:induction false} ReadRendered(pre: seq<string>, rows: seq<Hint>, columns: seq<Hint>)
    requires forall k :: 0 <= k < |pre| ==> pre[k] != RowsMarker && pre[k] != ColumnsMarker
    requires forall k :: 0 <= k < |rows| ==> Writable(rows[k])
    requires forall k :: 0 <= k < |columns| ==> Writable(columns[k])
    ensures ReadFromFile(pre + Render(rows, columns))
      == Ok(GameState(BlankGrid(|rows|, |columns|), HintSet(rows), HintSet(columns)))
  {
    PreambleSkipped(pre, Render(rows, columns));
    RenderedFeeds(rows, columns);
  }

  /** Feeding a written hint file from the start ends in the column section
      holding both sections' hints. */
  lemma {:induction false} RenderedFeeds(rows: seq<Hint>, columns: seq<Hint>)
    requires forall k :: 0 <= k < |rows| ==> Writable(rows[k])
    requires forall k :: 0 <= k < |columns| ==> Writable(columns[k])
    ensures FeedAll(Reader(Preamble, [], []), Render(rows, columns)) == Ok(Reader(ColumnSection, rows, columns))
  {
    var start := Reader(Preamble, [], []);
    var a := [RowsMarker] + HintLines(rows);
    var b := [ColumnsMarker] + HintLines(columns);
    assert Render(rows, columns) == a + b;
    FeedAllConcat(start, a, b);
    MarkedSectionRead(start, RowsMarker, rows);
    assert [] + rows == rows;
    MarkedSectionRead(Reader(RowSection, rows, []), ColumnsMarker, columns);
    assert [] + columns == columns;
  }

  /** The token's last character is cut off whatever it is, so `"3,"` is 3. */
  lemma TokenDropsLastCharacter()
    ensures HintToken("3,") == Ok(3)
    ensures HintToken("3") == Err(Format)
  {
    ParseIntText(3);
    assert "3,"[..1] == IntText(3);
    assert "3"[..0] == "";
  }

  /** An empty line is a single empty token, which fails. */
  lemma EmptyLineFails()
    ensures ReadFromFile([RowsMarker, ""]) == Err(ArgumentOutOfRange)
  {
    assert Split("", ' ') == [""];
    assert ParseHintLine("") == Err(ArgumentOutOfRange);
    assert FeedAll(Reader(RowSection, [], []), [""]) == Err(ArgumentOutOfRange);
    assert [RowsMarker, ""][1..] == [""];
  }
}
