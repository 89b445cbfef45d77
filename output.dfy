/**
 * The row layout of genomap.py: each interval becomes the nine tab-separated fields
 * chrom, start, end, name, score, strand, thickStart, thickEnd, rgb, one line per interval
 * and no header (DataFrame.to_csv(sep='\t', header=False, index=False)).
 */
module Output {
  import opened Text
  import opened Chunking

  /** The first three channels of the colour, each int(round(c * 255)). */
  datatype Rgb = Rgb(red: nat, green: nat, blue: nat)

  /** One output row with the columns in written order. */
  datatype Row = Row(chrom: string, start: int, end: int, name: string, score: int, strand: string,
                     thickStart: int, thickEnd: int, rgb: string)

  predicate IsDigit(c: char) {
    '0' <= c <= '9'
  }

  /** str(n) for a non-negative integer. */
  function NatStr(n: nat): (s: string)
    ensures |s| >= 1
    ensures forall k :: 0 <= k < |s| ==> IsDigit(s[k])
  {
    if n < 10 then [('0' as int + n) as char]
    else NatStr(n / 10) + [('0' as int + n % 10) as char]
  }

  /** str(i) for any integer. */
  function IntStr(i: int): (s: string)
    ensures forall k :: 0 <= k < |s| ==> IsDigit(s[k]) || s[k] == '-'
  {
    if i < 0 then "-" + NatStr(-i) else NatStr(i)
  }

  /** int(s) for a string of digits. */
  function ParseNat(s: string): nat
  {
    if |s| == 0 then 0
    else ParseNat(s[..|s| - 1]) * 10 + (if IsDigit(s[|s| - 1]) then s[|s| - 1] as int - '0' as int else 0)
  }

  /** int(s) for an optional minus sign followed by digits. */
  function ParseInt(s: string): int
  {
    if |s| > 0 && s[0] == '-' then -(ParseNat(s[1..]) as int) else ParseNat(s)
  }

  /** ','.join(str(c) for c in channels). */
  function RgbString(c: Rgb): (s: string)
    ensures NatStr(c.red) <= s
    ensures ',' in s
  {
    Join([NatStr(c.red), NatStr(c.green), NatStr(c.blue)], ',')
  }

  /** The row of one interval (genomap.py assigns score, name, strand and copies start/end to thickStart/thickEnd). */
  function MakeRow(iv: Interval<real>, rgb: string): (row: Row)
    ensures row.chrom == iv.chrom && row.start == iv.start && row.end == iv.end && row.rgb == rgb
    ensures row.thickStart == row.start && row.thickEnd == row.end
  {
    Row(iv.chrom, iv.start, iv.end, ".", 0, ".", iv.start, iv.end, rgb)
  }

  /** The nine written fields of a row, in column order. */
  function RowFields(row: Row): (f: seq<string>)
    ensures |f| == 9
  {
    [row.chrom, IntStr(row.start), IntStr(row.end), row.name, IntStr(row.score), row.strand,
     IntStr(row.thickStart), IntStr(row.thickEnd), row.rgb]
  }

  /** One written line, without its terminator. */
  function FormatRow(row: Row): (s: string)
    ensures row.chrom <= s
    ensures '\t' in s
  {
    Join(RowFields(row), '\t')
  }

  /** The whole file: every row followed by a newline, no header. */
  function Bed(rows: seq<Row>): (s: string)
    ensures s == "" <==> |rows| == 0
    ensures |rows| > 0 ==> s[|s| - 1] == '\n'
  {
    if |rows| == 0 then "" else FormatRow(rows[0]) + "\n" + Bed(rows[1..])
  }

  // ---------------------------------------------------------------------------------------

  /** Reading back the decimal digits of n gives n. */
  lemma {:induction false} NatStrRoundTrip(n: nat)
    ensures ParseNat(NatStr(n)) == n
  {
    if n >= 10 {
      NatStrRoundTrip(n / 10);
      var s := NatStr(n);
      assert s[..|s| - 1] == NatStr(n / 10);
    }
  }

  /** Reading back str(i) gives i. */
  lemma IntStrRoundTrip(i: int)
    ensures ParseInt(IntStr(i)) == i
  {
    if i < 0 {
      NatStrRoundTrip(-i);
      assert IntStr(i)[1..] == NatStr(-i);
    } else {
      NatStrRoundTrip(i);
      assert IsDigit(IntStr(i)[0]);
    }
  }

  /** The rgb field is three comma-separated decimal numbers that read back as the three channels. */
  lemma RgbStringFields(c: Rgb)
    ensures |Split(RgbString(c), ',')| == 3
    ensures ParseNat(Split(RgbString(c), ',')[0]) == c.red
    ensures ParseNat(Split(RgbString(c), ',')[1]) == c.green
    ensures ParseNat(Split(RgbString(c), ',')[2]) == c.blue
  {
    var parts := [NatStr(c.red), NatStr(c.green), NatStr(c.blue)];
    forall k | 0 <= k < 3 ensures ',' !in parts[k] {
      DigitsAvoid(parts[k], ',');
    }
    SplitJoin(parts, ',');
    NatStrRoundTrip(c.red);
    NatStrRoundTrip(c.green);
    NatStrRoundTrip(c.blue);
  }

  lemma DigitsAvoid(s: string, c: char)
    requires forall k :: 0 <= k < |s| ==> IsDigit(s[k]) || s[k] == '-'
    requires !IsDigit(c) && c != '-'
    ensures c !in s
  {
  }

  /** An rgb string contains neither tab nor newline. */
  lemma RgbStringPlain(c: Rgb)
    ensures '\t' !in RgbString(c) && '\n' !in RgbString(c)
  {
    var parts := [NatStr(c.red), NatStr(c.green), NatStr(c.blue)];
    forall k | 0 <= k < 3 ensures '\t' !in parts[k] && '\n' !in parts[k] {
      DigitsAvoid(parts[k], '\t');
      DigitsAvoid(parts[k], '\n');
    }
    JoinAvoids(parts, ',', '\t');
    JoinAvoids(parts, ',', '\n');
  }

  /**
   * A written line splits on tabs into exactly the nine columns: chrom, start, end, '.', 0, '.',
   * start again, end again, rgb (when the chromosome name has no tab).
   */
  lemma RowLayout(iv: Interval<real>, c: Rgb)
    requires '\t' !in iv.chrom
    ensures Split(FormatRow(MakeRow(iv, RgbString(c))), '\t')
         == [iv.chrom, IntStr(iv.start), IntStr(iv.end), ".", "0", ".", IntStr(iv.start), IntStr(iv.end), RgbString(c)]
  {
    var f := RowFields(MakeRow(iv, RgbString(c)));
    RgbStringPlain(c);
    forall k | 0 <= k < 9 ensures '\t' !in f[k] {
      if 1 <= k <= 7 && k != 3 && k != 5 {
        DigitsAvoid(f[k], '\t');
      }
    }
    SplitJoin(f, '\t');
  }

  /** A line of a row whose text fields hold no newline contains no newline. */
  lemma FormatRowOneLine(row: Row)
    requires '\n' !in row.chrom && '\n' !in row.name && '\n' !in row.strand && '\n' !in row.rgb
    ensures '\n' !in FormatRow(row)
  {
    var f := RowFields(row);
    forall k | 0 <= k < 9 ensures '\n' !in f[k] {
      if k in {1, 2, 4, 6, 7} {
        DigitsAvoid(f[k], '\n');
      }
    }
    JoinAvoids(f, '\t', '\n');
  }

  /** The file holds one line per row, in order, each terminated by a newline, and nothing else. */
  lemma {:induction false} BedLines(rows: seq<Row>)
    requires forall k :: 0 <= k < |rows| ==>
      '\n' !in rows[k].chrom && '\n' !in rows[k].name && '\n' !in rows[k].strand && '\n' !in rows[k].rgb
    ensures Split(Bed(rows), '\n') == seq(|rows|, k requires 0 <= k < |rows| => FormatRow(rows[k])) + [""]
  {
    var lines := seq(|rows|, k requires 0 <= k < |rows| => FormatRow(rows[k]));
    forall k | 0 <= k < |rows| ensures '\n' !in lines[k] {
      FormatRowOneLine(rows[k]);
    }
    BedTerminated(rows);
    SplitTerminated(lines);
  }

  /** Every line followed by a newline. */
  function Terminated(lines: seq<string>): string
  {
    if |lines| == 0 then "" else lines[0] + "\n" + Terminated(lines[1..])
  }

  /** The file is its rows' lines, each terminated. */
  lemma {:induction false} BedTerminated(rows: seq<Row>)
    ensures Bed(rows) == Terminated(seq(|rows|, k requires 0 <= k < |rows| => FormatRow(rows[k])))
  {
    if |rows| > 0 {
      var lines := seq(|rows|, k requires 0 <= k < |rows| => FormatRow(rows[k]));
      var rest := seq(|rows[1..]|, k requires 0 <= k < |rows[1..]| => FormatRow(rows[1..][k]));
      BedTerminated(rows[1..]);
      assert lines[0] == FormatRow(rows[0]);
      assert lines[1..] == rest;
      assert Terminated(lines) == lines[0] + "\n" + Terminated(rest);
    }
  }

  /** Newline-free lines, each terminated, split back on newlines into those lines and an empty rest. */
  lemma {:induction false} SplitTerminated(lines: seq<string>)
    requires forall k :: 0 <= k < |lines| ==> '\n' !in lines[k]
    ensures Split(Terminated(lines), '\n') == lines + [""]
  {
    if |lines| > 0 {
      var t := Terminated(lines[1..]);
      assert Terminated(lines) == lines[0] + ['\n'] + t;
      SplitPrefix(lines[0], '\n', t);
      SplitTerminated(lines[1..]);
      assert lines == [lines[0]] + lines[1..];
    }
  }
}
