/**
 * The top level of genomap.py: build the colormap, load and cut the intervals, mask the zero
 * counts, resolve the bounds, colour every interval by its band and lay out the rows, and derive
 * the colorbar path. Reading the signal track, argument parsing and drawing are not modelled.
 */
module Genomap {
  import opened Common
  import opened Text
  import opened Chunking
  import opened Bounds
  import opened Bands
  import opened Colormaps
  import opened Output
  import opened Paths

  /** The library behaviour the script relies on and whose code is not part of this model. */
  datatype Libraries = Libraries(
    parse: Parser,                        // float()
    percentile: Percentile,               // np.nanpercentile
    palettes: set<string>,                // names plt.get_cmap accepts
    isColor: string -> bool,              // strings matplotlib accepts as colours
    colorOf: (Colormap, real) -> Rgb)     // int(round(ch * 255)) of cmap(x)[:3]

  /** The command-line arguments that reach the modelled code. */
  datatype Arguments = Arguments(binsize: int, vmin: string, vmax: string, colormap: string,
                                 colorbarFile: Option<string>, outputFile: string)

  /** What one run produces: the rows, the text written to the output file, and the colorbar path. */
  datatype Outcome = Outcome(rows: seq<Row>, bed: string, colorbarPath: string)

  /** df['counts']. */
  function Counts(ivs: seq<Interval<real>>): (c: seq<real>)
    ensures |c| == |ivs|
    ensures forall i :: 0 <= i < |ivs| ==> c[i] == ivs[i].value
  {
    seq(|ivs|, i requires 0 <= i < |ivs| => ivs[i].value)
  }

  /** norm(x) then Normalize(0, 8): the colormap coordinate of one count. */
  function CoordinateOf(x: real, vmin: real, vmax: real): (c: real)
    ensures 0.0 <= c <= 1.0
    ensures vmax <= x || vmax <= vmin ==> c == 1.0
  {
    Coordinate(Band(x, vmin, vmax))
  }

  /** The rgb string of one count: band, then colormap coordinate, then colour. */
  function ColorOf(x: real, cmap: Colormap, vmin: real, vmax: real, colorOf: (Colormap, real) -> Rgb): (s: string)
    ensures vmax <= x || vmax <= vmin ==> s == RgbString(colorOf(cmap, 1.0))
  {
    RgbString(colorOf(cmap, CoordinateOf(x, vmin, vmax)))
  }

  /** One row per interval, coloured from its own (unmasked) count. */
  function RowsOf(ivs: seq<Interval<real>>, cmap: Colormap, vmin: real, vmax: real,
                  colorOf: (Colormap, real) -> Rgb): (rows: seq<Row>)
    ensures |rows| == |ivs|
  {
    seq(|ivs|, i requires 0 <= i < |ivs| => MakeRow(ivs[i], ColorOf(ivs[i].value, cmap, vmin, vmax, colorOf)))
  }

  /** The script from get_colormap to get_cbar_outfile; each failing step aborts the run with its error. */
  method Run(track: seq<Chrom<real>>, args: Arguments, lib: Libraries) returns (r: Result<Outcome>)
    ensures GetColormap(args.colormap, lib.palettes, lib.isColor).Err? ==>
      r == Err(GetColormap(args.colormap, lib.palettes, lib.isColor).error)
    ensures GetColormap(args.colormap, lib.palettes, lib.isColor).Ok? && !Chunkable(track, args.binsize) ==>
      r == Err(ZeroBinsize)
    ensures GetColormap(args.colormap, lib.palettes, lib.isColor).Ok? && Chunkable(track, args.binsize) ==>
      var cmap := GetColormap(args.colormap, lib.palettes, lib.isColor).value;
      var ivs := ChunkTrack(track, args.binsize);
      var masked := MaskZeros(Counts(ivs));
      var lo := ResolveSpec(masked, args.vmin, lib.parse, lib.percentile);
      var hi := ResolveSpec(masked, args.vmax, lib.parse, lib.percentile);
      && (lo.Err? ==> r == Err(lo.error))
      && (lo.Ok? && hi.Err? ==> r == Err(hi.error))
      && (lo.Ok? && hi.Ok? ==>
            var rows := RowsOf(ivs, cmap, lo.value, hi.value, lib.colorOf);
            r == Ok(Outcome(rows, Bed(rows), CbarOutfile(args.colorbarFile, args.outputFile))))
  {
    var cm := GetColormap(args.colormap, lib.palettes, lib.isColor);
    if cm.Err? {
      return Err(cm.error);
    }
    var loaded := BwToIntervals(track, args.binsize);
    if loaded.Err? {
      return Err(loaded.error);
    }
    var df := loaded.value;
    var counts := MaskZeros(Counts(df));
    var bounds := GetVminmax(counts, args.vmin, args.vmax, lib.parse, lib.percentile);
    if bounds.Err? {
      return Err(bounds.error);
    }
    var vmin, vmax := bounds.value[0], bounds.value[1];
    var rows := RowsOf(df, cm.value, vmin, vmax, lib.colorOf);
    var cbarfile := CbarOutfile(args.colorbarFile, args.outputFile);
    return Ok(Outcome(rows, Bed(rows), cbarfile));
  }

  // ---------------------------------------------------------------------------------------

  /** Row i describes interval i: same place, fixed placeholder columns, thick part equal to the interval. */
  lemma RowsDescribeIntervals(ivs: seq<Interval<real>>, cmap: Colormap, vmin: real, vmax: real,
                              colorOf: (Colormap, real) -> Rgb, i: int)
    requires 0 <= i < |ivs|
    ensures var row := RowsOf(ivs, cmap, vmin, vmax, colorOf)[i];
      && row.chrom == ivs[i].chrom && row.start == ivs[i].start && row.end == ivs[i].end
      && row.name == "." && row.score == 0 && row.strand == "."
      && row.thickStart == row.start && row.thickEnd == row.end
  {
  }

  /**
   * A zero count is masked only in the copy used for the bounds: its own row is still coloured,
   * with the lowest band's colour when 0 <= vmin < vmax.
   */
  lemma ZeroCountGetsLowestColour(ivs: seq<Interval<real>>, cmap: Colormap, vmin: real, vmax: real,
                                  colorOf: (Colormap, real) -> Rgb, i: int)
    requires 0 <= i < |ivs| && ivs[i].value == 0.0 && 0.0 <= vmin < vmax
    ensures MaskZeros(Counts(ivs))[i] == NaN
    ensures RowsOf(ivs, cmap, vmin, vmax, colorOf)[i].rgb == RgbString(colorOf(cmap, 0.0))
  {
    BandBelow(0.0, vmin, vmax);
  }

  /** Every row takes one of at most nine colours, that of its band k at coordinate k/8. */
  lemma NineColours(ivs: seq<Interval<real>>, cmap: Colormap, vmin: real, vmax: real,
                    colorOf: (Colormap, real) -> Rgb, i: int)
    requires 0 <= i < |ivs|
    ensures exists k ::
      0 <= k < NColors && RowsOf(ivs, cmap, vmin, vmax, colorOf)[i].rgb == RgbString(colorOf(cmap, Coordinate(k)))
  {
    var k := Band(ivs[i].value, vmin, vmax);
    assert RowsOf(ivs, cmap, vmin, vmax, colorOf)[i].rgb == RgbString(colorOf(cmap, Coordinate(k)));
  }

  /**
   * Larger counts never get a lower band: the colour of row i is taken at the coordinate of
   * count i, and these coordinates follow the counts' order.
   */
  lemma ColourOrderFollowsCounts(ivs: seq<Interval<real>>, cmap: Colormap, vmin: real, vmax: real,
                                 colorOf: (Colormap, real) -> Rgb, i: int, j: int)
    requires 0 <= i < |ivs| && 0 <= j < |ivs| && ivs[i].value <= ivs[j].value
    ensures RowsOf(ivs, cmap, vmin, vmax, colorOf)[i].rgb == RgbString(colorOf(cmap, CoordinateOf(ivs[i].value, vmin, vmax)))
    ensures RowsOf(ivs, cmap, vmin, vmax, colorOf)[j].rgb == RgbString(colorOf(cmap, CoordinateOf(ivs[j].value, vmin, vmax)))
    ensures 0.0 <= CoordinateOf(ivs[i].value, vmin, vmax) <= CoordinateOf(ivs[j].value, vmin, vmax) <= 1.0
  {
    CoordinateFacts(ivs[i].value, ivs[j].value, vmin, vmax);
  }

  /**
   * The written file, read back: one line per interval in table order plus the empty rest after the
   * last newline, and line i splits on tabs into interval i's nine columns.
   */
  lemma WrittenFile(ivs: seq<Interval<real>>, cmap: Colormap, vmin: real, vmax: real,
                    colorOf: (Colormap, real) -> Rgb)
    requires forall i :: 0 <= i < |ivs| ==> '\t' !in ivs[i].chrom && '\n' !in ivs[i].chrom
    ensures |Split(Bed(RowsOf(ivs, cmap, vmin, vmax, colorOf)), '\n')| == |ivs| + 1
    ensures forall i :: 0 <= i < |ivs| ==>
      Split(Split(Bed(RowsOf(ivs, cmap, vmin, vmax, colorOf)), '\n')[i], '\t')
        == [ivs[i].chrom, IntStr(ivs[i].start), IntStr(ivs[i].end), ".", "0", ".",
            IntStr(ivs[i].start), IntStr(ivs[i].end), ColorOf(ivs[i].value, cmap, vmin, vmax, colorOf)]
  {
    var rows := RowsOf(ivs, cmap, vmin, vmax, colorOf);
    forall k | 0 <= k < |rows|
      ensures '\n' !in rows[k].chrom && '\n' !in rows[k].name && '\n' !in rows[k].strand && '\n' !in rows[k].rgb
    {
      RgbStringPlain(colorOf(cmap, CoordinateOf(ivs[k].value, vmin, vmax)));
    }
    BedLines(rows);
    var lines := Split(Bed(rows), '\n');
    forall i | 0 <= i < |ivs|
      ensures Split(lines[i], '\t')
        == [ivs[i].chrom, IntStr(ivs[i].start), IntStr(ivs[i].end), ".", "0", ".",
            IntStr(ivs[i].start), IntStr(ivs[i].end), ColorOf(ivs[i].value, cmap, vmin, vmax, colorOf)]
    {
      assert lines[i] == FormatRow(rows[i]);
      RowLayout(ivs[i], colorOf(cmap, CoordinateOf(ivs[i].value, vmin, vmax)));
    }
  }
}
