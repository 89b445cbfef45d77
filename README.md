# genomap in Dafny

A model of the algorithmic core of `genomap.py`. The script turns a BigWig coverage track into a
coloured interval file for a genome browser, and draws a legend (colorbar) for it. The stages are:

1. **Loading** (`bw_to_df`). Every record of every chromosome is read in order. A record wider
   than `binsize` is cut into pieces on a `range(start, end, binsize)` grid. The last piece is
   clipped to the record's end. Narrower records pass through unchanged.
2. **Bounds** (`get_vminmax`). The zero counts are replaced by NaN in a copy of the counts. Each
   of the two bound specifications `vmin` and `vmax` then becomes a number:
   - `p<q>` is the NaN-aware `q`-th percentile of that copy;
   - any other specification is `float()` of everything after its first character.
3. **Bands** (`BoundaryNorm(np.linspace(vmin, vmax, 10), 9, clip=True)`, then `Normalize(0, 8)`).
   Each count is clipped to the bounds and put in one of nine bands, 0..8. The band then becomes
   the colormap coordinate band/8.
4. **Colormap** (`get_colormap`). A specification whose comma split has more than one part is a
   custom 256-step gradient over those colours. Any other specification names a palette.
5. **Rows** (`to_csv`). Each interval becomes one tab-separated line with the nine columns
   `chrom, start, end, '.', 0, '.', start, end, rgb`. There is no header.
6. **Colorbar path** (`get_cbar_outfile`). A given colorbar file name is kept. Otherwise the path is
   `os.path.join(os.path.dirname(output), 'colorbar.pdf')`, with POSIX path rules.

The modules follow these stages:
- `Chunking` (chunking.dfy)
- `Bounds` (bounds.dfy)
- `Bands` (bands.dfy)
- `Colormaps` (colormaps.dfy)
- `Output` (output.dfy)
- `Paths` (paths.dfy)
- `Genomap` (genomap.dfy), the script's top level chaining them.

`Text` (text.dfy) models Python's `str.split` and `str.join`. `Common` (common.dfy) holds the
`Result` type and the errors.

The loader and `get_vminmax` are loops in the source. They are methods with loops here, proved
against specification functions (`ChunkTrack`, `ResolveSpec`). Everything else is a function with
lemmas.

Library calls whose code is not part of this model are parameters of the model:
- `float()` is `parse`;
- `np.nanpercentile` is `percentile`, a function of the multiset of non-NaN values;
- the palette names `plt.get_cmap` knows are `palettes`;
- matplotlib's colour-string check is `isColor`;
- evaluating the colormap and rounding the channels is `colorOf`.

Behaviour of the script worth knowing, which the model keeps as written:
- A literal bound specification is not used as written, although the help text (genomap.py:103)
  only marks a "p" prefix as a percentile. genomap.py:78 drops its first character.
  So `"3.5"` gives 0.5, `"10"` gives 0.0, and `"5"` makes `float('')` raise
  (`Bounds.LiteralDropsFirstChar`, `Bounds.SingleCharLiteralFails`).
- The program never checks `vmin < vmax`. With `vmin >= vmax`, numpy's clip sends every value to
  `vmax`, so every interval gets the top band (`Bands.DegenerateBoundsTopBand`).
- `binsize` is not checked to be positive. A binsize of 0 raises (through `range()`) only when some
  record is wider than 0. A negative binsize silently drops every proper record
  (`Chunking.NegativeBinsizeDrops`).
- A custom colour list cannot have fewer than two entries, because it is only chosen when the split
  yields more than one part. An empty entry such as in `"red,"` is rejected as an invalid colour,
  given that the empty string is not a colour (`Colormaps.TrailingCommaRejected`).

## Model

| member | source | states |
|---|---|---|
| `Chunking.Range` | genomap.py:53 | `range(start, stop, step)` for a non-zero step. It is non-empty exactly when start lies before stop in the step's direction. Every element lies between start, included, and stop, excluded. |
| `Chunking.Piece` | genomap.py:50-53 | The piece at pos keeps the chromosome, pos and the value. With a positive binsize and pos < end, it ends after pos, at most binsize later, and not past the record's end. |
| `Chunking.Pieces` | genomap.py:48-54 | There is one piece per element of `range(start, end, binsize)`. With binsize > 0, every piece is non-empty and lies within [start, end). |
| `Chunking.ChunkRecord` | genomap.py:48-57 | Every interval a record contributes carries the record's chromosome and value. A non-empty record with binsize > 0 contributes at least one. |
| `Chunking.ChunkChrom` | genomap.py:46-57 | Every interval is on the chromosome. With binsize > 0 and non-empty records, there are at least as many intervals as records. |
| `Chunking.ChunkTrack` | genomap.py:45-65 | Every interval of the table carries the name of some chromosome of the track. |
| `Chunking.BwToIntervals` | genomap.py:40-67 | The nested loops over chromosomes and records produce exactly the table `ChunkTrack`. They fail with ZeroBinsize exactly when binsize is 0 and some record is wider than 0. |
| `Chunking.RangeSteps` | genomap.py:53 | `range(start, end, binsize)` with a positive step starts at `start`. Its elements are one step apart and all below `end`. One more step reaches `end` or passes it. |
| `Chunking.RangeLength` | genomap.py:53 | For a positive step, `range` has ceil((stop-start)/step) elements, or none when start >= stop. |
| `Chunking.PiecesShape` | genomap.py:48-54 | A wide record yields ceil((end-start)/binsize) >= 2 pieces. The first starts at `start` and the last ends at `end`. Each piece ends where the next starts, is non-empty and at most binsize wide, and carries the record's chromosome. |
| `Chunking.PiecesCarry` | genomap.py:50-53 | Every piece carries the record's chromosome and value. |
| `Chunking.PiecesCover` | genomap.py:48-54 | A position lies in some piece of a wide record exactly when it lies in [start, end): no gaps, nothing outside. |
| `Chunking.PiecesDisjoint` | genomap.py:48-54 | An earlier piece ends at or before a later piece starts: no overlaps, in position order. |
| `Chunking.NarrowUnchanged` | genomap.py:56-57 | A record no wider than binsize is emitted as itself. |
| `Chunking.NegativeBinsizeDrops` | genomap.py:48-53 | With a negative binsize a record with start < end takes the cutting branch over an empty range and yields nothing. |
| `Chunking.ChunkChromAppend` | genomap.py:47-57 | The list for records rs1 + rs2 is the list for rs1 followed by the list for rs2 (output follows record order). |
| `Chunking.ChunkTrackAppend` | genomap.py:45-65 | The table for chromosomes t1 + t2 is the table for t1 followed by the table for t2 (output follows chromosome order). |
| `Chunking.ChunkChromIntervals` | genomap.py:46-57 | With binsize > 0 and proper records, every interval of a chromosome carries its name and is non-empty and at most binsize wide. |
| `Chunking.ChunkTrackWidths` | genomap.py:45-65 | With binsize > 0 and proper records, every interval of the loaded table is non-empty and at most binsize wide. |
| `Chunking.ChunkChromCovered` | genomap.py:47-57 | The intervals of a chromosome cover as many bases as its records. |
| `Chunking.ChunkTrackCovered` | genomap.py:45-65 | The loaded table covers as many bases as the whole track. |
| `Chunking.ThreeBins` | genomap.py:45-65 | chr1 with the record (0, 300), binsize 100, gives (0,100), (100,200), (200,300) with the record's value. |
| `Bounds.MaskZeros` | genomap.py:133-134 | The copy has one entry per count. Entry i is NaN exactly when count i is zero, and is count i otherwise. |
| `Bounds.ResolveSpec` | genomap.py:72-78 | Success needs `float()` of all but the first character to succeed. Every error names the specification, and out-of-range is only possible for a 'p' specification. |
| `Bounds.MaskedValues` | genomap.py:133-134 | The non-NaN values of the masked copy are exactly the non-zero counts, as a multiset. |
| `Bounds.GetVminmax` | genomap.py:70-80 | The loop over [vmin, vmax] returns two bounds in that order, each the resolution of its specification. The vmin error wins when both fail. |
| `Bounds.PercentileOfNonZero` | genomap.py:73-76 | `"p" + s` with s parsing to q in [0, 100] resolves to the percentile q of the non-zero counts. |
| `Bounds.ZerosIgnored` | genomap.py:133-135 | Two count lists with the same non-zero values resolve every specification to the same bound, whatever their zeros. |
| `Bounds.LiteralDropsFirstChar` | genomap.py:77-78 | For a first character other than 'p', the specification c + s is accepted exactly when s parses, and then gives float(s). |
| `Bounds.SingleCharLiteralFails` | genomap.py:78 | A one-character literal such as "5" leaves float('') and fails with InvalidBoundSpec. |
| `Bounds.UnparseableIsError` | genomap.py:72-78 | An unparseable remainder fails with InvalidBoundSpec naming the whole specification, whatever its first character. |
| `Bounds.PercentileSpecMeaning` | genomap.py:73-76 | A 'p' specification is accepted exactly when its remainder parses to a value in [0, 100]. The bound is then the percentile of the non-NaN values. |
| `Bands.Edge` | genomap.py:141 | The first linspace boundary is vmin and the tenth is vmax. |
| `Bands.EdgesAtOrBelow` | genomap.py:140-144 | The digitize count over the first n boundaries is at most n, and at least 1 when x is at or above vmin. |
| `Bands.Coordinate` | genomap.py:145 | Normalize(0, 8) maps bands 0..8 into [0, 1], band 0 to 0 and band 8 to 1. |
| `Bands.Clip` | genomap.py:143 | np.clip: the result is at most hi; at least lo when lo <= hi; x itself when x is already inside. |
| `Bands.Band` | genomap.py:140-144 | The band is always one of 0..8. |
| `Bands.EdgeIncreasing` | genomap.py:141 | With vmin < vmax the ten linspace boundaries strictly increase. |
| `Bands.BandIsEdgeInterval` | genomap.py:140-144 | For vmin <= x < vmax, x is in band k exactly when boundary k <= x < boundary k+1. |
| `Bands.BandBelow` | genomap.py:140-144 | With vmin < vmax, a value at or below vmin is in band 0. |
| `Bands.BandAbove` | genomap.py:140-144 | A value at or above vmax is in band 8. |
| `Bands.DegenerateBoundsTopBand` | genomap.py:140-144 | With vmin >= vmax every value is in band 8. |
| `Bands.BandMonotone` | genomap.py:140-144 | The band never decreases as the value grows. |
| `Bands.CoordinateFacts` | genomap.py:145 | The coordinate band/8 is in [0, 1]. It is 0 at or below vmin when vmin < vmax, 1 from vmax on, and non-decreasing in the value. |
| `Colormaps.GetColormap` | genomap.py:25-37 | Every error is InvalidColorSpec or UnknownColormap, naming the specification. A named colormap is the specification itself and a registered palette. A custom one has 256 steps and at least two colours, each valid. |
| `Colormaps.TrailingCommaRejected` | genomap.py:26-32 | When the empty string is not a colour, "red," is rejected with InvalidColorSpec. |
| `Colormaps.CustomIffComma` | genomap.py:26 | The custom gradient is chosen, or a colour of it rejected, exactly when the specification contains a comma. |
| `Colormaps.CustomColors` | genomap.py:26-32 | A custom gradient has the comma-split parts in order, at least two, which join back to the specification, and 256 steps. |
| `Colormaps.NamedPassThrough` | genomap.py:34-35 | A specification without a comma is looked up unchanged, or fails as an unknown name. |
| `Colormaps.CustomRoundTrip` | genomap.py:25-32 | Comma-joining at least two valid comma-free colours gives a specification that yields exactly those colours with 256 steps. |
| `Text.Tail` | genomap.py:78 | `s[1:]`: a non-empty s is its first character followed by the tail, and the tail of "" is "". |
| `Text.Join` | genomap.py:147-148 | `sep.join`: the first part is a prefix of the result, and with two or more parts the separator occurs. |
| `Text.Split` | genomap.py:26-27 | str.split yields at least one part, and no part contains the separator. |
| `Text.JoinSplit` | genomap.py:26-27 | Joining the parts of a split with the separator gives back the string. |
| `Text.SplitJoin` | genomap.py:26-27 | Splitting the join of at least one separator-free part gives back the parts. |
| `Text.SplitManyIffSep` | genomap.py:26 | A split yields more than one part exactly when the separator occurs. |
| `Output.IntStr` | genomap.py:153-159 | The text written for an integer column has only digits and '-'. |
| `Output.RgbString` | genomap.py:147-148 | The rgb field begins with the red channel's digits and contains a comma. |
| `Output.MakeRow` | genomap.py:151-152 | The row keeps the interval's chrom, start and end and the given rgb. thickStart and thickEnd equal start and end. |
| `Output.FormatRow` | genomap.py:153-159 | A line begins with the chromosome name and holds tab separators. |
| `Output.Bed` | genomap.py:154-159 | The text is empty exactly when there are no rows, and otherwise ends with a newline. |
| `Output.NatStr` | genomap.py:148 | str() of a non-negative integer is a non-empty string of digits. |
| `Output.NatStrRoundTrip` | genomap.py:148 | Reading back the digits of str(n) gives n. |
| `Output.IntStrRoundTrip` | genomap.py:154-159 | Reading back the text written for an integer column gives the integer. |
| `Output.RgbStringFields` | genomap.py:147-149 | The rgb field splits on commas into exactly three numbers that read back as the red, green and blue channels. |
| `Output.RowFields` | genomap.py:153 | A row is written as nine fields. |
| `Output.RowLayout` | genomap.py:151-153 | A written line splits on tabs into chrom, start, end, '.', '0', '.', start, end, rgb. |
| `Output.BedLines` | genomap.py:154-159 | The file splits on newlines into one line per row, in order, followed by nothing: no header. |
| `Paths.CbarOutfile` | genomap.py:14-22 | The colorbar path is never empty. The default path begins with the output file's directory. |
| `Paths.Dirname` | genomap.py:16 | `posixpath.dirname` gives a prefix of the path, and "" when the path has no slash. |
| `Paths.JoinPath` | genomap.py:17-20 | `posixpath.join(a, b)` ends with b, and begins with a unless b is absolute. |
| `Paths.AfterLastSep` | genomap.py:16 | rfind('/') + 1: either 0 or just after a slash, and there is no slash from there on. |
| `Paths.RStripSeps` | genomap.py:16 | rstrip('/') gives a prefix that does not end in a slash, and everything it removed is slashes. |
| `Paths.CbarGiven` | genomap.py:15-22 | A truthy colorbar file is returned unchanged. |
| `Paths.CbarSibling` | genomap.py:15-20 | Otherwise the result is a prefix of the output path, ending just after a slash of its last run of slashes or empty exactly when the path has no slash, followed by colorbar.pdf. |
| `Paths.CbarEndsWithName` | genomap.py:17-20 | The default path always ends with colorbar.pdf. |
| `Paths.CbarNoDirectory` | genomap.py:16-20 | An output path without a slash gives exactly colorbar.pdf. |
| `Paths.CbarInDirectory` | genomap.py:16-20 | For the output path dir/file, with dir non-empty and not ending in a slash, the result is dir/colorbar.pdf. |
| `Genomap.Counts` | genomap.py:133 | There is one count per interval, and count i is interval i's value. |
| `Genomap.CoordinateOf` | genomap.py:140-145 | The coordinate of a count lies in [0, 1]. It is 1 from vmax on, and for every count when vmin >= vmax. |
| `Genomap.ColorOf` | genomap.py:146-148 | A count at or above vmax, or any count when vmin >= vmax, gets the colour at coordinate 1. |
| `Genomap.Run` | genomap.py:128-164 | The steps run in the script's order. A colormap error comes first, then ZeroBinsize, then a vmin error, then a vmax error. Otherwise the run gives one row per loaded interval, its text and the colorbar path. |
| `Genomap.RowsOf` | genomap.py:146-153 | There is exactly one row per interval. |
| `Genomap.RowsDescribeIntervals` | genomap.py:151-153 | Row i has interval i's chrom, start and end, name '.', score 0, strand '.', and thickStart/thickEnd equal to start/end. |
| `Genomap.ZeroCountGetsLowestColour` | genomap.py:133-150 | A zero count is NaN only in the masked copy. Its row is still coloured, with the band-0 colour when 0 <= vmin < vmax. |
| `Genomap.NineColours` | genomap.py:140-149 | Every row's colour is the colour at coordinate k/8 for some band k in 0..8. |
| `Genomap.ColourOrderFollowsCounts` | genomap.py:140-148 | Rows i and j are coloured at the coordinates of counts i and j. When count i is at most count j, row i's coordinate is at most row j's, and both lie in [0, 1]. |
| `Genomap.WrittenFile` | genomap.py:146-159 | Read back, the output has one line per interval in table order. Line i splits into interval i's nine columns with the colour of its band. |

## Left out

- Reading the BigWig file (`pbw.open`, `chroms()`, `intervals()`, `close()`, genomap.py:41-47, 66) is foreign file-format code. The chromosomes and their records are an input sequence in file order.
- Argument parsing (genomap.py:83-126) is left out. `Genomap.Arguments` carries the parsed values. The defaults `p5`, `p75` and `coolwarm`, and argparse's integer conversion, are not modelled.
- `float()`, `np.nanpercentile`, the palette registry, matplotlib's colour check and colormap evaluation have no code here. They are parameters. Their float-specific results are not modelled: NaN and infinity from `float()`, interpolation, or the NaN that nanpercentile returns with no non-NaN value.
- Bands.Band: uses exact real arithmetic for `np.linspace` and the boundary comparisons. IEEE rounding can move a value that sits exactly on a boundary.
- NaN counts from the track, and NaN through BoundaryNorm (a masked "bad" colour), are float-specific. The model's counts are real numbers.
- Colour evaluation and channel rounding (`cmap(...)`, `int(round(i*255))`, genomap.py:148) are the parameter `colorOf`. The model does not enforce the 0..255 channel range.
- Drawing and saving the colorbar figure (genomap.py:165-174) is plotting and I/O. Only its path is modelled.
- Writing the CSV file to disk is I/O. Output.Bed: models the text only, with "\n" line ends (POSIX `os.linesep`). It leaves out pandas' quoting of fields that contain a tab, a newline or a quote character. `Genomap.WrittenFile` therefore assumes chromosome names free of tabs and newlines.
- Accumulating with `pd.concat` is modelled as sequence concatenation. The quadratic cost, the dtypes and the duplicated index are left out.
