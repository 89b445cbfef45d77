/**
 * The interval loader of genomap.py (bw_to_df): every record of every chromosome, in order,
 * is either passed through or cut into pieces of at most `binsize` bases.
 * The signal-track file itself is not modelled: the chromosomes and their records are an input.
 */
module Chunking {
  import opened Common

  /** One stored record of a chromosome: the half-open range [start, end) and its value. */
  datatype Record<V> = Record(start: int, end: int, value: V)

  /** One chromosome of the track with its records, in file order. */
  datatype Chrom<V> = Chrom(name: string, records: seq<Record<V>>)

  /** One row of the loaded table: chrom, start, end, counts. */
  datatype Interval<V> = Interval(chrom: string, start: int, end: int, value: V)

  /** Python's range(start, stop, step) for a non-zero step. */
  function Range(start: int, stop: int, step: int): (r: seq<int>)
    requires step != 0
    ensures |r| > 0 <==> (step > 0 && start < stop) || (step < 0 && start > stop)
    ensures forall k :: 0 <= k < |r| ==> if step > 0 then start <= r[k] < stop else stop < r[k] <= start
    decreases if step > 0 then stop - start else start - stop
  {
    if (step > 0 && start < stop) || (step < 0 && start > stop) then
      [start] + Range(start + step, stop, step)
    else
      []
  }

  /** The piece that starts at `pos`, clipped to the record's end. */
  function Piece<V>(chrom: string, pos: int, end: int, binsize: int, value: V): (p: Interval<V>)
    ensures p.chrom == chrom && p.start == pos && p.value == value
    ensures 0 < binsize && pos < end ==> pos < p.end <= end && p.end - p.start <= binsize
  {
    if pos + binsize <= end then Interval(chrom, pos, pos + binsize, value)
    else Interval(chrom, pos, end, value)
  }

  /** The list comprehension over range(start, end, binsize). */
  function Pieces<V>(chrom: string, r: Record<V>, binsize: int): (ps: seq<Interval<V>>)
    requires binsize != 0
    ensures |ps| == |Range(r.start, r.end, binsize)|
    ensures binsize > 0 ==> forall k :: 0 <= k < |ps| ==> r.start <= ps[k].start < ps[k].end <= r.end
  {
    var ps := Range(r.start, r.end, binsize);
    seq(|ps|, k requires 0 <= k < |ps| => Piece(chrom, ps[k], r.end, binsize, r.value))
  }

  /** The record is wider than one bin and goes through the cutting branch. */
  predicate Wide<V>(r: Record<V>, binsize: int) {
    r.end - r.start > binsize
  }

  /** The record can be processed: a wide record with binsize 0 makes range() raise. */
  predicate Splittable<V>(r: Record<V>, binsize: int) {
    binsize != 0 || !Wide(r, binsize)
  }

  predicate AllSplittable<V>(rs: seq<Record<V>>, binsize: int) {
    forall j :: 0 <= j < |rs| ==> Splittable(rs[j], binsize)
  }

  predicate Chunkable<V>(track: seq<Chrom<V>>, binsize: int) {
    forall i :: 0 <= i < |track| ==> AllSplittable(track[i].records, binsize)
  }

  /** What one record contributes to the chromosome's interval list. */
  function ChunkRecord<V>(chrom: string, r: Record<V>, binsize: int): (c: seq<Interval<V>>)
    requires Splittable(r, binsize)
    ensures forall k :: 0 <= k < |c| ==> c[k].chrom == chrom && c[k].value == r.value
    ensures binsize > 0 && r.start < r.end ==> |c| >= 1
  {
    if Wide(r, binsize) then Pieces(chrom, r, binsize)
    else [Interval(chrom, r.start, r.end, r.value)]
  }

  /** The interval list of one chromosome: its records' contributions in record order. */
  function ChunkChrom<V>(chrom: string, rs: seq<Record<V>>, binsize: int): (c: seq<Interval<V>>)
    requires AllSplittable(rs, binsize)
    ensures OnChrom(c, chrom)
    ensures binsize > 0 && ProperRecords(rs) ==> |c| >= |rs|
  {
    if |rs| == 0 then []
    else ChunkChrom(chrom, rs[..|rs| - 1], binsize) + ChunkRecord(chrom, rs[|rs| - 1], binsize)
  }

  /** The whole table: the chromosomes' interval lists in chromosome order. */
  function ChunkTrack<V>(track: seq<Chrom<V>>, binsize: int): (c: seq<Interval<V>>)
    requires Chunkable(track, binsize)
    ensures forall k :: 0 <= k < |c| ==> exists j :: 0 <= j < |track| && c[k].chrom == track[j].name
  {
    if |track| == 0 then []
    else
      var last := track[|track| - 1];
      ChunkTrack(track[..|track| - 1], binsize) + ChunkChrom(last.name, last.records, binsize)
  }

  /** bw_to_df after the file has been read: nested loops over chromosomes and records. */
  method BwToIntervals<V>(track: seq<Chrom<V>>, binsize: int) returns (r: Result<seq<Interval<V>>>)
    ensures r.Ok? <==> Chunkable(track, binsize)
    ensures r.Err? ==> r.error == ZeroBinsize
    ensures r.Ok? ==> r.value == ChunkTrack(track, binsize)
  {
    var df: seq<Interval<V>> := [];
    var i := 0;
    while i < |track|
      invariant 0 <= i <= |track|
      invariant Chunkable(track[..i], binsize)
      invariant df == ChunkTrack(track[..i], binsize)
    {
      var chrom := track[i].name;
      var records := track[i].records;
      var intervals: seq<Interval<V>> := [];
      var j := 0;
      while j < |records|
        invariant 0 <= j <= |records|
        invariant AllSplittable(records[..j], binsize)
        invariant intervals == ChunkChrom(chrom, records[..j], binsize)
      {
        var rec := records[j];
        if rec.end - rec.start > binsize {
          if binsize == 0 {
            NotChunkable(track, binsize, i, j);
            return Err(ZeroBinsize);
          }
          intervals := intervals + Pieces(chrom, rec, binsize);
        } else {
          intervals := intervals + [Interval(chrom, rec.start, rec.end, rec.value)];
        }
        ChunkChromStep(chrom, records, j, binsize);
        j := j + 1;
      }
      assert records[..j] == records;
      ChunkTrackStep(track, i, binsize);
      df := df + intervals;
      i := i + 1;
    }
    assert track[..i] == track;
    return Ok(df);
  }

  lemma NotChunkable<V>(track: seq<Chrom<V>>, binsize: int, i: int, j: int)
    requires 0 <= i < |track| && 0 <= j < |track[i].records|
    requires !Splittable(track[i].records[j], binsize)
    ensures !Chunkable(track, binsize)
  {
    assert !AllSplittable(track[i].records, binsize);
  }

  /** Processing record j appends its contribution to the list of records before it. */
  lemma ChunkChromStep<V>(chrom: string, rs: seq<Record<V>>, j: int, binsize: int)
    requires 0 <= j < |rs| && AllSplittable(rs[..j], binsize) && Splittable(rs[j], binsize)
    ensures AllSplittable(rs[..j + 1], binsize)
    ensures ChunkChrom(chrom, rs[..j + 1], binsize) == ChunkChrom(chrom, rs[..j], binsize) + ChunkRecord(chrom, rs[j], binsize)
  {
    assert rs[..j + 1][..j] == rs[..j];
  }

  /** Processing chromosome i appends its list to the table of the chromosomes before it. */
  lemma ChunkTrackStep<V>(track: seq<Chrom<V>>, i: int, binsize: int)
    requires 0 <= i < |track| && Chunkable(track[..i], binsize) && AllSplittable(track[i].records, binsize)
    ensures Chunkable(track[..i + 1], binsize)
    ensures ChunkTrack(track[..i + 1], binsize)
         == ChunkTrack(track[..i], binsize) + ChunkChrom(track[i].name, track[i].records, binsize)
  {
    assert track[..i + 1][..i] == track[..i];
  }

  // ---------------------------------------------------------------------------------------
  // Properties of the pieces of one wide record (binsize > 0).

  /** range(start, stop, step) with a positive step: from start, one step apart, all below stop, the next step at or past it. */
  lemma {:induction false} RangeSteps(start: int, stop: int, step: int)
    requires step > 0
    ensures |Range(start, stop, step)| > 0 <==> start < stop
    ensures |Range(start, stop, step)| > 0 ==> Range(start, stop, step)[0] == start
    ensures forall k :: 0 <= k < |Range(start, stop, step)| ==> Range(start, stop, step)[k] < stop
    ensures forall k :: 0 <= k < |Range(start, stop, step)| - 1 ==>
      Range(start, stop, step)[k + 1] == Range(start, stop, step)[k] + step
    ensures |Range(start, stop, step)| > 0 ==>
      Range(start, stop, step)[|Range(start, stop, step)| - 1] + step >= stop
    decreases stop - start
  {
    if start < stop {
      var rest := Range(start + step, stop, step);
      RangeSteps(start + step, stop, step);
      assert Range(start, stop, step) == [start] + rest;
    }
  }

  /** Python's len(range(start, stop, step)) for a positive step: the ceiling of (stop - start) / step. */
  lemma {:induction false} RangeLength(start: int, stop: int, step: int)
    requires step > 0
    ensures |Range(start, stop, step)| == if start < stop then (stop - start + step - 1) / step else 0
    decreases stop - start
  {
    if start < stop {
      RangeLength(start + step, stop, step);
      var n := stop - start + step - 1;
      DivShift(n - step, step);
    }
  }

  lemma DivShift(x: int, d: int)
    requires d > 0
    ensures (x + d) / d == x / d + 1
  {
    DivUnique(x + d, d, x / d + 1, x % d);
  }

  /** Euclidean division is determined by quotient and remainder. */
  lemma DivUnique(n: int, d: int, q: int, r: int)
    requires d > 0 && 0 <= r < d && n == q * d + r
    ensures n / d == q
  {
    var q', r' := n / d, n % d;
    assert (q - q') * d == r' - r;
    if q > q' { MulAtLeast(q - q', d); }
    if q < q' { MulAtLeast(q' - q, d); }
  }

  lemma MulAtLeast(a: int, d: int)
    requires a >= 1 && d > 0
    ensures a * d >= d
  {
  }

  /** Every interval is non-empty and at most one bin wide. */
  predicate WithinBin<V>(ivs: seq<Interval<V>>, binsize: int) {
    forall k :: 0 <= k < |ivs| ==> 0 < ivs[k].end - ivs[k].start <= binsize
  }

  /** Every interval belongs to `chrom`. */
  predicate OnChrom<V>(ivs: seq<Interval<V>>, chrom: string) {
    forall k :: 0 <= k < |ivs| ==> ivs[k].chrom == chrom
  }

  /** Every interval carries `value`. */
  ghost predicate Carries<V>(ivs: seq<Interval<V>>, value: V) {
    forall k :: 0 <= k < |ivs| ==> ivs[k].value == value
  }

  /** Each interval ends where the next one starts. */
  predicate Adjacent<V>(ivs: seq<Interval<V>>) {
    forall k :: 0 <= k < |ivs| - 1 ==> ivs[k].end == ivs[k + 1].start
  }

  /** The pieces of a wide record: their number, widths, chromosome, value and adjacency, from start to end. */
  lemma PiecesShape<V>(chrom: string, r: Record<V>, binsize: int)
    requires binsize > 0 && Wide(r, binsize)
    ensures |Pieces(chrom, r, binsize)| == (r.end - r.start + binsize - 1) / binsize
    ensures |Pieces(chrom, r, binsize)| >= 2
    ensures Pieces(chrom, r, binsize)[0].start == r.start
    ensures Pieces(chrom, r, binsize)[|Pieces(chrom, r, binsize)| - 1].end == r.end
    ensures WithinBin(Pieces(chrom, r, binsize), binsize)
    ensures OnChrom(Pieces(chrom, r, binsize), chrom)
    ensures Adjacent(Pieces(chrom, r, binsize))
  {
    PiecesCount(chrom, r, binsize);
    PiecesEnds(chrom, r, binsize);
    PiecesAdjacent(chrom, r, binsize);
  }

  lemma PiecesCount<V>(chrom: string, r: Record<V>, binsize: int)
    requires binsize > 0 && Wide(r, binsize)
    ensures |Pieces(chrom, r, binsize)| == (r.end - r.start + binsize - 1) / binsize
    ensures |Pieces(chrom, r, binsize)| >= 2
  {
    RangeLength(r.start, r.end, binsize);
    var n := r.end - r.start + binsize - 1;
    DivShift(n - binsize, binsize);
  }

  lemma PiecesEnds<V>(chrom: string, r: Record<V>, binsize: int)
    requires binsize > 0 && Wide(r, binsize)
    ensures |Pieces(chrom, r, binsize)| > 0
    ensures Pieces(chrom, r, binsize)[0].start == r.start
    ensures Pieces(chrom, r, binsize)[|Pieces(chrom, r, binsize)| - 1].end == r.end
  {
    RangeSteps(r.start, r.end, binsize);
  }

  lemma PiecesAdjacent<V>(chrom: string, r: Record<V>, binsize: int)
    requires binsize > 0
    ensures Adjacent(Pieces(chrom, r, binsize))
  {
    var ps := Range(r.start, r.end, binsize);
    var p := Pieces(chrom, r, binsize);
    RangeSteps(r.start, r.end, binsize);
    forall k | 0 <= k < |p| - 1
      ensures p[k].end == p[k + 1].start
    {
      assert ps[k + 1] == ps[k] + binsize;
    }
  }

  /** Every piece of a record carries the record's chromosome and value. */
  lemma PiecesCarry<V>(chrom: string, r: Record<V>, binsize: int)
    requires binsize != 0
    ensures OnChrom(Pieces(chrom, r, binsize), chrom)
    ensures Carries(Pieces(chrom, r, binsize), r.value)
  {
  }

  /** Adjacent non-empty intervals cover every position from the first start to the last end. */
  lemma {:induction false} AdjacentCover<V>(p: seq<Interval<V>>, x: int)
    requires |p| >= 1 && Adjacent(p) && p[0].start <= x < p[|p| - 1].end
    ensures exists k :: 0 <= k < |p| && p[k].start <= x < p[k].end
  {
    if x < p[|p| - 1].start {
      assert |p| > 1;
      AdjacentCover(p[..|p| - 1], x);
      var k :| 0 <= k < |p| - 1 && p[..|p| - 1][k].start <= x < p[..|p| - 1][k].end;
      assert p[k].start <= x < p[k].end;
    } else {
      assert p[|p| - 1].start <= x < p[|p| - 1].end;
    }
  }

  /** Adjacent non-empty intervals are ordered and do not overlap. */
  lemma {:induction false} AdjacentDisjoint<V>(p: seq<Interval<V>>, binsize: int, i: int, j: int)
    requires Adjacent(p) && WithinBin(p, binsize) && 0 <= i < j < |p|
    ensures p[i].end <= p[j].start
    decreases j - i
  {
    if j > i + 1 {
      AdjacentDisjoint(p, binsize, i, j - 1);
    }
  }

  /** Adjacent non-empty intervals stay between the first start and the last end. */
  lemma {:induction false} AdjacentWithin<V>(p: seq<Interval<V>>, binsize: int, k: int)
    requires Adjacent(p) && WithinBin(p, binsize) && 0 <= k < |p|
    ensures p[0].start <= p[k].start && p[k].end <= p[|p| - 1].end
  {
    if 0 < k {
      AdjacentDisjoint(p, binsize, 0, k);
    }
    if k < |p| - 1 {
      AdjacentDisjoint(p, binsize, k, |p| - 1);
    }
  }

  /** The pieces of a wide record cover exactly [start, end): each position lies in one of them ... */
  lemma PiecesCover<V>(chrom: string, r: Record<V>, binsize: int, x: int)
    requires binsize > 0 && Wide(r, binsize)
    ensures r.start <= x < r.end <==>
      exists k :: 0 <= k < |Pieces(chrom, r, binsize)| &&
        Pieces(chrom, r, binsize)[k].start <= x < Pieces(chrom, r, binsize)[k].end
  {
    var p := Pieces(chrom, r, binsize);
    PiecesShape(chrom, r, binsize);
    if r.start <= x < r.end {
      AdjacentCover(p, x);
    } else {
      forall k | 0 <= k < |p|
        ensures !(p[k].start <= x < p[k].end)
      {
        AdjacentWithin(p, binsize, k);
      }
    }
  }

  /** ... and no two of them overlap: an earlier piece ends before a later one starts. */
  lemma PiecesDisjoint<V>(chrom: string, r: Record<V>, binsize: int, i: int, j: int)
    requires binsize > 0 && Wide(r, binsize)
    requires 0 <= i < j < |Pieces(chrom, r, binsize)|
    ensures Pieces(chrom, r, binsize)[i].end <= Pieces(chrom, r, binsize)[j].start
  {
    PiecesShape(chrom, r, binsize);
    AdjacentDisjoint(Pieces(chrom, r, binsize), binsize, i, j);
  }

  /** A record no wider than a bin is emitted unchanged. */
  lemma NarrowUnchanged<V>(chrom: string, r: Record<V>, binsize: int)
    requires !Wide(r, binsize)
    ensures ChunkRecord(chrom, r, binsize) == [Interval(chrom, r.start, r.end, r.value)]
  {
  }

  /** With a negative binsize every proper record is wide and range() is empty, so it is dropped. */
  lemma NegativeBinsizeDrops<V>(chrom: string, r: Record<V>, binsize: int)
    requires binsize < 0 && r.start < r.end
    ensures ChunkRecord(chrom, r, binsize) == []
  {
  }

  // ---------------------------------------------------------------------------------------
  // Order and coverage over whole chromosomes and tracks.

  lemma SplittableConcat<V>(rs1: seq<Record<V>>, rs2: seq<Record<V>>, binsize: int)
    requires AllSplittable(rs1, binsize) && AllSplittable(rs2, binsize)
    ensures AllSplittable(rs1 + rs2, binsize)
  {
    forall j | 0 <= j < |rs1 + rs2| ensures Splittable((rs1 + rs2)[j], binsize) {
      if j >= |rs1| { assert (rs1 + rs2)[j] == rs2[j - |rs1|]; }
    }
  }

  lemma ChunkableConcat<V>(t1: seq<Chrom<V>>, t2: seq<Chrom<V>>, binsize: int)
    requires Chunkable(t1, binsize) && Chunkable(t2, binsize)
    ensures Chunkable(t1 + t2, binsize)
  {
    forall i | 0 <= i < |t1 + t2| ensures AllSplittable((t1 + t2)[i].records, binsize) {
      if i >= |t1| { assert (t1 + t2)[i] == t2[i - |t1|]; }
    }
  }

  /** Records are processed in order: the list for rs1 + rs2 is the list for rs1 followed by that of rs2. */
  lemma {:induction false} ChunkChromAppend<V>(chrom: string, rs1: seq<Record<V>>, rs2: seq<Record<V>>, binsize: int)
    requires AllSplittable(rs1, binsize) && AllSplittable(rs2, binsize)
    ensures AllSplittable(rs1 + rs2, binsize)
    ensures ChunkChrom(chrom, rs1 + rs2, binsize)
         == ChunkChrom(chrom, rs1, binsize) + ChunkChrom(chrom, rs2, binsize)
    decreases |rs2|
  {
    SplittableConcat(rs1, rs2, binsize);
    if |rs2| == 0 {
      assert rs1 + rs2 == rs1;
    } else {
      var front := rs2[..|rs2| - 1];
      assert (rs1 + rs2)[..|rs1 + rs2| - 1] == rs1 + front;
      assert (rs1 + rs2)[|rs1 + rs2| - 1] == rs2[|rs2| - 1];
      ChunkChromAppend(chrom, rs1, front, binsize);
    }
  }

  /** Chromosomes are processed in order: the table for t1 + t2 is that of t1 followed by that of t2. */
  lemma {:induction false} ChunkTrackAppend<V>(t1: seq<Chrom<V>>, t2: seq<Chrom<V>>, binsize: int)
    requires Chunkable(t1, binsize) && Chunkable(t2, binsize)
    ensures Chunkable(t1 + t2, binsize)
    ensures ChunkTrack(t1 + t2, binsize) == ChunkTrack(t1, binsize) + ChunkTrack(t2, binsize)
    decreases |t2|
  {
    ChunkableConcat(t1, t2, binsize);
    if |t2| == 0 {
      assert t1 + t2 == t1;
    } else {
      var front := t2[..|t2| - 1];
      assert (t1 + t2)[..|t1 + t2| - 1] == t1 + front;
      assert (t1 + t2)[|t1 + t2| - 1] == t2[|t2| - 1];
      ChunkTrackAppend(t1, front, binsize);
    }
  }

  /** Every record has start < end, as the track format guarantees. */
  predicate ProperRecords<V>(rs: seq<Record<V>>) {
    forall j :: 0 <= j < |rs| ==> rs[j].start < rs[j].end
  }

  predicate ProperTrack<V>(track: seq<Chrom<V>>) {
    forall i :: 0 <= i < |track| ==> ProperRecords(track[i].records)
  }

  /** Every interval of a chromosome carries its name and is non-empty and at most one bin wide. */
  lemma {:induction false} ChunkChromIntervals<V>(chrom: string, rs: seq<Record<V>>, binsize: int)
    requires binsize > 0 && ProperRecords(rs)
    ensures AllSplittable(rs, binsize)
    ensures OnChrom(ChunkChrom(chrom, rs, binsize), chrom)
    ensures WithinBin(ChunkChrom(chrom, rs, binsize), binsize)
  {
    if |rs| > 0 {
      var r := rs[|rs| - 1];
      ChunkChromIntervals(chrom, rs[..|rs| - 1], binsize);
      if Wide(r, binsize) {
        PiecesShape(chrom, r, binsize);
      }
      ConcatKeeps(ChunkChrom(chrom, rs[..|rs| - 1], binsize), ChunkRecord(chrom, r, binsize), chrom, binsize);
    }
  }

  lemma ConcatKeeps<V>(a: seq<Interval<V>>, b: seq<Interval<V>>, chrom: string, binsize: int)
    ensures OnChrom(a, chrom) && OnChrom(b, chrom) ==> OnChrom(a + b, chrom)
    ensures WithinBin(a, binsize) && WithinBin(b, binsize) ==> WithinBin(a + b, binsize)
  {
    if WithinBin(a, binsize) && WithinBin(b, binsize) {
      forall k | 0 <= k < |a + b| ensures 0 < (a + b)[k].end - (a + b)[k].start <= binsize {
        if k >= |a| { assert (a + b)[k] == b[k - |a|]; }
      }
    }
    if OnChrom(a, chrom) && OnChrom(b, chrom) {
      forall k | 0 <= k < |a + b| ensures (a + b)[k].chrom == chrom {
        if k >= |a| { assert (a + b)[k] == b[k - |a|]; }
      }
    }
  }

  /** After loading, every interval of the table is non-empty and at most one bin wide. */
  lemma {:induction false} ChunkTrackWidths<V>(track: seq<Chrom<V>>, binsize: int)
    requires binsize > 0 && ProperTrack(track)
    ensures Chunkable(track, binsize)
    ensures WithinBin(ChunkTrack(track, binsize), binsize)
  {
    if |track| > 0 {
      var last := track[|track| - 1];
      ChunkTrackWidths(track[..|track| - 1], binsize);
      ChunkChromIntervals(last.name, last.records, binsize);
      ConcatKeeps(ChunkTrack(track[..|track| - 1], binsize), ChunkChrom(last.name, last.records, binsize), "", binsize);
    }
  }

  /** Total number of bases covered by a list of intervals. */
  function Covered<V>(ivs: seq<Interval<V>>): int
  {
    if |ivs| == 0 then 0 else Covered(ivs[..|ivs| - 1]) + (ivs[|ivs| - 1].end - ivs[|ivs| - 1].start)
  }

  /** Total number of bases covered by the records of a track. */
  function RecordBases<V>(rs: seq<Record<V>>): int
  {
    if |rs| == 0 then 0 else RecordBases(rs[..|rs| - 1]) + (rs[|rs| - 1].end - rs[|rs| - 1].start)
  }

  function TrackBases<V>(track: seq<Chrom<V>>): int
  {
    if |track| == 0 then 0
    else TrackBases(track[..|track| - 1]) + RecordBases(track[|track| - 1].records)
  }

  lemma {:induction false} CoveredAppend<V>(a: seq<Interval<V>>, b: seq<Interval<V>>)
    ensures Covered(a + b) == Covered(a) + Covered(b)
    decreases |b|
  {
    if |b| > 0 {
      assert (a + b)[..|a + b| - 1] == a + b[..|b| - 1];
      CoveredAppend(a, b[..|b| - 1]);
    } else {
      assert a + b == a;
    }
  }

  /** Adjacent intervals cover the distance from the first start to the last end. */
  lemma {:induction false} CoveredContiguous<V>(p: seq<Interval<V>>)
    requires |p| >= 1 && Adjacent(p)
    ensures Covered(p) == p[|p| - 1].end - p[0].start
  {
    if |p| > 1 {
      CoveredContiguous(p[..|p| - 1]);
    } else {
      assert p[..0] == [];
    }
  }

  /** Cutting a chromosome's records loses and duplicates no base. */
  lemma {:induction false} ChunkChromCovered<V>(chrom: string, rs: seq<Record<V>>, binsize: int)
    requires binsize > 0
    ensures AllSplittable(rs, binsize)
    ensures Covered(ChunkChrom(chrom, rs, binsize)) == RecordBases(rs)
  {
    if |rs| > 0 {
      var r := rs[|rs| - 1];
      ChunkChromCovered(chrom, rs[..|rs| - 1], binsize);
      CoveredAppend(ChunkChrom(chrom, rs[..|rs| - 1], binsize), ChunkRecord(chrom, r, binsize));
      if Wide(r, binsize) {
        PiecesShape(chrom, r, binsize);
        CoveredContiguous(Pieces(chrom, r, binsize));
      } else {
        var one := [Interval(chrom, r.start, r.end, r.value)];
        assert one[..0] == [];
      }
    }
  }

  /** The loaded table covers exactly as many bases as the track's records. */
  lemma {:induction false} ChunkTrackCovered<V>(track: seq<Chrom<V>>, binsize: int)
    requires binsize > 0
    ensures Chunkable(track, binsize)
    ensures Covered(ChunkTrack(track, binsize)) == TrackBases(track)
  {
    if |track| > 0 {
      var last := track[|track| - 1];
      ChunkTrackCovered(track[..|track| - 1], binsize);
      ChunkChromCovered(last.name, last.records, binsize);
      CoveredAppend(ChunkTrack(track[..|track| - 1], binsize), ChunkChrom(last.name, last.records, binsize));
    }
  }

  /** The example: one record (0, 300) with binsize 100 gives (0,100), (100,200), (200,300). */
  lemma ThreeBins(v: real)
    ensures ChunkTrack([Chrom("chr1", [Record(0, 300, v)])], 100)
         == [Interval("chr1", 0, 100, v), Interval("chr1", 100, 200, v), Interval("chr1", 200, 300, v)]
  {
    var r := Record(0, 300, v);
    assert Range(300, 300, 100) == [];
    assert Range(200, 300, 100) == [200];
    assert Range(100, 300, 100) == [100, 200];
    assert Range(0, 300, 100) == [0, 100, 200];
    var p := Pieces("chr1", r, 100);
    assert p == [Interval("chr1", 0, 100, v), Interval("chr1", 100, 200, v), Interval("chr1", 200, 300, v)];
    var t := [Chrom("chr1", [r])];
    assert t[..0] == [];
    assert [r][..0] == [];
    assert ChunkChrom("chr1", [r], 100) == p;
  }
}
