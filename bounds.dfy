/**
 * Threshold resolution of genomap.py: zero counts are masked as NaN in a copy
 * (counts[counts == 0] = np.nan) and get_vminmax turns the two bound specifications
 * into numbers, each either a percentile of the masked values or a literal.
 * Python's float() and numpy's nanpercentile are not visible here; they are parameters.
 */
module Bounds {
  import opened Common
  import opened Text

  /** A double that is either NaN or an ordinary number. */
  datatype Float = NaN | Finite(x: real)

  /** float(s): Some(x) when Python accepts s as a float, None when it raises. */
  type Parser = string -> Option<real>

  /**
   * np.nanpercentile(values, q) for 0 <= q <= 100. It ignores NaN entries and sorts the rest,
   * so it is a function of the multiset of non-NaN values.
   */
  type Percentile = (multiset<real>, real) -> real

  /** counts.copy() with every zero replaced by NaN. */
  function MaskZeros(counts: seq<real>): (m: seq<Float>)
    ensures |m| == |counts|
    ensures forall i :: 0 <= i < |counts| ==> (m[i] == NaN <==> counts[i] == 0.0)
    ensures forall i :: 0 <= i < |counts| ==> m[i].Finite? ==> m[i].x == counts[i]
  {
    seq(|counts|, i requires 0 <= i < |counts| => if counts[i] == 0.0 then NaN else Finite(counts[i]))
  }

  /** The values a NaN-aware statistic sees: the non-NaN entries. */
  function NonNaN(m: seq<Float>): multiset<real>
  {
    if |m| == 0 then multiset{}
    else NonNaN(m[..|m| - 1]) + (if m[|m| - 1].Finite? then multiset{m[|m| - 1].x} else multiset{})
  }

  /** The non-zero counts, in order. */
  function NonZero(counts: seq<real>): seq<real>
  {
    if |counts| == 0 then []
    else NonZero(counts[..|counts| - 1]) + (if counts[|counts| - 1] != 0.0 then [counts[|counts| - 1]] else [])
  }

  /** One bound specification: "p<q>" is the q-th percentile, anything else is float() of all but its first character. */
  function ResolveSpec(values: seq<Float>, spec: string, parse: Parser, percentile: Percentile): (r: Result<real>)
    ensures r.Ok? ==> parse(Tail(spec)).Some?
    ensures r.Err? ==>
      r.error == InvalidBoundSpec(spec) || (StartsWith(spec, 'p') && r.error == PercentileOutOfRange(spec))
  {
    match parse(Tail(spec))
    case None => Err(InvalidBoundSpec(spec))
    case Some(q) =>
      if StartsWith(spec, 'p') then
        if q < 0.0 || q > 100.0 then Err(PercentileOutOfRange(spec))
        else Ok(percentile(NonNaN(values), q))
      else Ok(q)
  }

  /** get_vminmax: the loop over [vminarg, vmaxarg] that appends one bound per specification. */
  method GetVminmax(values: seq<Float>, vminarg: string, vmaxarg: string, parse: Parser, percentile: Percentile)
    returns (r: Result<seq<real>>)
    ensures r.Ok? <==>
      ResolveSpec(values, vminarg, parse, percentile).Ok? && ResolveSpec(values, vmaxarg, parse, percentile).Ok?
    ensures r.Ok? ==> r.value == [ResolveSpec(values, vminarg, parse, percentile).value,
                                  ResolveSpec(values, vmaxarg, parse, percentile).value]
    ensures r.Err? ==> r.error == if ResolveSpec(values, vminarg, parse, percentile).Err?
                                  then ResolveSpec(values, vminarg, parse, percentile).error
                                  else ResolveSpec(values, vmaxarg, parse, percentile).error
  {
    var args := [vminarg, vmaxarg];
    var bounds: seq<real> := [];
    for i := 0 to |args|
      invariant |bounds| == i
      invariant forall k :: 0 <= k < i ==>
        ResolveSpec(values, args[k], parse, percentile).Ok? &&
        bounds[k] == ResolveSpec(values, args[k], parse, percentile).value
    {
      var b := ResolveSpec(values, args[i], parse, percentile);
      if b.Err? {
        assert i == 1 ==> ResolveSpec(values, args[0], parse, percentile).Ok?;
        return Err(b.error);
      }
      bounds := bounds + [b.value];
    }
    assert ResolveSpec(values, args[0], parse, percentile).Ok?;
    assert ResolveSpec(values, args[1], parse, percentile).Ok?;
    return Ok(bounds);
  }

  // ---------------------------------------------------------------------------------------

  /** The masked copy hands the percentile exactly the non-zero counts. */
  lemma {:induction false} MaskedValues(counts: seq<real>)
    ensures NonNaN(MaskZeros(counts)) == multiset(NonZero(counts))
  {
    if |counts| > 0 {
      var front := counts[..|counts| - 1];
      MaskedValues(front);
      assert MaskZeros(counts)[..|counts| - 1] == MaskZeros(front);
    }
  }

  /** A percentile specification with a valid suffix is that percentile of the non-zero counts. */
  lemma PercentileOfNonZero(counts: seq<real>, s: string, q: real, parse: Parser, percentile: Percentile)
    requires parse(s) == Some(q) && 0.0 <= q <= 100.0
    ensures ResolveSpec(MaskZeros(counts), "p" + s, parse, percentile)
         == Ok(percentile(multiset(NonZero(counts)), q))
  {
    MaskedValues(counts);
    assert Tail("p" + s) == s;
  }

  /** Bounds depend on the counts only through their non-zero values: zeros, however many, change nothing. */
  lemma ZerosIgnored(c1: seq<real>, c2: seq<real>, spec: string, parse: Parser, percentile: Percentile)
    requires multiset(NonZero(c1)) == multiset(NonZero(c2))
    ensures ResolveSpec(MaskZeros(c1), spec, parse, percentile)
         == ResolveSpec(MaskZeros(c2), spec, parse, percentile)
  {
    MaskedValues(c1);
    MaskedValues(c2);
  }

  /** A literal specification drops its first character: c + s is accepted exactly when s parses, giving float(s). */
  lemma LiteralDropsFirstChar(c: char, s: string, parse: Parser, percentile: Percentile, values: seq<Float>)
    requires c != 'p'
    ensures ResolveSpec(values, [c] + s, parse, percentile).Ok? <==> parse(s).Some?
    ensures parse(s).Some? ==> ResolveSpec(values, [c] + s, parse, percentile) == Ok(parse(s).value)
  {
    assert Tail([c] + s) == s;
  }

  /** A one-character literal such as "5" leaves float('') to parse, which Python rejects. */
  lemma SingleCharLiteralFails(c: char, parse: Parser, percentile: Percentile, values: seq<Float>)
    requires parse("") == None
    ensures ResolveSpec(values, [c], parse, percentile) == Err(InvalidBoundSpec([c]))
  {
  }

  /** Whatever the first character, an unparseable remainder is an InvalidBoundSpec naming the specification. */
  lemma UnparseableIsError(spec: string, parse: Parser, percentile: Percentile, values: seq<Float>)
    requires parse(Tail(spec)) == None
    ensures ResolveSpec(values, spec, parse, percentile) == Err(InvalidBoundSpec(spec))
  {
  }

  /** A resolved percentile bound is always a percentile in range of the non-NaN values. */
  lemma PercentileSpecMeaning(spec: string, parse: Parser, percentile: Percentile, values: seq<Float>)
    requires StartsWith(spec, 'p')
    ensures ResolveSpec(values, spec, parse, percentile).Ok? <==>
      parse(Tail(spec)).Some? && 0.0 <= parse(Tail(spec)).value <= 100.0
    ensures ResolveSpec(values, spec, parse, percentile).Ok? ==>
      ResolveSpec(values, spec, parse, percentile).value == percentile(NonNaN(values), parse(Tail(spec)).value)
  {
  }
}
