/**
 * get_colormap of genomap.py: a specification with a comma is a custom gradient over its
 * comma-separated colours with 256 steps; anything else names a registered palette.
 * matplotlib's palette registry and colour parser are parameters.
 */
module Colormaps {
  import opened Common
  import opened Text

  /** Steps of the custom gradient (LinearSegmentedColormap.from_list(..., 256)). */
  const CustomSteps: nat := 256

  datatype Colormap =
    | Custom(colors: seq<string>, steps: nat)  // LinearSegmentedColormap.from_list('custom_cmap', colors, 256)
    | Named(name: string)                      // plt.get_cmap(name)

  /** get_colormap: `palettes` are the names plt.get_cmap knows, `isColor` the strings matplotlib reads as colours. */
  function GetColormap(spec: string, palettes: set<string>, isColor: string -> bool): (r: Result<Colormap>)
    ensures r.Err? ==> r.error == InvalidColorSpec(spec) || r.error == UnknownColormap(spec)
    ensures r.Ok? && r.value.Named? ==> r.value.name == spec && spec in palettes
    ensures r.Ok? && r.value.Custom? ==>
      && r.value.steps == CustomSteps && |r.value.colors| >= 2
      && forall k :: 0 <= k < |r.value.colors| ==> isColor(r.value.colors[k])
  {
    var parts := Split(spec, ',');
    if |parts| > 1 then
      if forall k :: 0 <= k < |parts| ==> isColor(parts[k]) then Ok(Custom(parts, CustomSteps))
      else Err(InvalidColorSpec(spec))
    else if spec in palettes then Ok(Named(spec))
    else Err(UnknownColormap(spec))
  }

  /** The custom gradient is chosen exactly when the specification contains a comma. */
  lemma CustomIffComma(spec: string, palettes: set<string>, isColor: string -> bool)
    ensures var r := GetColormap(spec, palettes, isColor);
      ',' in spec <==> (r.Ok? && r.value.Custom?) || r == Err(InvalidColorSpec(spec))
  {
    SplitManyIffSep(spec, ',');
  }

  /** A custom gradient holds the comma-separated parts in order, at least two, which join back to the specification. */
  lemma CustomColors(spec: string, palettes: set<string>, isColor: string -> bool)
    requires GetColormap(spec, palettes, isColor).Ok? && GetColormap(spec, palettes, isColor).value.Custom?
    ensures GetColormap(spec, palettes, isColor).value.colors == Split(spec, ',')
    ensures |GetColormap(spec, palettes, isColor).value.colors| >= 2
    ensures Join(GetColormap(spec, palettes, isColor).value.colors, ',') == spec
    ensures GetColormap(spec, palettes, isColor).value.steps == 256
  {
    JoinSplit(spec, ',');
  }

  /** A specification without a comma is looked up unchanged. */
  lemma NamedPassThrough(spec: string, palettes: set<string>, isColor: string -> bool)
    requires ',' !in spec
    ensures GetColormap(spec, palettes, isColor)
         == if spec in palettes then Ok(Named(spec)) else Err(UnknownColormap(spec))
  {
    SplitManyIffSep(spec, ',');
  }

  /** Custom gradient of given colours: the specification is their comma-join, and it gives them back. */
  lemma CustomRoundTrip(colors: seq<string>, palettes: set<string>, isColor: string -> bool)
    requires |colors| >= 2
    requires forall k :: 0 <= k < |colors| ==> ',' !in colors[k] && isColor(colors[k])
    ensures GetColormap(Join(colors, ','), palettes, isColor) == Ok(Custom(colors, 256))
  {
    SplitJoin(colors, ',');
  }

  /** A trailing comma leaves an empty colour name, which the colour parser rejects: "red," is an error. */
  lemma TrailingCommaRejected(palettes: set<string>, isColor: string -> bool)
    requires !isColor("")
    ensures GetColormap("red,", palettes, isColor) == Err(InvalidColorSpec("red,"))
  {
    SplitPrefix("red", ',', "");
    assert "red," == "red" + [','] + "";
    assert Split("", ',') == [""];
    assert Split("red,", ',') == ["red", ""];
    assert !isColor(Split("red,", ',')[1]);
  }
}
