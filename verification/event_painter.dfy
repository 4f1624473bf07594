/** The live event painter's per-canvas state (ui/src/eventPainter.ts): the
    colormap texture is packed again only when the selected colormap differs
    from the cached one, and the timestamp overlay is rewritten only when
    the displayed time changed. The named colormaps are a parameter. */
module EventPainter {
  import opened Wrappers
  import opened Colormap

  datatype NamedColormap = NamedColormap(on: seq<Rgba>, off: seq<Rgba>)

  /** What `paint` keeps between frames for one canvas: the colormap index
      the texture was packed for (none before the first paint), the last
      displayed time, and the overlay's text. */
  datatype Context = Context(cachedIndex: Option<int>, previousDisplayT: string, overlay: string)

  /** A new context: nothing cached, an empty previous time, the overlay
      element's text as it was. */
  function NewContext(overlay: string): (c: Context)
    ensures c.cachedIndex.None? && c.previousDisplayT == "" && c.overlay == overlay
  {
    Context(None, "", overlay)
  }

  /** Reading a colormap index the table does not have gives `undefined`,
      whose `on` cannot be read. */
  datatype PaintError = UnknownColormap(index: int)

  /** The state `paint` leaves and the texture row it uploads, if any. */
  datatype Painted = Painted(context: Context, upload: Option<seq<nat>>)

  /** The colormap and overlay part of `paint` for the selected
      `colormapIndex` and the frame's `displayT`. */
  function Paint(c: Context, colormaps: seq<NamedColormap>, colormapIndex: int, displayT: string): (r: Result<Painted, PaintError>)
    ensures r.Err? <==> c.cachedIndex != Some(colormapIndex) && !(0 <= colormapIndex < |colormaps|)
    ensures r.Err? ==> r.error == UnknownColormap(colormapIndex)
    ensures r.Ok? ==> r.value.context.cachedIndex == Some(colormapIndex) && r.value.context.previousDisplayT == displayT
    ensures r.Ok? ==> (r.value.upload.Some? <==> c.cachedIndex != Some(colormapIndex))
    ensures r.Ok? && r.value.upload.Some? ==>
      r.value.upload.value == Flatten(Reversed(colormaps[colormapIndex].off) + colormaps[colormapIndex].on)
    ensures r.Ok? && displayT != c.previousDisplayT ==> r.value.context.overlay == displayT
    ensures r.Ok? && displayT == c.previousDisplayT ==> r.value.context.overlay == c.overlay
  {
    var packed :=
      if c.cachedIndex == Some(colormapIndex) then Ok(None)
      else if 0 <= colormapIndex < |colormaps| then
        var m := colormaps[colormapIndex];
        Ok(Some(Flatten(Reversed(m.off) + m.on)))
      else Err(UnknownColormap(colormapIndex));
    match packed
    case Err(e) => Err(e)
    case Ok(upload) =>
      var overlay := if displayT != c.previousDisplayT then displayT else c.overlay;
      Ok(Painted(Context(Some(colormapIndex), displayT, overlay), upload))
  }

  /** Painting a second time with the same colormap and time uploads
      nothing and leaves the context as it was. */
  lemma PaintTwice(c: Context, colormaps: seq<NamedColormap>, colormapIndex: int, displayT: string)
    requires Paint(c, colormaps, colormapIndex, displayT).Ok?
    ensures var after := Paint(c, colormaps, colormapIndex, displayT).value.context;
      Paint(after, colormaps, colormapIndex, displayT) == Ok(Painted(after, None))
  {
  }

  /** The overlay shows the last painted time once it has been written:
      from a context whose overlay shows its previous time, every paint
      leaves the overlay showing the frame's time. */
  lemma OverlayShowsLastTime(c: Context, colormaps: seq<NamedColormap>, colormapIndex: int, displayT: string)
    requires c.overlay == c.previousDisplayT
    ensures var r := Paint(c, colormaps, colormapIndex, displayT);
      r.Ok? ==> r.value.context.overlay == displayT == r.value.context.previousDisplayT
  {
  }

  /** A new context whose overlay is not empty keeps that text through a
      first frame whose time is the empty string, since the empty string is
      what `previousDisplayT` starts as. */
  lemma FirstEmptyTimeKeepsOverlay(overlay: string, colormaps: seq<NamedColormap>, colormapIndex: int)
    requires 0 <= colormapIndex < |colormaps| && overlay != ""
    ensures var r := Paint(NewContext(overlay), colormaps, colormapIndex, "");
      r.Ok? && r.value.context.overlay == overlay && r.value.upload.Some?
  {
  }
}
