/** `FancyPlot`, the image-plus-caption value embedded in lightbox anchors,
    and the anchor record that `fancybox_img` builds from it. */
module Plots {
  import opened Results
  import opened Paths

  datatype FancyPlot = FancyPlot(img: string, caption: string)

  /** The `img` argument of the constructor: a path, or another FancyPlot. */
  datatype ImgSource = Path(path: string) | Plot(plot: FancyPlot)

  /** `str(img)`: a string is itself, a FancyPlot prints as its image path. */
  function SourceText(src: ImgSource): string {
    match src
    case Path(s) => s
    case Plot(p) => p.img
  }

  /** Python truthiness of an optional caption: neither None nor "". */
  predicate Given(caption: Option<string>) {
    caption.Some? && caption.value != ""
  }

  /** `FancyPlot(img, caption)`: an explicit non-empty caption wins; otherwise
      a FancyPlot source lends its caption; otherwise (or when that too is
      empty) the caption is the basename of the image path. */
  function NewFancyPlot(img: ImgSource, caption: Option<string>): (p: FancyPlot)
    ensures p.img == SourceText(img)
    ensures Given(caption) ==> p.caption == caption.value
    ensures !Given(caption) && img.Plot? && img.plot.caption != "" ==> p.caption == img.plot.caption
    ensures !Given(caption) && (img.Path? || img.plot.caption == "") ==> p.caption == Basename(p.img)
  {
    var inherited := if Given(caption) then caption.value
                     else if img.Plot? then img.plot.caption
                     else "";
    var text := SourceText(img);
    FancyPlot(text, if inherited != "" then inherited else Basename(text))
  }

  /** `str(plot)` */
  function PlotText(p: FancyPlot): string {
    p.img
  }

  /** A constructed plot has an empty caption only when its image path has an
      empty basename (the path is empty or ends in a separator). */
  lemma CaptionEmptyOnlyForDirectory(img: ImgSource, caption: Option<string>)
    ensures NewFancyPlot(img, caption).caption == "" ==> Basename(SourceText(img)) == ""
  {
  }

  /** Copying a constructed plot without a caption gives the same plot back:
      `FancyPlot(FancyPlot(x, c))` keeps both the image path and the caption. */
  lemma CopyPreservesPlot(img: ImgSource, caption: Option<string>)
    ensures var p := NewFancyPlot(img, caption);
            NewFancyPlot(Plot(p), None) == p
  {
    var p := NewFancyPlot(img, caption);
    var q := NewFancyPlot(Plot(p), None);
    assert q.img == p.img;
    if p.caption == "" {
      CaptionEmptyOnlyForDirectory(img, caption);
    }
  }

  /** The anchor produced by `fancybox_img`: link and image source are the
      image path, the anchor title is the caption, the alt text the basename,
      and every anchor joins the one gallery group. */
  datatype Embed = Embed(href: string, title: string, group: string, src: string)
  {
    /** `alt`: the base name of the image source. */
    function Alt(): string {
      Basename(src)
    }
  }

  const GalleryGroup: string := "qscan-image"

  /** `fancybox_img(p)` without extra link or image attributes. */
  function FancyboxImg(p: FancyPlot): (e: Embed)
    ensures e.href == p.img && e.src == p.img && e.title == p.caption
    ensures e.group == GalleryGroup
  {
    var img := PlotText(p);
    Embed(img, p.caption, GalleryGroup, img)
  }

  /** The plot an anchor shows: the image it links, under the caption it
      carries as title. */
  function EmbeddedPlot(e: Embed): FancyPlot {
    FancyPlot(e.href, e.title)
  }

  /** An anchor loses nothing of its plot, so distinct plots give distinct
      anchors. */
  lemma EmbedRoundTrip(p: FancyPlot)
    ensures EmbeddedPlot(FancyboxImg(p)) == p
  {
  }

  /** The alt text is the image's file name: the part of the image source
      after its last separator. */
  lemma EmbedAltShape(p: FancyPlot)
    ensures var e := FancyboxImg(p);
            e.Alt() == Basename(p.img) &&
            EndsWith(e.src, e.Alt()) && Sep !in e.Alt() &&
            (e.Alt() == e.src || e.src[|e.src| - |e.Alt()| - 1] == Sep)
  {
    BasenameShape(p.img);
  }
}
