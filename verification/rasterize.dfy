/** The single-sprite script (rasterize.py): every frame group of the SVG is
    rendered at 32 by 16 and the frames are written to one sprite file. */
module Rasterize {
  import opened Wrappers
  import opened SpriteFormat
  import opened SpriteExport

  /** The export size the script asks the rasteriser for. */
  const ExportWidth: nat := 32
  const ExportHeight: nat := 16

  /** The sprite file for an SVG with `numFrames` frame groups, frame `n`
      (1-based) rendered by `render`. */
  function Rasterize(numFrames: nat, render: Renderer): (r: Result<seq<byte>, ExportError>)
    ensures numFrames == 0 <==> r == Failure(NoFrames)
    ensures r.Success? ==> |r.value| > 0 && r.value[0] == numFrames
    ensures r.Success? ==> Decode(r.value) == Some(Frames(RenderAll(numFrames, ExportWidth, ExportHeight, render)))
  {
    Export(RenderAll(numFrames, ExportWidth, ExportHeight, render))
  }

  lemma ScaleBlock(n: nat)
    ensures n * (2 + 3 * 32 * 16) == 1538 * n
  {
  }

  /** When the rasteriser honours the 32 by 16 export size, the sprite
      bytes are produced exactly for 1 to 255 frames and number 1 + 1538·n. */
  lemma RasterizeAtExportSize(numFrames: nat, render: Renderer)
    requires HonoursSize(render, ExportWidth, ExportHeight)
    ensures Rasterize(numFrames, render).Success? <==> 1 <= numFrames <= 255
    ensures Rasterize(numFrames, render).Success? ==> |Rasterize(numFrames, render).value| == 1 + 1538 * numFrames
  {
    var r := Export(RenderAll(numFrames, 32, 16, render));
    assert Rasterize(numFrames, render) == r;
    ExportRendered(numFrames, 32, 16, render);
    if r.Success? {
      ScaleBlock(numFrames);
    }
  }
}
