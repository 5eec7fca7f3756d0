/**
  The whole program: build the task list, run every worker, sort the
  collected pixels and write them as a PPM image.
 */
module Mandelbrot {
  import opened Pixels
  import opened Tasks
  import opened Render
  import opened Ppm

  /** The text lines of rows [y0, y1): each row's triplets followed by a line break. */
  function Lines(cfg: Config, y0: int, y1: int): string
    decreases y1 - y0
  {
    if y1 <= y0 then [] else Lines(cfg, y0, y1 - 1) + Triplets(Row(cfg, y1 - 1)) + "\n"
  }

  /** Written out, rows [y0, y1) of a non-empty width give one text line per row. */
  lemma {:induction false} BodyOfRows(cfg: Config, y0: int, y1: int)
    requires y0 < y1 && cfg.imageWidth > 0
    ensures Body(Rows(cfg, y0, y1)) + "\n" == Lines(cfg, y0, y1)
    decreases y1 - y0
  {
    var last := Row(cfg, y1 - 1);
    var prev := Rows(cfg, y0, y1 - 1);
    RowOnItsRow(cfg, y1 - 1);
    if y0 < y1 - 1 {
      RowsLast(cfg, y0, y1 - 1);
      BodyOfNextRow(prev, last, y1 - 1);
      BodyOfRows(cfg, y0, y1 - 1);
      calc {
        Body(Rows(cfg, y0, y1)) + "\n";
        Body(prev + last) + "\n";
        Body(prev) + "\n" + Triplets(last) + "\n";
        Lines(cfg, y0, y1 - 1) + Triplets(last) + "\n";
        Lines(cfg, y0, y1);
      }
    } else {
      BodyOfOneRow(last);
      assert Rows(cfg, y0, y1) == last by {
        assert prev == [];
      }
      assert Lines(cfg, y0, y1) == [] + Triplets(last) + "\n";
    }
  }

  /**
    The file of a full image is the header followed by `imageHeight` lines,
    line y holding the `imageWidth` triplets of row y.
   */
  lemma GridText(cfg: Config)
    requires cfg.imageWidth > 0 && cfg.imageHeight > 0
    ensures PpmText(cfg.imageWidth, cfg.imageHeight, Grid(cfg)) == Header(cfg.imageWidth, cfg.imageHeight) + Lines(cfg, 0, cfg.imageHeight)
    ensures forall y :: 0 <= y < cfg.imageHeight ==> |Row(cfg, y)| == cfg.imageWidth
  {
    BodyOfRows(cfg, 0, cfg.imageHeight);
  }

  /**
    Sorting any collection that holds the image's pixels, in whatever order
    they were appended, and writing it gives the file of the image in
    row-major order.
   */
  lemma SortedCollectionIsGrid(cfg: Config, collected: seq<DrawPixel>)
    requires multiset(collected) == multiset(Grid(cfg))
    ensures PpmText(cfg.imageWidth, cfg.imageHeight, SortPixels(collected)) == PpmText(cfg.imageWidth, cfg.imageHeight, Grid(cfg))
  {
    GridIsStrictlyRowMajor(cfg);
    OrderedPermutationIsUnique(Grid(cfg), SortPixels(collected));
  }

  /**
    The program's output. Whatever order the workers appended the pixels in,
    the sorted collection is the image in row-major order, so the file is the
    image written row by row; when there are more threads than rows no unit
    is built and the file holds only the header and a line break.
   */
  method RenderImage(cfg: Config) returns (ppm: string)
    requires cfg.numThreads >= 1 && cfg.granLevel >= 1
    ensures ppm == PpmText(cfg.imageWidth, cfg.imageHeight, if cfg.numThreads <= cfg.imageHeight then Grid(cfg) else [])
  {
    var tasks := BuildTasks(cfg.imageHeight, cfg.numThreads, cfg.granLevel);
    var renderer := new Renderer(cfg, tasks);
    renderer.RunWorkers();
    var sorted := SortPixels(renderer.collectedData);
    ghost var image := if cfg.numThreads <= cfg.imageHeight then Grid(cfg) else [];
    PartitionRendersGrid(cfg, tasks);
    assert renderer.collectedData == image;
    GridIsStrictlyRowMajor(cfg);
    OrderedPermutationIsUnique(image, sorted);
    ppm := PpmText(cfg.imageWidth, cfg.imageHeight, sorted);
  }
}
