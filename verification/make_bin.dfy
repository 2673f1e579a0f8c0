/** The multi-sprite script (img/rasterize.py): `make_bin` renders each frame
    group of one SVG at a given export size and writes the sprite file, and
    `main` builds four sprites. */
module MakeBin {
  import opened Wrappers
  import opened SpriteFormat
  import opened SpriteExport

  /** The sprite file for an SVG with `numFrames` frame groups rendered at
      `width` by `height`. */
  function MakeBin(numFrames: nat, width: nat, height: nat, render: Renderer): (r: Result<seq<byte>, ExportError>)
    ensures numFrames == 0 <==> r == Failure(NoFrames)
    ensures r.Success? ==> |r.value| > 0 && r.value[0] == numFrames
    ensures r.Success? ==> Decode(r.value) == Some(Frames(RenderAll(numFrames, width, height, render)))
  {
    Export(RenderAll(numFrames, width, height, render))
  }

  /** The length of a sprite file of `n` frames of `w` by `h` pixels. */
  function SpriteSize(n: nat, w: nat, h: nat): nat
  {
    1 + n * (2 + 3 * w * h)
  }

  /** A sprite whose sides fit a byte, rendered at its export size, has
      its bytes produced exactly when its SVG has 1 to 255 frame groups, and then holds
      1 + n·(2 + 3·w·h) bytes. */
  lemma MakeBinWritten(numFrames: nat, width: nat, height: nat, render: Renderer)
    requires width < 256 && height < 256 && HonoursSize(render, width, height)
    ensures MakeBin(numFrames, width, height, render).Success? <==> 1 <= numFrames <= 255
    ensures MakeBin(numFrames, width, height, render).Success? ==>
              |MakeBin(numFrames, width, height, render).value| == SpriteSize(numFrames, width, height)
  {
    ExportRendered(numFrames, width, height, render);
  }

  /** One sprite `main` builds: its name and export size. */
  datatype SpriteJob = SpriteJob(name: string, width: nat, height: nat)

  const MainJobs: seq<SpriteJob> := [
    SpriteJob("wave", 32, 16),
    SpriteJob("fadein", 32, 16),
    SpriteJob("fadeout", 32, 16),
    SpriteJob("arrows", 7, 10)
  ]

  /** The calls a script without any `try` gets through: the results in
      order, up to and including the first that raised. */
  function RunUntilFailure<T, E>(results: seq<Result<T, E>>): (ran: seq<Result<T, E>>)
    ensures |ran| <= |results| && (|ran| == 0 <==> |results| == 0)
    ensures ran == results[..|ran|]
    ensures forall k :: 0 <= k < |ran| - 1 ==> ran[k].Success?
    ensures 0 < |ran| < |results| ==> ran[|ran| - 1].Failure?
  {
    if |results| == 0 then []
    else if results[0].Failure? then [results[0]]
    else
      var rest := RunUntilFailure(results[1..]);
      assert [results[0]] + rest == results[..|rest| + 1];
      [results[0]] + rest
  }

  /** Call k completes exactly when it and every call before it succeed. */
  lemma {:induction false} CompletedIff<T, E>(results: seq<Result<T, E>>, k: nat)
    requires k < |results|
    ensures var ran := RunUntilFailure(results);
            k < |ran| && ran[k].Success? <==> forall j :: 0 <= j <= k ==> results[j].Success?
    decreases k
  {
    if k > 0 && results[0].Success? {
      CompletedIff(results[1..], k - 1);
      assert forall j :: 1 <= j <= k ==> results[j] == results[1..][j - 1];
    }
  }

  /** The sprite files of `main`'s jobs, had every job run: job k's SVG has
      `counts[k]` frame groups, rendered by `renders[k]`. */
  function JobResults(counts: seq<nat>, renders: seq<Renderer>): (results: seq<Result<seq<byte>, ExportError>>)
    requires |counts| == |MainJobs| && |renders| == |MainJobs|
    ensures |results| == |MainJobs|
    ensures forall k :: 0 <= k < |MainJobs| ==> results[k] == MakeBin(counts[k], MainJobs[k].width, MainJobs[k].height, renders[k])
  {
    seq(|MainJobs|, k requires 0 <= k < |MainJobs| => MakeBin(counts[k], MainJobs[k].width, MainJobs[k].height, renders[k]))
  }

  /** Every sprite `main` builds has sides that fit a byte. */
  lemma MainJobsFitBytes()
    ensures forall j :: 0 <= j < |MainJobs| ==> MainJobs[j].width < 256 && MainJobs[j].height < 256
  {
  }

  /** With rasterisers honouring the export sizes, `main` writes sprite k
      exactly when the SVGs of jobs 0 to k all have 1 to 255 frame groups (an
      earlier failure ends the script), and the file then holds
      1 + n·(2 + 3·w·h) bytes. */
  lemma MainJobsExport(k: nat, counts: seq<nat>, renders: seq<Renderer>)
    requires |counts| == |MainJobs| && |renders| == |MainJobs| && k < |MainJobs|
    requires forall j :: 0 <= j < |MainJobs| ==> HonoursSize(renders[j], MainJobs[j].width, MainJobs[j].height)
    ensures var ran := RunUntilFailure(JobResults(counts, renders));
            && (k < |ran| && ran[k].Success? <==> forall j :: 0 <= j <= k ==> 1 <= counts[j] <= 255)
            && (k < |ran| && ran[k].Success? ==>
                  |ran[k].value| == SpriteSize(counts[k], MainJobs[k].width, MainJobs[k].height))
  {
    var results := JobResults(counts, renders);
    MainJobsFitBytes();
    forall j | 0 <= j < |MainJobs|
      ensures results[j].Success? <==> 1 <= counts[j] <= 255
      ensures results[j].Success? ==> |results[j].value| == SpriteSize(counts[j], MainJobs[j].width, MainJobs[j].height)
    {
      MakeBinWritten(counts[j], MainJobs[j].width, MainJobs[j].height, renders[j]);
    }
    CompletedIff(results, k);
  }
}
