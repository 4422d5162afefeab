/** The Renderer class (Renderer.h): a camera, the render parameters and a
    frame buffer of imageWidth * imageHeight colours, black at first, that
    render() fills. Its rayColor, renderRows and renderMultithread repeat
    those of RenderUtils.h, with one difference: renderRows traces every
    sample to the parameters' maximumRecursionDepth instead of the fixed
    depth 10. The methods below therefore run the loops of RenderUtils with
    a tracer of that depth. */
module Renderers {
  import opened Colors
  import opened Cameras
  import opened RenderUtils

  /** The parameters of a render, with the defaults of the source. */
  datatype RendererParameters = RendererParameters(
    imageWidth: int,
    imageHeight: int,
    samplesPerPixel: int,
    maximumRecursionDepth: int,
    backgroundColor: Color3,
    fileName: string)

  /** RendererParameters::defaultParameters(), a default-constructed value. */
  function DefaultParameters(): RendererParameters {
    RendererParameters(512, 512, 10, 25, Black(), "image.ppm")
  }

  /** The default render is 512 x 512 pixels, so its frame buffer holds
      262144 colours; it takes 10 samples per pixel and follows each path
      through at most 25 bounces, deeper than the fixed depth of
      RenderUtils. */
  lemma DefaultParametersValues()
    ensures DefaultParameters().imageWidth == 512 && DefaultParameters().imageHeight == 512
    ensures DefaultParameters().imageWidth * DefaultParameters().imageHeight == 262144
    ensures DefaultParameters().samplesPerPixel == 10
    ensures DefaultParameters().maximumRecursionDepth == 25 > RenderUtilsDepth
    ensures DefaultParameters().backgroundColor == Black() && DefaultParameters().fileName == "image.ppm"
  {
  }

  class Renderer {
    const camera: Camera
    const params: RendererParameters
    const frameBuffer: array<Color3>
    const rowsCompleted: RowCounter

    /** The frame buffer has one cell per pixel of the image. */
    predicate Valid()
    {
      0 <= params.imageWidth && 0 <= params.imageHeight &&
      frameBuffer.Length == params.imageWidth * params.imageHeight
    }

    /** Renderer(camera, params): a black frame buffer of
        imageWidth * imageHeight cells and no row completed. The source
        sizes a std::vector with the product, so neither dimension may be
        negative. */
    constructor (camera: Camera, params: RendererParameters)
      requires 0 <= params.imageWidth && 0 <= params.imageHeight
      ensures Valid()
      ensures this.camera == camera && this.params == params
      ensures fresh(frameBuffer) && fresh(rowsCompleted)
      ensures forall k :: 0 <= k < frameBuffer.Length ==> frameBuffer[k] == Black()
      ensures rowsCompleted.value == 0
    {
      this.camera := camera;
      this.params := params;
      frameBuffer := new Color3[params.imageWidth * params.imageHeight](_ => Black());
      rowsCompleted := new RowCounter();
    }

    /** The setting of this renderer's render loops: its camera, and
        rayColor traced to maximumRecursionDepth. */
    function SettingFor(scenery: Scenery, draws: Draws): Setting
    {
      MakeSetting(camera, scenery, params.maximumRecursionDepth, draws)
    }

    /** renderRows(startRow, endRow, world, lightSource): rows
        [startRow, endRow) are painted with the renderer's depth and
        counted; the rest of the frame buffer keeps its colours. */
    method RenderRows(startRow: int, endRow: int, scenery: Scenery, draws: Draws)
      requires Valid() && 0 <= startRow <= endRow <= params.imageHeight
      requires params.samplesPerPixel != 0
      modifies frameBuffer, rowsCompleted
      ensures frameBuffer[..] ==
        Painted(old(frameBuffer[..]), startRow, endRow, params.imageWidth, params.samplesPerPixel, SettingFor(scenery, draws))
      ensures rowsCompleted.value == old(rowsCompleted.value) + (endRow - startRow)
    {
      RowsOrdered(endRow, params.imageHeight, params.imageWidth);
      RenderRowsWith(startRow, endRow, params.imageWidth, params.samplesPerPixel,
                     SettingFor(scenery, draws), frameBuffer, rowsCompleted);
    }

    /** renderMultithread(world, lightSource): the workers together paint
        every row of the image once, so every cell of the frame buffer
        ends up holding the colour of its pixel. */
    method RenderMultithread(scenery: Scenery, draws: Draws, threadCount: int)
      requires Valid() && params.samplesPerPixel != 0 && threadCount >= 1
      modifies frameBuffer, rowsCompleted
      ensures frameBuffer[..] ==
        Painted(old(frameBuffer[..]), 0, params.imageHeight, params.imageWidth, params.samplesPerPixel, SettingFor(scenery, draws))
      ensures Rendered(frameBuffer[..], 0, params.imageHeight * params.imageWidth, params.imageWidth,
                       params.samplesPerPixel, SettingFor(scenery, draws))
      ensures rowsCompleted.value == old(rowsCompleted.value) + params.imageHeight
    {
      RenderMultithreadWith(params.imageWidth, params.imageHeight, params.samplesPerPixel, threadCount,
                            SettingFor(scenery, draws), frameBuffer, rowsCompleted);
    }

    /** render(world, lightSource): renderMultithread, then the output file,
        which is not part of this model. Afterwards pixel (i, j) of the
        image is at index j * imageWidth + i of the frame buffer. */
    method Render(scenery: Scenery, draws: Draws, threadCount: int)
      requires Valid() && params.samplesPerPixel != 0 && threadCount >= 1
      modifies frameBuffer, rowsCompleted
      ensures forall i, j :: 0 <= i < params.imageWidth && 0 <= j < params.imageHeight ==>
        0 <= PixelIndex(i, j, params.imageWidth) < frameBuffer.Length &&
        frameBuffer[PixelIndex(i, j, params.imageWidth)] ==
          PixelColor(SettingFor(scenery, draws), i, j, params.samplesPerPixel)
      ensures rowsCompleted.value == old(rowsCompleted.value) + params.imageHeight
    {
      RenderMultithread(scenery, draws, threadCount);
      forall i, j | 0 <= i < params.imageWidth && 0 <= j < params.imageHeight
        ensures 0 <= PixelIndex(i, j, params.imageWidth) < frameBuffer.Length
        ensures frameBuffer[PixelIndex(i, j, params.imageWidth)] ==
          PixelColor(SettingFor(scenery, draws), i, j, params.samplesPerPixel)
      {
        PixelStored(frameBuffer[..], 0, params.imageHeight, params.imageWidth, params.samplesPerPixel,
                    SettingFor(scenery, draws), i, j);
      }
    }
  }
}
