/** The pinhole camera (Camera.h). The constructor computes, once, the
    position of the centre of pixel (0, 0) on the image plane and the steps
    from one pixel to the next; getRay(x, y) is the ray from the camera
    through the point of the image plane x steps right and y steps down from
    that pixel centre. The viewport is 2 units high and aspectRatio times as
    wide, and the image plane is perpendicular to the z axis. */
module Cameras {
  import opened Vectors
  import opened Rays

  /** The height of the viewport in scene units. */
  const ViewportHeight: real := 2.0

  datatype Camera = Camera(centre: Vector3, pixel00: Vector3, horizontalStep: Vector3, verticalStep: Vector3) {

    /** getRay(x, y): from the camera centre towards
        pixel00 + horizontalStep * x + verticalStep * y. */
    function GetRay(x: real, y: real): Ray {
      Ray(centre, pixel00.Add(horizontalStep.Scale(x)).Add(verticalStep.Scale(y)).Sub(centre))
    }

    /** The point of the image plane at pixel coordinates (x, y). */
    function ImagePoint(x: real, y: real): Vector3 {
      pixel00.Add(horizontalStep.Scale(x)).Add(verticalStep.Scale(y))
    }
  }

  /** getRay(x, y) starts at the camera centre and passes through the
      image point (x, y). */
  lemma RayThroughImagePoint(cam: Camera, x: real, y: real)
    ensures cam.GetRay(x, y).origin == cam.centre
    ensures cam.GetRay(x, y).origin.Add(cam.GetRay(x, y).direction) == cam.ImagePoint(x, y)
  {
  }

  /** The constructor. The source divides by the image width
      (imageHeight * aspectRatio) and by the image height, so both must be
      non-zero for the steps to be finite. The horizontal step does not
      depend on the aspect ratio: pixels are square, 2 / imageHeight wide. */
  function MakeCamera(cameraPosition: Vector3, imagePlaneCentre: Vector3,
                      imageHeight: real, aspectRatio: real): (cam: Camera)
    requires imageHeight != 0.0 && aspectRatio != 0.0
    ensures cam.centre == cameraPosition
    ensures cam.horizontalStep == Vector3(2.0 / imageHeight, 0.0, 0.0)
    ensures cam.verticalStep == Vector3(0.0, -2.0 / imageHeight, 0.0)
    ensures cam.pixel00 == imagePlaneCentre.Add(Vector3(1.0 / imageHeight - aspectRatio, 1.0 - 1.0 / imageHeight, 0.0))
  {
    var viewportHeight := ViewportHeight;
    var imageWidth := imageHeight * aspectRatio;
    var viewportWidth := viewportHeight * aspectRatio;
    var lookAtVector := imagePlaneCentre.Sub(cameraPosition);
    var viewportU := Vector3(viewportWidth, 0.0, 0.0);
    var viewportV := Vector3(0.0, -viewportHeight, 0.0);
    var horizontalStep := viewportU.Div(imageWidth);
    var verticalStep := viewportV.Div(imageHeight);
    StepWidth(imageHeight, aspectRatio);
    var viewportULCorner := cameraPosition.Add(lookAtVector).Sub(viewportU.Div(2.0)).Sub(viewportV.Div(2.0));
    var pixel00 := viewportULCorner.Add(horizontalStep.Scale(0.5)).Add(verticalStep.Scale(0.5));
    Camera(cameraPosition, pixel00, horizontalStep, verticalStep)
  }

  /** 2 * aspectRatio / (imageHeight * aspectRatio) == 2 / imageHeight */
  lemma StepWidth(imageHeight: real, aspectRatio: real)
    requires imageHeight != 0.0 && aspectRatio != 0.0
    ensures (1.0 / (imageHeight * aspectRatio)) * (ViewportHeight * aspectRatio) == 2.0 / imageHeight
  {
    calc {
      (1.0 / (imageHeight * aspectRatio)) * (2.0 * aspectRatio);
      == (2.0 * aspectRatio) / (imageHeight * aspectRatio);
      == 2.0 / imageHeight;
    }
  }

  /** Camera(): at the origin, looking at (0, 0, -1), 512 pixels high with
      square aspect. */
  function DefaultCamera(): Camera {
    MakeCamera(Zero(), Vector3(0.0, 0.0, -1.0), 512.0, 1.0)
  }

  /** The point of the image plane at pixel coordinates (x, y) lies at
      horizontal offset (2x + 1) / H - aspectRatio and vertical offset
      1 - (2y + 1) / H from the plane's centre, in its plane
      z == imagePlaneCentre.z. */
  lemma ImagePointOffsets(cameraPosition: Vector3, imagePlaneCentre: Vector3,
                          imageHeight: real, aspectRatio: real, x: real, y: real)
    requires imageHeight != 0.0 && aspectRatio != 0.0
    ensures MakeCamera(cameraPosition, imagePlaneCentre, imageHeight, aspectRatio).ImagePoint(x, y) ==
      imagePlaneCentre.Add(Vector3((2.0 * x + 1.0) / imageHeight - aspectRatio,
                                   1.0 - (2.0 * y + 1.0) / imageHeight, 0.0))
  {
    var cam := MakeCamera(cameraPosition, imagePlaneCentre, imageHeight, aspectRatio);
    assert cam.horizontalStep.Scale(x).x == (2.0 * x) / imageHeight;
    assert cam.verticalStep.Scale(y).y == -(2.0 * y) / imageHeight;
  }

  /** Every ray of the camera starts at the camera position and passes
      through its point of the image plane. */
  lemma RayThroughImagePlane(cameraPosition: Vector3, imagePlaneCentre: Vector3,
                             imageHeight: real, aspectRatio: real, x: real, y: real)
    requires imageHeight != 0.0 && aspectRatio != 0.0
    ensures var r := MakeCamera(cameraPosition, imagePlaneCentre, imageHeight, aspectRatio).GetRay(x, y);
      r.origin == cameraPosition &&
      r.origin.Add(r.direction) ==
        imagePlaneCentre.Add(Vector3((2.0 * x + 1.0) / imageHeight - aspectRatio,
                                     1.0 - (2.0 * y + 1.0) / imageHeight, 0.0))
  {
    ImagePointOffsets(cameraPosition, imagePlaneCentre, imageHeight, aspectRatio, x, y);
    RayThroughImagePoint(MakeCamera(cameraPosition, imagePlaneCentre, imageHeight, aspectRatio), x, y);
  }

  /** The pixel grid of the default camera covers its viewport, which spans
      -1..1 in x and y on the plane z == -1: the centre of pixel (0, 0) is
      half a pixel (1/512) in from the upper-left corner (-1, 1), and
      coordinate 511.5 is the lower-right corner (1, -1) of the last pixel. */
  lemma DefaultFirstPixel()
    ensures DefaultCamera().ImagePoint(0.0, 0.0) == Vector3(-0.998046875, 0.998046875, -1.0)
  {
    ImagePointOffsets(Zero(), Vector3(0.0, 0.0, -1.0), 512.0, 1.0, 0.0, 0.0);
    FirstPixelArithmetic(DefaultCamera().ImagePoint(0.0, 0.0));
  }

  /** The offsets of pixel (0, 0) on the default image plane, worked out
      apart from the camera so that the solver does not expand it. */
  lemma FirstPixelArithmetic(p: Vector3)
    requires p == Vector3(0.0, 0.0, -1.0).Add(Vector3((2.0 * 0.0 + 1.0) / 512.0 - 1.0, 1.0 - (2.0 * 0.0 + 1.0) / 512.0, 0.0))
    ensures p == Vector3(-0.998046875, 0.998046875, -1.0)
  {
  }

  lemma DefaultLowerRightCorner()
    ensures DefaultCamera().ImagePoint(511.5, 511.5) == Vector3(1.0, -1.0, -1.0)
  {
    ImagePointOffsets(Zero(), Vector3(0.0, 0.0, -1.0), 512.0, 1.0, 511.5, 511.5);
    assert (2.0 * 511.5 + 1.0) / 512.0 == 2.0;
    assert Vector3(0.0, 0.0, -1.0).Add(Vector3(2.0 - 1.0, 1.0 - 2.0, 0.0)) == Vector3(1.0, -1.0, -1.0);
  }

  /** One pixel to the right or one pixel down moves the point on the image
      plane by exactly one step, whatever the camera. */
  lemma NeighbourRays(cam: Camera, x: real, y: real)
    ensures cam.GetRay(x + 1.0, y).direction == cam.GetRay(x, y).direction.Add(cam.horizontalStep)
    ensures cam.GetRay(x, y + 1.0).direction == cam.GetRay(x, y).direction.Add(cam.verticalStep)
    ensures cam.GetRay(x + 1.0, y).origin == cam.GetRay(x, y).origin
  {
  }

  /** The default camera's ray through the middle of its 512 x 512 image
      (pixel coordinates 255.5, 255.5) points straight down the -z axis. */
  lemma DefaultCameraLooksDownZ()
    ensures DefaultCamera().GetRay(255.5, 255.5) == Ray(Zero(), Vector3(0.0, 0.0, -1.0))
  {
    RayThroughImagePlane(Zero(), Vector3(0.0, 0.0, -1.0), 512.0, 1.0, 255.5, 255.5);
  }

  /** Square pixels: the two steps are equally long and perpendicular. */
  lemma SquarePixels(cameraPosition: Vector3, imagePlaneCentre: Vector3, imageHeight: real, aspectRatio: real)
    requires imageHeight != 0.0 && aspectRatio != 0.0
    ensures var cam := MakeCamera(cameraPosition, imagePlaneCentre, imageHeight, aspectRatio);
      cam.horizontalStep.LengthSquared() == cam.verticalStep.LengthSquared() &&
      cam.horizontalStep.Dot(cam.verticalStep) == 0.0
  {
  }
}
