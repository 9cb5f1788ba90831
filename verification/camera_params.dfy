/** The keys `saveCameraParams` writes. The function is never called by the
    program; it is modelled for the record layout it fixes. */
module CameraParams {
  import opened Storage

  /** cv::CALIB_FIX_ASPECT_RATIO. */
  const CalibFixAspectRatio: bv32 := 0x2

  datatype Size = Size(width: int, height: int)

  /** Returns whether the file could be opened, and the nodes written. */
  function SaveCameraParams(isOpened: bool, imageSize: Size, aspectRatio: real, flags: bv32,
                            cameraMatrix: seq<seq<real>>, distCoeffs: seq<seq<real>>,
                            totalAvgErr: real): (r: (bool, seq<Write>))
    ensures r.0 == isOpened
    ensures !isOpened ==> r.1 == []
    ensures isOpened ==>
      var ws := r.1;
      && ("aspectRatio" in Names(ws) <==> flags & CalibFixAspectRatio != 0)
      && |ws| == (if flags & CalibFixAspectRatio != 0 then 6 else 5)
      && (flags & CalibFixAspectRatio != 0 ==> ws[2] == Node("aspectRatio", RealValue(aspectRatio)))
      && ws[0] == Node("image_width", IntValue(imageSize.width))
      && ws[1] == Node("image_height", IntValue(imageSize.height))
      && ws[|ws| - 3] == Node("camera_matrix", MatrixValue(cameraMatrix))
      && ws[|ws| - 2] == Node("distortion_coefficients", MatrixValue(distCoeffs))
      && ws[|ws| - 1] == Node("avg_reprojection_error", RealValue(totalAvgErr))
  {
    if !isOpened then (false, [])
    else
      var aspect := if flags & CalibFixAspectRatio != 0
        then [Node("aspectRatio", RealValue(aspectRatio))] else [];
      var ws := [Node("image_width", IntValue(imageSize.width)),
                 Node("image_height", IntValue(imageSize.height))]
        + aspect
        + [Node("camera_matrix", MatrixValue(cameraMatrix)),
           Node("distortion_coefficients", MatrixValue(distCoeffs)),
           Node("avg_reprojection_error", RealValue(totalAvgErr))];
      AspectKeyIsNew();
      var names := Names(ws);
      assert flags & CalibFixAspectRatio != 0 ==> names[2] == "aspectRatio";
      assert flags & CalibFixAspectRatio == 0 ==>
        names == ["image_width", "image_height", "camera_matrix",
                  "distortion_coefficients", "avg_reprojection_error"];
      (true, ws)
  }

  /** The optional key differs from every key that is always written. */
  lemma AspectKeyIsNew()
    ensures "aspectRatio" !in ["image_width", "image_height", "camera_matrix",
                               "distortion_coefficients", "avg_reprojection_error"]
  {
    assert "aspectRatio"[0] != "image_width"[0];
    assert "aspectRatio"[0] != "image_height"[0];
    assert |"aspectRatio"| != |"camera_matrix"|;
    assert |"aspectRatio"| != |"distortion_coefficients"|;
    assert |"aspectRatio"| != |"avg_reprojection_error"|;
  }
}
