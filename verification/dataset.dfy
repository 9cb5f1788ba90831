/** What the program writes once capture has finished: the frame count and
    camera matrix, then for every captured frame its image file and its
    pose node, co-indexed by the frame's position in the buffer. */
module Dataset {
  import opened Matrices
  import opened Device
  import opened Decimal
  import opened Storage
  import opened Capture

  /** Focal lengths and principal point as the device reports them. */
  datatype Intrinsics = Intrinsics(focalX: real, focalY: real, centerX: real, centerY: real)

  /** The identity with the focal lengths on the diagonal and the principal
      point in the last column. */
  function CameraMatrix(k: Intrinsics): (c: Mat33)
    ensures c[0][0] == k.focalX && c[1][1] == k.focalY
    ensures c[0][2] == k.centerX && c[1][2] == k.centerY
    ensures c[2][2] == 1.0
    ensures c[0][1] == 0.0 && c[1][0] == 0.0 && c[2][0] == 0.0 && c[2][1] == 0.0
  {
    var m := Identity33();
    var m := SetEntry(m, 0, 0, k.focalX);
    var m := SetEntry(m, 1, 1, k.focalY);
    var m := SetEntry(m, 0, 2, k.centerX);
    SetEntry(m, 1, 2, k.centerY)
  }

  const FrameCountKey: string := "nr_of_frames"
  const CameraMatrixKey: string := "Camera_Matrix"
  const PoseKeyPrefix: string := "Pose_Matrix_"

  /** File name of image i; the directory is a fixed path and left out. */
  function ImageName(i: nat): string {
    NatToString(i) + ".png"
  }

  function PoseKey(i: nat): string {
    PoseKeyPrefix + NatToString(i)
  }

  /** The writes of the export loop from index `from` on. */
  function FrameWrites(images: seq<Image>, poses: seq<Pose>, from: nat): (w: seq<Write>)
    requires from <= |images| <= |poses|
    ensures |w| == 2 * (|images| - from)
    ensures forall i | from <= i < |images| ::
      && w[2 * (i - from)] == ImageFile(ImageName(i), images[i])
      && w[2 * (i - from) + 1] == Node(PoseKey(i), MatrixValue(poses[i].matrix))
    decreases |images| - from
  {
    if from == |images| then []
    else
      [ImageFile(ImageName(from), images[from]), Node(PoseKey(from), MatrixValue(poses[from].matrix))]
        + FrameWrites(images, poses, from + 1)
  }

  /** The export. The loop reads `poses[i]` for every image index i, so it
      stays inside the pose buffer only when that is at least as long. */
  function Export(images: seq<Image>, poses: seq<Pose>, k: Intrinsics): (w: seq<Write>)
    requires |images| <= |poses|
    ensures |w| == 2 + 2 * |images|
    ensures w[0] == Node(FrameCountKey, IntValue(|images|))
    ensures w[1] == Node(CameraMatrixKey, MatrixValue(CameraMatrix(k)))
    ensures forall i | 0 <= i < |images| ::
      && w[2 + 2 * i] == ImageFile(ImageName(i), images[i])
      && w[3 + 2 * i] == Node(PoseKey(i), MatrixValue(poses[i].matrix))
  {
    var frames := FrameWrites(images, poses, 0);
    assert forall i | 0 <= i < |images| :: frames[2 * i] == ImageFile(ImageName(i), images[i]);
    [Node(FrameCountKey, IntValue(|images|)), Node(CameraMatrixKey, MatrixValue(CameraMatrix(k)))]
      + frames
  }

  lemma PoseKeyInjective(i: nat, j: nat)
    ensures PoseKey(i) == PoseKey(j) ==> i == j
  {
    if PoseKey(i) == PoseKey(j) {
      assert PoseKey(i)[|PoseKeyPrefix|..] == NatToString(i);
      assert PoseKey(j)[|PoseKeyPrefix|..] == NatToString(j);
      NatToStringInjective(i, j);
    }
  }

  lemma ImageNameInjective(i: nat, j: nat)
    ensures ImageName(i) == ImageName(j) ==> i == j
  {
    if ImageName(i) == ImageName(j) {
      var a, b := NatToString(i), NatToString(j);
      assert |a| == |b|;
      assert ImageName(i)[..|a|] == a;
      assert ImageName(j)[..|b|] == b;
      NatToStringInjective(i, j);
    }
  }

  lemma PoseKeyIsNotFixedKey(i: nat)
    ensures PoseKey(i) != FrameCountKey && PoseKey(i) != CameraMatrixKey
  {
    assert PoseKey(i)[0] == 'P';
  }

  /** Write q past the two fixed nodes belongs to frame (q - 2) / 2: its
      image file at even q, its pose node at odd q. */
  lemma ExportFrameEntry(images: seq<Image>, poses: seq<Pose>, k: Intrinsics, q: nat)
    requires |images| <= |poses| && 2 <= q < 2 + 2 * |images|
    ensures var w, j := Export(images, poses, k), (q - 2) / 2;
      && j < |images|
      && (q % 2 == 0 ==> w[q] == ImageFile(ImageName(j), images[j]))
      && (q % 2 == 1 ==> w[q] == Node(PoseKey(j), MatrixValue(poses[j].matrix)))
  {
    var j := (q - 2) / 2;
    assert q == 2 + 2 * j || q == 3 + 2 * j;
  }

  /** Every node key and every image name of the export is written once:
      no pose node overwrites another, or the count or camera matrix. */
  lemma ExportNamesDistinct(images: seq<Image>, poses: seq<Pose>, k: Intrinsics)
    requires |images| <= |poses|
    ensures var w := Export(images, poses, k);
      forall p, q | 0 <= p < q < |w| && w[p].Node? == w[q].Node? :: NameOf(w[p]) != NameOf(w[q])
  {
    var w := Export(images, poses, k);
    forall p, q | 0 <= p < q < |w| && w[p].Node? == w[q].Node?
      ensures NameOf(w[p]) != NameOf(w[q])
    {
      if q < 2 {
        assert FrameCountKey[0] != CameraMatrixKey[0];
      } else {
        ExportFrameEntry(images, poses, k, q);
        var j := (q - 2) / 2;
        if p < 2 {
          PoseKeyIsNotFixedKey(j);
        } else {
          ExportFrameEntry(images, poses, k, p);
          var i := (p - 2) / 2;
          ImageNameInjective(i, j);
          PoseKeyInjective(i, j);
        }
      }
    }
  }
}
