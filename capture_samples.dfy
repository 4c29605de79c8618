/** models/capture_samples.py: the loop that reads camera frames, crops
    every detected face and writes a crop on every fifth frame until 100
    samples are on disk.

    The camera, the face detector and the key poll are inputs: `frames` is
    what `video.read()` returns, in order, until it fails; each Frame
    carries the image, the rectangles the detector reports for it, and the
    value `cv2.waitKey(1)` returns after it is shown.

    The loop's bookkeeping is stated over face positions: the loop's
    result lists the positions it saved, in the order it saved them, and
    is compared with a reference list of the positions eligible for
    saving. The files written are a function of those positions: the i-th
    saved position becomes the file `<name>_<i+1>.png` holding its crop. */
module CaptureSamples {
  import opened Decimal
  import opened PyText
  import opened OsPath
  import opened UserInput

  const MaxSamples: nat := 100
  const Stride: nat := 5
  /** `ord('q')` */
  const QuitKey: int := 113

  datatype Pixel = Bgr(b: int, g: int, r: int)
  /** Rows of pixels, as the numpy array of a frame. */
  type Image = seq<seq<Pixel>>

  datatype Rect = Rect(x: nat, y: nat, w: nat, h: nat)

  datatype Frame = Frame(image: Image, faces: seq<Rect>, key: int)

  /** A face of a frame: frame_count when the frame was read, and the
      index of the face in the detector's list. */
  datatype Position = Position(frame: nat, face: nat)

  datatype StopReason =
    | ReadFailed    // video.read() returned no frame
    | QuitPressed   // the key read after the frame was 'q'
    | CapReached    // sample_count reached max_samples
    | ResizeFailed  // cv2.resize raised on an empty crop, ending the script

  /** What the loop leaves behind: the positions saved, in order (their
      number is sample_count), the final frame_count, and why it stopped. */
  datatype Outcome = Outcome(saved: seq<Position>, frameCount: nat, stop: StopReason)

  function Min(a: int, b: int): int {
    if a <= b then a else b
  }

  // ---------------------------------------------------------------------
  // Cropping

  /** Python's `s[start:start + len]` for non-negative bounds: clipped to
      the sequence, empty when start lies past its end. */
  function Slice<T>(s: seq<T>, start: nat, len: nat): (r: seq<T>)
    ensures |r| == if start + len <= |s| then len else if start <= |s| then |s| - start else 0
    ensures forall i :: 0 <= i < |r| ==> r[i] == s[start + i]
  {
    if start >= |s| then [] else if start + len <= |s| then s[start..start + len] else s[start..]
  }

  /** `frame[y:y+h, x:x+w]`, clipped to the image as numpy clips it
      (CropShape and CropPixels state what it holds). */
  function Crop(img: Image, r: Rect): Image {
    CropRows(Slice(img, r.y, r.h), r.x, r.w)
  }

  /** Columns x..x+w-1 of each row, clipped as numpy clips them. */
  function CropRows(rows: Image, x: nat, w: nat): (patch: Image)
    ensures |patch| == |rows|
    ensures forall i :: 0 <= i < |patch| ==> patch[i] == Slice(rows[i], x, w)
  {
    if rows == [] then [] else [Slice(rows[0], x, w)] + CropRows(rows[1..], x, w)
  }

  /** The crop has h rows of w pixels when the rectangle lies inside the
      image, and never reaches past the image. */
  lemma CropShape(img: Image, r: Rect)
    ensures var patch := Crop(img, r);
            (r.y + r.h <= |img| ==> |patch| == r.h) &&
            (|patch| > 0 ==> r.y + |patch| <= |img|) &&
            (forall i :: 0 <= i < |patch| && r.x + r.w <= |img[r.y + i]| ==> |patch[i]| == r.w)
  {
    var rows := Slice(img, r.y, r.h);
    var patch := CropRows(rows, r.x, r.w);
    forall i | 0 <= i < |patch| && r.x + r.w <= |img[r.y + i]|
      ensures |patch[i]| == r.w
    {
      assert patch[i] == Slice(rows[i], r.x, r.w);
      assert rows[i] == img[r.y + i];
    }
  }

  /** Pixel (i, j) of the crop is pixel (y+i, x+j) of the image. */
  lemma CropPixels(img: Image, r: Rect)
    ensures var patch := Crop(img, r);
            forall i, j :: 0 <= i < |patch| && 0 <= j < |patch[i]| ==>
              r.y + i < |img| && r.x + j < |img[r.y + i]| && patch[i][j] == img[r.y + i][r.x + j]
  {
    var rows := Slice(img, r.y, r.h);
    var patch := CropRows(rows, r.x, r.w);
    forall i, j | 0 <= i < |patch| && 0 <= j < |patch[i]|
      ensures r.y + i < |img| && r.x + j < |img[r.y + i]| && patch[i][j] == img[r.y + i][r.x + j]
    {
      assert patch[i] == Slice(rows[i], r.x, r.w);
      assert rows[i] == img[r.y + i];
    }
  }

  /** `cv2.resize` refuses a source of zero width or height. */
  predicate IsEmptyPatch(patch: Image) {
    |patch| == 0 || |patch[0]| == 0
  }

  /** When the crop of r is empty, read off the rectangle and the image. */
  predicate CropEmpty(img: Image, r: Rect) {
    r.h == 0 || r.y >= |img| || r.w == 0 || r.x >= |img[r.y]|
  }

  /** A numpy frame: every row has the same width. */
  predicate Rectangular(img: Image) {
    forall i :: 0 <= i < |img| ==> |img[i]| == |img[0]|
  }

  /** On a rectangular frame the crop is empty exactly when the rectangle
      has no area or starts past the frame's height or width. */
  lemma CropEmptyRectangular(img: Image, r: Rect)
    requires Rectangular(img)
    ensures CropEmpty(img, r) <==> r.h == 0 || r.w == 0 || r.y >= |img| || r.x >= |img[0]|
  {
  }

  lemma CropEmptyIff(img: Image, r: Rect)
    ensures IsEmptyPatch(Crop(img, r)) <==> CropEmpty(img, r)
  {
    var rows := Slice(img, r.y, r.h);
    if |rows| > 0 {
      assert rows[0] == img[r.y];
    }
  }

  /** No face of the frame crops to an empty patch. */
  predicate CropsOk(fr: Frame) {
    forall j :: 0 <= j < |fr.faces| ==> !CropEmpty(fr.image, fr.faces[j])
  }

  /** The index of the first face from the j-th on whose crop is empty,
      or the number of faces when there is none: how many faces of the
      frame the `for` loop gets through before `cv2.resize` raises. */
  function FirstEmptyCrop(fr: Frame, j: nat): (m: nat)
    requires j <= |fr.faces|
    ensures j <= m <= |fr.faces|
    ensures forall jj :: j <= jj < m ==> !CropEmpty(fr.image, fr.faces[jj])
    ensures m < |fr.faces| ==> CropEmpty(fr.image, fr.faces[m])
    decreases |fr.faces| - j
  {
    if j == |fr.faces| || CropEmpty(fr.image, fr.faces[j]) then j else FirstEmptyCrop(fr, j + 1)
  }

  /** `key & 0xFF`: Python's `&` on a negative int acts on its two's
      complement, which is the non-negative remainder modulo 256. */
  function KeyCode(key: int): (c: int)
    ensures 0 <= c < 256
    ensures key - c == 256 * (key / 256)
  {
    key % 256
  }

  // ---------------------------------------------------------------------
  // A reference description of what gets saved, independent of the loop:
  // the faces of every fifth frame, in frame order and detector order.

  function FramePositions(frames: seq<Frame>, f: nat): seq<Position>
    requires f < |frames|
  {
    seq(StrideCount(frames, f), j requires 0 <= j < StrideCount(frames, f) => Position(f, j))
  }

  /** How many faces frame f contributes: all of them on the stride,
      none off it. */
  function StrideCount(frames: seq<Frame>, f: nat): nat
    requires f < |frames|
  {
    if f % Stride == 0 then |frames[f].faces| else 0
  }

  /** The positions eligible for saving among frames 0..n-1. */
  function Eligible(frames: seq<Frame>, n: nat): seq<Position>
    requires n <= |frames|
  {
    if n == 0 then [] else Eligible(frames, n - 1) + FramePositions(frames, n - 1)
  }

  predicate ValidPosition(frames: seq<Frame>, p: Position) {
    p.frame < |frames| && p.face < |frames[p.frame].faces|
  }

  /** Every eligible position is a face of an earlier frame whose index is
      a multiple of the stride. */
  lemma {:induction false} EligibleValid(frames: seq<Frame>, n: nat)
    requires n <= |frames|
    ensures forall i :: 0 <= i < |Eligible(frames, n)| ==>
              var p := Eligible(frames, n)[i];
              ValidPosition(frames, p) && p.frame < n && p.frame % Stride == 0
  {
    if n > 0 {
      EligibleValid(frames, n - 1);
    }
  }

  /** Eligible positions are listed in frame order, then detector order,
      each once. */
  lemma {:induction false} EligibleOrdered(frames: seq<Frame>, n: nat)
    requires n <= |frames|
    ensures forall a, b :: 0 <= a < b < |Eligible(frames, n)| ==>
              var p, q := Eligible(frames, n)[a], Eligible(frames, n)[b];
              p.frame < q.frame || (p.frame == q.frame && p.face < q.face)
  {
    if n > 0 {
      EligibleOrdered(frames, n - 1);
      EligibleValid(frames, n - 1);
    }
  }

  /** The positions of frame k follow those of the frames before it: none
      when k is off the stride, its faces in order when it is on it. */
  lemma EligibleFrame(frames: seq<Frame>, k: nat)
    requires k < |frames|
    ensures var e0, e := Eligible(frames, k), Eligible(frames, k + 1);
            |e| == |e0| + (if k % Stride == 0 then |frames[k].faces| else 0) &&
            e0 == e[..|e0|] &&
            forall i :: |e0| <= i < |e| ==> e[i] == Position(k, i - |e0|)
  {
    assert Eligible(frames, k + 1) == Eligible(frames, k) + FramePositions(frames, k);
  }

  /** Every face of every frame whose index is a multiple of the stride is
      eligible. */
  lemma {:induction false} EligibleComplete(frames: seq<Frame>, n: nat, f: nat, j: nat)
    requires n <= |frames| && f < n && f % Stride == 0 && j < |frames[f].faces|
    ensures Position(f, j) in Eligible(frames, n)
  {
    if f < n - 1 {
      EligibleComplete(frames, n - 1, f, j);
    } else {
      EligibleFrame(frames, f);
      assert Eligible(frames, n)[|Eligible(frames, f)| + j] == Position(f, j);
    }
  }

  /** Going on to more frames only adds positions at the end. */
  lemma {:induction false} EligiblePrefix(frames: seq<Frame>, m: nat, n: nat)
    requires m <= n <= |frames|
    ensures |Eligible(frames, m)| <= |Eligible(frames, n)|
    ensures Eligible(frames, m) == Eligible(frames, n)[..|Eligible(frames, m)|]
    decreases n - m
  {
    if m < n {
      EligiblePrefix(frames, m, n - 1);
      EligibleFrame(frames, n - 1);
    }
  }

  /** Below the cap after n frames means below it after every earlier
      frame too. */
  lemma BelowCapBefore(frames: seq<Frame>, n: nat)
    requires n <= |frames| && |Eligible(frames, n)| < MaxSamples
    ensures forall m :: 0 <= m <= n ==> |Eligible(frames, m)| < MaxSamples
  {
    forall m | 0 <= m <= n
      ensures |Eligible(frames, m)| < MaxSamples
    {
      EligiblePrefix(frames, m, n);
    }
  }

  /** Any leading part of the eligible positions names faces of stride
      frames, in frame order and detector order, without repeats. */
  lemma SavedFromEligible(frames: seq<Frame>, n: nat, saved: seq<Position>)
    requires n <= |frames| && |saved| <= |Eligible(frames, n)| && saved == Eligible(frames, n)[..|saved|]
    ensures forall i :: 0 <= i < |saved| ==>
              ValidPosition(frames, saved[i]) && saved[i].frame < n && saved[i].frame % Stride == 0
    ensures forall a, b :: 0 <= a < b < |saved| ==>
              saved[a].frame < saved[b].frame || (saved[a].frame == saved[b].frame && saved[a].face < saved[b].face)
  {
    EligibleValid(frames, n);
    EligibleOrdered(frames, n);
    assert forall i :: 0 <= i < |saved| ==> saved[i] == Eligible(frames, n)[i];
  }

  lemma PrefixTrans<T>(a: seq<T>, b: seq<T>, c: seq<T>)
    requires |a| <= |b| <= |c| && a == b[..|a|] && b == c[..|b|]
    ensures a == c[..|a|]
  {
  }

  lemma PrefixSnoc<T>(s: seq<T>, p: seq<T>)
    requires |p| < |s| && p == s[..|p|]
    ensures p + [s[|p|]] == s[..|p| + 1]
  {
  }

  /** The number of frames read: frame_count, plus the frame whose crop
      ended the script before frame_count was increased. */
  function ReadCount(o: Outcome): nat {
    if o.stop == ResizeFailed then o.frameCount + 1 else o.frameCount
  }

  /** The frame the loop stopped at: the one whose key or count ended it,
      the one with the empty crop, or |frames| when reads ran out. */
  function StopFrame(o: Outcome): int {
    if o.stop == QuitPressed || o.stop == CapReached then o.frameCount - 1 else o.frameCount
  }

  // The files written

  /** `os.path.join(samples_dir, f"{name}_{number}.png")` */
  function SampleFile(dir: string, name: string, number: nat): string {
    Join(dir, name + "_" + NatToString(number) + ".png")
  }

  /** Distinct sample numbers give distinct paths, so no file is written
      twice. */
  lemma SampleFileInjective(dir: string, name: string, a: nat, b: nat)
    requires SampleFile(dir, name, a) == SampleFile(dir, name, b)
    ensures a == b
  {
    var ca := name + "_" + NatToString(a) + ".png";
    var cb := name + "_" + NatToString(b) + ".png";
    assert ca[0] == cb[0] by {
      if |name| > 0 { assert ca[0] == name[0] && cb[0] == name[0]; }
    }
    assert ca == cb by {
      if !IsAbsolute(ca) {
        assert Join(dir, ca)[|Join(dir, ca)| - |ca|..] == ca;
        assert |Join(dir, ca)| - |ca| == |Join(dir, cb)| - |cb|;
      }
    }
    var k := |name| + 1;
    assert NatToString(a) == ca[k..|ca| - 4];
    assert NatToString(b) == cb[k..|cb| - 4];
  }

  /** Under a relative name, sample number n of `name` is written to
      data/samples/<name>/<name>_<n>.png. */
  lemma SampleFileUnderSamplesDir(name: string, n: nat)
    requires !IsAbsolute(name) && name != [] && name[|name| - 1] != Sep
    ensures SampleFile(SamplesDir(name), name, n) ==
            "data/samples/" + name + "/" + name + "_" + NatToString(n) + ".png"
  {
    var dir := SamplesDir(name);
    var file := name + "_" + NatToString(n) + ".png";
    assert file[0] == name[0];
    assert dir[|dir| - 1] == name[|name| - 1];
    assert Join(dir, file) == dir + [Sep] + file;
  }

  /** The paths of the first n samples: `<name>_1.png` .. `<name>_<n>.png`. */
  function SamplePaths(dir: string, name: string, n: nat): (paths: seq<string>)
    ensures |paths| == n
  {
    seq(n, i requires 0 <= i < n => SampleFile(dir, name, i + 1))
  }

  /** Writing sample n+1 extends the list of paths by its file. */
  lemma SamplePathsSnoc(dir: string, name: string, n: nat)
    ensures SamplePaths(dir, name, n) + [SampleFile(dir, name, n + 1)] == SamplePaths(dir, name, n + 1)
  {
  }

  /** No two samples are written to the same path. */
  lemma SamplePathsDistinct(dir: string, name: string, n: nat)
    ensures forall a, b :: 0 <= a < b < n ==> SamplePaths(dir, name, n)[a] != SamplePaths(dir, name, n)[b]
  {
    forall a, b | 0 <= a < b < n
      ensures SamplePaths(dir, name, n)[a] != SamplePaths(dir, name, n)[b]
    {
      if SampleFile(dir, name, a + 1) == SampleFile(dir, name, b + 1) {
        SampleFileInjective(dir, name, a + 1, b + 1);
      }
    }
  }

  /** The image file i holds: the crop of the i-th saved face (resized
      to 224x224 before it is written). */
  function SampleImage(frames: seq<Frame>, p: Position): (img: Image)
    requires ValidPosition(frames, p)
    ensures IsEmptyPatch(img) <==> CropEmpty(frames[p.frame].image, frames[p.frame].faces[p.face])
  {
    CropEmptyIff(frames[p.frame].image, frames[p.frame].faces[p.face]);
    Crop(frames[p.frame].image, frames[p.frame].faces[p.face])
  }

  /** Every file the loop writes holds a crop with pixels in it: the
      faces saved lie in frames whose crops all succeeded, or, in the
      frame where a crop failed, before the failing face. The requires
      are what CollectSamples ensures of its outcome. */
  lemma SavedCropsNotEmpty(frames: seq<Frame>, o: Outcome)
    requires ReadCount(o) <= |frames|
    requires |o.saved| <= |Eligible(frames, ReadCount(o))| && o.saved == Eligible(frames, ReadCount(o))[..|o.saved|]
    requires forall f :: 0 <= f < o.frameCount ==> CropsOk(frames[f])
    requires o.stop == ResizeFailed ==>
               |o.saved| == Min(MaxSamples, |Eligible(frames, o.frameCount)| +
                                            (if o.frameCount % Stride == 0 then FirstEmptyCrop(frames[o.frameCount], 0) else 0))
    ensures forall i :: 0 <= i < |o.saved| ==>
              ValidPosition(frames, o.saved[i]) && !IsEmptyPatch(SampleImage(frames, o.saved[i]))
  {
    var n := ReadCount(o);
    SavedFromEligible(frames, n, o.saved);
    forall i | 0 <= i < |o.saved|
      ensures ValidPosition(frames, o.saved[i]) && !IsEmptyPatch(SampleImage(frames, o.saved[i]))
    {
      var p := o.saved[i];
      var fr := frames[p.frame];
      if p.frame < o.frameCount {
        assert CropsOk(fr);
      } else {
        var fc := o.frameCount;
        assert o.stop == ResizeFailed && p.frame == fc;
        EligibleFrame(frames, fc);
        EligibleValid(frames, fc);
        var e0 := Eligible(frames, fc);
        assert p == Eligible(frames, fc + 1)[i];
        assert i >= |e0|;
        assert p.face == i - |e0| < FirstEmptyCrop(fr, 0);
      }
    }
  }

  // ---------------------------------------------------------------------
  // The script

  /** `face_img = frame[y:y+h, x:x+w]` followed by `cv2.resize`, which
      raises on a crop with no rows or no columns; ok says whether the
      resize succeeded. */
  method CropAndResize(img: Image, r: Rect) returns (ok: bool)
    ensures ok <==> !CropEmpty(img, r)
  {
    var faceImg := Crop(img, r);
    CropEmptyIff(img, r);
    ok := !IsEmptyPatch(faceImg);
  }

  /** The `for (x, y, w, h) in faces` loop over the frame read when
      frame_count was k: crop each face, end the script on an empty crop,
      and write the crop as the next sample while the frame is on the
      stride and the cap is not reached. Here e lists the positions
      eligible up to frame k, base of them before frame k. Entered with
      those before frame k saved as far as the cap allows, it leaves those
      of frame k saved as far as the cap allows; when a crop fails, only
      those before the failing face. */
  method SaveFaces(samplesDir: string, name: string, frames: seq<Frame>, k: nat,
                   sampleCount0: nat, saved0: seq<Position>, paths0: seq<string>,
                   ghost e: seq<Position>, ghost base: nat)
    returns (sampleCount: nat, saved: seq<Position>, paths: seq<string>, resized: bool)
    requires k < |frames| && sampleCount0 == |saved0|
    requires |e| == base + (if k % Stride == 0 then |frames[k].faces| else 0)
    requires forall i :: base <= i < |e| ==> e[i] == Position(k, i - base)
    requires |saved0| == Min(MaxSamples, base) && saved0 == e[..|saved0|]
    requires paths0 == SamplePaths(samplesDir, name, sampleCount0)
    ensures resized <==> CropsOk(frames[k])
    ensures sampleCount == |saved| && |saved0| <= |saved| <= Min(MaxSamples, |e|) && saved == e[..|saved|]
    ensures resized ==> |saved| == Min(MaxSamples, |e|)
    ensures !resized ==>
              |saved| == Min(MaxSamples, base + (if k % Stride == 0 then FirstEmptyCrop(frames[k], 0) else 0))
    ensures paths == SamplePaths(samplesDir, name, sampleCount)
  {
    sampleCount, saved, paths, resized := sampleCount0, saved0, paths0, true;
    var frame := frames[k];
    for j := 0 to |frame.faces|
      invariant sampleCount == |saved| && |saved0| <= |saved| <= |e| && saved == e[..|saved|]
      invariant |saved| == Min(MaxSamples, base + (if k % Stride == 0 then j else 0))
      invariant forall jj :: 0 <= jj < j ==> !CropEmpty(frame.image, frame.faces[jj])
      invariant paths == SamplePaths(samplesDir, name, sampleCount)
    {
      var ok := CropAndResize(frame.image, frame.faces[j]);
      if !ok {
        resized := false;
        return;
      }
      if sampleCount < MaxSamples && k % Stride == 0 {
        var sampleFilename := SampleFile(samplesDir, name, sampleCount + 1);
        PrefixSnoc(e, saved);
        SamplePathsSnoc(samplesDir, name, sampleCount);
        paths := paths + [sampleFilename];
        saved := saved + [Position(k, j)];
        sampleCount := sampleCount + 1;
      }
    }
  }

  /** One pass of the `while` body over the frame read when frame_count
      was k, up to the key poll: the faces of frame k are saved after
      those of the earlier frames, as far as the cap allows. */
  method CaptureFrame(samplesDir: string, name: string, frames: seq<Frame>, k: nat,
                      saved0: seq<Position>, paths0: seq<string>)
    returns (sampleCount: nat, saved: seq<Position>, paths: seq<string>, resized: bool)
    requires k < |frames|
    requires |saved0| == Min(MaxSamples, |Eligible(frames, k)|) && saved0 == Eligible(frames, k)[..|saved0|]
    requires paths0 == SamplePaths(samplesDir, name, |saved0|)
    ensures resized <==> CropsOk(frames[k])
    ensures sampleCount == |saved| && |saved0| <= |saved| <= Min(MaxSamples, |Eligible(frames, k + 1)|)
    ensures saved == Eligible(frames, k + 1)[..|saved|]
    ensures resized ==> |saved| == Min(MaxSamples, |Eligible(frames, k + 1)|)
    ensures !resized ==>
              |saved| == Min(MaxSamples, |Eligible(frames, k)| + (if k % Stride == 0 then FirstEmptyCrop(frames[k], 0) else 0))
    ensures paths == SamplePaths(samplesDir, name, sampleCount)
  {
    EligibleFrame(frames, k);
    ghost var e0, e := Eligible(frames, k), Eligible(frames, k + 1);
    PrefixTrans(saved0, e0, e);
    sampleCount, saved, paths, resized := SaveFaces(samplesDir, name, frames, k, |saved0|, saved0, paths0, e, |e0|);
  }

  /** The capture loop, writing each saved crop as it goes. It saves the
      eligible positions of the frames it reads, in order, up to the cap;
      it stops at a failed read, at 'q', at the cap or on an empty crop,
      and at no earlier frame. The files it writes are `<name>_1.png`,
      `<name>_2.png`, ... holding the crops of the saved faces in order. */
  method CollectSamples(samplesDir: string, name: string, frames: seq<Frame>)
    returns (o: Outcome, paths: seq<string>)
    ensures ReadCount(o) <= |frames|
    ensures |o.saved| <= MaxSamples
    ensures |o.saved| <= |Eligible(frames, ReadCount(o))| && o.saved == Eligible(frames, ReadCount(o))[..|o.saved|]
    ensures |o.saved| >= Min(MaxSamples, |Eligible(frames, o.frameCount)|)
    ensures o.stop != ResizeFailed ==> |o.saved| == Min(MaxSamples, |Eligible(frames, o.frameCount)|)
    ensures o.stop == ReadFailed ==> o.frameCount == |frames|
    ensures o.stop == QuitPressed ==> 0 < o.frameCount && KeyCode(frames[o.frameCount - 1].key) == QuitKey
    ensures o.stop == CapReached ==> 0 < o.frameCount && KeyCode(frames[o.frameCount - 1].key) != QuitKey && |o.saved| == MaxSamples
    ensures o.stop == ResizeFailed ==> !CropsOk(frames[o.frameCount])
    ensures o.stop == ResizeFailed ==>
              |o.saved| == Min(MaxSamples, |Eligible(frames, o.frameCount)| +
                                           (if o.frameCount % Stride == 0 then FirstEmptyCrop(frames[o.frameCount], 0) else 0))
    ensures forall f :: 0 <= f < o.frameCount ==> CropsOk(frames[f])
    ensures 0 <= StopFrame(o) && forall f :: 0 <= f < StopFrame(o) ==> KeyCode(frames[f].key) != QuitKey
    ensures forall m :: 0 <= m <= StopFrame(o) ==> |Eligible(frames, m)| < MaxSamples
    ensures paths == SamplePaths(samplesDir, name, |o.saved|)
  {
    var sampleCount := 0;
    var frameCount := 0;
    var saved: seq<Position> := [];
    paths := [];
    while true
      invariant frameCount <= |frames|
      invariant sampleCount == |saved| < MaxSamples
      invariant |saved| == Min(MaxSamples, |Eligible(frames, frameCount)|)
      invariant saved == Eligible(frames, frameCount)[..|saved|]
      invariant paths == SamplePaths(samplesDir, name, sampleCount)
      invariant forall f :: 0 <= f < frameCount ==> CropsOk(frames[f]) && KeyCode(frames[f].key) != QuitKey
      decreases |frames| - frameCount
    {
      BelowCapBefore(frames, frameCount);
      if frameCount == |frames| {
        // video.read() fails
        o := Outcome(saved, frameCount, ReadFailed);
        break;
      }
      var resized;
      sampleCount, saved, paths, resized := CaptureFrame(samplesDir, name, frames, frameCount, saved, paths);
      if !resized {
        o := Outcome(saved, frameCount, ResizeFailed);
        break;
      }
      var key := KeyCode(frames[frameCount].key);
      frameCount := frameCount + 1;
      if key == QuitKey {
        o := Outcome(saved, frameCount, QuitPressed);
        break;
      }
      if sampleCount >= MaxSamples {
        o := Outcome(saved, frameCount, CapReached);
        break;
      }
    }
  }

  /** The whole script: strip the name (a blank name is not refused here),
      create its samples directory, then run the capture loop. */
  method CaptureSession(fs: FileSystem, typed: string, frames: seq<Frame>)
    returns (samplesDir: string, o: Outcome, paths: seq<string>)
    modifies fs
    ensures samplesDir == SamplesDir(Strip(typed))
    ensures fs.dirs == old(fs.dirs) + DirChain(samplesDir)
    ensures ReadCount(o) <= |frames|
    ensures |o.saved| <= MaxSamples
    ensures |o.saved| <= |Eligible(frames, ReadCount(o))| && o.saved == Eligible(frames, ReadCount(o))[..|o.saved|]
    ensures |o.saved| >= Min(MaxSamples, |Eligible(frames, o.frameCount)|)
    ensures o.stop != ResizeFailed ==> |o.saved| == Min(MaxSamples, |Eligible(frames, o.frameCount)|)
    ensures o.stop == ReadFailed ==> o.frameCount == |frames|
    ensures o.stop == QuitPressed ==> 0 < o.frameCount && KeyCode(frames[o.frameCount - 1].key) == QuitKey
    ensures o.stop == CapReached ==> 0 < o.frameCount && KeyCode(frames[o.frameCount - 1].key) != QuitKey && |o.saved| == MaxSamples
    ensures o.stop == ResizeFailed ==> !CropsOk(frames[o.frameCount])
    ensures o.stop == ResizeFailed ==>
              |o.saved| == Min(MaxSamples, |Eligible(frames, o.frameCount)| +
                                           (if o.frameCount % Stride == 0 then FirstEmptyCrop(frames[o.frameCount], 0) else 0))
    ensures forall f :: 0 <= f < o.frameCount ==> CropsOk(frames[f])
    ensures 0 <= StopFrame(o) && forall f :: 0 <= f < StopFrame(o) ==> KeyCode(frames[f].key) != QuitKey
    ensures forall m :: 0 <= m <= StopFrame(o) ==> |Eligible(frames, m)| < MaxSamples
    ensures paths == SamplePaths(samplesDir, Strip(typed), |o.saved|)
  {
    var name := Strip(typed);
    samplesDir := SamplesDir(name);
    var _ := fs.MakeDirs(samplesDir);
    o, paths := CollectSamples(samplesDir, name, frames);
  }

  /** A blank name is accepted here: the samples go straight into
      data/samples/, named `_1.png`, `_2.png`, ... */
  lemma BlankNameAccepted(typed: string, n: nat)
    requires AllSpace(typed)
    ensures SamplesDir(Strip(typed)) == "data/samples/"
    ensures SampleFile(SamplesDir(Strip(typed)), Strip(typed), n) == "data/samples/_" + NatToString(n) + ".png"
  {
  }
}
