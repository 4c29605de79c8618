# SMART face recognition system: the capture scripts and the dashboard

This project models three scripts of the face-recognition attendance system.

- `models/capture_samples.py` asks for a person's name and creates `data/samples/<name>`. It then reads webcam frames until a read fails, the key after a frame is `q`, or 100 samples are saved.
  - On every frame it crops each face the detector reports and resizes the crop. An empty crop makes `cv2.resize` raise; nothing catches it, so the script ends there (`StopReason.ResizeFailed`).
  - Only on frames whose frame_count is divisible by 5 is a crop written, as `<name>_<k>.png` with k counting up from 1. frame_count counts every frame read, with or without faces.
  - The name is stripped but a blank name is not refused. Its samples then go to `data/samples/` as `_1.png`, `_2.png`, … (`BlankNameAccepted`).
- `models/user_input.py` strips the typed name and refuses a blank one. It then creates the same directory with `os.makedirs(..., exist_ok=True)`.
- `app.py` is a Streamlit page behind a login with one fixed account.
  - The session flag `authenticated` is set by a successful login and never cleared.
  - Once logged in, the page shows a FizzBuzz message for the auto-refresh counter. Zero is tested first.
  - It also shows the name of the attendance file for a chosen date: `Attendance/Attendance_DD-MM-YYYY.csv`.

Modules:

- `Wrappers`: Option and Result.
- `Decimal`: `str(int)`, zero-padded fields and their parsers.
- `PyText`: `str.strip`.
- `OsPath`: POSIX `os.path.join`, and `os.makedirs` on a file system kept as the set of existing directories (class `FileSystem`).
- `UserInput`: the name script.
- `CaptureSamples`: the capture loop.
  - Its methods are proved against `Eligible`, a reference list of the faces on stride frames in frame and detector order.
  - The loop saves the first `min(100, |Eligible|)` of those faces, as files `<name>_1.png` .. `<name>_k.png`. When a crop fails, it saves only the faces before the failing one, up to the cap.
- `App`: the dashboard.
  - Class `Session` holds the flag; `Session.Run` is one run of the script.
  - FizzBuzz and the file name come with parsers, and both round trips are proved.

The camera, the face detector and the keyboard are inputs. Each `Frame` carries:

- the image `video.read()` returned;
- the rectangles `detect_frontal_faces` found;
- the value `cv2.waitKey` returned after it.

The frame list runs out where `video.read()` fails. The typed name, the credentials, the refresh count and the picked date are inputs too.

## Model

| member | source | states |
|---|---|---|
| Decimal.NatToString | models/capture_samples.py:36 | `str(n)` of a sample number is non-empty, all digits, has no leading zero and reads back as n |
| Decimal.IntToStringRoundTrip | app.py:70-71 | `str(count)` of any int, negative included, parses back to count |
| Decimal.IntToStringInjective | app.py:70-71 | different counts print differently |
| Decimal.IntToString | app.py:70-71 | `str(count)` starts with a minus sign exactly for a negative count, followed by the digits of its magnitude |
| Decimal.ZeroPad | app.py:81 | a `%d`/`%m`/`%Y` field is exactly width digits whose value is the number |
| PyText.Strip | models/user_input.py:4 | `strip()` keeps the part between a run of leading and a run of trailing whitespace, both taken whole; it is empty exactly when the input is all whitespace |
| PyText.StripCutUnique | models/user_input.py:4 | any cut with no whitespace left at either end is the one strip makes |
| PyText.StripIdempotent | models/user_input.py:4 | stripping a stripped name changes nothing |
| PyText.StripTrimmed | models/user_input.py:4 | a non-empty stripped name starts and ends with a non-whitespace character |
| OsPath.Join | models/user_input.py:12 | `os.path.join`: an absolute component replaces what came before; otherwise it is appended after the first part, with exactly one separator added when the first part is non-empty and does not already end in one, and none otherwise |
| OsPath.TargetCreated | models/user_input.py:15 | `makedirs` creates the named directory itself |
| OsPath.TrailingSepTargetCreated | models/user_input.py:15 | a trailing separator still creates the directory before it |
| OsPath.DirChain | models/user_input.py:15 | the directories `makedirs` creates: each is a non-empty leading part of the path, not ending in a separator, that stops just before a separator or at the path's end |
| OsPath.AncestorCreated | models/user_input.py:15 | every such leading part, each ancestor named in the path, is created |
| OsPath.FileSystem.MakeDirs | models/user_input.py:15 | fails only on the empty path; otherwise adds the path and all its ancestors; with `exist_ok=True`, changes nothing when they all exist |
| UserInput.SamplesDir | models/user_input.py:12 | the sample directory is `data/samples/<name>`, or the name itself when it is absolute |
| UserInput.ValidateName | models/user_input.py:4-9 | a name is refused exactly when it is blank; an accepted name is the stripped input, non-empty and with no whitespace at either end |
| UserInput.AcceptedNameDir | models/user_input.py:4-15 | an accepted relative name gets `data/samples/<name>`, and creating it also creates `data` and `data/samples` |
| UserInput.AbsoluteNameEscapes | models/user_input.py:4-12 | the typed name ` /tmp ` is accepted and its sample directory is `/tmp`, outside `data/samples` |
| UserInput.Run | models/user_input.py:4-15 | a blank name gives the error and leaves the file system unchanged; any other name creates the directory chain of `data/samples/<stripped name>` and returns it |
| CaptureSamples.Slice | models/capture_samples.py:32 | a Python slice `s[a:a+n]` is clipped to the sequence: its length and its elements |
| CaptureSamples.CropRows | models/capture_samples.py:32 | the column slice keeps one row per row, each row the clipped column range |
| CaptureSamples.Crop | models/capture_samples.py:32 | `frame[y:y+h, x:x+w]`, rows then columns clipped as numpy clips them; what it holds is stated by CropShape and CropPixels |
| CaptureSamples.CropShape | models/capture_samples.py:32 | a rectangle inside the frame crops to h rows of w pixels; no crop reaches past the frame |
| CaptureSamples.CropPixels | models/capture_samples.py:32 | pixel (i, j) of the crop is pixel (y+i, x+j) of the frame |
| CaptureSamples.CropEmptyIff | models/capture_samples.py:32-33 | the crop `cv2.resize` refuses (no rows or no columns) is the one whose rectangle has zero size or starts past the frame |
| CaptureSamples.CropEmptyRectangular | models/capture_samples.py:32-33 | on a frame whose rows all have the same width, as a numpy frame does, the crop is empty exactly when the rectangle has no area or starts past the frame's height or width |
| CaptureSamples.FirstEmptyCrop | models/capture_samples.py:31-33 | the index of the first face whose crop is empty, or the number of faces: every face before it crops to a non-empty patch |
| CaptureSamples.CropAndResize | models/capture_samples.py:32-33 | the resize succeeds exactly when the crop is not empty |
| CaptureSamples.KeyCode | models/capture_samples.py:51 | `key & 0xFF` lies in 0..255 and agrees with key modulo 256, negative keys included |
| CaptureSamples.EligibleValid | models/capture_samples.py:31-35 | every candidate sample is a real face of a frame already read whose frame_count is divisible by 5 |
| CaptureSamples.EligibleOrdered | models/capture_samples.py:22-35 | candidates come in frame order, then detector order, each at most once |
| CaptureSamples.EligibleFrame | models/capture_samples.py:31-35 | one more frame appends its faces, in detector order, if it is on the stride, and nothing otherwise |
| CaptureSamples.EligibleComplete | models/capture_samples.py:31-35 | every face of every frame on the stride is a candidate |
| CaptureSamples.EligiblePrefix | models/capture_samples.py:22-49 | reading more frames only appends candidates |
| CaptureSamples.BelowCapBefore | models/capture_samples.py:35-53 | below the cap now means below it after every earlier frame |
| CaptureSamples.SavedFromEligible | models/capture_samples.py:31-38 | whatever the loop saved consists of stride-frame faces, in frame and detector order, none twice |
| CaptureSamples.SampleFile | models/capture_samples.py:36 | `os.path.join(samples_dir, f"{name}_{k}.png")`; its properties are stated by SampleFileInjective and SampleFileUnderSamplesDir |
| CaptureSamples.SampleFileInjective | models/capture_samples.py:36-38 | different sample numbers give different file paths |
| CaptureSamples.SampleFileUnderSamplesDir | models/capture_samples.py:11-36 | for a name that is relative, non-empty and does not end in a separator, sample n is written to `data/samples/<name>/<name>_<n>.png` |
| CaptureSamples.SamplePaths | models/capture_samples.py:36-38 | the files written after k samples: k paths, the i-th that of sample i+1 |
| CaptureSamples.SamplePathsSnoc | models/capture_samples.py:36-38 | saving sample k+1 appends its file to the files written |
| CaptureSamples.SamplePathsDistinct | models/capture_samples.py:36-38 | no file is written twice, so no sample overwrites another |
| CaptureSamples.SampleImage | models/capture_samples.py:32-37 | the image written for a saved face, the crop of its rectangle; it is empty exactly when that crop is |
| CaptureSamples.SavedCropsNotEmpty | models/capture_samples.py:31-38 | every file the loop writes holds a non-empty crop of a real face |
| CaptureSamples.SaveFaces | models/capture_samples.py:31-39 | the loop over one frame's faces: it stops at the first empty crop, having saved exactly the faces before it that fit under the cap (when the frame is on the stride); otherwise it saves all of the frame's faces that fit under the cap; it writes files numbered on from the count |
| CaptureSamples.CaptureFrame | models/capture_samples.py:29-39 | after frame k, the saved list is the first min(100, candidates) candidates up to and including frame k; when a crop of frame k failed, only the candidates before the failing face, up to the cap |
| CaptureSamples.CollectSamples | models/capture_samples.py:18-53 | the capture loop never reads past the frames. It saves at most 100 samples: a leading part of the candidates, and all of them up to the cap unless a crop failed. It stops on a failed read only after the last frame, on `q` only when that frame's key is `q`, on the cap only when 100 are saved, and on a crop failure only at a frame with an empty crop, having saved exactly the candidates before the failing face, up to the cap. Every earlier frame had no `q` and no empty crop and left the count below 100. The files written are `<name>_1.png` .. `<name>_k.png` |
| CaptureSamples.CaptureSession | models/capture_samples.py:10-53 | the whole script: strip, create the directory chain, then run the capture loop with everything CollectSamples states of its outcome (exact count, each stop condition with the earlier frames clean, the files `<dir>/<name>_k.png`) |
| CaptureSamples.BlankNameAccepted | models/capture_samples.py:10-12 | a blank name is not refused: the directory is `data/samples/` and sample n goes to `data/samples/_<n>.png` |
| App.VerifyCredentials | app.py:10-13 | credentials pass exactly when they are `admin` / `password123` |
| App.OneAccount | app.py:10-13 | only one pair of credentials passes |
| App.Classify | app.py:62-71 | zero says so; otherwise FizzBuzz exactly when divisible by 3 and 5, Fizz by 3 alone, Buzz by 5 alone, else the count itself |
| App.FizzBuzzIffFifteen | app.py:62-65 | FizzBuzz is shown exactly for non-zero multiples of 15, so zero (a multiple of both) is not |
| App.Render | app.py:62-71 | the text shown for a message; exactly the plain count is written after `Count: `, so the fixed messages never read as a count |
| App.RenderRoundTrip | app.py:62-71 | the text written for a message reads back as that message |
| App.RenderInjective | app.py:62-71 | different messages are written differently |
| App.OneMessagePerCount | app.py:62-71 | two counts shown the same way get the same message, and a `Count: n` text names its count |
| App.DateString | app.py:81 | `strftime("%d-%m-%Y")` is ten characters with dashes at 2 and 5; DateStringLayout adds what the fields between them hold |
| App.DateStringLayout | app.py:81 | `%d-%m-%Y` is ten characters: the day and month on two digits, the year on four, dashes at 2 and 5 |
| App.AttendanceFile | app.py:84 | the attendance path is 36 characters, from `Attendance/Attendance_` to `.csv`; AttendanceFileLayout adds that the date string fills 22..32 |
| App.AttendanceFileLayout | app.py:81-84 | the attendance path is 36 characters: the prefix, the date string, `.csv` |
| App.ParseAttendanceFile | app.py:81-84 | an attendance path it accepts is 36 characters long, starts with the prefix and names a real date |
| App.AttendanceFileRoundTrip | app.py:81-84 | the date reads back from its attendance file name |
| App.AttendanceFileInjective | app.py:81-84 | different dates read different files |
| App.AuthStep | app.py:16-31 | the flag after one run: a set flag stays set, a clicked right submission sets it, and nothing else does |
| App.AuthAfter | app.py:16-31 | the flag after a sequence of runs; a flag set before them is still set after them |
| App.AuthMonotone | app.py:16-31 | once `authenticated` is set, later runs never clear it |
| App.AuthIffLogin | app.py:16-31 | from a fresh session, the flag is set exactly when some run submitted the right credentials |
| App.Session.constructor | app.py:16 | a fresh session has no `authenticated` key |
| App.Session.Run | app.py:16-84 | one run: the flag defaults to false and becomes true on a right submission. An unauthenticated run shows the login form, success or rejection. An authenticated run shows the FizzBuzz message, the date string and the attendance path |

## Left out

- Camera, face detector, `cv2.waitKey` and the console name prompt are inputs (a frame list, rectangles, key values, a string). `video.release`, `cv2.destroyAllWindows`, the Haar cascade loading (`capture_samples.py:6-7`) and every `print` are not modelled.
- CaptureSamples.SaveFaces: crops are taken from the frame as read. In the script, `cv2.rectangle` (line 41) draws each face's box into the frame before the next face is cropped, so a later overlapping crop contains box pixels. Not modelled because it is drawing state with no bearing on which files are written or when the loop stops.
- CaptureSamples.Rectangular: frames are not required to be rectangular. Every result holds for any list of rows, and CropEmptyRectangular gives the numpy reading on rectangular frames.
- CaptureSamples.SampleImage: the saved image is the crop, not its 224x224 resize. Interpolation is floating-point image arithmetic outside this model; only the resize's failure on an empty crop is kept.
- `cv2.putText` and `cv2.imshow` (lines 43-48) are display only.
- `cv2.imwrite` is assumed to succeed. The script ignores its return value, and a write that fails still counts as a sample; the model lists the paths written.
- OsPath.Join: POSIX separators only; Windows drive letters and `\` are not modelled.
- OsPath.FileSystem.MakeDirs: directories are kept as path strings, not normalised. A name of `.`, `..` or `a//b` adds entries that the real `os.makedirs` would resolve to existing directories (or to `data/samples` itself). The model does not identify such aliases.
- OsPath.FileSystem.MakeDirs: the only failure modelled is the empty path. Permission errors, a file in the way, and races are file-system behaviour outside the model.
- App: Streamlit rendering, `st.set_page_config`, the sidebar clock (`time.time`, `%H:%M:%S`, lines 42-51) and the auto-refresh timer are left out. The refresh count is an input, and its limit of 100 is not imposed on it.
- App: reading the attendance CSV with pandas, the highlighted table and the `FileNotFoundError` message (lines 89-95) are left out. The model stops at the path that would be read.
- App.DateString: `%Y` is written on four digits, zero-padded. For years below 1000 this follows current CPython, whereas some platforms' `strftime` print fewer digits.
- The repository's other files (`face_detection.py`, `load_cascade.py`, `video_capture.py`, `setup_api.py`, `data_collection.py`, the web front end) are not part of this model.
