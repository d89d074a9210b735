# Face registration: matching policy and gallery bookkeeping

This project models `registration.py`, a short script that identifies known people in a probe photograph. It compares face embeddings against a gallery of labelled reference images. All the face work is done by the `face_recognition` library: image decoding, detection, embedding extraction, `compare_faces` and `face_distance`. The script itself owns two pieces of logic, and this model covers both:

- **Gallery loading** (`load_gallery_images`). The script walks the directory listing. For each file whose image yields at least one encoding, it appends the first encoding to one list and the file's stem to a parallel list. The stem is `os.path.splitext(name)[0]`.
- **Identification** (`identify_subjects_in_probe`). A probe with no faces yields a sentinel. Otherwise each face, in extractor order and numbered from 1, gets one result from a two-stage gate:
  1. If the library's match vector has no `True` entry, the result is a plain non-match. This includes the empty gallery.
  2. Otherwise the script takes numpy's `argmin` over all the distances; ties go to the first index. The face is identified, with confidence `1 - distance`, only if that distance is strictly below the threshold. Otherwise it is the below-threshold non-match.

The library stays opaque. Encodings are uninterpreted values (`Registration.Encoding`). The two comparison calls are function parameters, bundled in `Registration.Library`. The per-file extraction `face_encodings(load_image_file(join(dir, f)))` is the parameter `faceEncodingsOf`. Distances and the threshold are `real`, because the script only compares them and subtracts them.

Files:
- `path_text.dfy` (module `PathText`): POSIX `os.path.splitext` and the label it yields.
- `argmin.dfy` (module `Argmin`): numpy's stable argmin.
- `registration.dfy` (module `Registration`): the result datatypes, the two loops as methods, and their specification functions and lemmas.

The two loops are methods with `for` loops that append to local sequences, as the script does. Their loop invariants tie the accumulated sequences to pure specification functions: `KeptFiles` for the gallery and `FaceReports`/`Identification` for the probe. The lemmas state what the script promises about those functions.

In the code, a missing gallery directory or an unreadable image makes `os.listdir` or `load_image_file` raise. Both are I/O and are left out here. The model takes the listing and the per-file encodings as inputs.

## Model

| member | source | states |
|---|---|---|
| `PathText.LastIndexOf` | registration.py:20 | the `str.rfind` inside `os.path.splitext`: -1 or an index holding the character, with no occurrence after it |
| `PathText.Splitext` | registration.py:20 | the root and the extension concatenate back to the file name; a non-empty extension starts with its only '.' and contains no '/' |
| `PathText.SplitextHasExtension` | registration.py:20 | a name has an extension iff its last component has a non-'.' character followed later by a '.', so leading dots (".bashrc") do not start an extension |
| `PathText.StemNonEmpty` | registration.py:20 | a non-empty file name never yields an empty label |
| `PathText.StemWithoutDot` | registration.py:20 | a file name without a '.' is its own label |
| `PathText.StemExample` | registration.py:20 | "alice.jpg" gives the label "alice" |
| `PathText.SplitextLastDotExample` | registration.py:20 | "archive.tar.gz" splits at the last dot into "archive.tar" and ".gz" |
| `PathText.SplitextDotFileExample` | registration.py:20 | ".bashrc" has no extension: leading dots do not count |
| `Argmin.StableArgmin` | registration.py:44-45 | the selected index holds the minimum distance over all gallery entries, and every earlier index holds a strictly larger distance (ties go to the first index) |
| `Argmin.FirstMinimumUnique` | registration.py:44 | any index that is a first minimum is the index the scan returns |
| `Argmin.MinimumBelow` | registration.py:44-47 | the best distance is below a bound iff some gallery distance is |
| `Registration.KeptFiles` | registration.py:10-17 | every kept file's image yields at least one encoding; never more kept files than listed files |
| `Registration.KeptFilesMembers` | registration.py:10-17 | a file contributes an entry iff it is in the listing and its image yields at least one encoding |
| `Registration.KeptFilesAppend` | registration.py:10-18 | selecting files commutes with concatenating listings, so the kept files stay in listing order |
| `Registration.GalleryStep` | registration.py:16-20 | one loop iteration appends the first encoding and the stem exactly when the file yields an encoding, keeping both lists parallel to the kept files |
| `Registration.LoadGalleryImages` | registration.py:5-22 | the encodings and names lists have equal length, one entry per kept file in listing order; entry j is that file's first encoding and its stem |
| `Registration.Classify` | registration.py:36-51 | plain non-match iff no library match is true; identified iff some match is true and some gallery distance is strictly below the threshold; below-threshold iff some match is true and every distance is at least the threshold; the argmin is taken only after a true match, so never on an empty distance vector |
| `Registration.ClassifyIdentifiedBest` | registration.py:44-49 | an identified face carries the label of the first minimum-distance entry and confidence 1 minus its distance, which is below the threshold |
| `Registration.ClassifyThresholdMonotone` | registration.py:47 | raising the threshold keeps an identification unchanged; lowering it never turns a non-match into an identification |
| `Registration.ClassifyConfidence` | registration.py:47-49 | with non-negative distances the confidence lies in (1 - threshold, 1]; an exact match that passed stage 1 gets confidence 1 under a positive threshold |
| `Registration.FaceReportsAt` | registration.py:33-51 | the appended result list has one report per probe face; report i is face number i + 1, decided from probe encoding i alone |
| `Registration.IdentificationShape` | registration.py:28-34 | the no-faces sentinel appears iff the probe has no encodings; otherwise there is one report per face, in extractor order, numbered from 1 |
| `Registration.EmptyGalleryNoMatch` | registration.py:36-41 | against an empty gallery every detected face is a plain non-match |
| `Registration.IdentificationThresholdMonotone` | registration.py:47-51 | for a fixed gallery and probe, every face identified at a lower threshold is identified identically at a higher one |
| `Registration.IdentifySubjectsInProbe` | registration.py:24-53 | the method's outcome is the sentinel for a face-less probe, otherwise the report list built by appending one result per face as the specification functions define it |
| `Registration.AliceScenario` | registration.py:47-51 | gallery "alice", a matched face at distance 0.3 and threshold 0.6 give "alice" with confidence 0.7; at 0.65 the result is below-threshold; with no match the result is a plain non-match |

## Left out

- `face_recognition.load_image_file`, `face_encodings`, `compare_faces` and `face_distance` (registration.py:13, 16, 27-28, 36-37) are foreign library calls. They become inputs: the probe's encodings, the `Library` comparison functions, and `faceEncodingsOf`. The only assumption is that the match and distance vectors have the gallery's length.
- Registration.IdentifySubjectsInProbe: takes the probe's extracted encodings rather than the image path. Loading and extracting the probe is library I/O.
- Filesystem access, `os.listdir` and `os.path.join` (registration.py:10, 12), is I/O. The directory listing is a `seq<string>` input. The exceptions that a missing directory or an unreadable image raise are not modelled.
- The exact result strings and the `:.2f` formatting of the confidence (registration.py:40, 49, 51) are display formatting. Results are a datatype carrying the real-valued confidence.
- The module-level script (registration.py:55-71) is hard-coded paths and printing. Only its threshold, 0.6, appears, as `Registration.DefaultThreshold`.
- `cv2` is imported but unused (registration.py:3).
- Floating point: distances are reals, so NaN distances (where numpy's `argmin` picks the first NaN) and rounding are not modelled.
- PathText.Splitext: models the POSIX `posixpath.splitext` only. The Windows variant, with `\` and drive letters, is not modelled.
- Batch processing of probe folders, rendering, JSON persistence and command-line parsing do not appear in registration.py and are not part of this model.
