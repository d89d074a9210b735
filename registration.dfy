/**
 * The face-matching policy and gallery bookkeeping of `registration.py`.
 *
 * The face-recognition library is outside this model: the encodings it
 * extracts are opaque values, and its two comparison calls (`compare_faces`
 * and `face_distance`) are function parameters bundled in `Library`. Over
 * those inputs the module models
 *  - `LoadGalleryImages`: keep the files whose image yields at least one
 *    encoding, take the first encoding, label it with the file's stem;
 *  - `IdentifySubjectsInProbe`: one result per probe face, decided by the
 *    two-stage gate (library match vector, then the numeric threshold on the
 *    stable-argmin distance).
 */
module Registration {
  import opened PathText
  import opened Argmin

  /** A face embedding as the library produces it; the model never looks inside. */
  type Encoding = seq<real>

  /** The threshold the script passes (and the parameter's default). */
  const DefaultThreshold: real := 0.6

  /**
   * The library's comparisons of one probe encoding against the gallery:
   * `compareFaces` gives the boolean match vector, `faceDistance` the
   * distance vector, both indexed like the gallery.
   */
  datatype Library = Library(
    compareFaces: (seq<Encoding>, Encoding) -> seq<bool>,
    faceDistance: (seq<Encoding>, Encoding) -> seq<real>)

  /** The outcome for one detected probe face. */
  datatype FaceResult =
    | NoMatch                                      // no gallery entry passed the library's match test
    | BelowThreshold                               // some entry matched, but the best distance is not below the threshold
    | Identified(name: string, confidence: real)   // label of the best entry, confidence `1 - distance`

  /** The result line of face number `face` (1-based, extractor order). */
  datatype FaceReport = FaceReport(face: nat, result: FaceResult)

  /** What one probe image yields: the "no faces detected" sentinel, or one report per face. */
  datatype ProbeOutcome = NoFaces | Results(reports: seq<FaceReport>)

  // ---------------------------------------------------------------------------
  // Gallery loading
  // ---------------------------------------------------------------------------

  /**
   * The files of the listing that contribute a gallery entry, in listing
   * order: those whose image yields at least one encoding.
   */
  function KeptFiles(listing: seq<string>, faceEncodingsOf: string -> seq<Encoding>): (kept: seq<string>)
    ensures |kept| <= |listing|
    ensures forall j :: 0 <= j < |kept| ==> faceEncodingsOf(kept[j]) != []
  {
    if listing == [] then []
    else
      (if faceEncodingsOf(listing[0]) != [] then [listing[0]] else [])
      + KeptFiles(listing[1..], faceEncodingsOf)
  }

  /** A file contributes an entry exactly when it is listed and its image yields an encoding. */
  lemma {:induction false} KeptFilesMembers(listing: seq<string>, faceEncodingsOf: string -> seq<Encoding>, f: string)
    ensures f in KeptFiles(listing, faceEncodingsOf) <==> f in listing && faceEncodingsOf(f) != []
  {
    if listing != [] {
      KeptFilesMembers(listing[1..], faceEncodingsOf, f);
      assert listing == [listing[0]] + listing[1..];
    }
  }

  /** `names` and `encodings` are parallel, entry j built from kept file j. */
  ghost predicate GalleryBuiltFrom(kept: seq<string>, faceEncodingsOf: string -> seq<Encoding>,
                                   knownEncodings: seq<Encoding>, knownNames: seq<string>)
  {
    |knownEncodings| == |kept| && |knownNames| == |kept| &&
    forall j :: 0 <= j < |kept| ==>
      faceEncodingsOf(kept[j]) != [] && knownEncodings[j] == faceEncodingsOf(kept[j])[0] && knownNames[j] == Stem(kept[j])
  }

  /** Filtering commutes with concatenation, so the listing order is kept. */
  lemma {:induction false} KeptFilesAppend(a: seq<string>, b: seq<string>, faceEncodingsOf: string -> seq<Encoding>)
    ensures KeptFiles(a + b, faceEncodingsOf) == KeptFiles(a, faceEncodingsOf) + KeptFiles(b, faceEncodingsOf)
  {
    if a != [] {
      assert (a + b)[1..] == a[1..] + b;
      KeptFilesAppend(a[1..], b, faceEncodingsOf);
    } else {
      assert a + b == b;
    }
  }

  /** One iteration of the loader keeps the lists built from the kept files of the longer prefix. */
  lemma GalleryStep(prefix: seq<string>, fileName: string, faceEncodingsOf: string -> seq<Encoding>,
                    knownEncodings: seq<Encoding>, knownNames: seq<string>)
    requires GalleryBuiltFrom(KeptFiles(prefix, faceEncodingsOf), faceEncodingsOf, knownEncodings, knownNames)
    ensures var encodings := faceEncodingsOf(fileName);
      if encodings != [] then
        GalleryBuiltFrom(KeptFiles(prefix + [fileName], faceEncodingsOf), faceEncodingsOf,
                         knownEncodings + [encodings[0]], knownNames + [Stem(fileName)])
      else
        GalleryBuiltFrom(KeptFiles(prefix + [fileName], faceEncodingsOf), faceEncodingsOf, knownEncodings, knownNames)
  {
    KeptFilesAppend(prefix, [fileName], faceEncodingsOf);
    assert KeptFiles([fileName], faceEncodingsOf) == if faceEncodingsOf(fileName) != [] then [fileName] else [];
  }

  /**
   * `load_gallery_images`: walk the directory listing; for a file whose image
   * yields encodings, append its first encoding and its stem. The two lists
   * stay parallel and follow the listing order of the kept files.
   * `faceEncodingsOf(f)` stands for `face_encodings(load_image_file(join(dir, f)))`.
   */
  method LoadGalleryImages(listing: seq<string>, faceEncodingsOf: string -> seq<Encoding>)
    returns (knownEncodings: seq<Encoding>, knownNames: seq<string>)
    ensures |knownEncodings| == |knownNames| == |KeptFiles(listing, faceEncodingsOf)|
    ensures forall j :: 0 <= j < |knownNames| ==>
      var f := KeptFiles(listing, faceEncodingsOf)[j];
      knownEncodings[j] == faceEncodingsOf(f)[0] && knownNames[j] == Stem(f)
  {
    knownEncodings, knownNames := [], [];
    for i := 0 to |listing|
      invariant GalleryBuiltFrom(KeptFiles(listing[..i], faceEncodingsOf), faceEncodingsOf, knownEncodings, knownNames)
    {
      var fileName := listing[i];
      var encodings := faceEncodingsOf(fileName);
      GalleryStep(listing[..i], fileName, faceEncodingsOf, knownEncodings, knownNames);
      assert listing[..i + 1] == listing[..i] + [fileName];
      if encodings != [] {
        knownEncodings := knownEncodings + [encodings[0]];
        knownNames := knownNames + [Stem(fileName)];
      }
    }
    assert listing[..|listing|] == listing;
  }

  // ---------------------------------------------------------------------------
  // Matching
  // ---------------------------------------------------------------------------

  /** Python's `any(matches)`. */
  predicate AnyMatch(matches: seq<bool>)
  {
    exists j :: 0 <= j < |matches| && matches[j]
  }

  /**
   * The decision for one probe face from its match and distance vectors:
   * stage 1 is the library's match vector, stage 2 the threshold on the
   * distance of the stable argmin over all gallery entries.
   */
  function Classify(matches: seq<bool>, distances: seq<real>, knownNames: seq<string>, threshold: real): (r: FaceResult)
    requires |matches| == |knownNames| && |distances| == |knownNames|
    ensures r == NoMatch <==> !AnyMatch(matches)
    ensures r.Identified? <==>
      AnyMatch(matches) && exists k :: 0 <= k < |distances| && distances[k] < threshold
    ensures r == BelowThreshold <==>
      AnyMatch(matches) && forall k :: 0 <= k < |distances| ==> threshold <= distances[k]
  {
    if !AnyMatch(matches) then NoMatch
    else
      var best := StableArgmin(distances);
      MinimumBelow(distances, threshold);
      if distances[best] < threshold then Identified(knownNames[best], 1.0 - distances[best])
      else BelowThreshold
  }

  /** An identified face carries the label and `1 - distance` of the first closest gallery entry. */
  lemma ClassifyIdentifiedBest(matches: seq<bool>, distances: seq<real>, knownNames: seq<string>, threshold: real)
    requires |matches| == |knownNames| && |distances| == |knownNames|
    requires Classify(matches, distances, knownNames, threshold).Identified?
    ensures exists k :: (IsFirstMinimum(distances, k) && distances[k] < threshold &&
      Classify(matches, distances, knownNames, threshold) == Identified(knownNames[k], 1.0 - distances[k]))
  {
  }

  /**
   * Raising the threshold never turns an identification into a non-match
   * (and the identification stays the same); lowering it never turns a
   * non-match into an identification.
   */
  lemma ClassifyThresholdMonotone(matches: seq<bool>, distances: seq<real>, knownNames: seq<string>, low: real, high: real)
    requires |matches| == |knownNames| && |distances| == |knownNames|
    requires low <= high
    ensures Classify(matches, distances, knownNames, low).Identified? ==>
      Classify(matches, distances, knownNames, high) == Classify(matches, distances, knownNames, low)
    ensures !Classify(matches, distances, knownNames, high).Identified? ==>
      !Classify(matches, distances, knownNames, low).Identified?
  {
  }

  /**
   * With non-negative distances the confidence of an identification is at
   * most 1 and above `1 - threshold`; an exact match (distance 0) of a face
   * that passed stage 1 is identified with confidence exactly 1 whenever the
   * threshold is positive.
   */
  lemma ClassifyConfidence(matches: seq<bool>, distances: seq<real>, knownNames: seq<string>, threshold: real)
    requires |matches| == |knownNames| && |distances| == |knownNames|
    requires forall k :: 0 <= k < |distances| ==> 0.0 <= distances[k]
    ensures Classify(matches, distances, knownNames, threshold).Identified? ==>
      1.0 - threshold < Classify(matches, distances, knownNames, threshold).confidence <= 1.0
    ensures AnyMatch(matches) && 0.0 < threshold && (exists k :: 0 <= k < |distances| && distances[k] == 0.0) ==>
      Classify(matches, distances, knownNames, threshold).Identified? &&
      Classify(matches, distances, knownNames, threshold).confidence == 1.0
  {
  }

  /** Every probe encoding gets match and distance vectors of the gallery's length. */
  ghost predicate LibraryShapes(lib: Library, knownEncodings: seq<Encoding>, probeEncodings: seq<Encoding>)
  {
    forall i :: 0 <= i < |probeEncodings| ==>
      |lib.compareFaces(knownEncodings, probeEncodings[i])| == |knownEncodings| &&
      |lib.faceDistance(knownEncodings, probeEncodings[i])| == |knownEncodings|
  }

  /** The result of one loop iteration: compare one probe encoding and classify it. */
  function FaceResultOf(probe: Encoding, knownEncodings: seq<Encoding>, knownNames: seq<string>, threshold: real, lib: Library): (r: FaceResult)
    requires |knownNames| == |knownEncodings|
    requires |lib.compareFaces(knownEncodings, probe)| == |knownEncodings|
    requires |lib.faceDistance(knownEncodings, probe)| == |knownEncodings|
  {
    Classify(lib.compareFaces(knownEncodings, probe), lib.faceDistance(knownEncodings, probe), knownNames, threshold)
  }

  /** The result list built by appending one report per probe face, numbered from 1. */
  function FaceReports(probeEncodings: seq<Encoding>, knownEncodings: seq<Encoding>, knownNames: seq<string>, threshold: real, lib: Library): (reports: seq<FaceReport>)
    requires |knownNames| == |knownEncodings|
    requires LibraryShapes(lib, knownEncodings, probeEncodings)
    decreases |probeEncodings|
  {
    if probeEncodings == [] then []
    else
      var n := |probeEncodings| - 1;
      FaceReports(probeEncodings[..n], knownEncodings, knownNames, threshold, lib)
      + [FaceReport(n + 1, FaceResultOf(probeEncodings[n], knownEncodings, knownNames, threshold, lib))]
  }

  /** Report `i` is face number `i + 1`, decided from probe encoding `i` alone. */
  lemma {:induction false} FaceReportsAt(probeEncodings: seq<Encoding>, knownEncodings: seq<Encoding>, knownNames: seq<string>, threshold: real, lib: Library)
    requires |knownNames| == |knownEncodings|
    requires LibraryShapes(lib, knownEncodings, probeEncodings)
    ensures |FaceReports(probeEncodings, knownEncodings, knownNames, threshold, lib)| == |probeEncodings|
    ensures forall i :: 0 <= i < |probeEncodings| ==>
      FaceReports(probeEncodings, knownEncodings, knownNames, threshold, lib)[i] ==
      FaceReport(i + 1, FaceResultOf(probeEncodings[i], knownEncodings, knownNames, threshold, lib))
  {
    if probeEncodings != [] {
      var n := |probeEncodings| - 1;
      FaceReportsAt(probeEncodings[..n], knownEncodings, knownNames, threshold, lib);
    }
  }

  /** `identify_subjects_in_probe` as a function of the extracted probe encodings. */
  function Identification(probeEncodings: seq<Encoding>, knownEncodings: seq<Encoding>, knownNames: seq<string>, threshold: real, lib: Library): (outcome: ProbeOutcome)
    requires |knownNames| == |knownEncodings|
    requires LibraryShapes(lib, knownEncodings, probeEncodings)
  {
    if probeEncodings == [] then NoFaces
    else Results(FaceReports(probeEncodings, knownEncodings, knownNames, threshold, lib))
  }

  /**
   * The sentinel appears exactly when the probe has no face; otherwise there
   * is one report per face, in extractor order, numbered from 1.
   */
  lemma IdentificationShape(probeEncodings: seq<Encoding>, knownEncodings: seq<Encoding>, knownNames: seq<string>, threshold: real, lib: Library)
    requires |knownNames| == |knownEncodings|
    requires LibraryShapes(lib, knownEncodings, probeEncodings)
    ensures var outcome := Identification(probeEncodings, knownEncodings, knownNames, threshold, lib);
      (outcome == NoFaces <==> probeEncodings == []) &&
      (outcome.Results? ==>
        |outcome.reports| == |probeEncodings| &&
        forall i :: 0 <= i < |probeEncodings| ==>
          outcome.reports[i].face == i + 1 &&
          outcome.reports[i].result == FaceResultOf(probeEncodings[i], knownEncodings, knownNames, threshold, lib))
  {
    FaceReportsAt(probeEncodings, knownEncodings, knownNames, threshold, lib);
  }

  /** Against an empty gallery every detected face is a plain non-match. */
  lemma EmptyGalleryNoMatch(probeEncodings: seq<Encoding>, knownNames: seq<string>, threshold: real, lib: Library)
    requires knownNames == []
    requires LibraryShapes(lib, [], probeEncodings)
    ensures var outcome := Identification(probeEncodings, [], knownNames, threshold, lib);
      outcome.Results? ==> forall i :: 0 <= i < |outcome.reports| ==> outcome.reports[i].result == NoMatch
  {
    FaceReportsAt(probeEncodings, [], knownNames, threshold, lib);
  }

  /** Raising the threshold keeps every identified face identified, with the same label and confidence. */
  lemma IdentificationThresholdMonotone(probeEncodings: seq<Encoding>, knownEncodings: seq<Encoding>, knownNames: seq<string>, low: real, high: real, lib: Library)
    requires |knownNames| == |knownEncodings|
    requires LibraryShapes(lib, knownEncodings, probeEncodings)
    requires low <= high
    ensures var atLow := Identification(probeEncodings, knownEncodings, knownNames, low, lib);
      var atHigh := Identification(probeEncodings, knownEncodings, knownNames, high, lib);
      probeEncodings != [] ==>
      forall i :: 0 <= i < |atLow.reports| && atLow.reports[i].result.Identified? ==>
        i < |atHigh.reports| && atHigh.reports[i] == atLow.reports[i]
  {
    FaceReportsAt(probeEncodings, knownEncodings, knownNames, low, lib);
    FaceReportsAt(probeEncodings, knownEncodings, knownNames, high, lib);
    forall i | 0 <= i < |probeEncodings|
      ensures var p := probeEncodings[i];
        Classify(lib.compareFaces(knownEncodings, p), lib.faceDistance(knownEncodings, p), knownNames, low).Identified? ==>
        Classify(lib.compareFaces(knownEncodings, p), lib.faceDistance(knownEncodings, p), knownNames, high) ==
        Classify(lib.compareFaces(knownEncodings, p), lib.faceDistance(knownEncodings, p), knownNames, low)
    {
      var p := probeEncodings[i];
      ClassifyThresholdMonotone(lib.compareFaces(knownEncodings, p), lib.faceDistance(knownEncodings, p), knownNames, low, high);
    }
  }

  /**
   * `identify_subjects_in_probe`: the sentinel for a probe without faces,
   * otherwise one report per face, appended in extractor order; a face
   * without any library match is reported at once and the distances are
   * not consulted for it.
   */
  method IdentifySubjectsInProbe(probeEncodings: seq<Encoding>, knownEncodings: seq<Encoding>, knownNames: seq<string>, threshold: real, lib: Library)
    returns (outcome: ProbeOutcome)
    requires |knownNames| == |knownEncodings|
    requires LibraryShapes(lib, knownEncodings, probeEncodings)
    ensures outcome == Identification(probeEncodings, knownEncodings, knownNames, threshold, lib)
  {
    if probeEncodings == [] {
      return NoFaces;
    }
    var results: seq<FaceReport> := [];
    for i := 0 to |probeEncodings|
      invariant results == FaceReports(probeEncodings[..i], knownEncodings, knownNames, threshold, lib)
    {
      assert probeEncodings[..i + 1][..i] == probeEncodings[..i];
      var matches := lib.compareFaces(knownEncodings, probeEncodings[i]);
      var distances := lib.faceDistance(knownEncodings, probeEncodings[i]);
      if !AnyMatch(matches) {
        results := results + [FaceReport(i + 1, NoMatch)];
        continue;
      }
      var bestMatchIndex := StableArgmin(distances);
      var bestMatchDistance := distances[bestMatchIndex];
      if bestMatchDistance < threshold {
        results := results + [FaceReport(i + 1, Identified(knownNames[bestMatchIndex], 1.0 - bestMatchDistance))];
      } else {
        results := results + [FaceReport(i + 1, BelowThreshold)];
      }
    }
    assert probeEncodings[..|probeEncodings|] == probeEncodings;
    outcome := Results(results);
  }

  /**
   * The worked example: gallery entry "alice", a probe face at distance 0.3
   * that the library matches, threshold 0.6 gives "alice" with confidence
   * 0.7; at distance 0.65 the same face is a below-threshold non-match.
   */
  lemma AliceScenario()
    ensures Classify([true], [0.3], ["alice"], DefaultThreshold) == Identified("alice", 0.7)
    ensures Classify([true], [0.65], ["alice"], DefaultThreshold) == BelowThreshold
    ensures Classify([false], [0.3], ["alice"], DefaultThreshold) == NoMatch
  {
    assert AnyMatch([true]) by { assert [true][0]; }
  }
}
