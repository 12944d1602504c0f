/** services/face_recognition_service.py: feature extraction (delegated to an
    external detector) and the threshold nearest-neighbour match of a probe
    vector against the plaintext templates of enrolled employees. */
module FaceRecognition {
  import opened Common
  import opened Schema
  import opened Primitives

  /** `FaceRecognitionService(threshold=0.6)`; main.py's inline copy uses the same value. */
  const DefaultThreshold: real := 0.6

  /** `face_recognition.face_encodings` on a decoded image: every face found, in order. */
  type Detector = Bytes -> seq<Vector>

  /** `np.linalg.norm(a - b)`, left abstract. */
  type Distance = (Vector, Vector) -> real

  /** What the matcher's guarantees about confidence need from a distance. */
  ghost predicate DistanceLaws(dist: Distance)
  {
    && (forall a, b :: dist(a, b) >= 0.0)
    && (forall a :: dist(a, a) == 0.0)
  }

  /** The outside collaborators of biometric matching. */
  datatype Biometrics = Biometrics(detect: Detector, dist: Distance, codecs: Codecs)

  datatype RecognitionError =
    | NoFaceDetected      // the ValueError of extract_face_encoding
    | UnreadableTemplate  // json.loads (or the vector arithmetic) raised on a stored template

  /** `extract_face_encoding`: the first face found, or an error when there is none. */
  function ExtractFaceEncoding(detect: Detector, image: Bytes): (r: Result<Vector, RecognitionError>)
    ensures r.Failure? <==> |detect(image)| == 0
    ensures r.Failure? ==> r.error == NoFaceDetected
    ensures r.Success? ==> r.value == detect(image)[0]
  {
    var faces := detect(image);
    if |faces| == 0 then Failure(NoFaceDetected) else Success(faces[0])
  }

  /** `np.array(json.loads(empleado.DatosBiometricos))` when it is a flat list
      of numbers, and `None` otherwise: a missing template, text that is not
      JSON, or any other JSON value. numpy would broadcast a bare number or a
      list holding one list of numbers against the probe; the model counts
      those as unreadable too. */
  function StoredVector(c: Codecs, e: Empleado): Option<Vector>
  {
    match e.datosBiometricos
    case None => None
    case Some(text) =>
      match c.jsonLoads(text)
      case None => None
      case Some(v) => AsVector(v)
  }

  predicate Readable(c: Codecs, e: Empleado)
  {
    StoredVector(c, e).Some?
  }

  /** Distance from the probe to an employee's template (0.0 for an
      unreadable one, a case the matcher never reaches). */
  function DistanceTo(b: Biometrics, probe: Vector, e: Empleado): real
  {
    match StoredVector(b.codecs, e)
    case None => 0.0
    case Some(v) => b.dist(probe, v)
  }

  /** The distances of all candidates, in iteration order. */
  function Profile(b: Biometrics, probe: Vector, stored: seq<Empleado>): (ds: seq<real>)
    ensures |ds| == |stored|
    ensures forall i :: 0 <= i < |stored| ==> ds[i] == DistanceTo(b, probe, stored[i])
  {
    seq(|stored|, i requires 0 <= i < |stored| => DistanceTo(b, probe, stored[i]))
  }

  /** Position `i` holds the smallest distance and nothing before it is as
      small: the candidate a first-wins minimum search settles on. */
  ghost predicate IsFirstMinimum(ds: seq<real>, i: int)
  {
    && 0 <= i < |ds|
    && (forall j :: 0 <= j < |ds| ==> ds[i] <= ds[j])
    && (forall j :: 0 <= j < i ==> ds[i] < ds[j])
  }

  /** The loop state of `compare_faces`: the best index so far and the running
      bound `mejor_confianza`, which starts at the threshold. */
  datatype Best = Best(index: Option<nat>, bound: real)

  /** The loop of `compare_faces` as a left fold over the distances: a
      candidate replaces the current best only when strictly closer than the
      running bound. What the fold finds is stated by `ScanSpec`. */
  function Scan(ds: seq<real>, threshold: real): (b: Best)
    ensures b.index.Some? ==> b.index.value < |ds| && b.bound == ds[b.index.value]
  {
    if |ds| == 0 then Best(None, threshold)
    else
      var prev := Scan(ds[..|ds| - 1], threshold);
      var last := ds[|ds| - 1];
      if last < prev.bound then Best(Some(|ds| - 1), last) else prev
  }

  /** The fold never raises its bound above the threshold; it finds nothing
      exactly when no distance is below the threshold, and otherwise it ends on
      the first minimum, strictly below the threshold. */
  lemma {:induction false} ScanSpec(ds: seq<real>, threshold: real)
    ensures var b := Scan(ds, threshold);
      && b.bound <= threshold
      && (b.index.None? <==> forall j :: 0 <= j < |ds| ==> ds[j] >= threshold)
      && (b.index.None? ==> b.bound == threshold)
      && (b.index.Some? ==> IsFirstMinimum(ds, b.index.value) && b.bound < threshold)
  {
    if |ds| > 0 {
      var init := ds[..|ds| - 1];
      ScanSpec(init, threshold);
      assert forall j :: 0 <= j < |init| ==> init[j] == ds[j];
    }
  }

  /** A first minimum is unique. */
  lemma FirstMinimumUnique(ds: seq<real>, i: int, k: int)
    requires IsFirstMinimum(ds, i) && IsFirstMinimum(ds, k)
    ensures i == k
  {
    assert ds[i] <= ds[k] && ds[k] <= ds[i];
  }

  /** The fold agrees with the declarative rule: when the first minimum is
      below the threshold, the scan returns exactly it. */
  lemma ScanFindsFirstMinimum(ds: seq<real>, threshold: real, i: int)
    requires IsFirstMinimum(ds, i) && ds[i] < threshold
    ensures Scan(ds, threshold) == Best(Some(i), ds[i])
  {
    var b := Scan(ds, threshold);
    ScanSpec(ds, threshold);
    assert b.index.Some? by {
      assert ds[i] < threshold;
    }
    FirstMinimumUnique(ds, b.index.value, i);
  }

  datatype Match =
    | NoMatch                                               // (None, None)
    | Match(index: nat, empleado: Empleado, confidence: real)  // (empleado, 1 - distance)

  /** `compare_faces(face_encoding, stored_encodings)`: the earliest candidate
      at the smallest distance, provided that distance is strictly below the
      threshold, with confidence `1 - distance`. Any unreadable stored
      template makes the call raise. */
  function CompareFaces(b: Biometrics, threshold: real, probe: Vector, stored: seq<Empleado>): (r: Result<Match, RecognitionError>)
    ensures r.Failure? <==> exists i :: 0 <= i < |stored| && !Readable(b.codecs, stored[i])
    ensures r.Failure? ==> r.error == UnreadableTemplate
    ensures r.Success? ==>
      (r.value.NoMatch? <==> forall j :: 0 <= j < |stored| ==> DistanceTo(b, probe, stored[j]) >= threshold)
    ensures r.Success? && r.value.Match? ==>
      var i := r.value.index;
      && i < |stored|
      && r.value.empleado == stored[i]
      && IsFirstMinimum(Profile(b, probe, stored), i)
      && DistanceTo(b, probe, stored[i]) < threshold
      && r.value.confidence == 1.0 - DistanceTo(b, probe, stored[i])
  {
    if exists i :: 0 <= i < |stored| && !Readable(b.codecs, stored[i]) then
      Failure(UnreadableTemplate)
    else
      var best := Scan(Profile(b, probe, stored), threshold);
      ScanSpec(Profile(b, probe, stored), threshold);
      match best.index
      case None => Success(NoMatch)
      case Some(i) => Success(Match(i, stored[i], 1.0 - best.bound))
  }

  /** One step of the fold: the next distance replaces the best so far only
      when strictly below its bound. */
  lemma ScanStep(ds: seq<real>, threshold: real, k: nat)
    requires k < |ds|
    ensures var prev := Scan(ds[..k], threshold);
      Scan(ds[..k + 1], threshold) == if ds[k] < prev.bound then Best(Some(k), ds[k]) else prev
  {
    assert ds[..k + 1][..k] == ds[..k];
  }

  /** With every template readable, the answer is read off the fold. */
  lemma CompareFacesFromScan(b: Biometrics, threshold: real, probe: Vector, stored: seq<Empleado>, index: Option<nat>, bound: real)
    requires forall j :: 0 <= j < |stored| ==> Readable(b.codecs, stored[j])
    requires Scan(Profile(b, probe, stored), threshold) == Best(index, bound)
    ensures index.Some? ==> index.value < |stored|
    ensures CompareFaces(b, threshold, probe, stored)
      == match index
         case None => Success(NoMatch)
         case Some(i) => Success(Match(i, stored[i], 1.0 - bound))
  {
  }

  /** The iterative form of `compare_faces`, as the source writes it: one pass,
      raising at the first unreadable template, keeping the running best. */
  method CompareFacesLoop(b: Biometrics, threshold: real, probe: Vector, stored: seq<Empleado>)
    returns (r: Result<Match, RecognitionError>)
    ensures r == CompareFaces(b, threshold, probe, stored)
  {
    var mejorEmpleado: Option<nat> := None;
    var mejorConfianza := threshold;
    ghost var ds := Profile(b, probe, stored);
    var k := 0;
    while k < |stored|
      invariant 0 <= k <= |stored|
      invariant forall j :: 0 <= j < k ==> Readable(b.codecs, stored[j])
      invariant Scan(ds[..k], threshold) == Best(mejorEmpleado, mejorConfianza)
    {
      var v := StoredVector(b.codecs, stored[k]);
      if v.None? {
        assert !Readable(b.codecs, stored[k]);
        return Failure(UnreadableTemplate);
      }
      assert Readable(b.codecs, stored[k]);
      var distancia := b.dist(probe, v.value);
      ScanStep(ds, threshold, k);
      if distancia < mejorConfianza {
        mejorConfianza := distancia;
        mejorEmpleado := Some(k);
      }
      k := k + 1;
    }
    assert ds[..k] == ds;
    CompareFacesFromScan(b, threshold, probe, stored, mejorEmpleado, mejorConfianza);
    match mejorEmpleado
    case None => r := Success(NoMatch);
    case Some(i) => r := Success(Match(i, stored[i], 1.0 - mejorConfianza));
  }

  /** With nothing to compare against, the answer is "no match", not an error. */
  lemma EmptyCandidatesNoMatch(b: Biometrics, threshold: real, probe: Vector)
    ensures CompareFaces(b, threshold, probe, []) == Success(NoMatch)
  {
  }

  /** A candidate exactly at the threshold never qualifies; one just below it does
      when it is the only candidate. */
  lemma ThresholdIsStrict(b: Biometrics, threshold: real, probe: Vector, e: Empleado)
    requires Readable(b.codecs, e)
    ensures DistanceTo(b, probe, e) == threshold ==> CompareFaces(b, threshold, probe, [e]) == Success(NoMatch)
    ensures DistanceTo(b, probe, e) < threshold ==> CompareFaces(b, threshold, probe, [e]) == Success(Match(0, e, 1.0 - DistanceTo(b, probe, e)))
  {
    var ds := Profile(b, probe, [e]);
    if DistanceTo(b, probe, e) < threshold {
      assert IsFirstMinimum(ds, 0);
      ScanFindsFirstMinimum(ds, threshold, 0);
    }
  }

  /** Confidence lies in (1 - threshold, 1]. */
  lemma ConfidenceBounds(b: Biometrics, threshold: real, probe: Vector, stored: seq<Empleado>)
    requires DistanceLaws(b.dist)
    ensures var r := CompareFaces(b, threshold, probe, stored);
      r.Success? && r.value.Match? ==> 1.0 - threshold < r.value.confidence <= 1.0
  {
    var r := CompareFaces(b, threshold, probe, stored);
    if r.Success? && r.value.Match? {
      var i := r.value.index;
      var v := StoredVector(b.codecs, stored[i]).value;
      assert b.dist(probe, v) >= 0.0;
    }
  }

  /** A probe identical to a readable stored template is recognised with
      confidence 1.0 (by that candidate or an earlier one at distance 0). */
  lemma IdenticalProbeFullConfidence(b: Biometrics, threshold: real, probe: Vector, stored: seq<Empleado>, k: nat)
    requires DistanceLaws(b.dist) && threshold > 0.0
    requires forall i :: 0 <= i < |stored| ==> Readable(b.codecs, stored[i])
    requires k < |stored| && StoredVector(b.codecs, stored[k]) == Some(probe)
    ensures var r := CompareFaces(b, threshold, probe, stored);
      r.Success? && r.value.Match? && r.value.index <= k && r.value.confidence == 1.0
  {
    var ds := Profile(b, probe, stored);
    assert ds[k] == 0.0;
    var r := CompareFaces(b, threshold, probe, stored);
    assert !r.value.NoMatch? by {
      assert DistanceTo(b, probe, stored[k]) < threshold;
    }
    var i := r.value.index;
    assert ds[i] <= ds[k];
    assert ds[i] >= 0.0 by {
      assert b.dist(probe, StoredVector(b.codecs, stored[i]).value) >= 0.0;
    }
  }

  /** Two candidate lists that carry the same plaintext templates, position by
      position. Nothing else of a row (encrypted columns, state, area) matters. */
  ghost predicate SameTemplates(s: seq<Empleado>, t: seq<Empleado>)
  {
    |s| == |t| && forall i :: 0 <= i < |s| ==> s[i].datosBiometricos == t[i].datosBiometricos
  }

  /** Matching reads only `DatosBiometricos`: candidate lists that agree on
      it give the same outcome, index and confidence. */
  lemma MatchReadsOnlyTemplates(b: Biometrics, threshold: real, probe: Vector, s: seq<Empleado>, t: seq<Empleado>)
    requires SameTemplates(s, t)
    ensures CompareFaces(b, threshold, probe, s).Failure? == CompareFaces(b, threshold, probe, t).Failure?
    ensures var rs, rt := CompareFaces(b, threshold, probe, s), CompareFaces(b, threshold, probe, t);
      rs.Success? ==> rs.value.NoMatch? == rt.value.NoMatch?
    ensures var rs, rt := CompareFaces(b, threshold, probe, s), CompareFaces(b, threshold, probe, t);
      rs.Success? && rs.value.Match? ==> rs.value.index == rt.value.index && rs.value.confidence == rt.value.confidence
  {
    assert forall i :: 0 <= i < |s| ==> StoredVector(b.codecs, s[i]) == StoredVector(b.codecs, t[i]);
    assert Profile(b, probe, s) == Profile(b, probe, t);
  }

  /** Extraction followed by matching: the shared first half of every facial
      access attempt. */
  function Recognize(b: Biometrics, threshold: real, image: Bytes, stored: seq<Empleado>): (r: Result<Match, RecognitionError>)
    ensures r == Failure(NoFaceDetected) <==> |b.detect(image)| == 0
    ensures |b.detect(image)| > 0 ==> r == CompareFaces(b, threshold, b.detect(image)[0], stored)
  {
    match ExtractFaceEncoding(b.detect, image)
    case Failure(e) => Failure(e)
    case Success(probe) => CompareFaces(b, threshold, probe, stored)
  }
}
