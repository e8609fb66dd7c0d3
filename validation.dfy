/** The checks run on the six loaded faces before anything is produced: the
    first face must be square, and every face must have the first face's
    colour mode and size. */
module Validation {

  /** What the checks look at in a loaded image: its size and colour mode. */
  datatype FaceInfo = FaceInfo(width: nat, height: nat, mode: string)

  /** Why the faces were refused; the face is its position in the list. */
  datatype ValidationError =
    | NonSquareFace
    | InconsistentMode(face: nat)
    | InconsistentSize(face: nat)

  /** On success the common side length of the faces. */
  datatype Result = Ok(side: nat) | Err(error: ValidationError)

  predicate SameMode(f: FaceInfo, reference: FaceInfo)
  {
    f.mode == reference.mode
  }

  predicate SameSize(f: FaceInfo, reference: FaceInfo)
  {
    f.width == reference.width && f.height == reference.height
  }

  predicate Matches(f: FaceInfo, reference: FaceInfo)
  {
    SameMode(f, reference) && SameSize(f, reference)
  }

  /** The first position at or after `from` whose face does not match
      `reference`, or |faces| when there is none. */
  function FirstMismatch(faces: seq<FaceInfo>, reference: FaceInfo, from: nat): (k: nat)
    requires from <= |faces|
    ensures from <= k <= |faces|
    ensures forall j :: from <= j < k ==> Matches(faces[j], reference)
    ensures k < |faces| ==> !Matches(faces[k], reference)
    decreases |faces| - from
  {
    if from == |faces| then from
    else if !Matches(faces[from], reference) then from
    else FirstMismatch(faces, reference, from + 1)
  }

  /** The outcome of the checks: squareness of the first face first, then,
      face by face in list order, the mode before the size. */
  function Validate(faces: seq<FaceInfo>): (r: Result)
    requires |faces| > 0
    ensures r.Ok? <==>
              faces[0].width == faces[0].height &&
              forall j :: 0 <= j < |faces| ==> Matches(faces[j], faces[0])
    ensures r.Ok? ==> r.side == faces[0].width == faces[0].height
    ensures r == Err(NonSquareFace) <==> faces[0].width != faces[0].height
    ensures r.Err? && r.error.InconsistentMode? ==>
              var k := r.error.face;
              && faces[0].width == faces[0].height
              && k < |faces|
              && !SameMode(faces[k], faces[0])
              && forall j :: 0 <= j < k ==> Matches(faces[j], faces[0])
    ensures r.Err? && r.error.InconsistentSize? ==>
              var k := r.error.face;
              && faces[0].width == faces[0].height
              && k < |faces|
              && SameMode(faces[k], faces[0])
              && !SameSize(faces[k], faces[0])
              && forall j :: 0 <= j < k ==> Matches(faces[j], faces[0])
  {
    var first := faces[0];
    if first.width != first.height then Err(NonSquareFace)
    else
      var k := FirstMismatch(faces, first, 0);
      if k == |faces| then Ok(first.width)
      else if !SameMode(faces[k], first) then Err(InconsistentMode(k))
      else Err(InconsistentSize(k))
  }

  /** The check loop as the converter runs it: stop at the first face whose
      mode, or else whose size, differs from the first face's. */
  method CheckFaces(faces: seq<FaceInfo>) returns (r: Result)
    requires |faces| > 0
    ensures r == Validate(faces)
  {
    var w, h, mode := faces[0].width, faces[0].height, faces[0].mode;
    if w != h {
      return Err(NonSquareFace);
    }
    for i := 0 to |faces|
      invariant forall j :: 0 <= j < i ==> Matches(faces[j], faces[0])
      invariant FirstMismatch(faces, faces[0], 0) == FirstMismatch(faces, faces[0], i)
    {
      if faces[i].mode != mode {
        return Err(InconsistentMode(i));
      }
      if (faces[i].width, faces[i].height) != (w, h) {
        return Err(InconsistentSize(i));
      }
    }
    r := Ok(w);
  }

  /** Any face that differs from the first one, in mode or in size, makes the
      whole set invalid. */
  lemma MismatchRefuses(faces: seq<FaceInfo>, k: nat)
    requires k < |faces|
    requires !Matches(faces[k], faces[0])
    ensures Validate(faces).Err?
    ensures Validate(faces).error != NonSquareFace ==> Validate(faces).error.face <= k
  {
  }

  /** Whether the set is accepted does not depend on the order of the faces
      after the first one (only which failure is reported does). */
  lemma ValidIsPermutationInvariant(faces: seq<FaceInfo>, other: seq<FaceInfo>)
    requires |faces| > 0 && |other| == |faces| && other[0] == faces[0]
    requires multiset(other) == multiset(faces)
    ensures Validate(faces).Ok? <==> Validate(other).Ok?
  {
    forall j | 0 <= j < |other|
      ensures Validate(faces).Ok? ==> Matches(other[j], faces[0])
    {
      assert other[j] in multiset(faces);
    }
    forall j | 0 <= j < |faces|
      ensures Validate(other).Ok? ==> Matches(faces[j], other[0])
    {
      assert faces[j] in multiset(other);
    }
  }
}
