/**
 * POST `/verify-face`. The comparison itself belongs to an external
 * comparator and is a parameter here; what the handler decides on its
 * own is which requests reach the comparator and with which faces.
 */
module Faces {
  import opened Wrappers
  import opened Schemas

  /** JavaScript truthiness of a body value. */
  predicate Truthy(f: Field) {
    (f.Str? && f.value != "") || (f.Other? && f.truthy)
  }

  datatype FaceRequest = FaceRequest(employeeId: Field, registeredFace: Field, capturedFace: Field)

  /** The comparator's answer, passed back to the caller unchanged. */
  datatype Verdict = Verdict(similar: bool, similarity: real)

  datatype FaceResponse =
    | MissingFields                // 400
    | EmployeeNotFound             // 404
    | FaceNotRegistered            // 400
    | Compared(similar: bool, similarity: real, message: string)   // 200

  /** The employees table as this handler reads it: the stored registered face, NULL allowed, per employee id. */
  type Directory = map<string, Option<string>>

  /** The comparator, a function of the registered and the captured face. */
  type Comparator = (Field, Field) -> Verdict

  function Report(v: Verdict): (r: FaceResponse)
    ensures r.Compared? && r.similar == v.similar && r.similarity == v.similarity
    ensures r.message == (if v.similar then "Face verification successful"
                          else "Face verification failed - faces do not match")
  {
    Compared(v.similar, v.similarity,
      if v.similar then "Face verification successful"
      else "Face verification failed - faces do not match")
  }

  /** The registered face read from the employees table, or the response that ends the request. */
  function StoredFace(employeeId: Field, directory: Directory): (r: Result<Field, FaceResponse>)
    ensures r.Success? ==> Truthy(r.value)
    ensures r.Failure? ==> r.error == EmployeeNotFound || r.error == FaceNotRegistered
  {
    if !employeeId.Str? || employeeId.value !in directory then Failure(EmployeeNotFound)
    else
      var stored := directory[employeeId.value];
      if stored.None? || stored.value == "" then Failure(FaceNotRegistered)
      else Success(Str(stored.value))
  }

  /**
   * The handler as written: a request missing any of the three values is
   * refused before the employees table could be read, so the fallback to
   * the stored face is never taken.
   */
  function VerifyFace(req: FaceRequest, directory: Directory, compare: Comparator): (r: FaceResponse)
    ensures r.MissingFields? <==>
      !Truthy(req.employeeId) || !Truthy(req.registeredFace) || !Truthy(req.capturedFace)
    ensures !r.MissingFields? ==> r == Report(compare(req.registeredFace, req.capturedFace))
  {
    if !Truthy(req.employeeId) || !Truthy(req.registeredFace) || !Truthy(req.capturedFace) then
      MissingFields
    else
      var registered :=
        if !Truthy(req.registeredFace) then StoredFace(req.employeeId, directory)
        else Success(req.registeredFace);
      match registered
      case Failure(resp) => resp
      case Success(face) => Report(compare(face, req.capturedFace))
  }

  /** The handler's answer never depends on the employees table. */
  lemma VerifyFaceIgnoresDirectory(req: FaceRequest, d: Directory, d': Directory, compare: Comparator)
    ensures VerifyFace(req, d, compare) == VerifyFace(req, d', compare)
  {
  }

  /**
   * The handler with the guard its fallback needs: only the employee id
   * and the captured face are required, and a missing registered face is
   * read from the employees table.
   */
  function VerifyFaceIntended(req: FaceRequest, directory: Directory, compare: Comparator): (r: FaceResponse)
    ensures r.MissingFields? <==> !Truthy(req.employeeId) || !Truthy(req.capturedFace)
    ensures Truthy(req.employeeId) && Truthy(req.capturedFace) && Truthy(req.registeredFace) ==>
      r == Report(compare(req.registeredFace, req.capturedFace))
  {
    if !Truthy(req.employeeId) || !Truthy(req.capturedFace) then
      MissingFields
    else
      var registered :=
        if !Truthy(req.registeredFace) then StoredFace(req.employeeId, directory)
        else Success(req.registeredFace);
      match registered
      case Failure(resp) => resp
      case Success(face) => Report(compare(face, req.capturedFace))
  }

  /**
   * With the intended guard a request without a registered face is
   * compared against the stored one, answered 404 for an unknown
   * employee and 400 for one without a stored face.
   */
  lemma IntendedFallsBackToStoredFace(req: FaceRequest, d: Directory, compare: Comparator)
    requires Truthy(req.employeeId) && Truthy(req.capturedFace) && !Truthy(req.registeredFace)
    ensures req.employeeId.Str? && req.employeeId.value in d && d[req.employeeId.value].Some?
              && d[req.employeeId.value].value != "" ==>
      VerifyFaceIntended(req, d, compare)
        == Report(compare(Str(d[req.employeeId.value].value), req.capturedFace))
    ensures (!req.employeeId.Str? || req.employeeId.value !in d) ==>
      VerifyFaceIntended(req, d, compare) == EmployeeNotFound
    ensures req.employeeId.Str? && req.employeeId.value in d
              && (d[req.employeeId.value].None? || d[req.employeeId.value].value == "") ==>
      VerifyFaceIntended(req, d, compare) == FaceNotRegistered
  {
  }

  /**
   * An employee with a stored face who leaves the registered face out:
   * the handler as written refuses the request, the intended one compares
   * the captured face with the stored one.
   */
  lemma StoredFaceNeverUsed(compare: Comparator)
    ensures var req := FaceRequest(Str("E1"), Missing, Str("captured"));
      var d := map["E1" := Some("registered")];
      && VerifyFace(req, d, compare) == MissingFields
      && VerifyFaceIntended(req, d, compare) == Report(compare(Str("registered"), Str("captured")))
  {
    var req := FaceRequest(Str("E1"), Missing, Str("captured"));
    var d := map["E1" := Some("registered")];
    IntendedFallsBackToStoredFace(req, d, compare);
  }
}
