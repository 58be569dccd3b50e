/** Values shared by every route: optional request fields, the HTTP outcome of a
    handler, and the session check that each router puts in front of its routes. */
module Common {

  datatype Option<+T> = None | Some(value: T)

  /** The status a handler answers with; the payload travels with 200 and 201. */
  datatype Response<+T> =
    | Ok(value: T)        // 200
    | Created(value: T)   // 201
    | BadRequest          // 400
    | Unauthenticated     // 401
    | Forbidden           // 403
    | NotFound            // 404
    | Conflict            // 409
    | ServerError         // 500
    | NoResponse          // the handler never answers: its loop does not end

  const ROL_DOCTOR := 3
  const ROL_PACIENTE := 5

  /** The session as the middleware sees it. A user id of 0 is falsy in
      JavaScript, so it counts as no session at all. */
  datatype Session = Anonymous | LoggedIn(userId: int, rolId: int)

  datatype Access = Granted(userId: int) | NoSession | WrongRole

  /** `isPatient`, `authRequired` and `isDoctor`: the same guard with a different role. */
  function Authorize(s: Session, role: int): (a: Access)
    ensures a.Granted? <==> s.LoggedIn? && s.userId != 0 && s.rolId == role
    ensures a.Granted? ==> a.userId == s.userId
    ensures a == NoSession <==> s.Anonymous? || s.userId == 0
  {
    if s.Anonymous? || s.userId == 0 then NoSession
    else if s.rolId != role then WrongRole
    else Granted(s.userId)
  }

  /** The answer of a guard that did not let the request through. */
  function Refusal<T>(a: Access): (r: Response<T>)
    requires !a.Granted?
    ensures r == Unauthenticated <==> a == NoSession
    ensures r == Forbidden <==> a == WrongRole
  {
    if a == NoSession then Unauthenticated else Forbidden
  }
}
