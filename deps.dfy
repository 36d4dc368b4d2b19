/** The ownership guard every task route runs first. */
module Deps {
  import opened Wrappers
  import opened Uuids
  import opened Responses
  import opened Exceptions
  import opened Security

  /** The denial: 404 `NOT_FOUND`, the same status and code as a missing resource, so it reveals nothing. */
  const ResourceNotFound: Exception :=
    HTTPException(HTTP_404_NOT_FOUND, ErrorDetail("NOT_FOUND", "Resource not found"), map[])

  /**
   * `verify_user_access(url_user_id, current_user)`: returns with no effect
   * exactly when the user id in the URL is the caller's own, and otherwise
   * raises the 404 denial, never a 403.
   */
  function VerifyUserAccess(urlUserId: Uuid, currentUser: AuthenticatedUser): (r: Outcome<()>)
    ensures r.Return? <==> urlUserId == currentUser.id
    ensures r.Raise? ==> r.exception == ResourceNotFound
    ensures r.Raise? ==> StatusOf(r.exception) == HTTP_404_NOT_FOUND != HTTP_403_FORBIDDEN
  {
    if urlUserId != currentUser.id then Raise(ResourceNotFound) else Return(())
  }

  /** The decision depends on the identity's id alone, never on its email. */
  lemma AccessIgnoresEmail(urlUserId: Uuid, id: Uuid, e1: Option<string>, e2: Option<string>)
    ensures VerifyUserAccess(urlUserId, AuthenticatedUser(id, e1)) == VerifyUserAccess(urlUserId, AuthenticatedUser(id, e2))
  {
  }
}
