/**
 * The session gate put in front of every todo endpoint (src/middlewares/auth.ts).
 * Looking the session up is I/O; its outcome is given as an `Option<UserSession>`.
 */
module Auth {
  import opened Wrappers

  /** The signed-in user as the session provider reports it. */
  datatype User = User(id: string, email: string)

  /** The provider's session record; its contents play no part in the gate. */
  datatype SessionRecord = SessionRecord(token: string, expiresAt: int)

  /** What `getUserSession()` yields when someone is signed in. */
  datatype UserSession = UserSession(user: User, session: SessionRecord)

  /** The context handed to the next link of the chain. */
  datatype Context = Context(userSession: UserSession)

  /** Either a thrown redirect, or a call of `next` with a context. */
  datatype Gate = Redirect(to: string) | Next(context: Context)

  /** The route the gate sends anonymous callers to. */
  const LandingRoute: string := "/"

  /**
   * Redirects to the landing route when there is no session; otherwise
   * continues with exactly the session it was given in the context.
   */
  function AuthMiddleware(userSession: Option<UserSession>): (g: Gate)
    ensures g.Redirect? <==> userSession.None?
    ensures g.Redirect? ==> g.to == "/"
    ensures g.Next? ==> g.context == Context(userSession.value)
  {
    match userSession
    case None => Redirect(LandingRoute)
    case Some(s) => Next(Context(s))
  }
}
