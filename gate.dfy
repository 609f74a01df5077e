/** The `authenticate` middleware: a request without a `token` cookie, or
    with one that does not verify, gets 401; otherwise the decoded payload
    is attached to the request and the next handler runs, once. */
module Gate {
  import opened Wrappers
  import Validation

  /** A JSON reply: its status and its `message`. */
  datatype Reply = Reply(status: nat, message: string)

  const Unauthorized: Reply := Reply(401, "Unauthorized")

  /** `verifyToken`'s guard: the secret is a string that is not all white space. */
  predicate SecretConfigured(secret: Option<string>) {
    secret.Some? && Validation.Trim(secret.value) != ""
  }

  /** `verifyToken`: None stands for a thrown error, either from the
      secret's guard or from the signature check `verify` (the JWT
      library, with the secret and the clock folded in). */
  function VerifyToken<D>(secret: Option<string>, verify: string -> Option<D>, token: string): (r: Option<D>)
    ensures r.Some? ==> SecretConfigured(secret) && r == verify(token)
    ensures SecretConfigured(secret) && verify(token).Some? ==> r.Some?
  {
    if !SecretConfigured(secret) then None else verify(token)
  }

  /** What the middleware does with a request: answer it, or pass it on
      with the decoded payload. */
  datatype Outcome<D> = Respond(reply: Reply) | Continue(decoded: D)

  /** The middleware's decision for the request's cookie `token`. */
  function Decide<D>(token: Option<string>, secret: Option<string>, verify: string -> Option<D>): (r: Outcome<D>)
    ensures r.Continue? ==> token.Some? && token.value != "" && Some(r.decoded) == VerifyToken(secret, verify, token.value)
    ensures r.Respond? ==> r.reply == Unauthorized
  {
    if token.None? || token.value == "" then Respond(Unauthorized)
    else
      match VerifyToken(secret, verify, token.value)
      case None => Respond(Unauthorized)
      case Some(decoded) => Continue(decoded)
  }

  /** The request passes exactly when a non-empty token verifies under a
      configured secret, and then it carries what verification decoded;
      every refusal is the same 401 reply, whatever its cause. */
  lemma DecideCharacterisation<D>(token: Option<string>, secret: Option<string>, verify: string -> Option<D>)
    ensures Decide(token, secret, verify).Continue? <==>
              token.Some? && token.value != "" && SecretConfigured(secret) && verify(token.value).Some?
    ensures Decide(token, secret, verify).Continue? ==>
              Some(Decide(token, secret, verify).decoded) == verify(token.value)
    ensures Decide(token, secret, verify).Respond? ==> Decide(token, secret, verify).reply == Unauthorized
  {
  }

  /** A blank secret refuses every token, even one the library would accept. */
  lemma BlankSecretRefusesAll<D>(token: Option<string>, pad: string, verify: string -> Option<D>)
    requires forall i :: 0 <= i < |pad| ==> Validation.IsSpace(pad[i])
    ensures Decide(token, Some(pad), verify) == Respond(Unauthorized)
  {
    Validation.TrimEmptyIffBlank(pad);
  }

  /** The request and response objects the middleware touches. */
  class Exchange<D> {
    /** `req.cookies.token`. */
    const token: Option<string>
    /** `req.user`. */
    var user: Option<D>
    /** The replies sent on `res`, in order. */
    var sent: seq<Reply>
    /** How many times `next()` was called. */
    var nextCalls: nat

    constructor (token: Option<string>)
      ensures this.token == token && user.None? && sent == [] && nextCalls == 0
    {
      this.token := token;
      user := None;
      sent := [];
      nextCalls := 0;
    }
  }

  /** The middleware on one request: it either sends 401 or sets `req.user`
      and calls `next()`, and does exactly one of the two. */
  method Authenticate<D>(ex: Exchange<D>, secret: Option<string>, verify: string -> Option<D>)
    modifies ex
    ensures match Decide(ex.token, secret, verify)
            case Respond(reply) =>
              ex.sent == old(ex.sent) + [reply] && ex.user == old(ex.user) && ex.nextCalls == old(ex.nextCalls)
            case Continue(decoded) =>
              ex.sent == old(ex.sent) && ex.user == Some(decoded) && ex.nextCalls == old(ex.nextCalls) + 1
    ensures |ex.sent| + ex.nextCalls == old(|ex.sent| + ex.nextCalls) + 1
  {
    if ex.token.None? || ex.token.value == "" {
      ex.sent := ex.sent + [Unauthorized];
      return;
    }
    var decoded := VerifyToken(secret, verify, ex.token.value);
    if decoded.None? {
      ex.sent := ex.sent + [Unauthorized];
      return;
    }
    ex.user := decoded;
    ex.nextCalls := ex.nextCalls + 1;
  }
}
