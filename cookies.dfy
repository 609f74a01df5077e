/** The options of the `token` cookie: set on login with a seven-day
    lifetime, cleared on logout with the same attributes. */
module Cookies {
  import opened Wrappers

  /** The attributes passed to `res.cookie` / `res.clearCookie`. */
  datatype CookieOptions = CookieOptions(httpOnly: bool, secure: bool, sameSite: string, maxAge: Option<nat>)

  /** A call on the response object. */
  datatype CookieCall =
    | SetCookie(name: string, value: string, options: CookieOptions)
    | ClearCookie(name: string, options: CookieOptions)

  const TokenCookieName: string := "token"

  /** Seven days in milliseconds. */
  const SevenDaysMs: nat := 7 * 24 * 60 * 60 * 1000

  /** The configured NODE_ENV: the environment variable, or "development"
      when it is unset or empty. */
  function NodeEnv(raw: Option<string>): (env: string)
    ensures env == "development" <==> raw.None? || raw.value == "" || raw.value == "development"
    ensures raw.Some? && raw.value != "" ==> env == raw.value
  {
    if raw.None? || raw.value == "" then "development" else raw.value
  }

  /** The attributes both calls share. */
  function BaseOptions(nodeEnv: string): CookieOptions {
    CookieOptions(true, nodeEnv == "production", "Strict", None)
  }

  /** `setAuthCookie(res, token)`. */
  function SetAuthCookie(nodeEnv: string, token: string): (c: CookieCall)
    ensures c.SetCookie? && c.name == "token" && c.value == token
    ensures c.options.httpOnly && c.options.sameSite == "Strict"
    ensures c.options.secure <==> nodeEnv == "production"
    ensures c.options.maxAge == Some(604800000)
  {
    SetCookie(TokenCookieName, token, BaseOptions(nodeEnv).(maxAge := Some(SevenDaysMs)))
  }

  /** `clearAuthCookie(res)`. */
  function ClearAuthCookie(nodeEnv: string): (c: CookieCall)
    ensures c.ClearCookie? && c.name == "token"
    ensures c.options.httpOnly && c.options.sameSite == "Strict"
    ensures c.options.secure <==> nodeEnv == "production"
    ensures c.options.maxAge.None?
  {
    ClearCookie(TokenCookieName, BaseOptions(nodeEnv))
  }

  /** Clearing names the cookie that was set and repeats its attributes
      apart from the lifetime, so the browser matches and removes it. */
  lemma ClearMatchesSet(nodeEnv: string, token: string)
    ensures ClearAuthCookie(nodeEnv).name == SetAuthCookie(nodeEnv, token).name
    ensures ClearAuthCookie(nodeEnv).options == SetAuthCookie(nodeEnv, token).options.(maxAge := None)
  {
  }

  /** With NODE_ENV unset the cookie is not marked secure. */
  lemma UnsetEnvNotSecure(token: string)
    ensures !SetAuthCookie(NodeEnv(None), token).options.secure
    ensures !ClearAuthCookie(NodeEnv(None)).options.secure
  {
  }
}
