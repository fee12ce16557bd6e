/** The sign-in link handler: an email link arrives either with a PKCE
    `code` or with a `token_hash` and `type`; the handler establishes the
    session and redirects. The two backend calls are given as their
    outcomes. */
module AuthCallback {
  import opened Wrappers

  /** The query parameters the handler reads; each is absent when not in
      the URL. */
  datatype CallbackQuery = CallbackQuery(
    code: Option<string>,
    tokenHash: Option<string>,
    kind: Option<string>,
    next: Option<string>)

  /** `searchParams.get("next") ?? "/"`: only an absent parameter
      defaults; an empty one is kept. */
  function NextPath(q: CallbackQuery): (r: string)
    ensures q.next.None? ==> r == "/"
    ensures q.next.Some? ==> r == q.next.value
  {
    q.next.GetOr("/")
  }

  const InvalidLinkPath: string := "/login?error=Invalid+or+expired+reset+link"

  /** The redirect after a session was established. */
  function SuccessTarget(origin: string, q: CallbackQuery): (r: string)
    ensures q.kind == Some("recovery") ==> r == origin + "/reset-password"
    ensures q.kind != Some("recovery") ==> r == origin + NextPath(q)
  {
    if q.kind == Some("recovery") then origin + "/reset-password" else origin + NextPath(q)
  }

  /** The response, with the backend calls that were made. */
  datatype CallbackResponse = CallbackResponse(location: string, exchanged: bool, verified: bool)

  /** The handler: the code exchange first; when it is absent or fails, the
      token-hash verification, tried only with a `type`; otherwise the error
      page. `exchangeOk` and `verifyOk` are the backend's answers. */
  function Callback(origin: string, q: CallbackQuery, exchangeOk: bool, verifyOk: bool): (r: CallbackResponse)
    ensures r.exchanged <==> Truthy(q.code)
    ensures r.verified <==> !(Truthy(q.code) && exchangeOk) && Truthy(q.tokenHash) && Truthy(q.kind)
    ensures Truthy(q.code) && exchangeOk ==> r.location == SuccessTarget(origin, q)
    ensures r.verified && verifyOk ==> r.location == SuccessTarget(origin, q)
    ensures !(Truthy(q.code) && exchangeOk) && !(r.verified && verifyOk) ==>
              r.location == origin + InvalidLinkPath
  {
    if Truthy(q.code) && exchangeOk then
      CallbackResponse(SuccessTarget(origin, q), true, false)
    else if Truthy(q.tokenHash) && Truthy(q.kind) then
      if verifyOk then CallbackResponse(SuccessTarget(origin, q), Truthy(q.code), true)
      else CallbackResponse(origin + InvalidLinkPath, Truthy(q.code), true)
    else CallbackResponse(origin + InvalidLinkPath, Truthy(q.code), false)
  }

  /** A failed code exchange is not final: a link that also carries a
      token hash and type still signs in when verification succeeds. */
  lemma FailedExchangeFallsThrough(origin: string, q: CallbackQuery)
    requires Truthy(q.code) && Truthy(q.tokenHash) && Truthy(q.kind)
    ensures Callback(origin, q, false, true).location == SuccessTarget(origin, q)
    ensures Callback(origin, q, false, true).exchanged && Callback(origin, q, false, true).verified
  {
  }

  /** A recovery link that signs in always lands on the reset page,
      whatever `next` says. */
  lemma RecoveryIgnoresNext(origin: string, q: CallbackQuery, exchangeOk: bool, verifyOk: bool)
    requires q.kind == Some("recovery")
    ensures var r := Callback(origin, q, exchangeOk, verifyOk);
            r.location == origin + "/reset-password" || r.location == origin + InvalidLinkPath
  {
  }
}
