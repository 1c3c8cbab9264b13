/** The login sequence of main.py as a short-circuiting pipeline over a
    request trace and the Moodle-domain cookie jar.

    Step 1 `JsessionidForLogin` (get_jsessionid_for_login) walks Moodle to the
    Shibboleth login form; step 2 `TokensForSso` (get_tokens_for_sso) posts the
    credentials twice and reads the SAML assertion; step 3
    `ShibsessionForMoodle` (set_shibsession_for_moodle) hands the assertion to
    Moodle and rotates its session cookie. Every step either yields the next
    step's input or fails; a failure ends the run, which `RunLogin` reports as
    `Err` the way `main` catches the exception and logs it.
 */
module Login {
  import opened Wrappers
  import opened PyStr
  import opened SetCookie
  import opened Transport

  const MoodleSessionCookie: string := "MoodleSessionjkuSessionCookie"
  const JSessionId: string := "JSESSIONID"
  const CsrfToken: Query := InputValue("csrf_token")
  const LoginForm1Action: Query := FormAction("name", "form1")
  const LoginFormAction: Query := FormAction("id", "loginform")
  const RelayStateInput: Query := InputValue("RelayState")
  const SamlResponseInput: Query := InputValue("SAMLResponse")

  /** What step 1 hands to steps 2 and 3. */
  datatype Handoff = Handoff(payload: Form, redirectUrl: string, jsessionCookie: Jar, moodleCookie: Jar)

  /** The SAML bundle step 2 hands to step 3. */
  datatype Assertion = Assertion(relayState: string, samlResponse: string)

  /** A step's effect on the run together with its outcome. */
  datatype Stage<+T> = Stage(st: State, out: Result<T>)

  /** The credential form posted to the identity provider. */
  function CreatePayload(csrfToken: string, username: string, password: string): (r: Form)
    ensures r.Keys == {"csrf_token", "j_username", "j_password", "_eventId_proceed"}
    ensures r["csrf_token"] == csrfToken
    ensures r["j_username"] == username && r["j_password"] == password
    ensures r["_eventId_proceed"] == "Login"
  {
    map["csrf_token" := csrfToken, "j_username" := username, "j_password" := password,
        "_eventId_proceed" := "Login"]
  }

  /** Python's `headers.get('Set-Cookie', ...)` before the default is applied. */
  function SetCookieHeader(resp: Response): Option<string> {
    Lookup(resp.headers, "Set-Cookie")
  }

  /** Step 1: the Moodle session cookie, the identity-provider redirect, the
      JSESSIONID cookie and the login form's action and CSRF token. Issues
      GET requests only, at most five. */
  function JsessionidForLogin(net: Network, st: State, username: string, password: string): (r: Stage<Handoff>)
    ensures st.trace <= r.st.trace && r.st.jar == st.jar
    ensures |st.trace| < |r.st.trace| <= |st.trace| + 5
    ensures forall k :: |st.trace| <= k < |r.st.trace| ==> r.st.trace[k].verb == Get
    ensures r.out.Ok? ==> |r.st.trace| == |st.trace| + 5
    ensures r.out.Ok? ==>
      var payload := r.out.value.payload;
      "csrf_token" in payload && payload == CreatePayload(payload["csrf_token"], username, password)
  {
    var e1 := Send(net, st, RequestGet(MoodleHomeUrl, Some(HeadersForMoodle), allowRedirects := true));
    if e1.reply.None? then Stage(e1.st, Err) else
    var moodle := Lookup(e1.reply.value.cookies, MoodleSessionCookie);
    if moodle.None? then Stage(e1.st, Err) else
    var moodleCookie := map[MoodleSessionCookie := moodle.value];
    var e2 := Send(net, e1.st, RequestGet(MoodleLoginUrl, cookies := Some(moodleCookie)));
    if e2.reply.None? then Stage(e2.st, Err) else
    var e3 := Send(net, e2.st, RequestGet(MoodleLoginByShibUrl, cookies := Some(moodleCookie)));
    if e3.reply.None? then Stage(e3.st, Err) else
    var tokenUrl := Scrape(e3.reply.value, FirstAnchorHref);
    if tokenUrl.None? then Stage(e3.st, Err) else
    var e4 := Send(net, e3.st, RequestGet(tokenUrl.value));
    if e4.reply.None? then Stage(e4.st, Err) else
    var location := Lookup(e4.reply.value.headers, "Location");
    if location.None? then Stage(e4.st, Err) else
    var jsession := Lookup(e4.reply.value.cookies, JSessionId);
    if jsession.None? then Stage(e4.st, Err) else
    var jsessionCookie := map[JSessionId := jsession.value];
    var e5 := Send(net, e4.st, RequestGet(location.value, cookies := Some(jsessionCookie)));
    if e5.reply.None? then Stage(e5.st, Err) else
    var action := Scrape(e5.reply.value, LoginForm1Action);
    if action.None? then Stage(e5.st, Err) else
    var csrf := Scrape(e5.reply.value, CsrfToken);
    if csrf.None? then Stage(e5.st, Err) else
    var payload := CreatePayload(csrf.value, username, password);
    Stage(e5.st, Ok(Handoff(payload, action.value, jsessionCookie, moodleCookie)))
  }

  /** Step 2: both credential posts go to the identity provider's base URL
      followed by the scraped form action; the second carries the token read
      from the first post's response. Issues POST requests only, at most two,
      neither of them carrying a SAML assertion. */
  function TokensForSso(net: Network, st: State, h: Handoff, username: string, password: string)
    : (r: Stage<Assertion>)
    ensures st.trace <= r.st.trace && r.st.jar == st.jar
    ensures |st.trace| < |r.st.trace| <= |st.trace| + 2
    ensures r.st.trace[|st.trace|].url == ShibLoginUrl + h.redirectUrl
    ensures r.st.trace[|st.trace|].data == Some(h.payload)
    ensures forall k :: |st.trace| <= k < |r.st.trace| ==> r.st.trace[k].verb == Post
    ensures r.out.Ok? ==> |r.st.trace| == |st.trace| + 2
  {
    var e1 := Send(net, st, RequestPost(ShibLoginUrl + h.redirectUrl, h.payload,
                                        cookies := Some(h.jsessionCookie), allowRedirects := true));
    if e1.reply.None? then Stage(e1.st, Err) else
    var loginUrlParams := Scrape(e1.reply.value, LoginFormAction);
    if loginUrlParams.None? then Stage(e1.st, Err) else
    var csrf := Scrape(e1.reply.value, CsrfToken);
    if csrf.None? then Stage(e1.st, Err) else
    var payload := CreatePayload(csrf.value, username, password);
    var e2 := Send(net, e1.st, RequestPost(ShibLoginUrl + loginUrlParams.value, payload,
                                           cookies := Some(h.jsessionCookie)));
    if e2.reply.None? then Stage(e2.st, Err) else
    var relayState := Scrape(e2.reply.value, RelayStateInput);
    if relayState.None? then Stage(e2.st, Err) else
    var samlResponse := Scrape(e2.reply.value, SamlResponseInput);
    if samlResponse.None? then Stage(e2.st, Err) else
    Stage(e2.st, Ok(Assertion(relayState.value, samlResponse.value)))
  }

  /** Step 3: post the assertion to Moodle, store the federated-session cookie
      when the marker is present, re-set the original Moodle session cookie,
      then overwrite it with the rotated value. */
  function ShibsessionForMoodle(net: Network, st: State, a: Assertion, moodleCookie: Jar): (r: Stage<()>)
    ensures st.trace <= r.st.trace
    ensures |st.trace| < |r.st.trace| <= |st.trace| + 2
    ensures r.st.trace[|st.trace|]
         == RequestPost(SamlConsumerUrl, map["RelayState" := a.relayState, "SAMLResponse" := a.samlResponse])
    ensures r.out.Ok? ==> |r.st.trace| == |st.trace| + 2 <= |net|
    ensures r.out.Ok? ==> MoodleSessionCookie in r.st.jar
    ensures r.out.Ok? ==>
      RotatedSessionValue(SetCookieHeader(net[|st.trace| + 1])) == Ok(r.st.jar[MoodleSessionCookie])
  {
    var e1 := Send(net, st, RequestPost(SamlConsumerUrl,
                                        map["RelayState" := a.relayState, "SAMLResponse" := a.samlResponse]));
    if e1.reply.None? then Stage(e1.st, Err) else
    var shib := ShibsessionCookie(SetCookieHeader(e1.reply.value));
    if shib.Err? then Stage(e1.st, Err) else
    var st1 := if shib.value.Some? then StoreCookie(e1.st, shib.value.value.name, shib.value.value.value)
               else e1.st;
    var original := Lookup(moodleCookie, MoodleSessionCookie);
    if original.None? then Stage(st1, Err) else
    var st2 := StoreCookie(st1, MoodleSessionCookie, original.value);
    var e2 := Send(net, st2, RequestGet(MoodleLoginByShibUrl, Some(HeadersForMoodle)));
    if e2.reply.None? then Stage(e2.st, Err) else
    var rotated := RotatedSessionValue(SetCookieHeader(e2.reply.value));
    if rotated.Err? then Stage(e2.st, Err) else
    Stage(StoreCookie(e2.st, MoodleSessionCookie, rotated.value), Ok(()))
  }

  /** `main` up to the end of the login: a fresh session runs the three steps
      in order; any failure ends the run, and the exception is caught. */
  function RunLogin(net: Network, username: string, password: string): (r: Stage<()>)
    ensures |r.st.trace| <= 9
    ensures r.out.Ok? ==> |r.st.trace| == 9 && MoodleSessionCookie in r.st.jar
  {
    var s1 := JsessionidForLogin(net, State([], map[]), username, password);
    if s1.out.Err? then Stage(s1.st, Err) else
    var s2 := TokensForSso(net, s1.st, s1.out.value, username, password);
    if s2.out.Err? then Stage(s2.st, Err) else
    ShibsessionForMoodle(net, s2.st, s2.out.value, s1.out.value.moodleCookie)
  }
}
