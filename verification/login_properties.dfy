/** Properties of the login pipeline, stated against reference definitions
    that read the scraped values straight off the network's responses: which
    values each step needs, which requests it issues, what the jar holds
    afterwards, and which requests never happen after a failure.
 */
module LoginProperties {
  import opened Wrappers
  import opened SetCookie
  import opened Transport
  import opened Login

  // ---------------------------------------------------------------------
  // Reference definitions: what each step needs from the responses
  // ---------------------------------------------------------------------

  /** The five responses of step 1, starting at request `i`, carry every value
      step 1 extracts. */
  predicate BootstrapSupplied(net: Network, i: nat) {
    && i + 5 <= |net|
    && MoodleSessionCookie in net[i].cookies
    && FirstAnchorHref in net[i + 2].page
    && "Location" in net[i + 3].headers
    && JSessionId in net[i + 3].cookies
    && LoginForm1Action in net[i + 4].page
    && CsrfToken in net[i + 4].page
  }

  /** The two responses of step 2 carry the second form and the assertion. */
  predicate ExchangeSupplied(net: Network, i: nat) {
    && i + 2 <= |net|
    && LoginFormAction in net[i].page
    && CsrfToken in net[i].page
    && RelayStateInput in net[i + 1].page
    && SamlResponseInput in net[i + 1].page
  }

  /** The two responses of step 3 carry parseable `Set-Cookie` headers. */
  predicate ConsumeSupplied(net: Network, i: nat) {
    && i + 2 <= |net|
    && ShibsessionCookie(SetCookieHeader(net[i])).Ok?
    && RotatedSessionValue(SetCookieHeader(net[i + 1])).Ok?
  }

  /** A network that lets a fresh run get through all three steps. */
  predicate Supplied(net: Network) {
    BootstrapSupplied(net, 0) && ExchangeSupplied(net, 5) && ConsumeSupplied(net, 7)
  }

  function MoodleCookieOf(net: Network, i: nat): Jar
    requires BootstrapSupplied(net, i)
  {
    map[MoodleSessionCookie := net[i].cookies[MoodleSessionCookie]]
  }

  function JsessionCookieOf(net: Network, i: nat): Jar
    requires BootstrapSupplied(net, i)
  {
    map[JSessionId := net[i + 3].cookies[JSessionId]]
  }

  /** The requests of step 1 when every extraction succeeds. */
  function BootstrapTrace(net: Network, i: nat): seq<Request>
    requires BootstrapSupplied(net, i)
  {
    [ RequestGet(MoodleHomeUrl, Some(HeadersForMoodle), allowRedirects := true),
      RequestGet(MoodleLoginUrl, cookies := Some(MoodleCookieOf(net, i))),
      RequestGet(MoodleLoginByShibUrl, cookies := Some(MoodleCookieOf(net, i))),
      RequestGet(net[i + 2].page[FirstAnchorHref]),
      RequestGet(net[i + 3].headers["Location"], cookies := Some(JsessionCookieOf(net, i))) ]
  }

  /** What step 1 hands on when every extraction succeeds. */
  function ExpectedHandoff(net: Network, i: nat, username: string, password: string): Handoff
    requires BootstrapSupplied(net, i)
  {
    Handoff(CreatePayload(net[i + 4].page[CsrfToken], username, password),
            net[i + 4].page[LoginForm1Action], JsessionCookieOf(net, i), MoodleCookieOf(net, i))
  }

  /** The second credential post, built from the response to the first. */
  function SecondCredentialPost(net: Network, i: nat, h: Handoff, username: string, password: string): Request
    requires i < |net| && LoginFormAction in net[i].page && CsrfToken in net[i].page
  {
    RequestPost(ShibLoginUrl + net[i].page[LoginFormAction],
                CreatePayload(net[i].page[CsrfToken], username, password),
                cookies := Some(h.jsessionCookie))
  }

  /** How many requests step 1 issues when it starts at request `i`: each
      request goes out, and the step stops right after the first one whose
      response is missing or lacks a value the step reads from it. */
  function BootstrapRequests(net: Network, i: nat): nat {
    if i >= |net| || MoodleSessionCookie !in net[i].cookies then 1
    else if i + 1 >= |net| then 2
    else if i + 2 >= |net| || FirstAnchorHref !in net[i + 2].page then 3
    else if i + 3 >= |net| || "Location" !in net[i + 3].headers || JSessionId !in net[i + 3].cookies then 4
    else 5
  }

  /** How many requests step 2 issues: the second post goes out only when the
      first response carries the form action and the token. */
  function ExchangeRequests(net: Network, i: nat): nat {
    if i < |net| && LoginFormAction in net[i].page && CsrfToken in net[i].page then 2 else 1
  }

  /** How many requests step 3 issues: the federation GET goes out only when
      the assertion post was answered and its `Set-Cookie` parses. */
  function ConsumeRequests(net: Network, i: nat): nat {
    if i < |net| && ShibsessionCookie(SetCookieHeader(net[i])).Ok? then 2 else 1
  }

  /** A request that hands a SAML assertion to someone. */
  predicate IsAssertionPost(rq: Request) {
    rq.verb == Post && rq.data.Some? && "SAMLResponse" in rq.data.value
  }

  // ---------------------------------------------------------------------
  // Step 1
  // ---------------------------------------------------------------------

  /** Step 1 succeeds exactly when its five responses carry every value it
      extracts; it then issues the five reference requests and hands on the
      reference values. */
  lemma BootstrapOutcome(net: Network, st: State, username: string, password: string)
    ensures var r := JsessionidForLogin(net, st, username, password);
      r.out.Ok? <==> BootstrapSupplied(net, |st.trace|)
    ensures var r := JsessionidForLogin(net, st, username, password);
      r.out.Ok? ==>
        && r.out.value == ExpectedHandoff(net, |st.trace|, username, password)
        && r.st.trace == st.trace + BootstrapTrace(net, |st.trace|)
  {
    if BootstrapSupplied(net, |st.trace|) {
      BootstrapSuccess(net, st, username, password);
    }
  }

  lemma BootstrapSuccess(net: Network, st: State, username: string, password: string)
    requires BootstrapSupplied(net, |st.trace|)
    ensures var r := JsessionidForLogin(net, st, username, password);
      && r.out == Ok(ExpectedHandoff(net, |st.trace|, username, password))
      && r.st.trace == st.trace + BootstrapTrace(net, |st.trace|)
  {
    var r := JsessionidForLogin(net, st, username, password);
    var t := BootstrapTrace(net, |st.trace|);
    assert r.st.trace == st.trace + [t[0]] + [t[1]] + [t[2]] + [t[3]] + [t[4]];
    assert [t[0]] + [t[1]] + [t[2]] + [t[3]] + [t[4]] == t;
  }

  /** With no anchor on the federation page, step 1 stops after its third
      request. */
  lemma NoAnchorStops(net: Network, st: State, username: string, password: string)
    requires |st.trace| + 3 <= |net|
    requires MoodleSessionCookie in net[|st.trace|].cookies
    requires FirstAnchorHref !in net[|st.trace| + 2].page
    ensures JsessionidForLogin(net, st, username, password).out.Err?
    ensures |JsessionidForLogin(net, st, username, password).st.trace| == |st.trace| + 3
  {
  }

  /** Step 1 stops right after the request whose response fails it: no
      request follows a missing Moodle cookie, anchor, `Location`,
      `JSESSIONID`, form or token. */
  lemma BootstrapStops(net: Network, st: State, username: string, password: string)
    ensures var r := JsessionidForLogin(net, st, username, password);
      |r.st.trace| == |st.trace| + BootstrapRequests(net, |st.trace|)
    ensures var r := JsessionidForLogin(net, st, username, password);
      BootstrapRequests(net, |st.trace|) < 5 ==> r.out.Err?
  {
  }

  // ---------------------------------------------------------------------
  // Step 2
  // ---------------------------------------------------------------------

  /** Step 2 succeeds exactly when its two responses carry the form, the
      fresh token and both assertion fields. Its first post goes to the
      identity provider's base URL followed by step 1's form action, with
      step 1's payload; its second goes to the base URL followed by the new
      form action and carries the token from the first post's response. */
  lemma ExchangeOutcome(net: Network, st: State, h: Handoff, username: string, password: string)
    ensures var r := TokensForSso(net, st, h, username, password);
      r.out.Ok? <==> ExchangeSupplied(net, |st.trace|)
    ensures var r := TokensForSso(net, st, h, username, password);
      r.out.Ok? ==> r.out.value == Assertion(net[|st.trace| + 1].page[RelayStateInput],
                                             net[|st.trace| + 1].page[SamlResponseInput])
    ensures var r := TokensForSso(net, st, h, username, password);
      r.st.trace[|st.trace|]
        == RequestPost(ShibLoginUrl + h.redirectUrl, h.payload,
                       cookies := Some(h.jsessionCookie), allowRedirects := true)
    ensures var r := TokensForSso(net, st, h, username, password);
      |r.st.trace| == |st.trace| + 2 ==>
        && |st.trace| < |net|
        && LoginFormAction in net[|st.trace|].page
        && CsrfToken in net[|st.trace|].page
        && r.st.trace[|st.trace| + 1] == SecondCredentialPost(net, |st.trace|, h, username, password)
  {
  }

  /** Step 2 sends its second post only when the first response carries the
      form action and the token. */
  lemma ExchangeStops(net: Network, st: State, h: Handoff, username: string, password: string)
    ensures var r := TokensForSso(net, st, h, username, password);
      |r.st.trace| == |st.trace| + ExchangeRequests(net, |st.trace|)
    ensures var r := TokensForSso(net, st, h, username, password);
      ExchangeRequests(net, |st.trace|) == 1 ==> r.out.Err?
  {
  }

  // ---------------------------------------------------------------------
  // Step 3
  // ---------------------------------------------------------------------

  /** Step 3 succeeds exactly when both `Set-Cookie` headers parse (the
      original Moodle cookie being present). Afterwards the Moodle session
      cookie holds the rotated value, the federated-session cookie is stored
      exactly when the first header names one, and no other jar entry
      changes. */
  lemma ConsumeOutcome(net: Network, st: State, a: Assertion, moodleCookie: Jar)
    requires MoodleSessionCookie in moodleCookie
    ensures var r := ShibsessionForMoodle(net, st, a, moodleCookie);
      r.out.Ok? <==> ConsumeSupplied(net, |st.trace|)
    ensures var r := ShibsessionForMoodle(net, st, a, moodleCookie);
      |r.st.trace| == |st.trace| + 2 ==>
        r.st.trace[|st.trace| + 1] == RequestGet(MoodleLoginByShibUrl, Some(HeadersForMoodle))
    ensures var r := ShibsessionForMoodle(net, st, a, moodleCookie);
      r.out.Ok? ==>
        var shib := ShibsessionCookie(SetCookieHeader(net[|st.trace|])).value;
        && r.st.jar[MoodleSessionCookie] == RotatedSessionValue(SetCookieHeader(net[|st.trace| + 1])).value
        && (shib.Some? ==> shib.value.name in r.st.jar && r.st.jar[shib.value.name] == shib.value.value)
        && (forall n :: n != MoodleSessionCookie && (shib.None? || n != shib.value.name) ==>
              (n in r.st.jar <==> n in st.jar) && (n in st.jar ==> r.st.jar[n] == st.jar[n]))
  {
    if |st.trace| < |net| {
      ShibNameIsNotMoodle(SetCookieHeader(net[|st.trace|]));
    }
  }

  /** Step 3 stops after the assertion post when that post fails or its
      `Set-Cookie` has the marker but no `=`, and then the jar is untouched.
      Otherwise the original Moodle cookie has been re-set before the
      federation GET, so a failing GET or rotated-value parse leaves the
      original value in the jar. */
  lemma ConsumeStops(net: Network, st: State, a: Assertion, moodleCookie: Jar)
    requires MoodleSessionCookie in moodleCookie
    ensures var r := ShibsessionForMoodle(net, st, a, moodleCookie);
      |r.st.trace| == |st.trace| + ConsumeRequests(net, |st.trace|)
    ensures var r := ShibsessionForMoodle(net, st, a, moodleCookie);
      ConsumeRequests(net, |st.trace|) == 1 ==> r.out.Err? && r.st.jar == st.jar
    ensures var r := ShibsessionForMoodle(net, st, a, moodleCookie);
      ConsumeRequests(net, |st.trace|) == 2 && r.out.Err? ==>
        MoodleSessionCookie in r.st.jar && r.st.jar[MoodleSessionCookie] == moodleCookie[MoodleSessionCookie]
  {
  }

  /** The federated-session cookie never shadows the Moodle session cookie:
      its name starts with the marker, the Moodle cookie's does not. */
  lemma ShibNameIsNotMoodle(header: Option<string>)
    ensures var r := ShibsessionCookie(header);
      r.Ok? && r.value.Some? ==> r.value.value.name != MoodleSessionCookie
  {
    var r := ShibsessionCookie(header);
    if r.Ok? && r.value.Some? {
      assert r.value.value.name[0] == Marker[0] == '_';
      assert MoodleSessionCookie[0] == 'M';
    }
  }

  // ---------------------------------------------------------------------
  // The whole run
  // ---------------------------------------------------------------------

  /** A fresh run logs in exactly when the network supplies every value. */
  lemma LoginSucceedsIff(net: Network, username: string, password: string)
    ensures RunLogin(net, username, password).out.Ok? <==> Supplied(net)
  {
    var s0 := State([], map[]);
    BootstrapOutcome(net, s0, username, password);
    var s1 := JsessionidForLogin(net, s0, username, password);
    if s1.out.Ok? {
      assert |s1.st.trace| == 5;
      ExchangeOutcome(net, s1.st, s1.out.value, username, password);
      var s2 := TokensForSso(net, s1.st, s1.out.value, username, password);
      if s2.out.Ok? {
        assert |s2.st.trace| == 7;
        assert MoodleSessionCookie in s1.out.value.moodleCookie;
        ConsumeOutcome(net, s2.st, s2.out.value, s1.out.value.moodleCookie);
        var r := ShibsessionForMoodle(net, s2.st, s2.out.value, s1.out.value.moodleCookie);
        assert RunLogin(net, username, password) == r;
      } else {
        assert RunLogin(net, username, password).out.Err?;
        assert !ExchangeSupplied(net, 5);
      }
    } else {
      assert RunLogin(net, username, password).out.Err?;
      assert !BootstrapSupplied(net, 0);
    }
  }

  /** When step 1 cannot extract a value, the run fails without sending any
      credentials: every request it issued is a GET. */
  lemma BootstrapFailureSendsNoPost(net: Network, username: string, password: string)
    requires !BootstrapSupplied(net, 0)
    ensures RunLogin(net, username, password).out.Err?
    ensures |RunLogin(net, username, password).st.trace| <= 5
    ensures forall rq :: rq in RunLogin(net, username, password).st.trace ==> rq.verb == Get
  {
    BootstrapOutcome(net, State([], map[]), username, password);
  }

  /** When the page after the second credential post lacks `RelayState` or
      `SAMLResponse`, the run fails after seven requests and the assertion is
      never posted. */
  lemma MissingAssertionSkipsConsumer(net: Network, username: string, password: string)
    requires BootstrapSupplied(net, 0)
    requires 7 <= |net| && LoginFormAction in net[5].page && CsrfToken in net[5].page
    requires RelayStateInput !in net[6].page || SamlResponseInput !in net[6].page
    ensures RunLogin(net, username, password).out.Err?
    ensures |RunLogin(net, username, password).st.trace| == 7
    ensures forall rq :: rq in RunLogin(net, username, password).st.trace ==> !IsAssertionPost(rq)
  {
    var s0 := State([], map[]);
    BootstrapOutcome(net, s0, username, password);
    var s1 := JsessionidForLogin(net, s0, username, password);
    ExchangeOutcome(net, s1.st, s1.out.value, username, password);
    var r := RunLogin(net, username, password);
    forall rq | rq in r.st.trace
      ensures !IsAssertionPost(rq)
    {
      var k :| 0 <= k < |r.st.trace| && r.st.trace[k] == rq;
      if k >= 5 {
        assert rq.data.value.Keys == CreatePayload("", username, password).Keys;
      }
    }
  }

  /** In any run that reaches them, both credential posts target the identity
      provider's base URL followed by the scraped form action, unaltered; the
      first carries step 1's token and the second the token scraped from the
      first post's response. */
  lemma CredentialPostTargets(net: Network, username: string, password: string)
    ensures var r := RunLogin(net, username, password);
      |r.st.trace| >= 6 ==>
        && BootstrapSupplied(net, 0)
        && r.st.trace[5].url == ShibLoginUrl + net[4].page[LoginForm1Action]
        && r.st.trace[5].data == Some(CreatePayload(net[4].page[CsrfToken], username, password))
        && r.st.trace[5].cookies == Some(JsessionCookieOf(net, 0))
    ensures var r := RunLogin(net, username, password);
      |r.st.trace| >= 7 ==>
        && 5 < |net| && LoginFormAction in net[5].page && CsrfToken in net[5].page
        && r.st.trace[6].url == ShibLoginUrl + net[5].page[LoginFormAction]
        && r.st.trace[6].data == Some(CreatePayload(net[5].page[CsrfToken], username, password))
        && r.st.trace[6].cookies == Some(JsessionCookieOf(net, 0))
  {
    var s0 := State([], map[]);
    BootstrapOutcome(net, s0, username, password);
    var s1 := JsessionidForLogin(net, s0, username, password);
    if s1.out.Ok? {
      ExchangeOutcome(net, s1.st, s1.out.value, username, password);
      var s2 := TokensForSso(net, s1.st, s1.out.value, username, password);
      if s2.out.Ok? {
        var r := ShibsessionForMoodle(net, s2.st, s2.out.value, s1.out.value.moodleCookie);
        assert r.st.trace[..7] == s2.st.trace;
      }
    }
  }

  /** A successful run is step 3 applied to what steps 1 and 2 produced,
      starting from an empty jar after seven requests. */
  lemma SuccessfulRunSteps(net: Network, username: string, password: string)
    requires Supplied(net)
    ensures var s1 := JsessionidForLogin(net, State([], map[]), username, password);
      && s1.out.Ok? && |s1.st.trace| == 5 && s1.st.jar == map[]
      && MoodleSessionCookie in s1.out.value.moodleCookie
      && var s2 := TokensForSso(net, s1.st, s1.out.value, username, password);
      && s2.out.Ok? && |s2.st.trace| == 7 && s2.st.jar == map[]
      && RunLogin(net, username, password)
         == ShibsessionForMoodle(net, s2.st, s2.out.value, s1.out.value.moodleCookie)
  {
    var s0 := State([], map[]);
    BootstrapOutcome(net, s0, username, password);
    var s1 := JsessionidForLogin(net, s0, username, password);
    ExchangeOutcome(net, s1.st, s1.out.value, username, password);
  }

  /** After a successful run the jar holds the rotated Moodle session cookie
      and, when the assertion response named one, the federated-session
      cookie, and nothing else. */
  lemma SuccessfulRunJar(net: Network, username: string, password: string)
    requires Supplied(net)
    ensures var jar := RunLogin(net, username, password).st.jar;
      var shib := ShibsessionCookie(SetCookieHeader(net[7])).value;
      && (forall n :: n in jar <==> n == MoodleSessionCookie || (shib.Some? && n == shib.value.name))
      && jar[MoodleSessionCookie] == RotatedSessionValue(SetCookieHeader(net[8])).value
      && (shib.Some? ==> jar[shib.value.name] == shib.value.value)
  {
    SuccessfulRunSteps(net, username, password);
    var s1 := JsessionidForLogin(net, State([], map[]), username, password);
    var s2 := TokensForSso(net, s1.st, s1.out.value, username, password);
    ConsumeOutcome(net, s2.st, s2.out.value, s1.out.value.moodleCookie);
    var r := ShibsessionForMoodle(net, s2.st, s2.out.value, s1.out.value.moodleCookie);
    var shib := ShibsessionCookie(SetCookieHeader(net[7])).value;
    var jar := r.st.jar;
    assert jar[MoodleSessionCookie] == RotatedSessionValue(SetCookieHeader(net[8])).value;
    ShibNameIsNotMoodle(SetCookieHeader(net[7]));
    assert shib.Some? ==> jar[shib.value.name] == shib.value.value;
    forall n
      ensures n in jar <==> n == MoodleSessionCookie || (shib.Some? && n == shib.value.name)
    {
      if n != MoodleSessionCookie && (shib.None? || n != shib.value.name) {
        assert n !in s2.st.jar;
      }
    }
    assert RunLogin(net, username, password).st.jar == jar;
  }
}
