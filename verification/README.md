# MoodleJKU-AutoLogin login sequence in Dafny

This project models the browser-less login of `main.py`. The program logs in to the JKU Moodle site through the Shibboleth identity provider in three sequential steps:

1. `get_jsessionid_for_login` (`Login.JsessionidForLogin`) fetches the Moodle home page for its session cookie. It then walks the federation redirect chain to the Shibboleth login form, reading the `JSESSIONID` cookie, the form's `action` and its `csrf_token`.
2. `get_tokens_for_sso` (`Login.TokensForSso`) posts the credential form (`create_payload`, `Login.CreatePayload`) to `SHIB_LOGIN_URL + action`. It reads a fresh form and token from the response and posts again. It then reads `RelayState` and `SAMLResponse`.
3. `set_shibsession_for_moodle` (`Login.ShibsessionForMoodle`) posts the assertion to Moodle. If the raw `Set-Cookie` header contains `_shibsession_`, it stores the federated-session cookie it finds there. It re-sets the original Moodle session cookie. Finally it fetches the federation endpoint again and overwrites the Moodle session cookie with the rotated value from that response's `Set-Cookie` header.

`main` (`Login.RunLogin`) runs the steps in order on a fresh session. Any exception ends the run, and `main` catches it.

How the model works:

- **Python strings.** `PyStr` gives Python's `sep in s`, `s.find(sep)` and `s.split(sep)` exact semantics, including the leftmost, non-overlapping cuts of `split`. `SetCookie` writes the two cookie extractors of lines 115-128 as the same chain of indexed splits. An out-of-range index or a missing header is a failure, and every Python exception is the one generic failure `Err`.
- **The network.** The network is a sequence of responses: the n-th request of a run is answered by the n-th response. A request past the end of the sequence is a transport error. Each response is:
  - its cookies;
  - its headers;
  - the values that the program's `soup.find(...).attrs[...]` lookups find in it. A lookup that would raise is simply absent.

  The client is deterministic, so a statement about every network covers every server behaviour.
- **Run state.** A run's state is its request trace and the Moodle-domain cookie jar.
- **Properties.** `LoginProperties` relates the pipeline to reference definitions that read the needed values straight off the network's responses. It proves:
  - exactly when each step and the whole run succeed;
  - which requests are issued and with what targets, payloads and cookies;
  - what the jar holds afterwards;
  - that a failed extraction prevents every later request: each step stops right after the request whose response fails it (`BootstrapStops`, `ExchangeStops`, `ConsumeStops`). In particular, no credential post follows a failed step 1, and no assertion post follows a missing `RelayState`/`SAMLResponse`.

The `_shibsession_` extraction behaves as intended only when the first occurrence of the marker is the one in front of the cookie name. That the prefix does not contain the marker is not enough. A prefix ending in `_shibsession` combines with the real marker to make an earlier occurrence, and the key shifts (`SetCookie.StraddlingPrefixShiftsKey`). In the same way, a value ending in `_shibsession` and followed by another marker is cut short (`SetCookie.StraddlingValueIsCut`). `SetCookie.ShibsessionOfCookie` states the exact conditions at both ends.

## Model

| member | source | states |
|---|---|---|
| PyStr.FindFrom | main.py:116 | the result is the leftmost occurrence of the separator at or after the start index, and it is None only when no occurrence exists there; this is what `in` at line 116 decides |
| PyStr.SplitSingle | main.py:117 | `str.split` returns exactly one part if and only if the separator is absent, so index 1 exists exactly when the separator occurs |
| PyStr.JoinSplit | main.py:117 | joining the parts of a split with the separator gives back the original string (nothing is lost or reordered) |
| PyStr.SplitPartsFree | main.py:117 | no part of a split contains the separator |
| PyStr.SplitJoinChar | main.py:127 | for a one-character separator, splitting the join of separator-free parts gives the parts back |
| SetCookie.ShibsessionCookie | main.py:115-119 | a missing header counts as `''`; no cookie and no failure without the `_shibsession_` marker; failure exactly when the marker is present but the text up to the next marker has no `=`; a stored name starts with the marker |
| SetCookie.RotatedSessionValue | main.py:127 | fails exactly when the `Set-Cookie` header is missing or has no `=`: absence is fatal here, unlike line 115 |
| SetCookie.ExtractedShapes | main.py:117-127 | an extracted cookie name is the marker plus a key without `=` or another marker; both extracted values contain neither `=` nor `;` |
| SetCookie.RotatedValueOfCookie | main.py:127 | for a header `n=v` followed by nothing, by `;…` or by `=…`, with `v` free of `=` and `;` and `n` free of `=`, the rotated value is exactly `v` |
| SetCookie.ShibsessionOfCookie | main.py:116-119 | for `p + "_shibsession_" + k + "=" + v + t`, with `k` free of `=` and the marker and `v` free of `=`, `;` and the marker, the key is `"_shibsession_" + k` and the value is `v`. Two conditions apply: the first marker must be the one after `p`, and `t` must close the value. `t` closes it if it is empty, starts with `;` or `=`, or starts with another marker that no occurrence inside `v + "_shibsession_"` precedes |
| SetCookie.ShibsessionExample | main.py:115-119 | `_shibsession_64656=ABC123; Path=/; Secure` gives key `_shibsession_64656` and value `ABC123` |
| SetCookie.StraddlingPrefixShiftsKey | main.py:116-119 | a prefix `x_shibsession` without the marker still moves the first occurrence, and the key becomes `_shibsession_shibsession_1` |
| SetCookie.StraddlingValueIsCut | main.py:117 | a value `a_shibsession`, free of the marker but followed by another marker, is extracted as `a`, because the next occurrence starts inside it |
| Transport.ResolveHeaders | main.py:37 | `headers or HEADERS_FOR_AUTH`: absent or empty headers become the authentication headers, others pass through, and the result is never empty |
| Transport.RequestDefaults | main.py:35-47 | a GET or POST built without headers or a redirect flag carries `HEADERS_FOR_AUTH` and does not follow redirects; explicit non-empty headers are sent unchanged |
| Transport.StoreCookie | main.py:121 | setting a cookie gives it the new value and leaves every other entry and the trace unchanged |
| Login.CreatePayload | main.py:56-62 | exactly the four fields `csrf_token`, `j_username`, `j_password`, `_eventId_proceed`; the first three carry the arguments unchanged and the last is always `Login` |
| Login.JsessionidForLogin | main.py:65-87 | issues between one and five GET requests and nothing else, leaves the jar alone, and on success has issued all five and hands on `create_payload` of a scraped token with the given username and password |
| Login.TokensForSso | main.py:90-106 | issues one or two POST requests and nothing else; the first goes to `SHIB_LOGIN_URL + redirect_url` unaltered and carries step 1's payload; on success both were issued |
| Login.ShibsessionForMoodle | main.py:109-128 | first posts RelayState and SAMLResponse to the SAML consumer; on success it issued exactly two requests and the jar's Moodle session cookie is the rotated value from the second response's `Set-Cookie` |
| Login.RunLogin | main.py:133-154 | a run issues at most nine requests; a successful one issues exactly nine and leaves the Moodle session cookie in the jar |
| LoginProperties.BootstrapOutcome | main.py:65-87 | step 1 succeeds exactly when its five responses carry the Moodle cookie, the first anchor's href, `Location`, `JSESSIONID`, the form action and the token; it then issues the five reference requests and hands on the reference values |
| LoginProperties.BootstrapStops | main.py:67-86 | step 1 issues exactly as many requests as it gets through: one after a missing Moodle cookie, two after a failed second request, three after a missing anchor, four after a missing `Location` or `JSESSIONID`, otherwise five; it fails whenever it stops early |
| LoginProperties.NoAnchorStops | main.py:73-77 | without an anchor on the federation page, step 1 fails right after its third request |
| LoginProperties.ExchangeOutcome | main.py:90-106 | step 2 succeeds exactly when its responses carry the form action, the fresh token, `RelayState` and `SAMLResponse`; the second post targets `SHIB_LOGIN_URL + action` from the first post's response and carries that response's token |
| LoginProperties.ExchangeStops | main.py:93-101 | step 2 sends its second post only when the first response carries the form action and the token, and otherwise fails after one request |
| LoginProperties.ConsumeOutcome | main.py:109-128 | given the original Moodle cookie, step 3 succeeds exactly when both `Set-Cookie` headers parse; its second request is the Moodle-headed GET of the federation endpoint; afterwards the Moodle cookie holds the rotated value; a named federated-session cookie is stored with its value; no other jar entry changes |
| LoginProperties.ConsumeStops | main.py:112-128 | when the assertion post fails or its `Set-Cookie` raises at line 117, step 3 fails after that one request with the jar untouched; otherwise it issues the federation GET too; if that GET or the line-127 parse fails, the jar keeps the original Moodle cookie re-set at line 123 |
| LoginProperties.ShibNameIsNotMoodle | main.py:119-124 | the federated-session cookie's name always differs from `MoodleSessionjkuSessionCookie`, so re-setting the Moodle cookie never overwrites it |
| LoginProperties.LoginSucceedsIff | main.py:133-140 | a fresh run logs in exactly when the network supplies every value the three steps extract |
| LoginProperties.BootstrapFailureSendsNoPost | main.py:65-93 | when step 1 cannot extract a value, the run fails after at most five requests, all of them GETs, so no credentials are sent |
| LoginProperties.MissingAssertionSkipsConsumer | main.py:101-113 | when `RelayState` or `SAMLResponse` is missing, the run fails after seven requests and no request carries a SAML assertion |
| LoginProperties.CredentialPostTargets | main.py:93-101 | in any run reaching them, the two credential posts go to `SHIB_LOGIN_URL` followed by the scraped action with no normalisation; the first carries step 1's token, the second the token scraped after the first post, and both carry step 1's `JSESSIONID` |
| LoginProperties.SuccessfulRunSteps | main.py:135-140 | a successful run is step 3 applied to the outputs of steps 1 and 2, after seven requests and with an empty jar |
| LoginProperties.SuccessfulRunJar | main.py:121-128 | after a successful run the jar holds exactly the Moodle session cookie (the rotated value) and the federated-session cookie when the assertion response named one |

## Left out

- HTTP, TLS (`verify=False`), redirect following and connection handling belong to the `requests` library. They are replaced by the modelled network. A transport exception (lines 40-42, 51-53) is a request past the end of its responses.
- The session jar's automatic absorption of cookies from responses, and its domain and path scoping, are `requests` internals. The jar holds only the entries the program sets explicitly (lines 121-128), on top of the empty jar of a fresh session.
- HTML parsing by BeautifulSoup/lxml is not modelled. Each `soup.find(...).attrs[...]` is a lookup that is present or absent in the response.
- Header lookups use the exact names `Location` and `Set-Cookie`. The case-insensitive matching of `requests`, and its folding of several `Set-Cookie` headers into one string, are not modelled: the header string is taken as given.
- Logging, `urllib3.disable_warnings` and the `time.time()` timings (lines 11-14, 132, 145, 152) are side effects with no bearing on the flow.
- The fetches after login (lines 142-152) and the command line and environment fallback (lines 157-170) are glue around the login. `RunLogin` ends where the login does.
- PyStr.Split: requires a non-empty separator. Python raises ValueError on an empty one, and every separator in the program is a non-empty literal.
- Facts about the code the model keeps as written:
  - Scraped form actions are appended to `SHIB_LOGIN_URL`; they are not resolved as URLs.
  - A failure is whatever Python raises (KeyError, AttributeError, IndexError or a `requests` exception), and `main` catches all of them alike. The model therefore has one failure value.
  - The first login form is found by `name="form1"`, the second by `id="loginform"`.
