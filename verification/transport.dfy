/** The transport context of the login flow: requests as immutable records,
    the header and redirect defaults of `request_get` / `request_post`
    (main.py lines 35-53), and an abstract network that answers the n-th
    request with the n-th response of the network.

    The `requests` session, TLS, redirect following and HTML parsing are not
    modelled: a response is the cookies it carries, its headers, and the
    values the program's `soup.find(...).attrs[...]` lookups would find in it.
 */
module Transport {
  import opened Wrappers

  type Headers = map<string, string>
  /** A cookie dictionary, and also the Moodle-domain part of the session jar. */
  type Jar = map<string, string>
  /** Form data of a POST. */
  type Form = map<string, string>

  const ShibLoginUrl: string := "https://shibboleth.im.jku.at"
  const MoodleHomeUrl: string := "https://moodle.jku.at/my/"
  const MoodleLoginUrl: string := "https://moodle.jku.at/login/index.php"
  const MoodleLoginByShibUrl: string := "https://moodle.jku.at/auth/shibboleth/index.php"
  const SamlConsumerUrl: string := "https://moodle.jku.at/Shibboleth.sso/SAML2/POST"

  const HeadersForAuth: Headers := map[
    "accept" := "text/html,application/xhtml+xml,application/xml",
    "user-agent" := "Mozilla/5.0 (X11; Linux x86_64) AppleWebKit/537.36 (KHTML, like Gecko) Chrome/67.0.3396.99 Safari/537.36"
  ]

  const HeadersForMoodle: Headers := map[
    "Accept" := "text/html,application/xhtml+xml,application/xml;q=0.9,image/avif,image/webp,image/apng,*/*;q=0.8,application/signed-exchange;v=b3;q=0.7",
    "Accept-Language" := "en-US,en;q=0.9",
    "User-Agent" := "Mozilla/5.0 (Linux; Android 6.0; Nexus 5 Build/MRA58N) AppleWebKit/537.36 (KHTML, like Gecko) Chrome/116.0.0.0 Mobile Safari/537.36"
  ]

  datatype Verb = Get | Post

  /** One request as handed to the session. TLS verification is always off in
      the program, so it is not a field. */
  datatype Request = Request(
    verb: Verb,
    url: string,
    data: Option<Form>,
    headers: Headers,
    cookies: Option<Jar>,
    allowRedirects: bool)

  /** The HTML lookups the program performs, each `soup.find(...).attrs[...]`. */
  datatype Query =
    | FirstAnchorHref                               // soup.find('a').attrs['href']
    | FormAction(attr: string, attrValue: string)   // soup.find('form', attrs={attr: attrValue}).attrs['action']
    | InputValue(name: string)                      // soup.find('input', attrs={'name': name}).attrs['value']

  /** What the program reads from a response. A query is absent from `page`
      exactly when its lookup raises (no such element, or no such attribute). */
  datatype Response = Response(
    cookies: Jar,
    headers: Headers,
    page: map<Query, string>)

  /** The network: the n-th request of a run is answered by `net[n]`; a
      request past the end of the network's responses is a transport error. */
  type Network = seq<Response>

  /** Everything a run has done so far: the requests issued, in order, and the
      Moodle-domain entries written into the session jar. */
  datatype State = State(trace: seq<Request>, jar: Jar)

  /** `headers or HEADERS_FOR_AUTH`: a missing or empty header set falls back
      to the authentication headers. */
  function ResolveHeaders(headers: Option<Headers>): (r: Headers)
    ensures r != map[]
    ensures headers.Some? && headers.value != map[] ==> r == headers.value
    ensures headers.None? || headers.value == map[] ==> r == HeadersForAuth
  {
    assert "accept" in HeadersForAuth;
    if headers.None? || headers.value == map[] then HeadersForAuth else headers.value
  }

  /** `request_get`: no redirects unless asked, default headers as above. */
  function RequestGet(url: string, headers: Option<Headers> := None, cookies: Option<Jar> := None,
                      allowRedirects: bool := false): (r: Request)
    ensures r.verb == Get && r.url == url && r.data.None?
    ensures r.headers == ResolveHeaders(headers) && r.cookies == cookies
    ensures r.allowRedirects == allowRedirects
  {
    Request(Get, url, None, ResolveHeaders(headers), cookies, allowRedirects)
  }

  /** `request_post`: as `request_get`, carrying form data. */
  function RequestPost(url: string, data: Form, headers: Option<Headers> := None, cookies: Option<Jar> := None,
                       allowRedirects: bool := false): (r: Request)
    ensures r.verb == Post && r.url == url && r.data == Some(data)
    ensures r.headers == ResolveHeaders(headers) && r.cookies == cookies
    ensures r.allowRedirects == allowRedirects
  {
    Request(Post, url, Some(data), ResolveHeaders(headers), cookies, allowRedirects)
  }

  /** A request built without headers or a redirect flag carries the
      authentication headers and does not follow redirects; explicit
      non-empty headers are sent as given. */
  lemma RequestDefaults(url: string, data: Form, cookies: Option<Jar>, h: Headers)
    ensures RequestGet(url, cookies := cookies).headers == HeadersForAuth
    ensures !RequestGet(url, cookies := cookies).allowRedirects
    ensures RequestPost(url, data, cookies := cookies).headers == HeadersForAuth
    ensures !RequestPost(url, data, cookies := cookies).allowRedirects
    ensures h != map[] ==> RequestGet(url, Some(h), cookies).headers == h
    ensures h != map[] ==> RequestPost(url, data, Some(h), cookies).headers == h
  {
  }

  /** The outcome of one exchange: the state with the request appended, and
      the response, or None when the transport raised. */
  datatype Exchange = Exchange(st: State, reply: Option<Response>)

  function Send(net: Network, st: State, rq: Request): (r: Exchange)
    ensures r.st == State(st.trace + [rq], st.jar)
    ensures r.reply.Some? <==> |st.trace| < |net|
    ensures r.reply.Some? ==> r.reply.value == net[|st.trace|]
  {
    var reply := if |st.trace| < |net| then Some(net[|st.trace|]) else None;
    Exchange(State(st.trace + [rq], st.jar), reply)
  }

  /** The value a lookup finds in a response, if any. */
  function Scrape(resp: Response, q: Query): Option<string> {
    Lookup(resp.page, q)
  }

  /** `session.cookies.set(name, value, domain='moodle.jku.at', path='/')`. */
  function StoreCookie(st: State, name: string, value: string): (r: State)
    ensures r.trace == st.trace
    ensures r.jar.Keys == st.jar.Keys + {name} && r.jar[name] == value
    ensures forall n :: n in st.jar && n != name ==> r.jar[n] == st.jar[n]
  {
    State(st.trace, st.jar[name := value])
  }
}
