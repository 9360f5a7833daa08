/** `handle_client_request`: from the requested resource to the response.
    The resource is normalised (the default document for "" and "/", every
    surrounding '/' stripped otherwise); a URL ending in "exit" stops the
    server; every other URL is put under "webroot/" and answered, in this
    order, by a redirect, by the area endpoint, by 404 for a missing file or
    by 200 with the file. */
module Router {
  import opened Text
  import opened Config
  import opened Header
  import opened Responses
  import opened Area

  /** `DEFAULT_URL if resource == '' or resource == '/' else resource.strip('/')`. */
  function NormalizedUrl(resource: string): string {
    if resource == "" || resource == "/" then DEFAULT_URL else Strip(resource, '/')
  }

  /** The URL with "webroot/" put in front unless it already starts with it. */
  function RootedUrl(url: string): string {
    if StartsWith(url, "webroot/") then url else "webroot/" + url
  }

  /** `url.split("/")[-1]`: the last path segment, which names the server function. */
  function ServerFunction(url: string): string {
    AfterLast(url, '/')
  }

  /** Which branch of `handle_client_request` answers a resource. */
  datatype Route =
    | Exit
    | Redirect(url: string)
    | Calculate(url: string, request: string)
    | Missing(url: string)
    | Serve(url: string)

  /** The decision chain of `handle_client_request`, first match wins. */
  function RouteOf(resource: string, fs: FileSystem): Route {
    var url := NormalizedUrl(resource);
    if EndsWith(url, "exit") then Exit
    else
      var rooted := RootedUrl(url);
      if rooted in REDIRECTION_DICTIONARY then Redirect(rooted)
      else
        var serverFunction := ServerFunction(rooted);
        if Contains(serverFunction, "calculate-area") then Calculate(rooted, serverFunction)
        else if rooted !in fs then Missing(rooted)
        else Serve(rooted)
  }

  /** What `handle_client_request` returns: the code that stops the server, or a response sent. */
  datatype Outcome = CloseServer | Responded(response: Response) {
    /** The value `handle_client_request` returns. */
    function Code(): int {
      match this
      case CloseServer => CLOSE_SERVER_STATUS_CODE
      case Responded(r) => r.code
    }
  }

  /** A route the chain can produce: a redirect names a key, a served URL names a file. */
  predicate Answerable(route: Route, fs: FileSystem) {
    && (route.Redirect? ==> route.url in REDIRECTION_DICTIONARY)
    && (route.Serve? ==> route.url in fs && route.url != "")
  }

  /** The framer each branch of `handle_client_request` calls. */
  function Respond(route: Route, fs: FileSystem, date: string): Outcome
    requires Answerable(route, fs)
  {
    match route
    case Exit => CloseServer
    case Redirect(url) => Responded(MovedTemporarily(url, fs, date))
    case Calculate(_, request) => Responded(CalculateArea(request, date))
    case Missing(_) => Responded(NotFound(date))
    case Serve(url) => Responded(Ok([], url, fs, date))
  }

  /** Every route the chain picks can be answered. */
  lemma RoutesAnswerable(resource: string, fs: FileSystem)
    ensures Answerable(RouteOf(resource, fs), fs)
  {
    RootedUrlIsRooted(NormalizedUrl(resource));
  }

  /** `handle_client_request(resource)` with the files `fs` and the clock reading `date`. */
  function HandleClientRequest(resource: string, fs: FileSystem, date: string): Outcome {
    RoutesAnswerable(resource, fs);
    Respond(RouteOf(resource, fs), fs, date)
  }

  // ---------------------------------------------------------------------
  // Normalisation

  /** "" and "/" ask for the default document; any other resource loses exactly its leading and
      trailing runs of '/' and keeps everything in between. */
  lemma NormalizedUrlSpec(resource: string)
    ensures resource == "" || resource == "/" ==> NormalizedUrl(resource) == DEFAULT_URL
    ensures resource != "" && resource != "/" ==>
      var url := NormalizedUrl(resource);
      && (url == [] || (url[0] != '/' && url[|url| - 1] != '/'))
      && exists i, j :: resource == Repeat('/', i) + url + Repeat('/', j)
  {
    StripSpec(resource, '/');
  }

  /** Normalising is idempotent for every resource other than "" and "/". */
  lemma NormalizedUrlIdempotent(resource: string)
    requires resource != "" && resource != "/"
    requires NormalizedUrl(resource) != ""
    ensures NormalizedUrl(NormalizedUrl(resource)) == NormalizedUrl(resource)
  {
    var url := Strip(resource, '/');
    StripIdempotent(resource, '/');
    StripSpec(resource, '/');
    assert url != "/";
  }

  /** A resource made only of two or more '/' is not the default document: it normalises to the
      empty URL, which is looked up as "webroot/". That path is served when the file system holds
      it and answered with 404 otherwise; on a real file system `os.path.isfile` is false for a
      path ending in '/', so the answer there is always 404. */
  lemma SlashOnlyResource(n: nat, fs: FileSystem)
    requires n >= 2
    ensures NormalizedUrl(Repeat('/', n)) == ""
    ensures RouteOf(Repeat('/', n), fs) == if "webroot/" in fs then Serve("webroot/") else Missing("webroot/")
  {
    SlashesStripToEmpty(n);
    EmptyUrlRoute(Repeat('/', n), fs);
  }

  /** Two or more '/' normalise to the empty URL. */
  lemma SlashesStripToEmpty(n: nat)
    requires n >= 2
    ensures NormalizedUrl(Repeat('/', n)) == ""
  {
    assert |Repeat('/', n)| == n;
    TrimStartOfRun('/', n);
  }

  /** A resource that normalises to the empty URL is looked up as "webroot/", whose last segment is empty. */
  lemma EmptyUrlRoute(resource: string, fs: FileSystem)
    requires NormalizedUrl(resource) == ""
    ensures RouteOf(resource, fs) == if "webroot/" in fs then Serve("webroot/") else Missing("webroot/")
  {
    EmptyUrlLookup();
  }

  /** The steps of the chain for the empty URL: no exit, the rooted URL "webroot/", no redirect key,
      and an empty last segment, which names no area request. */
  lemma EmptyUrlLookup()
    ensures !EndsWith("", "exit") && RootedUrl("") == "webroot/"
    ensures "webroot/" !in REDIRECTION_DICTIONARY && !Contains(ServerFunction("webroot/"), "calculate-area")
  {
    assert RootedUrl("") == "webroot/";
    assert "webroot" + ['/'] + "" == "webroot/";
    AfterLastOf("webroot", '/', "");
  }

  /** Every rooted URL starts with "webroot/", and rooting changes only URLs outside "webroot/". */
  lemma RootedUrlIsRooted(url: string)
    ensures StartsWith(RootedUrl(url), "webroot/")
    ensures StartsWith(url, "webroot/") <==> RootedUrl(url) == url
  {
    if !StartsWith(url, "webroot/") {
      var rooted := "webroot/" + url;
      assert rooted[..8] == "webroot/";
      assert rooted != url by {
        assert |rooted| != |url|;
      }
    }
  }

  /** Every URL a route carries (redirect, area, 404 or 200) starts with "webroot/". */
  lemma RoutedUrlsRooted(resource: string, fs: FileSystem)
    requires !RouteOf(resource, fs).Exit?
    ensures StartsWith(RouteOf(resource, fs).url, "webroot/")
  {
    RootedUrlIsRooted(NormalizedUrl(resource));
  }

  // ---------------------------------------------------------------------
  // Redirects

  /** The redirect lookup never sees the keys "home" and "home.html": every URL looked up starts with "webroot/". */
  lemma UnreachableKeys(url: string)
    ensures RootedUrl(url) != "home" && RootedUrl(url) != "home.html"
  {
    RootedUrlIsRooted(url);
    var rooted := RootedUrl(url);
    assert rooted[0] == 'w';
  }

  /** Putting "webroot/" in front of a name is one-to-one. */
  lemma RootedInjective(a: string, b: string)
    requires "webroot/" + a == "webroot/" + b
    ensures a == b
  {
    assert a == ("webroot/" + a)[8..];
    assert b == ("webroot/" + b)[8..];
  }

  /** The keys outside "webroot/" are "home" and "home.html". */
  lemma UnrootedKeys(url: string)
    requires url in REDIRECTION_DICTIONARY && !StartsWith(url, "webroot/")
    ensures url == "home" || url == "home.html"
  {
    assert "webroot/home"[..8] == "webroot/";
    assert "webroot/home.html"[..8] == "webroot/";
  }

  /** A key found after prefixing "webroot/" to a URL outside "webroot/" is "webroot/home" or
      "webroot/home.html", prefixed to "home" or "home.html". */
  lemma PrefixedKeys(url: string)
    requires "webroot/" + url in REDIRECTION_DICTIONARY
    ensures url == "home" || url == "home.html"
  {
    var rooted := "webroot/" + url;
    assert rooted[0] == 'w';
    if rooted == "webroot/home" {
      assert "webroot/home" == "webroot/" + "home";
      RootedInjective(url, "home");
    } else {
      assert rooted == "webroot/home.html";
      assert "webroot/home.html" == "webroot/" + "home.html";
      RootedInjective(url, "home.html");
    }
  }

  /** Despite the prefixing, the lookup redirects exactly the URLs that are keys, each to the target
      of its own key: the unreachable keys are covered by their "webroot/" twins. */
  lemma RootedLookup(url: string)
    ensures RootedUrl(url) in REDIRECTION_DICTIONARY <==> url in REDIRECTION_DICTIONARY
    ensures url in REDIRECTION_DICTIONARY ==> REDIRECTION_DICTIONARY[RootedUrl(url)] == REDIRECTION_DICTIONARY[url]
  {
    if !StartsWith(url, "webroot/") {
      if "webroot/" + url in REDIRECTION_DICTIONARY {
        PrefixedKeys(url);
      }
      if url in REDIRECTION_DICTIONARY {
        UnrootedKeys(url);
        if url == "home" {
          assert "webroot/" + url == "webroot/home";
        } else {
          assert "webroot/" + url == "webroot/home.html";
        }
      }
    }
  }

  /** No key of the redirect table ends with "exit". */
  lemma NoExitKey(url: string)
    requires url in REDIRECTION_DICTIONARY
    ensures !EndsWith(url, "exit")
  {
    assert url[|url| - 1] != 't';
  }

  /** A resource is redirected exactly when it normalises to a key of the redirect table, and the
      redirect goes to that key's target. */
  lemma RedirectedResources(resource: string, fs: FileSystem)
    ensures RouteOf(resource, fs).Redirect? <==> NormalizedUrl(resource) in REDIRECTION_DICTIONARY
    ensures RouteOf(resource, fs).Redirect? ==>
      REDIRECTION_DICTIONARY[RouteOf(resource, fs).url] == REDIRECTION_DICTIONARY[NormalizedUrl(resource)]
  {
    var url := NormalizedUrl(resource);
    RootedLookup(url);
    if url in REDIRECTION_DICTIONARY {
      NoExitKey(url);
    }
  }

  // ---------------------------------------------------------------------
  // Precedence and responses

  /** The exit check comes first: a normalised URL ending in "exit" stops the server whatever the
      files, and nothing else does. */
  lemma ExitFirst(resource: string, fs: FileSystem, date: string)
    ensures HandleClientRequest(resource, fs, date) == CloseServer <==> EndsWith(NormalizedUrl(resource), "exit")
    ensures HandleClientRequest(resource, fs, date).Code() == CLOSE_SERVER_STATUS_CODE <==> EndsWith(NormalizedUrl(resource), "exit")
  {
  }

  /** A URL whose last segment contains "calculate-area" is answered by the area endpoint with that
      segment, unless it is a redirect key or ends in "exit"; files are not consulted. */
  lemma AreaRoute(resource: string, fs: FileSystem, date: string)
    requires !EndsWith(NormalizedUrl(resource), "exit")
    requires NormalizedUrl(resource) !in REDIRECTION_DICTIONARY
    requires Contains(ServerFunction(RootedUrl(NormalizedUrl(resource))), "calculate-area")
    ensures HandleClientRequest(resource, fs, date) ==
      Responded(CalculateArea(ServerFunction(RootedUrl(NormalizedUrl(resource))), date))
  {
    RootedLookup(NormalizedUrl(resource));
  }

  /** A resource that is neither exit, redirect nor area is answered with its file and 200 when the
      rooted URL is a file, and with the 404 response otherwise. */
  lemma FileRoute(resource: string, fs: FileSystem, date: string)
    requires !EndsWith(NormalizedUrl(resource), "exit")
    requires NormalizedUrl(resource) !in REDIRECTION_DICTIONARY
    requires !Contains(ServerFunction(RootedUrl(NormalizedUrl(resource))), "calculate-area")
    ensures var url := RootedUrl(NormalizedUrl(resource));
      && (url in fs ==> HandleClientRequest(resource, fs, date) == Responded(Ok([], url, fs, date)))
      && (url in fs ==> HandleClientRequest(resource, fs, date).response.body == fs[url])
      && (url !in fs ==> HandleClientRequest(resource, fs, date) == Responded(NotFound(date)))
  {
    RootedLookup(NormalizedUrl(resource));
    RootedUrlIsRooted(NormalizedUrl(resource));
  }

  /** "" and "/" serve webroot/index.html with 200 when it is a file, and 404 otherwise. */
  lemma DefaultDocument(resource: string, fs: FileSystem, date: string)
    requires resource == "" || resource == "/"
    ensures DEFAULT_URL in fs ==> HandleClientRequest(resource, fs, date) == Responded(Ok([], DEFAULT_URL, fs, date))
    ensures DEFAULT_URL !in fs ==> HandleClientRequest(resource, fs, date) == Responded(NotFound(date))
  {
    DefaultUrlNotExitOrKey();
    DefaultUrlRooted();
    DefaultUrlNotArea();
    FileRoute(resource, fs, date);
  }

  /** The default document is not an exit or a redirect key. */
  lemma DefaultUrlNotExitOrKey()
    ensures !EndsWith(DEFAULT_URL, "exit") && DEFAULT_URL !in REDIRECTION_DICTIONARY
  {
    assert DEFAULT_URL[|DEFAULT_URL| - 4..] == "html";
  }

  /** The default document is already under "webroot/". */
  lemma DefaultUrlRooted()
    ensures RootedUrl(DEFAULT_URL) == DEFAULT_URL
  {
    assert DEFAULT_URL[..8] == "webroot/";
  }

  /** The default document's last segment is "index.html", which names no area request. */
  lemma DefaultUrlNotArea()
    ensures !Contains(ServerFunction(DEFAULT_URL), "calculate-area")
  {
    assert DEFAULT_URL == "webroot" + ['/'] + "index.html";
    AfterLastOf("webroot", '/', "index.html");
  }

  /** A redirect is answered with a well-framed 302, or with the well-framed 404 when its target is
      missing; either way the header ends with a blank line. */
  lemma RedirectWellFramed(url: string, fs: FileSystem, date: string)
    requires url in REDIRECTION_DICTIONARY && '\r' !in date
    ensures var r := MovedTemporarily(url, fs, date);
      WellFramed(r) && (r.code == 302 || r.code == 404) && EndsWith(r.head, "\r\n\r\n")
  {
    MovedTemporarilyFraming(url, fs, date);
    if REDIRECTION_DICTIONARY[url] !in fs {
      NotFoundFraming(date);
    }
  }

  /** An outcome that, when it sends a response, sends a well-framed one with one of the codes 200,
      302, 404 and 500, and returns that code. */
  predicate FramedOutcome(outcome: Outcome) {
    outcome.Responded? ==> WellFramed(outcome.response) && outcome.Code() in {200, 302, 404, 500}
  }

  /** The header of the response sent for a route ends with a blank line, except exactly when a file
      of unrecognised type is served. */
  predicate TerminatedOutcome(route: Route, outcome: Outcome) {
    outcome.Responded? ==>
      (EndsWith(outcome.response.head, "\r\n\r\n") <==> !(route.Serve? && FileType(route.url) !in CONTENT_TYPES))
  }

  lemma RedirectOutcomeFramed(route: Route, fs: FileSystem, date: string)
    requires route.Redirect? && Answerable(route, fs) && '\r' !in date
    ensures FramedOutcome(Respond(route, fs, date)) && TerminatedOutcome(route, Respond(route, fs, date))
  {
    RedirectWellFramed(route.url, fs, date);
  }

  lemma CalculateOutcomeFramed(route: Route, fs: FileSystem, date: string)
    requires route.Calculate? && '\r' !in date
    ensures FramedOutcome(Respond(route, fs, date)) && TerminatedOutcome(route, Respond(route, fs, date))
  {
    AreaResponsesWellFramed(route.request, date);
  }

  lemma MissingOutcomeFramed(route: Route, fs: FileSystem, date: string)
    requires route.Missing? && '\r' !in date
    ensures FramedOutcome(Respond(route, fs, date)) && TerminatedOutcome(route, Respond(route, fs, date))
  {
    NotFoundFraming(date);
  }

  lemma ServeOutcomeFramed(route: Route, fs: FileSystem, date: string)
    requires route.Serve? && Answerable(route, fs) && '\r' !in date
    ensures FramedOutcome(Respond(route, fs, date)) && TerminatedOutcome(route, Respond(route, fs, date))
  {
    OkFraming([], route.url, fs, date);
  }

  /** Every response a route is answered with is well framed, with one of the codes 200, 302, 404
      and 500, and the value returned is that response's code; its header ends with a blank line
      unless the route serves a file of unrecognised type. */
  lemma RespondWellFramed(route: Route, fs: FileSystem, date: string)
    requires Answerable(route, fs) && '\r' !in date
    ensures FramedOutcome(Respond(route, fs, date)) && TerminatedOutcome(route, Respond(route, fs, date))
  {
    match route
    case Exit =>
    case Redirect(_) => RedirectOutcomeFramed(route, fs, date);
    case Calculate(_, _) => CalculateOutcomeFramed(route, fs, date);
    case Missing(_) => MissingOutcomeFramed(route, fs, date);
    case Serve(_) => ServeOutcomeFramed(route, fs, date);
  }

  /** Every response `handle_client_request` sends is well framed, with one of the codes 200, 302,
      404 and 500, and the value it returns is that response's code. */
  lemma ResponsesWellFramed(resource: string, fs: FileSystem, date: string)
    requires '\r' !in date
    ensures FramedOutcome(HandleClientRequest(resource, fs, date))
  {
    RoutesAnswerable(resource, fs);
    RespondWellFramed(RouteOf(resource, fs), fs, date);
  }

  /** The header of every response `handle_client_request` sends ends with the blank line that
      separates it from the body, except exactly when it serves a file whose type is not recognised:
      that response has no blank line, so a client reads the file as more header lines. */
  lemma HeaderEndsUnlessUnknownType(resource: string, fs: FileSystem, date: string)
    requires '\r' !in date
    ensures var outcome, route := HandleClientRequest(resource, fs, date), RouteOf(resource, fs);
      outcome.Responded? ==>
        (EndsWith(outcome.response.head, "\r\n\r\n") <==> !(route.Serve? && FileType(route.url) !in CONTENT_TYPES))
  {
    RoutesAnswerable(resource, fs);
    RespondWellFramed(RouteOf(resource, fs), fs, date);
  }
}
