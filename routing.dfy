/**
 * The request handler `HTTPHandler` of main.py: which response `do_GET`
 * chooses for a request target, and what `do_POST` relays and answers.  The
 * file system, `mimetypes.guess_type` and the relay socket are parameters;
 * writing the status line, headers and file bytes is not modelled, only the
 * response they would make up.
 */
module Routing {
  import opened Results

  /** What follows the headers: nothing, one of the three HTML pages
      (`send_html_file`), or a file served by `send_static_file`, named by the
      relative path of the file opened. */
  datatype Body = NoBody | HtmlFile(page: string) | StaticFile(name: string)

  /** A response: status code, the headers the handler itself sets, and body. */
  datatype Response = Response(status: int, headers: seq<(string, string)>, body: Body)

  const GoitUrl: string := "https://www.goit.global/"

  /** `send_html_file(filename, status)`. */
  function HtmlPage(page: string, status: int): Response {
    Response(status, [("Content-type", "text/html")], HtmlFile(page))
  }

  /** `send_response(302)` with a `Location` header and no body. */
  function Redirect(location: string): Response {
    Response(302, [("Location", location)], NoBody)
  }

  // ------------------------------------------------------------------
  // The path of a request target, as `urllib.parse.urlparse` splits it
  // ------------------------------------------------------------------

  /** The target up to its first `?` or `#`: `urlparse` cuts off the
      fragment, then the query. */
  function BeforeQuery(target: string): (r: string)
    ensures |r| <= |target| && r == target[..|r|]
    ensures '?' !in r && '#' !in r
    ensures |r| < |target| ==> target[|r|] == '?' || target[|r|] == '#'
  {
    if target == [] || target[0] == '?' || target[0] == '#' then []
    else [target[0]] + BeforeQuery(target[1..])
  }

  /** The index of the last `/` in `s`, or 0 when there is none. */
  function LastSlash(s: string): (i: nat)
    ensures i <= |s| && (i < |s| ==> s[i] == '/' || i == 0)
    ensures forall j :: i < j < |s| ==> s[j] != '/'
    ensures '/' in s ==> i < |s| && s[i] == '/'
    ensures '/' !in s ==> i == 0
  {
    if s == [] then 0
    else if s[|s| - 1] == '/' then |s| - 1
    else LastSlash(s[..|s| - 1])
  }

  /** The index of the first `c` in `s` at or after `from`, if any. */
  function FindFrom(s: string, c: char, from: nat): (r: Option<nat>)
    ensures r.Some? ==> from <= r.value < |s| && s[r.value] == c
    ensures r.Some? ==> forall j :: from <= j < r.value ==> s[j] != c
    ensures r.None? ==> forall j :: from <= j < |s| ==> s[j] != c
    decreases |s| - from
  {
    if from >= |s| then None
    else if s[from] == c then Some(from)
    else FindFrom(s, c, from + 1)
  }

  /** `urlparse` moves `;params` out of the last path segment: the path ends
      before the first `;` after the last `/`, and is kept whole without one. */
  function StripParams(p: string): (r: string)
    ensures |r| <= |p| && r == p[..|r|]
    ensures |r| == |p| <==> forall j :: LastSlash(p) <= j < |p| ==> p[j] != ';'
    ensures |r| < |p| ==>
      && LastSlash(p) <= |r| && p[|r|] == ';'
      && forall j :: LastSlash(p) <= j < |r| ==> p[j] != ';'
  {
    match FindFrom(p, ';', LastSlash(p))
    case None => p
    case Some(i) => p[..i]
  }

  /** `urlparse(self.path).path` for a target in origin form: a prefix of the
      target, free of `?` and `#`. */
  function UrlPath(target: string): (r: string)
    ensures |r| <= |target| && r == target[..|r|]
    ensures '?' !in r && '#' !in r
  {
    var q := BeforeQuery(target);
    var r := StripParams(q);
    assert forall j :: 0 <= j < |r| ==> r[j] == q[j];
    r
  }

  /** `path[1:]`: the path without its first character. */
  function Drop1(path: string): string {
    if path == [] then [] else path[1..]
  }

  // ------------------------------------------------------------------
  // do_GET
  // ------------------------------------------------------------------

  /** The `Content-type` of a static file: the guessed type, or `text/plain`
      when `mimetypes` has no guess. */
  function ContentType(guess: (Option<string>, Option<string>)): string {
    match guess.0
    case Some(t) => t
    case None => "text/plain"
  }

  /** `do_GET`, corrected so that the static branch serves the file whose
      existence it checked and falls back to `text/plain`.  `onDisk` stands
      for `pathlib.Path(...).exists()` and `guess` for
      `mimetypes.guess_type`. */
  function RouteGet(target: string, onDisk: string -> bool,
                    guess: string -> (Option<string>, Option<string>)): (r: Response)
    ensures UrlPath(target) == "/" ==> r == HtmlPage("index.html", 200)
    ensures UrlPath(target) == "/message" ==> r == HtmlPage("message.html", 200)
    ensures r.status == 302 <==> UrlPath(target) == "/goit"
    ensures r.status == 302 ==> r == Redirect(GoitUrl)
    ensures r.body == HtmlFile("index.html") <==> UrlPath(target) == "/"
    ensures r.body == HtmlFile("message.html") <==> UrlPath(target) == "/message"
    ensures r.status == 404 <==>
      UrlPath(target) != "/" && UrlPath(target) != "/message" && UrlPath(target) != "/goit"
      && !onDisk(Drop1(UrlPath(target)))
    ensures r.status == 404 ==> r == HtmlPage("error.html", 404)
    ensures r.body.StaticFile? <==>
      UrlPath(target) != "/" && UrlPath(target) != "/message" && UrlPath(target) != "/goit"
      && onDisk(Drop1(UrlPath(target)))
    ensures r.body.StaticFile? ==>
      && r.status == 200 && onDisk(r.body.name)
      && r.body.name == Drop1(UrlPath(target))
    ensures r.body.StaticFile? && guess(UrlPath(target)).0.Some? ==>
      r.headers == [("Content-type", guess(UrlPath(target)).0.value)]
    ensures r.body.StaticFile? && guess(UrlPath(target)).0.None? ==>
      r.headers == [("Content-type", "text/plain")]
  {
    var path := UrlPath(target);
    if path == "/" then HtmlPage("index.html", 200)
    else if path == "/message" then HtmlPage("message.html", 200)
    else if path == "/goit" then Redirect(GoitUrl)
    else if onDisk(Drop1(path)) then
      Response(200, [("Content-type", ContentType(guess(path)))], StaticFile(Drop1(path)))
    else HtmlPage("error.html", 404)
  }

  /** The query string and fragment never change the response: `/message?x=1`
      is the message page, `/style.css#top` the stylesheet. */
  lemma RouteGetIgnoresQuery(path: string, rest: string, onDisk: string -> bool,
                             guess: string -> (Option<string>, Option<string>))
    requires '?' !in path && '#' !in path
    requires rest != [] && (rest[0] == '?' || rest[0] == '#')
    ensures RouteGet(path + rest, onDisk, guess) == RouteGet(path, onDisk, guess)
  {
    BeforeQueryStops(path, rest);
    BeforeQueryStops(path, []);
    assert path + [] == path;
  }

  /** A target without `?` or `#` keeps its whole text as the path before
      `;params` are split off. */
  lemma {:induction false} BeforeQueryStops(path: string, rest: string)
    requires '?' !in path && '#' !in path
    requires rest == [] || rest[0] == '?' || rest[0] == '#'
    ensures BeforeQuery(path + rest) == path
    decreases |path|
  {
    if path == [] {
      assert path + rest == rest;
    } else {
      assert (path + rest)[1..] == path[1..] + rest;
      BeforeQueryStops(path[1..], rest);
      assert [path[0]] + path[1..] == path;
    }
  }

  // ------------------------------------------------------------------
  // do_GET as written
  // ------------------------------------------------------------------

  /** How `send_header` prints an `Optional[str]`: `%s` turns `None` into
      the text `None`. */
  function Show(v: Option<string>): string {
    match v
    case Some(s) => s
    case None => "None"
  }

  /** `if mt: ... mt[0] ... else: "text/plain"` as written: `mt` is the
      2-tuple `guess_type` returns, and a non-empty tuple is always true, so
      the fallback is never taken and an unknown type is sent as `None`. */
  function ContentTypeAsWritten(mt: (Option<string>, Option<string>)): string {
    var tupleLength := 2;
    if tupleLength > 0 then Show(mt.0) else "text/plain"
  }

  /** The relative path of the file `open(name)` opens: `./x` is `x`. */
  function Resolve(name: string): string {
    if |name| >= 2 && name[..2] == "./" then name[2..] else name
  }

  /** `send_static_file` as written: it guesses the type of, and opens
      `"." + self.path`, the WHOLE request target, query and fragment
      included. */
  function StaticAsWritten(target: string, guess: string -> (Option<string>, Option<string>)): Response {
    Response(200, [("Content-type", ContentTypeAsWritten(guess(target)))],
             StaticFile(Resolve("." + target)))
  }

  /** `do_GET` as written: existence is checked for the parsed path, the file
      served is named by the raw target. */
  function RouteGetAsWritten(target: string, onDisk: string -> bool,
                             guess: string -> (Option<string>, Option<string>)): Response {
    var path := UrlPath(target);
    if path == "/" then HtmlPage("index.html", 200)
    else if path == "/message" then HtmlPage("message.html", 200)
    else if path == "/goit" then Redirect(GoitUrl)
    else if onDisk(Drop1(path)) then StaticAsWritten(target, guess)
    else HtmlPage("error.html", 404)
  }

  /** For a plain target (leading `/`, no query, fragment or `;params`) whose
      type `mimetypes` knows, the handler as written and the corrected one
      give the same response. */
  lemma AsWrittenAgreesOnPlainTargets(target: string, onDisk: string -> bool,
                                      guess: string -> (Option<string>, Option<string>))
    requires target != [] && target[0] == '/' && UrlPath(target) == target
    requires guess(target).0.Some?
    ensures RouteGetAsWritten(target, onDisk, guess) == RouteGet(target, onDisk, guess)
  {
    var dotted := "." + target;
    assert dotted[..2] == "./" && dotted[2..] == target[1..];
  }

  /** On every target the handler as written answers with the same status
      as the corrected one, and differs from it only in a static answer: the
      file named by the raw target, and the guess for the raw target printed
      with `%s`. */
  lemma AsWrittenDiffersOnlyInStaticFile(target: string, onDisk: string -> bool,
                                         guess: string -> (Option<string>, Option<string>))
    ensures RouteGetAsWritten(target, onDisk, guess).status == RouteGet(target, onDisk, guess).status
    ensures !RouteGet(target, onDisk, guess).body.StaticFile? ==>
      RouteGetAsWritten(target, onDisk, guess) == RouteGet(target, onDisk, guess)
    ensures RouteGet(target, onDisk, guess).body.StaticFile? ==>
      && RouteGetAsWritten(target, onDisk, guess).body == StaticFile(Resolve("." + target))
      && RouteGetAsWritten(target, onDisk, guess).headers == [("Content-type", Show(guess(target).0))]
  {
  }

  /** With a query string the handler as written checks one file and serves
      another: for `/a?b` with `a` on disk and no `a?b` it answers 200 for
      the file `a?b`, which does not exist (the `open` then raises after the headers
      went out). */
  lemma QueryServesUncheckedFile(target: string, onDisk: string -> bool,
                                 guess: string -> (Option<string>, Option<string>))
    requires target == "/a?b" && onDisk("a") && !onDisk("a?b")
    ensures RouteGetAsWritten(target, onDisk, guess).status == 200
    ensures RouteGetAsWritten(target, onDisk, guess).body == StaticFile("a?b")
    ensures RouteGet(target, onDisk, guess).body == StaticFile("a")
  {
    assert BeforeQuery(target) == "/a" by {
      BeforeQueryStops("/a", "?b");
      assert "/a" + "?b" == target;
    }
    assert LastSlash("/a") == 0 by { assert "/a"[..1] == "/"; }
    assert UrlPath(target) == "/a";
    var dotted := "." + target;
    assert dotted[..2] == "./" && dotted[2..] == "a?b";
  }

  /** The `if mt:` test never fails, so a file of unknown type is sent with
      the header `Content-type: None` instead of `text/plain`. */
  lemma UnknownTypeSentAsNone(mt: (Option<string>, Option<string>))
    requires mt.0.None?
    ensures ContentTypeAsWritten(mt) == "None"
    ensures ContentType(mt) == "text/plain"
  {
  }

  // ------------------------------------------------------------------
  // do_POST
  // ------------------------------------------------------------------

  /** Why `do_POST` raises instead of answering: the `Content-Length` header
      is missing or not an integer (`int(None)` / `int("x")`), the length is
      below -1 so that `read` refuses it, or the relay's `sendto` failed. */
  datatype PostError = BadContentLength | NegativeReadLength | RelayFailed

  /** What `do_POST` does: the datagram relayed, and the response. */
  datatype PostReply = PostReply(datagram: string, response: Response)

  /** `self.rfile.read(n)` on the buffered request stream: everything up to
      the end of the stream for `n == -1`, at most `n` characters for
      `n >= 0`, and `ValueError` (`None` here) for any other negative `n`. */
  function ReadBody(stream: string, n: int): (r: Option<string>)
    ensures r.None? <==> n < -1
    ensures r.Some? ==> |r.value| <= |stream| && r.value == stream[..|r.value|]
    ensures n == -1 ==> r == Some(stream)
    ensures n >= 0 ==> r.Some? && |r.value| == if n < |stream| then n else |stream|
  {
    if n < -1 then None
    else if n == -1 || n >= |stream| then Some(stream)
    else Some(stream[..n])
  }

  /** `do_POST`: read `Content-Length` characters of the body, relay them
      unchanged (`send_data_via_socket`), then redirect to `/`.
      `contentLength` is the header parsed by `int()`, `None` when that
      raises; `relayOk` says whether `sendto` returned. */
  function DoPost(contentLength: Option<int>, stream: string, relayOk: bool): (r: Result<PostReply, PostError>)
    ensures r.Ok? <==> contentLength.Some? && contentLength.value >= -1 && relayOk
    ensures contentLength.None? ==> r == Err(BadContentLength)
    ensures contentLength.Some? && contentLength.value < -1 ==> r == Err(NegativeReadLength)
    ensures contentLength.Some? && contentLength.value >= -1 && !relayOk ==> r == Err(RelayFailed)
    ensures r.Ok? ==>
      && r.value.response == Redirect("/")
      && |r.value.datagram| <= |stream|
      && r.value.datagram == stream[..|r.value.datagram|]
      && (contentLength.value == -1 || contentLength.value >= |stream| ==> r.value.datagram == stream)
      && (0 <= contentLength.value <= |stream| ==>
            |r.value.datagram| == contentLength.value)
  {
    match contentLength
    case None => Err(BadContentLength)
    case Some(n) =>
      match ReadBody(stream, n)
      case None => Err(NegativeReadLength)
      case Some(data) =>
        if !relayOk then Err(RelayFailed)
        else Ok(PostReply(data, Redirect("/")))
  }
}
