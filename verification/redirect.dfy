/**
 * The redirect decision of the Old Reddit Auto-Redirect extension: given the
 * requested URL, either leave the request alone or send it to the same
 * address on `old.reddit.com`.
 */
module Redirect {
  import opened Wrappers
  import opened Ascii

  /** An already-parsed URL. `host` is the hostname alone, without the port. */
  datatype Url = Url(
    scheme: string,
    host: string,
    port: string,
    path: string,
    query: string,
    fragment: string)

  /** What the handler tells the browser: `{}` or `{ redirectUrl }`. */
  datatype Decision = Unchanged | RedirectTo(target: Url)

  /** The handler's answer together with whether it wrote a diagnostic. */
  datatype Response = Response(decision: Decision, logged: bool)

  /** The classic-layout host: the target host of every redirect. */
  const OldRedditHost: string := "old.reddit.com"

  /** reddit.com subdomains that run services or already use the classic layout. */
  const RedditSubdomainBlocklist: set<string> := {
    "old.reddit.com",
    "oauth.reddit.com",
    "gateway.reddit.com",
    "gql.reddit.com",
    "ads.reddit.com",
    "accounts.reddit.com",
    "events.reddit.com",
    "mod.reddit.com",
    "blog.reddit.com"
  }

  /** redd.it subdomains that serve images, videos, previews and styles. */
  const ReddItMediaSubdomains: set<string> := {
    "i.redd.it",
    "v.redd.it",
    "preview.redd.it",
    "styles.redd.it"
  }

  /**
   * reddit.com itself or any of its subdomains. The suffix test matches whole
   * labels only: `reddit.com` must be the whole name or follow a dot.
   */
  predicate IsStandardRedditHost(hostname: string): (r: bool)
    ensures r <==> (hostname == "reddit.com"
      || (EndsWith(hostname, "reddit.com") && |hostname| > 10 && hostname[|hostname| - 11] == '.'))
  {
    assert EndsWith(hostname, ".reddit.com") ==>
      hostname[|hostname| - 11..][1..] == hostname[|hostname| - 10..];
    hostname == "reddit.com" || EndsWith(hostname, ".reddit.com")
  }

  /**
   * redd.it itself or any of its subdomains, again matching whole labels only:
   * `redd.it` must be the whole name or follow a dot.
   */
  predicate IsShortLinkHost(hostname: string): (r: bool)
    ensures r <==> (hostname == "redd.it"
      || (EndsWith(hostname, "redd.it") && |hostname| > 7 && hostname[|hostname| - 8] == '.'))
  {
    assert EndsWith(hostname, ".redd.it") ==>
      hostname[|hostname| - 8..][1..] == hostname[|hostname| - 7..];
    hostname == "redd.it" || EndsWith(hostname, ".redd.it")
  }

  /** The same URL served from the classic-layout host. */
  function WithOldRedditHost(u: Url): (r: Url)
    ensures r.host == OldRedditHost
    ensures r.scheme == u.scheme && r.port == u.port && r.path == u.path
    ensures r.query == u.query && r.fragment == u.fragment
  {
    u.(host := OldRedditHost)
  }

  /**
   * The decision for a parsed URL. The checks run in a fixed order: the two
   * exclusion sets first, then the reddit.com family, then the redd.it family.
   */
  function Decide(u: Url): (d: Decision)
    ensures d.RedirectTo? ==> Lower(u.host) !in RedditSubdomainBlocklist
    ensures d.RedirectTo? ==> Lower(u.host) !in ReddItMediaSubdomains
    ensures d.RedirectTo? ==> IsStandardRedditHost(Lower(u.host)) || Lower(u.host) == "redd.it"
    ensures d.RedirectTo? ==> d.target.host == OldRedditHost
    ensures d.RedirectTo? ==> d.target.(host := u.host) == u
  {
    var hostname := Lower(u.host);
    if hostname in RedditSubdomainBlocklist then
      Unchanged
    else if hostname in ReddItMediaSubdomains then
      Unchanged
    else if IsStandardRedditHost(hostname) then
      RedirectTo(WithOldRedditHost(u))
    else if IsShortLinkHost(hostname) then
      if hostname == "redd.it" then RedirectTo(WithOldRedditHost(u)) else Unchanged
    else
      Unchanged
  }

  /**
   * The request handler. `parsed` is the result of the URL parser on the
   * requested address; a parse failure is logged and the request proceeds.
   */
  function HandleRequest(parsed: Option<Url>): (r: Response)
    ensures parsed.None? ==> r.decision == Unchanged && r.logged
    ensures parsed.Some? ==> !r.logged
    ensures r.decision.RedirectTo? ==> parsed.Some? && r.decision.target == WithOldRedditHost(parsed.value)
  {
    match parsed
    case None => Response(Unchanged, true)
    case Some(u) => Response(Decide(u), false)
  }
}
