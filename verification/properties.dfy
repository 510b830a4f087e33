/**
 * Properties of the redirect decision: exclusions win over redirects, a
 * redirect rewrites the host and nothing else, no redirect loops, suffix
 * matching stops at a dot, and letter case does not matter.
 */
module RedirectProperties {
  import opened Wrappers
  import opened Ascii
  import opened Redirect

  /**
   * The set of lowercase hostnames that are redirected, written without
   * reference to the order of the checks: the two bare domains, and every
   * reddit.com subdomain that is not excluded.
   */
  predicate RedirectsHost(h: string) {
    || h == "reddit.com"
    || h == "redd.it"
    || (EndsWith(h, ".reddit.com") && h !in RedditSubdomainBlocklist)
  }

  /** The two bare domains are in neither exclusion set, and `redd.it` is not a reddit.com host. */
  lemma BareDomainsNotExcluded()
    ensures "reddit.com" !in RedditSubdomainBlocklist && "reddit.com" !in ReddItMediaSubdomains
    ensures "redd.it" !in RedditSubdomainBlocklist && "redd.it" !in ReddItMediaSubdomains
    ensures !IsStandardRedditHost("redd.it")
  {
  }

  /** Every subdomain of reddit.com passes the reddit.com test. */
  lemma SubdomainIsStandard(h: string, sub: string)
    requires h == sub + ".reddit.com"
    ensures IsStandardRedditHost(h)
  {
    EndsWithConcat(sub, ".reddit.com");
  }

  /** Blocklist entries `old.reddit.com`, `oauth.reddit.com`, `gateway.reddit.com` are reddit.com hosts. */
  lemma FirstBlocklistEntriesAreStandard(h: string)
    ensures h == "old.reddit.com" ==> IsStandardRedditHost(h)
    ensures h == "oauth.reddit.com" ==> IsStandardRedditHost(h)
    ensures h == "gateway.reddit.com" ==> IsStandardRedditHost(h)
  {
    if h == "old.reddit.com" {
      SubdomainIsStandard(h, "old");
    }
    if h == "oauth.reddit.com" {
      SubdomainIsStandard(h, "oauth");
    }
    if h == "gateway.reddit.com" {
      SubdomainIsStandard(h, "gateway");
    }
  }

  /** Blocklist entries `gql.reddit.com`, `ads.reddit.com`, `accounts.reddit.com` are reddit.com hosts. */
  lemma MiddleBlocklistEntriesAreStandard(h: string)
    ensures h == "gql.reddit.com" ==> IsStandardRedditHost(h)
    ensures h == "ads.reddit.com" ==> IsStandardRedditHost(h)
    ensures h == "accounts.reddit.com" ==> IsStandardRedditHost(h)
  {
    if h == "gql.reddit.com" {
      SubdomainIsStandard(h, "gql");
    }
    if h == "ads.reddit.com" {
      SubdomainIsStandard(h, "ads");
    }
    if h == "accounts.reddit.com" {
      SubdomainIsStandard(h, "accounts");
    }
  }

  /** Blocklist entries `events.reddit.com`, `mod.reddit.com`, `blog.reddit.com` are reddit.com hosts. */
  lemma LastBlocklistEntriesAreStandard(h: string)
    ensures h == "events.reddit.com" ==> IsStandardRedditHost(h)
    ensures h == "mod.reddit.com" ==> IsStandardRedditHost(h)
    ensures h == "blog.reddit.com" ==> IsStandardRedditHost(h)
  {
    if h == "events.reddit.com" {
      SubdomainIsStandard(h, "events");
    }
    if h == "mod.reddit.com" {
      SubdomainIsStandard(h, "mod");
    }
    if h == "blog.reddit.com" {
      SubdomainIsStandard(h, "blog");
    }
  }

  /** Every blocklisted host also passes the reddit.com test, so only the order of the checks spares it. */
  lemma BlocklistHostsAreStandard(h: string)
    requires h in RedditSubdomainBlocklist
    ensures IsStandardRedditHost(h)
  {
    FirstBlocklistEntriesAreStandard(h);
    MiddleBlocklistEntriesAreStandard(h);
    LastBlocklistEntriesAreStandard(h);
  }

  /** No media host is a reddit.com host, so the two exclusion sets never compete. */
  lemma MediaHostsAreShortLinks(h: string)
    requires h in ReddItMediaSubdomains
    ensures IsShortLinkHost(h) && !IsStandardRedditHost(h)
  {
    EndsWithLastCharDiffers(h, ".redd.it", ".reddit.com");
  }

  /** A subdomain of redd.it is never a reddit.com host. */
  lemma ShortLinkSubdomainIsNotStandard(h: string)
    requires EndsWith(h, ".redd.it")
    ensures !IsStandardRedditHost(h)
  {
    EndsWithLastCharDiffers(h, ".redd.it", ".reddit.com");
  }

  /** The ordered checks decide exactly the hosts `RedirectsHost` names, and rewrite only the host. */
  lemma DecideCharacterization(u: Url)
    ensures Decide(u).RedirectTo? <==> RedirectsHost(Lower(u.host))
    ensures Decide(u).RedirectTo? ==> Decide(u).target == WithOldRedditHost(u)
  {
    var h := Lower(u.host);
    BareDomainsNotExcluded();
    if h in ReddItMediaSubdomains {
      MediaHostsAreShortLinks(h);
    }
  }

  /** Every blocklisted host is a reddit.com host, and still it is left alone. */
  lemma BlocklistTakesPrecedence(u: Url)
    requires Lower(u.host) in RedditSubdomainBlocklist
    ensures IsStandardRedditHost(Lower(u.host))
    ensures Decide(u) == Unchanged
  {
    BlocklistHostsAreStandard(Lower(u.host));
  }

  /** Every media host is a redd.it host, and it is left alone. */
  lemma MediaTakesPrecedence(u: Url)
    requires Lower(u.host) in ReddItMediaSubdomains
    ensures IsShortLinkHost(Lower(u.host))
    ensures Decide(u) == Unchanged
  {
    MediaHostsAreShortLinks(Lower(u.host));
  }

  /** The classic host is already lowercase and is the first blocklist entry. */
  lemma OldHostIsBlocklisted()
    ensures Lower(OldRedditHost) == OldRedditHost
    ensures OldRedditHost in RedditSubdomainBlocklist
  {
    assert IsLowercase(OldRedditHost);
  }

  /** The redirect target is itself left alone: following a redirect never redirects again. */
  lemma NoRedirectLoop(u: Url)
    ensures Decide(u).RedirectTo? ==> Decide(Decide(u).target) == Unchanged
  {
    OldHostIsBlocklisted();
  }

  /** Every reddit.com host outside the blocklist is sent to the same URL on the classic host. */
  lemma StandardHostRedirects(u: Url)
    requires IsStandardRedditHost(Lower(u.host))
    requires Lower(u.host) !in RedditSubdomainBlocklist
    ensures Decide(u) == RedirectTo(WithOldRedditHost(u))
  {
    var h := Lower(u.host);
    if h in ReddItMediaSubdomains {
      MediaHostsAreShortLinks(h);
    }
  }

  /** The bare short-link domain is sent to the classic host with path, query and fragment kept. */
  lemma BareShortLinkRedirects(u: Url)
    requires Lower(u.host) == "redd.it"
    ensures Decide(u) == RedirectTo(WithOldRedditHost(u))
    ensures Decide(u).target.path == u.path
  {
    BareDomainsNotExcluded();
  }

  /** Every redd.it subdomain, listed as media or not, is left alone. */
  lemma ShortLinkSubdomainsUnchanged(u: Url)
    requires EndsWith(Lower(u.host), ".redd.it")
    ensures Decide(u) == Unchanged
  {
    ShortLinkSubdomainIsNotStandard(Lower(u.host));
  }

  /** A host outside both families is left alone. */
  lemma UnrelatedHostsUnchanged(u: Url)
    ensures !IsStandardRedditHost(Lower(u.host)) && !IsShortLinkHost(Lower(u.host)) ==> Decide(u) == Unchanged
  {
  }

  /** Look-alike hosts that merely contain a family name belong to neither family. */
  lemma LookalikeHostsOutsideFamilies(h: string)
    requires h in {"notreddit.com", "xredd.it", "reddit.com.example"}
    ensures !IsStandardRedditHost(h) && !IsShortLinkHost(h)
  {
  }

  /** Look-alike hosts that merely contain a family name are left alone. */
  lemma LookalikeHostsUnchanged(u: Url)
    requires Lower(u.host) in {"notreddit.com", "xredd.it", "reddit.com.example"}
    ensures Decide(u) == Unchanged
  {
    LookalikeHostsOutsideFamilies(Lower(u.host));
    UnrelatedHostsUnchanged(u);
  }

  /** Hosts that differ only in letter case get the same decision. */
  lemma CaseInsensitive(u: Url, v: Url)
    requires EqualIgnoringCase(u.host, v.host)
    ensures Decide(u).RedirectTo? <==> Decide(v).RedirectTo?
    ensures u.(host := v.host) == v ==> Decide(u) == Decide(v)
  {
    LowerEqualIffEqualIgnoringCase(u.host, v.host);
  }

  /** A parsed request to an excluded host is let through unlogged, whatever its path or query. */
  lemma HandleRequestHonoursExclusions(u: Url)
    requires Lower(u.host) in RedditSubdomainBlocklist || Lower(u.host) in ReddItMediaSubdomains
    ensures HandleRequest(Some(u)) == Response(Unchanged, false)
  {
    if Lower(u.host) in RedditSubdomainBlocklist {
      BlocklistTakesPrecedence(u);
    } else {
      MediaTakesPrecedence(u);
    }
  }

  /** When the browser follows a redirect the handler issued, the handler lets the new request through. */
  lemma HandleRequestNoRedirectLoop(u: Url)
    ensures HandleRequest(Some(u)).decision.RedirectTo? ==>
      HandleRequest(Some(HandleRequest(Some(u)).decision.target)) == Response(Unchanged, false)
  {
    NoRedirectLoop(u);
  }
}
