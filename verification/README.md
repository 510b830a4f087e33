# Old Reddit Auto-Redirect — decision model

The extension intercepts every top-level and framed navigation to `reddit.com`, its
subdomains, `redd.it` and its subdomains, and answers each with one of two things:
leave the request alone (`{}`), or send it to the same address on the classic-layout
host `old.reddit.com` (`{ redirectUrl }`). This project models that decision and
proves what it promises.

- `ascii.dfy` — module `Ascii`: ASCII lowercasing of a hostname and the suffix test
  (`toLowerCase`, `endsWith`), with their algebra (idempotence, case-insensitive
  equality, distinct last characters exclude each other).
- `redirect.dfy` — module `Redirect`: the parsed `Url` record, the `Decision`
  (`Unchanged | RedirectTo(target)`), the classic host, the nine-entry service
  blocklist and the four-entry redd.it media set, the two family tests, the ordered
  decision `Decide`, and `HandleRequest`, which takes the parser's result
  (`Option<Url>`) and turns a parse failure into a logged `Unchanged`.
- `properties.dfy` — module `RedirectProperties`: an order-free description of the
  redirected hosts (`RedirectsHost`) and the lemmas: exclusions beat redirects, a
  redirect changes only the host, there is no redirect loop, suffix tests stop at a
  dot, unlisted redd.it subdomains and unrelated hosts are left alone, and letter
  case does not matter.
- `wrappers.dfy` — module `Wrappers`: the `Option` type for the parser's result.

The URL parser is not modelled. `HandleRequest` receives its result: `Some(url)`
for an address that parsed, `None` where `new URL(...)` would throw. The answer
carries a `logged` flag that stands for the `console.error` call on the failure path.

## Model

| member | source | states |
|---|---|---|
| Ascii.LowerChar | extension/background.js:79 | a character's lowercase form is never an upper-case letter, upper-case letters move to their lower-case partner, and every other character is kept |
| Ascii.Lower | extension/background.js:79 | the hostname's lowercase form has the same length, maps each character through ASCII lowercasing, contains no upper-case letter, and leaves an already-lowercase string as it is |
| Ascii.LowerIdempotent | extension/background.js:79 | lowercasing an already lowercased hostname changes nothing |
| Ascii.LowerEqualIffEqualIgnoringCase | extension/background.js:79 | two hostnames have the same lowercase form exactly when they are equal letter by letter up to case |
| Ascii.EndsWithConcat | extension/background.js:61 | a string ends with whatever was appended to it last, so `endsWith` accepts every `<sub>.reddit.com` |
| Ascii.EndsWithLastCharDiffers | extension/background.js:61-68 | a host cannot end with two suffixes whose last characters differ, so `.redd.it` and `.reddit.com` hosts never overlap |
| Redirect.IsStandardRedditHost | extension/background.js:60-62 | the reddit.com family test holds exactly for `reddit.com` and for hosts ending in `reddit.com` with a dot right before it, so `notreddit.com` is outside the family |
| Redirect.IsShortLinkHost | extension/background.js:67-69 | the redd.it family test holds exactly for `redd.it` and for hosts ending in `redd.it` with a dot right before it, so `xredd.it` is outside the family |
| Redirect.WithOldRedditHost | extension/background.js:93 | setting the hostname to `old.reddit.com` keeps scheme, port, path, query and fragment |
| Redirect.Decide | extension/background.js:79-109 | a redirect happens only for a lowercased host outside both exclusion sets that is a reddit.com host or exactly `redd.it`; its target has host `old.reddit.com` and equals the input in every other field |
| Redirect.HandleRequest | extension/background.js:75-114 | a URL that fails to parse is logged and answered `Unchanged`; a parsed URL is never logged, and any redirect is the parsed URL with the classic host |
| RedirectProperties.DecideCharacterization | extension/background.js:81-109 | the ordered checks redirect exactly the hosts that are `reddit.com`, `redd.it`, or end in `.reddit.com` and are not blocklisted (both directions), and the target is the input with the classic host |
| RedirectProperties.SubdomainIsStandard | extension/background.js:60-62 | every name of the form `<sub>.reddit.com` passes the reddit.com family test |
| RedirectProperties.BlocklistHostsAreStandard | extension/background.js:33-43 | every one of the nine blocklisted hosts also passes the reddit.com family test |
| RedirectProperties.BlocklistTakesPrecedence | extension/background.js:81-95 | a host whose lowercase form is blocklisted is left alone although it passes the reddit.com test, whatever the path or query |
| RedirectProperties.MediaHostsAreShortLinks | extension/background.js:49-54 | each of the four media hosts is in the redd.it family and not in the reddit.com family |
| RedirectProperties.MediaTakesPrecedence | extension/background.js:86-89 | a host whose lowercase form is a media host is a redd.it host and is left alone |
| RedirectProperties.OldHostIsBlocklisted | extension/background.js:26-34 | the redirect target is already lowercase and is on the blocklist |
| RedirectProperties.NoRedirectLoop | extension/background.js:81-94 | deciding on the target of any redirect yields `Unchanged` |
| RedirectProperties.StandardHostRedirects | extension/background.js:91-95 | a reddit.com host that is not blocklisted is redirected to the input URL with only the host replaced |
| RedirectProperties.BareShortLinkRedirects | extension/background.js:97-103 | the bare host `redd.it` is redirected to the classic host with the path (and every other field) kept |
| RedirectProperties.ShortLinkSubdomainIsNotStandard | extension/background.js:60-69 | a host ending in `.redd.it` never passes the reddit.com family test |
| RedirectProperties.ShortLinkSubdomainsUnchanged | extension/background.js:97-106 | every host ending in `.redd.it`, listed as media or not, is left alone |
| RedirectProperties.UnrelatedHostsUnchanged | extension/background.js:108-109 | a host in neither family is left alone |
| RedirectProperties.LookalikeHostsUnchanged | extension/background.js:60-69 | `notreddit.com`, `xredd.it` and `reddit.com.example` are in neither family and are left alone |
| RedirectProperties.HandleRequestHonoursExclusions | extension/background.js:76-89 | a parsed request whose lowercased host is blocklisted or a media host is let through unchanged and unlogged, whatever its path or query |
| RedirectProperties.HandleRequestNoRedirectLoop | extension/background.js:76-94 | when the handler redirects a parsed request, the handler lets the redirected request through unchanged and unlogged |
| RedirectProperties.CaseInsensitive | extension/background.js:79 | hosts equal up to letter case get the same kind of decision, and URLs that differ only in host case get the same decision |

## Left out

- Choosing between the `browser` and `chrome` namespaces and the guard that logs when the request API is missing (extension/background.js:17-21): host-environment plumbing with no decision in it.
- Registering the listener, its URL match patterns, the `main_frame`/`sub_frame` type filter and `"blocking"` mode (extension/background.js:118-130): semantics of the browser's request API. `Decide` is stated for every URL, including ones the filter would never pass to it.
- The `URL` constructor and `url.toString()`: the WHATWG URL Standard's parser and serialiser. A URL is an already-parsed record and a parse failure is `None`; IDN/punycode, percent-encoding and the serialised string are not modelled, so `RedirectTo` carries a `Url` record rather than a string.
- Username and password of a URL: they are not fields of `Url`. The hostname setter leaves them untouched, as it does the modelled fields.
- The hostname setter's refusal on URLs that cannot have a host (an opaque path): such URLs have an empty hostname, which is in neither family, so they are never rewritten in the first place.
- Ascii.Lower: only `A`–`Z` are lowercased, not the full Unicode case mapping of `toLowerCase`; the URL parser already yields ASCII hostnames for `http` and `https`.
- The text written by `console.error`: only the fact that something is logged is kept, as the `logged` flag of `Response`.
