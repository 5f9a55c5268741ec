/** The url addCookie makes up when it is given none, and, as an assumption
    about Qt rather than behaviour of src/cookiejar.cpp, the cookie-to-url
    matching rules of sections 5.1.3 (domain match) and 5.1.4 (path match) of
    RFC 6265 against which that made-up url, and what the base cookiesForUrl
    serves, can be judged. */
module Urls {
  import opened Cookies

  function Scheme(secure: bool): string { if secure then "https://" else "http://" }

  /** The host of the made-up url: "www" is put in front of a domain that starts with '.'. */
  function MockHost(domain: string): string
  {
    if |domain| > 0 && domain[0] == '.' then "www" + domain else domain
  }

  /** The path of the made-up url: the cookie path, or "/" when it is empty. */
  function MockPath(path: string): string
  {
    if path == "" then "/" else path
  }

  /** addCookie's url for a cookie when no url is given. */
  function MockUrl(c: Cookie): string
  {
    Scheme(c.secure) + MockHost(c.domain) + MockPath(c.path)
  }

  /** addCookie: a non-empty url is used as it is; an empty one is made up. */
  function TargetUrl(c: Cookie, url: string): (r: string)
    ensures r != ""
    ensures url != "" ==> r == url
  {
    if url != "" then url else MockUrl(c)
  }

  predicate IsPrefix(p: string, s: string) { |p| <= |s| && s[..|p|] == p }

  predicate IsSuffix(x: string, s: string) { |x| <= |s| && s[|s| - |x|..] == x }

  /** The parts of an http or https url that cookie matching looks at. */
  datatype UrlParts = UrlParts(secure: bool, host: string, path: string)

  /** Index of the first '/' of `s`, or |s| when there is none. */
  function FirstSlash(s: string): (k: nat)
    ensures k <= |s|
    ensures k < |s| ==> s[k] == '/'
    ensures forall j :: 0 <= j < k ==> s[j] != '/'
  {
    if |s| == 0 || s[0] == '/' then 0 else 1 + FirstSlash(s[1..])
  }

  function SplitAuthority(secure: bool, rest: string): UrlParts
  {
    var k := FirstSlash(rest);
    UrlParts(secure, rest[..k], if k == |rest| then "/" else rest[k..])
  }

  /** A reading of an http(s) url string: scheme, host up to the first '/', path. */
  function ParseUrl(u: string): Option<UrlParts>
  {
    if IsPrefix("https://", u) then Some(SplitAuthority(true, u[8..]))
    else if IsPrefix("http://", u) then Some(SplitAuthority(false, u[7..]))
    else None
  }

  /** Domain match (section 5.1.3 of RFC 6265), with a leading '.' of the
      cookie domain ignored as section 5.2.3 prescribes. */
  predicate DomainMatch(host: string, domain: string)
  {
    var bare := if |domain| > 0 && domain[0] == '.' then domain[1..] else domain;
    host == bare || IsSuffix("." + bare, host)
  }

  /** Path match (section 5.1.4 of RFC 6265). */
  predicate PathMatch(requestPath: string, cookiePath: string)
  {
    requestPath == cookiePath ||
    (IsPrefix(cookiePath, requestPath) &&
     ((|cookiePath| > 0 && cookiePath[|cookiePath| - 1] == '/') || requestPath[|cookiePath|] == '/'))
  }

  /** A cookie applies to a url: domain match, path match, and a secure cookie only over https. */
  predicate Applies(c: Cookie, url: string)
  {
    match ParseUrl(url)
      case None => false
      case Some(p) => DomainMatch(p.host, c.domain) && PathMatch(p.path, MockPath(c.path)) && (c.secure ==> p.secure)
  }

  lemma FirstSlashAt(h: string, p: string)
    requires forall j :: 0 <= j < |h| ==> h[j] != '/'
    requires |p| > 0 && p[0] == '/'
    ensures FirstSlash(h + p) == |h|
  {
    assert forall j :: 0 <= j < |h| ==> (h + p)[j] == h[j];
    assert (h + p)[|h|] == '/';
  }

  /** A url made of a scheme and the rest reads back with that scheme. */
  lemma ParseScheme(secure: bool, rest: string)
    ensures ParseUrl(Scheme(secure) + rest) == Some(SplitAuthority(secure, rest))
  {
    var u := Scheme(secure) + rest;
    if secure {
      assert IsPrefix("https://", u) && u[8..] == rest;
    } else {
      assert u[4] != "https://"[4];
      assert IsPrefix("http://", u) && u[7..] == rest;
    }
  }

  /** A host without '/' followed by a path that starts with '/' splits back into the two. */
  lemma SplitHostPath(secure: bool, host: string, path: string)
    requires forall j :: 0 <= j < |host| ==> host[j] != '/'
    requires |path| > 0 && path[0] == '/'
    ensures SplitAuthority(secure, host + path) == UrlParts(secure, host, path)
  {
    FirstSlashAt(host, path);
    var rest := host + path;
    assert rest[..|host|] == host && rest[|host|..] == path;
  }

  /** The made-up url reads back as the cookie's scheme, www-prefixed host and path. */
  lemma MockUrlParts(c: Cookie)
    requires forall j :: 0 <= j < |c.domain| ==> c.domain[j] != '/'
    requires c.path == "" || c.path[0] == '/'
    ensures ParseUrl(MockUrl(c)) == Some(UrlParts(c.secure, MockHost(c.domain), MockPath(c.path)))
  {
    var host, path := MockHost(c.domain), MockPath(c.path);
    assert forall j :: 0 <= j < |host| ==> host[j] != '/' by {
      if |c.domain| > 0 && c.domain[0] == '.' {
        assert forall j :: 3 <= j < |host| ==> host[j] == c.domain[j - 3];
      }
    }
    assert MockUrl(c) == Scheme(c.secure) + (host + path);
    ParseScheme(c.secure, host + path);
    SplitHostPath(c.secure, host, path);
  }

  /** The made-up url is one the cookie applies to under the RFC 6265 rules:
      that is what the "www" prefix and the "/" default are for. */
  lemma CookieAppliesToMockUrl(c: Cookie)
    requires forall j :: 0 <= j < |c.domain| ==> c.domain[j] != '/'
    requires c.path == "" || c.path[0] == '/'
    ensures Applies(c, MockUrl(c))
  {
    MockUrlParts(c);
    MockHostMatches(c.domain);
  }

  /** The made-up host domain-matches the cookie domain it was made from. */
  lemma MockHostMatches(domain: string)
    ensures DomainMatch(MockHost(domain), domain)
  {
    if |domain| > 0 && domain[0] == '.' {
      var bare := domain[1..];
      assert domain == "." + bare;
      var host := MockHost(domain);
      assert host == "www" + ("." + bare);
      assert host[|host| - |"." + bare|..] == "." + bare;
    }
  }

  /** An http url spelled as host then path reads back as that host and path. */
  lemma HttpUrl(host: string, path: string)
    requires NoSlash(host)
    requires |path| > 0 && path[0] == '/'
    ensures ParseUrl("http://" + host + path) == Some(UrlParts(false, host, path))
  {
    assert "http://" + host + path == Scheme(false) + (host + path);
    ParseScheme(false, host + path);
    SplitHostPath(false, host, path);
  }

  predicate NoSlash(s: string) { forall j :: 0 <= j < |s| ==> s[j] != '/' }

  /** Qt's matching taken to be the RFC 6265 rules above. */
  ghost predicate MatchesByRfc(env: QtEnv)
  {
    forall k, u :: env.matches(k, u) == Applies(k, u)
  }

  /** Under the RFC 6265 rules, what cookiesForUrl hands out is exactly the
      unexpired cookies of the jar that apply to the url. */
  lemma ServedIffApplies(env: QtEnv, jar: seq<Cookie>, c: Cookie, now: Date, url: string)
    requires MatchesByRfc(env)
    ensures c in ForUrl(env, jar, url, now) <==> c in jar && !c.IsExpired(now) && Applies(c, url)
  {
  }

  /** A path at or below the cookie path path-matches it. */
  lemma PathMatchBelow(cookiePath: string, below: string)
    requires |cookiePath| > 0
    requires below == "" || below[0] == '/'
    ensures PathMatch(cookiePath + below, MockPath(cookiePath))
  {
    var path := cookiePath + below;
    assert path[..|cookiePath|] == cookiePath;
    if below != "" {
      assert path[|cookiePath|] == below[0];
    }
  }

  /** Under the RFC 6265 rules, base cookiesForUrl hands an unexpired
      non-secure cookie for ".d" and path p to d itself, at p and at every
      path below p. */
  lemma {:induction false} ForUrlServesDomain(env: QtEnv, jar: seq<Cookie>, c: Cookie, now: Date, below: string)
    requires MatchesByRfc(env)
    requires c in jar && !c.IsExpired(now) && !c.secure
    requires |c.domain| > 0 && c.domain[0] == '.' && NoSlash(c.domain)
    requires |c.path| > 0 && c.path[0] == '/'
    requires below == "" || below[0] == '/'
    ensures c in ForUrl(env, jar, "http://" + c.domain[1..] + c.path + below, now)
  {
    var bare := c.domain[1..];
    var path := c.path + below;
    assert NoSlash(bare) by {
      assert forall j :: 0 <= j < |bare| ==> bare[j] == c.domain[j + 1];
    }
    PathMatchBelow(c.path, below);
    assert "http://" + bare + c.path + below == "http://" + bare + path;
    HttpUrl(bare, path);
    assert Applies(c, "http://" + bare + path);
    ServedIffApplies(env, jar, c, now, "http://" + bare + path);
  }

  /** A non-secure cookie for ".d" and path p applies to every subdomain
      of d at p and below. */
  lemma AppliesToSubdomain(c: Cookie, sub: string, below: string)
    requires !c.secure
    requires |c.domain| > 0 && c.domain[0] == '.' && NoSlash(c.domain)
    requires NoSlash(sub)
    requires |c.path| > 0 && c.path[0] == '/'
    requires below == "" || below[0] == '/'
    ensures Applies(c, "http://" + sub + c.domain + c.path + below)
  {
    var host := sub + c.domain;
    var path := c.path + below;
    assert NoSlash(host) by {
      assert forall j :: 0 <= j < |host| ==> host[j] == if j < |sub| then sub[j] else c.domain[j - |sub|];
    }
    PathMatchBelow(c.path, below);
    assert "http://" + sub + c.domain + c.path + below == "http://" + host + path;
    HttpUrl(host, path);
    SubdomainMatch(sub, c.domain);
  }

  /** Any host ending in ".d" domain-matches the cookie domain ".d". */
  lemma SubdomainMatch(sub: string, domain: string)
    requires |domain| > 0 && domain[0] == '.'
    ensures DomainMatch(sub + domain, domain)
  {
    var host := sub + domain;
    assert domain == "." + domain[1..];
    assert host[|host| - |domain|..] == domain;
  }

  /** Likewise for every subdomain of d. */
  lemma {:induction false} ForUrlServesSubdomains(env: QtEnv, jar: seq<Cookie>, c: Cookie, now: Date, sub: string, below: string)
    requires MatchesByRfc(env)
    requires c in jar && !c.IsExpired(now) && !c.secure
    requires |c.domain| > 0 && c.domain[0] == '.' && NoSlash(c.domain)
    requires NoSlash(sub)
    requires |c.path| > 0 && c.path[0] == '/'
    requires below == "" || below[0] == '/'
    ensures c in ForUrl(env, jar, "http://" + sub + c.domain + c.path + below, now)
  {
    AppliesToSubdomain(c, sub, below);
    ServedIffApplies(env, jar, c, now, "http://" + sub + c.domain + c.path + below);
  }

  /** A host that ends with the bare domain, with no '.' before it, does not domain-match. */
  lemma LookalikeNoDomainMatch(prefix: string, domain: string)
    requires |domain| > 0 && domain[0] == '.'
    requires |prefix| > 0 && prefix[|prefix| - 1] != '.'
    ensures !DomainMatch(prefix + domain[1..], domain)
  {
    var bare := domain[1..];
    var host := prefix + bare;
    assert host != bare;
    if |"." + bare| <= |host| {
      assert host[|host| - |bare| - 1] == prefix[|prefix| - 1];
      assert host[|host| - |bare| - 1..][0] != '.';
    }
  }

  /** Under the RFC 6265 rules, a host that merely ends with the cookie's
      domain, with no '.' before it, is not served that cookie. */
  lemma {:induction false} ForUrlSkipsLookalikeHost(env: QtEnv, jar: seq<Cookie>, c: Cookie, now: Date, prefix: string, path: string)
    requires MatchesByRfc(env)
    requires |c.domain| > 0 && c.domain[0] == '.' && NoSlash(c.domain)
    requires |prefix| > 0 && prefix[|prefix| - 1] != '.' && NoSlash(prefix)
    requires |path| > 0 && path[0] == '/'
    ensures c !in ForUrl(env, jar, "http://" + prefix + c.domain[1..] + path, now)
  {
    var host := prefix + c.domain[1..];
    assert NoSlash(host) by {
      assert forall j :: 0 <= j < |host| ==> host[j] == if j < |prefix| then prefix[j] else c.domain[j - |prefix| + 1];
    }
    assert "http://" + prefix + c.domain[1..] + path == "http://" + host + path;
    HttpUrl(host, path);
    LookalikeNoDomainMatch(prefix, c.domain);
    ServedIffApplies(env, jar, c, now, "http://" + host + path);
  }

  /** Under the RFC 6265 rules, a path that only extends the cookie path
      within its last segment ("/application" for "/app") is not served. */
  lemma {:induction false} ForUrlSkipsSiblingPath(env: QtEnv, jar: seq<Cookie>, c: Cookie, now: Date, host: string, more: string)
    requires MatchesByRfc(env)
    requires NoSlash(host)
    requires |c.path| > 0 && c.path[0] == '/' && c.path[|c.path| - 1] != '/'
    requires |more| > 0 && more[0] != '/'
    ensures c !in ForUrl(env, jar, "http://" + host + c.path + more, now)
  {
    var path := c.path + more;
    assert "http://" + host + c.path + more == "http://" + host + path;
    HttpUrl(host, path);
    assert path[|c.path|] == more[0];
    assert !Applies(c, "http://" + host + path);
    ServedIffApplies(env, jar, c, now, "http://" + host + path);
  }
}
