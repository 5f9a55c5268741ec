/** The cookie value type, the Qt collaborators the jar relies on, and the
    behaviour of the inherited QNetworkCookieJar that src/cookiejar.cpp calls
    (allCookies, setAllCookies, setCookiesFromUrl, cookiesForUrl). */
module Cookies {

  datatype Option<+T> = None | Some(value: T)

  /** A point in time, in seconds; QDateTime comparison becomes `<` on int. */
  type Date = int

  /** QNetworkCookie. A cookie without a valid expiration date is a session cookie. */
  datatype Cookie = Cookie(
    name: string,
    value: string,
    domain: string,
    path: string,
    secure: bool,
    httpOnly: bool,
    expiration: Option<Date>)
  {
    predicate IsSession() { expiration.None? }

    /** The test of purgeExpiredCookies: not a session cookie and expired before `now`. */
    predicate IsExpired(now: Date) { expiration.Some? && expiration.value < now }
  }

  /** A default-constructed QNetworkCookie, returned by lookups that find nothing. */
  const NullCookie := Cookie("", "", "", "", false, false, None)

  /** The identity key under which the base jar replaces cookies. */
  datatype Key = Key(name: string, domain: string, path: string)

  function KeyOf(c: Cookie): Key { Key(c.name, c.domain, c.path) }

  /** No two cookies of `jar` share an identity key. */
  predicate Unique(jar: seq<Cookie>)
  {
    forall i, j :: 0 <= i < j < |jar| ==> KeyOf(jar[i]) != KeyOf(jar[j])
  }

  /** The parts of Qt that src/cookiejar.cpp calls but does not define. */
  datatype QtEnv = QtEnv(
    /** QNetworkCookieJar::cookiesForUrl: does a stored cookie apply to the url. */
    matches: (Cookie, string) -> bool,
    /** QNetworkCookieJar::setCookiesFromUrl: does the jar take this incoming cookie. */
    accepts: (Cookie, string) -> bool,
    /** QNetworkCookie::toRawForm. */
    toRaw: Cookie -> string,
    /** QNetworkCookie::parseCookies. */
    parse: string -> seq<Cookie>,
    /** QDateTime::fromString with "ddd, dd MMM yyyy hh:mm:ss"; None for an invalid date. */
    parseDate: string -> Option<Date>,
    /** QDateTime::toString with the same format. */
    formatDate: Date -> string)

  /** Wire format round trip: parsing the raw form of a cookie gives back that cookie. */
  ghost predicate RawRoundTrips(env: QtEnv, cs: seq<Cookie>)
  {
    forall c :: c in cs ==> env.parse(env.toRaw(c)) == [c]
  }

  /** Index of the stored cookie whose key is `k`, if any (the first one). */
  function FindKey(jar: seq<Cookie>, k: Key): (r: Option<nat>)
    ensures r.Some? ==> r.value < |jar| && KeyOf(jar[r.value]) == k
    ensures r.Some? ==> forall j :: 0 <= j < r.value ==> KeyOf(jar[j]) != k
    ensures r.None? ==> forall j :: 0 <= j < |jar| ==> KeyOf(jar[j]) != k
  {
    if |jar| == 0 then None
    else if KeyOf(jar[0]) == k then Some(0)
    else match FindKey(jar[1..], k)
      case None => None
      case Some(i) => Some(i + 1)
  }

  /** Store one accepted cookie: replace the cookie with the same key, or append. */
  function Upsert(jar: seq<Cookie>, c: Cookie): (r: seq<Cookie>)
    ensures c in r
    ensures forall x :: x in jar && KeyOf(x) != KeyOf(c) ==> x in r
    ensures forall x :: x in r ==> x == c || x in jar
  {
    match FindKey(jar, KeyOf(c))
      case Some(i) =>
        var r := jar[i := c];
        assert forall x :: x in jar && KeyOf(x) != KeyOf(c) ==> exists j :: 0 <= j < |jar| && j != i && jar[j] == x && r[j] == x;
        assert forall j :: 0 <= j < |r| ==> r[j] == c || r[j] == jar[j];
        r
      case None => jar + [c]
  }

  /** Base setCookiesFromUrl: every incoming cookie the jar accepts is stored
      in list order; the flag says whether at least one was stored. */
  function SetFromUrl(env: QtEnv, jar: seq<Cookie>, incoming: seq<Cookie>, url: string): (r: (seq<Cookie>, bool))
    ensures r.1 <==> exists c :: c in incoming && env.accepts(c, url)
    ensures !r.1 ==> r.0 == jar
    decreases |incoming|
  {
    if |incoming| == 0 then (jar, false)
    else
      var c := incoming[0];
      var jar' := if env.accepts(c, url) then Upsert(jar, c) else jar;
      var rest := SetFromUrl(env, jar', incoming[1..], url);
      assert forall x :: x in incoming[1..] ==> x in incoming;
      (rest.0, env.accepts(c, url) || rest.1)
  }

  /** No cookie of `cs` that the jar accepts for `url` has key `k`. */
  predicate NoAcceptedKey(env: QtEnv, cs: seq<Cookie>, url: string, k: Key)
  {
    forall m :: 0 <= m < |cs| && env.accepts(cs[m], url) ==> KeyOf(cs[m]) != k
  }

  /** What the base setCookiesFromUrl leaves in the jar: only old cookies and
      accepted incoming ones; every old cookie whose key no accepted incoming
      cookie has; and every accepted incoming cookie that no later accepted
      one replaces. */
  lemma {:induction false} SetFromUrlContents(env: QtEnv, jar: seq<Cookie>, incoming: seq<Cookie>, url: string)
    ensures forall x :: x in SetFromUrl(env, jar, incoming, url).0 ==> x in jar || (x in incoming && env.accepts(x, url))
    ensures forall x :: x in jar && NoAcceptedKey(env, incoming, url, KeyOf(x)) ==> x in SetFromUrl(env, jar, incoming, url).0
    ensures forall i :: 0 <= i < |incoming| && env.accepts(incoming[i], url) && NoAcceptedKey(env, incoming[i + 1..], url, KeyOf(incoming[i])) ==>
      incoming[i] in SetFromUrl(env, jar, incoming, url).0
    decreases |incoming|
  {
    if |incoming| > 0 {
      var c := incoming[0];
      var rest := incoming[1..];
      var jar' := if env.accepts(c, url) then Upsert(jar, c) else jar;
      var r := SetFromUrl(env, jar, incoming, url).0;
      assert r == SetFromUrl(env, jar', rest, url).0;
      SetFromUrlContents(env, jar', rest, url);
      assert forall x :: x in rest ==> x in incoming;
      forall x | x in jar && NoAcceptedKey(env, incoming, url, KeyOf(x)) ensures x in r {
        assert NoAcceptedKey(env, rest, url, KeyOf(x)) by {
          forall m | 0 <= m < |rest| && env.accepts(rest[m], url) ensures KeyOf(rest[m]) != KeyOf(x) {
            assert rest[m] == incoming[m + 1];
          }
        }
      }
      forall i | 0 <= i < |incoming| && env.accepts(incoming[i], url) && NoAcceptedKey(env, incoming[i + 1..], url, KeyOf(incoming[i]))
        ensures incoming[i] in r
      {
        if i == 0 {
          assert incoming[1..] == rest;
        } else {
          assert incoming[i + 1..] == rest[i..];
          assert incoming[i] == rest[i - 1];
        }
      }
    }
  }

  /** Base cookiesForUrl hands out a stored cookie when it applies to the url
      and has not expired by the current time. */
  predicate Visible(env: QtEnv, c: Cookie, url: string, now: Date)
  {
    env.matches(c, url) && !c.IsExpired(now)
  }

  /** Cookies with longer paths come first (section 5.4 of RFC 6265). */
  predicate PathOrdered(s: seq<Cookie>)
  {
    forall i, j :: 0 <= i < j < |s| ==> |s[i].path| >= |s[j].path|
  }

  /** Inserts `c` before the first cookie with a shorter path, or at the end. */
  function InsertByPath(c: Cookie, sorted: seq<Cookie>): (r: seq<Cookie>)
    ensures |r| == |sorted| + 1
    ensures forall x :: x in r <==> x == c || x in sorted
  {
    if |sorted| == 0 then [c]
    else if |sorted[0].path| < |c.path| then [c] + sorted
    else
      assert forall x :: x in sorted <==> x == sorted[0] || x in sorted[1..];
      [sorted[0]] + InsertByPath(c, sorted[1..])
  }

  /** Inserting adds exactly the one cookie: the result is a permutation of the list plus `c`. */
  lemma {:induction false} InsertByPathPermutes(c: Cookie, sorted: seq<Cookie>)
    ensures multiset(InsertByPath(c, sorted)) == multiset(sorted) + multiset{c}
    decreases |sorted|
  {
    if |sorted| > 0 && |sorted[0].path| >= |c.path| {
      InsertByPathPermutes(c, sorted[1..]);
      assert sorted == [sorted[0]] + sorted[1..];
    }
  }

  /** Inserting a cookie whose path is no longer than `n` into a list whose
      paths are no longer than `n` keeps every path no longer than `n`. */
  lemma {:induction false} InsertByPathBound(c: Cookie, sorted: seq<Cookie>, n: nat)
    requires |c.path| <= n
    requires forall i :: 0 <= i < |sorted| ==> |sorted[i].path| <= n
    ensures forall i :: 0 <= i < |InsertByPath(c, sorted)| ==> |InsertByPath(c, sorted)[i].path| <= n
    decreases |sorted|
  {
    if |sorted| > 0 && |sorted[0].path| >= |c.path| {
      InsertByPathBound(c, sorted[1..], n);
    }
  }

  /** Inserting by path keeps a path-ordered list path-ordered. */
  lemma {:induction false} InsertByPathOrdered(c: Cookie, sorted: seq<Cookie>)
    requires PathOrdered(sorted)
    ensures PathOrdered(InsertByPath(c, sorted))
    decreases |sorted|
  {
    if |sorted| > 0 && |sorted[0].path| >= |c.path| {
      var head := sorted[0];
      var rest := InsertByPath(c, sorted[1..]);
      InsertByPathOrdered(c, sorted[1..]);
      InsertByPathBound(c, sorted[1..], |head.path|);
      var r := [head] + rest;
      assert InsertByPath(c, sorted) == r;
      forall i, j | 0 <= i < j < |r| ensures |r[i].path| >= |r[j].path| {
        assert r[j] == rest[j - 1];
        if i > 0 {
          assert r[i] == rest[i - 1];
        }
      }
    }
  }

  /** The visible cookies of the jar, in jar order. */
  function VisibleOf(env: QtEnv, jar: seq<Cookie>, url: string, now: Date): seq<Cookie>
  {
    if |jar| == 0 then []
    else VisibleOf(env, jar[..|jar| - 1], url, now) + (if Visible(env, jar[|jar| - 1], url, now) then [jar[|jar| - 1]] else [])
  }

  /** Base cookiesForUrl: walking the jar in order, each visible cookie is
      inserted before the first collected cookie with a shorter path. */
  function ForUrl(env: QtEnv, jar: seq<Cookie>, url: string, now: Date): (r: seq<Cookie>)
    ensures forall c :: c in r <==> c in jar && Visible(env, c, url, now)
    ensures multiset(r) == multiset(VisibleOf(env, jar, url, now))
    ensures |r| <= |jar|
    decreases |jar|
  {
    if |jar| == 0 then []
    else
      var init := jar[..|jar| - 1];
      var last := jar[|jar| - 1];
      var prev := ForUrl(env, init, url, now);
      assert forall c :: c in jar <==> c in init || c == last by {
        assert jar == init + [last];
      }
      if Visible(env, last, url, now) then
        InsertByPathPermutes(last, prev);
        InsertByPath(last, prev)
      else prev
  }

  /** What base cookiesForUrl returns is ordered longest path first. */
  lemma {:induction false} ForUrlOrdered(env: QtEnv, jar: seq<Cookie>, url: string, now: Date)
    ensures PathOrdered(ForUrl(env, jar, url, now))
    decreases |jar|
  {
    if |jar| > 0 {
      var init := jar[..|jar| - 1];
      ForUrlOrdered(env, init, url, now);
      if Visible(env, jar[|jar| - 1], url, now) {
        InsertByPathOrdered(jar[|jar| - 1], ForUrl(env, init, url, now));
      }
    }
  }

  /** Upserting keeps identity keys unique. */
  lemma UpsertKeepsUnique(jar: seq<Cookie>, c: Cookie)
    requires Unique(jar)
    ensures Unique(Upsert(jar, c))
  {
    match FindKey(jar, KeyOf(c)) {
      case Some(i) =>
        var r := jar[i := c];
        forall a, b | 0 <= a < b < |r| ensures KeyOf(r[a]) != KeyOf(r[b]) {
          if a != i && b != i { assert r[a] == jar[a] && r[b] == jar[b]; }
        }
      case None =>
    }
  }

  /** Keys stay unique: no sequence of base setCookiesFromUrl calls
      produces two cookies with the same (name, domain, path). */
  lemma {:induction false} SetFromUrlKeepsUnique(env: QtEnv, jar: seq<Cookie>, incoming: seq<Cookie>, url: string)
    requires Unique(jar)
    ensures Unique(SetFromUrl(env, jar, incoming, url).0)
    decreases |incoming|
  {
    if |incoming| > 0 {
      var c := incoming[0];
      if env.accepts(c, url) { UpsertKeepsUnique(jar, c); }
      var jar' := if env.accepts(c, url) then Upsert(jar, c) else jar;
      SetFromUrlKeepsUnique(env, jar', incoming[1..], url);
    }
  }

  /** In a jar with unique keys, storing a cookie that is already there changes nothing. */
  lemma UpsertPresent(jar: seq<Cookie>, c: Cookie)
    requires Unique(jar) && c in jar
    ensures Upsert(jar, c) == jar
  {
    var k :| 0 <= k < |jar| && jar[k] == c;
    match FindKey(jar, KeyOf(c)) {
      case Some(i) =>
        assert KeyOf(jar[i]) == KeyOf(jar[k]);
        assert i == k;
      case None =>
        assert false;
    }
  }

  /** Feeding the jar's own cookies back through setCookiesFromUrl leaves a
      jar with unique keys as it was (this is what deleteCookie ends up doing). */
  lemma {:induction false} SetFromUrlOwnCookies(env: QtEnv, jar: seq<Cookie>, incoming: seq<Cookie>, url: string)
    requires Unique(jar)
    requires forall c :: c in incoming ==> c in jar
    ensures SetFromUrl(env, jar, incoming, url).0 == jar
    decreases |incoming|
  {
    if |incoming| > 0 {
      var c := incoming[0];
      if env.accepts(c, url) { UpsertPresent(jar, c); }
      assert forall x :: x in incoming[1..] ==> x in incoming;
      SetFromUrlOwnCookies(env, jar, incoming[1..], url);
    }
  }
}
