/** The QVariantMap records that src/cookiejar.cpp converts cookies to and
    from (addCookieFromMap and cookiesToMap), as pure functions. */
module Records {
  import opened Cookies

  /** The QVariant values a record holds: strings and booleans. */
  datatype Variant = Text(s: string) | Flag(b: bool)

  /** A QVariantMap; a key that is absent reads as a null QVariant. */
  type Record = map<string, Variant>

  /** QVariant::toString. */
  function ToText(v: Variant): string
  {
    match v
      case Text(s) => s
      case Flag(b) => if b then "true" else "false"
  }

  function LowerAscii(s: string): (r: string)
    ensures |r| == |s|
  {
    if |s| == 0 then []
    else [if 'A' <= s[0] <= 'Z' then (s[0] as int + 32) as char else s[0]] + LowerAscii(s[1..])
  }

  /** QVariant::toBool: a string is false when empty, "0" or "false" in any case. */
  function ToBool(v: Variant): bool
  {
    match v
      case Flag(b) => b
      case Text(s) => !(s == "" || s == "0" || LowerAscii(s) == "false")
  }

  const Gmt := " GMT"

  /** `s` contains " GMT" somewhere. */
  predicate ContainsGmt(s: string)
  {
    4 <= |s| && (s[..4] == Gmt || ContainsGmt(s[1..]))
  }

  /** QString::replace(" GMT", ""): removes every occurrence, scanning left to right. */
  function RemoveGmt(s: string): (r: string)
    ensures |r| <= |s|
    ensures !ContainsGmt(s) ==> r == s
  {
    if |s| == 0 then []
    else if 4 <= |s| && s[..4] == Gmt then RemoveGmt(s[4..])
    else [s[0]] + RemoveGmt(s[1..])
  }

  /** The text cookiesToMap stores under "expires" for an expiration date. */
  function ExpiresText(formatDate: Date -> string, d: Date): string
  {
    formatDate(d) + Gmt
  }

  /** addCookieFromMap's conversion: None unless "domain" and "name" are
      present and non-empty and "value" is present; then the defaults. */
  function CookieFromRecord(parseDate: string -> Option<Date>, rec: Record): (r: Option<Cookie>)
    ensures r.Some? <==>
      ("domain" in rec && ToText(rec["domain"]) != "" &&
       "name" in rec && ToText(rec["name"]) != "" &&
       "value" in rec)
    ensures r.Some? ==>
      r.value.domain == ToText(rec["domain"]) && r.value.name == ToText(rec["name"]) &&
      r.value.value == ToText(rec["value"])
    ensures r.Some? ==> r.value.domain != "" && r.value.name != "" && r.value.path != ""
    ensures r.Some? && ("path" !in rec || ToText(rec["path"]) == "") ==> r.value.path == "/"
    ensures r.Some? && "path" in rec && ToText(rec["path"]) != "" ==> r.value.path == ToText(rec["path"])
    ensures r.Some? ==> r.value.httpOnly == ("httponly" in rec && ToBool(rec["httponly"]))
    ensures r.Some? ==> r.value.secure == ("secure" in rec && ToBool(rec["secure"]))
    ensures r.Some? && "expires" !in rec ==> r.value.IsSession()
    ensures r.Some? && "expires" in rec ==> r.value.expiration == parseDate(RemoveGmt(ToText(rec["expires"])))
  {
    if "domain" in rec && ToText(rec["domain"]) != "" &&
       "name" in rec && ToText(rec["name"]) != "" &&
       "value" in rec
    then
      var path := if "path" !in rec || ToText(rec["path"]) == "" then "/" else ToText(rec["path"]);
      var httpOnly := if "httponly" !in rec then false else ToBool(rec["httponly"]);
      var secure := if "secure" !in rec then false else ToBool(rec["secure"]);
      var expiration := if "expires" !in rec then None else parseDate(RemoveGmt(ToText(rec["expires"])));
      Some(Cookie(ToText(rec["name"]), ToText(rec["value"]), ToText(rec["domain"]), path, secure, httpOnly, expiration))
    else None
  }

  /** One record written by cookiesToMap; `carried` is the "expires" entry the
      shared map holds after this cookie, which may come from an earlier-processed cookie. */
  function RecordOf(c: Cookie, carried: Option<string>): Record
  {
    var base := map[
      "domain" := Text(c.domain),
      "name" := Text(c.name),
      "value" := Text(c.value),
      "path" := Text(if c.path == "" then "/" else c.path),
      "httponly" := Flag(c.httpOnly),
      "secure" := Flag(c.secure)];
    if carried.Some? then base["expires" := Text(carried.value)] else base
  }

  /** A record has the six fixed keys, and "expires" exactly when an expiry is carried. */
  lemma RecordOfKeys(c: Cookie, carried: Option<string>)
    ensures RecordOf(c, carried).Keys ==
      {"domain", "name", "value", "path", "httponly", "secure"} + (if carried.Some? then {"expires"} else {})
  {
  }

  /** The map cookiesToMap reuses, after it has been filled in for cookie `c`:
      six keys overwritten, and "expires" only when `c` has a valid expiry. */
  function Refill(before: Record, c: Cookie, formatDate: Date -> string): Record
  {
    var m := before["domain" := Text(c.domain)]["name" := Text(c.name)]["value" := Text(c.value)]
      ["path" := Text(if c.path == "" then "/" else c.path)]["httponly" := Flag(c.httpOnly)]["secure" := Flag(c.secure)];
    if c.expiration.Some? then m["expires" := Text(ExpiresText(formatDate, c.expiration.value))] else m
  }

  /** Refilling the reused map yields the record of `c` with the carried
      "expires" entry, whatever the map held for earlier cookies. */
  lemma RefillIsRecordOf(before: Record, c: Cookie, formatDate: Date -> string, carried: Option<string>)
    requires before.Keys <= {"domain", "name", "value", "path", "httponly", "secure", "expires"}
    requires carried.Some? <==> "expires" in before
    requires "expires" in before ==> before["expires"] == Text(carried.value)
    ensures Refill(before, c, formatDate) ==
      RecordOf(c, if c.expiration.Some? then Some(ExpiresText(formatDate, c.expiration.value)) else carried)
  {
    var r := Refill(before, c, formatDate);
    var e := RecordOf(c, if c.expiration.Some? then Some(ExpiresText(formatDate, c.expiration.value)) else carried);
    assert r.Keys == e.Keys;
    forall k | k in r.Keys ensures r[k] == e[k] {
    }
  }

  /** The "expires" entry of the shared map once cookiesToMap, walking from the
      last cookie back, has processed cs[0]: that of the first cookie of `cs`
      with a valid expiration date. */
  function Carried(formatDate: Date -> string, cs: seq<Cookie>): Option<string>
  {
    if |cs| == 0 then None
    else if cs[0].expiration.Some? then Some(ExpiresText(formatDate, cs[0].expiration.value))
    else Carried(formatDate, cs[1..])
  }

  /** The list cookiesToMap returns: one record per cookie, last cookie first. */
  function RecordsOf(formatDate: Date -> string, cs: seq<Cookie>): (r: seq<Record>)
    ensures |r| == |cs|
  {
    if |cs| == 0 then [] else RecordsOf(formatDate, cs[1..]) + [RecordOf(cs[0], Carried(formatDate, cs))]
  }

  /** cookiesToMap emits records in reverse order: the record of cs[i]
      sits at index |cs| - 1 - i, with the "expires" carried at that point. */
  lemma {:induction false} RecordsOfCookie(formatDate: Date -> string, cs: seq<Cookie>, i: nat)
    requires i < |cs|
    ensures RecordsOf(formatDate, cs)[|cs| - 1 - i] == RecordOf(cs[i], Carried(formatDate, cs[i..]))
    decreases |cs|
  {
    if i > 0 {
      RecordsOfCookie(formatDate, cs[1..], i - 1);
      assert cs[1..][i - 1..] == cs[i..];
      assert cs[1..][i - 1] == cs[i];
    } else {
      assert cs[0..] == cs;
    }
  }

  /** The shared map carries an "expires" entry after cs[0] exactly when some
      cookie of `cs` has a valid expiration date, and then it is the first such one's. */
  lemma {:induction false} CarriedIsFirstExpiry(formatDate: Date -> string, cs: seq<Cookie>, j: nat)
    requires j < |cs| && cs[j].expiration.Some?
    requires forall m :: 0 <= m < j ==> cs[m].IsSession()
    ensures Carried(formatDate, cs) == Some(ExpiresText(formatDate, cs[j].expiration.value))
    decreases j
  {
    if j > 0 {
      CarriedIsFirstExpiry(formatDate, cs[1..], j - 1);
    }
  }

  lemma {:induction false} CarriedNone(formatDate: Date -> string, cs: seq<Cookie>)
    requires forall m :: 0 <= m < |cs| ==> cs[m].IsSession()
    ensures Carried(formatDate, cs) == None
    decreases |cs|
  {
    if |cs| > 0 { CarriedNone(formatDate, cs[1..]); }
  }

  /** The reused-map quirk: a session cookie at index i, processed after a
      cookie j > i with a valid expiration date (and none in between), gets
      that cookie's "expires" entry in its record. */
  lemma SessionCookieInheritsExpires(formatDate: Date -> string, cs: seq<Cookie>, i: nat, j: nat)
    requires i < j < |cs|
    requires cs[j].expiration.Some?
    requires forall m :: i <= m < j ==> cs[m].IsSession()
    ensures "expires" in RecordsOf(formatDate, cs)[|cs| - 1 - i]
    ensures RecordsOf(formatDate, cs)[|cs| - 1 - i]["expires"] == Text(ExpiresText(formatDate, cs[j].expiration.value))
  {
    CarriedFrom(formatDate, cs, i, j);
    RecordsOfCookie(formatDate, cs, i);
    RecordOfExpires(cs[i], Carried(formatDate, cs[i..]));
  }

  /** After the session cookies i..j-1, the shared map still holds cookie j's "expires". */
  lemma CarriedFrom(formatDate: Date -> string, cs: seq<Cookie>, i: nat, j: nat)
    requires i < j < |cs|
    requires cs[j].expiration.Some?
    requires forall m :: i <= m < j ==> cs[m].IsSession()
    ensures Carried(formatDate, cs[i..]) == Some(ExpiresText(formatDate, cs[j].expiration.value))
  {
    var tail := cs[i..];
    assert tail[j - i] == cs[j];
    assert forall m :: 0 <= m < j - i ==> tail[m].IsSession() by {
      forall m | 0 <= m < j - i ensures tail[m].IsSession() {
        assert tail[m] == cs[i + m];
      }
    }
    CarriedIsFirstExpiry(formatDate, tail, j - i);
  }

  lemma RecordOfExpires(c: Cookie, carried: Option<string>)
    requires carried.Some?
    ensures "expires" in RecordOf(c, carried) && RecordOf(c, carried)["expires"] == Text(carried.value)
  {
  }

  /** Removing " GMT" distributes over a split point where the second part is
      empty or starts with a space (no occurrence can straddle it). */
  lemma {:induction false} RemoveGmtAppend(s: string, t: string)
    requires |t| == 0 || t[0] == ' '
    ensures RemoveGmt(s + t) == RemoveGmt(s) + RemoveGmt(t)
    decreases |s|
  {
    if |s| == 0 {
      assert s + t == t;
    } else if 4 <= |s| && s[..4] == Gmt {
      assert (s + t)[..4] == Gmt;
      assert (s + t)[4..] == s[4..] + t;
      RemoveGmtAppend(s[4..], t);
    } else {
      NoGmtAcross(s, t);
      assert (s + t)[1..] == s[1..] + t;
      RemoveGmtAppend(s[1..], t);
    }
  }

  /** No " GMT" starts in `s` and runs into a `t` that is empty or starts with a space. */
  lemma NoGmtAcross(s: string, t: string)
    requires |s| > 0 && !(4 <= |s| && s[..4] == Gmt)
    requires |t| == 0 || t[0] == ' '
    ensures !(4 <= |s + t| && (s + t)[..4] == Gmt)
  {
    if 4 <= |s| {
      assert (s + t)[..4] == s[..4];
    } else if |t| > 0 && 4 <= |s + t| {
      assert (s + t)[..4][|s|] == ' ' != Gmt[|s|];
    }
  }

  /** Every " GMT" goes, not only a trailing one, so a
      formatted date followed by " GMT" comes back as the date text when that
      text has no " GMT" of its own. */
  lemma RemoveGmtOfExpires(formatDate: Date -> string, d: Date)
    requires !ContainsGmt(formatDate(d))
    ensures RemoveGmt(ExpiresText(formatDate, d)) == formatDate(d)
  {
    RemoveGmtAppend(formatDate(d), Gmt);
    assert Gmt[..4] == Gmt;
    assert RemoveGmt(Gmt) == RemoveGmt(Gmt[4..]);
  }

  /** An occurrence of " GMT" inside the text is removed as well. */
  lemma RemoveGmtInside(a: string, b: string)
    ensures RemoveGmt(a + Gmt + b) == RemoveGmt(a) + RemoveGmt(b)
  {
    assert a + Gmt + b == a + (Gmt + b);
    RemoveGmtAppend(a, Gmt + b);
    assert (Gmt + b)[..4] == Gmt;
    assert (Gmt + b)[4..] == b;
  }

  /** The date format survives its own text and does not produce " GMT". */
  ghost predicate DatesRoundTrip(env: QtEnv)
  {
    forall d :: env.parseDate(env.formatDate(d)) == Some(d) && !ContainsGmt(env.formatDate(d))
  }

  /** Map round trip: a record written by cookiesToMap for a cookie with a
      non-empty domain, name and path, carrying its own expiry, converts back to that cookie. */
  lemma RecordRoundTrip(env: QtEnv, c: Cookie)
    requires DatesRoundTrip(env)
    requires c.domain != "" && c.name != "" && c.path != ""
    ensures CookieFromRecord(env.parseDate, RecordOf(c, Carried(env.formatDate, [c]))) == Some(c)
  {
    var rec := RecordOf(c, Carried(env.formatDate, [c]));
    if c.expiration.Some? {
      RemoveGmtOfExpires(env.formatDate, c.expiration.value);
    }
  }

  /** A record for a session cookie that inherited another cookie's "expires"
      converts back to a cookie with that other expiry. */
  lemma InheritedExpiresSticks(env: QtEnv, c: Cookie, d: Date)
    requires DatesRoundTrip(env)
    requires c.domain != "" && c.name != "" && c.IsSession()
    ensures CookieFromRecord(env.parseDate, RecordOf(c, Some(ExpiresText(env.formatDate, d)))).value.expiration == Some(d)
  {
    RemoveGmtOfExpires(env.formatDate, d);
  }
}
