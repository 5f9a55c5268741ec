# CookieJar model

A Dafny model of the PhantomJS `CookieJar` (`src/cookiejar.cpp`). The jar is a
`QNetworkCookieJar` subclass. It adds four things:

- an `enabled` switch that gates reads and writes;
- persistence of the whole cookie list under the key `"cookies"` of a settings store, in a versioned stream format;
- conversions between cookies and string-keyed records (`QVariantMap`);
- lifecycle checks for expired cookies and session cookies on load, save and destruction.

Modules:

- `Cookies` (cookies.dfy): the `Cookie` value, its identity key (name, domain, path), and `QtEnv`. `QtEnv` holds the Qt functions the file calls but does not define: cookie matching, acceptance, the raw wire form and its parser, and date parsing and formatting. The module also gives an abstract model of the inherited base jar: `SetFromUrl` replaces a cookie in place or appends it, and `ForUrl` hands out the unexpired cookies Qt matches to a url, longest path first.
- `Persist` (persist.dfy): the stream operators `<<` and `>>`. A stream is a sequence of tokens. `WriteCookies` and `ReadCookies` are the loops of the source, proved equal to `Encode` and `Decode`.
- `Records` (records.dfy): `addCookieFromMap`'s validation and defaults, the records `cookiesToMap` builds in its one reused map, and `replace(" GMT", "")`.
- `Urls` (urls.dfy): the url `addCookie` makes up when given none. It also states the domain-match and path-match rules of sections 5.1.3 and 5.1.4 of RFC 6265. These rules are an assumption about Qt, not behaviour of this file. The lemmas show that the made-up url is one its cookie applies to under them, and which urls the base `cookiesForUrl` serves a cookie to when Qt's matching follows them.
- `Jar` (jar.dfy): pure functions for what each step does to the persistent state (jar and store), plus the lemmas about them.
- `CookieJars` (cookiejar.dfy): the `CookieJar` class. Its fields are `jar`, `enabled` and `storage`. Each method is proved against the functions of `Jar`.

Behaviour of the source that the model reproduces on purpose:

- `purgeExpiredCookies` and `purgeSessionCookies` filter a local copy and never write it back. They only report whether something would be removed. So `save`, `load` and the destructor store the whole jar, expired cookies and session cookies included. `SaveLoadRoundTrip` shows that these cookies come back after a reload.
- `deleteCookie` puts the expiry on a discarded copy. The date it uses, `QDateTime().addDays(-1)`, is built from a null date and so stays null. The call then passes the unchanged visible list to `setCookiesFromUrl`. In a jar with unique keys this changes nothing (`DeleteKeepsJar`).
- `deleteCookies(url)` with a non-empty url sets an empty list, which changes nothing. `clearCookies` empties the jar but does not save.
- `cookies("")` returns every cookie even when the jar is disabled.
- `cookiesToMap` reuses one map, so a session cookie's record can carry the `"expires"` of a cookie processed before it (`SessionCookieInheritsExpires`).
- `replace(" GMT", "")` removes every occurrence of `" GMT"`, not only a trailing one (`RemoveGmtInside`).
- The bulk adds run last to first. With replace-by-key, of each key the EARLIEST accepted input is the one left in the jar (`EarliestInputWins`); for two same-key inputs the later one is gone (`EarlierInputWins`).
- `cookie(name)` returns the last cookie with the name, in the order of `cookies(url)`. `cookieToMap(name)` returns the record of the first one in that order (`RecordLookupIsFirstCookie`).

## Model

| member | source | states |
|---|---|---|
| Cookies.SetFromUrl | src/cookiejar.cpp:98-108 | the base call reports a change iff some incoming cookie is accepted; with no change the jar is untouched; `SetFromUrlContents` states what the jar holds after a change |
| Cookies.SetFromUrlContents | src/cookiejar.cpp:98-108 | after the base call the jar holds only old cookies and accepted incoming ones. It keeps every old cookie whose key no accepted incoming cookie has. It holds every accepted incoming cookie that no later accepted incoming cookie with the same key replaces |
| Cookies.SetFromUrlKeepsUnique | src/cookiejar.cpp:98-108 | storing cookies through the base call never produces two cookies with the same (name, domain, path) |
| Cookies.SetFromUrlOwnCookies | src/cookiejar.cpp:240-259 | feeding a unique-keyed jar its own cookies leaves it exactly as it was |
| Cookies.ForUrl | src/cookiejar.cpp:110-117 | the base cookiesForUrl returns a permutation of the jar's visible cookies (`VisibleOf`: those Qt matches to the url that have not expired by now, in jar order), never more than the jar holds |
| Cookies.InsertByPathPermutes | src/cookiejar.cpp:110-117 | inserting a cookie by path length adds exactly that cookie to the list |
| Cookies.ForUrlOrdered | src/cookiejar.cpp:110-117 | what the base cookiesForUrl returns is ordered longest path first |
| Persist.Encode | src/cookiejar.cpp:42-49 | the stream starts with version 1 and the count as a quint32, then holds one entry per cookie |
| Persist.Entries | src/cookiejar.cpp:61-75 | a count of 0 reads nothing, and so does an empty stream when the parser gives nothing for an empty array |
| Persist.Decode | src/cookiejar.cpp:51-77 | an empty stream or a version other than 1 reads as an empty list, and so does a version-1 stream whose count is 0 |
| Persist.WriteCookies | src/cookiejar.cpp:42-49 | the writing loop produces `Encode` of the list |
| Persist.ReadCookies | src/cookiejar.cpp:51-77 | the reading loop (version check, counted entry loop, early stop at end of stream) produces `Decode` of the stream |
| Persist.AppendAll | src/cookiejar.cpp:71-72 | the inner loop appends the parsed cookies to the list in order |
| Persist.DecodeOtherVersion | src/cookiejar.cpp:53-59 | an empty stream, or one whose version is not 1, reads as an empty list |
| Persist.EntriesTakeCount | src/cookiejar.cpp:61-75 | the entry loop reads at most `count` entries. It appends what each parses to, in entry order, so entries that parse to nothing are skipped. For an empty stream with a positive count the loop reads one empty array, which gives nothing when the parser gives nothing for it |
| Persist.DecodeEncode | src/cookiejar.cpp:42-77 | reading back what was written gives the original list in order, when each cookie survives its raw form and the count fits in 32 bits |
| Records.CookieFromRecord | src/cookiejar.cpp:136-158 | a record is accepted iff domain and name are present and non-empty and value is present. Then domain, name and value are the record's texts. The path is the record's when it is non-empty and "/" otherwise. httponly and secure are the `toBool` of their entries, false when absent. A missing "expires" leaves a session cookie; a present one becomes parseDate of its text with every " GMT" removed |
| Records.RemoveGmt | src/cookiejar.cpp:153 | removing " GMT" never lengthens the text and leaves text without " GMT" unchanged |
| Records.RemoveGmtAppend | src/cookiejar.cpp:153 | the removal distributes over a split before a space or at the end |
| Records.RemoveGmtInside | src/cookiejar.cpp:153 | for every text, an occurrence of " GMT" in the middle is removed as well as a trailing one: the removal on a + " GMT" + b is that on a followed by that on b |
| Records.RemoveGmtOfExpires | src/cookiejar.cpp:152-154 | a date written by cookiesToMap (text + " GMT") comes back as the date text |
| Records.RecordOfKeys | src/cookiejar.cpp:199-207 | a record has the six fixed keys, plus "expires" exactly when an expiry is carried |
| Records.RecordsOf | src/cookiejar.cpp:195-210 | cookiesToMap yields one record per cookie |
| Records.RecordsOfCookie | src/cookiejar.cpp:195-210 | the record of cookie i sits at index \|cs\|-1-i and carries the "expires" of the reused map at that point |
| Records.RefillIsRecordOf | src/cookiejar.cpp:197-207 | refilling the reused map gives the cookie's record with the "expires" carried from earlier iterations |
| Records.CarriedIsFirstExpiry | src/cookiejar.cpp:193-207 | the carried "expires" after cookie i is that of the first cookie at or after i with a valid expiry |
| Records.CarriedNone | src/cookiejar.cpp:193-207 | with no valid expiry at or after cookie i, no "expires" is carried |
| Records.SessionCookieInheritsExpires | src/cookiejar.cpp:189-213 | a session cookie processed after a cookie with an expiry gets that expiry in its record |
| Records.RecordRoundTrip | src/cookiejar.cpp:139-206 | the record written for a cookie with its own expiry converts back to the same cookie |
| Records.InheritedExpiresSticks | src/cookiejar.cpp:152-206 | a session cookie's record with an inherited "expires" converts back to a cookie with that expiry |
| Urls.TargetUrl | src/cookiejar.cpp:125-130 | a non-empty url is used verbatim, an empty one is replaced by the made-up `MockUrl`; the url used is never empty |
| Urls.MockUrlParts | src/cookiejar.cpp:125-130 | the made-up url reads back as https iff the cookie is secure, host "www"+domain iff the domain starts with '.', and path = cookie path or "/" |
| Urls.CookieAppliesToMockUrl | src/cookiejar.cpp:125-130 | under the RFC 6265 rules assumed of Qt, the cookie applies to its made-up url |
| Urls.ForUrlServesDomain | src/cookiejar.cpp:110-117 | under the RFC 6265 rules assumed of Qt, the base cookiesForUrl hands an unexpired non-secure cookie for ".d" and path p to http://d at p and at every path below p |
| Urls.ForUrlServesSubdomains | src/cookiejar.cpp:110-117 | under the same rules, it hands that cookie to every subdomain of d at p and below |
| Urls.ForUrlSkipsLookalikeHost | src/cookiejar.cpp:110-117 | under the same rules, a host that merely ends with d, with no '.' before it, is not served the cookie |
| Urls.ForUrlSkipsSiblingPath | src/cookiejar.cpp:110-117 | under the same rules, a path that extends p within its last segment ("/application" for "/app") is not served the cookie |
| Jar.Saved | src/cookiejar.cpp:296-305 | save writes the encoded list under "cookies" and keeps every other key |
| Jar.Loaded | src/cookiejar.cpp:357 | load reads nothing when the store has no "cookies" entry, or when the stream is empty or of another version |
| Jar.Keep | src/cookiejar.cpp:319-323 | the filtered copy is never longer than the list; `KeepMembers` and `KeepSameLength` state what it holds and when it is shorter |
| Jar.KeepMembers | src/cookiejar.cpp:319-323 | the filtered copy holds exactly the cookies not selected, never more |
| Jar.RemoveWhere | src/cookiejar.cpp:319-323 | the reverse removeAt loop leaves `Keep` of the list |
| Jar.KeepSameLength | src/cookiejar.cpp:317-326 | the count is unchanged iff no cookie was selected, so a purge reports true iff it found something |
| Jar.KeepLeavesNothing | src/cookiejar.cpp:307-327 | filtering again finds nothing more to remove (idempotence of the purge filter) |
| Jar.SaveLoadRoundTrip | src/cookiejar.cpp:296-364 | loading what save wrote gives back the whole list, expired and session cookies included |
| Jar.DeleteKeepsJar | src/cookiejar.cpp:240-259 | deleteCookie's call leaves a unique-keyed jar unchanged |
| Jar.UpsertEvicts | src/cookiejar.cpp:98-108 | storing a cookie removes any other cookie with its key from a unique-keyed jar |
| Jar.SetAndSave | src/cookiejar.cpp:98-108 | on an enabled jar the new list is the base call's result. A change is reported iff some cookie is accepted. With no change the state is untouched; with one, the store holds the new list |
| Jar.AddOne | src/cookiejar.cpp:119-132 | a cookie not accepted for the target url changes nothing; an accepted one replaces its same-key cookie or is appended, and the new list is saved |
| Jar.AddRecord | src/cookiejar.cpp:134-162 | an invalid record changes nothing; a valid one is exactly `AddOne` of its cookie. So its cookie, when accepted, is in the jar with the new list saved, and when not accepted nothing changes |
| Jar.AddOneKeepsUnique | src/cookiejar.cpp:119-132 | adding one cookie keeps keys unique |
| Jar.AddLastFirstKeepsUnique | src/cookiejar.cpp:164-169 | addCookies keeps keys unique |
| Jar.AddRecordsLastFirstKeepsUnique | src/cookiejar.cpp:171-176 | addCookiesFromMap keeps keys unique |
| Jar.EarlierInputWins | src/cookiejar.cpp:164-169 | for the input [a, b] of two accepted same-key cookies, addCookies leaves a and not b |
| Jar.EarliestInputWins | src/cookiejar.cpp:164-169 | for any input list, an accepted cookie with no accepted same-key cookie before it in the list is in the jar after addCookies |
| Jar.AddLastFirstKeeps | src/cookiejar.cpp:164-169 | addCookies leaves a stored cookie in place when no accepted input cookie has its key |
| Jar.LastNamed | src/cookiejar.cpp:215-224 | the index of the last cookie with the name, or none when no cookie has it |
| Jar.FirstNamed | src/cookiejar.cpp:226-238 | the index of the first cookie with the name, or none when no cookie has it |
| Jar.LastRecordNamed | src/cookiejar.cpp:226-238 | the index of the last record with the name, or none |
| Jar.RecordNames | src/cookiejar.cpp:195-210 | record m carries the name of cookie \|cs\|-1-m |
| Jar.RecordLookupIsFirstCookie | src/cookiejar.cpp:226-238 | the last record with the name is the record of the first cookie with the name |
| Jar.FindRecordNamed | src/cookiejar.cpp:231-236 | the backward search over the records returns the last record with the name, or an empty map |
| Jar.RecordNamedIsFirstCookie | src/cookiejar.cpp:226-238 | that record is the record of the first cookie with the name, with the "expires" the reused map carries at that point |
| CookieJars.CookieJar.constructor | src/cookiejar.cpp:82-89 | a new jar is enabled and empty, over the given store |
| CookieJars.CookieJar.SetAllCookies | src/cookiejar.cpp:273-278 | the base setAllCookies replaces the list |
| CookieJars.CookieJar.BaseSetCookiesFromUrl | src/cookiejar.cpp:101 | the base call updates the list and reports as `SetFromUrl` |
| CookieJars.CookieJar.IsEnabled | src/cookiejar.cpp:290-293 | reports the enabled flag |
| CookieJars.CookieJar.Enable | src/cookiejar.cpp:280-283 | sets the flag |
| CookieJars.CookieJar.Disable | src/cookiejar.cpp:285-288 | clears the flag |
| CookieJars.CookieJar.CookiesForUrl | src/cookiejar.cpp:110-117 | a disabled jar returns nothing. An enabled one returns the base answer `ForUrl`: a permutation of the unexpired stored cookies Qt matches to the url, longest path first |
| CookieJars.CookieJar.Cookies | src/cookiejar.cpp:178-187 | an empty url gives the whole jar, even when disabled; any other url gives exactly the cookiesForUrl answer, longest path first |
| CookieJars.CookieJar.PurgeExpiredCookies | src/cookiejar.cpp:307-327 | returns true iff some non-session cookie expired before now (false on an empty jar); the jar is not changed |
| CookieJars.CookieJar.PurgeSessionCookies | src/cookiejar.cpp:329-348 | returns true iff some session cookie is present; the jar is not changed |
| CookieJars.CookieJar.Save | src/cookiejar.cpp:296-305 | an enabled jar writes its whole list under "cookies"; a disabled one writes nothing |
| CookieJars.CookieJar.SetCookiesFromUrl | src/cookiejar.cpp:98-108 | disabled: false, nothing changes, no save. Enabled: the base call's answer, and a save exactly when it is true |
| CookieJars.CookieJar.AddCookie | src/cookiejar.cpp:119-132 | an enabled jar becomes `AddOne` of the cookie for the given url, or for the made-up `MockUrl` |
| CookieJars.CookieJar.AddCookieFromMap | src/cookiejar.cpp:134-162 | a valid record is converted with defaults and added; an invalid one changes nothing |
| CookieJars.CookieJar.AddCookies | src/cookiejar.cpp:164-169 | an enabled jar becomes `AddLastFirst`: the cookies are added last to first |
| CookieJars.CookieJar.AddCookiesFromMap | src/cookiejar.cpp:171-176 | an enabled jar becomes `AddRecordsLastFirst`: the records are added last to first |
| CookieJars.CookieJar.CookiesToMap | src/cookiejar.cpp:189-213 | the loop's `Refill` of one reused map yields `RecordsOf` the visible cookies: each cookie's `RecordOf`, last first, with "expires" carried over by the reused map |
| CookieJars.CookieJar.CookieByName | src/cookiejar.cpp:215-224 | the last cookie with the name in the order of cookies(url), or an empty cookie |
| CookieJars.CookieJar.CookieToMap | src/cookiejar.cpp:226-238 | the record of the FIRST cookie with the name in the order of cookies(url), or an empty map |
| CookieJars.CookieJar.DeleteCookie | src/cookiejar.cpp:240-259 | enabled, non-empty name, and a visible cookie with that name: the unchanged visible list is set again for the url. Otherwise nothing changes |
| CookieJars.CookieJar.DeleteCookies | src/cookiejar.cpp:261-271 | an enabled jar with an empty url is emptied; in every other case the jar is unchanged; the store is never written |
| CookieJars.CookieJar.ClearCookies | src/cookiejar.cpp:273-278 | an enabled jar is emptied without saving |
| CookieJars.CookieJar.Load | src/cookiejar.cpp:350-364 | an enabled jar takes what the store holds under "cookies" (nothing if absent) and saves again iff some cookie has expired |
| CookieJars.CookieJar.Destroy | src/cookiejar.cpp:91-96 | the session check, then a save of the whole jar, session cookies included |

## Left out

- Cookies.SetFromUrl: the base `QNetworkCookieJar::setCookiesFromUrl` is Qt code that this file does not contain. It is modelled as "an accepted cookie replaces the same-key cookie in place, or is appended". The following are not modelled: Qt's default domain and path taken from the url, the '.' Qt puts in front of a non-empty domain that lacks one (which changes the stored key and the domain `cookie` and `cookieToMap` report), its domain checks (only the abstract `accepts` stands for them), a replaced cookie moving to the end of the list, expired incoming cookies deleting a stored one, and the per-domain cookie limit.
- Cookies.ForUrl: Qt's matching is the abstract `matches` relation. The RFC 6265 rules in `Urls` are an assumption about Qt; the `Urls` lemmas about `ForUrl` take them as a hypothesis (`MatchesByRfc`). The read-time expiry filter and the longest-path-first order of the base call are modelled. Cookies of equal path length keep their jar order, since each is inserted before the first strictly shorter path. This follows Qt 5's loop, whose source is not part of this model.
- Persist.Entries, Persist.EntriesTakeCount: for an empty stream with a positive count, the result is what the parser gives for an empty array. The lemmas assume that this is nothing, as for Qt's parser.
- QNetworkCookie::toRawForm and parseCookies (the Set-Cookie text of section 4.1 of RFC 6265) are the abstract `toRaw` and `parse`. Their round trip is a lemma hypothesis (`RawRoundTrips`).
- The byte layout of QDataStream is replaced by tokens. A read past the end, or of the wrong kind of value, gives 0 or "".
- QDateTime is an integer. `currentDateTime` is the `now` parameter, and `fromString`/`toString` with the fixed format are the abstract `parseDate` and `formatDate`. Calendar arithmetic and time zones are not modelled.
- QSettings file I/O is a map from keys to streams. QVariant's own wrapping of the stored value is not modelled.
- The deferred `QTimer::singleShot` load is an explicit `Load` call made by the caller.
- Logging (`qWarning`) and `qRegisterMetaTypeStreamOperators` have no behaviour to verify and are left out.
- QVariant is modelled as a string or a boolean, and a null QVariant as an absent key. A variant that holds a null string, and non-map elements of the list given to `addCookiesFromMap` (Qt converts them to empty maps), are not modelled. `toBool` lower-cases ASCII letters only.
- Cookie names and values are strings rather than byte arrays.
