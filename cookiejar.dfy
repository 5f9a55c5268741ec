/** The CookieJar class of src/cookiejar.cpp. The inherited QNetworkCookieJar
    list is the field `jar`, the QSettings store the field `storage`, and the
    clock a `now` parameter of every operation that reaches save(). */
module CookieJars {
  import opened Cookies
  import opened Persist
  import opened Records
  import opened Urls
  import opened Jar

  class CookieJar {
    /** Qt's cookie matching, wire format and date format. */
    const env: QtEnv
    /** QNetworkCookieJar::allCookies(). */
    var jar: seq<Cookie>
    /** m_enabled. */
    var enabled: bool
    /** m_cookieStorage. */
    var storage: Storage

    /** The constructor: enabled, an empty jar, and the settings store as
        found; the deferred load() is left to the caller. */
    constructor (env: QtEnv, storage: Storage)
      ensures this.env == env && this.storage == storage
      ensures jar == [] && enabled
    {
      this.env := env;
      this.storage := storage;
      jar := [];
      enabled := true;
    }

    /** QNetworkCookieJar::setAllCookies. */
    method SetAllCookies(cookies: seq<Cookie>)
      modifies this`jar
      ensures jar == cookies
    {
      jar := cookies;
    }

    /** QNetworkCookieJar::setCookiesFromUrl. */
    method BaseSetCookiesFromUrl(list: seq<Cookie>, url: string) returns (changed: bool)
      modifies this`jar
      ensures (jar, changed) == SetFromUrl(env, old(jar), list, url)
    {
      var r := SetFromUrl(env, jar, list, url);
      jar, changed := r.0, r.1;
    }

    function IsEnabled(): (r: bool)
      reads this
      ensures r == enabled
    {
      enabled
    }

    method Enable()
      modifies this`enabled
      ensures enabled
    {
      enabled := true;
    }

    method Disable()
      modifies this`enabled
      ensures !enabled
    {
      enabled := false;
    }

    /** Only an enabled jar hands out cookies, and then the unexpired ones
        Qt matches to the url, longest path first. */
    function CookiesForUrl(url: string, now: Date): (r: seq<Cookie>)
      reads this
      ensures !enabled ==> r == []
      ensures forall c :: c in r <==> enabled && c in jar && Visible(env, c, url, now)
      ensures PathOrdered(r)
      ensures enabled ==> r == ForUrl(env, jar, url, now)
    {
      ForUrlOrdered(env, jar, url, now);
      if enabled then ForUrl(env, jar, url, now) else []
    }

    /** cookies(url): all cookies for an empty url, even on a disabled jar;
        otherwise those cookiesForUrl gives. */
    function Cookies(url: string, now: Date): (r: seq<Cookie>)
      reads this
      ensures url == "" ==> r == jar
      ensures url != "" ==> forall c :: c in r <==> enabled && c in jar && Visible(env, c, url, now)
      ensures url != "" ==> PathOrdered(r)
      ensures url != "" ==> r == CookiesForUrl(url, now)
      ensures forall c :: c in r ==> c in jar
    {
      if url == "" then jar else CookiesForUrl(url, now)
    }

    /** purgeExpiredCookies: works on a copy and reports whether some
        non-session cookie expired before `now`; the jar is not touched. */
    method PurgeExpiredCookies(now: Date) returns (changed: bool)
      ensures changed <==> exists i :: 0 <= i < |jar| && jar[i].IsExpired(now)
    {
      var cookies := jar;
      if |cookies| == 0 {
        return false;
      }
      var prePurgeCount := |cookies|;
      cookies := RemoveWhere(cookies, (c: Cookie) => c.IsExpired(now));
      KeepSameLength(jar, (c: Cookie) => c.IsExpired(now));
      changed := prePurgeCount != |cookies|;
    }

    /** purgeSessionCookies: works on a copy and reports whether some
        session cookie is present; the jar is not touched. */
    method PurgeSessionCookies() returns (changed: bool)
      ensures changed <==> exists i :: 0 <= i < |jar| && jar[i].IsSession()
    {
      var cookies := jar;
      if |cookies| == 0 {
        return false;
      }
      var prePurgeCount := |cookies|;
      cookies := RemoveWhere(cookies, (c: Cookie) => c.IsSession());
      KeepSameLength(jar, (c: Cookie) => c.IsSession());
      changed := prePurgeCount != |cookies|;
    }

    /** save(): on an enabled jar, the (unused) expiry check, then the whole
        list is written under "cookies". */
    method Save(now: Date)
      modifies this`storage
      ensures storage == if enabled then Saved(env, old(storage), jar) else old(storage)
    {
      if enabled {
        var expired := PurgeExpiredCookies(now);
        var stream := WriteCookies(env.toRaw, jar);
        storage := storage[StorageKey := stream];
      }
    }

    /** setCookiesFromUrl: a disabled jar takes nothing and reports false;
        an enabled one reports the base call's answer and saves when it is true. */
    method SetCookiesFromUrl(list: seq<Cookie>, url: string, now: Date) returns (changed: bool)
      modifies this`jar, this`storage
      ensures !enabled ==> !changed && jar == old(jar) && storage == old(storage)
      ensures enabled ==> (State(jar, storage), changed) == SetAndSave(env, old(State(jar, storage)), list, url)
    {
      if enabled {
        var added := BaseSetCookiesFromUrl(list, url);
        if added {
          Save(now);
          return true;
        }
      }
      return false;
    }

    /** addCookie: sets one cookie for the given url, or for a url made up
        from the cookie when none is given. */
    method AddCookie(c: Cookie, url: string, now: Date)
      modifies this`jar, this`storage
      ensures State(jar, storage) == if enabled then AddOne(env, old(State(jar, storage)), c, url) else old(State(jar, storage))
    {
      if enabled {
        var changed := SetCookiesFromUrl([c], if url != "" then url else MockUrl(c), now);
      }
    }

    /** addCookieFromMap: a valid record becomes a cookie with the defaults
        filled in and is added; an invalid one is dropped. */
    method AddCookieFromMap(rec: Record, url: string, now: Date)
      modifies this`jar, this`storage
      ensures State(jar, storage) == if enabled then AddRecord(env, old(State(jar, storage)), rec, url) else old(State(jar, storage))
    {
      match CookieFromRecord(env.parseDate, rec) {
        case Some(c) => AddCookie(c, url, now);
        case None =>
      }
    }

    /** addCookies: adds the cookies from the last one to the first. */
    method AddCookies(list: seq<Cookie>, url: string, now: Date)
      modifies this`jar, this`storage
      ensures State(jar, storage) == if enabled then AddLastFirst(env, old(State(jar, storage)), list, url) else old(State(jar, storage))
    {
      var i := |list| - 1;
      assert list[..i + 1] == list;
      while i >= 0
        invariant -1 <= i < |list|
        invariant enabled ==> AddLastFirst(env, old(State(jar, storage)), list, url) == AddLastFirst(env, State(jar, storage), list[..i + 1], url)
        invariant !enabled ==> State(jar, storage) == old(State(jar, storage))
      {
        assert list[..i + 1][..i] == list[..i];
        AddCookie(list[i], url, now);
        i := i - 1;
      }
    }

    /** addCookiesFromMap: adds the records from the last one to the first. */
    method AddCookiesFromMap(recs: seq<Record>, url: string, now: Date)
      modifies this`jar, this`storage
      ensures State(jar, storage) == if enabled then AddRecordsLastFirst(env, old(State(jar, storage)), recs, url) else old(State(jar, storage))
    {
      var i := |recs| - 1;
      assert recs[..i + 1] == recs;
      while i >= 0
        invariant -1 <= i < |recs|
        invariant enabled ==> AddRecordsLastFirst(env, old(State(jar, storage)), recs, url) == AddRecordsLastFirst(env, State(jar, storage), recs[..i + 1], url)
        invariant !enabled ==> State(jar, storage) == old(State(jar, storage))
      {
        assert recs[..i + 1][..i] == recs[..i];
        AddCookieFromMap(recs[i], url, now);
        i := i - 1;
      }
    }

    /** cookiesToMap: one record per cookie, last cookie first, built in a
        single map reused across iterations. */
    method CookiesToMap(url: string, now: Date) returns (result: seq<Record>)
      ensures result == RecordsOf(env.formatDate, Cookies(url, now))
    {
      result := [];
      var cookie: Record := map[];
      var cookiesList := Cookies(url, now);
      var i := |cookiesList| - 1;
      while i >= 0
        invariant -1 <= i < |cookiesList|
        invariant result == RecordsOf(env.formatDate, cookiesList[i + 1..])
        invariant cookie.Keys <= {"domain", "name", "value", "path", "httponly", "secure", "expires"}
        invariant Carried(env.formatDate, cookiesList[i + 1..]).Some? <==> "expires" in cookie
        invariant "expires" in cookie ==> cookie["expires"] == Text(Carried(env.formatDate, cookiesList[i + 1..]).value)
      {
        var c := cookiesList[i];
        ghost var before := cookie;
        cookie := cookie["domain" := Text(c.domain)];
        cookie := cookie["name" := Text(c.name)];
        cookie := cookie["value" := Text(c.value)];
        cookie := cookie["path" := Text(if c.path == "" then "/" else c.path)];
        cookie := cookie["httponly" := Flag(c.httpOnly)];
        cookie := cookie["secure" := Flag(c.secure)];
        if c.expiration.Some? {
          cookie := cookie["expires" := Text(ExpiresText(env.formatDate, c.expiration.value))];
        }
        assert cookie == Refill(before, c, env.formatDate);
        ghost var rest := cookiesList[i..];
        assert rest[0] == c && rest[1..] == cookiesList[i + 1..];
        RefillIsRecordOf(before, c, env.formatDate, Carried(env.formatDate, cookiesList[i + 1..]));
        result := result + [cookie];
        i := i - 1;
      }
      assert cookiesList[0..] == cookiesList;
    }

    /** cookie(name): the LAST cookie with that name, scanning from the end;
        an empty cookie when there is none. */
    method CookieByName(name: string, url: string, now: Date) returns (r: Cookie)
      ensures r == match LastNamed(Cookies(url, now), name) case Some(k) => Cookies(url, now)[k] case None => NullCookie
    {
      var cookiesList := Cookies(url, now);
      var i := |cookiesList| - 1;
      while i >= 0
        invariant -1 <= i < |cookiesList|
        invariant forall j :: i < j < |cookiesList| ==> cookiesList[j].name != name
      {
        if cookiesList[i].name == name {
          return cookiesList[i];
        }
        i := i - 1;
      }
      return NullCookie;
    }

    /** cookieToMap(name): the last record with that name, which is the
        record of the FIRST cookie with that name; an empty map when there is none. */
    method CookieToMap(name: string, url: string, now: Date) returns (r: Record)
      ensures r == RecordNamed(RecordsOf(env.formatDate, Cookies(url, now)), name)
      ensures r == match FirstNamed(Cookies(url, now), name)
        case Some(k) => RecordOf(Cookies(url, now)[k], Carried(env.formatDate, Cookies(url, now)[k..]))
        case None => map[]
    {
      RecordNamedIsFirstCookie(env.formatDate, Cookies(url, now), name);
      var cookiesList := CookiesToMap(url, now);
      r := FindRecordNamed(cookiesList, name);
    }

    /** deleteCookie: on an enabled jar and a non-empty name, if a cookie with
        that name is visible to the url, the unchanged visible list is set
        again for the url (the expiry is only put on a discarded copy). */
    method DeleteCookie(name: string, url: string, now: Date)
      modifies this`jar, this`storage
      ensures
        if old(enabled) && name != "" && (exists c :: c in old(Cookies(url, now)) && c.name == name)
        then State(jar, storage) == SetAndSave(env, old(State(jar, storage)), old(Cookies(url, now)), url).0
        else State(jar, storage) == old(State(jar, storage))
    {
      if enabled && name != "" {
        var cookiesList := Cookies(url, now);
        var i := |cookiesList| - 1;
        while i >= 0
          invariant -1 <= i < |cookiesList|
          invariant forall j :: i < j < |cookiesList| ==> cookiesList[j].name != name
          invariant State(jar, storage) == old(State(jar, storage))
        {
          var cookie := cookiesList[i];
          if cookie.name == name {
            // QDateTime().addDays(-1) is still a null date, and this copy is never used.
            cookie := cookie.(expiration := None);
            var changed := SetCookiesFromUrl(cookiesList, url, now);
            return;
          }
          i := i - 1;
        }
      }
    }

    /** deleteCookies: an empty url clears the jar; any other url sets an
        empty list, which changes nothing. Neither saves. */
    method DeleteCookies(url: string, now: Date)
      modifies this`jar, this`storage
      ensures jar == if old(enabled) && url == "" then [] else old(jar)
      ensures storage == old(storage)
    {
      if enabled {
        if url == "" {
          ClearCookies();
        } else {
          var changed := SetCookiesFromUrl([], url, now);
        }
      }
    }

    /** clearCookies: empties an enabled jar without saving. */
    method ClearCookies()
      modifies this`jar
      ensures jar == if enabled then [] else old(jar)
    {
      if enabled {
        SetAllCookies([]);
      }
    }

    /** load(): on an enabled jar, replaces the list with what the store
        holds, and saves it again when some cookie has expired. */
    method Load(now: Date)
      modifies this`jar, this`storage
      ensures !enabled ==> jar == old(jar) && storage == old(storage)
      ensures enabled ==> jar == Loaded(env, old(storage))
      ensures enabled ==> storage ==
                          if exists i :: 0 <= i < |jar| && jar[i].IsExpired(now) then Saved(env, old(storage), jar) else old(storage)
    {
      if enabled {
        var cookies: seq<Cookie> := [];
        if StorageKey in storage {
          cookies := ReadCookies(env.parse, storage[StorageKey]);
        }
        SetAllCookies(cookies);
        var expired := PurgeExpiredCookies(now);
        if expired {
          Save(now);
        }
      }
    }

    /** The destructor: the session check, then save(); the list written is
        the whole jar, session cookies included. */
    method Destroy(now: Date)
      modifies this`storage
      ensures storage == if enabled then Saved(env, old(storage), jar) else old(storage)
    {
      var sessions := PurgeSessionCookies();
      Save(now);
    }
  }
}
