/** The CookieJar of src/cookiejar.cpp: an enabled flag and the inherited
    cookie list, persisted under the key "cookies" of a settings store. The
    pure functions first say what each step does to the persistent state;
    the class then does it step by step and is proved against them. */
module Jar {
  import opened Cookies
  import opened Persist
  import opened Records
  import opened Urls

  /** The QSettings store, as a map from keys to persisted streams. */
  type Storage = map<string, Stream>

  const StorageKey := "cookies"

  /** What save() leaves in the store. */
  function Saved(env: QtEnv, storage: Storage, jar: seq<Cookie>): (r: Storage)
    ensures StorageKey in r && r[StorageKey] == Encode(env.toRaw, jar)
    ensures forall k :: k in storage && k != StorageKey ==> k in r && r[k] == storage[k]
  {
    storage[StorageKey := Encode(env.toRaw, jar)]
  }

  /** What load() reads from the store: nothing when the key is absent. */
  function Loaded(env: QtEnv, storage: Storage): (r: seq<Cookie>)
    ensures StorageKey !in storage ==> r == []
    ensures StorageKey in storage && (|storage[StorageKey]| == 0 || storage[StorageKey][0] != Num(Version)) ==> r == []
  {
    if StorageKey in storage then Decode(env.parse, storage[StorageKey]) else []
  }

  /** The cookies of `s` that `drop` does not select, in order. */
  function Keep(s: seq<Cookie>, drop: Cookie -> bool): (r: seq<Cookie>)
    ensures |r| <= |s|
  {
    if |s| == 0 then [] else (if drop(s[0]) then [] else [s[0]]) + Keep(s[1..], drop)
  }

  /** The filtered copy holds exactly the cookies that are not selected. */
  lemma {:induction false} KeepMembers(s: seq<Cookie>, drop: Cookie -> bool)
    ensures forall c :: c in Keep(s, drop) <==> c in s && !drop(c)
    decreases |s|
  {
    if |s| > 0 {
      KeepMembers(s[1..], drop);
      assert forall c :: c in s <==> c == s[0] || c in s[1..];
    }
  }

  /** The persistent state that adding a cookie touches. */
  datatype State = State(jar: seq<Cookie>, storage: Storage)

  /** setCookiesFromUrl on an enabled jar: the base call, then save() when it reports a change. */
  function SetAndSave(env: QtEnv, st: State, list: seq<Cookie>, url: string): (r: (State, bool))
    ensures r.1 <==> exists c :: c in list && env.accepts(c, url)
    ensures !r.1 ==> r.0 == st
    ensures r.1 ==> r.0.storage == Saved(env, st.storage, r.0.jar)
    ensures r.0.jar == SetFromUrl(env, st.jar, list, url).0
  {
    var (jar', changed) := SetFromUrl(env, st.jar, list, url);
    (State(jar', if changed then Saved(env, st.storage, jar') else st.storage), changed)
  }

  /** addCookie on an enabled jar. */
  function AddOne(env: QtEnv, st: State, c: Cookie, url: string): (r: State)
    ensures !env.accepts(c, TargetUrl(c, url)) ==> r == st
    ensures env.accepts(c, TargetUrl(c, url)) ==>
      r.jar == Upsert(st.jar, c) && r.storage == Saved(env, st.storage, r.jar)
  {
    SetAndSave(env, st, [c], TargetUrl(c, url)).0
  }

  /** addCookieFromMap on an enabled jar: an invalid record changes nothing. */
  function AddRecord(env: QtEnv, st: State, rec: Record, url: string): (r: State)
    ensures CookieFromRecord(env.parseDate, rec).None? ==> r == st
    ensures CookieFromRecord(env.parseDate, rec).Some? ==> r == AddOne(env, st, CookieFromRecord(env.parseDate, rec).value, url)
    ensures CookieFromRecord(env.parseDate, rec).Some? ==>
      var c := CookieFromRecord(env.parseDate, rec).value;
      if env.accepts(c, TargetUrl(c, url)) then c in r.jar && r.storage == Saved(env, st.storage, r.jar) else r == st
  {
    match CookieFromRecord(env.parseDate, rec)
      case None => st
      case Some(c) => AddOne(env, st, c, url)
  }

  /** addCookies on an enabled jar: the last cookie is added first. */
  function AddLastFirst(env: QtEnv, st: State, cs: seq<Cookie>, url: string): State
    decreases |cs|
  {
    if |cs| == 0 then st
    else AddLastFirst(env, AddOne(env, st, cs[|cs| - 1], url), cs[..|cs| - 1], url)
  }

  /** addCookiesFromMap on an enabled jar: the last record is added first. */
  function AddRecordsLastFirst(env: QtEnv, st: State, recs: seq<Record>, url: string): State
    decreases |recs|
  {
    if |recs| == 0 then st
    else AddRecordsLastFirst(env, AddRecord(env, st, recs[|recs| - 1], url), recs[..|recs| - 1], url)
  }

  /** Index of the last cookie called `name` (the answer of cookie()). */
  function LastNamed(cs: seq<Cookie>, name: string): (r: Option<nat>)
    ensures r.Some? ==> r.value < |cs| && cs[r.value].name == name
    ensures r.Some? ==> forall j :: r.value < j < |cs| ==> cs[j].name != name
    ensures r.None? ==> forall j :: 0 <= j < |cs| ==> cs[j].name != name
  {
    if |cs| == 0 then None
    else if cs[|cs| - 1].name == name then Some(|cs| - 1)
    else LastNamed(cs[..|cs| - 1], name)
  }

  /** Index of the first cookie called `name`. */
  function FirstNamed(cs: seq<Cookie>, name: string): (r: Option<nat>)
    ensures r.Some? ==> r.value < |cs| && cs[r.value].name == name
    ensures r.Some? ==> forall j :: 0 <= j < r.value ==> cs[j].name != name
    ensures r.None? ==> forall j :: 0 <= j < |cs| ==> cs[j].name != name
  {
    if |cs| == 0 then None
    else if cs[0].name == name then Some(0)
    else match FirstNamed(cs[1..], name)
      case None => None
      case Some(k) => Some(k + 1)
  }

  /** `cookie["name"].toString()` of a record; an absent key reads as "". */
  function RecordName(rec: Record): string
  {
    if "name" in rec then ToText(rec["name"]) else ""
  }

  /** Index of the last record whose name is `name` (the answer of cookieToMap()). */
  function LastRecordNamed(recs: seq<Record>, name: string): (r: Option<nat>)
    ensures r.Some? ==> r.value < |recs| && RecordName(recs[r.value]) == name
    ensures r.Some? ==> forall j :: r.value < j < |recs| ==> RecordName(recs[j]) != name
    ensures r.None? ==> forall j :: 0 <= j < |recs| ==> RecordName(recs[j]) != name
  {
    if |recs| == 0 then None
    else if RecordName(recs[|recs| - 1]) == name then Some(|recs| - 1)
    else LastRecordNamed(recs[..|recs| - 1], name)
  }

  /** The reverse-order loop that both purges run on their copy of the list:
      every cookie `drop` selects is removed with removeAt, last index first. */
  method RemoveWhere(cookies: seq<Cookie>, drop: Cookie -> bool) returns (list: seq<Cookie>)
    ensures list == Keep(cookies, drop)
  {
    list := cookies;
    var i := |cookies| - 1;
    while i >= 0
      invariant -1 <= i < |cookies|
      invariant list == cookies[..i + 1] + Keep(cookies[i + 1..], drop)
    {
      RemoveStep(cookies, drop, i, list);
      if drop(list[i]) {
        list := list[..i] + list[i + 1..];
      }
      i := i - 1;
    }
    assert cookies[0..] == cookies;
  }

  /** One step of the filter from index i. */
  lemma KeepStep(s: seq<Cookie>, drop: Cookie -> bool, i: nat)
    requires i < |s|
    ensures Keep(s[i..], drop) == (if drop(s[i]) then [] else [s[i]]) + Keep(s[i + 1..], drop)
  {
    assert s[i..][1..] == s[i + 1..];
  }

  /** One turn of the removal loop at index i keeps its invariant. */
  lemma RemoveStep(cookies: seq<Cookie>, drop: Cookie -> bool, i: nat, list: seq<Cookie>)
    requires i < |cookies|
    requires list == cookies[..i + 1] + Keep(cookies[i + 1..], drop)
    ensures i < |list| && list[i] == cookies[i]
    ensures (if drop(cookies[i]) then list[..i] + list[i + 1..] else list) == cookies[..i] + Keep(cookies[i..], drop)
  {
    var kept := Keep(cookies[i + 1..], drop);
    KeepStep(cookies, drop, i);
    assert cookies[..i + 1] == cookies[..i] + [cookies[i]];
    assert list == cookies[..i] + [cookies[i]] + kept;
    if drop(cookies[i]) {
      assert list[..i] == cookies[..i] && list[i + 1..] == kept;
    } else {
      assert list == cookies[..i] + ([cookies[i]] + kept);
    }
  }

  /** A purge's count changes exactly when it found something to remove. */
  lemma {:induction false} KeepSameLength(s: seq<Cookie>, drop: Cookie -> bool)
    ensures |Keep(s, drop)| == |s| <==> forall i :: 0 <= i < |s| ==> !drop(s[i])
    decreases |s|
  {
    if |s| > 0 {
      KeepSameLength(s[1..], drop);
      assert forall i :: 1 <= i < |s| ==> s[i] == s[1..][i - 1];
    }
  }

  /** Filtering again finds nothing more to remove: the purge filter that
      each purge runs on its local copy is idempotent. */
  lemma KeepLeavesNothing(s: seq<Cookie>, drop: Cookie -> bool)
    ensures forall i :: 0 <= i < |Keep(s, drop)| ==> !drop(Keep(s, drop)[i])
    ensures Keep(Keep(s, drop), drop) == Keep(s, drop)
  {
    var k := Keep(s, drop);
    KeepMembers(s, drop);
    assert forall i :: 0 <= i < |k| ==> k[i] in k;
    KeepSameLength(k, drop);
    KeepAll(k, drop);
  }

  lemma {:induction false} KeepAll(s: seq<Cookie>, drop: Cookie -> bool)
    requires forall i :: 0 <= i < |s| ==> !drop(s[i])
    ensures Keep(s, drop) == s
    decreases |s|
  {
    if |s| > 0 {
      KeepAll(s[1..], drop);
    }
  }

  /** A save followed by a load gives back exactly the list that was saved:
      expired cookies and session cookies included, since no purge writes back. */
  lemma SaveLoadRoundTrip(env: QtEnv, storage: Storage, jar: seq<Cookie>)
    requires RawRoundTrips(env, jar)
    requires |jar| < U32Range
    ensures Loaded(env, Saved(env, storage, jar)) == jar
  {
    DecodeEncode(env, jar);
  }

  /** deleteCookie passes the visible cookies back unchanged: in a jar with
      unique keys the jar stays exactly as it was, and nothing is deleted. */
  lemma DeleteKeepsJar(env: QtEnv, st: State, visible: seq<Cookie>, url: string)
    requires Unique(st.jar)
    requires forall c :: c in visible ==> c in st.jar
    ensures SetAndSave(env, st, visible, url).0.jar == st.jar
  {
    SetFromUrlOwnCookies(env, st.jar, visible, url);
  }

  /** In a jar with unique keys, storing a cookie pushes out any other cookie with its key. */
  lemma UpsertEvicts(jar: seq<Cookie>, c: Cookie, x: Cookie)
    requires Unique(jar)
    requires KeyOf(x) == KeyOf(c) && x != c
    ensures x !in Upsert(jar, c)
  {
    match FindKey(jar, KeyOf(c)) {
      case Some(i) =>
        var r := jar[i := c];
        forall j | 0 <= j < |r| ensures r[j] != x {
          if j != i {
            if j < i { assert KeyOf(jar[j]) != KeyOf(jar[i]); } else { assert KeyOf(jar[i]) != KeyOf(jar[j]); }
          }
        }
      case None =>
        assert forall j :: 0 <= j < |jar| ==> jar[j] != x;
    }
  }

  lemma AddOneKeepsUnique(env: QtEnv, st: State, c: Cookie, url: string)
    requires Unique(st.jar)
    ensures Unique(AddOne(env, st, c, url).jar)
  {
    SetFromUrlKeepsUnique(env, st.jar, [c], TargetUrl(c, url));
  }

  /** addCookies keeps identity keys unique. */
  lemma {:induction false} AddLastFirstKeepsUnique(env: QtEnv, st: State, cs: seq<Cookie>, url: string)
    requires Unique(st.jar)
    ensures Unique(AddLastFirst(env, st, cs, url).jar)
    decreases |cs|
  {
    if |cs| > 0 {
      AddOneKeepsUnique(env, st, cs[|cs| - 1], url);
      AddLastFirstKeepsUnique(env, AddOne(env, st, cs[|cs| - 1], url), cs[..|cs| - 1], url);
    }
  }

  lemma AddRecordKeepsUnique(env: QtEnv, st: State, rec: Record, url: string)
    requires Unique(st.jar)
    ensures Unique(AddRecord(env, st, rec, url).jar)
  {
    match CookieFromRecord(env.parseDate, rec) {
      case None =>
      case Some(c) => AddOneKeepsUnique(env, st, c, url);
    }
  }

  /** addCookiesFromMap keeps identity keys unique. */
  lemma {:induction false} AddRecordsLastFirstKeepsUnique(env: QtEnv, st: State, recs: seq<Record>, url: string)
    requires Unique(st.jar)
    ensures Unique(AddRecordsLastFirst(env, st, recs, url).jar)
    decreases |recs|
  {
    if |recs| > 0 {
      AddRecordKeepsUnique(env, st, recs[|recs| - 1], url);
      AddRecordsLastFirstKeepsUnique(env, AddRecord(env, st, recs[|recs| - 1], url), recs[..|recs| - 1], url);
    }
  }

  /** No cookie of `cs` that addCookies would store has key `k`. */
  predicate NoneAddedWithKey(env: QtEnv, cs: seq<Cookie>, url: string, k: Key)
  {
    forall m :: 0 <= m < |cs| && env.accepts(cs[m], TargetUrl(cs[m], url)) ==> KeyOf(cs[m]) != k
  }

  /** addCookies leaves a stored cookie alone when no added cookie has its key. */
  lemma {:induction false} AddLastFirstKeeps(env: QtEnv, st: State, cs: seq<Cookie>, url: string, x: Cookie)
    requires x in st.jar
    requires NoneAddedWithKey(env, cs, url, KeyOf(x))
    ensures x in AddLastFirst(env, st, cs, url).jar
    decreases |cs|
  {
    if |cs| > 0 {
      var init := cs[..|cs| - 1];
      assert forall m :: 0 <= m < |init| ==> init[m] == cs[m];
      AddLastFirstKeeps(env, AddOne(env, st, cs[|cs| - 1], url), init, url, x);
    }
  }

  /** Of each key, the earliest accepted cookie of the input is the one
      addCookies leaves in the jar, since the list is added last to first. */
  lemma {:induction false} EarliestInputWins(env: QtEnv, st: State, cs: seq<Cookie>, url: string, i: nat)
    requires i < |cs| && env.accepts(cs[i], TargetUrl(cs[i], url))
    requires NoneAddedWithKey(env, cs[..i], url, KeyOf(cs[i]))
    ensures cs[i] in AddLastFirst(env, st, cs, url).jar
    decreases |cs|
  {
    var init := cs[..|cs| - 1];
    var st' := AddOne(env, st, cs[|cs| - 1], url);
    if i == |cs| - 1 {
      assert init == cs[..i];
      AddLastFirstKeeps(env, st', init, url, cs[i]);
    } else {
      assert init[..i] == cs[..i] && init[i] == cs[i];
      EarliestInputWins(env, st', init, url, i);
    }
  }

  /** Bulk adds run last to first, so of two cookies with the same key the
      one EARLIER in the input is the one left in the jar. */
  lemma EarlierInputWins(env: QtEnv, st: State, a: Cookie, b: Cookie, url: string)
    requires Unique(st.jar)
    requires KeyOf(a) == KeyOf(b) && a != b
    requires env.accepts(a, TargetUrl(a, url)) && env.accepts(b, TargetUrl(b, url))
    ensures a in AddLastFirst(env, st, [a, b], url).jar
    ensures b !in AddLastFirst(env, st, [a, b], url).jar
  {
    var st1 := AddOne(env, st, b, url);
    assert [a, b][..1] == [a];
    assert st1.jar == Upsert(st.jar, b);
    UpsertKeepsUnique(st.jar, b);
    var st2 := AddOne(env, st1, a, url);
    assert st2.jar == Upsert(st1.jar, a);
    assert AddLastFirst(env, st, [a, b], url) == AddLastFirst(env, st1, [a], url) == st2;
    UpsertEvicts(st1.jar, a, b);
  }

  lemma RecordNameOf(c: Cookie, carried: Option<string>)
    ensures RecordName(RecordOf(c, carried)) == c.name
  {
  }

  /** Record m of cookiesToMap carries the name of cookie |cs| - 1 - m. */
  lemma RecordNames(formatDate: Date -> string, cs: seq<Cookie>)
    ensures forall m :: 0 <= m < |cs| ==> RecordName(RecordsOf(formatDate, cs)[m]) == cs[|cs| - 1 - m].name
  {
    forall m | 0 <= m < |cs|
      ensures RecordName(RecordsOf(formatDate, cs)[m]) == cs[|cs| - 1 - m].name
    {
      var i := |cs| - 1 - m;
      RecordsOfCookie(formatDate, cs, i);
      assert |cs| - 1 - i == m;
      RecordNameOf(cs[i], Carried(formatDate, cs[i..]));
    }
  }

  /** The record cookieToMap finds is that of the FIRST cookie with the name,
      because cookiesToMap lists the cookies last to first. */
  lemma RecordLookupIsFirstCookie(formatDate: Date -> string, cs: seq<Cookie>, name: string)
    ensures LastRecordNamed(RecordsOf(formatDate, cs), name) ==
      (match FirstNamed(cs, name) case Some(k) => Some(|cs| - 1 - k) case None => None)
  {
    var recs := RecordsOf(formatDate, cs);
    RecordNames(formatDate, cs);
    match FirstNamed(cs, name) {
      case Some(k) =>
        var m := |cs| - 1 - k;
        forall j | m < j < |recs| ensures RecordName(recs[j]) != name {
          assert cs[|cs| - 1 - j].name != name;
        }
        LastRecordNamedAt(recs, name, m);
      case None =>
        forall j | 0 <= j < |recs| ensures RecordName(recs[j]) != name {
          assert cs[|cs| - 1 - j].name != name;
        }
    }
  }

  /** The last record with the name is at m when record m has it and none after it does. */
  lemma LastRecordNamedAt(recs: seq<Record>, name: string, m: nat)
    requires m < |recs| && RecordName(recs[m]) == name
    requires forall j :: m < j < |recs| ==> RecordName(recs[j]) != name
    ensures LastRecordNamed(recs, name) == Some(m)
  {
    var found := LastRecordNamed(recs, name);
    assert found.Some?;
    assert !(found.value < m);
  }

  /** cookieToMap's answer on the list cookiesToMap built: the last record
      with the name, or an empty map. */
  function RecordNamed(recs: seq<Record>, name: string): Record
  {
    match LastRecordNamed(recs, name)
      case Some(k) => recs[k]
      case None => map[]
  }

  /** The search loop of cookieToMap over the records, from the last one back. */
  method FindRecordNamed(recs: seq<Record>, name: string) returns (r: Record)
    ensures r == RecordNamed(recs, name)
  {
    var i := |recs| - 1;
    while i >= 0
      invariant -1 <= i < |recs|
      invariant forall j :: i < j < |recs| ==> RecordName(recs[j]) != name
    {
      var cookie := recs[i];
      if RecordName(cookie) == name {
        return cookie;
      }
      i := i - 1;
    }
    return map[];
  }

  /** cookieToMap returns the record of the first cookie with the name, with
      the "expires" the reused map carries at that point; an empty map when none has it. */
  lemma RecordNamedIsFirstCookie(formatDate: Date -> string, cs: seq<Cookie>, name: string)
    ensures RecordNamed(RecordsOf(formatDate, cs), name) ==
      match FirstNamed(cs, name)
        case Some(k) => RecordOf(cs[k], Carried(formatDate, cs[k..]))
        case None => map[]
  {
    RecordLookupIsFirstCookie(formatDate, cs, name);
    match FirstNamed(cs, name) {
      case Some(k) =>
        RecordsOfCookie(formatDate, cs, k);
      case None =>
    }
  }
}
