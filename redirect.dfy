/**
  The `redirect` edge function: resolves a short id or alias to its long
  URL, refusing disabled and expired links; and `lookupCountry`, a
  read-through cache in `geo_cache` in front of a geolocation service.

  The current time and the geolocation service's answer are parameters.
 */
module Redirect {
  import opened Wrappers
  import opened Http
  import opened Store

  // ---------------------------------------------------------------------
  // Resolution

  datatype ResolveError =
    | ShortIdRequired
    | LinkNotFound
    | LinkDisabled
    | LinkExpired

  function ResolveMessage(e: ResolveError): string {
    match e
    case ShortIdRequired => "Short ID required"
    case LinkNotFound => "Link not found"
    case LinkDisabled => "This link has been disabled"
    case LinkExpired => "This link has expired"
  }

  /** `link.expires_at && new Date(link.expires_at) < new Date()`: set, and strictly before now. */
  predicate IsExpired(link: Link, now: int) {
    link.expiresAt.Some? && link.expiresAt.value < now
  }

  /**
    Lines 54-85: a falsy id, then no single row matching the id's text as
    short_id or as alias, then disabled, then expired; otherwise the long
    URL. `shortId` is whatever JSON value the body carries; the filter string
    embeds it as `${shortId}`.
   */
  function Resolve(rows: seq<Link>, shortId: JsValue, now: int): (r: Result<string, ResolveError>)
    ensures r == Failure(ShortIdRequired) <==> !Truthy(shortId)
    ensures r.Success? ==>
      exists link :: Select(rows, ShortIdOrAliasIs(TemplateText(shortId))) == [link] &&
        !link.disabled && !IsExpired(link, now) && r.value == link.longUrl
    ensures r == Failure(LinkDisabled) ==>
      exists link :: Select(rows, ShortIdOrAliasIs(TemplateText(shortId))) == [link] && link.disabled
    ensures r == Failure(LinkExpired) ==>
      exists link :: Select(rows, ShortIdOrAliasIs(TemplateText(shortId))) == [link] &&
        !link.disabled && IsExpired(link, now)
    ensures r == Failure(LinkNotFound) <==>
      Truthy(shortId) && |Select(rows, ShortIdOrAliasIs(TemplateText(shortId)))| != 1
  {
    if !Truthy(shortId) then Failure(ShortIdRequired)
    else
      match Single(Select(rows, ShortIdOrAliasIs(TemplateText(shortId))))
      case None => Failure(LinkNotFound)
      case Some(link) =>
        if link.disabled then Failure(LinkDisabled)
        else if IsExpired(link, now) then Failure(LinkExpired)
        else Success(link.longUrl)
  }

  /** Every failure is answered with status 404 and `{error: message}`; success with the URL. */
  function RedirectResponse(r: Result<string, ResolveError>): (resp: Response)
    ensures resp.status == NotFound <==> r.Failure?
    ensures r.Failure? ==> resp.body == ErrorBody(ResolveMessage(r.error))
    ensures r.Success? ==> resp == Response(Ok, UrlBody(r.value))
  {
    match r
    case Success(url) => Response(Ok, UrlBody(url))
    case Failure(e) => Response(NotFound, ErrorBody(ResolveMessage(e)))
  }

  /**
    The edge function: one read of `links`, then the decision chain. On a
    table that keeps its invariants, 'Link not found' means that no row has
    the id as short id or alias.
   */
  method HandleRedirect(store: LinkStore, shortId: JsValue, now: int) returns (resp: Response)
    ensures resp == RedirectResponse(Resolve(store.rows, shortId, now))
    ensures resp.status == NotFound <==> Resolve(store.rows, shortId, now).Failure?
    ensures store.Valid() && Truthy(shortId) ==>
      (Resolve(store.rows, shortId, now) == Failure(LinkNotFound) <==>
        forall l :: l in store.rows ==> l.shortId != TemplateText(shortId) && l.customAlias != Some(TemplateText(shortId)))
  {
    if !Truthy(shortId) {
      resp := RedirectResponse(Failure(ShortIdRequired));
    } else {
      var key := TemplateText(shortId);
      var link := store.SelectSingle(ShortIdOrAliasIs(key));
      if link.None? {
        if store.Valid() {
          NotFoundIffAbsent(store.rows, shortId, now);
        }
        resp := RedirectResponse(Failure(LinkNotFound));
      } else {
        assert Select(store.rows, ShortIdOrAliasIs(key))[0] in Select(store.rows, ShortIdOrAliasIs(key));
        if link.value.disabled {
          resp := RedirectResponse(Failure(LinkDisabled));
        } else if IsExpired(link.value, now) {
          resp := RedirectResponse(Failure(LinkExpired));
        } else {
          resp := RedirectResponse(Success(link.value.longUrl));
        }
      }
    }
  }

  /** A disabled link reports 'disabled' whether or not it has also expired. */
  lemma DisabledBeforeExpired(rows: seq<Link>, key: string, now: int)
    requires key != ""
    requires |Select(rows, ShortIdOrAliasIs(key))| == 1 && Select(rows, ShortIdOrAliasIs(key))[0].disabled
    ensures Resolve(rows, JsString(key), now) == Failure(LinkDisabled)
  {
  }

  /**
    In a table that keeps its constraints and the alias-is-code invariant,
    'Link not found' means exactly that no link has the key as short id or
    as alias: `.single()` never meets two rows.
   */
  lemma NotFoundIffAbsent(rows: seq<Link>, shortId: JsValue, now: int)
    requires UniqueKeys(rows) && AliasesAreCodes(rows)
    requires Truthy(shortId)
    ensures var key := TemplateText(shortId);
      Resolve(rows, shortId, now) == Failure(LinkNotFound) <==>
        forall l :: l in rows ==> l.shortId != key && l.customAlias != Some(key)
  {
    SingleFindsPresent(rows, ShortIdOrAliasIs(TemplateText(shortId)));
  }

  /** Only an id's text matters: two truthy ids with the same text resolve alike. */
  lemma SameTextSameResolution(rows: seq<Link>, v: JsValue, w: JsValue, now: int)
    requires Truthy(v) && Truthy(w) && TemplateText(v) == TemplateText(w)
    ensures Resolve(rows, v, now) == Resolve(rows, w, now)
  {
  }

  /** A number is looked up by its decimal text: `42` resolves as "42" does, `-7` as "-7". */
  lemma NumericIdIsItsText(rows: seq<Link>, n: int, now: int)
    requires n != 0
    ensures Resolve(rows, JsNumber(n), now) ==
      Resolve(rows, JsString(if n < 0 then "-" + DecimalDigits(-n) else DecimalDigits(n)), now)
  {
    var text := if n < 0 then "-" + DecimalDigits(-n) else DecimalDigits(n);
    assert TemplateText(JsNumber(n)) == text;
    SameTextSameResolution(rows, JsNumber(n), JsString(text), now);
  }

  /**
    A key that is one row's short id and another row's alias matches two
    rows, and `.single()` turns that into 'Link not found', whatever state
    either link is in. The alias-is-code invariant rules this table out.
   */
  lemma AmbiguousKeyNotFound(rows: seq<Link>, i: nat, j: nat, key: string, now: int)
    requires i < |rows| && j < |rows| && i != j
    requires key != "" && rows[i].shortId == key && rows[j].customAlias == Some(key)
    ensures Resolve(rows, JsString(key), now) == Failure(LinkNotFound)
  {
    if i < j {
      SelectKeepsBoth(rows, ShortIdOrAliasIs(key), i, j);
    } else {
      SelectKeepsBoth(rows, ShortIdOrAliasIs(key), j, i);
    }
  }

  /** The table constraints alone allow such a table: two rows, distinct short ids, one alias. */
  lemma AmbiguousTableExample(now: int)
    ensures var rows := [Link("x", "https://a.example", None, None, false),
                         Link("y", "https://b.example", Some("x"), None, false)];
      UniqueKeys(rows) && !AliasesAreCodes(rows) && Resolve(rows, JsString("x"), now) == Failure(LinkNotFound)
  {
    var rows := [Link("x", "https://a.example", None, None, false),
                 Link("y", "https://b.example", Some("x"), None, false)];
    AmbiguousKeyNotFound(rows, 0, 1, "x", now);
    assert rows[1] in rows;
  }

  /**
    Expiry is strict: an enabled link resolves up to and including the
    instant it expires, fails as expired from then on, and resolves at any
    time when it has no expiry.
   */
  lemma ExpiryIsStrict(rows: seq<Link>, key: string, link: Link, now: int)
    requires key != "" && Select(rows, ShortIdOrAliasIs(key)) == [link] && !link.disabled
    ensures link.expiresAt.None? ==> Resolve(rows, JsString(key), now) == Success(link.longUrl)
    ensures link.expiresAt == Some(now) ==> Resolve(rows, JsString(key), now) == Success(link.longUrl)
    ensures link.expiresAt.Some? && link.expiresAt.value < now ==> Resolve(rows, JsString(key), now) == Failure(LinkExpired)
  {
  }

  // ---------------------------------------------------------------------
  // Geolocation cache

  datatype GeoEntry = GeoEntry(country: string, lastSeen: int)

  /**
    What the call to the geolocation service comes to: it threw (network
    error, or a body that is not JSON), it answered with a status that is
    not ok, or it answered ok with a body whose `country` may be missing.
   */
  datatype GeoReply = GeoThrew | GeoNotOk | GeoOk(country: Option<string>)

  const UnknownCountry: string := "Unknown"

  /** A lookup's country, the cache afterwards, and whether the service was called. */
  datatype GeoLookup = GeoLookup(country: string, cache: map<string, GeoEntry>, fetched: bool)

  /** `lookupCountry(ip)` on a cache state, given what the service would answer. */
  function LookupCountrySpec(cache: map<string, GeoEntry>, ip: string, reply: GeoReply, now: int): (r: GeoLookup)
    ensures r.fetched <==> ip !in cache
    ensures ip in cache ==> r.country == cache[ip].country
    ensures ip !in cache && !reply.GeoOk? ==> r.country == UnknownCountry
    ensures ip !in cache && reply.GeoOk? ==>
      r.country == (if reply.country.Some? && reply.country.value != "" then reply.country.value else UnknownCountry) &&
      ip in r.cache && r.cache[ip] == GeoEntry(r.country, now)
    ensures r.cache.Keys == cache.Keys + (if ip !in cache && reply.GeoOk? then {ip} else {})
    ensures forall k :: k in cache ==> r.cache[k] == cache[k]
    ensures ip in r.cache ==> r.cache[ip].country == r.country
  {
    if ip in cache then GeoLookup(cache[ip].country, cache, false)
    else
      match reply
      case GeoOk(c) =>
        var country := if c.Some? && c.value != "" then c.value else UnknownCountry;
        GeoLookup(country, cache[ip := GeoEntry(country, now)], true)
      case _ => GeoLookup(UnknownCountry, cache, true)
  }

  /** Every cached country is a name: an ok answer without a country is stored as 'Unknown'. */
  ghost predicate CountriesNamed(cache: map<string, GeoEntry>) {
    forall ip :: ip in cache ==> cache[ip].country != ""
  }

  /** A lookup keeps every cached country a name, and so never answers with an empty country. */
  lemma LookupKeepsCountriesNamed(cache: map<string, GeoEntry>, ip: string, reply: GeoReply, now: int)
    requires CountriesNamed(cache)
    ensures CountriesNamed(LookupCountrySpec(cache, ip, reply, now).cache)
    ensures LookupCountrySpec(cache, ip, reply, now).country != ""
  {
  }

  /** After a miss the service answered ok, the next lookup of that IP is a hit with the same country. */
  lemma SecondLookupHits(cache: map<string, GeoEntry>, ip: string, reply: GeoReply, reply': GeoReply, now: int, later: int)
    requires ip !in cache && reply.GeoOk?
    ensures var first := LookupCountrySpec(cache, ip, reply, now);
      var second := LookupCountrySpec(first.cache, ip, reply', later);
      !second.fetched && second.country == first.country && second.cache == first.cache
  {
  }

  /** A run of lookups, one per (ip, answer) pair, all at time `now`. */
  function LookupEach(cache: map<string, GeoEntry>, requests: seq<(string, GeoReply)>, now: int): map<string, GeoEntry>
    decreases |requests|
  {
    if requests == [] then cache
    else LookupEach(LookupCountrySpec(cache, requests[0].0, requests[0].1, now).cache, requests[1..], now)
  }

  /**
    The cache only grows: whatever the order of lookups and answers, an
    entry once written is never overwritten or removed, and every IP a run
    of lookups adds was looked up and answered ok.
   */
  lemma {:induction false} CacheEntriesAreStable(cache: map<string, GeoEntry>, requests: seq<(string, GeoReply)>, now: int)
    ensures cache.Keys <= LookupEach(cache, requests, now).Keys
    ensures forall ip :: ip in cache ==> LookupEach(cache, requests, now)[ip] == cache[ip]
    ensures forall ip :: ip in LookupEach(cache, requests, now) && ip !in cache ==>
      exists k :: 0 <= k < |requests| && requests[k].0 == ip && requests[k].1.GeoOk?
    decreases |requests|
  {
    if requests != [] {
      var next := LookupCountrySpec(cache, requests[0].0, requests[0].1, now).cache;
      CacheEntriesAreStable(next, requests[1..], now);
      forall ip | ip in LookupEach(cache, requests, now) && ip !in cache
        ensures exists k :: 0 <= k < |requests| && requests[k].0 == ip && requests[k].1.GeoOk?
      {
        if ip in next {
          assert requests[0].0 == ip && requests[0].1.GeoOk?;
        } else {
          var k :| 0 <= k < |requests[1..]| && requests[1..][k].0 == ip && requests[1..][k].1.GeoOk?;
          assert requests[k + 1] == requests[1..][k];
        }
      }
    }
  }

  /** The `geo_cache` table: at most one entry per IP. */
  class GeoCache {
    var entries: map<string, GeoEntry>

    constructor ()
      ensures entries == map[]
    {
      entries := map[];
    }

    /** Lines 9-40: read the cache; on a miss ask the service and upsert only an ok answer. */
    method LookupCountry(ip: string, reply: GeoReply, now: int) returns (country: string)
      modifies this
      ensures country == LookupCountrySpec(old(entries), ip, reply, now).country
      ensures entries == LookupCountrySpec(old(entries), ip, reply, now).cache
    {
      if ip in entries {
        return entries[ip].country;
      }
      match reply {
        case GeoOk(c) =>
          country := if c.Some? && c.value != "" then c.value else UnknownCountry;
          entries := entries[ip := GeoEntry(country, now)];
        case GeoNotOk =>
          country := UnknownCountry;
        case GeoThrew =>
          country := UnknownCountry;
      }
    }
  }
}
