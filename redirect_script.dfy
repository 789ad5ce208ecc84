/** `redirect-script.js`: the configurable dispatcher for exact `YYYY-MM-DD`
    dates. A run passes, in order, the configuration guards, the `no-redirect`
    opt-out, the suppression cookie, the date lookup and the destination
    check, and on a hit writes the suppression cookie and then navigates. */
module RedirectScript {
  import opened Text
  import opened Cookies
  import opened QueryParams
  import opened Urls
  import opened Calendar
  import opened Browser

  /** `window.landingPageRedirectConfig`: `urlsByDate` is `None` when it is
      missing or not an object; the optional fields are `None` when absent. */
  datatype Config = Config(
    urlsByDate: Option<map<string, string>>,
    suppressionCookie: Option<string>,
    suppressionDurationDays: Option<int>)

  const DefaultCookieName: string := "redirectSuppressed"
  const DefaultDurationDays: int := 1

  /** `config.suppressionCookie || "redirectSuppressed"`: an absent or empty
      name falls back to the default. */
  function CookieName(c: Config): (name: string)
    ensures name != ""
    ensures c.suppressionCookie.Some? && c.suppressionCookie.value != "" ==> name == c.suppressionCookie.value
    ensures c.suppressionCookie.None? || c.suppressionCookie.value == "" ==> name == DefaultCookieName
  {
    if c.suppressionCookie.Some? && c.suppressionCookie.value != "" then c.suppressionCookie.value
    else DefaultCookieName
  }

  /** `suppressionDurationDays !== undefined ? suppressionDurationDays : 1`:
      only an absent value falls back, so 0 is kept. */
  function DurationDays(c: Config): (days: int)
    ensures c.suppressionDurationDays.Some? ==> days == c.suppressionDurationDays.value
    ensures c.suppressionDurationDays.None? ==> days == DefaultDurationDays
  {
    if c.suppressionDurationDays.Some? then c.suppressionDurationDays.value else DefaultDurationDays
  }

  /** What `setCookie(suppressionCookie, "true", SUPPRESSION_DURATION_DAYS)`
      writes: `path=/`, `SameSite=Lax`, and `Secure` on an `https:` page. */
  function SuppressionWrite(c: Config, page: Page): CookieWrite
  {
    CookieWrite(CookieName(c), "true", ExpiryAfterDays(page.nowMs, DurationDays(c)), true, SecureOn(page))
  }

  /** `getCurrentDate()` for this page. */
  function TodayKey(page: Page, today: Date): string
    requires IsCalendarDate(today)
  {
    CurrentIsoDate(Get(page.search, "simulate-date"), today)
  }

  /** Whether the configuration passes the three guards at the top of the
      script: the object exists, `urlsByDate` is an object, and it is not
      empty. */
  predicate Configured(config: Option<Config>)
  {
    config.Some? && config.value.urlsByDate.Some? && |config.value.urlsByDate.value| > 0
  }

  /** The effects of one run of the script, in order. */
  function Dispatch(config: Option<Config>, page: Page, today: Date, parse: Parser, codec: Codec): seq<Effect>
    requires IsCalendarDate(today)
  {
    if !Configured(config) then []
    else
      var c := config.value;
      var table := c.urlsByDate.value;
      var key := TodayKey(page, today);
      if Has(page.search, "no-redirect") then [SetCookie(SuppressionWrite(c, page))]
      else if Truthy(CookieValue(page.cookieJar, CookieName(c))) then []
      else if key !in table || table[key] == "" then []
      else if !IsValidUrl(table[key], parse) then []
      else [SetCookie(SuppressionWrite(c, page)), Navigate(BuildRedirectUrl(table[key], page.search, page.href, codec))]
  }

  /** The script on one page load: its inputs are fixed when it starts, and
      `effects` records what it does. */
  class Run {
    const config: Option<Config>
    const page: Page
    const today: Date
    const parse: Parser
    const codec: Codec
    var effects: seq<Effect>

    constructor(config: Option<Config>, page: Page, today: Date, parse: Parser, codec: Codec)
      requires IsCalendarDate(today)
      ensures this.config == config && this.page == page && this.today == today
      ensures this.parse == parse && this.codec == codec
      ensures effects == []
    {
      this.config := config;
      this.page := page;
      this.today := today;
      this.parse := parse;
      this.codec := codec;
      effects := [];
    }

    /** `setCookie(name, value, days)`: `path=/`, `SameSite=Lax`, and
        `Secure` on an `https:` page. */
    method SetCookieForDays(name: string, value: string, days: int)
      modifies this
      ensures effects == old(effects) + [SetCookie(CookieWrite(name, value, ExpiryAfterDays(page.nowMs, days), true, SecureOn(page)))]
    {
      var expires := page.nowMs + days * 86400000;
      var secure := page.protocol == "https:";
      effects := effects + [SetCookie(CookieWrite(name, value, expires, true, secure))];
    }

    /** The script body, early returns and all: the configuration guards,
        then the checks `AfterGuards` carries out. */
    method Execute()
      requires effects == [] && IsCalendarDate(today)
      modifies this
      ensures effects == Dispatch(config, page, today, parse, codec)
    {
      if config.None? {
        return;
      }
      var c := config.value;
      if c.urlsByDate.None? {
        return;
      }
      var table := c.urlsByDate.value;
      if |table| == 0 {
        return;
      }
      AfterGuards();
    }

    /** The `no-redirect` opt-out and the suppression cookie. */
    method AfterGuards()
      requires effects == [] && IsCalendarDate(today) && Configured(config)
      modifies this
      ensures effects == Dispatch(config, page, today, parse, codec)
    {
      var c := config.value;
      var name := CookieName(c);
      var days := DurationDays(c);
      if Has(page.search, "no-redirect") {
        SetCookieForDays(name, "true", days);
        return;
      }
      var suppressed := GetCookie(page.cookieJar, name);
      if Truthy(suppressed) {
        return;
      }
      LookUpToday();
    }

    /** Today's key, the destination check, and the redirect itself. */
    method LookUpToday()
      requires effects == [] && IsCalendarDate(today) && Configured(config)
      requires !Has(page.search, "no-redirect") && !Truthy(CookieValue(page.cookieJar, CookieName(config.value)))
      modifies this
      ensures effects == Dispatch(config, page, today, parse, codec)
    {
      var c := config.value;
      var table := c.urlsByDate.value;
      var key := CurrentIsoDate(Get(page.search, "simulate-date"), today);
      assert key == TodayKey(page, today);
      if key !in table || table[key] == "" {
        return;
      }
      var dest := table[key];
      if !IsValidUrl(dest, parse) {
        return;
      }
      SetCookieForDays(CookieName(c), "true", DurationDays(c));
      effects := effects + [Navigate(BuildRedirectUrl(dest, page.search, page.href, codec))];
    }
  }

  /** The guards come first: without a configuration, without a table, or
      with an empty table the script does nothing, not even honour
      `no-redirect`. */
  lemma UnconfiguredDoesNothing(config: Option<Config>, page: Page, today: Date, parse: Parser, codec: Codec)
    requires IsCalendarDate(today) && !Configured(config)
    ensures Dispatch(config, page, today, parse, codec) == []
  {
  }

  /** `no-redirect` wins over the cookie and the date: the run only writes
      the suppression cookie. */
  lemma OptOutWritesCookie(config: Option<Config>, page: Page, today: Date, parse: Parser, codec: Codec)
    requires IsCalendarDate(today) && Configured(config) && Has(page.search, "no-redirect")
    ensures Dispatch(config, page, today, parse, codec) == [SetCookie(SuppressionWrite(config.value, page))]
  {
  }

  /** A suppression cookie with a non-empty value stops the run before the
      date is looked at. */
  lemma SuppressedDoesNothing(config: Option<Config>, page: Page, today: Date, parse: Parser, codec: Codec)
    requires IsCalendarDate(today) && Configured(config) && !Has(page.search, "no-redirect")
    requires Truthy(CookieValue(page.cookieJar, CookieName(config.value)))
    ensures Dispatch(config, page, today, parse, codec) == []
  {
  }

  /** The run navigates exactly when no check stops it: the script is
      configured, there is no `no-redirect`, no suppression cookie, and today's
      key maps to a non-empty valid `http`/`https` destination. It then writes
      the suppression cookie first and leaves for the built address; in every
      other case without `no-redirect` it does nothing at all. */
  lemma NavigatesExactlyOnHit(config: Option<Config>, page: Page, today: Date, parse: Parser, codec: Codec)
    requires IsCalendarDate(today)
    ensures var effects := Dispatch(config, page, today, parse, codec);
      Navigates(effects) <==> Hit(config, page, today, parse)
    ensures var effects := Dispatch(config, page, today, parse, codec);
      Hit(config, page, today, parse) ==>
        var c := config.value;
        effects == [SetCookie(SuppressionWrite(c, page)),
                    Navigate(BuildRedirectUrl(c.urlsByDate.value[TodayKey(page, today)], page.search, page.href, codec))]
    ensures var effects := Dispatch(config, page, today, parse, codec);
      !Hit(config, page, today, parse) && !(Configured(config) && Has(page.search, "no-redirect")) ==> effects == []
  {
    var effects := Dispatch(config, page, today, parse, codec);
    if !Hit(config, page, today, parse) {
      assert forall k :: 0 <= k < |effects| ==> !effects[k].Navigate?;
    } else {
      assert effects[1].Navigate?;
    }
  }

  /** Every check passes: the table holds a usable destination for today. */
  predicate Hit(config: Option<Config>, page: Page, today: Date, parse: Parser)
    requires IsCalendarDate(today)
  {
    Configured(config) && !Has(page.search, "no-redirect") &&
    !Truthy(CookieValue(page.cookieJar, CookieName(config.value))) &&
    TodayKey(page, today) in config.value.urlsByDate.value &&
    IsValidUrl(config.value.urlsByDate.value[TodayKey(page, today)], parse)
  }

  /** The suppression cookie the script writes: the configured name or the
      default, the value "true", and an expiry the configured number of days
      (one by default) after now. */
  lemma SuppressionWriteMeaning(c: Config, page: Page)
    ensures var w := SuppressionWrite(c, page);
      w.value == "true" && w.sameSiteLax && (w.secure <==> page.protocol == "https:") &&
      w.expiresAtMs == page.nowMs + DurationDays(c) * 86400000 &&
      (c.suppressionDurationDays.None? ==> w.expiresAtMs == page.nowMs + 86400000)
  {
  }
}
