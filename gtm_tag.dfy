/** `landing-page-gtm-tag.js`: the tag-manager dispatcher for recurring
    `MM-DD` dates. Its table, cookie name and duration are constants of the
    script; it has no configuration guard, no empty-table guard and no
    destination check. */
module LandingPageGtmTag {
  import opened Text
  import opened Cookies
  import opened QueryParams
  import opened Urls
  import opened Calendar
  import opened Browser

  const SuppressionCookie: string := "redirectSuppressed"
  const SuppressionDurationDays: int := 1

  /** The table the tag ships with; a site edits it in place. */
  const ShippedUrlsByDate: map<string, string> := map[
    "12-03" := "https://support.yourorganization.org/page/12345/donate/1?transaction.othamt1=TRACKINGCODE",
    "12-30" := "https://support.yourorganization.org/page/12345/donate/1?transaction.othamt1=TRACKINGCODE",
    "12-31" := "https://support.yourorganization.org/page/12345/donate/1?transaction.othamt1=TRACKINGCODE"
  ]

  /** What `setCookie(suppressionCookie, "true", SUPPRESSION_DURATION_DAYS)`
      writes: `path=/` only, neither `SameSite` nor `Secure`. */
  function SuppressionWrite(page: Page): CookieWrite
  {
    CookieWrite(SuppressionCookie, "true", ExpiryAfterDays(page.nowMs, SuppressionDurationDays), false, false)
  }

  /** The suppression cookie is `redirectSuppressed=true` for one day from
      now, with neither `SameSite` nor `Secure`, and a name and value the
      browser stores unchanged. */
  lemma SuppressionWriteMeaning(page: Page)
    ensures var w := SuppressionWrite(page);
      w.name == SuppressionCookie && w.value == "true" && w.expiresAtMs == page.nowMs + 86400000 &&
      !w.sameSiteLax && !w.secure && WellFormedName(w.name) && WellFormedValue(w.value)
  {
    LetterNameWellFormed(SuppressionCookie);
  }

  /** `getCurrentOrSimulatedDate()` for this page. */
  function TodayKey(page: Page, today: Date): string
    requires IsCalendarDate(today)
  {
    CurrentMonthDay(Get(page.search, "simulate-date"), today)
  }

  /** The effects of one run of the tag, in order. */
  function Dispatch(urlsByDate: map<string, string>, page: Page, today: Date, codec: Codec): seq<Effect>
    requires IsCalendarDate(today)
  {
    var key := TodayKey(page, today);
    if Has(page.search, "no-redirect") then [SetCookie(SuppressionWrite(page))]
    else if Truthy(CookieValue(page.cookieJar, SuppressionCookie)) then []
    else if key !in urlsByDate || urlsByDate[key] == "" then []
    else [SetCookie(SuppressionWrite(page)), Navigate(BuildRedirectUrl(urlsByDate[key], page.search, page.href, codec))]
  }

  /** The tag on one page load. */
  class Run {
    const urlsByDate: map<string, string>
    const page: Page
    const today: Date
    const codec: Codec
    var effects: seq<Effect>

    constructor(urlsByDate: map<string, string>, page: Page, today: Date, codec: Codec)
      requires IsCalendarDate(today)
      ensures this.urlsByDate == urlsByDate && this.page == page && this.today == today && this.codec == codec
      ensures effects == []
    {
      this.urlsByDate := urlsByDate;
      this.page := page;
      this.today := today;
      this.codec := codec;
      effects := [];
    }

    /** `setCookie(name, value, days)`: `path=/` only. */
    method SetCookieForDays(name: string, value: string, days: int)
      modifies this
      ensures effects == old(effects) + [SetCookie(CookieWrite(name, value, ExpiryAfterDays(page.nowMs, days), false, false))]
    {
      var expires := page.nowMs + days * 86400000;
      effects := effects + [SetCookie(CookieWrite(name, value, expires, false, false))];
    }

    /** The tag body, early returns and all: the `no-redirect` opt-out and
        the suppression cookie, then the lookup `LookUpToday` carries out. */
    method Execute()
      requires effects == [] && IsCalendarDate(today)
      modifies this
      ensures effects == Dispatch(urlsByDate, page, today, codec)
    {
      if Has(page.search, "no-redirect") {
        SetCookieForDays(SuppressionCookie, "true", SuppressionDurationDays);
        return;
      }
      var suppressed := GetCookie(page.cookieJar, SuppressionCookie);
      if Truthy(suppressed) {
        return;
      }
      LookUpToday();
    }

    /** Today's key and the redirect itself. */
    method LookUpToday()
      requires effects == [] && IsCalendarDate(today)
      requires !Has(page.search, "no-redirect") && !Truthy(CookieValue(page.cookieJar, SuppressionCookie))
      modifies this
      ensures effects == Dispatch(urlsByDate, page, today, codec)
    {
      var key := CurrentMonthDay(Get(page.search, "simulate-date"), today);
      assert key == TodayKey(page, today);
      if key in urlsByDate && urlsByDate[key] != "" {
        SetCookieForDays(SuppressionCookie, "true", SuppressionDurationDays);
        effects := effects + [Navigate(BuildRedirectUrl(urlsByDate[key], page.search, page.href, codec))];
      }
    }
  }

  /** `no-redirect` is honoured whatever the table holds, even when it is
      empty: the tag only writes the suppression cookie. */
  lemma OptOutWritesCookie(urlsByDate: map<string, string>, page: Page, today: Date, codec: Codec)
    requires IsCalendarDate(today) && Has(page.search, "no-redirect")
    ensures Dispatch(urlsByDate, page, today, codec) == [SetCookie(SuppressionWrite(page))]
    ensures |urlsByDate| == 0 ==> Dispatch(urlsByDate, page, today, codec) != []
  {
  }

  /** Every check passes: the table holds a non-empty destination for
      today's key. */
  predicate Hit(urlsByDate: map<string, string>, page: Page, today: Date)
    requires IsCalendarDate(today)
  {
    !Has(page.search, "no-redirect") && !Truthy(CookieValue(page.cookieJar, SuppressionCookie)) &&
    TodayKey(page, today) in urlsByDate && urlsByDate[TodayKey(page, today)] != ""
  }

  /** The tag navigates exactly when no check stops it, and then writes the
      cookie before it leaves; any non-empty destination is followed, whatever
      its scheme. In every other case without `no-redirect` it does nothing. */
  lemma NavigatesExactlyOnHit(urlsByDate: map<string, string>, page: Page, today: Date, codec: Codec)
    requires IsCalendarDate(today)
    ensures var effects := Dispatch(urlsByDate, page, today, codec);
      Navigates(effects) <==> Hit(urlsByDate, page, today)
    ensures var effects := Dispatch(urlsByDate, page, today, codec);
      Hit(urlsByDate, page, today) ==>
        effects == [SetCookie(SuppressionWrite(page)),
                    Navigate(BuildRedirectUrl(urlsByDate[TodayKey(page, today)], page.search, page.href, codec))]
    ensures var effects := Dispatch(urlsByDate, page, today, codec);
      !Hit(urlsByDate, page, today) && !Has(page.search, "no-redirect") ==> effects == []
  {
    var effects := Dispatch(urlsByDate, page, today, codec);
    if !Hit(urlsByDate, page, today) {
      assert forall k :: 0 <= k < |effects| ==> !effects[k].Navigate?;
    } else {
      assert effects[1].Navigate?;
    }
  }

  /** A key names a day of the year: on two dates with the same month and
      day, years apart, a page without `simulate-date` gets the same
      outcome. */
  lemma SameDayEveryYear(urlsByDate: map<string, string>, page: Page, d1: Date, d2: Date, codec: Codec)
    requires IsCalendarDate(d1) && IsCalendarDate(d2) && !Has(page.search, "simulate-date")
    requires d1.month == d2.month && d1.day == d2.day
    ensures Dispatch(urlsByDate, page, d1, codec) == Dispatch(urlsByDate, page, d2, codec)
  {
  }

  /** With the shipped table, a fresh visitor on 31 December of any year is
      sent to the donation page and marked for a day. */
  lemma ShippedTableOnNewYearsEve(page: Page, today: Date, codec: Codec)
    requires today.month == 12 && today.day == 31
    requires !Has(page.search, "no-redirect") && !Has(page.search, "simulate-date")
    requires CookieValue(page.cookieJar, SuppressionCookie).None?
    ensures IsCalendarDate(today)
    ensures Dispatch(ShippedUrlsByDate, page, today, codec) ==
      [SetCookie(CookieWrite("redirectSuppressed", "true", page.nowMs + 86400000, false, false)),
       Navigate(BuildRedirectUrl(ShippedUrlsByDate["12-31"], page.search, page.href, codec))]
  {
    assert IsCalendarDate(today);
    NewYearsEveKey(page, today);
    ShippedNewYearsEveEntry();
    assert Hit(ShippedUrlsByDate, page, today);
    NavigatesExactlyOnHit(ShippedUrlsByDate, page, today, codec);
    assert SuppressionWrite(page) == CookieWrite("redirectSuppressed", "true", page.nowMs + 86400000, false, false);
  }

  /** The shipped table has a destination for 31 December. */
  lemma ShippedNewYearsEveEntry()
    ensures "12-31" in ShippedUrlsByDate && ShippedUrlsByDate["12-31"] != ""
  {
  }

  /** Without `simulate-date`, 31 December is looked up as "12-31". */
  lemma NewYearsEveKey(page: Page, today: Date)
    requires today.month == 12 && today.day == 31 && IsCalendarDate(today)
    requires !Has(page.search, "simulate-date")
    ensures TodayKey(page, today) == "12-31"
  {
    assert Pad2(12) == "12" by {
      assert NatToString(12) == NatToString(1) + [DigitChar(2)];
    }
    assert Pad2(31) == "31" by {
      assert NatToString(31) == NatToString(3) + [DigitChar(1)];
    }
    assert Get(page.search, "simulate-date") == None;
    assert FormatMonthDay(today) == "12-31";
  }
}
