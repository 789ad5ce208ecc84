/** The cookie layer every script shares: `getCookie` reading the
    `document.cookie` string, the cookie writes `setCookie` issues with their
    expiry arithmetic, and a small model of the browser's cookie store that
    turns writes back into the `document.cookie` string seen by a later page
    load. */
module Cookies {
  import opened Text

  // ---------------------------------------------------------------------------
  // getCookie
  // ---------------------------------------------------------------------------

  /** The first segment that, once its leading spaces are stripped, starts
      with `prefix`; the answer is the rest of that segment. */
  function FirstMatch(segments: seq<string>, prefix: string): Option<string>
    decreases |segments|
  {
    if |segments| == 0 then None
    else
      var c := TrimLeadingSpaces(segments[0]);
      if StartsWith(c, prefix) then Some(c[|prefix|..])
      else FirstMatch(segments[1..], prefix)
  }

  /** What `FirstMatch` means: it answers `v` exactly when some segment reads
      `prefix + v` once its leading spaces are stripped and no earlier segment
      starts with `prefix`; it answers `None` exactly when no segment does. */
  lemma FirstMatchMeaning(segments: seq<string>, prefix: string)
    ensures FirstMatch(segments, prefix).None? <==>
      forall k :: 0 <= k < |segments| ==> !StartsWith(TrimLeadingSpaces(segments[k]), prefix)
    ensures FirstMatch(segments, prefix).Some? ==>
      exists k :: 0 <= k < |segments| &&
        TrimLeadingSpaces(segments[k]) == prefix + FirstMatch(segments, prefix).value &&
        forall j :: 0 <= j < k ==> !StartsWith(TrimLeadingSpaces(segments[j]), prefix)
  {
    FirstMatchNone(segments, prefix);
    if FirstMatch(segments, prefix).Some? {
      var k := FirstMatchAt(segments, prefix);
    }
  }

  /** `FirstMatch` finds nothing exactly when no segment starts with `prefix`. */
  lemma {:induction false} FirstMatchNone(segments: seq<string>, prefix: string)
    ensures FirstMatch(segments, prefix).None? <==>
      forall k :: 0 <= k < |segments| ==> !StartsWith(TrimLeadingSpaces(segments[k]), prefix)
    decreases |segments|
  {
    if |segments| > 0 {
      var tail := segments[1..];
      FirstMatchNone(tail, prefix);
      if !StartsWith(TrimLeadingSpaces(segments[0]), prefix) {
        forall k | 0 < k < |segments|
          ensures segments[k] == tail[k - 1]
        {
        }
      }
    }
  }

  /** When `FirstMatch` answers, `k` is the index of the segment it read. */
  lemma {:induction false} FirstMatchAt(segments: seq<string>, prefix: string) returns (k: nat)
    requires FirstMatch(segments, prefix).Some?
    ensures k < |segments|
    ensures TrimLeadingSpaces(segments[k]) == prefix + FirstMatch(segments, prefix).value
    ensures forall j :: 0 <= j < k ==> !StartsWith(TrimLeadingSpaces(segments[j]), prefix)
    decreases |segments|
  {
    var c := TrimLeadingSpaces(segments[0]);
    if StartsWith(c, prefix) {
      assert c == prefix + c[|prefix|..];
      k := 0;
    } else {
      var tail := segments[1..];
      var i := FirstMatchAt(tail, prefix);
      k := i + 1;
      forall j | 0 < j < k
        ensures segments[j] == tail[j - 1]
      {
      }
    }
  }

  /** What `getCookie(name)` answers for the jar string `jar`: `None` stands for
      JavaScript's `null`. */
  function CookieValue(jar: string, name: string): Option<string>
  {
    FirstMatch(Split(jar, ';'), name + "=")
  }

  /** `getCookie(name)` as every script writes it: split the jar on `;`, strip
      each segment's leading spaces one at a time, and return the rest of the
      first segment that begins with `name=`. A value may itself contain `=`. */
  method GetCookie(jar: string, name: string) returns (r: Option<string>)
    ensures r == CookieValue(jar, name)
  {
    var nameEQ := name + "=";
    var ca := Split(jar, ';');
    var i := 0;
    while i < |ca|
      invariant 0 <= i <= |ca|
      invariant FirstMatch(ca, nameEQ) == FirstMatch(ca[i..], nameEQ)
    {
      var c := ca[i];
      while |c| > 0 && c[0] == ' '
        invariant TrimLeadingSpaces(c) == TrimLeadingSpaces(ca[i])
      {
        c := c[1..];
      }
      if StartsWith(c, nameEQ) {
        return Some(c[|nameEQ|..]);
      }
      assert ca[i..][1..] == ca[i + 1..];
      i := i + 1;
    }
    return None;
  }

  /** JavaScript truthiness of what `getCookie` returns: neither `null` nor "". */
  predicate Truthy(v: Option<string>)
  {
    v.Some? && v.value != ""
  }

  /** `getCookie(name) || ""`-style reading: `null` and "" both become "". */
  function OrEmpty(v: Option<string>): string
  {
    if v.Some? then v.value else ""
  }

  // ---------------------------------------------------------------------------
  // setCookie
  // ---------------------------------------------------------------------------

  /** `24 * 60 * 60 * 1000`: the multipliers below are written out as
      literals, so that the solver sees linear arithmetic. */
  const MsPerDay: int := 86400000

  /** One assignment to `document.cookie`: `name=value; expires=...; path=/`,
      with `; SameSite=Lax` and `; Secure` where the script adds them. The
      expiry is kept as milliseconds since the epoch; `toUTCString` is not
      modelled. */
  datatype CookieWrite = CookieWrite(name: string, value: string, expiresAtMs: int, sameSiteLax: bool, secure: bool)

  /** `date.setTime(date.getTime() + seconds * 1000)`. */
  function ExpiryAfterSeconds(nowMs: int, seconds: int): int
  {
    nowMs + seconds * 1000
  }

  /** `date.setTime(date.getTime() + days * MS_PER_DAY)`. */
  function ExpiryAfterDays(nowMs: int, days: int): int
  {
    nowMs + days * 86400000
  }

  /** The two expiry rules agree: a day is 86,400 seconds, so the cookie lives
      exactly as long as `days` would in seconds, and longer the more days. */
  lemma ExpiryDaysAsSeconds(nowMs: int, days: int)
    ensures ExpiryAfterDays(nowMs, days) == ExpiryAfterSeconds(nowMs, days * 86400)
    ensures days > 0 <==> ExpiryAfterDays(nowMs, days) > nowMs
  {
  }

  // ---------------------------------------------------------------------------
  // the browser's cookie store
  // ---------------------------------------------------------------------------

  /** A cookie the browser holds for the page's origin and path `/`;
      `secure` is the `Secure` attribute it was written with. */
  datatype StoredCookie = StoredCookie(name: string, value: string, expiresAtMs: int, secure: bool)

  /** Whether a page reads the cookie in `document.cookie` at `nowMs`: it has
      not expired, and a `Secure` cookie is shown only to an `https:` page. */
  predicate Shown(c: StoredCookie, nowMs: int, https: bool)
  {
    c.expiresAtMs > nowMs && (https || !c.secure)
  }

  /** A name `getCookie` can find: non-empty, not starting with a space, without
      `;` or `=`. Both names the scripts use are of this kind. */
  predicate WellFormedName(n: string)
  {
    |n| > 0 && n[0] != ' ' && ';' !in n && '=' !in n
  }

  /** A value the browser keeps whole: no `;` (which would end it) and no
      surrounding spaces or tabs (which the browser trims). */
  predicate WellFormedValue(v: string)
  {
    ';' !in v && (|v| > 0 ==> v[0] !in " \t" && v[|v| - 1] !in " \t")
  }

  /** A non-empty name of letters is well formed: `A` to `z` holds neither
      the space, `;` nor `=`. */
  lemma LetterNameWellFormed(n: string)
    requires |n| > 0 && forall k :: 0 <= k < |n| ==> 'A' <= n[k] <= 'z'
    ensures WellFormedName(n)
  {
  }

  predicate WellFormedStore(store: seq<StoredCookie>)
  {
    forall k :: 0 <= k < |store| ==> WellFormedName(store[k].name) && WellFormedValue(store[k].value)
  }

  predicate UniqueNames(store: seq<StoredCookie>)
  {
    forall i, j :: 0 <= i < j < |store| ==> store[i].name != store[j].name
  }

  /** The cookies a page reads at `nowMs`, in store order. */
  function Visible(store: seq<StoredCookie>, nowMs: int, https: bool): (vis: seq<StoredCookie>)
    ensures forall k :: 0 <= k < |vis| ==> vis[k] in store && Shown(vis[k], nowMs, https)
  {
    if |store| == 0 then []
    else if Shown(store[0], nowMs, https) then [store[0]] + Visible(store[1..], nowMs, https)
    else Visible(store[1..], nowMs, https)
  }

  function Pair(c: StoredCookie): string
  {
    c.name + "=" + c.value
  }

  function JoinPairs(cs: seq<StoredCookie>): string
  {
    if |cs| == 0 then ""
    else if |cs| == 1 then Pair(cs[0])
    else Pair(cs[0]) + "; " + JoinPairs(cs[1..])
  }

  /** The string a page reads from `document.cookie` at time `nowMs`, over
      `https:` or not. */
  function Jar(store: seq<StoredCookie>, nowMs: int, https: bool): string
  {
    JoinPairs(Visible(store, nowMs, https))
  }

  /** The value the browser shows such a page for `name`. */
  function Lookup(store: seq<StoredCookie>, name: string, nowMs: int, https: bool): Option<string>
  {
    if |store| == 0 then None
    else if store[0].name == name && Shown(store[0], nowMs, https) then Some(store[0].value)
    else Lookup(store[1..], name, nowMs, https)
  }

  /** What the browser keeps of a write. */
  function Stored(w: CookieWrite): (c: StoredCookie)
    ensures c.name == w.name && c.value == w.value && c.expiresAtMs == w.expiresAtMs && c.secure == w.secure
  {
    StoredCookie(w.name, w.value, w.expiresAtMs, w.secure)
  }

  /** The store after a write: a cookie of the same name is replaced where it
      stands (the browser keeps its creation order), otherwise the new one is
      added at the end. An expiry already past hides the cookie from every
      later read, which is how the browser's deletion looks to a page. */
  function Apply(store: seq<StoredCookie>, w: CookieWrite): (r: seq<StoredCookie>)
    ensures |r| >= |store|
    ensures forall k :: 0 <= k < |r| ==> r[k] in store || r[k] == Stored(w)
  {
    if |store| == 0 then [Stored(w)]
    else if store[0].name == w.name then [Stored(w)] + store[1..]
    else [store[0]] + Apply(store[1..], w)
  }

  /** Whether the store holds, at time `nowMs`, a `Secure` cookie called
      `name` that has not expired (an expired one is already evicted). */
  predicate HoldsSecure(store: seq<StoredCookie>, name: string, nowMs: int)
  {
    exists k :: 0 <= k < |store| && store[k].name == name && store[k].secure && store[k].expiresAtMs > nowMs
  }

  /** Whether the browser ignores a write from a page that is `https:` or
      not, at time `nowMs`: a page that is not `https:` may neither set a
      `Secure` cookie nor overwrite one that is still alive (the rule of
      RFC 6265bis that leaves secure cookies alone). */
  predicate Refused(store: seq<StoredCookie>, w: CookieWrite, https: bool, nowMs: int)
  {
    !https && (w.secure || HoldsSecure(store, w.name, nowMs))
  }

  /** The store after a page's write at time `nowMs`: unchanged when the
      browser refuses it, the store `Apply` gives otherwise. */
  function Write(store: seq<StoredCookie>, w: CookieWrite, https: bool, nowMs: int): (r: seq<StoredCookie>)
    ensures Refused(store, w, https, nowMs) ==> r == store
    ensures !Refused(store, w, https, nowMs) ==> r == Apply(store, w)
  {
    if Refused(store, w, https, nowMs) then store else Apply(store, w)
  }

  /** A `Secure` cookie hides its name from a page that is not `https:`: with
      distinct names there is no other cookie of that name to show, whether
      the `Secure` one (alive at `t`) has expired by `nowMs` or not. */
  lemma {:induction false} SecureNameHidden(store: seq<StoredCookie>, name: string, t: int, nowMs: int)
    requires UniqueNames(store) && HoldsSecure(store, name, t)
    ensures Lookup(store, name, nowMs, false) == None
    decreases |store|
  {
    var k :| 0 <= k < |store| && store[k].name == name && store[k].secure && store[k].expiresAtMs > t;
    UniqueTail(store);
    if store[0].name == name {
      assert k == 0;
      NameAbsent(store[1..], name, nowMs, false);
    } else {
      assert store[1..][k - 1] == store[k];
      SecureNameHidden(store[1..], name, t, nowMs);
    }
  }

  /** A segment that starts with `name=` carries exactly that name. */
  lemma PrefixNamesAgree(n: string, v: string, name: string)
    requires '=' !in n && '=' !in name
    requires StartsWith(n + "=" + v, name + "=")
    ensures n == name
  {
    var s, p := n + "=" + v, name + "=";
    assert forall i :: 0 <= i < |p| ==> s[i] == p[i] by {
      forall i | 0 <= i < |p| ensures s[i] == p[i] {
        assert s[..|p|][i] == s[i];
      }
    }
    assert s[|n|] == '=' && p[|name|] == '=';
    assert |n| == |name|;
    assert forall i :: 0 <= i < |n| ==> n[i] == name[i] by {
      forall i | 0 <= i < |n| ensures n[i] == name[i] {
        assert s[i] == n[i] && p[i] == name[i];
      }
    }
  }

  /** A segment `n=v` starts with `name=` exactly when `n` is `name`. */
  lemma PairPrefix(n: string, v: string, name: string)
    requires '=' !in n && '=' !in name
    ensures StartsWith(n + "=" + v, name + "=") <==> n == name
  {
    var s, p := n + "=" + v, name + "=";
    if n == name {
      assert s[..|p|] == p;
    }
    if StartsWith(s, p) {
      PrefixNamesAgree(n, v, name);
    }
  }

  /** One more leading space in the jar does not change any lookup. */
  lemma LeadingSpaceIgnored(s: string, name: string)
    ensures CookieValue(" " + s, name) == CookieValue(s, name)
  {
    var t := " " + s;
    assert t[1..] == s;
    var r := Split(s, ';');
    assert Split(t, ';') == [[' '] + r[0]] + r[1..];
    assert TrimLeadingSpaces([' '] + r[0]) == TrimLeadingSpaces(r[0]);
    assert r == [r[0]] + r[1..];
  }

  /** `FirstMatch` looks at the first segment before the others. */
  lemma FirstMatchCons(first: string, others: seq<string>, prefix: string)
    ensures FirstMatch([first] + others, prefix) ==
      if StartsWith(TrimLeadingSpaces(first), prefix) then Some(TrimLeadingSpaces(first)[|prefix|..])
      else FirstMatch(others, prefix)
  {
    assert ([first] + others)[1..] == others;
  }

  /** The jar's first segment is the first pair; the others follow it after
      `"; "`. */
  lemma SplitPairs(cs: seq<StoredCookie>)
    requires |cs| >= 1 && ';' !in Pair(cs[0])
    ensures |cs| == 1 ==> Split(JoinPairs(cs), ';') == [Pair(cs[0])]
    ensures |cs| > 1 ==> Split(JoinPairs(cs), ';') == [Pair(cs[0])] + Split(" " + JoinPairs(cs[1..]), ';')
  {
    var p := Pair(cs[0]);
    SplitWithoutSeparator(p, ';');
    if |cs| > 1 {
      var rest := JoinPairs(cs[1..]);
      var joined := JoinPairs(cs);
      assert joined == p + "; " + rest;
      JoinStep(p, rest);
      SplitAtSeparator(p, " " + rest, ';');
    }
  }

  lemma JoinStep(p: string, rest: string)
    ensures p + "; " + rest == p + [';'] + (" " + rest)
  {
    var l, r := p + "; " + rest, p + [';'] + (" " + rest);
    assert |l| == |r|;
    forall i | 0 <= i < |l| ensures l[i] == r[i] {
    }
  }

  /** The first pair of the jar answers a lookup exactly for its own name. */
  lemma PairAnswers(c: StoredCookie, name: string)
    requires WellFormedName(c.name) && WellFormedName(name)
    ensures TrimLeadingSpaces(Pair(c)) == Pair(c)
    ensures StartsWith(Pair(c), name + "=") <==> c.name == name
    ensures c.name == name ==> Pair(c)[|name + "="|..] == c.value
  {
    PairPrefix(c.name, c.value, name);
  }

  /** `getCookie` over the joined pairs finds the first cookie of that name. */
  lemma {:induction false} CookieValueOfPairs(cs: seq<StoredCookie>, name: string)
    requires WellFormedStore(cs) && WellFormedName(name)
    ensures CookieValue(JoinPairs(cs), name) == FirstNamed(cs, name)
    decreases |cs|
  {
    if |cs| == 0 {
      assert Split("", ';') == [""];
      assert CookieValue("", name) == FirstMatch([""], name + "=");
      FirstMatchCons("", [], name + "=");
    } else {
      CookieValueOfPairsStep(cs, name);
      if |cs| > 1 {
        assert WellFormedStore(cs[1..]) by {
          forall k | 0 <= k < |cs[1..]|
            ensures WellFormedName(cs[1..][k].name) && WellFormedValue(cs[1..][k].value)
          {
            assert cs[1..][k] == cs[k + 1];
          }
        }
        CookieValueOfPairs(cs[1..], name);
      }
    }
  }

  /** One step of the lookup over the joined pairs: the first pair answers
      for its own name, and the rest of the jar answers for the others. */
  lemma CookieValueOfPairsStep(cs: seq<StoredCookie>, name: string)
    requires WellFormedStore(cs) && WellFormedName(name) && |cs| >= 1
    ensures cs[0].name == name ==> CookieValue(JoinPairs(cs), name) == Some(cs[0].value)
    ensures cs[0].name != name && |cs| == 1 ==> CookieValue(JoinPairs(cs), name) == None
    ensures cs[0].name != name && |cs| > 1 ==>
      CookieValue(JoinPairs(cs), name) == CookieValue(JoinPairs(cs[1..]), name)
  {
    var c := cs[0];
    assert WellFormedName(c.name) && WellFormedValue(c.value);
    PairAnswers(c, name);
    SplitPairs(cs);
    var pre := name + "=";
    if |cs| == 1 {
      FirstMatchCons(Pair(c), [], pre);
    } else {
      var rest := JoinPairs(cs[1..]);
      FirstMatchCons(Pair(c), Split(" " + rest, ';'), pre);
      LeadingSpaceIgnored(rest, name);
    }
  }

  /** Reading back the browser's store: at any time, `getCookie(name)` on the
      `document.cookie` string answers the value the store holds for `name`,
      and `null` when it holds none that has not expired. */
  lemma {:induction false} GetCookieReadsStore(store: seq<StoredCookie>, name: string, nowMs: int, https: bool)
    requires WellFormedStore(store) && WellFormedName(name)
    ensures CookieValue(Jar(store, nowMs, https), name) == Lookup(store, name, nowMs, https)
    decreases |store|
  {
    var vis := Visible(store, nowMs, https);
    assert WellFormedStore(vis) by {
      forall k | 0 <= k < |vis| ensures WellFormedName(vis[k].name) && WellFormedValue(vis[k].value) {
        assert vis[k] in store;
      }
    }
    VisibleLookup(store, name, nowMs, https);
    ShiftedLookup(vis, name, nowMs, https);
    CookieValueOfPairs(vis, name);
  }

  /** Looking a name up among the visible cookies, with every one of them alive. */
  lemma {:induction false} VisibleLookup(store: seq<StoredCookie>, name: string, nowMs: int, https: bool)
    ensures Lookup(store, name, nowMs, https) == Lookup(Visible(store, nowMs, https), name, nowMs, https)
    decreases |store|
  {
    if |store| > 0 {
      VisibleLookup(store[1..], name, nowMs, https);
      if Shown(store[0], nowMs, https) {
        assert ([store[0]] + Visible(store[1..], nowMs, https))[1..] == Visible(store[1..], nowMs, https);
      }
    }
  }

  /** Among cookies all shown to the reader, the first of that name answers. */
  lemma {:induction false} ShiftedLookup(cs: seq<StoredCookie>, name: string, nowMs: int, https: bool)
    requires forall k :: 0 <= k < |cs| ==> Shown(cs[k], nowMs, https)
    ensures Lookup(cs, name, nowMs, https) == FirstNamed(cs, name)
    decreases |cs|
  {
    if |cs| > 0 {
      ShiftedLookup(cs[1..], name, nowMs, https);
    }
  }

  /** The value of the first cookie called `name`, ignoring expiry and
      `Secure`. */
  function FirstNamed(cs: seq<StoredCookie>, name: string): Option<string>
  {
    if |cs| == 0 then None
    else if cs[0].name == name then Some(cs[0].value)
    else FirstNamed(cs[1..], name)
  }
  /** After a write, the store answers the written value for that name until
      the write's expiry, and nothing after it; a `Secure` write is answered
      only to `https:` pages. Every other name keeps its answer. */
  lemma {:induction false} ApplyThenLookup(store: seq<StoredCookie>, w: CookieWrite, name: string, nowMs: int, https: bool)
    requires UniqueNames(store)
    ensures name == w.name ==>
      Lookup(Apply(store, w), name, nowMs, https) ==
        if w.expiresAtMs > nowMs && (https || !w.secure) then Some(w.value) else None
    ensures name != w.name ==> Lookup(Apply(store, w), name, nowMs, https) == Lookup(store, name, nowMs, https)
    decreases |store|
  {
    if |store| > 0 {
      UniqueTail(store);
      if store[0].name == w.name {
        var r := Apply(store, w);
        assert r[1..] == store[1..];
        if name == w.name {
          NameAbsent(store[1..], name, nowMs, https);
        }
      } else {
        ApplyThenLookup(store[1..], w, name, nowMs, https);
        assert Apply(store, w)[1..] == Apply(store[1..], w);
      }
    }
  }

  /** A name the store does not hold is answered with `None`. */
  lemma {:induction false} NameAbsent(store: seq<StoredCookie>, name: string, nowMs: int, https: bool)
    requires forall k :: 0 <= k < |store| ==> store[k].name != name
    ensures Lookup(store, name, nowMs, https) == None
    decreases |store|
  {
    if |store| > 0 {
      NameAbsent(store[1..], name, nowMs, https);
    }
  }

  /** Writes keep the store free of duplicate names. */
  lemma {:induction false} ApplyKeepsUniqueNames(store: seq<StoredCookie>, w: CookieWrite)
    requires UniqueNames(store)
    ensures UniqueNames(Apply(store, w))
    decreases |store|
  {
    if |store| > 0 {
      UniqueTail(store);
      if store[0].name != w.name {
        ApplyKeepsUniqueNames(store[1..], w);
        UniqueCons(store[0], Apply(store[1..], w), store[1..], w.name);
      } else {
        SameNamesUnique(store, Apply(store, w));
      }
    }
  }

  /** Dropping the first cookie keeps the names distinct. */
  lemma UniqueTail(store: seq<StoredCookie>)
    requires UniqueNames(store) && |store| > 0
    ensures UniqueNames(store[1..])
    ensures forall k :: 0 <= k < |store[1..]| ==> store[1..][k].name != store[0].name
  {
    forall i, j | 0 <= i < j < |store[1..]| ensures store[1..][i].name != store[1..][j].name {
      assert store[1..][i] == store[i + 1] && store[1..][j] == store[j + 1];
    }
  }

  /** A cookie put in front of distinct names it does not share stays
      distinct: the others come from `rest`, which lacks its name, or carry
      a name `n` other than its own. */
  lemma UniqueCons(c: StoredCookie, t: seq<StoredCookie>, rest: seq<StoredCookie>, n: string)
    requires UniqueNames(t) && c.name != n
    requires forall k :: 0 <= k < |rest| ==> rest[k].name != c.name
    requires forall k :: 0 <= k < |t| ==> t[k] in rest || t[k].name == n
    ensures UniqueNames([c] + t)
  {
    var r := [c] + t;
    forall i, j | 0 <= i < j < |r| ensures r[i].name != r[j].name {
      assert r[j] == t[j - 1];
      if i > 0 {
        assert r[i] == t[i - 1];
      } else if t[j - 1] in rest {
        var m :| 0 <= m < |rest| && rest[m] == t[j - 1];
      }
    }
  }

  /** Two stores with the same names in the same order are alike in having
      distinct names. */
  lemma SameNamesUnique(a: seq<StoredCookie>, b: seq<StoredCookie>)
    requires UniqueNames(a) && |a| == |b|
    requires forall k :: 0 <= k < |a| ==> a[k].name == b[k].name
    ensures UniqueNames(b)
  {
  }

  /** Writes of well-formed names and values keep the store well formed. */
  lemma ApplyKeepsWellFormed(store: seq<StoredCookie>, w: CookieWrite)
    requires WellFormedStore(store) && WellFormedName(w.name) && WellFormedValue(w.value)
    ensures WellFormedStore(Apply(store, w))
  {
    var r := Apply(store, w);
    forall k | 0 <= k < |r| ensures WellFormedName(r[k].name) && WellFormedValue(r[k].value) {
      if r[k] in store {
        var j :| 0 <= j < |store| && store[j] == r[k];
      }
    }
  }
}
