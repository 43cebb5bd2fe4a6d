/** The decisions of the background service worker (background.js), with
    every `chrome.*` call replaced by its result as a parameter. */
module Background {
  import opened Wrappers
  import opened Strings
  import opened CookieMerge

  /** The two `chrome.cookies.getAll` calls of `getCookiesForUrl` and
      `getCookieCountForUrl`: both lists, or a failure (`new URL(url)` threw,
      or a fetch rejected). */
  datatype Fetch = Fetched(domainCookies: seq<Cookie>, urlCookies: seq<Cookie>) | FetchFailed

  /** The error `getCookiesForUrl` rethrows. */
  datatype FetchError = FetchError

  /** `getCookiesForUrl`: the deduplicated union of the two lists. */
  method GetCookiesForUrl(fetch: Fetch) returns (r: Result<seq<Cookie>, FetchError>)
    ensures r.Ok? <==> fetch.Fetched?
    ensures fetch.Fetched? ==> r.value == Merged(fetch.domainCookies + fetch.urlCookies)
  {
    match fetch
    case FetchFailed =>
      r := Err(FetchError);
    case Fetched(domainCookies, urlCookies) =>
      var merged := MergeCookies(domainCookies, urlCookies);
      r := Ok(merged);
  }

  /** The badge count for a fetch: the number of distinct keys, 0 on failure. */
  function FetchCount(fetch: Fetch): nat
  {
    match fetch
    case FetchFailed => 0
    case Fetched(domainCookies, urlCookies) => |KeySet(domainCookies + urlCookies)|
  }

  /** `getCookieCountForUrl`: the size of the same map, or 0 when anything
      throws. */
  method GetCookieCountForUrl(fetch: Fetch) returns (count: nat)
    ensures count == FetchCount(fetch)
    ensures fetch.Fetched? ==> count == |Merged(fetch.domainCookies + fetch.urlCookies)|
    ensures fetch.FetchFailed? ==> count == 0
  {
    match fetch
    case FetchFailed =>
      count := 0;
    case Fetched(domainCookies, urlCookies) =>
      var merged := MergeCookies(domainCookies, urlCookies);
      MergedSize(domainCookies + urlCookies);
      count := |merged|;
  }

  /** The URL passed to `chrome.cookies.remove`:
      `http${secure ? 's' : ''}://${domain}${path}`. */
  function RemovalUrl(c: Cookie): (url: string)
    ensures url == (if c.secure then "https://" else "http://") + c.domain + c.path
  {
    var scheme := "http" + (if c.secure then "s" else "") + "://";
    assert scheme == if c.secure then "https://" else "http://";
    scheme + c.domain + c.path
  }

  /** The scheme tells the cookie's `secure` flag, and the URL ends with the
      domain and then the path. */
  lemma RemovalUrlShape(c: Cookie)
    ensures (|RemovalUrl(c)| >= 8 && RemovalUrl(c)[..8] == "https://") <==> c.secure
    ensures StartsWith(RemovalUrl(c), if c.secure then "https://" else "http://")
    ensures |RemovalUrl(c)| >= |c.domain + c.path|
    ensures RemovalUrl(c)[|RemovalUrl(c)| - |c.domain + c.path|..] == c.domain + c.path
  {
    var url, scheme := RemovalUrl(c), if c.secure then "https://" else "http://";
    assert url[..|scheme|] == scheme;
    assert url[|scheme|..] == c.domain + c.path;
    assert !c.secure ==> url[4] == ':';
  }

  /** One `chrome.cookies.remove` request. */
  datatype Removal = Removal(url: string, name: string)

  function CountTrue(outcomes: seq<bool>): (n: nat)
    ensures n <= |outcomes|
  {
    if outcomes == [] then 0 else CountTrue(outcomes[..|outcomes| - 1]) + (if outcomes[|outcomes| - 1] then 1 else 0)
  }

  /** `clearCookiesForDomain`. `fetched` is the result of `getAll` (None if it
      rejected, and then the whole call rethrows); `succeeded[i]` says whether
      the removal of the i-th cookie resolved. Every cookie gets a removal
      request, a failed one does not stop the loop, and the result counts the
      removals that resolved. */
  method ClearCookiesForDomain(fetched: Option<seq<Cookie>>, succeeded: seq<bool>)
      returns (cleared: Option<nat>, removals: seq<Removal>)
    requires fetched.Some? ==> |succeeded| == |fetched.value|
    ensures cleared.Some? <==> fetched.Some?
    ensures fetched.None? ==> removals == []
    ensures fetched.Some? ==>
      && cleared.value == CountTrue(succeeded)
      && cleared.value <= |fetched.value|
      && |removals| == |fetched.value|
      && forall i :: 0 <= i < |removals| ==>
           removals[i] == Removal(RemovalUrl(fetched.value[i]), fetched.value[i].name)
  {
    removals := [];
    if fetched.None? {
      cleared := None;
      return;
    }
    var cookies := fetched.value;
    var clearedCount := 0;
    var i := 0;
    while i < |cookies|
      invariant 0 <= i <= |cookies|
      invariant clearedCount == CountTrue(succeeded[..i])
      invariant |removals| == i
      invariant forall j :: 0 <= j < i ==> removals[j] == Removal(RemovalUrl(cookies[j]), cookies[j].name)
    {
      var cookie := cookies[i];
      removals := removals + [Removal(RemovalUrl(cookie), cookie.name)];
      assert succeeded[..i + 1][..i] == succeeded[..i];
      if succeeded[i] {
        clearedCount := clearedCount + 1;
      }
      i := i + 1;
    }
    assert succeeded[..i] == succeeded;
    cleared := Some(clearedCount);
  }

  /** The cleared count is the number of cookies exactly when no removal
      failed. */
  lemma {:induction false} AllClearedIff(succeeded: seq<bool>)
    ensures CountTrue(succeeded) == |succeeded| <==> forall i :: 0 <= i < |succeeded| ==> succeeded[i]
  {
    if succeeded != [] {
      var init := succeeded[..|succeeded| - 1];
      AllClearedIff(init);
      if CountTrue(succeeded) == |succeeded| {
        assert succeeded[|succeeded| - 1];
        forall i | 0 <= i < |succeeded| ensures succeeded[i] {
          if i < |succeeded| - 1 { assert succeeded[i] == init[i]; }
        }
      }
    }
  }

  /** What `chrome.tabs.get` gave: the tab's URL ("" when it has none), or
      a failure. */
  datatype TabLookup = TabFound(url: string) | TabLookupFailed

  /** The badge calls made for one tab: the text, and the colour when one is
      set (no colour is set on the early-return and error paths). */
  datatype BadgeUpdate = BadgeUpdate(text: string, color: Option<string>)

  /** URLs whose badge is always cleared: none, `chrome://` pages and
      extension pages. */
  predicate IsExcludedUrl(url: string)
  {
    url == "" || StartsWith(url, "chrome://") || StartsWith(url, "chrome-extension://")
  }

  /** The text and colour `updateBadgeForTab` sets, given the tab and the
      cookie count for its URL. */
  function BadgeFor(tab: TabLookup, count: nat): (b: BadgeUpdate)
    ensures (tab.TabLookupFailed? || IsExcludedUrl(tab.url)) ==> b == BadgeUpdate("", None)
    ensures tab.TabFound? && !IsExcludedUrl(tab.url) ==>
      && (b.text == "" <==> count == 0)
      && (count > 0 ==> AllDigits(b.text) && DecimalValue(b.text) == count)
      && (count > 0 ==> b.text == DecimalString(count))
      && (b.color == Some("#4CAF50") <==> count > 0)
      && (b.color == Some("#757575") <==> count == 0)
  {
    match tab
    case TabLookupFailed => BadgeUpdate("", None)
    case TabFound(url) =>
      if IsExcludedUrl(url) then BadgeUpdate("", None)
      else
        DecimalRoundTrip(count);
        BadgeUpdate(if count > 0 then DecimalString(count) else "",
                    Some(if count > 0 then "#4CAF50" else "#757575"))
  }

  /** `updateBadgeForTab`: the cookie count is fetched only for a URL that is
      not excluded. */
  method UpdateBadgeForTab(tab: TabLookup, fetch: Fetch) returns (b: BadgeUpdate)
    ensures b == BadgeFor(tab, FetchCount(fetch))
  {
    if tab.TabLookupFailed? || IsExcludedUrl(tab.url) {
      b := BadgeUpdate("", None);
    } else {
      var cookieCount := GetCookieCountForUrl(fetch);
      b := BadgeFor(tab, cookieCount);
    }
  }

  /** The distinct key strings of the fetched lists set the badge: a page
      whose merged list is empty gets the grey, empty badge. */
  lemma BadgeCountsDistinctKeys(url: string, domainCookies: seq<Cookie>, urlCookies: seq<Cookie>)
    requires !IsExcludedUrl(url)
    ensures var b := BadgeFor(TabFound(url), FetchCount(Fetched(domainCookies, urlCookies)));
      b.text == "" <==> Merged(domainCookies + urlCookies) == []
  {
    MergedSize(domainCookies + urlCookies);
  }

  /** The actions `handleMessage` dispatches on. */
  datatype Action =
    | GetCookies | ClearCookies | ExportCookies | GetSettings | SaveSettings
    | UpdateBadge | DocumentCookieChanged | CookieActivity | UnknownAction

  function ActionOf(action: string): (a: Action)
    ensures a == UnknownAction <==>
      action !in {"getCookies", "clearCookies", "exportCookies", "getSettings", "saveSettings",
                  "updateBadge", "documentCookieChanged", "cookieActivity"}
  {
    match action
    case "getCookies" => GetCookies
    case "clearCookies" => ClearCookies
    case "exportCookies" => ExportCookies
    case "getSettings" => GetSettings
    case "saveSettings" => SaveSettings
    case "updateBadge" => UpdateBadge
    case "documentCookieChanged" => DocumentCookieChanged
    case "cookieActivity" => CookieActivity
    case _ => UnknownAction
  }

  /** Handlers whose awaited work can throw into `handleMessage`'s catch:
      the three that fetch cookies. The badge handlers catch their own errors
      and the settings promises never reject. */
  predicate MayThrow(a: Action)
  {
    a == GetCookies || a == ClearCookies || a == ExportCookies
  }

  datatype Reply = Success | Failure(error: string)

  /** The `success` and `error` fields of the reply `handleMessage` sends;
      `thrown` is the message of the error the handler threw, if it threw. */
  function BackgroundReply(action: string, thrown: Option<string>): (r: Reply)
    ensures ActionOf(action) == UnknownAction ==> r == Failure("Unknown action")
    ensures ActionOf(action) != UnknownAction && !MayThrow(ActionOf(action)) ==> r == Success
    ensures MayThrow(ActionOf(action)) ==> (r == Success <==> thrown.None?)
    ensures MayThrow(ActionOf(action)) && thrown.Some? ==> r == Failure(thrown.value)
  {
    var a := ActionOf(action);
    if a == UnknownAction then Failure("Unknown action")
    else if MayThrow(a) && thrown.Some? then Failure(thrown.value)
    else Success
  }

  /** An exported cookie: the eight fields `exportCookies` copies. */
  datatype ExportedCookie = ExportedCookie(
    name: string, value: string, domain: string, path: string,
    secure: bool, httpOnly: bool, sameSite: string, expirationDate: Option<real>)

  datatype ExportData = ExportData(url: string, timestamp: string, cookies: seq<ExportedCookie>)

  function Project(c: Cookie): ExportedCookie
  {
    ExportedCookie(c.name, c.value, c.domain, c.path, c.secure, c.httpOnly, c.sameSite, c.expirationDate)
  }

  /** `exportCookies`: the merged list, field by field, with the URL and a
      timestamp supplied by the caller. */
  method ExportCookiesFor(url: string, timestamp: string, fetch: Fetch) returns (r: Result<ExportData, FetchError>)
    ensures r.Ok? <==> fetch.Fetched?
    ensures r.Ok? ==>
      var merged := Merged(fetch.domainCookies + fetch.urlCookies);
      && r.value.url == url && r.value.timestamp == timestamp
      && |r.value.cookies| == |merged|
      && forall i :: 0 <= i < |merged| ==>
           var e, c := r.value.cookies[i], merged[i];
           e.name == c.name && e.value == c.value && e.domain == c.domain && e.path == c.path
           && e.secure == c.secure && e.httpOnly == c.httpOnly && e.sameSite == c.sameSite
           && e.expirationDate == c.expirationDate
  {
    var cookies := GetCookiesForUrl(fetch);
    match cookies
    case Err(e) =>
      r := Err(e);
    case Ok(list) =>
      r := Ok(ExportData(url, timestamp, seq(|list|, i requires 0 <= i < |list| => Project(list[i]))));
  }
}
