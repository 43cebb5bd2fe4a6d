/** The popup (popup.js): the search-and-filter predicate over the cookie
    list, the status line, the attribute badges of one cookie, and the
    `CookieViewer` object whose `loadCookies`, `filterCookies` and
    `updateStats` store their results in its fields. The DOM inputs (the
    search box, the checked filter boxes) and the cookie API's answers are
    parameters. */
module Popup {
  import opened Wrappers
  import opened Strings
  import opened CookieMerge

  /** `!!cookie.expirationDate`: an expiry is present and is not 0. */
  predicate HasExpiry(c: Cookie)
  {
    c.expirationDate.Some? && c.expirationDate.value != 0.0
  }

  /** The search half of the predicate; `term` is the search box's text
      after `toLowerCase`, and an empty term matches every cookie. */
  predicate MatchesSearch(c: Cookie, term: string)
  {
    term == "" || Contains(Lower(c.name), term) || Contains(Lower(c.value), term) || Contains(Lower(c.domain), term)
  }

  /** The values of the filter checkboxes the `switch` knows. */
  const KnownFilters: set<string> :=
    {"httpOnly", "secure", "session", "persistent", "sameSiteNone", "sameSiteLax", "sameSiteStrict", "noSameSite"}

  /** One case of the `switch` on a checked filter's value; the `default`
      case matches nothing. */
  predicate MatchesFilter(c: Cookie, filterType: string)
  {
    if filterType == "httpOnly" then c.httpOnly
    else if filterType == "secure" then c.secure
    else if filterType == "session" then !HasExpiry(c)
    else if filterType == "persistent" then HasExpiry(c)
    else if filterType == "sameSiteNone" then c.sameSite != "" && Lower(c.sameSite) == "none"
    else if filterType == "sameSiteLax" then c.sameSite != "" && Lower(c.sameSite) == "lax"
    else if filterType == "sameSiteStrict" then c.sameSite != "" && Lower(c.sameSite) == "strict"
    else if filterType == "noSameSite" then c.sameSite == ""
    else false
  }

  /** `checkedFilters.some(...)`, scanning the filters in order. */
  predicate AnyFilter(c: Cookie, checkedFilters: seq<string>)
    decreases |checkedFilters|
  {
    checkedFilters != [] && (MatchesFilter(c, checkedFilters[0]) || AnyFilter(c, checkedFilters[1..]))
  }

  /** The callback given to `this.cookies.filter`. */
  predicate Keep(c: Cookie, term: string, checkedFilters: seq<string>)
  {
    if |checkedFilters| == 0 then MatchesSearch(c, term)
    else MatchesSearch(c, term) && AnyFilter(c, checkedFilters)
  }

  /** `this.cookies.filter(...)`: the kept cookies, in list order. */
  function Filtered(cs: seq<Cookie>, term: string, checkedFilters: seq<string>): (r: seq<Cookie>)
    ensures |r| <= |cs|
    ensures forall c :: c in r <==> c in cs && Keep(c, term, checkedFilters)
    decreases |cs|
  {
    if cs == [] then []
    else (if Keep(cs[0], term, checkedFilters) then [cs[0]] else []) + Filtered(cs[1..], term, checkedFilters)
  }

  /** `xs` is `ys` with some elements left out, the rest in their order. */
  predicate Subsequence<T(==)>(xs: seq<T>, ys: seq<T>)
    decreases |ys|
  {
    if ys == [] then xs == []
    else (xs != [] && xs[0] == ys[0] && Subsequence(xs[1..], ys[1..])) || Subsequence(xs, ys[1..])
  }

  /** The filtered list keeps the order of `this.cookies`. */
  lemma {:induction false} FilteredIsSubsequence(cs: seq<Cookie>, term: string, checkedFilters: seq<string>)
    ensures Subsequence(Filtered(cs, term, checkedFilters), cs)
    decreases |cs|
  {
    if cs != [] {
      FilteredIsSubsequence(cs[1..], term, checkedFilters);
      var rest := Filtered(cs[1..], term, checkedFilters);
      if Keep(cs[0], term, checkedFilters) {
        assert Filtered(cs, term, checkedFilters) == [cs[0]] + rest;
        assert ([cs[0]] + rest)[1..] == rest;
      } else {
        assert Filtered(cs, term, checkedFilters) == [] + rest;
        assert [] + rest == rest;
      }
    }
  }

  /** Every element of a subsequence is an element of the sequence. */
  lemma {:induction false} SubsequenceMembers<T>(xs: seq<T>, ys: seq<T>)
    requires Subsequence(xs, ys)
    ensures forall x :: x in xs ==> x in ys
    decreases |ys|
  {
    if ys != [] {
      if xs != [] && xs[0] == ys[0] && Subsequence(xs[1..], ys[1..]) {
        SubsequenceMembers(xs[1..], ys[1..]);
        assert forall x :: x in xs ==> x == xs[0] || x in xs[1..];
      } else {
        SubsequenceMembers(xs, ys[1..]);
      }
    }
  }

  /** Leaving cookies out of a list with one cookie per key keeps one
      cookie per key. */
  lemma {:induction false} SubsequenceKeepsDistinct(xs: seq<Cookie>, ys: seq<Cookie>)
    requires Subsequence(xs, ys) && Distinct(KeysOf(ys))
    ensures Distinct(KeysOf(xs))
    decreases |ys|
  {
    if ys != [] {
      assert Distinct(KeysOf(ys[1..])) by {
        forall i, j | 0 <= i < j < |ys| - 1 ensures KeysOf(ys[1..])[i] != KeysOf(ys[1..])[j] {
          assert KeysOf(ys)[i + 1] != KeysOf(ys)[j + 1];
        }
      }
      if xs != [] && xs[0] == ys[0] && Subsequence(xs[1..], ys[1..]) {
        SubsequenceKeepsDistinct(xs[1..], ys[1..]);
        SubsequenceMembers(xs[1..], ys[1..]);
        forall i, j | 0 <= i < j < |xs| ensures KeysOf(xs)[i] != KeysOf(xs)[j] {
          if i == 0 {
            assert xs[j] in ys[1..] by { assert xs[j] == xs[1..][j - 1]; }
            var m :| 0 <= m < |ys| - 1 && ys[1..][m] == xs[j];
            assert KeysOf(ys)[0] != KeysOf(ys)[m + 1];
          } else {
            assert KeysOf(xs[1..])[i - 1] != KeysOf(xs[1..])[j - 1];
          }
        }
      } else {
        SubsequenceKeepsDistinct(xs, ys[1..]);
      }
    }
  }

  /** The empty list is a subsequence of anything. */
  lemma {:induction false} EmptySubsequence<T>(ys: seq<T>)
    ensures Subsequence([], ys)
    decreases |ys|
  {
    if ys != [] {
      EmptySubsequence(ys[1..]);
    }
  }

  /** `some` holds exactly when one of the checked filters matches. */
  lemma {:induction false} AnyFilterIff(c: Cookie, checkedFilters: seq<string>)
    ensures AnyFilter(c, checkedFilters) <==> exists i :: 0 <= i < |checkedFilters| && MatchesFilter(c, checkedFilters[i])
    decreases |checkedFilters|
  {
    if checkedFilters != [] {
      var tail := checkedFilters[1..];
      AnyFilterIff(c, tail);
      if exists i :: 0 <= i < |tail| && MatchesFilter(c, tail[i]) {
        var i :| 0 <= i < |tail| && MatchesFilter(c, tail[i]);
        assert checkedFilters[i + 1] == tail[i];
      }
      if exists i :: 0 <= i < |checkedFilters| && MatchesFilter(c, checkedFilters[i]) {
        var i :| 0 <= i < |checkedFilters| && MatchesFilter(c, checkedFilters[i]);
        if i > 0 {
          assert tail[i - 1] == checkedFilters[i];
        }
      }
    }
  }

  /** With no checked filter the list is exactly the cookies that match the
      search, in order; an empty search then keeps the whole list. */
  lemma NoFiltersIsSearch(cs: seq<Cookie>, term: string)
    ensures forall c :: c in Filtered(cs, term, []) <==> c in cs && MatchesSearch(c, term)
    ensures term == "" ==> Filtered(cs, term, []) == cs
  {
    if term == "" {
      EmptySearchKeepsAll(cs);
    }
  }

  lemma {:induction false} EmptySearchKeepsAll(cs: seq<Cookie>)
    ensures Filtered(cs, "", []) == cs
    decreases |cs|
  {
    if cs != [] {
      EmptySearchKeepsAll(cs[1..]);
      assert [cs[0]] + cs[1..] == cs;
    }
  }

  /** With filters checked, a cookie is kept exactly when it matches the
      search and at least one checked filter. */
  lemma FiltersAreOred(c: Cookie, term: string, checkedFilters: seq<string>)
    requires checkedFilters != []
    ensures Keep(c, term, checkedFilters) <==>
      MatchesSearch(c, term) && exists i :: 0 <= i < |checkedFilters| && MatchesFilter(c, checkedFilters[i])
  {
    AnyFilterIff(c, checkedFilters);
  }

  /** Checking one more filter never hides a cookie that was shown. */
  lemma MoreFiltersShowMore(c: Cookie, term: string, checkedFilters: seq<string>, extra: string)
    requires checkedFilters != []
    requires Keep(c, term, checkedFilters)
    ensures Keep(c, term, checkedFilters + [extra])
  {
    var fs := checkedFilters + [extra];
    AnyFilterIff(c, checkedFilters);
    AnyFilterIff(c, fs);
    var i :| 0 <= i < |checkedFilters| && MatchesFilter(c, checkedFilters[i]);
    assert fs[i] == checkedFilters[i];
  }

  /** The cases of the `switch`: session and persistent split the cookies
      on whether an expiry is set, `noSameSite` means no sameSite text, and
      the sameSite cases compare the lower-cased text. */
  lemma FilterCases(c: Cookie)
    ensures MatchesFilter(c, "session") <==> !MatchesFilter(c, "persistent")
    ensures MatchesFilter(c, "session") <==> c.expirationDate.None? || c.expirationDate.value == 0.0
    ensures MatchesFilter(c, "noSameSite") <==> c.sameSite == ""
    ensures MatchesFilter(c, "sameSiteNone") <==> Lower(c.sameSite) == "none"
    ensures MatchesFilter(c, "sameSiteLax") <==> Lower(c.sameSite) == "lax"
    ensures MatchesFilter(c, "sameSiteStrict") <==> Lower(c.sameSite) == "strict"
    ensures MatchesFilter(c, "httpOnly") <==> c.httpOnly
    ensures MatchesFilter(c, "secure") <==> c.secure
  {
  }

  /** The sameSite cases ignore case: two cookies whose sameSite texts are
      equal after `toLowerCase` pass the same sameSite filters. */
  lemma SameSiteIgnoresCase(c: Cookie, d: Cookie, filterType: string)
    requires Lower(c.sameSite) == Lower(d.sameSite)
    requires filterType in {"sameSiteNone", "sameSiteLax", "sameSiteStrict", "noSameSite"}
    ensures MatchesFilter(c, filterType) <==> MatchesFilter(d, filterType)
  {
    assert |c.sameSite| == |Lower(c.sameSite)| == |d.sameSite|;
  }

  /** A filter value outside the `switch` matches no cookie, so checking
      only such filters empties the list. */
  lemma UnknownFiltersMatchNothing(cs: seq<Cookie>, term: string, checkedFilters: seq<string>)
    requires checkedFilters != []
    requires forall i :: 0 <= i < |checkedFilters| ==> checkedFilters[i] !in KnownFilters
    ensures forall c, i :: 0 <= i < |checkedFilters| ==> !MatchesFilter(c, checkedFilters[i])
    ensures Filtered(cs, term, checkedFilters) == []
  {
    forall c | c in cs ensures !Keep(c, term, checkedFilters) {
      AnyFilterIff(c, checkedFilters);
    }
  }

  /** The search is a case-insensitive substring test: the lower-cased
      input occurs somewhere in the lower-cased name, value or domain. */
  lemma SearchIsSubstringTest(c: Cookie, searchInput: string)
    ensures MatchesSearch(c, Lower(searchInput)) <==>
      searchInput == "" || (exists i :: OccursAt(Lower(c.name), Lower(searchInput), i))
      || (exists i :: OccursAt(Lower(c.value), Lower(searchInput), i))
      || (exists i :: OccursAt(Lower(c.domain), Lower(searchInput), i))
  {
    var term := Lower(searchInput);
    assert term == "" <==> searchInput == "";
    ContainsIff(Lower(c.name), term);
    ContainsIff(Lower(c.value), term);
    ContainsIff(Lower(c.domain), term);
  }

  /** Typing a cookie's name in any letter case finds that cookie. */
  lemma SearchFindsName(c: Cookie, searchInput: string)
    requires Lower(searchInput) == Lower(c.name)
    ensures MatchesSearch(c, Lower(searchInput))
  {
    ContainsSuffix([], Lower(c.name));
    assert [] + Lower(c.name) == Lower(c.name);
  }

  /** `this.cookies.filter(cookie => cookie.httpOnly).length`. */
  function HttpOnlyCount(cs: seq<Cookie>): (n: nat)
    ensures n <= |cs|
    decreases |cs|
  {
    if cs == [] then 0 else (if cs[0].httpOnly then 1 else 0) + HttpOnlyCount(cs[1..])
  }

  /** `this.cookies.filter(cookie => cookie.secure).length`. */
  function SecureCount(cs: seq<Cookie>): (n: nat)
    ensures n <= |cs|
    decreases |cs|
  {
    if cs == [] then 0 else (if cs[0].secure then 1 else 0) + SecureCount(cs[1..])
  }

  /** `this.cookies.filter(cookie => !cookie.expirationDate).length`. */
  function SessionCount(cs: seq<Cookie>): (n: nat)
    ensures n <= |cs|
    decreases |cs|
  {
    if cs == [] then 0 else (if !HasExpiry(cs[0]) then 1 else 0) + SessionCount(cs[1..])
  }

  /** The counts in the status line are the lengths of the list the popup
      shows with an empty search and only that filter checked. */
  lemma {:induction false} CountsMatchFilters(cs: seq<Cookie>)
    ensures HttpOnlyCount(cs) == |Filtered(cs, "", ["httpOnly"])|
    ensures SecureCount(cs) == |Filtered(cs, "", ["secure"])|
    ensures SessionCount(cs) == |Filtered(cs, "", ["session"])|
    decreases |cs|
  {
    if cs != [] {
      CountsMatchFilters(cs[1..]);
      var c := cs[0];
      assert AnyFilter(c, ["httpOnly"]) <==> c.httpOnly;
      assert AnyFilter(c, ["secure"]) <==> c.secure;
      assert AnyFilter(c, ["session"]) <==> !HasExpiry(c);
    }
  }

  /** The leading phrase: "No cookies", "1 cookie" or "<n> cookies". */
  function CountPhrase(n: nat): string
  {
    if n == 0 then "No cookies" else if n == 1 then "1 cookie" else DecimalString(n) + " cookies"
  }

  /** One phrase of the parenthetical: a count and what it counts. */
  function StatPhrase(count: nat, what: string): string
  {
    DecimalString(count) + " " + what
  }

  /** What a phrase of the parenthetical counts, by its last word:
      0 for HTTP-only, 1 for secure, 2 for session. */
  function StatRank(phrase: string): nat
  {
    if EndsWith(phrase, "HTTP-only") then 0 else if EndsWith(phrase, "secure") then 1 else 2
  }

  predicate EndsWith(s: string, t: string)
  {
    |t| <= |s| && s[|s| - |t|..] == t
  }

  /** A phrase ends with what it counts, so the three kinds never coincide. */
  lemma StatPhraseRanks(n: nat)
    ensures StatRank(StatPhrase(n, "HTTP-only")) == 0
    ensures StatRank(StatPhrase(n, "secure")) == 1
    ensures StatRank(StatPhrase(n, "session")) == 2
  {
    var d := DecimalString(n) + " ";
    assert StatPhrase(n, "HTTP-only")[|d|..] == "HTTP-only";
    assert StatPhrase(n, "secure")[|d|..] == "secure";
    assert StatPhrase(n, "session")[|d|..] == "session";
    assert StatPhrase(n, "secure")[|StatPhrase(n, "secure")| - 1] == 'e';
    assert StatPhrase(n, "session")[|StatPhrase(n, "session")| - 1] == 'n';
  }

  /** The phrases of the parenthetical, in the order HTTP-only, secure,
      session, each only when its count is not 0. */
  function StatsPhrases(httpOnly: nat, secure: nat, session: nat): (r: seq<string>)
    ensures r == [] <==> httpOnly == 0 && secure == 0 && session == 0
  {
    (if httpOnly > 0 then [StatPhrase(httpOnly, "HTTP-only")] else [])
    + (if secure > 0 then [StatPhrase(secure, "secure")] else [])
    + (if session > 0 then [StatPhrase(session, "session")] else [])
  }

  /** The parenthetical holds exactly one phrase per count that is not 0,
      and the phrases come in the order HTTP-only, secure, session. */
  lemma StatsPhrasesExact(httpOnly: nat, secure: nat, session: nat)
    ensures var r := StatsPhrases(httpOnly, secure, session);
      && |r| == (if httpOnly > 0 then 1 else 0) + (if secure > 0 then 1 else 0) + (if session > 0 then 1 else 0)
      && (StatPhrase(httpOnly, "HTTP-only") in r <==> httpOnly > 0)
      && (StatPhrase(secure, "secure") in r <==> secure > 0)
      && (StatPhrase(session, "session") in r <==> session > 0)
      && forall i, j :: 0 <= i < j < |r| ==> StatRank(r[i]) < StatRank(r[j])
  {
    var a, b, c := StatPhrase(httpOnly, "HTTP-only"), StatPhrase(secure, "secure"), StatPhrase(session, "session");
    assert StatRank(a) == 0 && StatRank(b) == 1 && StatRank(c) == 2 by {
      StatPhraseRanks(httpOnly);
      StatPhraseRanks(secure);
      StatPhraseRanks(session);
    }
    assert StatsPhrases(httpOnly, secure, session)
      == (if httpOnly > 0 then [a] else []) + (if secure > 0 then [b] else []) + (if session > 0 then [c] else []);
    RankedChoice(a, b, c, httpOnly > 0, secure > 0, session > 0);
  }

  /** Choosing some of three phrases of ranks 0, 1 and 2, in that order. */
  lemma RankedChoice(a: string, b: string, c: string, x: bool, y: bool, z: bool)
    requires StatRank(a) == 0 && StatRank(b) == 1 && StatRank(c) == 2
    ensures var r := (if x then [a] else []) + (if y then [b] else []) + (if z then [c] else []);
      && |r| == (if x then 1 else 0) + (if y then 1 else 0) + (if z then 1 else 0)
      && (a in r <==> x) && (b in r <==> y) && (c in r <==> z)
      && forall i, j :: 0 <= i < j < |r| ==> StatRank(r[i]) < StatRank(r[j])
  {
  }

  /** The status line for a list of `total` cookies with the given counts:
      the count phrase, then the parenthetical when the list is not empty
      and some count is not 0. */
  function StatusLine(total: nat, httpOnly: nat, secure: nat, session: nat): string
  {
    var stats := StatsPhrases(httpOnly, secure, session);
    if total == 0 || stats == [] then CountPhrase(total) else CountPhrase(total) + " (" + Join(stats, ", ") + ")"
  }

  /** The text `updateStats` writes into the status line for a list. */
  function StatusText(cs: seq<Cookie>): string
  {
    StatusLine(|cs|, HttpOnlyCount(cs), SecureCount(cs), SessionCount(cs))
  }

  /** An empty list reads "No cookies". */
  lemma StatusOfNothing()
    ensures StatusText([]) == "No cookies"
  {
  }

  /** The status line starts with its count phrase, whose number reads back
      as the list's length. */
  lemma StatusStartsWithCount(total: nat, httpOnly: nat, secure: nat, session: nat)
    ensures StartsWith(StatusLine(total, httpOnly, secure, session), CountPhrase(total))
    ensures total >= 2 ==> StartsWith(StatusLine(total, httpOnly, secure, session), DecimalString(total) + " cookies")
    ensures total >= 1 ==> DecimalValue(CountPhrase(total)[..|DecimalString(total)|]) == total
  {
    var p := CountPhrase(total);
    assert StatusLine(total, httpOnly, secure, session)[..|p|] == p;
    if total >= 1 {
      DecimalRoundTrip(total);
      if total == 1 {
        assert DecimalString(1) == "1";
        assert p[..1] == "1";
      } else {
        assert p[..|DecimalString(total)|] == DecimalString(total);
      }
    }
  }

  /** The parenthetical is there exactly when the list is not empty and one
      of the three counts is not 0; for a real list the first condition
      follows from the second. */
  lemma ParentheticalIff(total: nat, httpOnly: nat, secure: nat, session: nat)
    ensures StatusLine(total, httpOnly, secure, session) == CountPhrase(total) <==>
      total == 0 || (httpOnly == 0 && secure == 0 && session == 0)
  {
    var p := CountPhrase(total);
    if total > 0 && StatsPhrases(httpOnly, secure, session) != [] {
      assert |StatusLine(total, httpOnly, secure, session)| > |p|;
    }
  }

  /** A list's status line has no parenthetical exactly when it holds no
      HTTP-only cookie, no secure cookie and no session cookie. */
  lemma StatusTextParenthetical(cs: seq<Cookie>)
    ensures StatusText(cs) == CountPhrase(|cs|) <==> HttpOnlyCount(cs) == 0 && SecureCount(cs) == 0 && SessionCount(cs) == 0
  {
    ParentheticalIff(|cs|, HttpOnlyCount(cs), SecureCount(cs), SessionCount(cs));
  }

  /** With all three counts present the parenthetical lists them in the
      order HTTP-only, secure, session. */
  lemma StatusWithAllCounts(total: nat, httpOnly: nat, secure: nat, session: nat)
    requires total > 0 && httpOnly > 0 && secure > 0 && session > 0
    ensures StatusLine(total, httpOnly, secure, session) == CountPhrase(total) + " (" + StatPhrase(httpOnly, "HTTP-only") + ", "
      + StatPhrase(secure, "secure") + ", " + StatPhrase(session, "session") + ")"
  {
    var h, s, n := StatPhrase(httpOnly, "HTTP-only"), StatPhrase(secure, "secure"), StatPhrase(session, "session");
    assert StatsPhrases(httpOnly, secure, session) == [h, s, n];
    JoinThree(h, s, n, ", ");
  }

  lemma JoinParenthetical(p: string, j: string)
    ensures Join([p, "(" + j + ")"], " ") == p + " (" + j + ")"
  {
    assert [p, "(" + j + ")"][1..] == ["(" + j + ")"];
    assert " " + "(" == " (";
  }

  lemma JoinThree(a: string, b: string, c: string, sep: string)
    ensures Join([a, b, c], sep) == a + sep + b + sep + c
  {
    assert [a, b, c][1..] == [b, c];
    assert [b, c][1..] == [c];
    assert Join([b, c], sep) == b + sep + c;
    assert Join([a, b, c], sep) == a + sep + (b + sep + c);
  }

  const HttpOnlyBadge := "<span class=\"badge badge-httponly\">HTTP-Only</span>"
  const SecureBadge := "<span class=\"badge badge-secure\">Secure</span>"

  /** The sameSite badge shows the attribute's text as it is (not escaped). */
  function SameSiteBadge(sameSite: string): string
  {
    "<span class=\"badge badge-samesite\">" + sameSite + "</span>"
  }

  /** Where a badge goes: HTTP-Only first, then Secure, then sameSite. */
  function BadgeRank(badge: string): nat
  {
    if badge == HttpOnlyBadge then 0 else if badge == SecureBadge then 1 else 2
  }

  /** A sameSite badge is neither of the two fixed badges. */
  lemma SameSiteBadgeDistinct(sameSite: string)
    ensures BadgeRank(SameSiteBadge(sameSite)) == 2
  {
    var b := SameSiteBadge(sameSite);
    assert b[26] == 'a' by {
      assert b[..35] == "<span class=\"badge badge-samesite\">";
    }
    assert HttpOnlyBadge[26] == 't' && SecureBadge[26] == 'e';
  }

  /** The badges of one cookie, in the order `generateBadges` pushes them. */
  function Badges(c: Cookie): (r: seq<string>)
    ensures |r| == (if c.httpOnly then 1 else 0) + (if c.secure then 1 else 0) + (if c.sameSite != "" then 1 else 0)
    ensures HttpOnlyBadge in r <==> c.httpOnly
    ensures SecureBadge in r <==> c.secure
    ensures c.sameSite != "" <==> |r| > 0 && r[|r| - 1] == SameSiteBadge(c.sameSite)
    ensures forall i, j :: 0 <= i < j < |r| ==> BadgeRank(r[i]) < BadgeRank(r[j])
  {
    SameSiteBadgeDistinct(c.sameSite);
    (if c.httpOnly then [HttpOnlyBadge] else [])
    + (if c.secure then [SecureBadge] else [])
    + (if c.sameSite != "" then [SameSiteBadge(c.sameSite)] else [])
  }

  /** `generateBadges`: pushes the badges one by one and joins them with "". */
  method GenerateBadges(c: Cookie) returns (html: string)
    ensures html == Join(Badges(c), "")
  {
    var badges: seq<string> := [];
    if c.httpOnly {
      badges := badges + [HttpOnlyBadge];
    }
    if c.secure {
      badges := badges + [SecureBadge];
    }
    if c.sameSite != "" {
      badges := badges + [SameSiteBadge(c.sameSite)];
    }
    assert badges == Badges(c);
    html := Join(badges, "");
  }

  /** The two lists `loadCookies` fetches, or the message of the error that
      `new URL(...)` or `chrome.cookies.getAll` threw. */
  datatype PopupFetch = Fetched(domainCookies: seq<Cookie>, urlCookies: seq<Cookie>) | FetchThrew(message: string)

  /** The popup's state: the cookie list, the list on screen, the active
      tab's URL (None when there is no tab), the status line and the error
      box (None when hidden). */
  class CookieViewer {
    var cookies: seq<Cookie>
    var filteredCookies: seq<Cookie>
    var currentTab: Option<string>
    var statusText: string
    var errorText: Option<string>

    /** What every method keeps: the list holds one cookie per key, and the
        list on screen is drawn from it in its order. */
    predicate Valid()
      reads this
    {
      Distinct(KeysOf(cookies)) && Subsequence(filteredCookies, cookies)
    }

    /** The state `getCurrentTab` leaves before the first load. */
    constructor(tab: Option<string>)
      ensures cookies == [] && filteredCookies == [] && currentTab == tab
      ensures statusText == "" && errorText == None
      ensures Valid()
    {
      cookies := [];
      filteredCookies := [];
      currentTab := tab;
      statusText := "";
      errorText := None;
      new;
      EmptySubsequence<Cookie>([]);
    }

    /** `filterCookies`: stores the cookies that pass the search box and the
        checked filters. */
    method FilterCookies(searchInput: string, checkedFilters: seq<string>)
      modifies this
      ensures filteredCookies == Filtered(cookies, Lower(searchInput), checkedFilters)
      ensures Subsequence(filteredCookies, cookies)
      ensures cookies == old(cookies) && currentTab == old(currentTab)
      ensures statusText == old(statusText) && errorText == old(errorText)
      ensures old(Valid()) ==> Valid() && Distinct(KeysOf(filteredCookies))
    {
      var searchTerm := Lower(searchInput);
      filteredCookies := Filtered(cookies, searchTerm, checkedFilters);
      FilteredIsSubsequence(cookies, searchTerm, checkedFilters);
      if Distinct(KeysOf(cookies)) {
        SubsequenceKeepsDistinct(filteredCookies, cookies);
      }
    }

    /** `updateStats`: builds the status line from the three counts. */
    method UpdateStats()
      modifies this
      ensures statusText == StatusText(cookies)
      ensures cookies == old(cookies) && filteredCookies == old(filteredCookies)
      ensures currentTab == old(currentTab) && errorText == old(errorText)
      ensures old(Valid()) ==> Valid()
    {
      var totalCount := |cookies|;
      var httpOnlyCount := HttpOnlyCount(cookies);
      var secureCount := SecureCount(cookies);
      var sessionCount := SessionCount(cookies);
      var statusParts: seq<string> := [CountPhrase(totalCount)];
      if totalCount > 0 {
        var stats: seq<string> := [];
        if httpOnlyCount > 0 {
          stats := stats + [StatPhrase(httpOnlyCount, "HTTP-only")];
        }
        if secureCount > 0 {
          stats := stats + [StatPhrase(secureCount, "secure")];
        }
        if sessionCount > 0 {
          stats := stats + [StatPhrase(sessionCount, "session")];
        }
        assert stats == StatsPhrases(httpOnlyCount, secureCount, sessionCount);
        if |stats| > 0 {
          statusParts := statusParts + ["(" + Join(stats, ", ") + ")"];
          JoinParenthetical(CountPhrase(totalCount), Join(stats, ", "));
        }
      }
      statusText := Join(statusParts, " ");
    }

    /** `loadCookies`: hides the error box, then either stores the merged
        lists and refreshes the screen, or shows the error and empties both
        lists. */
    method LoadCookies(fetch: PopupFetch, searchInput: string, checkedFilters: seq<string>)
      modifies this
      ensures currentTab == old(currentTab)
      ensures var tabOk := currentTab.Some? && currentTab.value != "";
        if tabOk && fetch.Fetched? then
          && cookies == Merged(fetch.domainCookies + fetch.urlCookies)
          && filteredCookies == Filtered(cookies, Lower(searchInput), checkedFilters)
          && statusText == StatusText(cookies)
          && errorText == None
        else
          && cookies == [] && filteredCookies == []
          && statusText == "No cookies"
          && errorText == Some("Failed to load cookies: " + (if tabOk then fetch.message else "No active tab found"))
      ensures Valid()
    {
      errorText := None;
      var failure: Option<string> := None;
      if currentTab.None? || currentTab.value == "" {
        failure := Some("No active tab found");
      } else if fetch.FetchThrew? {
        failure := Some(fetch.message);
      } else {
        var merged := MergeCookies(fetch.domainCookies, fetch.urlCookies);
        MergedOnePerKey(fetch.domainCookies + fetch.urlCookies);
        cookies := merged;
        FilterCookies(searchInput, checkedFilters);
        UpdateStats();
      }
      if failure.Some? {
        errorText := Some("Failed to load cookies: " + failure.value);
        cookies := [];
        filteredCookies := [];
        EmptySubsequence<Cookie>([]);
        UpdateStats();
      }
    }
  }
}
