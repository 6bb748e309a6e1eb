/**
 * What the popup derives from the cookie list: the summary `update` shows (cookie
 * counts, up to five unwanted sites, whether "Delete" is enabled) and the removal
 * requests the "Delete" button issues, one per unwanted cookie (`deleteCookie`).
 */
module Report {
  import opened Optional
  import opened JsStrings
  import opened JsSet
  import opened Domains
  import opened Matching

  // ---------------------------------------------------------------------------
  // summary
  // ---------------------------------------------------------------------------

  /** How many unwanted sites the summary names. */
  const MaxSitesShown: nat := 5

  /** The prefix of each line of the summary ("• "). */
  const Bullet: string := "\U{2022} "

  /** The line that follows the sites when more than five cookies are unwanted. */
  const MoreLine: string := "\U{2022} \U{2026}and more"

  /** The text the popup writes: header, delete button label, info lines, button state. */
  datatype Summary = Summary(header: string, deleteLabel: string, info: seq<string>, deleteDisabled: bool)

  /** `Cookies (${n})`. */
  function HeaderText(total: nat): string
  {
    "Cookies (" + DecimalString(total) + ")"
  }

  /** `Delete ${n} Unwanted Cookies`. */
  function DeleteLabel(unwanted: nat): string
  {
    "Delete " + DecimalString(unwanted) + " Unwanted Cookies"
  }

  /** `cookies.map(cookie => getSecondLevelDomain(cookie.domain))`. */
  function CookieSites(cookies: seq<Cookie>): (sites: seq<string>)
    ensures |sites| == |cookies|
    ensures forall i :: 0 <= i < |cookies| ==> sites[i] == SecondLevelDomain(cookies[i].domain)
  {
    if cookies == [] then [] else [SecondLevelDomain(cookies[0].domain)] + CookieSites(cookies[1..])
  }

  /** `sites.map(str => "• " + str)`. */
  function Bullets(sites: seq<string>): (lines: seq<string>)
    ensures |lines| == |sites|
    ensures forall i :: 0 <= i < |sites| ==> lines[i] == Bullet + sites[i]
  {
    if sites == [] then [] else [Bullet + sites[0]] + Bullets(sites[1..])
  }

  /** `[...new Set(sites)].slice(0, 5)`: the first five distinct sites. */
  function FirstDistinct(sites: seq<string>): seq<string>
  {
    var d := Distinct(sites);
    if |d| <= MaxSitesShown then d else d[..MaxSitesShown]
  }

  /** The sites `update` names for the unwanted cookies. */
  function ShownSites(unwanted: seq<Cookie>): seq<string>
  {
    FirstDistinct(CookieSites(unwanted))
  }

  /**
   * The first five distinct sites: no two alike, each one of the given sites, in
   * the order in which the list first reaches them, exactly five of them when there
   * are more (a prefix of the distinct sites) and all of them otherwise, every site
   * left out reached later than every site shown, and at least one when the list is
   * not empty.
   */
  lemma FirstDistinctContents(sites: seq<string>)
    ensures var shown := FirstDistinct(sites);
            var d := Distinct(sites);
            |shown| == (if |d| <= MaxSitesShown then |d| else MaxSitesShown) &&
            shown == d[..|shown|] && NoDuplicates(shown) &&
            (forall s :: s in shown ==> s in sites) &&
            (forall i, j :: 0 <= i < j < |shown| ==> FirstIndex(sites, shown[i]) < FirstIndex(sites, shown[j])) &&
            (forall s, t :: s in sites && s !in shown && t in shown ==> FirstIndex(sites, t) < FirstIndex(sites, s)) &&
            (|d| <= MaxSitesShown ==> forall s :: s in sites ==> s in shown) &&
            (sites != [] ==> shown != [])
  {
    var d := Distinct(sites);
    var shown := FirstDistinct(sites);
    DistinctFirstSeenOrder(sites);
    FirstDistinctLeftOutLater(sites);
    FirstDistinctUnique(sites);
    assert shown == d[..|shown|];
    forall i, j | 0 <= i < j < |shown| ensures FirstIndex(sites, shown[i]) < FirstIndex(sites, shown[j]) {
      assert shown[i] == d[i] && shown[j] == d[j];
    }
    if sites != [] {
      assert sites[0] in d;
    }
  }

  /** The shown sites are distinct sites of the list. */
  lemma FirstDistinctUnique(sites: seq<string>)
    ensures var shown := FirstDistinct(sites);
            NoDuplicates(shown) && forall s :: s in shown ==> s in sites
  {
    var d := Distinct(sites);
    var shown := FirstDistinct(sites);
    if |d| > MaxSitesShown {
      assert d == shown + d[MaxSitesShown..];
      forall x ensures multiset(shown)[x] <= 1 {
        assert multiset(d)[x] == multiset(shown)[x] + multiset(d[MaxSitesShown..])[x];
      }
      forall s | s in shown ensures s in sites {
        assert s in d;
      }
    }
  }

  /** Every site `slice(0, 5)` cuts off is first reached after every site it keeps. */
  lemma FirstDistinctLeftOutLater(sites: seq<string>)
    ensures var shown := FirstDistinct(sites);
            forall s, t :: s in sites && s !in shown && t in shown ==> FirstIndex(sites, t) < FirstIndex(sites, s)
  {
    var d := Distinct(sites);
    var shown := FirstDistinct(sites);
    assert shown == d[..|shown|];
    forall s, t | s in sites && s !in shown && t in shown ensures FirstIndex(sites, t) < FirstIndex(sites, s) {
      FirstIndexOrdered(sites, s, t);
    }
  }

  lemma FirstIndexOrdered(sites: seq<string>, s: string, t: string)
    requires s in sites && s !in FirstDistinct(sites) && t in FirstDistinct(sites)
    ensures FirstIndex(sites, t) < FirstIndex(sites, s)
  {
    var d := Distinct(sites);
    var shown := FirstDistinct(sites);
    assert shown == d[..|shown|];
    DistinctFirstSeenOrder(sites);
    assert s in d;
    var i :| 0 <= i < |shown| && shown[i] == t;
    var j :| 0 <= j < |d| && d[j] == s;
    assert d[i] == t;
    assert j >= |shown| by {
      assert forall k :: 0 <= k < |shown| ==> shown[k] == d[k];
    }
  }

  /** What `update` writes, given all cookies and the parsed allow-list. */
  function SummaryOf(cookies: seq<Cookie>, entries: seq<string>): Summary
    requires AreWildcardPatterns(entries)
  {
    var unwanted := Unwanted(cookies, entries);
    var header := HeaderText(|cookies|);
    var buttonLabel := DeleteLabel(|unwanted|);
    if |unwanted| == 0 then Summary(header, buttonLabel, [], true)
    else
      var more := if |unwanted| > MaxSitesShown then [MoreLine] else [];
      Summary(header, buttonLabel, Bullets(ShownSites(unwanted)) + more, false)
  }

  /**
   * The sites named for the unwanted cookies are the first five of their distinct
   * reduced domains (all of them when there are at most five), in first-seen
   * order: each named site is the reduced domain of some unwanted cookie, every
   * site left out is first reached after every site named, and when there are at
   * most five distinct ones every unwanted cookie's site is named.
   */
  lemma ShownSitesContents(unwanted: seq<Cookie>)
    ensures var shown := ShownSites(unwanted);
            var all := CookieSites(unwanted);
            var d := Distinct(all);
            |shown| == (if |d| <= MaxSitesShown then |d| else MaxSitesShown) &&
            shown == d[..|shown|] && NoDuplicates(shown) &&
            (forall s :: s in shown ==> exists c :: c in unwanted && SecondLevelDomain(c.domain) == s) &&
            (forall s, t :: s in all && s !in shown && t in shown ==> FirstIndex(all, t) < FirstIndex(all, s)) &&
            (forall i, j :: 0 <= i < j < |shown| ==> FirstIndex(all, shown[i]) < FirstIndex(all, shown[j])) &&
            (|Distinct(all)| <= MaxSitesShown ==> forall c :: c in unwanted ==> SecondLevelDomain(c.domain) in shown) &&
            (unwanted != [] ==> shown != [])
  {
    var all := CookieSites(unwanted);
    var shown := ShownSites(unwanted);
    FirstDistinctContents(all);
    forall s | s in shown ensures exists c :: c in unwanted && SecondLevelDomain(c.domain) == s {
      var i :| 0 <= i < |all| && all[i] == s;
      assert unwanted[i] in unwanted;
    }
    forall c | c in unwanted && |Distinct(all)| <= MaxSitesShown ensures SecondLevelDomain(c.domain) in shown {
      var i :| 0 <= i < |unwanted| && unwanted[i] == c;
      assert all[i] in all;
    }
  }

  /**
   * With no unwanted cookie the info is empty and "Delete" is disabled, and with
   * some the info is not empty and "Delete" is enabled. The header and the button
   * carry the counts of all and of the unwanted cookies.
   */
  lemma SummaryState(cookies: seq<Cookie>, entries: seq<string>)
    requires AreWildcardPatterns(entries)
    ensures var s := SummaryOf(cookies, entries);
            var unwanted := Unwanted(cookies, entries);
            s.header == HeaderText(|cookies|) &&
            s.deleteLabel == DeleteLabel(|unwanted|) &&
            (s.deleteDisabled <==> unwanted == []) &&
            (s.info == [] <==> unwanted == [])
  {
    var unwanted := Unwanted(cookies, entries);
    if unwanted != [] {
      FirstDistinctContents(CookieSites(unwanted));
    }
  }

  /** The summary has at most five site lines and the "…and more" line. */
  lemma SummaryLength(cookies: seq<Cookie>, entries: seq<string>)
    requires AreWildcardPatterns(entries)
    ensures |SummaryOf(cookies, entries).info| <= MaxSitesShown + 1
  {
    var unwanted := Unwanted(cookies, entries);
    if unwanted != [] {
      FirstDistinctContents(CookieSites(unwanted));
    }
  }

  /**
   * With unwanted cookies the info is one line per shown site, followed by one
   * "…and more" line exactly when more than five cookies are unwanted.
   */
  lemma SummaryInfo(cookies: seq<Cookie>, entries: seq<string>)
    requires AreWildcardPatterns(entries)
    requires Unwanted(cookies, entries) != []
    ensures var info := SummaryOf(cookies, entries).info;
            var unwanted := Unwanted(cookies, entries);
            var shown := ShownSites(unwanted);
            |info| == |shown| + (if |unwanted| > MaxSitesShown then 1 else 0) &&
            (forall i :: 0 <= i < |shown| ==> info[i] == Bullet + shown[i]) &&
            (|unwanted| > MaxSitesShown ==> info[|info| - 1] == MoreLine)
  {
  }

  /** The count in the header reads back as the number of cookies. */
  lemma HeaderCount(total: nat)
    ensures var h := HeaderText(total);
            |h| > 10 && h[..9] == "Cookies (" && DecimalValue(h[9..|h| - 1]) == total
  {
    var h := HeaderText(total);
    assert h[9..|h| - 1] == DecimalString(total);
    DecimalRoundTrip(total);
  }

  /** The count on the delete button reads back as the number of unwanted cookies. */
  lemma DeleteLabelCount(unwanted: nat)
    ensures var b := DeleteLabel(unwanted);
            |b| > 24 && b[..7] == "Delete " && DecimalValue(b[7..|b| - 17]) == unwanted
  {
    var b := DeleteLabel(unwanted);
    assert b[7..|b| - 17] == DecimalString(unwanted);
    DecimalRoundTrip(unwanted);
  }

  /**
   * The "…and more" line counts cookies, not sites: more than five unwanted
   * cookies that all belong to one site show that site and the extra line.
   */
  lemma MoreLineCountsCookies(cookies: seq<Cookie>, entries: seq<string>, site: string)
    requires AreWildcardPatterns(entries)
    requires |Unwanted(cookies, entries)| > MaxSitesShown
    requires forall c :: c in Unwanted(cookies, entries) ==> SecondLevelDomain(c.domain) == site
    ensures SummaryOf(cookies, entries).info == [Bullet + site, MoreLine]
  {
    var unwanted := Unwanted(cookies, entries);
    ShownSitesOfOneSite(unwanted, site);
    SummaryInfo(cookies, entries);
  }

  /** Cookies that all belong to one site show just that site. */
  lemma ShownSitesOfOneSite(cookies: seq<Cookie>, site: string)
    requires cookies != []
    requires forall c :: c in cookies ==> SecondLevelDomain(c.domain) == site
    ensures ShownSites(cookies) == [site]
  {
    var all := CookieSites(cookies);
    forall i | 0 <= i < |all| ensures all[i] == site {
      assert cookies[i] in cookies;
    }
    DistinctSingleValue(all, site);
  }

  lemma {:induction false} DistinctSingleValue(s: seq<string>, x: string)
    requires s != [] && forall i :: 0 <= i < |s| ==> s[i] == x
    ensures Distinct(s) == [x]
  {
    if |s| > 1 {
      DistinctSingleValue(s[..|s| - 1], x);
    }
  }

  // ---------------------------------------------------------------------------
  // removal requests
  // ---------------------------------------------------------------------------

  /** The details passed to the cookie-removal call. */
  datatype RemovalRequest = RemovalRequest(url: string, name: string, storeId: string)

  /** `cookie.secure ? 'https:' : 'http:'`. */
  function Protocol(secure: bool): string
  {
    if secure then "https:" else "http:"
  }

  /** `${protocol}//${cookie.domain}${cookie.path}`, the domain verbatim with any leading dot. */
  function CookieUrl(c: Cookie): string
  {
    Protocol(c.secure) + "//" + c.domain + c.path
  }

  /** The details `deleteCookie(cookie)` passes on. */
  function RemovalFor(c: Cookie): RemovalRequest
  {
    RemovalRequest(CookieUrl(c), c.name, c.storeId)
  }

  /** `cookies.map(deleteCookie)`. */
  function RemovalRequests(cookies: seq<Cookie>): (reqs: seq<RemovalRequest>)
    ensures |reqs| == |cookies|
    ensures forall i :: 0 <= i < |cookies| ==> reqs[i] == RemovalFor(cookies[i])
  {
    if cookies == [] then [] else [RemovalFor(cookies[0])] + RemovalRequests(cookies[1..])
  }

  /** Reading a removal URL back: whether it is secure, and the host and path after `//`. */
  function ParseCookieUrl(url: string): Option<(bool, string)>
  {
    if |url| >= 8 && url[..8] == "https://" then Some((true, url[8..]))
    else if |url| >= 7 && url[..7] == "http://" then Some((false, url[7..]))
    else None
  }

  /**
   * A removal URL is `https:` exactly for a secure cookie and `http:` otherwise,
   * followed by `//`, the cookie's domain verbatim and its path.
   */
  lemma CookieUrlRoundTrip(c: Cookie)
    ensures ParseCookieUrl(CookieUrl(c)) == Some((c.secure, c.domain + c.path))
  {
    var url := CookieUrl(c);
    if c.secure {
      assert url[..8] == "https://";
      assert url[8..] == c.domain + c.path;
    } else {
      assert url[..7] == "http://";
      assert url[7..] == c.domain + c.path;
      assert !(|url| >= 8 && url[..8] == "https://") by {
        assert url[4] == ':';
      }
    }
  }

  /**
   * The "Delete" button issues one request per unwanted cookie, in their order,
   * each with that cookie's name and store and a URL of its protocol, domain and
   * path; no request is for a cookie an entry matches.
   */
  lemma RemovalRequestsForUnwanted(cookies: seq<Cookie>, entries: seq<string>)
    requires AreWildcardPatterns(entries)
    ensures var unwanted := Unwanted(cookies, entries);
            var reqs := RemovalRequests(unwanted);
            |reqs| == |unwanted| &&
            forall i :: 0 <= i < |reqs| ==>
              reqs[i].name == unwanted[i].name && reqs[i].storeId == unwanted[i].storeId &&
              ParseCookieUrl(reqs[i].url) == Some((unwanted[i].secure, unwanted[i].domain + unwanted[i].path)) &&
              !AnyEntryMatches(entries, unwanted[i].domain)
  {
    var unwanted := Unwanted(cookies, entries);
    forall i | 0 <= i < |unwanted|
      ensures ParseCookieUrl(RemovalFor(unwanted[i]).url) ==
              Some((unwanted[i].secure, unwanted[i].domain + unwanted[i].path))
      ensures !AnyEntryMatches(entries, unwanted[i].domain)
    {
      CookieUrlRoundTrip(unwanted[i]);
      assert unwanted[i] in unwanted;
    }
  }
}
