/**
 * The popup window's state and the handlers that update it: the allow-list text
 * area, the "Add This Site" button with the click handler it may have, and the
 * cookie summary with its "Delete" button. What the page shows is kept as plain
 * values (text, lines, flags) rather than as HTML.
 */
module PopupWindow {
  import opened Optional
  import opened JsStrings
  import opened JsOrder
  import opened Domains
  import opened AllowList
  import opened Matching
  import opened Report

  /** What `load` got from storage under the allow-list key. */
  datatype StoredList = Found(domains: seq<string>) | Missing | ReadFailed

  /** A button's text and whether it is disabled. */
  datatype Button = Button(caption: string, disabled: bool)

  /**
   * What the "Add This Site" click handler closes over: the tab's reduced domain
   * and the list it was registered with, which each click replaces.
   */
  datatype AddSiteHandler = AddSiteHandler(domain: string, allowedDomains: seq<string>)

  /** The text area's value after `load`: the stored list one per line, or unchanged on failure. */
  function LoadedText(current: string, stored: StoredList): string
  {
    match stored
    case Found(domains) => Join(domains, '\n')
    case Missing => ""
    case ReadFailed => current
  }

  /** Every entry the text area parses to can serve as a match filter pattern. */
  predicate EntriesArePatterns(text: string)
  {
    AreWildcardPatterns(Parse(text))
  }

  /** `Add This Site (${domain})`. */
  function AddSiteLabel(domain: string): string
  {
    "Add This Site (" + domain + ")"
  }

  /** The captured list is sorted and holds proper entries, apart from the domain itself. */
  predicate HandlerInvariant(h: AddSiteHandler)
  {
    Sorted(h.allowedDomains) && forall e :: e in h.allowedDomains ==> IsEntry(e) || e == h.domain
  }

  /** "Delete" is disabled exactly when the summary has no line, and there are at most six lines. */
  predicate SummaryInvariant(s: Summary)
  {
    (s.deleteDisabled <==> s.info == []) && |s.info| <= MaxSitesShown + 1
  }

  /**
   * A click keeps the handler's invariant, and when the domain is a proper entry
   * the text it writes parses back to the new list.
   */
  lemma AddSiteKeepsHandlerInvariant(h: AddSiteHandler)
    requires HandlerInvariant(h)
    ensures var added := AddSite(h.allowedDomains, h.domain);
            HandlerInvariant(AddSiteHandler(h.domain, added)) &&
            (IsEntry(h.domain) ==> Parse(Join(added, '\n')) == added)
  {
    AddSiteContents(h.allowedDomains, h.domain);
    if IsEntry(h.domain) {
      AddSiteThenParse(h.allowedDomains, h.domain);
    }
  }

  /** The handler `initPopupWindow` registers keeps the invariant, whatever the text area holds. */
  lemma ParsedHandlerInvariant(domain: string, text: string)
    ensures HandlerInvariant(AddSiteHandler(domain, Parse(text)))
  {
    ParseEntries(text);
  }

  /** Every summary `update` can show keeps the summary invariant. */
  lemma SummaryKeepsInvariant(cookies: seq<Cookie>, entries: seq<string>)
    requires AreWildcardPatterns(entries)
    ensures SummaryInvariant(SummaryOf(cookies, entries))
  {
    SummaryState(cookies, entries);
    SummaryLength(cookies, entries);
  }

  /**
   * `update`'s statements in their own order, on values rather than on the page:
   * the header and the button label always, then either no lines and "Delete"
   * disabled, or the site lines with the "…and more" line appended by `+=` and
   * "Delete" enabled. It is proved to produce `SummaryOf`, the summary stated as
   * one expression.
   */
  method BuildSummary(cookies: seq<Cookie>, entries: seq<string>) returns (s: Summary)
    requires AreWildcardPatterns(entries)
    ensures s == SummaryOf(cookies, entries)
    ensures SummaryInvariant(s)
  {
    var unwanted := Unwanted(cookies, entries);
    var header := HeaderText(|cookies|);
    var buttonLabel := DeleteLabel(|unwanted|);
    var lines, disabled;
    if |unwanted| == 0 {
      lines := [];
      disabled := true;
    } else {
      lines := Bullets(ShownSites(unwanted));
      if |unwanted| > MaxSitesShown {
        lines := lines + [MoreLine];
      }
      disabled := false;
    }
    s := Summary(header, buttonLabel, lines, disabled);
    SummaryKeepsInvariant(cookies, entries);
  }

  class Popup {
    /** The allow-list text area's value. */
    var text: string
    var addSite: Button
    /** The "Add This Site" click handler, once one is registered. */
    var handler: Option<AddSiteHandler>
    /** The cookie header, the lines under it and the "Delete" button. */
    var summary: Summary

    ghost predicate Valid()
      reads this
    {
      (handler.Some? ==> HandlerInvariant(handler.value)) && SummaryInvariant(summary)
    }

    /** The page before its script runs: the text area holds `initialText`, nothing else is set. */
    constructor (initialText: string)
      ensures Valid()
      ensures text == initialText && handler == None
      ensures !addSite.disabled && summary.info == [] && summary.deleteDisabled
    {
      text := initialText;
      addSite := Button("", false);
      handler := None;
      summary := Summary("", "", [], true);
    }

    /** `load`: the text area shows the stored list one entry per line. */
    method Load(stored: StoredList)
      requires Valid()
      modifies this`text
      ensures Valid()
      ensures text == LoadedText(old(text), stored)
    {
      match stored {
        case Found(domains) => text := Join(domains, '\n');
        case Missing => text := "";
        case ReadFailed =>
      }
    }

    /**
     * The active-tab part of `initPopupWindow`: given the tab's hostname (absent
     * when the tab has no URL or it does not parse), label the button with the
     * reduced domain, register the click handler with the parsed list, and enable
     * the button when the domain is not in that list.
     */
    method OpenTab(hostname: Option<string>)
      requires Valid() && handler.None?
      modifies this`addSite, this`handler
      ensures Valid() && text == old(text)
      ensures hostname.None? ==> addSite == old(addSite) && handler == None
      ensures hostname.Some? ==>
                var domain := SecondLevelDomain(hostname.value);
                var entries := Parse(old(text));
                handler == Some(AddSiteHandler(domain, entries)) &&
                addSite == Button(AddSiteLabel(domain), old(addSite.disabled) && domain in entries)
    {
      if hostname.Some? {
        var domain := SecondLevelDomain(hostname.value);
        var current := text;
        var allowedDomains := Parse(current);
        ParsedHandlerInvariant(domain, current);
        var button := addSite.(caption := AddSiteLabel(domain));
        if domain !in allowedDomains {
          button := button.(disabled := false);
        }
        addSite := button;
        handler := Some(AddSiteHandler(domain, allowedDomains));
      }
    }

    /**
     * The add-site click handler: add the domain to the captured list, remove
     * duplicates, sort, and write the list to the text area's value (the write the
     * button evidently intends; the handler itself writes `textContent`, which
     * `TextAreaElement` models). Without a registered handler a click does nothing.
     */
    method ClickAddSite()
      requires Valid()
      modifies this`handler, this`text
      ensures Valid()
      ensures old(handler).None? ==> handler == None && text == old(text)
      ensures old(handler).Some? ==>
                var h := old(handler).value;
                handler == Some(AddSiteHandler(h.domain, AddSite(h.allowedDomains, h.domain))) &&
                text == Join(handler.value.allowedDomains, '\n')
      ensures handler.Some? && IsEntry(handler.value.domain) ==> Parse(text) == handler.value.allowedDomains
    {
      if handler.Some? {
        var h := handler.value;
        var allowedDomains := AddSite(h.allowedDomains, h.domain);
        AddSiteKeepsHandlerInvariant(h);
        handler := Some(AddSiteHandler(h.domain, allowedDomains));
        text := Join(allowedDomains, '\n');
      }
    }

    /** `update`: show the counts and the unwanted sites of `cookies` under the text area's list. */
    method Update(cookies: seq<Cookie>)
      requires Valid() && EntriesArePatterns(text)
      modifies this`summary
      ensures Valid() && text == old(text) && handler == old(handler) && addSite == old(addSite)
      ensures summary == SummaryOf(cookies, Parse(old(text)))
    {
      var entries := Parse(text);
      var shown := BuildSummary(cookies, entries);
      SummaryKeepsInvariant(cookies, entries);
      summary := shown;
    }

    /** The text area's input handler: take the edited text, then `update` (saving is left out). */
    method Input(newText: string, cookies: seq<Cookie>)
      requires Valid() && EntriesArePatterns(newText)
      modifies this`text, this`summary
      ensures Valid()
      ensures text == newText
      ensures summary == SummaryOf(cookies, Parse(newText))
    {
      text := newText;
      Update(cookies);
    }

    /**
     * The "Delete" click handler: one removal request per unwanted cookie of
     * `cookies`, then `update` with `remaining`, the cookies read afterwards.
     */
    method ClickDelete(cookies: seq<Cookie>, remaining: seq<Cookie>) returns (requests: seq<RemovalRequest>)
      requires Valid() && EntriesArePatterns(text)
      modifies this`summary
      ensures Valid()
      ensures requests == RemovalRequests(Unwanted(cookies, Parse(text)))
      ensures summary == SummaryOf(remaining, Parse(text))
    {
      requests := RemovalRequests(Unwanted(cookies, Parse(text)));
      Update(remaining);
    }

    /**
     * `initPopupWindow`: disable "Add This Site", load the stored list, handle the
     * active tab, and show the summary of `cookies`.
     */
    method InitPopupWindow(stored: StoredList, hostname: Option<string>, cookies: seq<Cookie>)
      requires Valid() && handler.None? && EntriesArePatterns(LoadedText(text, stored))
      modifies this`text, this`addSite, this`handler, this`summary
      ensures Valid()
      ensures text == LoadedText(old(text), stored)
      ensures hostname.None? ==> handler == None && addSite == old(addSite).(disabled := true)
      ensures hostname.Some? ==>
                var domain := SecondLevelDomain(hostname.value);
                var entries := Parse(LoadedText(old(text), stored));
                handler == Some(AddSiteHandler(domain, entries)) &&
                addSite == Button(AddSiteLabel(domain), domain in entries)
      ensures summary == SummaryOf(cookies, Parse(LoadedText(old(text), stored)))
    {
      ghost var loaded := LoadedText(text, stored);
      ghost var entries := Parse(loaded);
      addSite := addSite.(disabled := true);
      Load(stored);
      assert text == loaded;
      OpenTab(hostname);
      assert text == loaded;
      Update(cookies);
      assert summary == SummaryOf(cookies, entries);
    }
  }
}
