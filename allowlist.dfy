/**
 * The allow-list as the popup handles it: parsed from the text area (one entry per
 * line, blank lines dropped, sorted, duplicates kept), written back as the lines
 * joined by newlines, and extended by the "Add This Site" button.
 */
module AllowList {
  import opened JsStrings
  import opened JsOrder
  import opened JsSet

  /** `lines.filter(x => x.trim() !== "")`, in the lines' own order. */
  function NonBlankLines(lines: seq<string>): (kept: seq<string>)
    ensures |kept| <= |lines|
  {
    if lines == [] then []
    else
      var rest := NonBlankLines(lines[1..]);
      if Trim(lines[0]) != "" then [lines[0]] + rest else rest
  }

  /** The filter keeps each line that is not blank as often as it occurs, and no blank one. */
  lemma {:induction false} NonBlankLinesCount(lines: seq<string>)
    ensures forall x :: multiset(NonBlankLines(lines))[x] == if Trim(x) == "" then 0 else multiset(lines)[x]
  {
    if lines != [] {
      NonBlankLinesCount(lines[1..]);
      assert lines == [lines[0]] + lines[1..];
      assert multiset(lines) == multiset{lines[0]} + multiset(lines[1..]);
    }
  }

  /** The body of `getAllowedDomainsFromUI`: the text area's value to the list of entries. */
  function Parse(text: string): seq<string>
  {
    SortStrings(NonBlankLines(Split(text, '\n')))
  }

  /** A string that can stand as one line of the text area and survive parsing. */
  predicate IsEntry(e: string)
  {
    !IsBlank(e) && '\n' !in e
  }

  /**
   * The parsed list holds exactly the lines that are not blank, untrimmed, each as
   * often as it occurs, in ascending order, and no more entries than lines.
   */
  lemma ParseContents(text: string)
    ensures var lines := Split(text, '\n');
            var entries := Parse(text);
            Sorted(entries) && |entries| <= |lines| &&
            forall x :: multiset(entries)[x] == if IsBlank(x) then 0 else multiset(lines)[x]
  {
    var lines := Split(text, '\n');
    var entries := Parse(text);
    NonBlankLinesCount(lines);
    assert |entries| == |multiset(entries)| == |multiset(NonBlankLines(lines))|;
    forall x ensures multiset(entries)[x] == if IsBlank(x) then 0 else multiset(lines)[x] {
      TrimEmptyIffBlank(x);
    }
  }

  /** Every parsed entry is a line that is not blank, so none contains a newline. */
  lemma ParseEntries(text: string)
    ensures forall e :: e in Parse(text) ==> IsEntry(e) && e in Split(text, '\n')
  {
    forall e | e in Parse(text) ensures IsEntry(e) && e in Split(text, '\n') {
      ParseEntry(text, e);
    }
  }

  lemma ParseEntry(text: string, e: string)
    requires e in Parse(text)
    ensures IsEntry(e) && e in Split(text, '\n')
  {
    var lines := Split(text, '\n');
    var kept := NonBlankLines(lines);
    NonBlankLinesCount(lines);
    assert e in multiset(Parse(text));
    assert multiset(Parse(text)) == multiset(kept);
    TrimEmptyIffBlank(e);
    assert multiset(lines)[e] > 0;
    var k :| 0 <= k < |lines| && lines[k] == e;
  }

  /**
   * Round trip of the text area: writing a sorted list of entries one per line
   * (as `load` does) and parsing it again gives back the same list.
   */
  lemma {:induction false} ParseJoin(entries: seq<string>)
    requires Sorted(entries)
    requires forall k :: 0 <= k < |entries| ==> IsEntry(entries[k])
    ensures Parse(Join(entries, '\n')) == entries
  {
    if entries == [] {
      assert Split("", '\n') == [""];
      TrimEmptyIffBlank("");
    } else {
      SplitJoin(entries, '\n');
      NonBlankLinesOfEntries(entries);
      SortStringsOfSorted(entries);
    }
  }

  lemma {:induction false} NonBlankLinesOfEntries(entries: seq<string>)
    requires forall k :: 0 <= k < |entries| ==> IsEntry(entries[k])
    ensures NonBlankLines(entries) == entries
  {
    if entries != [] {
      TrimEmptyIffBlank(entries[0]);
      NonBlankLinesOfEntries(entries[1..]);
    }
  }

  /** What the storage holds after a save is read back by a load unchanged. */
  lemma ParseFixedPoint(text: string)
    ensures Parse(Join(Parse(text), '\n')) == Parse(text)
  {
    ParseEntries(text);
    ParseContents(text);
    ParseJoin(Parse(text));
  }

  /**
   * The click handler's update: `allowedDomains.push(domain)` followed by
   * `allowedDomains = [...new Set(allowedDomains)].sort()`.
   */
  function AddSite(entries: seq<string>, domain: string): seq<string>
  {
    SortStrings(Distinct(entries + [domain]))
  }

  /**
   * After adding, the list holds the domain and every previous entry and nothing
   * else, each exactly once, in ascending order.
   */
  lemma AddSiteContents(entries: seq<string>, domain: string)
    ensures var r := AddSite(entries, domain);
            domain in r && (forall e :: e in entries ==> e in r) &&
            (forall x :: x in r ==> x in entries || x == domain) &&
            NoDuplicates(r) && Sorted(r)
  {
    var d := Distinct(entries + [domain]);
    var r := AddSite(entries, domain);
    assert multiset(r) == multiset(d);
    forall x ensures x in r <==> x in d {
      assert x in multiset(r) <==> x in multiset(d);
    }
    assert domain in entries + [domain];
  }

  /** Adding a domain that is already there changes nothing. */
  lemma AddSiteIdempotent(entries: seq<string>, domain: string)
    ensures AddSite(AddSite(entries, domain), domain) == AddSite(entries, domain)
  {
    var r := AddSite(entries, domain);
    AddSiteContents(entries, domain);
    DistinctOfNoDuplicates(r);
    assert Distinct(r + [domain]) == r by {
      assert (r + [domain])[..|r|] == r;
    }
    SortStringsOfSorted(r);
  }

  /**
   * When the added domain is a proper entry, writing the new list to the text area
   * and parsing it again gives back the new list.
   */
  lemma AddSiteThenParse(entries: seq<string>, domain: string)
    requires forall e :: e in entries ==> IsEntry(e)
    requires IsEntry(domain)
    ensures Parse(Join(AddSite(entries, domain), '\n')) == AddSite(entries, domain)
  {
    var r := AddSite(entries, domain);
    AddSiteContents(entries, domain);
    ParseJoin(r);
  }
}
