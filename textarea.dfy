/**
 * The allow-list `textarea` element as the HTML Living Standard (section 4.10.11,
 * "The textarea element") describes it: a value, a child text content (what
 * `textContent` writes) and a dirty value flag. Setting `value` sets the flag;
 * a change of the text content changes the value only while the flag is clear.
 *
 * `load` sets `value`, and the add-site click handler writes `textContent`, so
 * after a load the click no longer reaches what the popup reads and saves.
 */
module TextAreaElement {
  import opened JsStrings
  import opened AllowList
  import opened PopupWindow

  /** The element's value, its child text content and its dirty value flag. */
  datatype TextArea = TextArea(value: string, content: string, dirty: bool)

  /** `textarea.value = v`. */
  function SetValue(t: TextArea, v: string): (r: TextArea)
    ensures r.value == v && r.dirty && r.content == t.content
  {
    t.(value := v, dirty := true)
  }

  /** `textarea.textContent = text`: the value follows only an element not yet dirty. */
  function SetTextContent(t: TextArea, text: string): (r: TextArea)
    ensures r.content == text && r.dirty == t.dirty
    ensures t.dirty ==> r.value == t.value
    ensures !t.dirty ==> r.value == text
  {
    if t.dirty then t.(content := text) else t.(content := text, value := text)
  }

  /** The add-site click's write as the handler has it: to `textContent`. */
  function AddSiteClickAsWritten(t: TextArea, h: AddSiteHandler): TextArea
  {
    SetTextContent(t, Join(AddSite(h.allowedDomains, h.domain), '\n'))
  }

  /** The add-site click's write as the button promises: to `value`. */
  function AddSiteClickIntended(t: TextArea, h: AddSiteHandler): TextArea
  {
    SetValue(t, Join(AddSite(h.allowedDomains, h.domain), '\n'))
  }

  /**
   * After `load` has set the value, the click as written leaves the value, and so
   * the list the popup parses and saves, as it was: a domain that was not in the
   * loaded list is still not in it.
   */
  lemma AddSiteLostAfterLoad(t: TextArea, loaded: string, h: AddSiteHandler)
    ensures var after := AddSiteClickAsWritten(SetValue(t, loaded), h);
            after.value == loaded && Parse(after.value) == Parse(loaded) &&
            (h.domain !in Parse(loaded) ==> h.domain !in Parse(after.value))
  {
  }

  /**
   * A concrete case: with nothing stored, `load` writes the empty string, and a
   * click leaves the parsed list empty, without the domain.
   */
  lemma AddSiteLostWhenNothingStored(t: TextArea, h: AddSiteHandler)
    ensures Parse(AddSiteClickAsWritten(SetValue(t, ""), h).value) == []
  {
    ParseJoin([]);
    assert Join([], '\n') == "";
  }

  /**
   * The intended click writes the value, so the parsed list is the new list, and
   * it holds the domain, whenever the captured list holds proper entries and the
   * domain is one.
   */
  lemma AddSiteClickIntendedSaves(t: TextArea, h: AddSiteHandler)
    requires HandlerInvariant(h) && IsEntry(h.domain)
    ensures var after := AddSiteClickIntended(t, h);
            Parse(after.value) == AddSite(h.allowedDomains, h.domain) && h.domain in Parse(after.value)
  {
    AddSiteKeepsHandlerInvariant(h);
    AddSiteContents(h.allowedDomains, h.domain);
  }
}
