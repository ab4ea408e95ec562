/** The parts of the two AJAX handlers that are logic rather than host
    plumbing: reading the request's fields, the case flag, and the preview's
    reply built from the scan's result. */
module AjaxHandlers {
  import opened PhpStrings
  import opened FindReplace

  /** The request's form fields ($_POST), by name. */
  type PostFields = map<string, string>

  /** A text field as the handlers use it. A missing field reads as the
      empty string; sanitize_text_field is taken to return its input. */
  function Field(posted: PostFields, name: string): string {
    if name in posted then posted[name] else ""
  }

  /** The case flag: set and identical to "true". */
  function CaseSensitive(posted: PostFields): (on: bool)
    ensures on <==> Field(posted, "case_sensitive") == "true"
  {
    "case_sensitive" in posted && posted["case_sensitive"] == "true"
  }

  /** How the admin page's script sends the checkbox: jQuery turns the
      boolean into the text "true" or "false". */
  function CheckboxValue(checked: bool): string {
    if checked then "true" else "false"
  }

  /** The flag the handlers read is the checkbox state the page posted. */
  lemma CaseFlagRoundTrip(posted: PostFields, checked: bool)
    ensures CaseSensitive(posted["case_sensitive" := CheckboxValue(checked)]) == checked
  {
  }

  /** The two shapes of the preview's html: the "No occurrences found."
      notice, or the table of matching pages. */
  datatype PreviewHtml = NoOccurrencesNotice | ResultsTable(entries: seq<Match>)

  /** The preview's success payload: its html and its count. */
  datatype PreviewReply = PreviewReply(html: PreviewHtml, count: nat)

  /** ajax_preview after the nonce and capability checks. The count is the
      number of matching pages, 0 exactly when no selected row contains the
      find text; the html lists every match, in row order. */
  method AjaxPreview(posts: array<Row>, posted: PostFields) returns (reply: PreviewReply)
    requires Field(posted, "find_text") != ""
    ensures var matches := Matches(posts[..], Field(posted, "find_text"), CaseSensitive(posted));
      reply.count == |matches| &&
      reply.html == (if matches == [] then NoOccurrencesNotice else ResultsTable(matches))
    ensures reply.count == 0 <==>
      forall i | 0 <= i < posts.Length :: !IsHit(posts[i], Field(posted, "find_text"), CaseSensitive(posted))
    ensures reply.count == 0 <==>
      forall i: nat, j: nat | i < posts.Length && Selected(posts[i]) ::
        !FoundAt(posts[i].payload, Field(posted, "find_text"), CaseSensitive(posted), j)
  {
    var findText := Field(posted, "find_text");
    var caseSensitive := CaseSensitive(posted);
    var results := FindInPages(posts, findText, caseSensitive);
    NoMatchesIffNoHit(posts[..], findText, caseSensitive);
    if results == [] {
      return PreviewReply(NoOccurrencesNotice, 0);
    }
    reply := PreviewReply(ResultsTable(results), |results|);
  }

  /** ajax_execute after the nonce and capability checks: the bulk
      substitution with the request's find text, replace text and flag. The
      result is the page count of its success message. */
  method AjaxExecute(posts: array<Row>, posted: PostFields, now: Stamp) returns (updatedCount: nat)
    modifies posts
    ensures forall i | 0 <= i < posts.Length ::
      posts[i] == Rewrite(old(posts[i]), Field(posted, "find_text"), Field(posted, "replace_text"),
                          CaseSensitive(posted), now)
    ensures updatedCount
         == RewriteCount(old(posts[..]), Field(posted, "find_text"), Field(posted, "replace_text"),
                         CaseSensitive(posted))
  {
    var findText := Field(posted, "find_text");
    var replaceText := Field(posted, "replace_text");
    var caseSensitive := CaseSensitive(posted);
    updatedCount := ReplaceInPages(posts, findText, replaceText, caseSensitive, now);
  }
}
