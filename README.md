# Elementor Find & Replace — a Dafny model of its scan and rewrite

Elementor Find & Replace is a WordPress admin tool. It finds and replaces
literal text inside the Elementor layout data of published pages. Elementor
stores each page's layout as one opaque text value under the post-meta key
`_elementor_data`. The tool has two AJAX actions:

- **preview** scans every selected row, counts the occurrences of the find
  text, and reports the pages that contain it;
- **execute** replaces every occurrence in every selected row, writes back
  only the rows whose payload changed, stamps their modified time, and
  reports how many pages it rewrote.

This project models those two data-access routines, the PHP string
primitives they use, and the small pieces of logic in the two handlers: the
case flag and the preview's count.

Modules:

- `PhpStrings` (php_strings.dfy) defines the PHP string primitives.
  `ToLower` is `strtolower` with ASCII folding. `CountMatches` / `SubstrCount`
  is `substr_count`: leftmost, non-overlapping matches. `ReplaceAll`,
  `StrReplace` and `StrIReplace` are `str_replace` and `str_ireplace` with a
  single search string. The lemmas relate counting, lower-casing and
  replacing.
- `FindReplace` (find_replace.dfy) holds the table (`array<Row>`, one row per
  post joined with one of its meta rows) and the SQL `WHERE` clause as
  `Selected`. `FindInPages` and `ReplaceInPages` are the source's loops,
  each proved against a specification function (`Matches`, `Rewrite` /
  `RewriteCount`). Lemmas relate what the preview reports to what the
  execute writes.
- `AjaxHandlers` (ajax_handlers.dfy) covers the request fields, the case
  flag, the preview's reply (its html shape and `count`), and the execute
  handler's call.
- `Scenarios` (scenarios.dfy) gives concrete runs on one-row tables.

A natural expectation is that a second execute right after the first
rewrites nothing. The code does not promise that, and it does not hold:
replacement can create new matches. `PhpStrings.RepeatedReplaceCanMatchAgain`
shows `"aab"` with `"ab"` → `"b"` becoming `"ab"`, which matches again.
Likewise, the replaced text can contain the find text again even when the
replacement does not. The model follows the code.

## Model

| member | source | states |
|---|---|---|
| PhpStrings.ToLower | elementor_find_replace.php:257 | strtolower, folding ASCII 'A'..'Z' only: the result has the input's length. ToLowerAt gives its characters. |
| PhpStrings.ToLowerAt | elementor_find_replace.php:257 | strtolower maps each character to its ASCII lower case. It keeps the length and changes nothing else. |
| PhpStrings.CountMatches | elementor_find_replace.php:255-257 | Definition: the number of leftmost non-overlapping matches of the needle. After a match the scan resumes just past it. Matching is exact, or after ASCII folding of both sides. CountPositiveIffOccurs and CountBound state what the count means. |
| PhpStrings.SubstrCount | elementor_find_replace.php:255 | Definition: substr_count is CountMatches with exact comparison. An empty needle, an error in PHP, is excluded by its requires. |
| PhpStrings.CountPositiveIffOccurs | elementor_find_replace.php:254-260 | The count is above zero if and only if the needle occurs at some position of the haystack (`OccursAt`). The leftmost scan misses no occurrence. |
| PhpStrings.LowerCount | elementor_find_replace.php:254-258 | Counting on lower-cased copies of payload and find text gives exactly the number of case-insensitive leftmost non-overlapping matches in the original payload. These are the same matches str_ireplace replaces. |
| PhpStrings.CountBound | elementor_find_replace.php:255 | Matches do not overlap, so the count times the find text's length is at most the payload's length. |
| PhpStrings.ReplaceAll | elementor_find_replace.php:291-295 | Definition: replace-all, left to right and non-overlapping. It substitutes the leftmost matches CountMatches counts and copies the text between them. An empty search, or a subject shorter than the search, comes back unchanged. |
| PhpStrings.StrReplace | elementor_find_replace.php:292 | Definition: str_replace with one search and one replace string is ReplaceAll with exact comparison. |
| PhpStrings.StrIReplace | elementor_find_replace.php:294 | Definition: str_ireplace with one search and one replace string is ReplaceAll with ASCII-folded comparison. |
| PhpStrings.ReplaceLength | elementor_find_replace.php:291-295 | Replace-all changes the length by (replace length − find length) once per counted match. Replacement and counting see the same matches. |
| PhpStrings.NoMatchUnchanged | elementor_find_replace.php:291-298 | A payload with no match comes back from str_replace or str_ireplace unchanged, so it is never written. |
| PhpStrings.StrReplaceChanges | elementor_find_replace.php:291-298 | A case-sensitive replacement changes the payload if and only if the find text occurs and the replacement differs from it. |
| PhpStrings.SameReplaceUnchanged | elementor_find_replace.php:292 | Replacing a text by itself, case-sensitively, leaves every payload as it was. |
| PhpStrings.RepeatedReplaceCanMatchAgain | elementor_find_replace.php:292 | Replacement can create new matches ("aab" with "ab" → "b" gives "ab"). A second execute is therefore not a no-op in general. |
| FindReplace.Selected | elementor_find_replace.php:244-246 | Definition: the WHERE clause of both queries (repeated at elementor_find_replace.php:280-282). A row is selected when its meta key is `_elementor_data`, its post status is `publish` and its meta value is non-empty. |
| FindReplace.IsHitIffOccurs | elementor_find_replace.php:254-260 | A row is a preview hit if and only if it is selected and the find text occurs in its payload at some position: exactly when case-sensitive, ASCII-folded otherwise (`FoundAt`). |
| FindReplace.Occurrences | elementor_find_replace.php:254-258 | The per-row count is the number of leftmost non-overlapping matches: exact matches when case-sensitive, ASCII-folded matches otherwise. It fits in the payload. |
| FindReplace.FindInPages | elementor_find_replace.php:236-270 | The scan loop returns the result list of the specification `Matches`. Entry k is the id, title and count of the k-th hit row, in row order. The scan has no modifies clause, so it changes no row. |
| FindReplace.MatchesAreHitsInOrder | elementor_find_replace.php:251-266 | The result list holds exactly the selected rows with a count above zero, in ascending row order, each with that row's id, title and occurrence count. |
| FindReplace.NoMatchesIffNoHit | elementor_find_replace.php:260-269 | The result list is empty if and only if no row is a hit. Equivalently, it is empty if and only if the find text occurs at no position of any selected row's payload. |
| FindReplace.RewriteEffect | elementor_find_replace.php:297-313 | A row changes exactly when it is selected and the substitution changes its payload. No-op writes are skipped. Id, title, status and meta key are never touched. |
| FindReplace.ReplaceInPages | elementor_find_replace.php:272-320 | Row i of the table afterwards is `Rewrite` of row i before. A row is written, with the replace-all payload and the new stamp, exactly when it is selected and its payload changes; every other row stays as it was. The returned count is the number of rows written. |
| FindReplace.RewrittenRowIsHit | elementor_find_replace.php:287-298 | Every row the execute writes is a row the preview (same table, same flag) lists. |
| FindReplace.UnoccurringRowNotRewritten | elementor_find_replace.php:291-298 | A row in whose payload the find text occurs at no position is never written. This is the contrapositive of RewrittenRowIsHit, stated through occurrence. |
| FindReplace.RewritesIffHit | elementor_find_replace.php:291-298 | Case-sensitively, with a replacement different from the find text, a row is written if and only if the preview lists it. |
| FindReplace.RewritesOnlyPreviewedRows | elementor_find_replace.php:251-298 | For every written row, the preview's result list contains that row's entry. |
| FindReplace.RewriteCountAtMostSelected | elementor_find_replace.php:285-319 | The returned count is at most the number of selected rows. |
| FindReplace.RewriteCountAtMostMatches | elementor_find_replace.php:285-319 | The returned count is at most the number of pages the preview lists. |
| FindReplace.RewriteCountEqualsMatches | elementor_find_replace.php:285-319 | Case-sensitively, with a replacement different from the find text, the returned count equals the number of pages the preview lists. |
| FindReplace.EmptyFindRewritesNothing | elementor_find_replace.php:291-298 | With an empty find text, str_replace and str_ireplace return the payload unchanged, so the execute writes nothing and returns 0. |
| AjaxHandlers.CaseSensitive | elementor_find_replace.php:184 | Case sensitivity is on exactly when the posted `case_sensitive` field is the string "true". A missing or any other value means case-insensitive. |
| AjaxHandlers.CaseFlagRoundTrip | elementor_find_replace.php:117 | The flag the handlers read back is the checkbox state the page's script posted (as "true" or "false"). |
| AjaxHandlers.AjaxPreview | elementor_find_replace.php:182-212 | The reply's count is the number of matching pages, not of occurrences. It is 0, with the "no occurrences" notice, exactly when no selected row matches, that is, when the find text occurs in no selected row's payload. Otherwise the table lists every match in row order. |
| AjaxHandlers.AjaxExecute | elementor_find_replace.php:222-233 | The execute runs the bulk substitution with the posted find text, replace text and flag. It reports the number of rows rewritten. |
| Scenarios.PhoneNumberScenario | elementor_find_replace.php:251-316 | A number occurring twice on one page: the preview counts 2 occurrences there; the execute rewrites both and reports 1 page. |
| Scenarios.CaseInsensitiveScenario | elementor_find_replace.php:254-258 | Case-insensitively, "hi" and "HI" both count as "Hi" (2); case-sensitively neither does (0). |
| Scenarios.CaseInsensitiveCountsCanDiffer | elementor_find_replace.php:257-298 | Case-insensitively, a listed page can be left unwritten: "AB" replaced by "AB" changes nothing. The execute's count can then be below the preview's. |

## Left out

- Hook registration, the admin menu, the form, and the inline jQuery script (elementor_find_replace.php:16-173) are UI and host plumbing. The only piece modelled is how the script posts the checkbox (`CheckboxValue`).
- Nonce and capability checks (elementor_find_replace.php:176-180, 216-220) are host-framework calls. The handlers are modelled from the point after those checks pass.
- `sanitize_text_field` is a WordPress function whose body is not part of this model. Its output is taken to be its input, and a missing field reads as "".
- `$wpdb`'s SQL and `wp_update_post` are modelled as reads and writes of the in-memory table. The clock (`current_time`) becomes one `Stamp` parameter per execute. The source reads the clock twice per written post, once for `post_modified` (elementor_find_replace.php:311) and once for `post_modified_gmt` (elementor_find_replace.php:312). The two columns and different posts may therefore get slightly different times. The model gives every written row the same pair.
- ReplaceInPages: does not model that the stamp belongs to the post. The source writes the payload by `(post_id, meta_key)` and stamps the post by id with `wp_update_post` (elementor_find_replace.php:299-313). In the database, every join row of a rewritten post therefore shows the new modified time, including rows for its other meta keys such as `_edit_lock`. The model writes payload and stamp into the visited join row only, so other join rows of a rewritten post keep their old `modified`. Duplicate `_elementor_data` rows for one post, all of which the source's update would overwrite with one value, are not modelled either.
- Selected: the model compares meta key, status and empty payload exactly. MySQL collation rules (case-insensitive or trailing-space-insensitive comparison) are not modelled.
- Clearing Elementor's cache (elementor_find_replace.php:229-231) is a foreign call. The success message's text, HTML escaping and edit links (elementor_find_replace.php:195-207, 233) are not modelled; the reply keeps only the html's shape and the count.
- AjaxPreview: an empty find text is excluded by its requires, as it is by the page's script (elementor_find_replace.php:102). PHP's `substr_count` raises an error on an empty needle, and that path is not modelled. The execute handler accepts an empty find text and writes nothing (`EmptyFindRewritesNothing`).
- Strings are sequences of characters, and case folding covers ASCII 'A'..'Z' only. PHP strings are byte strings, and multibyte or locale-dependent folding (strtolower before PHP 8.2) is not modelled.
- Races between a preview and a later execute, and between concurrent requests, are a concurrency concern and are not modelled.
