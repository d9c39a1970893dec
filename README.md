# Rock the Slackbot: a verified model of its core

Rock the Slackbot is a WordPress plugin. It sends Slack notifications to
"outgoing webhooks" when things happen on a site: posts, comments, users,
menus and upgrades. This project models the parts of the plugin that make
decisions or compute something, and proves what those parts promise.

- **The diff engine** (`Rock_The_Slackbot_Diff`, module `Diff`). `compare`
  splits two strings into characters, or into lines on any PCRE `\R`
  break. It skips the common prefix and suffix, then fills the table of
  longest-common-subsequence lengths for the middle region. Finally it
  backtracks from the last cell, preferring an insertion to a deletion,
  and reassembles the full diff.
  - Each phase is a method with its loops and invariants. `compute_table`
    fills a real two-dimensional array.
  - The methods are proved equal to specification functions (`Lcs`,
    `Walk`, `DiffOf`).
  - The lemmas prove that the diff is an edit script: its
    UNMODIFIED+DELETED entries read back the first sequence and its
    UNMODIFIED+INSERTED entries the second. They also prove the diff keeps
    a longest common subsequence unmodified, so no edit script is shorter.
- **The diff renderers** (module `DiffFormat`): `to_string`, `to_html`,
  `to_table` and `get_cell_content`.
  - Each renderer is a loop proved equal to a rendering function.
  - The text and HTML forms read back to the diff.
  - Down the table, the left column shows exactly the first sequence and
    the right column exactly the second.
- **Choosing webhooks** (`Rock_The_Slackbot`, module `Webhooks`):
  - merging the network and site lists;
  - dropping deactivated webhooks;
  - matching the requested events and excluded post types;
  - lookup by ID;
  - `unformat_slack_links`.

  The stored option arrays are parameters.
- **Webhook settings** (`Rock_The_Slackbot_Admin`, module `Admin`):
  - validating and normalising a posted webhook record;
  - saving it into the stored list on add or edit;
  - looking one up by ID;
  - removing records by ID.

  `time()` and `uniqid()` are parameters.
- **Notification rules** (`Rock_The_Slackbot_Hooks`, module
  `Notifications`):
  - the three-level override of channel, username and icons in
    `prepare_payload`;
  - the events raised by post and comment status changes;
  - the guards, item count and wording of the upgrade notification.
- **PHP built-ins** the above rely on (module `Php`), limited to the
  behaviour used: `empty()` on strings, `trim`, `explode`, one-character
  `str_replace`, ASCII `strtolower` and `htmlspecialchars`. `Wrappers`
  holds `Option` and `Result`.

A PHP array with optional keys is a datatype with `Option` fields. `false`
returned for "no webhooks" is `None`. An error object is a `Failure`.

## Model

| member | source | states |
|---|---|---|
| Php.Trim | includes/admin.php:1068 | `trim` never lengthens a string, and its result neither starts nor ends with a space, tab, newline, carriage return, NUL or vertical tab |
| Php.TrimDropsOnlyTrimChars | includes/admin.php:1068 | everything `trim` removes, at either end, is a trim character |
| Php.TrimKeepsFirst | includes/admin.php:1092-1096 | a string that starts with a non-trim character keeps that first character after `trim` |
| Php.TrimIdempotent | includes/admin.php:1107 | trimming twice is trimming once |
| Php.TrimKeepsOut | includes/admin.php:1102 | `trim` introduces no character |
| Php.Explode | rock-the-slackbot.php:454 | `explode` on one character yields at least one piece, and no piece contains the delimiter |
| Php.ImplodeExplode | rock-the-slackbot.php:454 | joining the pieces of `explode` with the delimiter gives the string back |
| Php.ExplodeImplode | rock-the-slackbot.php:454 | splitting a join of delimiter-free pieces gives the pieces back |
| Php.ExplodeKeepsOut | rock-the-slackbot.php:454 | a character absent from the string is absent from every piece |
| Php.ExplodeCount | includes/hooks.php:737-741 | `explode` on one character yields one more piece than there are delimiters |
| Php.RemoveChar | includes/admin.php:1102 | `str_replace(':', '', s)` leaves no `:`, never lengthens, and adds no character |
| Php.RemoveCharAppend | includes/admin.php:1102 | removing a character distributes over concatenation |
| Php.RemoveAbsentChar | includes/admin.php:1102 | removing an absent character changes nothing |
| Php.ToLower | includes/hooks.php:710 | `strtolower` keeps the length and lowers each ASCII letter in place |
| Php.HtmlSpecialCharsEscapesAll | includes/diff.php:249 | escaped text contains no `<`, `>`, `"` or `'` |
| Php.HtmlSpecialCharsRoundTrip | includes/diff.php:249 | decoding escaped text recovers the original |
| Diff.SplitLines | includes/diff.php:52-53 | `preg_split('/\R/')` yields at least one line (the empty string is one empty line), and no line contains a break |
| Diff.SplitLinesJoin | includes/diff.php:52-53 | for text whose only breaks are `\n`, joining the lines with `\n` gives the text back |
| Diff.Characters | includes/diff.php:45-48 | character mode has one element per character, in order |
| Diff.SkipCommonPrefix | includes/diff.php:60-62 | the prefix loop stops at `CommonPrefixFrom`, the end of the common prefix |
| Diff.CommonPrefixIsLongest | includes/diff.php:60-62 | the skipped prefix is common to both sequences and cannot be extended |
| Diff.SkipCommonSuffix | includes/diff.php:65-68 | the suffix loop leaves `end1 = |s1|-1-k` and `end2 = |s2|-1-k` for the common suffix length `k` |
| Diff.CommonSuffixIsLongest | includes/diff.php:65-68 | the skipped suffix is common to both sequences, never reaches into the prefix, and cannot be extended |
| Diff.ComputeTable | includes/diff.php:106-136 | the table has `length1+1` rows and `length2+1` columns, and cell [i][j] is the LCS length of the first i and first j middle elements (so row 0 and column 0 are zero) |
| Diff.FillRow | includes/diff.php:116-131 | one pass of the outer loop fills row `index1` by the recurrence, keeping every earlier row |
| Diff.LcsStep | includes/diff.php:125-129 | the table recurrence: diagonal + 1 on equal elements, else the larger of the cells above and to the left |
| Diff.LcsBounds | includes/diff.php:125-129 | LCS lengths never decrease along a row or a column, and neighbouring cells differ by at most one |
| Diff.Step | includes/diff.php:156-178 | each backtracking move decreases `index1 + index2`, so the backtracker terminates |
| Diff.StepFacts | includes/diff.php:156-178 | a move consumes exactly the element its entry names, and lowers the LCS length by one exactly on a match |
| Diff.BacktrackStep | includes/diff.php:156-178 | the branch taken from the table cells is the specification move `Step`: match, then insertion when the left cell is equal, else deletion |
| Diff.GeneratePartialDiff | includes/diff.php:147-185 | the entries, reversed, are the walk from the last cell to [0][0]; there are `length1 + length2 - k` of them, where k, their UNMODIFIED count, is the table's final cell |
| Diff.WalkIsOptimalEditScript | includes/diff.php:147-185 | the walk is an edit script of the middle regions that keeps an LCS unmodified, with `|a| + |b| - Lcs(a, b)` entries |
| Diff.MiddleDiff | includes/diff.php:71-74 | the table and backtracking steps together yield the walk over the untrimmed middle regions |
| Diff.Reassemble | includes/diff.php:77-88 | reassembly is the prefix as UNMODIFIED, the partial diff popped into forward order, then the suffix as UNMODIFIED (text from the first sequence) |
| Diff.Compare | includes/diff.php:39-93 | `compare` returns `DiffOf` of its inputs, an edit script from the first sequence to the second |
| Diff.EditScriptLength | includes/diff.php:39-93 | any edit script has `|a| + |b| - k` entries for its k UNMODIFIED entries, and k is at most each length |
| Diff.AssembleIsEditScript | includes/diff.php:77-88 | any shared prefix and suffix, reattached around the walk, give an edit script of the whole sequences |
| Diff.DiffOfIsEditScript | includes/diff.php:39-93 | the UNMODIFIED+DELETED entries of the diff read back the first sequence, the UNMODIFIED+INSERTED entries the second, and the diff has `|s1| + |s2| - k` entries |
| Diff.LcsIsMaximal | includes/diff.php:106-185 | no edit script keeps more elements unmodified than the LCS length |
| Diff.LcsCommonPrefix | includes/diff.php:60-62 | a common prefix adds at most its own length to the LCS length |
| Diff.LcsCommonSuffix | includes/diff.php:65-68 | a common suffix adds exactly its own length to the LCS length |
| Diff.AssembleIsOptimal | includes/diff.php:60-88 | trimming the common prefix and suffix loses nothing: the assembled diff keeps `Lcs(s1, s2)` elements |
| Diff.DiffOfSequencesIsOptimal | includes/diff.php:39-93 | the diff of two sequences keeps a longest common subsequence unmodified |
| Diff.DiffOfIsMinimal | includes/diff.php:39-93 | no edit script between the two inputs is shorter than the one `compare` returns |
| Diff.DiffOfSame | includes/diff.php:60-62 | comparing a sequence with itself marks every element UNMODIFIED |
| Diff.WalkAgainstNothing | includes/diff.php:166-178 | against an empty second region, the backtracker deletes every element |
| Diff.WalkFromNothing | includes/diff.php:166-172 | from an empty first region, the backtracker inserts every element |
| Diff.DiffAgainstEmpty | includes/diff.php:39-93 | a sequence compared with the empty sequence is all DELETED |
| Diff.DiffFromEmpty | includes/diff.php:39-93 | the empty sequence compared with a sequence is all INSERTED |
| Diff.CompareWithEmpty | includes/diff.php:43-48 | in character mode, `compare(A, "")` is all DELETED and `compare("", B)` all INSERTED |
| Diff.CompareEmptyLines | includes/diff.php:52-53 | in line mode, `compare("", "")` is one UNMODIFIED empty line, not the empty diff |
| Diff.SplitThreeLines | includes/diff.php:52-53 | three break-free lines joined by `\n` split back into those lines |
| Diff.ReplacedMiddle | includes/diff.php:166-172 | where one middle element differs, the deletion comes before the insertion in forward order |
| Diff.CompareTieBreak | includes/diff.php:82-84 | `compare("p\nx\nq", "p\ny\nq")` with x ≠ y is `[p U, x D, y I, q U]` |
| DiffFormat.ToString | includes/diff.php:197-220 | `to_string` writes, per entry and in order, its prefix (`"  "`, `"- "`, `"+ "`), its text and the separator |
| DiffFormat.TextRoundTrip | includes/diff.php:197-220 | with the default separator `"\n"` and single-line texts, reading the text form line by line gives the diff back |
| DiffFormat.ToHtml | includes/diff.php:233-259 | `to_html` writes, per entry and in order, its escaped text inside `span`, `del` or `ins`, then the separator |
| DiffFormat.HtmlRoundTrip | includes/diff.php:233-259 | whatever the separator, the HTML form reads back to the diff |
| DiffFormat.RunEnd | includes/diff.php:334-337 | a run ends at the end of the diff or at the first entry of another type |
| DiffFormat.RunEndCovers | includes/diff.php:334-337 | every entry in a run has the run's type |
| DiffFormat.GetCellContent | includes/diff.php:328-342 | `get_cell_content` advances the by-reference index to the end of the run and returns one span per entry of it |
| DiffFormat.RowAt | includes/diff.php:279-299 | each row starts at the current index and ends strictly after it, so `to_table` terminates; a DELETED run is paired with the INSERTED run after it |
| DiffFormat.ToTable | includes/diff.php:269-316 | `to_table` writes `<table class="diff">`, the rows in order, then `</table>` and a newline |
| DiffFormat.RowOldsNews | includes/diff.php:279-299 | a row's left cell shows the entries it takes from the first sequence, its right cell those from the second |
| DiffFormat.ColumnsShowBothSequences | includes/diff.php:269-316 | down the table, the left column shows exactly the first sequence and the right column exactly the second, each element once and in order |
| DiffFormat.CellIsSpans | includes/diff.php:328-342 | a cell is the spans of its entries' texts in order |
| DiffFormat.SpansInjective | includes/diff.php:335 | different texts make different cells |
| DiffFormat.CellsEqual | includes/diff.php:302-303 | two cells are equal exactly when they show the same texts |
| DiffFormat.RowClasses | includes/diff.php:302-303 | cell classes: an UNMODIFIED row is Unmodified on both sides; an INSERTED row is Blank beside Inserted; a DELETED row is Deleted beside Inserted, or beside Blank when nothing is inserted after it (unless both cells show the same texts) |
| Webhooks.NonEmpty | rock-the-slackbot.php:428 | a list is returned exactly when it is non-empty, `false` otherwise |
| Webhooks.Select | rock-the-slackbot.php:421-425 | a filtering `foreach` never yields more hooks than it reads |
| Webhooks.SelectAppend | rock-the-slackbot.php:421-425 | filtering preserves order: the selection of a concatenation is the concatenation of the selections |
| Webhooks.SelectMembers | rock-the-slackbot.php:421-425 | the selection holds exactly the prepared versions of the accepted hooks |
| Webhooks.AllOutgoingWebhooks | rock-the-slackbot.php:382-402 | network hooks come first, then site hooks, only when network hooks are asked for and the plugin is network-active; otherwise only the site hooks |
| Webhooks.ActiveOutgoingWebhooks | rock-the-slackbot.php:411-429 | the loop over all outgoing webhooks, network ones included, returns the non-deactivated hooks in order, or `false` when none remain |
| Webhooks.ActiveHooksMembers | rock-the-slackbot.php:382-429 | a hook is active exactly when it is stored on the site, or on the network while the plugin is network-active, and is not deactivated |
| Webhooks.ActiveMembers | rock-the-slackbot.php:421-425 | a hook is kept exactly when its `deactivate` is unset or not positive |
| Webhooks.ActiveAppend | rock-the-slackbot.php:421-425 | dropping deactivated hooks keeps the order of the rest |
| Webhooks.RequestedEventsAreNames | rock-the-slackbot.php:453-455 | requested events given as a string are split on commas after removing spaces, so no name holds a space or a comma |
| Webhooks.HasRequestedEvent | rock-the-slackbot.php:516-548 | the event loop succeeds exactly when some requested event is set on the hook, has `active == 1`, and is not excluded for the passed post types |
| Webhooks.HookIsWanted | rock-the-slackbot.php:474-548 | a hook is skipped when the passed post types meet its own or network exclusions; otherwise it is kept when it has events and the event loop succeeds |
| Webhooks.OutgoingWebhooks | rock-the-slackbot.php:440-556 | starting from the stored lists: no active hooks gives `false`; no events gives the active list unchanged; otherwise the result is the wanted active hooks in order (or `false` when empty) |
| Webhooks.FilteredMembers | rock-the-slackbot.php:474-554 | a hook is in the result exactly when it is active and wanted, with its exclusion strings split into lists |
| Webhooks.FilteredAppend | rock-the-slackbot.php:544-554 | the result follows the order of the active list and is no longer than it, so each hook appears at most once |
| Webhooks.PreparedKeepsIdentity | rock-the-slackbot.php:484-503 | splitting the exclusion strings in place changes nothing else, and keeps the list each of `exclude_post_types` and `network_exclude_post_types` stands for |
| Webhooks.FirstWithId | rock-the-slackbot.php:575-580 | a found hook is in the list and has the ID; nothing is found exactly when no hook has it |
| Webhooks.FirstWithIdIsFirst | rock-the-slackbot.php:575-580 | the hook found is the first with that ID |
| Webhooks.FindHook | rock-the-slackbot.php:575-582 | the loop with early return finds the first hook with the ID |
| Webhooks.OutgoingWebhook | rock-the-slackbot.php:567-583 | `get_outgoing_webhook` is the first hook with the ID among all outgoing webhooks |
| Webhooks.LinkEnd | rock-the-slackbot.php:240 | a match ends at a `>` past `<http` and one more character, with no `>` before it |
| Webhooks.LinkEndOfFormatted | rock-the-slackbot.php:240 | in `<url>` followed by anything, where `url` is `http` in any case, at least one more character and no `>`, the match ends at the bracket closing `url` |
| Webhooks.LinkEndFindsLinks | rock-the-slackbot.php:240 | the pattern matches at the front of a text exactly when the text starts with `<url>` for such a `url` |
| Webhooks.UnformatSlackLinks | rock-the-slackbot.php:239-241 | unformatting never lengthens the text; what it does at each position is stated by `UnformatLink` (a link), `UnformatStrayBracket` (a `<` opening no link) and `UnformatPlainChar` (any other character) |
| Webhooks.UnformatLink | rock-the-slackbot.php:239-241 | a formatted link `<url>` becomes `url`, and the rest is unformatted on its own |
| Webhooks.UnformatStrayBracket | rock-the-slackbot.php:239-241 | a `<` at which no `<url>` starts (`a<b`, `<b>`, `<http>`, an unclosed `<http…`) is copied as it is |
| Webhooks.UnformatNoLinks | rock-the-slackbot.php:239-241 | text in which no `<url>` starts at any position is left unchanged, `<` included |
| Webhooks.UnformatPlainChar | rock-the-slackbot.php:239-241 | a character other than `<` is copied as is |
| Webhooks.UnformatPlainText | rock-the-slackbot.php:239-241 | text without `<` is left unchanged |
| Admin.NormalisedChannelIsMarked | includes/admin.php:1088-1098 | a non-empty channel, once normalised, starts with `#` or `@` |
| Admin.NormaliseChannelIdempotent | includes/admin.php:1088-1098 | normalising a channel twice is normalising it once |
| Admin.WrappedEmojiShape | includes/admin.php:1101-1103 | a wrapped emoji is `:`, a trimmed name without colons, and `:` |
| Admin.WrapEmojiIdempotent | includes/admin.php:1101-1103 | wrapping an emoji twice is wrapping it once |
| Admin.ValidationErrors | includes/admin.php:1058-1085 | the errors name a missing or empty name, and a missing or empty webhook URL, and nothing else |
| Admin.ValidateOutgoingWebhook | includes/admin.php:1049-1155 | the step-by-step validation returns the errors when there are any, else the record with every field normalised (`ValidationResult`) |
| Admin.NormaliseEvents | includes/admin.php:1118-1134 | the by-reference loop normalises the channel of each event, keeping the events and their other settings |
| Admin.ValidationFailsIff | includes/admin.php:1137-1154 | validation fails exactly when the name or the webhook URL is missing or empty |
| Admin.ValidatedFields | includes/admin.php:1058-1108 | after validation the name and URL are trimmed, a given channel starts with `#` or `@`, a given emoji is wrapped, a given icon URL is trimmed, an empty channel, emoji or icon URL is left as posted, and the ID, dates and event names are unchanged |
| Admin.ValidatedEvents | includes/admin.php:1118-1134 | each event's non-empty channel starts with `#` or `@` after validation, an event without a channel is left as posted, and no other event setting changes |
| Admin.SplitPostTypesFacts | includes/admin.php:1111-1115 | a non-empty string becomes a list of pieces without spaces or commas that, joined by commas, give the string without its spaces; a list or an empty setting is kept |
| Admin.ValidatedPostTypes | includes/admin.php:1111-1115 | after validation the network-excluded post types are split as `SplitPostTypesFacts` states, and a posted list is kept as it is |
| Admin.NormaliseChannelFieldIdempotent | includes/admin.php:1088-1098 | normalising an optional channel field twice is normalising it once |
| Admin.TrimFieldIdempotent | includes/admin.php:1106-1108 | trimming an optional field twice is trimming it once |
| Admin.WrapEmojiFieldIdempotent | includes/admin.php:1101-1103 | wrapping an optional emoji field twice is wrapping it once |
| Admin.ValidatedIdempotent | includes/admin.php:1049-1155 | validating an already validated record changes nothing |
| Admin.OutgoingWebhookSetting | includes/admin.php:842-857 | lookup by ID in the site list, or the network list when asked, returns the first hook with that ID |
| Admin.ReplaceById | includes/admin.php:991-1014 | an edit keeps the list's length and replaces exactly the hooks with the edited ID |
| Admin.ReplaceEditedHook | includes/admin.php:991-1014 | the by-reference loop replaces every saved hook with the edited ID by the posted record, with its modification date set to now |
| Admin.UpdateOutgoingWebhooksSetting | includes/admin.php:966-1039 | a value not from the edit form is returned as is; an invalid record returns the saved list; an edit replaces by ID; an add appends one record with a fresh ID and both dates set to now |
| Admin.EditKeepsOthers | includes/admin.php:991-1014 | hooks with other IDs keep their place and content |
| Admin.EditOfMissingIdChangesNothing | includes/admin.php:991-1014 | editing an ID that is not saved leaves the list unchanged and adds nothing |
| Admin.AddedHookFacts | includes/admin.php:1020-1030 | an add keeps the saved hooks and appends one with the fresh ID, equal creation and modification dates, and the posted fields |
| Admin.EditAlwaysRefreshesDate | includes/admin.php:998-1009 | any saved hook matched by ID counts as modified, so its modification date is always refreshed |
| Admin.RemainingMembers | includes/admin.php:1190-1199 | exactly the hooks with another ID, or no ID, remain |
| Admin.RemainingAppend | includes/admin.php:1190-1199 | deletion keeps the order of the remaining hooks |
| Admin.DeleteOutgoingWebhook | includes/admin.php:1170-1216 | an empty ID deletes nothing; the option is updated exactly when some hook has the ID; the stored list is the remaining hooks reindexed, or null when none remain |
| Admin.DeletedIdIsGone | includes/admin.php:1190-1199 | after a deletion, no remaining hook has the deleted ID |
| Notifications.EventOverrides | includes/hooks.php:162-168 | event-level settings apply exactly when an event is given and the webhook has non-empty settings for it |
| Notifications.PreparePayload | includes/hooks.php:159-188 | each of channel, username, icon_emoji and icon_url ends with the event value if set, else the webhook value if set, else the payload's own; other keys pass through; the attachments are set |
| Notifications.PrepareSetting | includes/hooks.php:173-181 | one turn of the loop sets its key by that precedence and changes no other key |
| Notifications.NoEventNoOverride | includes/hooks.php:162-181 | without a usable event, only the webhook's settings override the payload |
| Notifications.ChosenIsPresentIfAnySet | includes/hooks.php:173-181 | a key set by the webhook or the event ends non-empty |
| Notifications.PostStatusSilentIff | includes/hooks.php:1417-1440 | a post status change raises no event exactly when the status is unchanged, the new status is auto-draft, inherit or trash, or a draft comes from draft, auto-draft or inherit |
| Notifications.PostStatusEventNamesStatus | includes/hooks.php:1431-1456 | draft, pending, future and publish raise their own event, and any other new status raises `post_unpublished` |
| Notifications.CommentNotificationIff | includes/hooks.php:2675-2699 | a comment status change raises an event exactly for a change into unapproved, approved, spam or trash, and the event names that status |
| Notifications.UpgradeType | includes/hooks.php:709-716 | only an update (in any case) of core, a plugin or a theme has an upgrade type |
| Notifications.UpgradeEventIff | includes/hooks.php:709-721 | an upgrade raises an event exactly for those updates, and the event is the lower-cased type followed by `_updated` (so `core_updated`, `plugin_updated` or `theme_updated`) |
| Notifications.UpgradeItemCount | includes/hooks.php:732-741 | an upgrade counts at least one item, and core exactly one |
| Notifications.UpgradeItemCountOfList | includes/hooks.php:732-741 | a plugin or theme upgrade counts the entries of the list under its key (the plural for a bulk upgrade), or one more than the commas of a string there; a missing or empty entry counts as one item |
| Notifications.UpgradeMessageVerb | includes/hooks.php:763-779 | a plugin or theme message starts "The following WordPress {type} has been updated" for one item, and "…{type}s have been updated" otherwise |
| Notifications.UpgradeMessageCore | includes/hooks.php:763-787 | a core message starts "WordPress core has been updated", then "from version X" only when the old version is known, then "to" the new version |
| Notifications.UpgradeMessageEndsWithSite | includes/hooks.php:795 | every upgrade message ends with the site name and its URL as a Slack link |

## Left out

- PHP loose `==` is modelled as exact equality. This covers line comparison in `compare`, and the ID, status and `active == 1` comparisons. In line mode the source treats lines such as `"1"` and `"01"` as equal. UNMODIFIED entries carry the first sequence's text, so there the UNMODIFIED+INSERTED entries would not spell out the second input. Character mode is unaffected.
- Array keys are strings here. PHP turns numeric string keys into integers; that is not modelled.
- An event's `active` and a hook's `deactivate` are integers here; the form's string values are not modelled.
- `\R` is the non-UTF PCRE set: `\r\n`, `\n`, `\r`, vertical tab, form feed and NEL (U+0085).
- `htmlspecialchars` uses the PHP 8.1 default flags, so `'` becomes `&#039;`. Strings are sequences of characters; bytes and encodings are not modelled.
- `array_intersect` given a string post type is modelled as no intersection (PHP 7 returns null). PHP 8 throws a TypeError there.
- The events of a webhook form an unordered map. PHP arrays keep insertion order, but no modelled result depends on it.
- Admin.DeleteOutgoingWebhook: builds the list of kept hooks, rather than `unset` followed by `array_values`. The result is the same reindexed list.
- Admin.ValidateOutgoingWebhook: accepts a name or URL that is only whitespace, as the source does, and stores it trimmed to empty.
- Notifications.CommentNotificationEvent: an unknown comment status passes the empty event to `get_outgoing_webhooks`, which returns every active webhook; the empty message then returns early. The model folds both into "no notification".
- The post status, comment status and upgrade handlers also return early when `get_outgoing_webhooks` finds no webhook for the event (includes/hooks.php:1459-1464, 2702-2707, 724-729). The model states which event each change raises; that lookup is `Webhooks.OutgoingWebhooks`, and the step joining the two is not modelled.
- Settings errors (`add_settings_error`) are not modelled.
- The transient saving a rejected new record is not modelled.
- The `_wp_http_referer` rewrite after an add is not modelled.
- The page and nonce checks, redirect and `exit` of `delete_outgoing_webhook` are not modelled.
- The option reads and writes (`get_option`, `update_option`) are not modelled; the stored lists are parameters and results.
- `time()`, `uniqid()`, `$wp_version`, the current user and the site name and URL are parameters of the members that use them.
- The pre-upgrade transient is not modelled; the core version it holds is a parameter.
- Sending payloads over HTTP, the error e-mail and the WordPress filters are not modelled.
- The notification message builders are not modelled. They call WordPress APIs.
- The `Rock_The_Slackbot` singleton and constructor plumbing are not modelled.
