# Clipboard history: categoriser, capture pipeline and history store

A Dafny model of the core of a desktop clipboard-history application. Its
modules follow the program's structure.

- `PathModel` (paths.dfy) covers `is_image_file` and `extract_file_path`.
  It models `file:///` URLs, percent-decoding, the POSIX base name and
  suffix, and the image-extension set.
- `Patterns` (patterns.dfy) writes out the five regular expressions of the
  classifier as predicates over characters. Each one follows Python's `re`
  semantics for `str` patterns: `IGNORECASE` extras, `$` before a final
  newline, `MULTILINE` line starts, and `\s` as Python's whitespace set. It
  also models the phone digit check and the multi-line indentation heuristic.
- `Categorizer` (categorizer.dfy) models the rule-based classifier as an
  ordered cascade of rules, then the AI fallback that is consulted only for
  `text`.
- `AiClient` (ai_client.dfy) models provider dispatch, the empty-key
  short-circuit, the 1000-character prompt excerpt and validation of the
  answer. The network call is the `respond` oracle.
- `HistoryStore` (history_store.dfy) models the SQLite history table:
  - an `AUTOINCREMENT` id counter;
  - the `UNIQUE` content hash;
  - insert, delete, favourite toggle and clear-non-favourites;
  - the filtered, ordered, paged listing;
  - the per-category counts.

  `Settings` (settings.dfy) is the key/value settings table.
- `ClipboardMonitor` (clipboard_monitor.dfy) models the capture pipeline:
  - `_check_clipboard`, with image priority;
  - `_process_text`, with the blank check and the last-hash gate;
  - the database gate, the categorisation, the image-path special case and
    the notification;
  - `_process_image`;
  - `copy_to_clipboard`, which primes the last hash so a copy-back is not
    recorded again;
  - the `start` and `stop` lifecycle.

The world outside the program is passed in as an `Env` value. It holds:

- the SHA-256 fingerprints of text and of PNG-encoded images;
- whether a path exists (present, absent, or the check raised), and image loading from a path;
- the clock and the saved image's file name;
- the settings, and the AI provider's reply.

`Wrappers`, `Chars` and `PyStr` hold `Option`, Python's character classes and
the `str` operations the source uses (`strip`, `split`, `startswith`,
slicing, `lower`).

## Model

| member | source | states |
|---|---|---|
| PyStr.Strip | categorizer.py:76 | the result is the infix of the text with only whitespace before and after it, starts and ends with non-whitespace, and is empty exactly when the text is all whitespace |
| PyStr.StripIdempotent | clipboard_monitor.py:100 | stripping twice is stripping once |
| PathModel.ExtractFilePath | categorizer.py:65-71 | a path is returned exactly when the text starts with `file:///`; the decoded path is never longer than what follows the prefix |
| PathModel.ExtractEncodedPath | categorizer.py:65-71 | percent-encoding any path of byte characters behind `file:///` and extracting it gives back the same path |
| PathModel.UnquotePercentEncode | categorizer.py:69 | decoding undoes percent-encoding |
| PathModel.Unquote | categorizer.py:69 | decoding a `%XX` escape yields one character, so the result is never longer; UnquotePercentEncode is its inverse |
| PathModel.UnquoteWithoutPercent | categorizer.py:54 | a string without `%` decodes to itself |
| PathModel.BaseNameJoin | categorizer.py:59 | the base name of `dir/name` is `name` when the name has no slash |
| PathModel.BaseNameTrailingSlash | categorizer.py:59 | trailing slashes do not change the base name |
| PathModel.SuffixOf | categorizer.py:59 | the suffix of `stem.ext` is `.ext` when the stem is non-empty and the extension has no further dot |
| PathModel.ImageNameDetected | categorizer.py:48-62 | a bare file name with an image extension, in any letter case, is an image file |
| PathModel.PlainNameExtension | categorizer.py:48-62 | a bare file name is no `file:///` URL, and it is an image file exactly when its lower-cased suffix is an image extension |
| PathModel.ImagePathDetected | categorizer.py:58-60 | a path whose last component has an image extension is an image file |
| PathModel.DotlessNotImage | categorizer.py:58-60 | a name with no dot and no slash is never an image file |
| PathModel.IsImageFile | categorizer.py:48-62 | a `file:///` URL is decoded after its prefix, and the lower-cased suffix of the resulting base name must be an image extension |
| PathModel.FileUrlExtension | categorizer.py:52-56 | without percent escapes, a `file:///` URL is an image exactly when the path after the prefix has an image extension |
| Patterns.TrimmedAnchors | categorizer.py:18-29 | on stripped text, the `$` anchors of the url, email and phone patterns mean the end of the text |
| Patterns.UrlPattern | categorizer.py:18-22 | the url pattern: a scheme then non-whitespace, or a domain form, either before the end or a final newline |
| Patterns.EmailPattern | categorizer.py:23-26 | the e-mail pattern, anchored the same way |
| Patterns.PhoneRule | categorizer.py:95 | the phone pattern, and only digits left once the five separators are removed |
| Patterns.FilepathPattern | categorizer.py:31-33 | a Windows drive, a Unix root or `~/`, then path characters |
| Patterns.CodeSearch | categorizer.py:34-44 | one of the six code markers occurs somewhere in the text |
| Patterns.IndentHeuristic | categorizer.py:103-108 | more than one line and at least 30% of them indented |
| Patterns.PhoneRuleIff | categorizer.py:95 | the phone pattern plus the digit check hold exactly when the text has at least 10 characters, each a digit or one of space, `-`, `(`, `)`, `+`, and at least one of them is a digit |
| Patterns.EmailIsNotUrl | categorizer.py:18-26 | no text the email pattern accepts is accepted by the url pattern |
| Patterns.SpacedIsNotUrlOrEmail | categorizer.py:18-26 | stripped text with inner whitespace is neither a url nor an e-mail address |
| Patterns.PhoneCharsRuleOutEarlierForms | categorizer.py:18-29 | text made of digits and phone separators is neither a url nor an e-mail address, and has no slash or dot |
| Patterns.ShortIsNotPhone | categorizer.py:27-29 | fewer than ten characters never match the phone pattern |
| Patterns.OtherWhitespaceIsNotPhone | categorizer.py:95 | whitespace other than a plain space passes the pattern but fails the digit check, so the text is not a phone number |
| Patterns.DomainCoreIsLanguage | categorizer.py:20 | the executable domain-URL check accepts exactly the language of the regular expression (host label, dot, two or more letters, optional `/` path) |
| Patterns.EmailBodyIsLanguage | categorizer.py:24 | the executable e-mail check accepts exactly the language of the regular expression |
| Patterns.UnixRootPathAccepted | categorizer.py:32 | a Unix root followed by one or more path characters is a file path, even when the root does not end a component |
| Patterns.IndentHeuristicOfLines | categorizer.py:103-108 | the heuristic on joined lines holds exactly when there are at least two lines and at least 30% of them start with two spaces or a tab |
| Patterns.CommentLineIsCode | categorizer.py:38 | a line whose first non-blank character is `#` or `/` makes the text code |
| Patterns.TagIsCode | categorizer.py:41 | a `<`, an ASCII letter and any later `>` make the text code |
| Patterns.TagAtIff | categorizer.py:41 | the tag alternative matches at a position exactly when a `>` follows the letter somewhere |
| Categorizer.RuleBased | categorizer.py:74-114 | blank text is `text`; the result is `image` exactly when the stripped text is an image file name or URL |
| Categorizer.DecideIsFirstVerdict | categorizer.py:79-114 | the if-chain equals a scan of the rules in source order for the first one that fires |
| Categorizer.FirstVerdictAt | categorizer.py:79-114 | the scan stops at the first rule that fires and gives its verdict |
| Categorizer.FirstFiringRuleDecides | categorizer.py:79-114 | the if-chain agrees with a table of the rules in source order: the first rule that fires decides the category. Which rules can fire together is stated by EmailBeatsUrl, PhoneNumberIsPhone, NewlineRulesOut and IndentedLinesAreCode |
| Categorizer.FirstFiringRuleClassifies | categorizer.py:74-114 | the same precedence, stated for the classifier on raw text |
| Categorizer.RuleBasedStripInvariant | categorizer.py:76 | classifying stripped text gives the same result as classifying the raw text |
| Categorizer.EmailBeatsUrl | categorizer.py:87-92 | an e-mail address that is not an image name is classified `email` |
| Categorizer.NewlineRulesOut | categorizer.py:87-96 | stripped text with a newline matches none of the url, e-mail or phone rules |
| Categorizer.IndentedLinesAreCode | categorizer.py:103-108 | multi-line text that passes the indentation heuristic, and is neither an image nor a file path, is `code` |
| Categorizer.ImageNameIsImage | categorizer.py:83-84 | text that strips to `stem.ext`, with an image extension, is `image` |
| Categorizer.FileUrlImageIsImage | categorizer.py:83-88 | a `file:///` URL without percent escapes that names a file with an image extension is `image`; the image test comes before the url test |
| Categorizer.UpperCaseImageUrl | categorizer.py:83-88 | `file:///a.PNG` is `image`: the extension is compared after lower-casing |
| Categorizer.EmailExample | categorizer.py:87-92 | `user@example.com` is `email`, not `url` |
| Categorizer.PhoneNumberIsPhone | categorizer.py:95-96 | text satisfying the phone rule is `phone`, whatever the earlier rules |
| Categorizer.Categorize | categorizer.py:117-136 | with AI off or provider `none` the rule result stands and no request is made; a rule result other than `text` is final; a changed category comes from `text` and is one of the six AI categories; `image` only ever comes from the rules |
| Categorizer.NoAiAnswerKeepsText | categorizer.py:131-136 | when the AI gives no answer the rule result is returned |
| Categorizer.AiAnswerReplacesText | categorizer.py:131-136 | a `text` result is replaced by the category a configured provider validly answers |
| AiClient.ProviderNamed | ai_client.py:94-102 | only `openai` and `gemini` select a provider |
| AiClient.ValidateReply | ai_client.py:48-53 | after strip and lower-casing, a reply is accepted exactly when it names one of the six non-image categories |
| AiClient.CategorizeWithProvider | ai_client.py:25-58 | an empty key means no call and no answer; otherwise exactly one request with the provider's model, the first 1000 characters, 20 tokens and temperature 0; a raised exception gives no answer, and a reply gives exactly what validating it gives |
| AiClient.ReplyDecidesAnswer | ai_client.py:48-53 | a reply that, stripped and lower-cased, names one of the six allowed categories gives that category; any other reply gives no answer |
| AiClient.CategorizeWithAi | ai_client.py:94-102 | `openai` and `gemini` dispatch to that provider's adapter; any other provider makes no call and gives no answer; answers are valid categories |
| AiClient.NormalizedReplyAccepted | ai_client.py:48 | a reply with surrounding whitespace and capitals, such as `" Code\n"`, is accepted as `code` |
| AiClient.OnlyExcerptMatters | ai_client.py:41 | texts that agree on their first 1000 characters are treated identically |
| AiClient.NeverImage | ai_client.py:51-53 | the adapter never answers `image` |
| HistoryStore.CheckHashExists | database.py:210-222 | true exactly when some row has the fingerprint |
| HistoryStore.AddHistory | database.py:54-79 | a duplicate fingerprint returns no id and leaves the table unchanged; otherwise one row is appended with a fresh id, not a favourite, stamped now; the id/hash invariant is kept |
| HistoryStore.DeleteHistory | database.py:129-139 | reports success exactly when the id was present; afterwards the rows are the old rows minus that id |
| HistoryStore.ToggleFavorite | database.py:142-155 | reports success exactly when the id was present; only that row's favourite flag flips |
| HistoryStore.ToggleTwice | database.py:147-150 | toggling twice restores the table |
| HistoryStore.ClearAllHistory | database.py:158-168 | keeps exactly the favourites and returns how many rows it removed |
| HistoryStore.ClearTwice | database.py:163 | clearing again removes nothing |
| HistoryStore.Select | database.py:134 | a row survives a filtered delete exactly when it was present and is kept by the filter |
| HistoryStore.SubsequenceDistinct | database.py:25-29 | removing rows keeps ids and fingerprints unique |
| HistoryStore.Sort | database.py:107 | the result is ordered newest first and is a permutation of the input |
| HistoryStore.Page | database.py:107-108 | the page is the contiguous slice at the offset; a negative offset counts as 0; a negative limit means all rows |
| HistoryStore.GetHistory | database.py:82-114 | every returned row is stored and passes the category, search and favourite filters; rows come newest first; at most `limit` rows. GetHistoryIsPage fixes which rows, and GetHistoryCounts adds that no row is repeated |
| HistoryStore.GetHistoryIsPage | database.py:93-111 | the page is the filtered, newest-first listing with the first `offset` rows skipped, then the next `limit` rows, or all the rest when `limit` is negative or runs past the end |
| HistoryStore.GetHistoryCounts | database.py:82-114 | a page holds each row no more often than the table does, and only rows passing the filters |
| HistoryStore.Listing | database.py:93-107 | the unpaged listing holds exactly the stored rows that pass the filters, newest first; ListingCounts adds that each appears as often as in the table |
| HistoryStore.ListingCounts | database.py:93-107 | each row passing the filters appears in the listing exactly as often as in the table, and no other row appears |
| HistoryStore.SelectCounts | database.py:134 | a filtered selection keeps each passing row as often as it occurs, and no other row |
| HistoryStore.GetHistoryComplete | database.py:82-114 | with no offset and a large enough limit, every matching row is returned |
| HistoryStore.PagesTile | database.py:107-108 | consecutive pages, concatenated, are the page covering both |
| HistoryStore.NewestComesFirst | database.py:107 | the first row returned is at least as new as any matching row |
| HistoryStore.GetCategoryCounts | database.py:196-207 | a category appears exactly when some row has it, with its number of rows |
| HistoryStore.CountsSumToSize | database.py:196-207 | the counts add up to the number of rows |
| Settings.GetSetting | database.py:171-180 | the stored value, or the default when the key is absent |
| Settings.SetSetting | database.py:183-193 | insert or replace one key; other keys are unchanged |
| ClipboardMonitor.NewMonitor | clipboard_monitor.py:23-28 | a new monitor is detached, idle and without a last hash; AI is on unless the provider is `none` |
| ClipboardMonitor.Start | clipboard_monitor.py:34-51 | starting a running monitor does nothing; no application is an error; otherwise the monitor is attached and set running, and the result is one `CheckClipboard` of the current clipboard from that state |
| ClipboardMonitor.Stop | clipboard_monitor.py:53-66 | afterwards the monitor is not running; nothing else changes |
| ClipboardMonitor.SetUseAi | clipboard_monitor.py:68-70 | only the AI flag changes |
| ClipboardMonitor.CheckClipboard | clipboard_monitor.py:76-96 | nothing happens when detached or without mime data; a non-null image is processed before any text; without one, non-blank text goes to `_process_text` and blank text is ignored; the store invariant is kept |
| ClipboardMonitor.OnClipboardEvent | clipboard_monitor.py:72-74 | an event while monitoring is exactly one `CheckClipboard`; an event while not monitoring changes nothing |
| ClipboardMonitor.Commit | clipboard_monitor.py:152-154 | notifies exactly when the store returned a non-zero id, and only then records the fingerprint |
| ClipboardMonitor.InsertText | clipboard_monitor.py:119-150 | nothing is inserted exactly when an image text's existence check raises; otherwise it inserts exactly when the fingerprint is new, and afterwards the fingerprint is stored |
| ClipboardMonitor.ProcessText | clipboard_monitor.py:98-154 | blank text and the last fingerprint are ignored; only the last hash can change, and only to this text's fingerprint; a notification means the fingerprint is stored |
| ClipboardMonitor.ResolvedPath | clipboard_monitor.py:121-124 | a `file:///` text resolves to its decoded path, any other text to itself |
| ClipboardMonitor.NewTextInserted | clipboard_monitor.py:98-154 | new text is appended as one non-favourite row with the next id, the stripped content and its fingerprint, and that id is emitted; an `image` text whose file exists is an image row under the resolved path, one whose file is missing a `url` text row, any other text a text row of its category |
| ClipboardMonitor.ExistsCheckFailureIgnored | clipboard_monitor.py:126-127 | when `Path.exists` raises for new image text, nothing is stored, emitted or remembered |
| ClipboardMonitor.InsertTextRow | clipboard_monitor.py:119-150 | for a new fingerprint every branch appends one row with the next id, the text and its hash, and its content type, category and image path follow the branch |
| ClipboardMonitor.ImagePathStoredAsImage | clipboard_monitor.py:120-134 | an image path that exists becomes exactly an image row holding the URL and the resolved path |
| ClipboardMonitor.MissingImageStoredAsUrl | clipboard_monitor.py:135-142 | an image path that does not exist is stored as exactly a `url` text row |
| ClipboardMonitor.OtherTextStoredAsCategorized | clipboard_monitor.py:143-150 | text of any category but `image` is stored as a text row with that category |
| ClipboardMonitor.ImageCategoryIsImageFile | clipboard_monitor.py:120 | on stripped text, the `image` category already implies the image-file re-check |
| ClipboardMonitor.EmitsExactlyWhenStored | clipboard_monitor.py:152-154 | a notification is sent exactly when a row was added; otherwise the store is unchanged |
| ClipboardMonitor.SameTextTwice | clipboard_monitor.py:107-114 | processing the same text twice records and notifies at most once |
| ClipboardMonitor.StoreGate | clipboard_monitor.py:111-114 | text whose fingerprint is already stored only becomes the last hash; nothing is inserted or emitted |
| ClipboardMonitor.ImageStoreGate | clipboard_monitor.py:171-173 | an image whose fingerprint is already stored only becomes the last hash; nothing is inserted or emitted |
| ClipboardMonitor.NewImageInserted | clipboard_monitor.py:175-190 | a new image is appended as an image row with the next id, the saved path and its fingerprint, that id is emitted and the fingerprint becomes the last hash |
| ClipboardMonitor.SameImageTwice | clipboard_monitor.py:167-173 | processing the same image twice records and notifies at most once |
| ClipboardMonitor.ProcessImage | clipboard_monitor.py:156-190 | the last fingerprint is ignored; only the last hash can change, to this image's fingerprint; the store invariant is kept |
| ClipboardMonitor.CopyToClipboard | clipboard_monitor.py:192-221 | fails without a clipboard; non-empty text is placed as given and its fingerprint becomes the last hash; an image path succeeds exactly when the image loads, placing that image and remembering its fingerprint; any other request fails and changes nothing |
| ClipboardMonitor.TextCopyEchoIgnored | clipboard_monitor.py:198-203 | copying stripped text out and seeing it come back records nothing |
| ClipboardMonitor.ImageCopyEchoIgnored | clipboard_monitor.py:205-216 | copying an image out makes the clipboard event that carries that same image a no-op |
| ClipboardMonitor.StopIgnoresEvents | clipboard_monitor.py:53-66 | stopping twice is stopping once, and a stopped monitor ignores every event |

## Left out

- Python's `\d`, `\w` and `str.isdigit()` accept many non-ASCII digits and letters. The model accepts ASCII only.
- `str.lower()` on AI replies and extensions is modelled as ASCII lower-casing.
- `urllib.parse.unquote` decodes percent escapes as UTF-8. The model maps each `%XX` to the single character with that code, which agrees on ASCII only.
- `pathlib.Path` is modelled with POSIX separators. Windows drive and backslash handling is not.
- The float test `indented >= len(lines) * 0.3` is modelled as exact arithmetic, `10 * indented >= 3 * len(lines)`. Rounding is ignored.
- HistoryStore.GetHistory: the `%` and `_` characters inside a search query are matched literally, not as SQL LIKE wildcards. Case-folding is ASCII only, as in SQLite.
- HistoryStore.Sort: `ORDER BY created_at DESC` leaves ties unordered in SQLite. The model breaks ties by the higher id.
- `CURRENT_TIMESTAMP`, SHA-256, PNG encoding, file existence, image loading, saving images to disk and the uuid file name are all `Env` parameters.
- The OpenAI and Gemini SDK calls are the `respond` oracle. Any exception they raise is the `Raised` reply.
- The 500 ms timer and the Qt signal wiring are left out. `CheckClipboard` is one poll, and the emitted id stands for the `history_added` signal.
- ClipboardMonitor.ExistsCheckFailureIgnored: in the source, an OSError from `Path.exists` is not caught. Raised inside the clipboard slot or the timer callback, it escapes to PyQt6, whose default handling of an unhandled slot exception aborts the process. Raised during `start`'s first check, it escapes `start()` to its caller with `_monitoring` and the signal connection already set, and the timer is never started. The model instead keeps the world unchanged and goes on monitoring.
- ClipboardMonitor.ImageCopyEchoIgnored: the lemma assumes the echo event carries the very image that was loaded. If the clipboard converts the image, its PNG encoding and fingerprint can change, and the echo is then recorded.
- HistoryStore.AddHistory: only the unique-constraint `IntegrityError` is modelled, as the duplicate answer. Other SQLite errors, such as a locked or full database, propagate out of `add_history` and end `_process_text` or `_process_image` without a stored row. The model does not represent them, so InsertText and ProcessImage always reach a store answer.
- Exceptions inside `copy_to_clipboard`'s clipboard calls are not modelled.
- ClipboardMonitor.TextCopyEchoIgnored: the copy-out hashes the unstripped content, while `_process_text` hashes the stripped text. The lemma therefore requires already-stripped content, which is what the history rows hold.
- ClipboardMonitor.ProcessImage: the image file is written before the insert, even when the insert then fails. File writes are not modelled.
- `get_history_by_id`, `init_database`, `get_category_icon`, `get_category_display_name` and `test_api_connection` are outside this model. They are lookups, schema setup or UI helpers.
- The category column holds a `Category` value, not free text. Every writer in the pipeline stores one of the seven names.
