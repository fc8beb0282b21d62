# Billing response composer — Dafny model

This project models the core of the Streamlit invoice-response tool in `app.py`. An accounts-payable
clerk uploads an invoice PDF and picks a response type from a fixed catalogue of billing templates.
When the template needs it, they also type one or more store numbers. The "Generate Email Response"
button then composes the reply from the template, the store numbers and the kept store list. Finally
it assembles an e-mail draft addressed to a fixed recipient. The draft holds the reply as its body and
may carry a spreadsheet of stores; the invoice PDF is always attached last.

The model is split by concern:

- `wrappers.dfy` (`Wrappers`): `Option` and `Result`.
- `text.dfy` (`Text`): the Python string operations the handler relies on, each with a
  characterisation. They are `str.isspace`, ASCII `lower()`, `strip()`, `replace()` (leftmost,
  non-overlapping, all occurrences), `split()` with no separator, and joining.
- `templates.dfy` (`Templates`): the ten-entry `RESPONSE_TEMPLATES` catalogue, with exactly its labels,
  flags and reply texts, and the first-match selection of the picked label.
- `stores.dfy` (`Stores`): the store list.
  - Rows keep the store number already converted to a string, and the region code.
  - The column list says which columns exist.
  - Header normalisation runs in place on a `StoreList` object kept between clicks.
  - The store-number tokeniser.
  - The two row queries: first row with a store number, and the rows whose store number is among the
    tokens.
- `responder.dfy` (`Responder`): the handler itself.
  - Composition follows the handler's branches: no store needed, zero, one or several tokens, and a
    missing store-number column.
  - The draft assembly: subject, recipient, body, the optional `filtered_…`/`allstores_…`
    spreadsheet, the PDF, and the `.eml` file name.
  - The whole button action. It is given both as functions and as the imperative methods that
    reassign `reply` and append attachments step by step, each proved equal to its function.
- `scenarios.dfy` (`Scenarios`): worked cases.
  - "One store" substitutes the region code into the GL code.
  - An unknown store number gives the not-found message.
  - "101, 102" on the "Group of Stores" template attaches `filtered_<stem>.xlsx` before the PDF.
  - "Scrubs" on a list without a store-number column gives the missing-column message.

The handler can raise in two places, and both are modelled as explicit faults instead of answers:

- `MissingRegionCode`: one token hits a row, but the list has no `region code` column. In the handler
  this is the `KeyError` at the region-code lookup.
- `FilteredUndefined`: a template that needs stores and attaches a file gets several tokens, but the
  list has no `store number` column. In the handler, `filtered` is then read without ever having been
  bound, which raises a `NameError`.

`Responder.RespondFailsOnlyWhereHandlerRaises` proves these are the only failures, in both directions.

Two points about the code's behaviour:

- The "Group of Stores" reply has no `XXXXX` placeholder, so the several-store substitution of
  "multiple stores" leaves it unchanged (`Scenarios.GroupOfStoresFromCatalogue`).
- Whether a region-code column exists is decided by the header list after normalisation. The model
  does not look at the row, matching pandas' column lookup.

## Model

| member | source | states |
|---|---|---|
| Templates.OptionLabels | app.py:72 | the labels offered are the catalogue's labels, in catalogue order |
| Templates.FirstWithOption | app.py:74 | returns the index of the first template carrying the label (every earlier one carries another), or none when no template does |
| Templates.SelectTemplate | app.py:74 | a selected template is in the catalogue and carries the chosen label; nothing is selected exactly when the label is not offered |
| Templates.OptionsDistinct | app.py:11-32 | no two catalogue entries share a label |
| Templates.SelectionIsUnique | app.py:74 | picking any entry's label selects exactly that entry |
| Templates.OnlyGroupNeedsStoreAndAttaches | app.py:11-32 | "Group of Stores" is the only template that needs store numbers and attaches a spreadsheet |
| Templates.CatalogueFlags | app.py:11-32 | exactly "One store", "Group of Stores" and "Scrubs" need store numbers; exactly "All stores", "Group of Stores" and "Retail Activations - Trailer" attach a spreadsheet |
| Text.IsSpace | app.py:88-91 | the whitespace of `split()` and `strip()`: space, tab, newline and carriage return are whitespace; commas, digits and ASCII letters are not |
| Text.SkipSpace | app.py:88-91 | the first non-whitespace position at or after a start, everything skipped being whitespace |
| Text.TrimEnd | app.py:88-91 | the end of a range once its trailing whitespace is dropped, everything dropped being whitespace |
| Text.Strip | app.py:88-91 | `strip()` returns a slice of the input; everything outside the slice is whitespace and the slice neither starts nor ends with whitespace |
| Text.StripIdempotent | app.py:88 | stripping twice is stripping once |
| Text.StripChars | app.py:88-91 | every character of the stripped string comes from the input |
| Text.StripWord | app.py:91 | a string that neither starts nor ends with whitespace is unchanged by `strip()` |
| Text.Lower | app.py:88 | ASCII `lower()`: same length, no capital left, capitals become the letter 32 code points later, every other character kept |
| Text.LowerOfLowered | app.py:88 | a string made of characters of a lower-cased string is its own lower case |
| Text.OccursSingle | app.py:91 | a one-character pattern occurs exactly when the character is in the string |
| Text.ReplaceAll | app.py:91-142 | `str.replace`; replacing a pattern by itself changes nothing (its full behaviour is stated by the lemmas below) |
| Text.ReplaceAbsent | app.py:97-111 | `replace` leaves a string without the pattern unchanged |
| Text.ReplaceSkipsPrefix | app.py:97-111 | a prefix with no occurrence starting in it is copied unchanged |
| Text.ReplaceLeftmost | app.py:97-111 | the leftmost occurrence is the one replaced first |
| Text.ReplacePrefixOrReplacement | app.py:91 | within the first m characters the result agrees with the input, or shows the replacement's first character |
| Text.AbsentWhenFirstCharAbsent | app.py:97-111 | a pattern cannot occur in a string lacking its first character |
| Text.NoOccurrenceInPrefix | app.py:97-111 | no occurrence starts in a prefix lacking the pattern's first character |
| Text.ReplaceSingle | app.py:97-142 | a pattern occurring once is replaced at that place, and nothing else changes |
| Text.ReplaceEliminates | app.py:91-111 | with a non-empty replacement sharing no character with the pattern, no occurrence of the pattern survives |
| Text.ReplaceEliminatesAtMatch | app.py:91-111 | the same, where the input starts with the pattern |
| Text.ReplaceEliminatesPastMismatch | app.py:91-111 | the same, where the input does not start with the pattern |
| Text.NoMatchAfterMismatch | app.py:91-111 | where the input does not start with the pattern, neither does the result |
| Text.ReplaceCharConcat | app.py:91 | replacing a single character distributes over concatenation |
| Text.Word | app.py:91 | the first word is a whitespace-free prefix that ends at whitespace or at the end of the input |
| Text.SplitWhitespace | app.py:91 | `split()` yields non-empty whitespace-free words made of the input's characters |
| Text.JoinChars | app.py:91 | every character of a joined string comes from the separator or one of the parts |
| Text.WordOfPrefix | app.py:91 | a word followed by whitespace or the end is read back whole |
| Text.SplitJoin | app.py:91 | splitting words joined by single spaces returns the words |
| Text.SplitWordThenRest | app.py:91 | a word, a space and the rest split into the word followed by the rest's words |
| Text.WordBeforeSpace | app.py:91 | the leading word ends no later than the first whitespace character |
| Text.SplitAtSpace | app.py:91 | `split()` cuts at every whitespace character: the words of `a + [c] + b` are the words of `a` followed by those of `b` |
| Text.SplitAtSpaceAfterSpace | app.py:91 | the same, where `a` starts with whitespace |
| Text.SplitAtSpaceAfterWord | app.py:91 | the same, where `a` starts with a word |
| Text.SplitWord | app.py:91 | a single word splits into itself |
| Stores.NormalizeColumns | app.py:88 | each header is replaced by its lower-cased, stripped form, and the number of headers is kept |
| Stores.NormalizeHeader | app.py:88 | `col.lower().strip()` has no ASCII capital, no whitespace at either end, and only characters of the lower-cased header |
| Stores.StripOfLowerHasNoCapital | app.py:88 | the stripped lower-cased header holds no ASCII capital |
| Stores.NormalizeHeaderIdempotent | app.py:88 | a normalised header is its own normal form |
| Stores.NormalizeColumnsIdempotent | app.py:88 | normalising the kept list's headers on a later click changes nothing |
| Stores.StoreList.constructor | app.py:35-48 | the kept store list holds the headers and rows it was given |
| Stores.StoreList.NormalizeHeaders | app.py:88 | the headers are replaced in place by their normal forms, and the rows are untouched |
| Stores.StripNonBlank | app.py:91 | at most as many pieces as given, each non-empty and already stripped |
| Stores.StripNonBlankConcat | app.py:91 | the stripped non-blank pieces of two lists are those of each, in order |
| Stores.StripNonBlankOfWords | app.py:91 | keeping the stripped non-blank pieces leaves a list of words unchanged |
| Stores.Tokenize | app.py:91 | every store-number token is non-empty and holds neither whitespace nor a comma |
| Stores.NoCommaInJoin | app.py:91 | tokens joined by spaces contain no comma |
| Stores.TokenizeJoin | app.py:91 | tokens written back separated by single spaces tokenise to themselves |
| Stores.TokenizeAtSeparator | app.py:91 | every comma and every whitespace character separates tokens: the tokens of `a + [c] + b` are those of `a` followed by those of `b` |
| Stores.TokenizeEmpty | app.py:91 | an empty input has no tokens |
| Stores.TokenizeSingle | app.py:91 | a lone token (no whitespace, no comma) is the only token |
| Stores.TokenizeStable | app.py:91 | tokenising the space-joined tokens of any input gives the same tokens |
| Stores.FirstMatch | app.py:94-96 | returns the index of the first row with the store number; nothing is found exactly when no row has it |
| Stores.FilterRows | app.py:104-129 | keeps no more rows than given; every kept row is a selected row of the list; the result is empty exactly when no row is selected |
| Stores.SelectedPositions | app.py:104 | the selected row positions, strictly increasing and complete |
| Stores.FilterIsSubsequence | app.py:104 | the filter's k-th row is the row at the k-th selected position, so it keeps exactly the selected rows in list order |
| Responder.Compose | app.py:83-113 | case by case: the template text when no store is needed or no token is typed; the missing-column message; the not-found message naming the token; the region-code fault; the first matching row's region code substituted for every placeholder; several tokens give "multiple stores" and bind the filtered rows |
| Responder.ComposeReply | app.py:83-113 | the handler's step-by-step reassignment of the reply yields the composition `Compose` states |
| Responder.MultipleStoresLeavesNoPlaceholder | app.py:111 | after the several-store substitution no placeholder is left |
| Responder.SubstitutionSparesPlainReplies | app.py:97-111 | a reply without the placeholder is unchanged by either substitution |
| Responder.SpreadsheetName | app.py:110-138 | the spreadsheet name starts with its `filtered_`/`allstores_` prefix, and a PDF name without ".pdf" follows it unchanged |
| Responder.Assemble | app.py:123-142 | fails exactly when `filtered` would be read unbound; otherwise the subject names the PDF, the recipient is fixed, the body is the reply, at most one spreadsheet precedes the always-last PDF, a spreadsheet goes out exactly on the `filtered_`/`allstores_` conditions with those names and rows, and the draft is named after the PDF with `_reply.eml` |
| Responder.BuildDraft | app.py:123-142 | the handler's attachment-by-attachment assembly yields the draft `Assemble` states |
| Responder.Respond | app.py:83-142 | a composition fault is the action's fault; a draft exists only for a successful composition, with its reply as body and the subject naming the PDF |
| Responder.GenerateEmailResponse | app.py:72-142 | normalises the kept list's headers in place, keeps its rows, and returns the response for the selected template |
| Responder.RespondFailsOnlyWhereHandlerRaises | app.py:96-129 | the action fails exactly when one token hits a row of a list without a region-code column, or a store-needing attaching template gets several tokens and a list without a store-number column |
| Responder.SpreadsheetAttachedIff | app.py:105-140 | the PDF is always last; a spreadsheet is attached exactly when the template asks for one and either needs no store or several tokens select a row; it holds the filtered rows or the full list under the matching name |
| Scenarios.GlPrefixHasNoX | app.py:13 | the GL code before the placeholder has no `X` |
| Scenarios.GlSuffixHasNoX | app.py:13 | the GL code after the placeholder has no `X` |
| Scenarios.OneStoreReplyText | app.py:12-13 | the "One store" reply text |
| Scenarios.OneStoreReplyPieces | app.py:13 | that text is the GL prefix, the placeholder and the GL suffix |
| Scenarios.OneStoreReplyShape | app.py:12-13 | the "One store" reply has its one placeholder in the region-code segment |
| Scenarios.OneStoreGlCode | app.py:97 | substituting a region code puts it in that segment and changes nothing else |
| Scenarios.OneStoreFound | app.py:92-97 | "One store" with "101" on a list whose store 101 has a region code gives the GL code with that code |
| Scenarios.OneStoreNotFound | app.py:92-99 | "One store" with a number no row has gives the not-found message naming it |
| Scenarios.TokenizeCommaPair | app.py:91 | "a, b" tokenises to the two tokens |
| Scenarios.TokenizeCommaJoined | app.py:91 | "a,b" tokenises to the two tokens |
| Scenarios.GroupOfStoresShape | app.py:16-17 | "Group of Stores" needs store numbers, attaches a spreadsheet and has no placeholder in its reply |
| Scenarios.GroupReplyText | app.py:16-17 | the "Group of Stores" reply text |
| Scenarios.GroupReplyPieces | app.py:17 | that text in three short pieces |
| Scenarios.GroupReplyOpening | app.py:17 | its first two pieces |
| Scenarios.GroupReplyHalves | app.py:17 | its opening and its closing piece |
| Scenarios.GroupReplyPiecesHaveNoX | app.py:17 | no piece holds an `X` |
| Scenarios.GroupTokens | app.py:91 | "101, 102" tokenises to "101" and "102" |
| Scenarios.GroupFilter | app.py:104 | both rows of a list of stores 101 and 102 are selected |
| Scenarios.GroupCompose | app.py:102-111 | on that list the reply keeps its text and both rows are filtered |
| Scenarios.PdfDerivedNames | app.py:133-142 | `<stem>.pdf` gives `filtered_<stem>.xlsx` and `<stem>_reply.eml` |
| Scenarios.GroupAssemble | app.py:123-142 | the draft then carries the filtered rows as `filtered_<stem>.xlsx`, then the PDF |
| Scenarios.GroupOfStores | app.py:90-142 | the whole action for "101, 102" on a "Group of Stores"-shaped template |
| Scenarios.GroupOfStoresFromCatalogue | app.py:90-142 | the catalogue's own "Group of Stores" with "101, 102" on a list of those two stores: reply unchanged, both rows as `filtered_<stem>.xlsx`, then the PDF |
| Scenarios.ScrubsNeedsStore | app.py:26-27 | "Scrubs" needs store numbers |
| Scenarios.ScrubsWithoutStoreColumn | app.py:92-101 | "Scrubs" with one token on a list without a store-number column gives the missing-column message, not a fault |

## Left out

- The Streamlit page is not modelled: widgets, layout, success and warning messages, `st.stop()`, and
  the text area showing the reply.
- The three download buttons are left out. The filtered download (app.py:105-110) shows the same
  rows under the same name that the draft attaches.
- Reading and saving the store list as Excel (app.py:34-52) is left out. The model starts from a
  kept `StoreList` of headers and rows.
- Rows keep only the store-number string and the region-code string. Other cells are not modelled.
  The `str()` of a cell, including the text a missing value prints as, is taken as given.
- The PDF preview (app.py:63-70) is left out. The PDF is an opaque byte sequence.
- MIME serialisation (`as_bytes`) is left out. `Draft` is the message before serialisation. The
  attached spreadsheet is the header list and rows, not Excel bytes.
- The Outlook/AppleScript branch (app.py:145-210) is left out: subprocesses, temporary files, AppleScript.
- Text.Lower: maps only ASCII `A`–`Z`. Headers using other case mappings, such as non-ASCII capitals,
  are not normalised as Python would.
- Headers that are not strings, and duplicate headers after normalisation, are not modelled.
- Text.ReplaceAll: requires a non-empty pattern. Every call site in the handler passes a non-empty
  literal.
- Responder.GenerateEmailResponse: requires the label to be one the select box offers. That is the
  only value the widget returns. The handler's `tpl` being `None` cannot arise.
