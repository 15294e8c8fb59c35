# ELYORA reader core, modelled in Dafny

ELYORA is a small client-side e-book reader. This project models its
deterministic logic, with the browser reduced to plain state:

- `localStorage` is a `Store` object holding a `map<string, string>`.
- A DOM element is an `Element` object holding a set of classes and an
  inline `overflow` style.
- The reader's chapter container is a sequence of paragraphs. Each paragraph
  is a sequence of segments: plain text, a search `<mark>`, or a highlight
  `<span>`.

The modules follow the source files:

| module | models |
|---|---|
| `Wrappers` | `Option` and `Result` |
| `Text` | `String.prototype.trim`, ASCII `toLowerCase`, `includes`, `repeat`, decimal printing of integers |
| `Seqs` | `Array.prototype.filter` and `map`, with their membership and order facts |
| `Json` | `JSON.stringify` and `JSON.parse` on the values the reader stores, with a proved round trip |
| `Browser` | `localStorage`, the favourite-flag toggle shared by three components, an element's class list and `overflow` style |
| `Catalog` | the book records of `src/data/books.js` and the lookup `books[bookId]` |
| `Stars` | the star strings of reviews and of a book's rating |
| `Escape` | `escapeRegExp` and `escapeHTML` of the reader page |
| `Paragraphs` | rendering a chapter, search marking and clearing, highlight restoration |
| `Annotations` | the `bookHighlights` and `bookNotes` JSON blobs: appending, listing by chapter, the notes view, `noteColorMap` |
| `Reader` | the reader page: navigation, font, theme, progress, search, highlights and notes (class `ReaderSession`) |
| `Home` | the home page: catalog filter, recommendations, details modal (class `HomePage`) |
| `Modal` | the reusable modal component (class `ModalView`) |
| `BookCard` | the book card and its click bubbling (class `Card`) |
| `Sidebar` | the sidebar's persisted collapse flag and active menu entry (class `SidebarState`) |

Things the reader page does step by step are methods on `ReaderSession`.
Each such method states its whole new state through specification functions.
Examples:

- `SearchContent` is a loop over the paragraphs. It is proved equal to the
  function `SearchResult`.
- `ApplyHighlights` is a loop over the stored highlights. It is proved equal
  to `HighlightsApplied`.

The lemmas then state what those functions mean. The session invariant
`Valid` ties together:

- the font size, which is even and within 12..24;
- the CSS font variable;
- the `dark-theme` body class and the `isDark` flag;
- the stored theme and progress, which always agree with the session.

Behaviours of the code worth knowing, which the model keeps as written:

- A restored chapter is not clamped to the book's chapter count.
- Highlights are restored by literal text search, not by position.
- The sidebar persists its flag inverted.

## Model

| member | source | states |
|---|---|---|
| Text.Trim | src/pages/Reader.jsx:109 | the result is the input with leading and trailing JS whitespace removed: a contiguous slice, blank on both sides, starting and ending with non-whitespace; it is empty exactly when the input is blank |
| Text.LeadingBlanks | src/pages/Reader.jsx:137 | counts the whitespace prefix: the prefix is blank and the next character is not whitespace |
| Text.TrailingBlanks | src/pages/Reader.jsx:245 | counts the whitespace suffix: the suffix is blank and the character before it is not whitespace |
| Text.Lower | src/pages/Home.jsx:42-43 | `toLowerCase` keeps the length |
| Text.LowerAppend | src/pages/Home.jsx:42-43 | lowercasing distributes over concatenation |
| Text.LowerSlice | src/pages/Home.jsx:42-43 | lowercasing commutes with slicing |
| Text.Includes | src/pages/Home.jsx:42-43 | `s.includes(q)` holds iff q occurs in s at some index |
| Text.Repeat | src/pages/Home.jsx:209 | `c.repeat(n)` has n characters, all equal to c |
| Text.NatToString | src/pages/Reader.jsx:142 | a natural prints as a non-empty digit string with no leading zero |
| Text.DigitsOfNat | src/pages/Reader.jsx:142 | reading the printed digits back gives the number |
| Text.IntToString | src/pages/Reader.jsx:48 | an integer prints as a minus sign or a digit first |
| Seqs.Filter | src/pages/Home.jsx:41-44 | `filter` never lengthens the list |
| Seqs.FilterMembers | src/pages/Home.jsx:41-44 | x is in the filtered list iff it is in the list and passes the test |
| Seqs.FilterSubsequence | src/pages/Home.jsx:41 | the filtered list is a subsequence of the input, in input order |
| Seqs.FilterKeepsAll | src/pages/Home.jsx:41-44 | when every element passes, the filter returns the input |
| Seqs.FilterAppend | src/pages/Reader.jsx:186 | filtering a list with one more element appends that element iff it passes |
| Seqs.Map | src/pages/Reader.jsx:275-286 | `map` keeps the length and maps element by element |
| Json.Lookup | src/pages/Reader.jsx:186 | `all[bookId]` is found iff the object has that key, and then is that key's value |
| Json.Put | src/pages/Reader.jsx:171 | after `all[bookId] = v` the object has the key |
| Json.PutLookup | src/pages/Reader.jsx:171-172 | after setting a key, reading it gives the new value and every other key reads as before |
| Json.PutShape | src/pages/Reader.jsx:171 | a new key is added at the end; an existing key keeps the number of members |
| Json.PutUnique | src/pages/Reader.jsx:171 | setting a key keeps the keys distinct |
| Json.PutWellFormed | src/pages/Reader.jsx:171-173 | setting a well-formed value in a well-formed object keeps it well formed |
| Json.UniqueLookup | src/pages/Reader.jsx:186 | in an object with distinct keys each member is what its key reads |
| Json.Parse | src/pages/Reader.jsx:39 | a successful `JSON.parse` gives a well-formed value (objects with distinct keys) |
| Json.Stringify | src/pages/Reader.jsx:55 | `JSON.stringify` output is non-empty and starts with a non-space character |
| Json.ParseStringify | src/pages/Reader.jsx:170-173 | parsing the text `JSON.stringify` wrote gives back the same well-formed value |
| Json.ValueRoundTrip | src/pages/Reader.jsx:259-262 | parsing an emitted value followed by any delimiter gives the value and the rest |
| Json.StringRoundTrip | src/pages/Reader.jsx:259-262 | strings, with every escape, read back as written |
| Json.NumberRoundTrip | src/pages/Reader.jsx:55 | integers, negative ones included, read back as written |
| Json.ArrayRoundTrip | src/pages/Reader.jsx:170-173 | arrays read back as written |
| Json.ObjectRoundTrip | src/pages/Reader.jsx:170-173 | objects with distinct keys read back as written, in key order |
| Browser.Toggled | src/components/BookCard.jsx:17-19 | the favourite toggle writes "1" iff the stored value was not "1", and "0" iff it was |
| Browser.ToggleIn | src/pages/Home.jsx:183-185 | a toggle writes only `fav_<id>`: that key holds the toggled value, and every other key reads as before |
| Browser.ToggleTwice | src/components/BookCard.jsx:17-19 | two toggles from "1" or "0" restore the stored items |
| Browser.Store.SetItem | src/pages/Reader.jsx:55 | `setItem(k, v)` overwrites exactly key k |
| Browser.Store.ToggleFlag | src/components/Modal.jsx:74-76 | the new flag is on iff the old value was not "1", the stored items are `ToggleIn` of the old ones, and the key now reads "1" or "0" to match |
| Browser.Element.ToggleClass | src/components/Modal.jsx:77 | `classList.toggle(name, force)` adds the class when forced on and removes it otherwise, leaving the rest |
| Browser.Element.SetOverflow | src/pages/Home.jsx:23-30 | setting `style.overflow` leaves the classes alone |
| Catalog.FindBook | src/pages/Reader.jsx:18 | `books[bookId] \|\| null` finds a book iff the id is a key, and then it is that key's book |
| Catalog.ChapterGaps | src/data/books.js:72-103 | atomic-habits declares 5 chapters and harry-potter 3, but each defines only chapter 1 |
| Stars.RepeatChecked | src/pages/Home.jsx:209 | `repeat(n)` throws iff n is negative and otherwise gives n copies |
| Stars.ReviewStars | src/pages/Home.jsx:209 | for 0..5 stars, five symbols of which exactly the first s are filled and the rest empty; any other count throws |
| Stars.RenderStarsShape | src/components/Modal.jsx:31-36 | a rating in 0..5 (missing counts as 0) gives five symbols: floor(r) filled stars, then one half star exactly when r is not whole, then 5 - ceil(r) empty stars; other ratings throw |
| Escape.EscapeRegExpAppend | src/pages/Reader.jsx:128-130 | escaping works character by character |
| Escape.EscapeRegExpLength | src/pages/Reader.jsx:128-130 | the output is one character longer per special character |
| Escape.PatternLiteral | src/pages/Reader.jsx:201-202 | the literal a pattern matches is no longer than the pattern |
| Escape.PatternOfEscaped | src/pages/Reader.jsx:128-130 | the escaped text, read as a pattern, matches exactly the original text |
| Escape.EscapeHTMLIsOnePass | src/pages/Reader.jsx:327-332 | the three `replace` passes equal one pass mapping each character to its entity |
| Escape.EscapeHTMLAppend | src/pages/Reader.jsx:327-332 | escaping distributes over concatenation |
| Escape.EscapeHTMLSafe | src/pages/Reader.jsx:327-332 | the output has no `<` or `>`, every `&` begins `&amp;`, `&lt;` or `&gt;`, and text without `& < >` (quotes included) is unchanged |
| Escape.UnescapeEscapeHTML | src/pages/Reader.jsx:327-332 | decoding the three entities gives back the input |
| Paragraphs.TextOfAppend | src/pages/Reader.jsx:114 | a paragraph's text content is the concatenation of its segments' |
| Paragraphs.PlainPiece | src/pages/Reader.jsx:217-221 | a text node is a normalized plain paragraph with that text |
| Paragraphs.Render | src/pages/Reader.jsx:217-221 | one plain paragraph per content string, with that text |
| Paragraphs.WrapAllSpec | src/pages/Reader.jsx:115-118 | a global replace keeps the text, wraps only matches, leaves no match in plain text, yields a normalized paragraph whose plain stretches cover no match start (leftmost first), and wraps something iff a match exists |
| Paragraphs.WrapFromLeftmost | src/pages/Reader.jsx:117-118 | the scan wraps the leftmost match and resumes after it, so no plain segment covers a position where a match starts |
| Paragraphs.WrapFromNormalized | src/pages/Reader.jsx:117-118 | the replace leaves no empty text node and no two text nodes side by side |
| Paragraphs.LeftmostUnique | src/pages/Reader.jsx:117-118 | two normalized paragraphs spelling the same text, wrapping only matches and leftmost first, are equal |
| Paragraphs.WrapAllUnique | src/pages/Reader.jsx:115-118 | the replace result is the only normalized paragraph with the text of `t` that wraps only matches, leftmost first, and resumes after each |
| Paragraphs.MatchAtFolded | src/pages/Reader.jsx:115 | with the `i` flag, a match at p is an occurrence of the lowercased query in the lowercased text |
| Paragraphs.SearchMatchIffContains | src/pages/Reader.jsx:115-116 | `regex.test(text)` holds iff the text contains the query case-insensitively |
| Paragraphs.SearchParagraphSpec | src/pages/Reader.jsx:114-119 | searching keeps a paragraph's text; a paragraph containing the query gets marks around every occurrence, any other is untouched |
| Paragraphs.MarkSpellsQuery | src/pages/Reader.jsx:118 | every mark holds the query up to case |
| Paragraphs.Unmark | src/pages/Reader.jsx:104-106 | replacing each mark with a text node keeps the segments' texts and leaves no mark |
| Paragraphs.UnmarkText | src/pages/Reader.jsx:104-106 | unmarking keeps the text content |
| Paragraphs.Normalize | src/pages/Reader.jsx:107 | `normalize()` keeps the text content |
| Paragraphs.NormalizeShape | src/pages/Reader.jsx:107 | `normalize()` merges adjacent text nodes and adds no mark |
| Paragraphs.ClearParagraph | src/pages/Reader.jsx:103-108 | clearing keeps the text, leaves no mark, and leaves an unmarked paragraph as it was |
| Paragraphs.ClearMarks | src/pages/Reader.jsx:103-108 | clearing every paragraph keeps each text and leaves no mark |
| Paragraphs.ClearUndoesSearch | src/pages/Reader.jsx:103-118 | clearing the marks of a searched plain paragraph gives back the plain paragraph |
| Paragraphs.RestoreParagraphSpec | src/pages/Reader.jsx:197-206 | restoring a highlight keeps the text, wraps every match of the literal text in plain segments, keeps earlier segments, and adds no mark |
| Paragraphs.RestoreAddsSpan | src/pages/Reader.jsx:203-206 | a plain segment containing the text gets a span with the highlight's id |
| Annotations.ReadDoc | src/pages/Reader.jsx:170 | `JSON.parse(getItem(k) \|\| "{}")` gives a well-formed value when it succeeds |
| Annotations.AppendSpec | src/pages/Reader.jsx:170-172 | the push succeeds iff the book's slot is falsy or an array, and then the slot holds the old entries plus the new one while other books read as before |
| Annotations.AppendWellFormed | src/pages/Reader.jsx:171-173 | appending keeps the blob well formed |
| Annotations.AppendStoredReadsBack | src/pages/Reader.jsx:169-174 | a successful save, read back, is the old blob with the record appended |
| Annotations.HighlightEntryWellFormed | src/pages/Reader.jsx:161-168 | a highlight record is a well-formed object |
| Annotations.NoteEntryWellFormed | src/pages/Reader.jsx:250-257 | a note record is a well-formed object |
| Annotations.ChapterHighlightsSpec | src/pages/Reader.jsx:185-186 | the chapter's highlights are exactly the book's entries whose `chapter` equals the current one, in storage order |
| Annotations.HighlightAppendListed | src/pages/Reader.jsx:170-172 | after a push, the chapter's list gains the new entry at its end iff the entry is in that chapter |
| Annotations.ListedArray | src/pages/Reader.jsx:186 | for an array slot, the chapter list is the array filtered by chapter |
| Annotations.RestoreText | src/pages/Reader.jsx:197-206 | restoring one highlight keeps the number of paragraphs |
| Annotations.RestoreTextSpec | src/pages/Reader.jsx:197-206 | restoring one highlight keeps every paragraph's text and adds no search mark |
| Annotations.RestoreEntriesSpec | src/pages/Reader.jsx:190-192 | restoring all of a chapter's highlights keeps the text and adds no search mark |
| Annotations.Views | src/pages/Reader.jsx:275-286 | one view per stored note |
| Annotations.ViewsAppend | src/pages/Reader.jsx:275-286 | the views keep the notes' storage order |
| Annotations.NoteAppendListed | src/pages/Reader.jsx:259-262 | after a note is pushed, the notes view lists the earlier notes and then the new one |
| Annotations.NoteColor | src/pages/Reader.jsx:290-293 | the color is the default yellow iff the name is not blue, green or pink, and is always one of the four colors |
| Reader.GoToClamps | src/pages/Reader.jsx:74-77 | go-to gives max(1, min(total, n)): a chapter in range is kept, and one outside goes to the nearest end |
| Reader.PrevNextStayInBook | src/pages/Reader.jsx:66-73 | prev and next step by one and stop at 1 and at the last chapter, so a chapter in range stays in range |
| Reader.FontStepsStayValid | src/pages/Reader.jsx:79-84 | stepping keeps the size even and within 12..24, and steps at 24 or 12 change nothing |
| Reader.ThemeRoundTrip | src/pages/Reader.jsx:21 | the theme written as "dark"/"light" reads back as the same flag |
| Reader.RestoredChapter | src/pages/Reader.jsx:37-41 | a restored chapter is never 0 |
| Reader.ProgressRoundTrip | src/pages/Reader.jsx:39-40 | the stored `{chapter: c}` restores c for any nonzero c, unclamped, and nothing for 0 |
| Reader.NoProgressNoRestore | src/pages/Reader.jsx:39-40 | with no stored progress the chapter is not changed |
| Reader.KeysDistinct | src/pages/Reader.jsx:55 | the progress, highlights, notes and theme keys are distinct |
| Reader.HighlightsAppliedKeepText | src/pages/Reader.jsx:183-193 | applying the stored highlights keeps the text and adds no search mark |
| Reader.ApplyHighlights | src/pages/Reader.jsx:183-193 | the loop over the chapter's highlights gives the specified result, with a thrown error stopping it |
| Reader.ChapterViewSpec | src/pages/Reader.jsx:209-225 | for a defined chapter the container shows one paragraph per content string, with that text and no search mark, once the stored highlights are applied; for a missing chapter it is unchanged |
| Reader.AtomicHabitsGap | src/data/books.js:72-81 | navigating to chapters 2-5 of atomic-habits succeeds but leaves the previous paragraphs on screen |
| Reader.SearchAll | src/pages/Reader.jsx:111-119 | one result per paragraph |
| Reader.SearchAllSpec | src/pages/Reader.jsx:114-119 | each result keeps its paragraph's text, is marked iff the paragraph contains the query, and is untouched otherwise |
| Reader.SearchResultSpec | src/pages/Reader.jsx:98-119 | marks are always cleared first; the text never changes; a blank query adds no mark; otherwise a paragraph is marked iff it contains the query |
| Reader.ParagraphMarkedIff | src/pages/Reader.jsx:114-119 | a paragraph ends up marked iff it contains the untrimmed query case-insensitively |
| Reader.SearchOutcomeSpec | src/pages/Reader.jsx:109-124 | no query iff the query is blank; found iff some paragraph contains it, iff some paragraph ends up marked |
| Reader.FoundBeforeSpec | src/pages/Reader.jsx:112-117 | the flag after n paragraphs holds iff one of them contains the query |
| Reader.SearchResultOf | src/pages/Reader.jsx:111-119 | a loop result with each paragraph searched and the flag set gives the specified search result |
| Reader.MarkedHasMark | src/pages/Reader.jsx:118 | the wraps search adds are marks |
| Reader.TrimsToEmpty | src/pages/Reader.jsx:109 | `!q.trim()` holds iff q is blank |
| Reader.SearchContent | src/pages/Reader.jsx:98-124 | the paragraph loop computes the specified search result and outcome |
| Reader.NewHighlightFacts | src/pages/Reader.jsx:142-168 | the new record, with id "hl-" + time and the untrimmed text, is a well-formed object that belongs to the current chapter |
| Reader.SavedReadsBack | src/pages/Reader.jsx:169-174 | a successful save writes the old blob with the record appended |
| Reader.SavedHighlightListed | src/pages/Reader.jsx:169-174 | a saved highlight is the last entry its chapter lists afterwards |
| Reader.SavedNoteListed | src/pages/Reader.jsx:258-262 | a saved note is the last entry the notes view lists afterwards |
| Reader.ToastPreviewSpec | src/pages/Reader.jsx:175 | the toast is `Highlighted: "`, then the first min(30, n) characters of the text, then `..."` exactly when the text is longer than 30 and `"` exactly when it is not |
| Reader.OtherKeyKeepsState | src/pages/Reader.jsx:169-174 | writing the highlights or notes blob keeps the stored theme and progress |
| Reader.ProgressWritten | src/pages/Reader.jsx:51-57 | writing progress makes the stored state agree with the new chapter |
| Reader.ThemeWritten | src/pages/Reader.jsx:86-91 | writing the theme makes the stored state agree with the new theme |
| Reader.ReaderSession.constructor | src/pages/Reader.jsx:20-48 | the session starts valid at font 16 with the notes form closed, the theme read from storage and applied to the body, the restored chapter, that chapter's progress written, and an empty search query |
| Reader.ReaderSession.Mount | src/pages/Reader.jsx:30-57 | the mount effects: render chapter 1, write progress 1, then adopt the restored chapter and write it; the search query stays empty |
| Reader.ReaderSession.AdoptSaved | src/pages/Reader.jsx:39-40 | a restored chapter becomes current and is rendered and written, clearing the search query when the book has it; without one nothing changes |
| Reader.ReaderSession.FirstEffects | src/pages/Reader.jsx:43-57 | the first render: theme class, chapter 1 shown and written, the search query cleared when the book has chapter 1 |
| Reader.ReaderSession.ShowChapter | src/pages/Reader.jsx:209-225 | the container shows the chapter view, and the search query is cleared only when the chapter exists |
| Reader.ReaderSession.ChangeChapter | src/pages/Reader.jsx:51-57 | a new chapter is shown and written; the same chapter runs no effect |
| Reader.ReaderSession.Prev | src/pages/Reader.jsx:66-69 | the chapter becomes `PrevChapter` of the old one and the invariant holds; when it changes, progress is stored for it, the view is the new chapter rendered with its stored highlights and the search query is cleared for a known chapter; when it stays, content, storage and query are kept; font, theme and form are always kept |
| Reader.ReaderSession.Next | src/pages/Reader.jsx:70-73 | the chapter becomes `NextChapter` of the old one, with the same guarantees about progress, view, query, font, theme and form |
| Reader.ReaderSession.GoTo | src/pages/Reader.jsx:74-77 | the chapter becomes `GoToChapter(n, total)`, with the same guarantees about progress, view, query, font, theme and form |
| Reader.ReaderSession.IncreaseFont | src/pages/Reader.jsx:79-81 | the size becomes `IncreasedFont` of the old one; chapter, content, theme and form are kept |
| Reader.ReaderSession.DecreaseFont | src/pages/Reader.jsx:82-84 | the size becomes `DecreasedFont` of the old one; the rest is kept |
| Reader.ReaderSession.ToggleTheme | src/pages/Reader.jsx:86-91 | the flag flips, the body class follows it, and only `readerTheme` is written |
| Reader.ReaderSession.Search | src/pages/Reader.jsx:98-124 | the query is recorded and the content and outcome are the specified search result |
| Reader.ReaderSession.HighlightSelection | src/pages/Reader.jsx:133-180 | no range or a blank selection does nothing; a failing range reports the error; otherwise the record is appended to the book's highlights and the toast previews the text |
| Reader.ReaderSession.OpenNotes | src/pages/Reader.jsx:231-237 | the form opens and keeps its fields; chapter, content, font, theme and search query are kept |
| Reader.ReaderSession.EditNote | src/pages/Reader.jsx:23-26 | the form fields take the typed values; chapter, content, font, theme and search query are kept |
| Reader.ReaderSession.CloseNotes | src/pages/Reader.jsx:238-243 | the form closes and resets to "", not private, "yellow"; chapter, content, font, theme and search query are kept |
| Reader.ReaderSession.SaveNote | src/pages/Reader.jsx:244-268 | a blank note changes nothing; otherwise one note with the trimmed text, chapter, privacy and color is appended to the book's notes, and on success the form resets; chapter, content, font, theme and search query are kept |
| Reader.ReaderSession.ViewNotes | src/pages/Reader.jsx:270-288 | the notes view of what is stored for the book, or the parse error |
| Home.FilteredBooks | src/pages/Home.jsx:41-44 | the filtered list is no longer than the catalog |
| Home.FilteredBooksSpec | src/pages/Home.jsx:41-44 | a book is listed iff it is in the catalog and its lowercased title, or its non-empty lowercased author, contains the lowercased query; the list keeps catalog order |
| Home.IncludesEmpty | src/pages/Home.jsx:42 | every string includes the empty query |
| Home.EmptyQueryKeepsAll | src/pages/Home.jsx:41-44 | an empty query lists the whole catalog |
| Home.Recommendations | src/pages/Home.jsx:98 | the first min(3, n) filtered books, in order |
| Home.ReaderPath | src/pages/Home.jsx:34 | the route is "/reader/" followed by the book id |
| Home.HomePage.constructor | src/pages/Home.jsx:12-16 | no modal book and an empty query |
| Home.HomePage.SearchBooks | src/pages/Home.jsx:37-39 | the query is set and the modal is kept |
| Home.HomePage.OpenModal | src/pages/Home.jsx:23-26 | the modal shows the book and the body stops scrolling |
| Home.HomePage.CloseModal | src/pages/Home.jsx:27-30 | the modal closes and the body scrolls again |
| Home.HomePage.StartReading | src/pages/Home.jsx:32-35 | the modal closes and the route is the book's reader page |
| Home.HomePage.ToggleFavourite | src/pages/Home.jsx:181-187 | the book's favourite flag is toggled, no other key changes, and the alert says which way |
| Modal.ModalView.constructor | src/components/Modal.jsx:5-13 | the props are stored, and the first run of the `isOpen` effect leaves `modal-open` on the body exactly when the modal mounts open, keeping every other body class |
| Modal.ModalView.SetOpen | src/components/Modal.jsx:6-13 | the body has `modal-open` iff the modal is open; other body classes are kept |
| Modal.ModalView.Unmount | src/components/Modal.jsx:14 | cleanup removes `modal-open` and nothing else |
| Modal.ModalView.KeyDown | src/components/Modal.jsx:18-20 | Escape asks to close iff the modal is open; other keys never do |
| Modal.ModalView.OverlayClick | src/components/Modal.jsx:25-27 | a click closes iff its target has class `modal`, so a click on the content box does not |
| Modal.ModalView.ToggleFavourite | src/components/Modal.jsx:72-78 | the flag is toggled in storage, and the button is `active` iff the key now holds "1" |
| Modal.ModalView.RatingStars | src/components/Modal.jsx:103 | the shown book's rating gives five stars when it is within 0..5 |
| BookCard.Card.constructor | src/components/BookCard.jsx:4 | the props are stored |
| BookCard.Card.Click | src/components/BookCard.jsx:8-49 | a click on the card or on View opens the modal exactly once, the favourite and download buttons never do; only the favourite button writes storage, only its own key, and leaves the button `active` iff the key holds "1"; only download alerts |
| Sidebar.MenuItemsDistinct | src/components/Sidebar.jsx:12-18 | five entries with pairwise distinct ids and routes |
| Sidebar.InitialCollapsed | src/components/Sidebar.jsx:6-8 | the sidebar starts expanded iff exactly "true" is stored |
| Sidebar.ReloadInverts | src/components/Sidebar.jsx:6-8 | after toggling to s and reloading, the sidebar starts with `collapsed == !s` |
| Sidebar.SidebarState.constructor | src/components/Sidebar.jsx:6-9 | `collapsed` is read from storage and the home entry is active |
| Sidebar.SidebarState.Toggle | src/components/Sidebar.jsx:45-49 | the flag flips and only `sidebarExpanded` is written, "true" iff the new collapsed value is true |
| Sidebar.SidebarState.MenuClick | src/components/Sidebar.jsx:20-23 | the clicked entry becomes active and its route is returned |
| Sidebar.OneActiveEntry | src/components/Sidebar.jsx:31 | after a menu click exactly the clicked entry is shown active |

## Left out

- Case folding covers ASCII letters only. The source's `toLowerCase` and the `i` regex flag use Unicode case mapping.
- Object lookups are own-key lookups. Inherited `Object.prototype` names such as `constructor` are not modelled.
- JSON numbers are integers. Fractions, exponents and surrogate-pair `\u` escapes make the model's parser fail.
- `Date.now`, `new Date().toISOString()` and `toLocaleString` are parameters or left out. The highlight's `position` is left out: it is screen geometry.
- Range extraction and DOM insertion are reduced to one flag: whether the range throws. The selected text is a parameter.
- Paragraph texts are plain text. Search marking writes the replaced text back through `innerHTML` (src/pages/Reader.jsx:118), so a chapter text holding `<` or `&` would be re-parsed as markup there; the model keeps it as text. The catalog's chapter strings hold neither character.
- Highlight restoration wraps matches inside plain text segments only. Matches across or inside earlier markup, attributes or entities, and `$` patterns in the replacement, are not modelled.
- Highlights whose text contains `&`, `<`, `>` or a non-breaking space, or is empty, are not restored: in the source they are matched against serialized markup.
- Toasts, scrolling, `setTimeout` focus, the notes modal's markup, `Math.random` review counts and alerts are presentation only. Where the source shows a message it is a returned value.
- The progress bar percentage is floating-point arithmetic and is not modelled. Ratings are whole tenths of a star.
- JSON key order follows insertion. Book ids are assumed not to need escaping in markup. Strings are sequences of characters, not UTF-16 code units.
- Reader.RestoredChapter: a stored `chapter` that is truthy but not a number (a non-empty string, an object) is not adopted. The source adopts it as is.
- Storage quota failures are modelled for the highlight and note writes only. The progress and theme writes always succeed.
- An unknown book id crashes the reader page's render in the source. The model takes the book as given.
- The modal component's Start Reading button only calls its callback and is not modelled. The navigation bar, the static pages and the routing shell have no logic and are not modelled.
