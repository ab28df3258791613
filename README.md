# Recipe recommender: verified model of its deterministic core

The application is a single Streamlit page. A user types a comma-separated
list of ingredients and searches a recipe service with it. The page shows
each result with a button to save it to, or remove it from, a per-session
favorites list. The favorites can be downloaded as a text file. The module
also defines a renderer that shows a recipe's instruction text as a
bulleted list of sentences, although no part of the page calls it.

This project models the four deterministic parts of `apiGenerator.py`:

- **Ingredient parsing** (`Ingredients`): the typed text is split on
  commas. Each piece is stripped and lower-cased, and blank pieces are
  dropped.
- **Instruction rendering** (`Instructions`), modelled even though the
  page never calls it: the plain text is split on
  periods. Each piece is stripped, blank pieces are dropped, and every
  sentence is shown as `- sentence.` under a heading.
- **Favorites export** (`Export`): each favorite gives one entry, its
  title line and its image line. The entries are joined by the two
  characters backslash and `n`, as the code writes it.
- **Favorites toggle** (`Favorites`): the session state is the favorites
  list plus one `fav_<id>` flag per recipe. It is modelled twice:
  - as a pure state machine (`Session`, `Step`, `Run`), with the invariant
    proved over any sequence of interactions;
  - as the class `FavoritesStore`, whose fields are updated in place the
    way the page updates its session state.

The shared string primitives live in `Text`. They are Python's
`str.split` on one character, `str.strip()`, `str.lower()`, `str.join`,
and the "strip each piece, drop blanks" comprehension. `Recipes` holds the
recipe record.

Whitespace and case follow Python for ASCII only. Whitespace is space,
characters 9 to 13 and 28 to 31. Lower-casing maps `A`-`Z` to `a`-`z`.

## Model

| member | source | states |
|---|---|---|
| `Text.Split` | apiGenerator.py:65 | `s.split(sep)` always gives at least one piece, even for the empty string |
| `Text.SplitPieces` | apiGenerator.py:65 | `s.split(sep)` gives exactly one more piece than there are separators, and no piece contains the separator |
| `Text.JoinWith` | apiGenerator.py:40 | `sep.join(parts)` is empty for no parts, and otherwise starts with its first part |
| `Text.JoinLength` | apiGenerator.py:40 | a non-empty join is exactly as long as all parts together plus one separator fewer than there are parts |
| `Text.JoinSplit` | apiGenerator.py:65 | joining the pieces with the separator gives back the input: `sep.join(s.split(sep)) == s` |
| `Text.SplitAppend` | apiGenerator.py:49 | the pieces of `a + sep + b` are the pieces of `a` followed by the pieces of `b` |
| `Text.TrimStart` | apiGenerator.py:49 | the result is a suffix of the input, everything removed is whitespace, and the result does not start with whitespace |
| `Text.TrimEnd` | apiGenerator.py:49 | the result is a prefix of the input, everything removed is whitespace, and the result does not end with whitespace |
| `Text.Strip` | apiGenerator.py:49 | `s.strip()` has no whitespace at either end, uses only characters of `s`, and is empty exactly when `s` is all whitespace |
| `Text.StripCut` | apiGenerator.py:49 | `s.strip()` is a slice `s[i..j]` with only whitespace before `i` and after `j`, so it is exactly `s` with its outer whitespace cut away |
| `Text.StripTrimmed` | apiGenerator.py:49 | stripping an already trimmed string changes nothing |
| `Text.StripIdempotent` | apiGenerator.py:49 | stripping twice gives the same string as stripping once |
| `Text.Lower` | apiGenerator.py:65 | `s.lower()` keeps the length, leaves no upper-case letter, changes no other character, and maps each upper-case letter to its lower-case partner |
| `Text.LowerKeeps` | apiGenerator.py:65 | lower-casing keeps a trimmed string trimmed, and a non-letter such as `,` is in the result exactly when it is in the input |
| `Text.KeepOne` | apiGenerator.py:49 | one piece gives at most one field: none only when the piece is all whitespace, and otherwise its stripped form, which is non-empty, trimmed and no longer than the piece |
| `Text.KeepStripped` | apiGenerator.py:49 | the kept pieces are non-empty and trimmed, and there are no more of them than input pieces |
| `Text.TrimmedFields` | apiGenerator.py:49 | each field is non-empty, trimmed and free of the separator; there is at most one more field than separators |
| `Text.TrimmedFieldsAppend` | apiGenerator.py:49 | fields keep source order: the fields of `a + sep + b` are those of `a` followed by those of `b` |
| `Text.TrimmedFieldsSingle` | apiGenerator.py:49 | a stretch without the separator gives its stripped form as one field, or no field when it is blank |
| `Ingredients.ParseIngredients` | apiGenerator.py:65 | every ingredient is non-empty, has no leading or trailing whitespace, holds no comma and no upper-case letter; there is at most one more ingredient than commas |
| `Ingredients.IngredientsAppend` | apiGenerator.py:65 | ingredients keep the order they were typed in: the list for `a,b` is the list for `a` followed by the list for `b` |
| `Ingredients.IngredientsSingle` | apiGenerator.py:65 | comma-free text names one ingredient, its stripped and lower-cased form, or none when it is blank |
| `Instructions.Sentences` | apiGenerator.py:49 | sentences are non-empty, trimmed and hold no period; there is at most one more of them than periods |
| `Instructions.Bullet` | apiGenerator.py:52 | a bullet is three characters longer than its sentence: a dash and a space, the sentence itself, and a closing period |
| `Instructions.BulletPeriod` | apiGenerator.py:52 | a sentence without a period is shown with exactly one period, which ends the line |
| `Instructions.HeadedBullets` | apiGenerator.py:50-52 | the loop writes the heading, then one bullet per sentence in order; when no sentence holds a period, every bullet ends in its single period |
| `Instructions.RenderInstructions` | apiGenerator.py:42-52 | empty instructions show only the notice; otherwise the heading is followed by one bullet per sentence, in order, and each bullet ends in its single period |
| `Export.Entry` | apiGenerator.py:39 | a favorite's entry is its title, a line break, its image address and a closing line break, each at its exact position |
| `Export.ExportText` | apiGenerator.py:36-40 | the exported text is empty exactly when there are no favorites |
| `Export.DownloadFavoritesText` | apiGenerator.py:36-40 | the loop builds the entries of all favorites in order and joins them with backslash-`n`; the text is empty exactly when there are no favorites |
| `Export.ExportCons` | apiGenerator.py:36-40 | with two or more favorites, the export is the first entry, then backslash-`n`, then the export of the rest |
| `Export.ExportLines` | apiGenerator.py:36-40 | with single-line fields, the export has `2n + 1` lines: the first title, each image address on its own line, each later title preceded by backslash-`n`, and an empty last line |
| `Export.ExportGarblesSecondTitle` | apiGenerator.py:40 | with two or more favorites, the second title never forms a line of its own |
| `Export.IntendedExportText` | apiGenerator.py:36-40 | the export joined with a line break is empty exactly when there are no favorites |
| `Export.IntendedCons` | apiGenerator.py:36-40 | with two or more favorites, the intended export is the first entry, a line break, then the intended export of the rest |
| `Export.IntendedExportLines` | apiGenerator.py:36-40 | joined with a line break instead, the export has `3n` lines: each title, its image address and an empty line |
| `Favorites.RemoveId` | apiGenerator.py:118-120 | after the filter no entry has the removed identifier, and the list is no longer than before |
| `Favorites.RemoveIdAppend` | apiGenerator.py:118-120 | the filter keeps relative order: filtering `a + b` filters `a` and `b` separately |
| `Favorites.RemoveIdMembers` | apiGenerator.py:118-120 | an entry survives exactly when it was on the list and has another identifier |
| `Favorites.RemoveIdHasId` | apiGenerator.py:118-120 | after the filter an identifier is present exactly when it was present before and is not the removed one |
| `Favorites.RemoveIdKeeps` | apiGenerator.py:118-120 | the filter keeps identifiers unique and keeps every entry's image |
| `Favorites.RemoveIdDropsOne` | apiGenerator.py:117-121 | with unique identifiers, removing a present identifier shortens the list by exactly one |
| `Favorites.RemoveIdUnchanged` | apiGenerator.py:118-120 | removing an identifier that is not on the list changes nothing |
| `Favorites.Offered` | apiGenerator.py:111-116 | a result gets no button exactly when it has no image; otherwise it gets "Remove" exactly when its flag is set, and "Save" when it is not |
| `Favorites.Step` | apiGenerator.py:95-121 | a result without an image changes nothing; a displayed result's flag exists afterwards; a click inverts that flag and nothing else changes it; no other result's flag changes; the list changes only on a click |
| `Favorites.OfferedMatchesList` | apiGenerator.py:107-117 | in a consistent store, "Save" is offered exactly for a displayed result not on the list, and "Remove" exactly for one on it |
| `Favorites.StepKeepsConsistent` | apiGenerator.py:107-122 | every display or click keeps the invariant: flag set iff on the list, no identifier twice, every favorite has an image |
| `Favorites.StepEffect` | apiGenerator.py:111-121 | "Save" appends the result to the unchanged list, grows it by one and sets the flag; "Remove" makes the list the order-keeping filter on the identifier, so it leaves no entry with that identifier, keeps the rest, shrinks the list by one and clears the flag; no click changes no favorite |
| `Favorites.Run` | apiGenerator.py:107-122 | a sequence of results displayed without any click leaves the favorites list as it was |
| `Favorites.RunKeepsConsistent` | apiGenerator.py:107-122 | any sequence of interactions from a consistent state ends in a consistent state |
| `Favorites.ReachableConsistent` | apiGenerator.py:107-122 | from a new session (no favorites, no flags), any sequence of save and remove clicks keeps the invariant |
| `Favorites.FavoritesStore.constructor` | apiGenerator.py:55-56 | a new session starts with an empty list and no flags, which satisfies the invariant |
| `Favorites.FavoritesStore.Visit` | apiGenerator.py:95-122 | shows the button `Offered` picks; the new list and flags are `Step` of the old ones (append and set on "Save", filter and clear on "Remove"); the invariant is kept |
| `Favorites.FavoritesStore.Download` | apiGenerator.py:170 | the store's invariant guarantees every favorite has its title/image pair, so the export is defined; it is empty exactly when the list is |

## Left out

- The recipe service calls `get_recipes_by_ingredients` and `get_recipe_info` (apiGenerator.py:12-34), with their fallback to an empty result. These are network I/O.
- The chat-completion call of the cooking assistant and its error display (apiGenerator.py:73-88). This is a foreign service.
- The page's use of `render_instructions`: nothing in apiGenerator.py calls it (it is defined at apiGenerator.py:42). `RenderInstructions` models the function itself, not a page element.
- The HTML-to-text step of `render_instructions` (apiGenerator.py:47-48). It is a library call. `RenderInstructions` takes its output as the parameter `plainText`. A `None` instruction blob is modelled as the empty string.
- All page rendering: columns, images, expanders, messages, the download button, the recipe links and the nutrition display (apiGenerator.py:93-173, except the toggle). The secrets lookup (apiGenerator.py:8-9), the result-count slider and the search trigger (apiGenerator.py:66, 90) are left out too.
- Unicode behaviour of `str.strip` and `str.lower`. Only ASCII whitespace and ASCII letters are modelled.
- The `isinstance(recipe, dict)` test (apiGenerator.py:95). Every result is a `Recipe` record here. The used and missing ingredient lists are only displayed, so they are not in the record.
- The title is taken to be always present. The page shows a fallback title when it is missing (apiGenerator.py:103), but the export (apiGenerator.py:39) reads it unconditionally. Only the image is optional, because the page tests for it (apiGenerator.py:95).
- Page reruns and widget keys. One `Step` is one result displayed with its button clicked or not. Clicks on several buttons in one rerun are not modelled.

## Findings

| source | as written | input that shows it | evidently intended | confidence | as-written member | corrected member |
|---|---|---|---|---|---|---|
| apiGenerator.py:40 | entries are joined with `"\\n"`, the two characters backslash and `n` | two favorites titled `Soup` and `Cake`: the third line of the file reads `\nCake`, not `Cake` | entries joined with a line break, so every title starts a line of its own | medium, not executed | `Export.ExportGarblesSecondTitle` | `Export.IntendedExportLines` |

`Export.DownloadFavoritesText` models the join as written, because that is
the text the page offers for download. The intended separator is defined
beside it as `Export.IntendedExportText`, and its line structure is proved
in `Export.IntendedExportLines`.
