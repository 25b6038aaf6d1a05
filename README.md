# Note-taking page: note store and edit session

This project models the logic of a browser note-taking page (`script.js`).
The page keeps a list of notes, each with an id, a title, a content, a
colour and a timestamp. The user can add a note, edit one, delete one, pick
the colour of the next save, and filter the displayed list with a search box.
Every change to the list is written to the browser's local storage.

The model has four modules:

- `JsString` (JsString.dfy) models the string built-ins the page uses.
  - `Trim` strips exactly the characters ECMAScript's `trim` strips.
  - `ToLower` lower-cases ASCII letters.
  - `Includes` is substring containment, specified by an occurrence index.
- `JsArray` (JsArray.dfy) models `Array.prototype.filter` and `findIndex`, with lemmas about order, concatenation and idempotence.
- `Notes` (Notes.dfy) holds the pure parts of the page:
  - the `Note` record;
  - finding and deleting a note by id;
  - the search filter;
  - the 150-character content preview;
  - the dark-colour test that picks the text colour of a note.
- `NoteBoard` (NoteBoard.dfy) holds the mutable state in class `Board`:
  - `notes` is the list;
  - `selectedColor` is the colour of the next save;
  - `mode` is the form's edit session, `Creating` or `Editing(id)`;
  - `palette` holds the colour option buttons' values;
  - the ghost field `persisted` is the last list written to storage, and the ghost field `writes` counts the writes.

  `Valid()` says that storage always holds the current list. Every method keeps it. Each method's `ensures` states the whole new state.

  Two client methods, `CreateWalkthrough` and `StaleEditWalkthrough`, step through short scripted sessions, checked by the verifier against these contracts:
  - two saves in creation mode append two notes in order;
  - the note being edited is deleted, and the next save then changes no note.

Some of what the code does may not be what a reader would expect:

- Ids come from the clock and are not checked for uniqueness. `IndexOfId` and every edit therefore use the first note with the id. `Without` removes all notes with the id.
- A note has one `timestamp`, overwritten on every save. There is no separate creation time.
- Saving an edit whose id no longer resolves does not report an error. It leaves the list as it was, but it still writes storage and closes the session.
- Deleting the note being edited does not end the edit session. `StaleEditWalkthrough` shows the consequence: the next submission of the form is dropped.
- Deleting reports nothing, and new notes are appended at the end.

## Model

| member | source | states |
|---|---|---|
| `JsString.Trim` | script.js:35-36 | the result is the infix of the input that remains once the whitespace at both ends is removed; it is empty iff the input is all whitespace, and otherwise it starts and ends with non-whitespace |
| `JsString.TrimUnchanged` | script.js:35-36 | a string with no whitespace at either end trims to itself |
| `JsString.TrimIdempotent` | script.js:35-36 | trimming twice equals trimming once |
| `JsString.ToLower` | script.js:262 | lower-casing keeps the length and maps every character on its own (ASCII letters to lower case, every other character to itself) |
| `JsString.ToLowerIdempotent` | script.js:266-267 | lower-casing a lower-cased string changes nothing |
| `JsString.Includes` | script.js:266-267 | true iff the term occurs at some index of the string (the empty term occurs in every string) |
| `JsArray.Filter` | script.js:183 | the result is no longer than the input, holds only input elements that pass, and holds every input element that passes |
| `JsArray.FilterIsSubsequence` | script.js:265 | filtering keeps the order: the result is a subsequence of the input |
| `JsArray.FilterAppend` | script.js:183 | filtering a concatenation is the concatenation of the filtered parts |
| `JsArray.FilterAllPass` | script.js:183 | when every element passes, the result is the input |
| `JsArray.FilterNonePass` | script.js:265 | when no element passes, the result is empty |
| `JsArray.FilterDropsFailing` | script.js:183 | when some element fails, the result is strictly shorter |
| `JsArray.FilterIdempotent` | script.js:183 | filtering twice equals filtering once |
| `JsArray.FindIndex` | script.js:46 | the first index whose element passes, or -1 exactly when no element passes |
| `Notes.IndexOfId` | script.js:46 | the first index holding the id, or -1 exactly when no note has it |
| `Notes.Without` | script.js:183 | deleting keeps exactly the notes whose id differs, and never makes the list longer |
| `Notes.WithoutKeepsOrder` | script.js:183 | the notes left after a delete are in their original order |
| `Notes.WithoutAppend` | script.js:183 | deleting from a concatenation deletes from both parts |
| `Notes.WithoutAbsent` | script.js:183 | deleting an id that no note has leaves the list unchanged |
| `Notes.WithoutPresent` | script.js:183 | deleting an id that some note has makes the list strictly shorter |
| `Notes.WithoutIdempotent` | script.js:183 | after a delete no note has the id, and deleting it again changes nothing |
| `Notes.Search` | script.js:262-268 | an empty query returns the list itself; the result is no longer than the list, holds only notes whose lower-cased title or content contains the lower-cased query, and holds every such note |
| `Notes.SearchKeepsOrder` | script.js:264-268 | search results keep the list's order |
| `Notes.SearchAppend` | script.js:264-268 | searching a concatenation is the concatenation of the two searches |
| `Notes.SearchIgnoresQueryCase` | script.js:262 | lower-casing the query first does not change the result |
| `Notes.MatchesEmptyTerm` | script.js:266-267 | every note matches the empty term, because the empty string occurs in every string |
| `Notes.SearchNoMatch` | script.js:264-268 | a query that no note matches gives an empty result (for the empty query only the empty list qualifies) |
| `Notes.SearchAllMatch` | script.js:264-268 | a query that every note matches gives back the whole list |
| `Notes.SearchScenario` | script.js:262-268 | the query "MILK" finds a note by the "Milk" that opens its title and another by the "milk" inside its content ("a milk"), in list order |
| `Notes.Truncate` | script.js:105-106 | content of at most 150 characters is shown whole; longer content shows its first 150 characters followed by "..."; a preview is never longer than 153 characters |
| `Notes.TruncateIdempotent` | script.js:105-106 | truncating a preview again gives the same preview |
| `Notes.ParseHexPair` | script.js:169-171 | two hexadecimal digits parse to a value below 256 |
| `Notes.HexDigit` | script.js:169-171 | the digit written for a value below 16 is a lower-case hexadecimal digit that parses back to that value |
| `Notes.HexPair` | script.js:169-171 | a value below 256 is written as two lower-case hexadecimal digits |
| `Notes.ParseHexPairRoundTrip` | script.js:169-171 | parsing the two digits written for a value below 256 gives that value back |
| `Notes.HexPairOfParse` | script.js:169-171 | writing the value of two parsed digits gives the digits back, lower-cased |
| `Notes.HexDigitIgnoresCase` | script.js:169-171 | an upper-case digit and its lower-case form parse to the same value, and writing that value gives the lower-case form |
| `Notes.ParseHexPairIgnoresCase` | script.js:169-171 | lower-casing a pair does not change the value it parses to |
| `Notes.IsColorDark` | script.js:162-179 | false for the empty string, "white", "transparent" and any colour not starting with '#'; for `#rrggbb`, true iff 299r + 587g + 114b < 128000, the exact form of the YIQ brightness being below 128 |
| `Notes.IsColorDarkThreshold` | script.js:177-178 | black is dark and white is not; `#7f7f7f` (brightness 127) is dark and `#808080` (brightness 128) is not |
| `NoteBoard.Board.constructor` | script.js:11-12 | startup: the stored list, storage in step with it, white selected, the form in creation mode |
| `NoteBoard.Board.SaveToLocalStorage` | script.js:76-78 | one write: storage now holds the current list, and nothing else changes |
| `NoteBoard.Board.SelectColor` | script.js:232-241 | clicking a colour option selects that colour and changes nothing else |
| `NoteBoard.Board.ResetForm` | script.js:213-228 | white is selected and the form is back in creation mode; the list and storage are untouched |
| `NoteBoard.Board.EditNote` | script.js:188-211 | when no note has the id, nothing changes; otherwise the form edits that id, and the note's colour is selected when some colour option offers it (otherwise the selection is kept); the list and storage never change |
| `NoteBoard.Board.DeleteNote` | script.js:181-186 | the list becomes the notes whose id differs, in order; exactly one write, so storage equals the list; the edit session and the selected colour are kept |
| `NoteBoard.Board.SaveNote` | script.js:34-74 | a blank trimmed title or content changes nothing, storage included. Otherwise: in creation mode exactly one note (trimmed title and content, the selected colour, the given id and timestamp) is appended; in edit mode the first note with the edited id is replaced at its index, keeping its id, with every other index and the length unchanged, and the list is unchanged if the id has gone. Every accepted save writes storage once (storage equals the list) and ends in creation mode with white selected |

## Left out

- Rendering is not modelled: `displayNotes`, the note markup, the expand-on-click toggling, the text colour chosen from `IsColorDark`, the empty-list message, the view toggle and the removal of the theme preference (script.js:1-26, 80-159, 245-258). They only produce the page's markup.
- Form fields and buttons are not modelled: the title and content inputs that `editNote` fills and `resetForm` clears, the submit button's label, and the `selected` class of the colour options. Inputs enter the model as the arguments of `SaveNote`.
- Local storage and JSON are not modelled. A ghost snapshot `persisted` stands for storage. The constructor takes the list read at startup; the page's fallback to an empty list when nothing is stored is the caller passing `[]`.
- The clock is not modelled. `Date.now()` and `new Date().toISOString()` become the `now` and `timestamp` arguments of `SaveNote`, and `toLocaleString()` is rendering.
- Ids arrive as numbers. The conversion `Number(dataset.id)` of the clicked element's attribute is not modelled. Ids are not claimed to be unique, because the page does not guarantee it.
- JsString.ToLower: lower-cases ASCII letters only. Other letters are left as they are, because Unicode case mapping is not modelled. The search is therefore case-insensitive over ASCII letters only.
- JsString.Trim: works on Unicode characters, while the page works on UTF-16 code units. The characters `trim` strips are all single code units, so trimming agrees.
- Notes.Truncate: counts Unicode characters, while the page counts UTF-16 code units, so the two disagree on text with characters outside the Basic Multilingual Plane.
- Notes.IsColorDark: requires a colour that starts with '#' to have six hexadecimal digits after it. `parseInt` on malformed digits gives NaN or a partial value, and that case is not modelled.
- NoteBoard.Board.SelectColor: requires the colour to be one of the palette's. The page attaches this handler to the colour option buttons only.

