# Real-time bookmark dashboard — Dafny model

This project models the logic of the bookmark dashboard page of a small
personal bookmark manager. The page keeps the signed-in user's bookmarks in
one in-memory list. The list is seeded from an initial read of the
`bookmarks` table and then kept in step with the table's realtime change
feed (INSERT, DELETE and UPDATE events). Before a new bookmark is submitted,
the page checks the title and URL the user typed.

Modules:

- `Wrappers` (`wrappers.dfy`): `Option`, the value-or-nothing that the initial read hands back.
- `BookmarkList` (`bookmark_list.dfy`): the bookmark record, the change event,
  and the pure reducer the change-feed callback hands to `setBookmarks`. Each
  event kind has its own lemmas. INSERT absorbs known ids and is idempotent.
  DELETE removes exactly the matching entries and keeps the rest in order.
  UPDATE keeps positions. No event creates a duplicate id, and neither does
  any stream of events.
- `Validation` (`validation.dfy`): `validateForm` as an imperative method
  (`ValidateFields`). Beside it are the specification functions `TitleError`
  and `UrlError`, `String.prototype.trim` over the ECMAScript white-space and
  line-terminator set, `length` as a count of UTF-16 code units, and
  `toLowerCase` as ASCII case folding.
- `Dashboard` (`dashboard.dfy`): the component as a class. Its fields
  `bookmarks` and `errors` are two of the component's five `useState` slots
  (lines 19-23). `LoadSnapshot` and `OnChange` replace `bookmarks` the way the
  `setBookmarks` calls at lines 47, 62, 69 and 75 do. `ValidateForm` replaces
  `errors` the way `setErrors` at line 124 does. `Valid()` states that ids
  are unique.

The URL constructor (`new URL(...)`, the basic URL parser of the WHATWG URL
Standard, section 4.4) is not modelled. It is the parameter
`parses: string -> bool`, which holds when the constructor returns instead of
throwing.

Two facts about the code shape the model:

- The code awaits the initial read and calls `setBookmarks(data || [])`
  before it subscribes to the change feed (lines 41-81), so no event reaches
  the list before the snapshot. An INSERT event for a row the list already
  holds returns the list unchanged (`InsertKnownIdUnchanged`). The same
  INSERT delivered twice is absorbed (`InsertIdempotent`).
- DELETE and UPDATE act on every entry with the event's id (`filter` and
  `map`). With unique ids (`Valid()`) that is one entry
  (`RemoveUniquePresent`, and the DELETE clause of `OnChange`).

## Model

| member | source | states |
|---|---|---|
| `BookmarkList.Insert` | bookmark-app/app/dashboard/page.tsx:61-65 | the result holds the record's id (`HasId`, the `some` test of line 63); it keeps every old entry and adds nothing but the record |
| `BookmarkList.Remove` | bookmark-app/app/dashboard/page.tsx:68-72 | an entry survives exactly when it was in the list and its id differs from the deleted id; the list never grows |
| `BookmarkList.Replace` | bookmark-app/app/dashboard/page.tsx:74-78 | same length; each position whose id matches now holds the new record, every other position is unchanged |
| `BookmarkList.Apply` | bookmark-app/app/dashboard/page.tsx:60-79 | one event grows the list by at most one entry, and every entry afterwards was there before or is the event's record |
| `BookmarkList.InsertKnownIdUnchanged` | bookmark-app/app/dashboard/page.tsx:63 | an INSERT whose id is already present returns the list unchanged |
| `BookmarkList.InsertNewIdPrepends` | bookmark-app/app/dashboard/page.tsx:64 | an INSERT of an absent id puts the record at index 0 and keeps the old list, in order, behind it |
| `BookmarkList.InsertIdempotent` | bookmark-app/app/dashboard/page.tsx:62-65 | delivering the same INSERT twice gives the same list as delivering it once |
| `BookmarkList.RemoveKeepsOthers` | bookmark-app/app/dashboard/page.tsx:70 | DELETE keeps each entry with another id exactly as many times as it occurred |
| `BookmarkList.RemoveIsSubsequence` | bookmark-app/app/dashboard/page.tsx:70 | the survivors of a DELETE keep their original relative order |
| `BookmarkList.RemoveAbsent` | bookmark-app/app/dashboard/page.tsx:70 | deleting an id that is not in the list returns the list unchanged |
| `BookmarkList.RemoveUniquePresent` | bookmark-app/app/dashboard/page.tsx:70 | with unique ids, deleting the id at index k cuts out exactly that entry |
| `BookmarkList.UpdateAbsent` | bookmark-app/app/dashboard/page.tsx:76 | updating an id that is not in the list returns the list unchanged |
| `BookmarkList.UniqueCons` | bookmark-app/app/dashboard/page.tsx:63-64 | a list with a record in front has unique ids exactly when the tail does and lacks the record's id |
| `BookmarkList.RemovePreservesUnique` | bookmark-app/app/dashboard/page.tsx:70 | DELETE keeps ids unique |
| `BookmarkList.ReplacePreservesUnique` | bookmark-app/app/dashboard/page.tsx:76 | UPDATE keeps ids unique |
| `BookmarkList.ApplyPreservesUnique` | bookmark-app/app/dashboard/page.tsx:60-79 | every event kind keeps ids unique |
| `BookmarkList.ApplyAllPreservesUnique` | bookmark-app/app/dashboard/page.tsx:60-79 | any stream of events, started from a list with unique ids, keeps ids unique |
| `BookmarkList.DeleteThenInsertKeepsOrder` | bookmark-app/app/dashboard/page.tsx:62-71 | a DELETE followed by an INSERT leaves the survivors in their old order, with at most the new record in front |
| `BookmarkList.SnapshotInsertDeleteDuplicate` | bookmark-app/app/dashboard/page.tsx:47-78 | snapshot [1], INSERT 2 gives [2, 1]; DELETE 1 gives [2]; a late duplicate INSERT 2 leaves [2] |
| `Validation.MessagesDistinct` | bookmark-app/app/dashboard/page.tsx:92-119 | the five messages differ from each other, and only "no error" is the empty string |
| `Validation.FirstKept` | bookmark-app/app/dashboard/page.tsx:95 | the index where the trimmed string starts: everything from the scan's start up to it is white space, and it is the end of the string or a code point that is not white space |
| `Validation.EndKept` | bookmark-app/app/dashboard/page.tsx:95 | the index where the trimmed string ends: everything from it up to the scan's start is white space, and it is the scan's lower bound or just past a code point that is not white space |
| `Validation.Trim` | bookmark-app/app/dashboard/page.tsx:95 | the result is an infix of the input, and everything dropped before and after it is white space (`TrimmedAt`, with `IsTrimmable` the ECMAScript WhiteSpace and LineTerminator set); it has no white space at either end; it is empty exactly when the input is all white space |
| `Validation.TrimIdempotent` | bookmark-app/app/dashboard/page.tsx:95 | trimming a trimmed string changes nothing |
| `Validation.TrimNoEnds` | bookmark-app/app/dashboard/page.tsx:95 | a string with no white space at either end is its own trim |
| `Validation.Utf16Length` | bookmark-app/app/dashboard/page.tsx:98 | the UTF-16 length lies between the number of code points and twice that, and equals it on the Basic Multilingual Plane |
| `Validation.Utf16LengthAppend` | bookmark-app/app/dashboard/page.tsx:98 | the UTF-16 length of a concatenation is the sum of the parts' lengths |
| `Validation.Utf16LengthSnoc` | bookmark-app/app/dashboard/page.tsx:98 | appending one code point adds two code units when it is above U+FFFF and one otherwise, which fixes the exact count |
| `Validation.Lower` | bookmark-app/app/dashboard/page.tsx:108 | same length; no upper-case ASCII letter is left; each position is equal to the input's up to ASCII case |
| `Validation.LowerNoUpper` | bookmark-app/app/dashboard/page.tsx:108 | a string without upper-case ASCII letters is unchanged by lowering |
| `Validation.TitleError` | bookmark-app/app/dashboard/page.tsx:95-101 | "Title is required" exactly when the title is all white space; "too short" exactly when the trim is non-empty but under 3 code units; otherwise no error |
| `Validation.UrlError` | bookmark-app/app/dashboard/page.tsx:103-121 | "URL is required" exactly when the URL is all white space; the scheme error exactly when the lowered trim starts with neither http:// nor https:// (`HasWebScheme`, lines 110-111); the invalid-URL error exactly when the scheme is right and parsing fails; otherwise no error |
| `Validation.ValidateFields` | bookmark-app/app/dashboard/page.tsx:92-123 | the messages are the title and URL errors, and the flag is true exactly when both are empty |
| `Validation.ValidIff` | bookmark-app/app/dashboard/page.tsx:92-125 | the form passes exactly when the trimmed title has at least 3 code units and the trimmed URL has a web scheme and parses |
| `Validation.SchemeIgnoresCase` | bookmark-app/app/dashboard/page.tsx:108-112 | two strings equal up to ASCII case lower to the same string and agree on the scheme test |
| `Validation.UpperCaseSchemeExample` | bookmark-app/app/dashboard/page.tsx:108-119 | "HTTPS://X.COM" passes the scheme test, so only parsing decides its error |
| `Validation.TitleErrorUntrimmed` | bookmark-app/app/dashboard/page.tsx:95-101 | a non-empty title with no white space at either end is too short exactly when it has fewer than 3 UTF-16 code units, and has no error otherwise |
| `Validation.UrlErrorUntrimmed` | bookmark-app/app/dashboard/page.tsx:103-121 | a non-empty URL with no white space at either end gets the scheme error when its lowered form lacks http:// and https://, then the invalid-URL error when it does not parse, and no error otherwise |
| `Validation.ShortTitleExample` | bookmark-app/app/dashboard/page.tsx:98-100 | the title "ab" is too short |
| `Validation.BadSchemeExample` | bookmark-app/app/dashboard/page.tsx:109-114 | "ftp://x.com" gets the scheme error |
| `Validation.AstralTitleExample` | bookmark-app/app/dashboard/page.tsx:98-100 | a title of one astral code point (two code units) is too short; with one more letter it passes |
| `Validation.ValidTitleExample` | bookmark-app/app/dashboard/page.tsx:95-101 | the title "My Link" has no error |
| `Validation.ValidUrlExample` | bookmark-app/app/dashboard/page.tsx:103-121 | "https://x.com" has no error when it parses |
| `Dashboard.Dashboard.constructor` | bookmark-app/app/dashboard/page.tsx:19-22 | the list starts empty and both messages start empty |
| `Dashboard.Dashboard.LoadSnapshot` | bookmark-app/app/dashboard/page.tsx:41-47 | the list becomes the rows read, or the empty list when none came back (`Seed`, the empty-list fallback of line 47); the messages are untouched; a snapshot with unique ids gives a valid dashboard |
| `Dashboard.Dashboard.OnChange` | bookmark-app/app/dashboard/page.tsx:60-79 | the list becomes the reducer's result for the event; uniqueness of ids is kept; on a valid dashboard a DELETE of a present id removes exactly the one entry carrying it, shrinking the list by one; the messages are untouched |
| `Dashboard.Dashboard.ValidateForm` | bookmark-app/app/dashboard/page.tsx:91-126 | the stored messages are the title and URL errors; the result is true exactly when both are empty; the list is untouched |

## Left out

- Session lookup, the initial `select ... order by created_at desc` query, `insert`, `delete`, `getUser` and `signOut` are calls into the hosted backend library. The rows of the initial read enter the model as the parameter of `LoadSnapshot`, already ordered.
- Setting up the realtime channel, `subscribe()` and the `removeChannel` cleanup are asynchronous transport. Only the per-event list updates inside the callback are modelled. Teardown is therefore not modelled.
- The feed's payloads are untyped in the source. The model assumes each event carries a full record (INSERT, UPDATE) or an id (DELETE).
- The internals of `new URL(...)` (the WHATWG URL parser) are not modelled. Parsing is the parameter `parses`.
- `Validation.Lower`: folds only ASCII letters, while `toLowerCase` maps all of Unicode. Its result is only compared with `http://` and `https://`. The only non-ASCII code points whose lower case contains ASCII letters are U+0130, which lowers to `i` followed by U+0307, and U+212A, which lowers to `k`. Neither letter occurs in those prefixes, so the scheme test is decided the same way.
- Strings are sequences of Unicode scalar values. JavaScript strings can also hold lone surrogate code units, which the model cannot represent.
- The three other writes to `errors` are user-interface resets and are not modelled: clearing both messages after a successful insert (line 149), and clearing one field's message when a touched field is edited (lines 217 and 249).
- Router redirects, `window.open`, `handleKeyPress`, the `touched` flags, the form's input state and all rendering are user interface.
- The landing page `bookmark-app/app/page.tsx` (session check, OAuth sign-in, loading flag, markup) holds no logic beyond backend calls and navigation.
