# Contact directory: sanitizer and phone-book service

A Dafny model of the core of a small command-line contact manager written in
TypeScript. The core has two parts:

- **The sanitizer** (`Utils/Sanitize.util.ts`) has three string normalisers:
  - `sanitizeEmail` checks for the substrings "@" and ".com", then trims and lower-cases.
  - `sanitizePhoneNo` trims, splits on one space, and checks that the second part is ten characters long.
  - `sanitizeName` trims.

  Each one answers `undefined` instead of throwing. In the model, `undefined` is `None`.
- **The phone-book service** (`Services/PhoneBook.service.ts`, class
  `PhoneBookService`) owns an ordered list of contacts and an id counter. Its operations are:
  - add, with a duplicate-phone check;
  - paged fetch with `next`/`previous` cursors;
  - three field updaters;
  - delete;
  - three linear searches.

Modules:

- `Wrappers` (wrappers.dfy): `Option`; `None` stands for `undefined`.
- `Js` (js.dfy): the JavaScript built-ins the core relies on. These are `String.prototype.trim`, `toLowerCase`, `includes`, `split(' ')`, `Array.prototype.slice` and `Math.ceil` of a quotient. Each comes with the lemmas characterising it: trim is the unique whitespace-free core, split and join are inverse, and so on.
- `Sanitize` (sanitize.dfy): the three sanitizers, stated as functions, with lemmas about their results.
- `Models` (models.dfy): the `Contact` and `PaginatedResponse` records.
- `PhoneBook` (phonebook.dfy):
  - class `PhoneBookService` has the fields `contacts: seq<Contact>` and `idCount: int`. Its mutating operations are methods with `modifies` clauses; each loop mirrors the source's `for…of`/`break`. The fetch is a function of the state.
  - the specification function `FirstIndex` says where each linear scan stops.
  - lemmas tie the operations together: fresh ids, duplicates, deletes, browsing pages.

The outside world becomes parameters:

- The storage adapter's `saveContacts` answer is the `saved: bool` parameter of every mutating method.
- The list `loadContacts` returns is the constructor's `loaded` parameter.
- `new Date()` is the `now: Timestamp` parameter.
- `sanitizeCountryCode` is a function field supplied to the constructor: the service calls it, but the sanitizer does not define it.

The model follows the code:

- `sanitizeName` trims but does not lower-case.
- The e-mail check is a case-sensitive substring test on the untrimmed text.
- A sanitized phone number is the two-part array `[prefix, number]`, not a string.
- Searching by name tests containment in `firstName` only. It returns the first match, not a list.
- `fetchContacts` computes `next` from the page before the requested one, and `previous` is always -1 (see Findings).

## Model

| member | source | states |
|---|---|---|
| Js.Trim | Utils/Sanitize.util.ts:7 | `trim` as the composition of TrimStart and TrimEnd; defined without a contract, characterised by TrimSpec and TrimUnique (also used at :19 and :40) |
| Js.TrimSpec | Utils/Sanitize.util.ts:7 | trim returns a whitespace-free-ended infix of its input, with only whitespace cut on either side |
| Js.TrimUnique | Utils/Sanitize.util.ts:7 | any trimmed infix framed by whitespace is exactly what trim returns (trim is characterised uniquely) |
| Js.TrimIdempotent | Utils/Sanitize.util.ts:40 | trimming twice is trimming once |
| Js.ToLower | Utils/Sanitize.util.ts:8 | lower-casing keeps the length and maps each character through the A–Z fold |
| Js.ToLowerIdempotent | Utils/Sanitize.util.ts:8 | the lower-cased text has no upper-case letter and lower-casing it again changes nothing |
| Js.TrimToLowerCommute | Utils/Sanitize.util.ts:7-8 | trimming and lower-casing commute |
| Js.Includes | Utils/Sanitize.util.ts:4 | `includes` as a scan for a position where the word starts (also Services/PhoneBook.service.ts:208); defined without a contract, characterised by IncludesIff |
| Js.IncludesIff | Utils/Sanitize.util.ts:4 | `includes` holds exactly when the word occurs at some index |
| Js.Split | Utils/Sanitize.util.ts:20 | `split(' ')`: always at least one part, an empty text giving one empty part; characterised by SplitSpec and SplitJoin |
| Js.SplitSpec | Utils/Sanitize.util.ts:20 | no part of a split contains the separator, and joining the parts with it gives the text back |
| Js.SplitJoin | Utils/Sanitize.util.ts:20 | splitting a join of separator-free parts gives those parts back |
| Js.SplitFirstTwo | Utils/Sanitize.util.ts:20-21 | with two or more parts, the text is part 0, a separator, part 1, then nothing or a separator-led rest |
| Js.Slice | Services/PhoneBook.service.ts:65 | `slice(start, end)` has length min(end, n) - start (or 0) and holds the elements from `start` on, in order |
| Js.CeilDiv | Services/PhoneBook.service.ts:68 | `Math.ceil(n / d)` is the r with (r - 1)·d < n ≤ r·d |
| Js.BelowCeilDiv | Services/PhoneBook.service.ts:68-74 | k < ceil(n / d) exactly when k·d < n |
| Sanitize.SanitizeEmail | Utils/Sanitize.util.ts:2-15 | the address is accepted exactly when the untrimmed text contains both "@" and ".com" |
| Sanitize.SanitizeEmailNormalises | Utils/Sanitize.util.ts:7-9 | an accepted address is the trim of the lower-cased text and has no upper-case letter |
| Sanitize.KeptByNormalising | Utils/Sanitize.util.ts:4-8 | a space-free, lower-case word in the text still occurs after trimming and lower-casing |
| Sanitize.NormalisedEmailPassesCheck | Utils/Sanitize.util.ts:4-9 | the normalised address still passes both substring tests |
| Sanitize.SanitizeEmailIdempotent | Utils/Sanitize.util.ts:2-15 | sanitizing a sanitized address returns it unchanged |
| Sanitize.SanitizePhoneNo | Utils/Sanitize.util.ts:17-33 | an accepted number has exactly two parts and the second has ten characters |
| Sanitize.SanitizePhoneNoParts | Utils/Sanitize.util.ts:19-27 | text without a space is refused; the accepted parts are space-free and are the first two tokens of the trimmed text |
| Sanitize.SanitizePhoneNoTokens | Utils/Sanitize.util.ts:19-32 | for trimmed text a + ' ' + b + rest (rest empty or space-led), the result is [a, b] when \|b\| = 10 and None otherwise, so a double space fails |
| Sanitize.SanitizePhoneNoRoundTrip | Utils/Sanitize.util.ts:17-33 | writing the accepted parts back with one space reproduces them, provided the number does not end in a non-space whitespace character (a tab kept by the split on ' ' would be trimmed off the joined text) |
| Sanitize.SanitizeName | Utils/Sanitize.util.ts:35-47 | the result is absent exactly when the name is absent |
| Sanitize.SanitizeNameTrims | Utils/Sanitize.util.ts:40-41 | a present name comes back as its trim, with its case unchanged |
| Sanitize.SanitizeNameIdempotent | Utils/Sanitize.util.ts:35-47 | sanitizing a name twice is sanitizing it once |
| Sanitize.SanitizeNameKeepsCase | Utils/Sanitize.util.ts:40-41 | one example, "  Bob " becomes "Bob": only surrounding whitespace goes and the case stays (SanitizeNameTrims covers every name) |
| PhoneBook.MaxId | Services/PhoneBook.service.ts:17 | the largest id of a non-empty list: at least every id, and equal to one of them |
| PhoneBook.Halts | Services/PhoneBook.service.ts:24-28 | where each loop stops: equal id (:101, :128, :154, :180, :230), equal phone by value (:25, :252), or a first name that contains the needle or is absent, the absent case being the throwing `includes` at :208 |
| PhoneBook.FirstIndex | Services/PhoneBook.service.ts:24-28 | a front-to-back scan stops at the first contact that matches, or answers -1 when none does |
| PhoneBook.PageArith | Services/PhoneBook.service.ts:61-74 | page p > 1 is within the page count exactly when (p - 1)·offset < n, and page 2 exactly when offset < n |
| PhoneBook.PhoneBookService.Valid | Services/PhoneBook.service.ts:17-18 | the invariant that `idCount` is at least every stored id, set up by the constructor and kept by every mutating method, so `idCount + 1` (:30) is a fresh id |
| PhoneBook.PhoneBookService.constructor | Services/PhoneBook.service.ts:15-19 | takes over the loaded list; the counter is its largest id, or 0 when empty |
| PhoneBook.PhoneBookService.AddContact | Services/PhoneBook.service.ts:21-57 | a duplicate phone leaves everything unchanged and fails; otherwise the counter goes up by one and exactly one sanitized contact is appended with that id, a fresh one, and no `updatedAt`; the result is the save result |
| PhoneBook.PhoneBookService.FetchContacts | Services/PhoneBook.service.ts:59-93 | a page holds at most `offset` contacts |
| PhoneBook.FetchContactsPage | Services/PhoneBook.service.ts:61-65 | the page is the contacts from (page - 1)·offset on, in order, min(offset, rest) of them, and empty past the end |
| PhoneBook.FetchContactsCursors | Services/PhoneBook.service.ts:66-74 | `previous` is always -1; page 1 has `next` 2 when a second page exists; a later page p has `next` p (not p + 1) when it holds contacts, else -1 |
| PhoneBook.PhoneBookService.FetchContactsIntended | Services/PhoneBook.service.ts:66-74 | the corrected fetch: same data as FetchContacts; `next` is page + 1 exactly when that page holds contacts, and -1 otherwise; `previous` is page - 1 after page 1, and -1 on page 1 |
| PhoneBook.PhoneBookService.UpdatePhoneNo | Services/PhoneBook.service.ts:95-121 | only the first contact with the id changes: its phone number, country code and update time; no match changes nothing and fails |
| PhoneBook.PhoneBookService.UpdateFirstName | Services/PhoneBook.service.ts:123-147 | only the first contact with the id changes: its first name (trimmed) and update time; no match changes nothing and fails |
| PhoneBook.PhoneBookService.UpdateLastName | Services/PhoneBook.service.ts:149-173 | only the first contact with the id changes: its last name (trimmed) and update time; no match changes nothing and fails |
| PhoneBook.PhoneBookService.DeleteContact | Services/PhoneBook.service.ts:176-201 | exactly the first contact with the id is removed and the rest keep their order; no match changes nothing and fails |
| PhoneBook.PhoneBookService.SearchContactByName | Services/PhoneBook.service.ts:203-224 | the first contact whose first name contains the trimmed name; `undefined` when none does, or when a contact without a first name comes first |
| PhoneBook.PhoneBookService.SearchContactById | Services/PhoneBook.service.ts:226-245 | the first contact with the id, or `undefined` |
| PhoneBook.PhoneBookService.SearchContactByPhoneNo | Services/PhoneBook.service.ts:247-267 | the first contact whose phone equals the sanitized one, or `undefined` |
| PhoneBook.FreshIdIsFound | Services/PhoneBook.service.ts:30-47 | a contact appended with an id above every stored id is what a search by that id finds |
| PhoneBook.FreshIdKeepsUnique | Services/PhoneBook.service.ts:30-31 | appending with such an id keeps ids distinct |
| PhoneBook.AddedPhoneIsDuplicate | Services/PhoneBook.service.ts:23-27 | once a contact is stored, adding its phone number again is refused |
| PhoneBook.SameIdUpdateKeepsIndex | Services/PhoneBook.service.ts:100-107 | an update keeps the id, so a later search by any id stops where it did before |
| PhoneBook.RemoveAt | Services/PhoneBook.service.ts:187 | `splice(k, 1)` shifts later contacts down by one and removes exactly one from the multiset |
| PhoneBook.DeleteRemovesId | Services/PhoneBook.service.ts:176-201 | with distinct ids, a delete removes the id altogether, keeps ids distinct and drops one contact from the multiset |
| PhoneBook.PageIsSlice | Services/PhoneBook.service.ts:61-65 | page p is the list between (p - 1)·offset and p·offset, cut off at its end |
| PhoneBook.BrowsePrefix | Services/PhoneBook.service.ts:59-81 | pages 1..k concatenated are the first k·offset contacts |
| PhoneBook.BrowseAllPages | Services/PhoneBook.service.ts:59-81 | pages 1..ceil(n / offset) concatenated are the whole list, in order, each contact once |
| PhoneBook.Visits | Main.ts:54-80 | the pages the shell shows when the user keeps choosing 'next': it follows the `next` cursor at most `steps` times and stops when it is -1 |
| PhoneBook.VisitsStayOnFirstTwoPages | Services/PhoneBook.service.ts:69-74 | following the `next` cursor from page 1 or 2 never leaves pages 1 and 2 |
| PhoneBook.BrowsingStallsAsWritten | Services/PhoneBook.service.ts:69-74 | with more than two pages, page 3 holds contacts but following `next` from page 1 never reaches it |
| PhoneBook.IntendedVisitsAreConsecutive | Services/PhoneBook.service.ts:66-74 | following the corrected `next` from page p visits p, p + 1, … up to the last page |
| PhoneBook.IntendedBrowsingReachesEveryPage | Services/PhoneBook.service.ts:66-74 | following the corrected `next` from page 1 reaches every page that holds contacts |
| PhoneBook.StrictEqualsFresh | Services/PhoneBook.service.ts:25 | `===` as written between a stored phone and the array the sanitizer has just built (also at :252): true only when both are `undefined` |
| PhoneBook.DuplicateMissedAsWritten | Services/PhoneBook.service.ts:25 | a stored contact with the same valid number is found by value, but no stored contact matches under `===`; that second half follows from the definition of StrictEqualsFresh, so it is stated, not derived |

## Left out

- Console output (`console.log`) and the messages of the errors the service throws and catches itself: only the boolean or `undefined` outcome is modelled.
- Disk I/O and JSON: `FileStorage` is not part of this model. The save result is a parameter. The loaded list is a constructor argument.
- The clock: `new Date()` is a parameter, and nothing is claimed about the order of timestamps.
- The interactive shell (`Main.ts`): only its "follow `next`" browsing loop (Main.ts:54-80) is abstracted, as PhoneBook.Visits; the rest of the shell is not part of this model, and neither is `updateEmail`, which the shell calls but the service does not define.
- Error classes (`Utils/Errors.util.ts`): the core never throws them.
- `sanitizeCountryCode`: the sanitizer does not define it. The model takes it as a function given to the constructor. As the source stands, calling it throws a `TypeError`, so `addContact` and `updatePhoneNo` would always answer false. For `addContact`, that happens after `idCount` has already been incremented.
- Phone comparison by value: the source compares arrays with `===`, which is reference equality. The model compares by value, the evident intent (see Findings).
- Contact objects returned by the searches are shared with the list in the source; the model returns values, so aliasing is not modelled.
- `fetchContacts` with `page <= 0` or `offset <= 0`: it relies on negative `slice` indices and floating-point division by zero, and its catch branch with `null` cursors only matters there. The model requires `page >= 1` and `offset >= 1`.
- Js.Trim: only the ASCII whitespace characters space, tab, line feed, carriage return, vertical tab and form feed are cut; JavaScript also cuts the other Unicode space characters.
- Js.ToLower: folds only A–Z; JavaScript applies full Unicode case mapping.
- String lengths count characters, not UTF-16 code units.
- PhoneBook.PhoneBookService.FetchContacts: its own contract only bounds the page size. Its data and cursors are stated by FetchContactsPage and FetchContactsCursors.

## Findings

| source | as written | input that shows it | evidently intended | confidence | as-written member | corrected member |
|---|---|---|---|---|---|---|
| Services/PhoneBook.service.ts:69-74 | for page p > 1, `page` is decremented before `next` is computed, so `next` is p (the same page); `previous` is never set | 11 contacts, offset 5: page 1 gives next 2, page 2 gives next 2 again, so page 3 (one contact) is never reached | `next` = p + 1 while p < ceil(n / offset), `previous` = p - 1 for p > 1 | high; not executed | PhoneBook.BrowsingStallsAsWritten | PhoneBook.PhoneBookService.FetchContactsIntended |
| Services/PhoneBook.service.ts:25 | `contact.phoneNo === sanitizedPhoneNo` compares a stored array with one just built, which is never the same object | a contact loaded from storage with phoneNo ["91", "9876543210"], then one add of "91 9876543210": the duplicate check passes | the phone numbers compared by value | high; not executed | PhoneBook.DuplicateMissedAsWritten | PhoneBook.AddedPhoneIsDuplicate |
