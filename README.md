# Memo store: a Dafny model

This project models the client-side core of a personal memo web application.
Memos are short notes with a title, an optional URL, a body, an optional
four-digit lock and a category. The model covers:

- `MemoManager`: the memo list, newest first, with its insert, update and
  delete. It also covers the category-filtered pages, the page count, the
  sorted category list and the 32-bit rolling hash that locks a memo.
- The state of the edit/create modal in `MemoUI`. This includes the checks a
  submit must pass and the create-or-update branch that follows them.
- The page and category navigation of `App`.

The files, leaves first:

- `js_number.dfy` (module `JsNumber`): JavaScript's ToInt32 conversion and the
  decimal text of an integer, with a parser that proves printing loses nothing.
- `js_array.dfy` (`JsArray`): `Array.prototype.filter` and `slice`, with
  negative bounds counted from the end.
- `js_string.dfy` (`JsString`): `String.prototype.trim`, the default string
  sort order, and `Array.from(new Set(xs)).sort()`.
- `password.dfy` (`Password`): `hashPassword` as a loop proved against the hash
  function, and `verifyPassword`.
- `memos.dfy` (`Memos`): the `Memo` record and the meaning of every store
  operation on values. The lemmas there state what the store promises.
- `memo_manager.dfy` (`Manager`): the `MemoManager` class. Its mutating methods
  are proved against the `Memos` functions. A ghost field `stored` stands for
  the copy in local storage, and every mutation leaves it equal to `memos`.
- `memo_ui.dfy` (`Ui`): the submit checks, the `MemoUI` class (modal state,
  submit, delete) and the unlock decision.
- `app.dfy` (`Navigation`): the `App` class.

The clock (`Date.now()`, the locale timestamp), the answers to `prompt` and
`confirm`, the raw form fields, the classifier's reply and the contents of
local storage are all parameters.

## Model

| member | source | states |
|---|---|---|
| JsNumber.ToInt32 | script.js:214-215 | the result is an int32 and congruent to the input modulo 2^32 |
| JsNumber.DecimalRoundTrip | script.js:217 | parsing the decimal text of any integer gives the integer back |
| JsNumber.DecimalInjective | script.js:217-222 | two integers have the same decimal text exactly when they are equal |
| JsArray.Filter | script.js:227 | the result keeps only accepted elements, drawn from the input, and keeps every accepted one |
| JsArray.FilterConcat | script.js:227 | filtering a concatenation filters each part, so the relative order is kept |
| JsArray.FilterKeepsAll | script.js:239 | a filter that accepts everything returns its input unchanged |
| JsArray.FilterIdempotent | script.js:227 | filtering twice by one predicate equals filtering once |
| JsArray.Slice | script.js:241 | a slice holds max(0, to - from) elements, where from and to are the bounds counted from the end when negative and clamped to the length, and element i is the input element at from + i |
| JsArray.SliceNonNegative | script.js:233-241 | with bounds 0 <= start <= end, a slice is the plain subsequence cut at the end of the input, or empty past it |
| JsString.TrimStartShape | script.js:495-497 | trimStart removes exactly the leading run of white space |
| JsString.TrimEndShape | script.js:495-497 | trimEnd removes exactly the trailing run of white space |
| JsString.TrimEmpty | script.js:500 | a trimmed string is empty exactly when the input is all white space |
| JsString.StrLessIrreflexive | script.js:257 | the default sort order puts no string before itself |
| JsString.StrLessTransitive | script.js:257 | the default sort order is transitive |
| JsString.StrLessTotal | script.js:257 | any two different strings are ordered one way or the other |
| JsString.StrLessAsymmetric | script.js:257 | no two strings come before each other |
| JsString.InsertSorted | script.js:256-257 | inserting into a strictly sorted list keeps it strictly sorted and adds exactly the new element |
| JsString.SortedDistinct | script.js:256-257 | the result is strictly sorted and holds exactly the elements of the input |
| JsString.StrictlySortedDistinct | script.js:256-257 | a strictly sorted list has no repeated element |
| JsString.StrictlySortedUnique | script.js:257 | two strictly sorted lists with the same elements are equal |
| Password.Hash | script.js:210-217 | the rolling hash stays in the int32 range after every character |
| Password.ShiftSubtractStep | script.js:214-215 | `(h << 5) - h + c` followed by `& itself` is ToInt32(31*h + c) |
| Password.HashPassword | script.js:210-218 | the loop returns the decimal text of the rolling hash of the whole password |
| Password.VerifyStoredHash | script.js:221-223 | against a stored hash, an answer passes exactly when its 32-bit hash equals the stored password's; the password itself always passes |
| Password.DigitHashNoWrap | script.js:210-217 | for strings of up to six digits the hash never wraps and is at most DigitHashMax |
| Password.DigitHashInjective | script.js:210-217 | two digit strings of the same such length with equal hashes are the same string |
| Password.FourDigitLockExact | script.js:221-223 | a lock set with a four-digit code accepts a four-digit answer exactly when it is that code |
| Password.ShortAnswerOpensLock | script.js:221-223 | a two-character answer that is not the code opens the lock set with 1234 |
| Memos.NewMemo | script.js:160-169 | a new memo has the given id, timestamp and texts and category '기타'; its password is absent exactly when none is given, and otherwise the given password's hash |
| Memos.IndexOf | script.js:199 | the first position whose memo has the id, or None exactly when no memo has it |
| Memos.Updated | script.js:198-207 | a missing id changes nothing; otherwise only the first memo with the id changes, in title, url and body; its password becomes the new hash when one is given and is kept otherwise; id, createdAt and category stay |
| Memos.Recategorized | script.js:525-529 | only the first memo with the id changes, and only in its category; a missing id changes nothing |
| Memos.Removed | script.js:226-229 | no memo with the id remains, every memo with another id remains, and nothing new appears |
| Memos.RemovedKeepsOrder | script.js:227 | deleting from a concatenation deletes from each part, so the survivors keep their order |
| Memos.RemovedMissing | script.js:227 | deleting an id no memo has leaves the list unchanged |
| Memos.RemovedTwice | script.js:226-229 | deleting twice gives the same list as deleting once |
| Memos.RemoveUndoesAdd | script.js:226-229 | deleting the id of a memo just inserted with a fresh id restores the previous list |
| Memos.IndexOfAdded | script.js:170 | after an insert at the front, a lookup by the new id finds position 0 |
| Memos.PasswordSurvivesUpdate | script.js:204 | create with a code, update without one: the hash is unchanged and the code still opens the memo |
| Memos.UpdatedKeepsIds | script.js:198-207 | an update changes no id, so later lookups by any id find the same position |
| Memos.IndexOfSameIds | script.js:199 | lists with the same ids at the same positions give the same lookup result |
| Memos.Filtered | script.js:237-239 | with a non-empty selected category, exactly the memos of that category; otherwise all memos |
| Memos.CeilDiv | script.js:251 | the result is the least r with n <= r*d |
| Memos.PageContents | script.js:232-242 | page p >= 1 holds at most 10 filtered memos, from position (p-1)*10 on; earlier pages are full, the last page is the rest, and later pages are empty |
| Memos.PageMatchesFilter | script.js:236-241 | every memo on a page is a stored memo, and of the selected category when a filter is set |
| Memos.PagesOfPrefix | script.js:232-242 | pages 1..k of a list laid end to end are its first min(10k, n) elements |
| Memos.PagesCoverFiltered | script.js:232-252 | pages 1..getTotalPages() laid end to end are the filtered memos in order, with none repeated or missing |
| Memos.NonPositivePages | script.js:233-241 | page 0 is empty, but page -1 of fifteen memos is the first five |
| Memos.FilterIsolation | script.js:237-239 | with no filter or an empty one every memo counts; with category c exactly the memos of category c |
| Memos.CategoriesExact | script.js:255-258 | the category list is strictly sorted and holds exactly the display categories of all memos, whatever the filter |
| Memos.CategoriesIgnoreOrder | script.js:255-258 | the category list depends only on which memos exist, not on their order |
| Memos.ClassifiedCategory | script.js:185-193 | the category is never empty; it is '기타' after an exception, a non-ok response or an empty or missing answer, and the answered string when that is non-empty |
| Manager.MemoManager.constructor | script.js:140-152 | loads the persisted list (empty when none), on page 1, with no filter and not editing |
| Manager.MemoManager.SaveMemos | script.js:155-157 | the persisted copy becomes the current list |
| Manager.MemoManager.AddMemo | script.js:160-173 | the new memo is at index 0, the old list follows unchanged, the length grows by one, and the list is persisted |
| Manager.MemoManager.UpdateMemo | script.js:198-207 | the list becomes Updated(old list); a missing id writes nothing; the persisted copy stays equal to the list |
| Manager.MemoManager.DeleteMemo | script.js:226-229 | the list becomes Removed(old list) and is persisted |
| Manager.MemoManager.GetMemos | script.js:232-242 | at most 10 stored memos, all of the selected category when a filter is set, and none past the last page |
| Manager.MemoManager.GetTotalPages | script.js:245-252 | the ceiling of the filtered count over 10, and 0 exactly when nothing matches |
| Manager.MemoManager.GetCategories | script.js:255-258 | strictly sorted, and holding exactly the categories of all memos, with '기타' for a missing one |
| Ui.CheckSubmit | script.js:495-516 | a submit is accepted exactly when the trimmed title and body are non-empty and, with the lock on, the prompt gives four digits; it names which check failed |
| Ui.BlankFieldRefused | script.js:495-503 | a submit is refused for a missing field exactly when the title or the body is all white space |
| Ui.LockedMemoOpensForItsCode | script.js:619-641 | a memo locked with a four-digit code opens for that code, for no other four-digit answer, and never when the prompt is cancelled |
| Ui.MemoUI.constructor | script.js:266-268 | the UI shares the manager and starts with the lock off |
| Ui.MemoUI.TogglePasswordProtection | script.js:316-320 | the lock toggle flips |
| Ui.MemoUI.OpenAddModal | script.js:456-464 | not editing, lock off, modal shown |
| Ui.MemoUI.OpenEditModal | script.js:467-481 | for an existing id: editing it, lock on exactly when it has a password, modal shown; otherwise nothing changes |
| Ui.MemoUI.CloseModal | script.js:484-488 | modal hidden and not editing |
| Ui.MemoUI.HandleFormSubmit | script.js:491-542 | a refused submit changes nothing; an accepted one updates the edited memo or inserts a new one first, gives it the classified category, persists the list, closes the modal and returns to page 1 |
| Ui.MemoUI.SaveEdited | script.js:522-530 | the list becomes the edited memo updated and recategorised, and is persisted |
| Ui.MemoUI.SaveNew | script.js:531-537 | a new memo with the classified category is inserted first, and the list is persisted |
| Ui.MemoUI.HandleDelete | script.js:545-553 | deletes the id only when confirmed; otherwise nothing is written; the persisted copy stays equal to the list |
| Navigation.App.constructor | script.js:649-654 | the manager is loaded from storage and shared with the UI |
| Navigation.App.FilterByCategory | script.js:698-702 | the selected category is set and the page is reset to 1; with no filter the page count covers all memos |
| Navigation.App.GoToPage | script.js:705-709 | the current page becomes the given number and nothing else changes |
| Navigation.App.NextPage | script.js:712-716 | the page moves one forward below the last page and stays put otherwise; a page within 1..total stays within it |
| Navigation.App.PreviousPage | script.js:719-723 | the page moves one back above page 1 and stays put otherwise; a page within 1..total stays within it |

Three behaviours of the code a reader may not expect, which the model follows:

- Page numbers below 1 are not always empty. `slice` counts a negative start
  from the end, so `getMemos(-1)` on fifteen memos returns the first five.
  `Memos.NonPositivePages` shows this. The UI only asks for pages 1 and up.
- `loadMemos` does not recover from corrupt storage: `JSON.parse` throws. The
  model only distinguishes "nothing stored" from a stored list.
- A memo without a category is listed under '기타' by `getCategories`. The
  filter compares the raw category, so selecting '기타' does not show that
  memo. The classifier never returns an empty category, so only memos loaded
  from older storage can be affected.

## Left out

- `AuthManager`, the GitHub login and logout wiring, server.js and the files
  under api/ are not part of this model. They are HTTP and OAuth plumbing.
- `callGenerateTitle`, `callSummarize` and `MemoUI.generateTitle` are left out.
  They are network calls whose result only fills a form field.
- The request of `autoClassifyCategory` (the text `title + " " + body` posted
  to the classifier) is left out. Only the reply is modelled, as a
  `ClassifierReply` parameter.
- Rendering is left out: `render*`, `escapeHtml`, `copyToClipboard`,
  `showToast`, the DOM edits in `unlockMemo`, and `window.scrollTo`.
  `Ui.Unlocks` keeps only the decision to reveal the body.
- `Date.now()` and `toLocaleString('ko-KR')` are left out. The id and the
  timestamp text are parameters.
- JSON and local storage are left out. The ghost field `stored` stands for the
  persisted list.
- Ui.MemoUI.HandleFormSubmit: runs as one atomic step. In the code,
  `editingId` is read again after awaiting the classifier. Closing the modal
  during that wait would turn an edit into an insert. This interleaving is not
  modelled.
- Password.Hash: each Dafny `char` counts as one code. `charCodeAt` splits a
  character above U+FFFF into two UTF-16 code units, so such passwords hash
  differently in the code.
- JsString.StrLess: compares Unicode scalar values. JavaScript compares UTF-16
  code units. The two orders differ only between characters above U+FFFF and
  those in U+E000–U+FFFF.
- Memo records are values. The code keeps one object in the array and mutates
  it through the reference `addMemo` returns. The model writes the changed
  record back to its position instead.
- Non-integer page numbers and values of the wrong JavaScript type are not
  modelled. A missing `url` or `category` is the empty string.
