# Slack time-off request: approver resolution and the action lock

This project models in Dafny the two pieces of logic at the heart of a Slack
bot that routes employee time-off requests to approvers.

- **Approver resolution** (`utils/utils.ts`). A "confirm-request" spreadsheet
  lists, row by row, an id, a name, a position and a role (department).
  `getDataMention` folds the rows into a table from lower-cased role to its
  staff-level ids ("Nhân viên") and its manager-level ids ("Quản lý").
  `getMentionIds` uses the table to decide who approves a request. The board
  ("bod") is approved by its managers. Staff are approved by their department's
  employees plus HR's employees. Anyone else is approved by their department's
  managers plus HR's employees. The ids are de-duplicated in first-occurrence
  order. The posted request card's text holds the date label and the mentions
  of those ids. Its two buttons carry one identical value: that list as the
  pending approvers and no accepted approvers. The file also has the date-string step of `convertToDate`
  (`"2024-05-17"` becomes `"17-05-2024"` and back).
- **The per-message action lock** (`utils/queue.ts`). `ACTION_QUEUE` holds the
  message keys whose Accept/Reject click is being handled. `pushActionQueue` is
  a non-blocking test-and-set that also schedules a 5000 ms expiry removal.
  `endActionQueue` cancels the registered timer and schedules a 3000 ms
  removal, so the key is not free at once. Timers are abstract events here.
  `setTimeout` records a callback under a fresh id. `clearTimeout` forgets the
  id. The event loop running a callback is the method `Fire`.

Files:
- `seqs.dfy` (module `Seqs`): `indexOf`, the insertion order of a JavaScript
  `Set`, and the `indexOf` + `splice` removal.
- `utils.dfy` (module `Utils`): the table, resolution, mentions, date strings and
  the request card.
- `queue.dfy` (module `Queue`): the class `ActionQueue` and five scenarios.

The proofs establish these properties:
- `GetDataMention` is the loop of `getDataMention`. It is proved equal to
  `MentionTable`, a key-by-key definition: each role's ids are the ids of the
  rows carrying that role and position, in row order.
- `MentionIds` yields no duplicates outside the board. Its elements are exactly
  the department's list and HR's employees. The order is first occurrence in the
  department list followed by the HR list. A missing entry is an error, never
  an empty list.
- Splitting a date on `-`, reversing and joining is an involution.
- `ActionQueue` keeps these invariants:
  - no key is held twice;
  - timer ids are never reused;
  - every held key has a removal pending, so no key stays locked forever.

Some behaviours of the code that a reader may not expect:
- The board's managers are returned as listed, not de-duplicated.
- The "bod" test compares the department before lower-casing. The caller
  lower-cases first, so every spelling of "bod" takes the board branch
  (`NewRequestCardBoard`).
- Ending a click does not remove the key at once. It only cancels the
  registered expiry timer and schedules the grace removal.
- An expiry removal does not unregister its timer id. A later end cancels
  whatever id is registered under the key, which may belong to a later push
  (`EndCancelsLaterTimer`). Two ends for one push schedule two grace removals.
  The second can free the key while a later click still holds it (`DoubleEnd`).

## Model

| member | source | states |
|---|---|---|
| `Seqs.IndexOf` | utils/queue.ts:8 | the result is -1 exactly when the key is absent; otherwise it is the position of the first occurrence |
| `Seqs.Dedup` | utils/utils.ts:170-171 | `Array.from(new Set(xs))` has no duplicates and holds exactly the elements of `xs` |
| `Seqs.DedupFirstOccurrence` | utils/utils.ts:170-171 | the de-duplicated elements appear in the order of their first occurrence in the input |
| `Seqs.DedupUnique` | utils/utils.ts:170-171 | `Array.from(new Set(xs))` is the only duplicate-free listing of the elements of `xs` in first-occurrence order |
| `Seqs.DedupOfDistinct` | utils/utils.ts:170-171 | a list without duplicates passes through the `Set` unchanged |
| `Seqs.DedupPrefixFirst` | utils/utils.ts:170-171 | in the de-duplicated `[...a, ...b]`, every element of `a` precedes every element found only in `b` |
| `Seqs.RemoveKey` | utils/queue.ts:18-21 | `indexOf` + `splice(i, 1)` leaves the queue unchanged for an absent key; otherwise it removes one copy; on a duplicate-free queue exactly the key disappears |
| `Seqs.RemoveKeyKeepsOrder` | utils/queue.ts:34-37 | the removal keeps the other keys in their previous relative order |
| `Utils.Lower` | utils/utils.ts:189 | lower-casing keeps the length, turns each upper-case letter into its lower-case counterpart (code point + 32) and keeps every other character |
| `Utils.LowerIdempotent` | utils/utils.ts:166 | lower-casing the already lower-cased department again changes nothing |
| `Utils.FirstWithoutRole` | utils/utils.ts:187-189 | gives the first row whose role cell is missing, or -1 exactly when every row has a role |
| `Utils.IdsOf` | utils/utils.ts:197-201 | an id is listed for a role and position exactly when some row carries that id, role and position |
| `Utils.MentionTableSnoc` | utils/utils.ts:187-202 | one more row creates its lower-cased role's entry if missing; it appends its id to employees for "Nhân viên", to managers for "Quản lý", to neither otherwise; no other entry changes |
| `Utils.GetDataMention` | utils/utils.ts:174-204 | undefined rows give an empty table; a row without a role cell throws at the first such row; otherwise the loop yields exactly `MentionTable` |
| `Utils.MentionIds` | utils/utils.ts:158-172 | "bod" gives the board's managers unchanged, whatever the position; a missing department or "hr" entry is an error naming that key; when both entries exist resolution succeeds, and the ids have no duplicates and are exactly the department's employees (staff) or managers (others) together with HR's employees |
| `Utils.MentionIdsOrder` | utils/utils.ts:169-171 | the resolved ids follow their first occurrence in the department list followed by the HR list |
| `Utils.MentionIdsDepartmentFirst` | utils/utils.ts:169-171 | every department approver is listed before every approver who comes from HR alone |
| `Utils.MentionIdsIgnoresCase` | utils/utils.ts:166 | outside the literal "bod", departments that agree when lower-cased resolve to the same result |
| `Utils.MentionIdsFromSheet` | utils/utils.ts:158-203 | on a table built from rows, an id is resolved exactly when some row lists it for the department with the matching position, or some row lists it as HR staff |
| `Utils.MentionIdsFailsOnSheet` | utils/utils.ts:166-168 | on a table built from rows, resolution fails exactly when no row carries the department or no row carries "hr" |
| `Utils.Join` | utils/utils.ts:151 | `join` of no parts is empty; otherwise its length is the parts' lengths plus one separator between each two parts |
| `Utils.MentionAll` | utils/utils.ts:151 | the mapped list has one `<@id>` per id, in the same order |
| `Utils.Mentions` | utils/utils.ts:150-152 | the mentions text is empty exactly for no ids; n ids take n - 1 separators ", " (its length) |
| `Utils.MentionsSnoc` | utils/utils.ts:150-152 | one more id appends ", " and its mention to the text |
| `Utils.Split` | utils/utils.ts:155 | `split("-")` always yields at least one field, and no field contains the separator |
| `Utils.JoinSplit` | utils/utils.ts:155 | joining the split fields with the separator gives the string back |
| `Utils.SplitJoin` | utils/utils.ts:155 | splitting joined fields that hold no separator gives the fields back |
| `Utils.Reverse` | utils/utils.ts:155 | `reverse()` puts element i at position n - 1 - i |
| `Utils.ReverseReverse` | utils/utils.ts:155 | reversing twice gives the original list |
| `Utils.SwapDateFields` | utils/utils.ts:155 | `date.split("-").reverse().join("-")`: the result's dash-separated fields are the input's fields reversed |
| `Utils.SwapDateFieldsInvolution` | utils/utils.ts:154-156 | applying the string step twice returns the original date string |
| `Utils.DateLabel` | utils/utils.ts:64 | the label equals `fromDate` exactly when both dates are equal; otherwise it is `fromDate`, then " đến ", then `toDate` |
| `Utils.NewRequestCard` | utils/utils.ts:61-128 | the card fails exactly when resolution of the lower-cased department fails; otherwise both buttons carry the same value; that value holds the request, the resolved ids as pending, no accepted ids, the requester and the send time; the text holds their mentions and the date label |
| `Utils.NewRequestCardApprovers` | utils/utils.ts:105-128 | on a new card, pending and accepted approvers are disjoint; outside the board no approver is pending twice |
| `Utils.NewRequestCardBoard` | utils/utils.ts:62-63 | any spelling of "bod" resolves to the board's managers whatever the position |
| `Queue.ActionQueue.constructor` | utils/queue.ts:1-5 | the lock starts with no key held, no timer registered and nothing scheduled |
| `Queue.ActionQueue.Push` | utils/queue.ts:7-24 | a held key returns false and changes nothing; a free key is appended, its 5000 ms removal is scheduled under a fresh id registered in `TIMEOUT_ID`, and true is returned; the invariants are kept |
| `Queue.ActionQueue.End` | utils/queue.ts:26-39 | the registered timer (if any) is cancelled and unregistered; a 3000 ms removal is scheduled; the held keys are unchanged |
| `Queue.ActionQueue.Fire` | utils/queue.ts:17-22 | running a scheduled removal (the expiry at 17-22 or the grace removal at 33-38) removes its key if held; other keys keep their order; `TIMEOUT_ID` is untouched |
| `Queue.GraceWindow` | utils/queue.ts:26-38 | a duplicate click is refused; the key stays held after the end; it is free once the grace removal has run |
| `Queue.ExpiryFreesKey` | utils/queue.ts:16-22 | without an end, the expiry removal frees the key |
| `Queue.DoubleEnd` | utils/queue.ts:33-38 | two ends for one push schedule two grace removals; the second frees a later push of the key |
| `Queue.EndCancelsLaterTimer` | utils/queue.ts:17-29 | after an expiry has fired, an end cancels the expiry timer of a later push of the same key |
| `Queue.KeysIndependent` | utils/queue.ts:7-38 | expiring or ending one key leaves another key held |

## Left out

- The Accept/Reject click handlers in `pages/api/[[...route]].ts` are callers of this core and are not part of this model.
- Slack API calls are I/O and are not modelled: `findChannel`, `findChannelByUserName`, `findUserById`, and the post and delete calls of `sendMessageRequest`. The requester's profile is a parameter of `NewRequestCard`.
- Reading the sheet (`getPrivateSheetData`, `utils/google-sheet.ts`) is network I/O. Its rows are the input of `GetDataMention`; an undefined result is `None`.
- `NewRequestCard` takes the table that `GetDataMention` returns. A failed sheet read therefore fails before the card, as in the source.
- `getDateTimeNowFormated` reads the clock and the locale. The send time is a parameter of `NewRequestCard`.
- `convertToDate` builds a `Date`, which is a library call. Only its string step (`SwapDateFields`) is modelled.
- The free-text lines of the review message (branch, department, name, reason and so on) and the block layout are not modelled. Only the mentions text and the date label are.
- `utils/templates/form-request.ts` is a static modal view and is not part of this model.
- Lower: `toLowerCase` is modelled for ASCII letters only. Non-ASCII letters are kept as they are.
- Table keys that clash with `Object.prototype` properties (such as "constructor") behave differently in JavaScript. The model treats the table as a plain map.
- Timers are abstract events without durations. The delays are recorded as constants, and which pending callback runs next is chosen by the caller of `Fire`.
- The `try`/`catch` in `endActionQueue` has no counterpart. `clearTimeout` of any value and `delete` do not throw, so its handler never runs.
- The `console.warn` and `console.log` output is dropped.
