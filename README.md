# Identity reconciliation: a verified model of `identifyContact`

The service keeps a table of contacts. Each contact has an email, a phone
number, a precedence (`primary` or `secondary`) and, for a secondary, the id
of the primary it is linked to. A call `identifyContact(email, phoneNumber)`
does four things:

1. It looks up every contact matching the email or the phone number, oldest
   first.
2. It then takes one of three branches:
   - if nothing matched, it creates a new primary;
   - if several matched rows are primaries, it merges their clusters under
     the oldest one;
   - otherwise it extends the single matched primary with a new secondary.
   A new secondary is created only when no matched row already equals the
   request on both fields.
3. It answers with the consolidated view that `formatResponse` builds: the
   primary's id, the de-duplicated emails and phone numbers (the primary's
   first), and the secondaries' ids.

The model has four modules:

- `ContactModel` (`contact_model.dfy`) holds the data:
  - the contact row;
  - the request field (`Undefined`, `Null` or `Text`);
  - the value a field is stored as (`Stored`);
  - the value it is queried with (`QueryValue`, for `field || null`);
  - JavaScript `===` against a stored column (`StrictEquals`);
  - the row filters the code uses, as a `Criterion` evaluated by `Select`.
- `Projection` (`format_response.dfy`) models `formatResponse`:
  - the specification function `Project`, built on the fold `Distinct`;
  - the lemmas about it;
  - the method `FormatResponse`, whose loop is proved equal to `Project`.
- `ContactService` (`contact_service.dfy`) models `identifyContact`:
  - the function `Identify` states one call's reply and new table, split
    into `CreatePrimary`, `MergeClusters` and `ExtendCluster`;
  - the class `ContactTable` holds the table as a field;
  - its methods `Create`, `Demote`, `Relink`, `MergeInto` and
    `IdentifyContact` change it step by step, as the source does, and
    `IdentifyContact` is proved to agree with `Identify`.
- `Reconciliation` (`reconciliation.dfy`) proves what a call does, about
  `Identify`. It states the no-match, single-primary, merge and failure
  cases, and the invariants a call keeps:
  - ids stay creation positions;
  - links stay one hop;
  - fields are never edited.

Rows are kept in creation order and a row's id is its position (`Indexed`),
so "oldest" is "smallest id". The model keeps these behaviours of the code:

- **Absent fields match null rows.** The lookup uses `email || null`, so a
  missing or empty request field matches every row whose column is NULL.
- **A request with neither field is accepted.** The code performs no
  validation, so such a request matches every row with a NULL email or a
  NULL phone number.
- **A missing field is never an exact match.** The exact-match test uses
  `===`, and `undefined` is not identical to a stored NULL. So a request with
  a missing field is never "known" and creates a row on every call that does
  not fail.
- **Matched secondaries do not pull in their primaries.** Only primaries
  among the directly matched rows take part in a merge. When only
  secondaries match, reading the id of the missing first primary throws
  before anything is written. This is modelled as `Err(PrimaryUndefined)`
  with the table unchanged.
- **The single-primary reply is not the whole cluster.** It lists the
  matched rows and the new row, not every secondary of the primary.

## Model

| member | source | states |
|---|---|---|
| ContactModel.Stored | src/services/contactService.ts:18-22 | a created row stores a string field as itself and both a missing and a null field as NULL |
| ContactModel.QueryValue | src/services/contactService.ts:9-10 | the lookup compares with the field's string exactly when it is a non-empty string, and with NULL otherwise |
| ContactModel.StrictEquals | src/services/contactService.ts:28-30 | strict equality of a stored column with a request field: a missing field equals nothing, null equals only a NULL column, and a string equals only that string |
| ContactModel.Truthy | src/services/contactService.ts:111-119 | a column value is truthy when it is present and not the empty string |
| ContactModel.Select | src/services/contactService.ts:6-14 | a query or filter keeps exactly the rows satisfying its condition, never more rows than it was given, and keeps them oldest first |
| ContactModel.SelectAppend | src/services/contactService.ts:78-81 | filtering a list after pushing rows onto it is filtering the list and the pushed rows separately |
| ContactModel.SelectTwice | src/services/contactService.ts:60-81 | re-reading the cluster and then dropping the survivor equals selecting the survivor's secondaries directly |
| ContactModel.IdsAfterPush | src/services/contactService.ts:96-100 | pushing a new row that is not the primary appends its id after the ids of the kept rows |
| Projection.Project | src/services/contactService.ts:106-132 | the response names the primary, collects the emails and phone numbers of the primary then the secondaries in order, and lists the secondaries' ids |
| Projection.EmailsOfCluster | src/services/contactService.ts:111-117 | a value is among the emails visited exactly when the primary or one of the secondaries has it |
| Projection.PhoneNumbersOfCluster | src/services/contactService.ts:112-120 | a value is among the phone numbers visited exactly when the primary or one of the secondaries has it |
| Projection.DistinctSpec | src/services/contactService.ts:115-122 | the collected emails or phone numbers have no duplicates and no empty entry, hold exactly the set values given, and list them in first-occurrence order |
| Projection.DistinctHead | src/services/contactService.ts:110-112 | a set first value heads the collected list |
| Projection.ProjectSpec | src/services/contactService.ts:106-132 | the response names the primary, lists every secondary's id in order, lists with no duplicates exactly the set emails and phone numbers of the primary and secondaries, first occurrence first, and puts the primary's own email and phone first when set |
| Projection.FormatResponse | src/services/contactService.ts:106-132 | the collecting loop builds exactly the response `Project` specifies |
| ContactService.Matching | src/services/contactService.ts:6-14 | the lookup returns, oldest first, the rows whose email equals the queried email or whose phone number equals the queried phone number |
| ContactService.ExactlyEquals | src/services/contactService.ts:28-30 | a row is an exact match when it is strictly equal to the request on both the email and the phone number |
| ContactService.HasExactMatch | src/services/contactService.ts:28-30 | the exact-match test succeeds when some row of the list is an exact match |
| ContactService.MatchedPrimaries | src/services/contactService.ts:33 | the primaries among the matched rows, oldest first |
| ContactService.MergedRow | src/services/contactService.ts:42-57 | after the merge a demoted primary is a secondary of the survivor, a row linked to a demoted primary is linked to the survivor, and every other row is unchanged |
| ContactService.Draft | src/services/contactService.ts:72-77 | a created row has the given id, precedence and link, and is identical (`===`) to the request on a field exactly when that field was given, null or a string |
| ContactService.Demoted | src/services/contactService.ts:44-46 | demoting keeps id, email and phone and makes the row a secondary linked to the survivor |
| ContactService.Relinked | src/services/contactService.ts:49-56 | the bulk update re-points a row linked to the demoted primary at the survivor and changes nothing else |
| ContactService.MergedRowStep | src/services/contactService.ts:42-57 | one more turn of the merge loop (demote, then re-link) extends the merged state by that primary, whatever the order of earlier turns |
| ContactService.Merge | src/services/contactService.ts:42-57 | the merged table has the same length and holds, row by row, the merged row |
| ContactService.Identify | src/services/contactService.ts:4-103 | one call adds at most one row, and a failing call leaves the table unchanged |
| ContactService.CreatePrimary | src/services/contactService.ts:17-25 | no match: the call succeeds and appends one primary carrying the request's fields |
| ContactService.MergeClusters | src/services/contactService.ts:36-83 | merge: the call succeeds and the table is the merged table plus, unless the request is known, one secondary linked to the oldest primary |
| ContactService.ExtendCluster | src/services/contactService.ts:86-102 | single primary: the call succeeds and the table is unchanged except for, unless the request is known, one secondary linked to that primary |
| ContactService.ContactTable.Create | src/services/contactService.ts:18-22 | `Contact.create` appends exactly the drafted row with the next id |
| ContactService.ContactTable.Demote | src/services/contactService.ts:44-46 | demoting and saving replaces that one row by its demoted form |
| ContactService.ContactTable.Relink | src/services/contactService.ts:49-56 | the bulk update re-links every row linked to `from` and changes nothing else |
| ContactService.ContactTable.MergeInto | src/services/contactService.ts:42-57 | after the loop over the primaries to demote, the table is exactly the merged table |
| ContactService.ContactTable.IdentifyContact | src/services/contactService.ts:4-103 | the method's reply and new table are exactly those `Identify` specifies, and ids stay creation positions |
| Reconciliation.KnownRequestIsExactMatch | src/services/contactService.ts:28-30 | `find` over the matched rows succeeds exactly when some matched row equals the request on both fields |
| Reconciliation.OldestHeadsPrimaries | src/services/contactService.ts:33-38 | the merge keeps the earliest-created matched primary: it heads the filtered primaries |
| Reconciliation.DemotedAreOtherPrimaries | src/services/contactService.ts:38-39 | the ids demoted are exactly those of the matched primaries other than the survivor |
| Reconciliation.MergeSurvivor | src/services/contactService.ts:36-39 | when several primaries match, the call is the merge branch around the oldest of them |
| Reconciliation.NoMatchCreatesPrimary | src/services/contactService.ts:17-25 | no match: the table grows by one primary with no link carrying the request's fields, and the reply names it with no secondaries and only its own set fields |
| Reconciliation.KnownRequestCreatesNothing | src/services/contactService.ts:70-97 | a request equal on both fields to a matched row adds no row, in the merge and the single-primary branch alike |
| Reconciliation.SinglePrimary | src/services/contactService.ts:85-86 | with exactly one matched primary, the call is the single-primary branch for that primary |
| Reconciliation.ExtendClusterReply | src/services/contactService.ts:88-102 | the single-primary reply names the primary and lists the other matched rows followed by the new row, if one was added |
| Reconciliation.SinglePrimaryGainsSecondary | src/services/contactService.ts:86-102 | one primary and no exact match: exactly one secondary linked to it with the request's fields is appended, and the reply lists the other matched rows then the new id |
| Reconciliation.SinglePrimaryKnownRequest | src/services/contactService.ts:88-102 | one primary and an exact match: the table is unchanged and the reply lists the other matched rows |
| Reconciliation.OnlySecondariesMatchedFails | src/services/contactService.ts:85-86 | when every matched row is a secondary, the call fails and writes nothing |
| Reconciliation.MergeKeepsOldestPrimary | src/services/contactService.ts:36-46 | merge: the oldest matched primary stays primary and is the reply's primary, and every other matched primary becomes its secondary |
| Reconciliation.MergeClustersRelinks | src/services/contactService.ts:42-57 | in the merge table no row links to a demoted id, rows that did link to the survivor, and rows neither demoted nor linked to a demoted id are unchanged |
| Reconciliation.MergeLeavesNoDanglingLinks | src/services/contactService.ts:42-57 | merge: afterwards no row links to a demoted primary, and every row that did now links to the survivor |
| Reconciliation.MergeLeavesOtherRows | src/services/contactService.ts:42-57 | merge: a row that is neither another matched primary nor linked to one is left exactly as it was |
| Reconciliation.MergeClustersReply | src/services/contactService.ts:59-82 | the merge reply names the survivor and lists exactly the rows of the new table linked to it, in creation order |
| Reconciliation.MergeReplyListsCluster | src/services/contactService.ts:59-82 | merge: the reply's secondaries are exactly the new table's rows linked to the survivor, the survivor excluded; a row is added exactly when the request is not known, and that row is a secondary of the survivor |
| Reconciliation.MergeClustersKeepsFields | src/services/contactService.ts:41-79 | the merge branch never edits an id, email or phone number, never promotes a secondary, and appends only a row carrying the request's fields |
| Reconciliation.IdentifyOnlyAppendsAndRelinks | src/services/contactService.ts:4-103 | a call never removes a row, never edits an id, email or phone number, never promotes a secondary, and appends at most one row carrying the request's fields |
| Reconciliation.IdentifyKeepsIndexed | src/services/contactService.ts:4-103 | ids stay equal to creation positions after every call |
| Reconciliation.MergeClustersKeepsLinksOneHop | src/services/contactService.ts:41-79 | the merge keeps every link one hop when the survivor is a primary |
| Reconciliation.ExtendClusterKeepsLinksOneHop | src/services/contactService.ts:88-97 | a new secondary links to a primary, so links stay one hop |
| Reconciliation.IdentifyKeepsLinksOneHop | src/services/contactService.ts:4-103 | on a table whose links are one hop, every call leaves every primary unlinked and every secondary linked directly to a primary |
| Reconciliation.RepeatedRequestCreatesNothing | src/services/contactService.ts:27-30 | repeating a request whose two fields are both given (a non-empty string or null) adds no row the second time |
| Reconciliation.MissingFieldJoinsUnrelatedContact | src/services/contactService.ts:9-10 | a request without a phone number matches a contact whose phone is NULL, so a new email becomes a secondary of an unrelated contact |
| Reconciliation.RepeatWithMissingFieldGrows | src/services/contactService.ts:28-30 | sending the same request with a missing email twice adds a primary, then a secondary |
| Reconciliation.MatchedSecondaryDoesNotMerge | src/services/contactService.ts:32-36 | with one matched primary, a matched secondary of another cluster causes no merge, no existing row changes, and that secondary is listed under the matched primary |

## Left out

- HTTP transport, app start-up and database configuration are not part of
  this model. They live in `src/index.ts`, `src/routes/contact.ts` and
  `src/database.ts`.
- The Sequelize ORM is replaced by an in-memory sequence of rows:
  - `findAll`, `create`, `save` and `update` become operations on that
    sequence;
  - a database call that fails is not modelled;
  - SQL itself is not modelled.
- Timestamps are not kept: `createdAt` ordering is replaced by creation
  order, which is id order.
- Concurrency is not modelled: each call runs alone. The code uses no
  transaction, so interleavings of concurrent calls are outside the model.
- Request values are strings, `null` or absent. Other JSON values (numbers,
  objects) that a request body could carry are not modelled.
- The exception raised when only secondaries match becomes the value
  `Err(PrimaryUndefined)`. The route handler has no error handling, so the
  exception escapes it as a rejected promise; that path is not modelled.
- The response's outer `{ contact: ... }` wrapper is not modelled; `Response`
  is the inner object.
- ContactService.ContactTable.IdentifyContact: the merge loop is modelled on
  the `rows` field and a fresh read of it. The in-memory Sequelize instances
  of the demoted primaries are not modelled as separate objects that could
  go stale; the code saves only the fields it changed on them.
- Reconciliation.IdentifyKeepsLinksOneHop: requires the table to be one hop
  already. The code does not check this, and on a table that is not one hop
  the merge does not flatten longer chains.
