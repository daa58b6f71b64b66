# VotoEscolar: a verified model of the list, vote and sign-in logic

VotoEscolar is a web application for school-association elections. Candidate
lists ("AEs") publish their members (the "os onze", grouped by governing body:
DIREÇÃO, MESA DE ASSEMBLEIA GERAL, CONSELHO FISCAL) and their proposals. Visitors
like lists, signed in or anonymously. Administrators look at aggregate figures.

This project models the data logic behind six pages and components, one Dafny
module each. The modules rest on three small library modules:

- `Wrappers`: `Option`, the model's rendering of `null`.
- `Seqs`: distinct elements in first-appearance order, counting, first index, and
  the "clustered" property of a sequence sorted by key.
- `Text`: JavaScript's `trim`, `includes`, `startsWith`, `substring(0, n)` (counted in characters) and the
  ASCII part of `toLowerCase`, over `seq<char>`.

The `Notices` module holds the toast and navigation a handler ends with.

Per page:

- `AEDetails`: the detail page's post-processing of a list's members. It finds the
  president and groups the members by governing body. The grouping is the
  `reduce` loop, written as a method over a growing sequence of groups and proved
  equal to a specification, `Grouping`. Properties proved about `Grouping`: a
  partition, ordered by first appearance, keeping input order within each group,
  a permutation of the input, and equal to the input when the input is sorted by
  body. The rule that draws a separator between members is modelled too.
- `Insights`: the analytics page's aggregation. A JavaScript `Map` is filled by a
  counting loop (`Tally`); that loop is proved equal to `Tallied`, whose entries
  are distinct, in first-appearance order, at least one, and sum to the row count.
  Also modelled: the per-owner chart (owner key, 8-character label, first five
  entries) and the three totals.
- `Feed`: the like toggle. The vote table and the anonymous voter's local record
  are the fields of a `VoteBoard` class. `HandleVote` is proved equal to the
  specification `Vote`. Lemmas cover counts, failures, removal and toggle-twice
  round trips, and what a card shows.
- `AEForm`: the list editor. Member and proposal edits are functions on an
  `Editor` value. Also modelled: the image checks before an upload, the record
  written on save with its load/save round trip, and the save itself. The save is
  a `ListStore` class over the lists and members tables. On an edit it updates
  the list row, deletes the list's members, then inserts the form's members.
- `ResetPassword`: the recovery-link check, and the ordered checks before a
  password update.
- `Auth`: the ordered mapping of sign-in errors to messages, and the empty-email
  guard on a reset request.

Backend calls are not modelled as calls. What the backend answers becomes a
parameter: success or failure, an error message, the id it gives a new row, a
count. Tables are sequences of rows, and the anonymous record is an
already-decoded sequence.

## Model

| member | source | states |
|---|---|---|
| AEDetails.FindPresident | src/pages/AEDetails.tsx:61-63 | the index found is the first member whose lower-cased role is "presidente" and whose body is "DIREÇÃO"; none means no member qualifies |
| AEDetails.President | src/pages/AEDetails.tsx:61-64 | the president is the first qualifying member's name, and null when no member qualifies or that name is empty |
| AEDetails.MembersOfSpec | src/pages/AEDetails.tsx:66-74 | a group's members are input members of that body, as many as the body occurs in the input |
| AEDetails.Grouping | src/pages/AEDetails.tsx:66-74 | one group per distinct body, keyed in first-appearance order |
| AEDetails.GroupingShape | src/pages/AEDetails.tsx:66-74 | group keys are pairwise distinct, no group is empty, and every member of a group has the group's body |
| AEDetails.FindGroup | src/pages/AEDetails.tsx:67 | `find` returns the first group with the body, or -1 exactly when there is none |
| AEDetails.GroupByOrgao | src/pages/AEDetails.tsx:66-74 | the `reduce` loop, which pushes into an existing group or appends a new one, yields exactly `Grouping` of its input |
| AEDetails.GroupingSnocExisting | src/pages/AEDetails.tsx:68-69 | a member whose body already has a group extends that group and changes nothing else |
| AEDetails.GroupingSnocNew | src/pages/AEDetails.tsx:70-71 | a member of a new body appends a one-member group |
| AEDetails.GroupingIsPermutation | src/pages/AEDetails.tsx:66-74 | the groups together hold exactly the input members (same multiset, same total count) |
| AEDetails.MemberInExactlyOneGroup | src/pages/AEDetails.tsx:66-74 | every input member lies in exactly one group, the one keyed by its body |
| AEDetails.GroupsInFirstAppearanceOrder | src/pages/AEDetails.tsx:66-74 | groups appear in order of their body's first occurrence in the input |
| AEDetails.GroupKeepsInputOrder | src/pages/AEDetails.tsx:66-74 | each group's members form a subsequence of the input, so input order is kept |
| AEDetails.SortedInputRoundTrips | src/pages/AEDetails.tsx:55-56 | when the input is sorted by body, as the query asks, concatenating the groups gives the input back |
| AEDetails.SeparatorBetweenMembers | src/pages/AEDetails.tsx:219 | with distinct member ids, a separator follows a member exactly when it is not the last of its group |
| Insights.Tally | src/pages/Insights.tsx:89-98 | the `Map` counting loop yields the entries of `Tallied`: one per distinct key with its count, in insertion order |
| Insights.TalliedShape | src/pages/Insights.tsx:89-98 | entries have distinct names and cover exactly the input keys; each count is at least 1 and is the key's number of occurrences; order is by first appearance |
| Insights.TalliedSum | src/pages/Insights.tsx:89-98 | the counts sum to the number of rows |
| Insights.UserKey | src/pages/Insights.tsx:120 | a list's owner key is its user id, or "Sem utilizador" when that is null or empty |
| Insights.Label | src/pages/Insights.tsx:125 | a label is exactly the first min(8, length) characters of the key followed by "..." |
| Insights.AesByUser | src/pages/Insights.tsx:118-126 | the per-owner loop and slice yield `ByUserChart`, with at most 5 entries |
| Insights.ByUserChartSpec | src/pages/Insights.tsx:118-126 | the chart holds the first min(5, owners) owners by first appearance with their full counts; counts sum to at most the number of lists, and exactly to it when there are at most 5 owners |
| Insights.ChartIsNotTopFive | src/pages/Insights.tsx:124-126 | the cut keeps the first five owners, not the five largest: a sixth owner with two lists is dropped while owners with one are kept |
| Insights.FetchInsights | src/pages/Insights.tsx:88-135 | totals default to 0 when a count is missing; the member total is the row count and equals the distribution's sum; the distribution is `Tallied` of the bodies; the chart is `ByUserChart`, at most 5 entries |
| Feed.VotesFor | src/pages/Feed.tsx:39-42 | a list's vote count never exceeds the number of rows |
| Feed.FirstEntryFor | src/pages/Feed.tsx:105 | `find` returns the first record entry for the list, and none exactly when the record has no entry for it |
| Feed.ItemFor | src/pages/Feed.tsx:39-63 | a card's count is the list's row count, or 0 when the count is missing; an anonymous viewer has voted iff the record has an entry for the list; a signed-in one iff the lookup answers and exactly one of their rows matches |
| Feed.DeleteUserVotes | src/pages/Feed.tsx:82-86 | after the delete no row of the list by that user remains |
| Feed.DeleteById | src/pages/Feed.tsx:107-110 | after the delete no row has that id |
| Feed.WithoutList | src/pages/Feed.tsx:114 | the rewritten record has no entry for the list |
| Feed.WithoutListKeeps | src/pages/Feed.tsx:114 | an entry survives the rewrite exactly when it was in the record and is for another list |
| Feed.WithoutListAppend | src/pages/Feed.tsx:114 | the rewrite filters entry by entry, so the surviving entries keep their order |
| Feed.DeleteByIdKeeps | src/pages/Feed.tsx:107-110 | a row survives the delete exactly when it was in the table with another id |
| Feed.DeleteByIdAppend | src/pages/Feed.tsx:107-110 | the delete filters row by row, so the surviving rows keep their order |
| Feed.DeleteByIdCounts | src/pages/Feed.tsx:107-110 | each list's count drops by exactly its rows with the deleted id |
| Feed.VoteBoard.HandleVote | src/pages/Feed.tsx:77-139 | the handler's new table, record and notice are those of `Vote` on the old state |
| Feed.DeleteUserVotesCounts | src/pages/Feed.tsx:82-86 | the delete lowers the list's count by that user's rows and leaves other lists' counts alone |
| Feed.AddedCounts | src/pages/Feed.tsx:91-130 | a successful add raises only that list's count, by one; an anonymous add appends the new row's entry to the record |
| Feed.FailureChangesNothing | src/pages/Feed.tsx:88-126 | a failed backend call leaves table and record unchanged, because the throw precedes the record write |
| Feed.AnonymousRemove | src/pages/Feed.tsx:103-117 | with no record entry nothing changes; otherwise exactly the rows with the first entry's id go, each list's count drops by its rows with that id, and the record keeps exactly the entries of other lists |
| Feed.UserRemove | src/pages/Feed.tsx:81-89 | a signed-in removal deletes all the user's rows for the list, keeps other counts and the record |
| Feed.AnonymousToggleTwiceRestores | src/pages/Feed.tsx:103-130 | an anonymous like then unlike, with no prior entry, restores both table and record |
| Feed.UserToggleTwiceRestores | src/pages/Feed.tsx:81-97 | a signed-in like then unlike, with no prior vote, restores the table |
| Feed.AnonymousItemFollowsToggle | src/pages/Feed.tsx:57-130 | after an anonymous like the card shows the vote and a count one higher; after an unlike it does not show the vote |
| AEForm.LoadForm | src/components/AEForm.tsx:53-61 | an existing list's null columns load as "", 0 and []; no list gives the empty form |
| AEForm.InitialEditor | src/components/AEForm.tsx:35-64 | the editor starts with the loaded fields, no members, the empty draft and no proposal input |
| AEForm.RemoveAt | src/components/AEForm.tsx:96-113 | filtering out index i drops exactly position i, keeping order; any other index changes nothing |
| AEForm.AddMembro | src/components/AEForm.tsx:85-93 | a draft with a blank name or role changes nothing; otherwise it is appended untrimmed and the draft resets to empty, "DIREÇÃO", no photo |
| AEForm.RemoveMembro | src/components/AEForm.tsx:95-97 | only the member list changes, and only position `index` goes |
| AEForm.AddThenRemoveMembro | src/components/AEForm.tsx:85-97 | removing the member just added restores the member list |
| AEForm.FindListing | src/components/AEForm.tsx:413-415 | `findIndex` returns the first member with the same name, role and body, or -1 when none |
| AEForm.ClickRemoveAsWritten | src/components/AEForm.tsx:413-435 | the remove button drops the first row listed like the clicked one, at or before it |
| AEForm.ClickRemoveAsWrittenDropsTwin | src/components/AEForm.tsx:413-435 | with two rows alike but for the photo, clicking the second removes the first |
| AEForm.ClickRemove | src/components/AEForm.tsx:435 | the corrected button removes exactly the clicked row |
| AEForm.ClickRemoveAgreesWithoutTwins | src/components/AEForm.tsx:413-415 | as written and corrected agree when no earlier row is listed alike |
| AEForm.AddProposta | src/components/AEForm.tsx:99-108 | a blank input changes nothing; otherwise the trimmed text is appended, is non-empty and not space-bounded, and the input is cleared |
| AEForm.RemoveProposta | src/components/AEForm.tsx:110-115 | only the proposal list changes, and only position `index` goes |
| AEForm.AddThenRemoveProposta | src/components/AEForm.tsx:99-115 | removing the proposal just added restores the list fields |
| AEForm.ValidateImage | src/components/AEForm.tsx:118-171 | no file, not an image (checked first), too large (over 5·1024·1024 bytes) and accepted each hold exactly in their case |
| AEForm.UploadLogo | src/components/AEForm.tsx:117-157 | only an accepted file whose upload succeeded changes the editor, and only its logo address |
| AEForm.UploadMemberPhoto | src/components/AEForm.tsx:159-196 | only an accepted file whose upload succeeded changes the editor, and only the draft's photo |
| AEForm.NullIfEmpty | src/components/AEForm.tsx:212-213 | `s || null` is null exactly for the empty string and otherwise `s` |
| AEForm.ListPayload | src/components/AEForm.tsx:209-216 | the saved record keeps name and count, nulls empty addresses and an empty proposal list, and is owned by the signed-in user |
| AEForm.SaveThenLoad | src/components/AEForm.tsx:55-216 | saving a form and loading the stored row gives the same form |
| AEForm.LoadThenSave | src/components/AEForm.tsx:55-216 | loading a row and saving it stores the row with "" and [] read as null and a null count as 0 |
| AEForm.MemberRowOf | src/components/AEForm.tsx:248-254 | a member row carries the list id and the member's fields; its photo is null exactly when missing or empty |
| AEForm.SaveErrorMessage | src/components/AEForm.tsx:266-270 | an error naming "user_has_ae" gives the duplicate-list message, any other the generic one |
| AEForm.MembersOfDeleted | src/components/AEForm.tsx:230-233 | deleting a list's members empties that list and leaves every other list's members |
| AEForm.MembersOfWritten | src/components/AEForm.tsx:247-258 | the inserted rows belong to the saved list alone, in form order |
| AEForm.ListStore.Submit | src/components/AEForm.tsx:198-274 | the save's new tables and result are those of `Save` on the old tables |
| AEForm.EditReplacesMembers | src/components/AEForm.tsx:220-260 | a successful edit leaves the list with exactly the form's members, in order, and other lists' members unchanged |
| AEForm.EditUpdatesOnlyThatList | src/components/AEForm.tsx:220-227 | a successful edit rewrites the rows with that list id to the saved record, and no other row |
| AEForm.CreateAddsList | src/components/AEForm.tsx:235-260 | a successful creation appends one list row with the backend's id, gives it exactly the form's members, and leaves every other list's members unchanged |
| AEForm.NothingWrittenBeforeListWrite | src/components/AEForm.tsx:203-242 | with no user, or when the list write fails, neither table changes |
| AEForm.DeleteFailureKeepsMembers | src/components/AEForm.tsx:230-234 | a failed delete leaves the members table alone, after the list row was updated |
| AEForm.EditFailureLeavesNoMembers | src/components/AEForm.tsx:229-259 | a failed member insert on an edit leaves the list with no members, since the delete already ran |
| ResetPassword.Utf16Length | src/pages/ResetPassword.tsx:58 | `length` counts UTF-16 code units: between the number of characters and twice it, equal for BMP-only text |
| ResetPassword.CheckRecoveryLink | src/pages/ResetPassword.tsx:38-47 | the link is refused, with a redirect to "/auth", iff it has no access token, no token hash and a type other than "recovery" |
| ResetPassword.HandleResetPassword | src/pages/ResetPassword.tsx:50-84 | the update is requested iff the passwords match and are at least 6 long; a mismatch is reported before the length; only success navigates to "/"; loading is off after a requested update |
| ResetPassword.LoadingClearedAfterAttempt | src/pages/ResetPassword.tsx:63-83 | from an idle page, loading is off after every attempt |
| ResetPassword.SuccessOnlyAfterUpdate | src/pages/ResetPassword.tsx:53-77 | a success notice appears exactly when the checks pass and the update succeeds |
| ResetPassword.LengthCountsCodeUnits | src/pages/ResetPassword.tsx:58 | five characters including one outside the BMP already pass the length check |
| Auth.SignInErrorText | src/pages/Auth.tsx:28-34 | "Invalid login credentials" is matched first, then "Email not confirmed"; any other message is shown after "Erro ao fazer login: " |
| Auth.HandleSignIn | src/pages/Auth.tsx:20-44 | success shows a notice and navigates to "/"; an error or an exception shows an error toast and stays |
| Auth.CredentialsTestTakesPrecedence | src/pages/Auth.tsx:28-31 | a message naming both cases is reported as bad credentials |
| Auth.OtherErrorsKeepBackendText | src/pages/Auth.tsx:32-33 | an unrecognised message is shown in full after the prefix |
| Auth.RequestReset | src/pages/Auth.tsx:46-66 | an empty email is refused without calling the backend; success is reported only after a request succeeded |

## Left out

- Rendering, routing and session subscriptions are not modelled. Backend calls, storage uploads and `getPublicUrl` are replaced by their answers, passed as parameters.
- The queries that load data (list rows, members, counts) are not modelled. Their results are inputs, so the sorting `order("orgao")` asks for appears only as the precondition of `AEDetails.SortedInputRoundTrips`.
- `fetchMembros` on the list editor, which loads an edited list's members, is not modelled: `AEForm.InitialEditor` starts with no members.
- Insights' recent-activity series is not modelled. It depends on the clock, a locale date formatter and the parsing of localised dates.
- Upload file names are not modelled. They are built from the clock and a random number.
- Overlapping requests are not modelled: the `Promise.all` in the feed and the toggles are taken as sequential.
- The JSON encoding of the anonymous record in local storage is not modelled. The record is a decoded sequence.
- Toasts are modelled only where they are a handler's result. Console logs and loading flags are left out, except the reset page's loading flag.
- Row ids the database assigns to member rows are not modelled, and neither are timestamps or the `commissoes` column. A form member has no id, because the save does not write it.
- AEDetails.President: `toLowerCase` is modelled for ASCII letters only. This is exact for the comparison with "presidente": no other character lower-cases to a single ASCII letter of that word.
- Feed.ItemFor: a `maybeSingle` lookup that matches several rows, or that fails, is taken to answer with no row. That is why "has voted" requires a lookup that answered and exactly one matching row.
- AEForm.Save: the id of the list being edited and the id the backend gives a new list are taken as they come. The model does not check that an edited list exists, or that a new id is unused.
- Text.Prefix: `substring` is modelled counting characters, where JavaScript counts UTF-16 code units. The two differ only for keys with characters outside the Basic Multilingual Plane; owner keys are ids or "Sem utilizador".
- AEForm.ValidateImage: a file's size is a natural number of bytes and its type a string; no file contents are modelled.
- The "Top 5" title of the per-owner chart does not match the slice, which keeps the first five owners. `Insights.ChartIsNotTopFive` states this; the model follows the code.
- The admin's edit of another user's list rewrites the list's owner to the admin, since the payload always carries the signed-in user. This is modelled through `AEForm.ListPayload`, not singled out.

## Findings

| source | as written | input that shows it | evidently intended | confidence | as-written member | corrected member |
|---|---|---|---|---|---|---|
| src/components/AEForm.tsx:413-415, 435 | the remove button of a member row removes the first member with the same name, role and body | two members "Ana", "Vogal", "DIREÇÃO", the first with a photo and the second without; clicking the second removes the first | remove the row that was clicked | high for the input shown, not executed | AEForm.ClickRemoveAsWritten, AEForm.ClickRemoveAsWrittenDropsTwin | AEForm.ClickRemove |
