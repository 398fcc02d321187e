# Message groups of the investor portal, in Dafny

An admin of the investor portal can send one message to several investors of a property. The
portal stores such a send as one `Message` row per recipient, and all the rows of one send share a
`groupId`. This model covers the code that creates, reconciles, lists and audits those groups, plus
two small pieces of admin UI logic:

- **`POST /api/admin/messages`** checks the request and picks the recipients: the explicit one, or
  else every investor of the property. It draws one fresh `groupId` when there is more than one
  recipient and creates one row per recipient. When the request asks for e-mail notification, it
  tries to e-mail each recipient that has an e-mail address. A failed e-mail is only recorded.
- **`GET /api/admin/messages`** filters the rows by property when asked and lists them newest
  first. It collapses the rows of each truthy `groupId` into one entry, the first of that group in
  the listing order. That entry carries the recipients and the size of the whole group.
- **The migration script** handles legacy rows that have no `groupId`. It partitions them by
  sender, property, subject and the minute of sending. Each partition of two or more rows gets one
  new id.
- **The grouping audit script** splits all rows into buckets by truthy `groupId` and single rows.
  It then reports how many entries the collapsed listing saves.
- **The password strength indicator** counts how many of five requirements a password meets and
  maps that count to a colour, a word and a checklist.
- **The overview tab's activity feed** renders "how long ago", and chooses an icon per activity
  kind.

The database is a value: a `seq<Message>` in table order. Whatever the script or route reads, it
gets as a parameter, and whatever it writes, it returns as the new table. For that reason the
migration and the POST handler are methods that change nothing. Their loops are kept as `while`
loops, each proved against a specification function:

- `IsMigration` for the migration;
- `RowsFor` and `NotificationsBelow` for the POST handler;
- `Collapsed` for the GET collapse;
- `SplitSoFar` for the audit split.

Values from outside the code become parameters or supplies:

- `uuidv4()` becomes a supply of pairwise distinct ids that no row uses yet.
- The ids the database gives new rows become `rowIds`.
- The current time becomes `nowMs` in the overview. In POST each created row gets the send date
  the database stamps on it at its insert, and these dates become a sequence `times`, one per row.
  The inserts happen one after another, with an e-mail between them, so the dates of one send need
  not be equal.
- `sendEmail` becomes a function `mailer` that says whether delivery succeeded.
- The session check becomes `authorized`.

Files:

- `messages.dfy`: the row, JavaScript truthiness, and the row filters several parts share.
- `migration.dfy`: the migration.
- `admin_messages.dfy`: both route handlers.
- `grouping_audit.dfy`: the audit script.
- `password_strength.dfy`: the indicator component.
- `overview.dfy`: `formatRelativeTime` and `getActivityIcon`.
- `decimal.dfy`: the decimal rendering used by template literals.
- `options.dfy`: the optional value (a missing field, a null column) every module shares.

Where the documented behaviour and the code differ, the model follows the code:

- **The key.** The migration key is described as a composite key string. The code's string key
  (`${senderId}-${propertyId}-${subject}-${timeKey}`) can merge rows whose parts differ; see
  Findings. The model partitions by the four-part tuple.
- **The bucket.** It is described as the epoch time divided by 60. The code floors the
  milliseconds divided by 60000 (`Math.floor`), which also floors times before the epoch.
- **"Non-null" groupId.** The listing and the audit test `if (message.groupId)`, so a row whose
  `groupId` is `""` shows on its own there. The migration selects `groupId: null`, so it leaves
  such a row alone as well. The model keeps both tests: `Truthy` / `GroupOf` and `groupId.None?`.
- **Rerunning after a failure.** The migration is described as all-or-nothing per partition and
  safe to re-run. The code updates row by row without a transaction (lines 60-66), so a failure
  can leave a partition partly updated. A rerun selects only the rows still null (lines 11-14) and
  gives them a new id of their own, or none if one row is left. The same send then shows as two
  entries, or as an entry plus a single row (`Migration.RerunSplitsPartition`).
- **What `recipientCount` counts.** It counts every row of the group in the whole table. It is not
  limited to the rows that passed the property filter.
- **The 8-character requirement.** It is described as "at least 8 characters", but the code uses
  `/.{8,}/` without the `u` flag. That regular expression asks for eight consecutive UTF-16 code
  units, none of which is a line terminator, so a character outside the Basic Multilingual Plane
  (an emoji, say) counts as two.

## Model

| member | source | states |
|---|---|---|
| Decimal.NatToString | components/adminComponents/adminOverviewTab.tsx:68 | `${n}` for a natural number is a non-empty string of decimal digits, with no leading zero for n > 0, and of length 1 exactly when n < 10 |
| Decimal.NatToStringRoundTrip | components/adminComponents/adminOverviewTab.tsx:68 | reading the printed digits back gives the number |
| Decimal.IntToString | scripts/migrate-message-groups.js:39 | `${timeKey}` is non-empty and starts with '-' exactly when the value is negative |
| Messages.GroupIdsBelowMember | app/api/admin/messages/route.js:58-68 | a groupId is in the set of ids seen before row n exactly when one of those rows has it as its truthy groupId |
| Messages.RowsOfGroupCount | app/api/admin/messages/route.js:71-89 | the rows of group g number as many as the occurrences of g in the table's groupId column |
| Messages.GroupRowsAbsent | app/api/admin/messages/route.js:71-83 | a truthy groupId no row has selects no rows |
| Migration.MinuteBucket | scripts/migrate-message-groups.js:36-37 | the bucket b is the minute containing the send time: b·60000 ≤ ms < b·60000 + 60000 |
| Migration.PushRow | scripts/migrate-message-groups.js:41-45 | one iteration keeps the key order duplicate-free and every key's list non-empty and exactly the ungrouped rows seen so far with that key |
| Migration.PartitionByKey | scripts/migrate-message-groups.js:32-46 | the map holds exactly the keys of the ungrouped rows: it lists, for each key, its ungrouped rows in increasing order, at least one, as many as the partition size; every ungrouped row's key is in the map, and the order lists each key once |
| Migration.StampGroup | scripts/migrate-message-groups.js:60-66 | exactly the listed rows get groupId g, and nothing else changes |
| Migration.AssignIds | scripts/migrate-message-groups.js:48-69 | exactly the partitions of more than one row get an id, ids are distinct and drawn from the supply, each ungrouped row of such a partition carries its partition's id, and `updatedCount` is the number of rows so covered |
| Migration.Migrate | scripts/migrate-message-groups.js:11-69 | the result is a migration: untouched rows stay equal; regrouped rows change only their groupId, to a fresh id no earlier row used; two regrouped rows share an id exactly when they share the key; `updatedCount` is the number of regrouped rows |
| Migration.RerunSplitsPartition | scripts/migrate-message-groups.js:11-66 | after a run that stopped inside a partition, a rerun gives two rows of it that are still null one fresh id, different from the id the first run gave the rest |
| Migration.CountBelowMonotone | scripts/migrate-message-groups.js:11-14 | a table whose ungrouped rows of key k are among another's has no larger partition k |
| Migration.SameMinuteShareGroup | scripts/migrate-message-groups.js:35-39 | two ungrouped rows with the same sender, property and subject sent in the same minute end up with one common non-null groupId |
| Migration.MinuteBoundarySplits | scripts/migrate-message-groups.js:37 | rows sent one second either side of a minute boundary fall in consecutive buckets, share no partition, and get different ids when both are regrouped |
| Migration.MigrationIdempotent | scripts/migrate-message-groups.js:11-14 | after one run every row still without a groupId was alone in its partition; a second run regroups nothing and leaves the table unchanged |
| Migration.StringKeyCollides | scripts/migrate-message-groups.js:39 | two rows with different sender and property get the same joined string key |
| Migration.KeyOf | scripts/migrate-message-groups.js:35-39 | the partition key as a tuple of sender, property, subject and minute; `KeyOfSeparatesParts` states that it tells rows apart exactly by those four parts |
| Migration.StringKey | scripts/migrate-message-groups.js:39 | the key string as the script joins it; `StringKeyCollides` shows two rows with different parts that it maps to one string |
| Migration.KeyOfSeparatesParts | scripts/migrate-message-groups.js:35-39 | two rows share the tuple key exactly when sender, property, subject and minute all agree |
| AdminMessages.ListingFilter | app/api/admin/messages/route.js:16-25 | with a truthy `propertyId` parameter, only rows of that property are kept and every such row is kept; otherwise the whole table |
| AdminMessages.ListingFilterCount | app/api/admin/messages/route.js:16-25 | the filter keeps each matching row exactly as many times as the table holds it, and no other row: no duplicates are added and none dropped |
| AdminMessages.InsertByDate | app/api/admin/messages/route.js:51-53 | inserting a row into a newest-first list keeps it newest-first and adds exactly that row |
| AdminMessages.SortNewestFirst | app/api/admin/messages/route.js:51-53 | `orderBy: { sentDate: "desc" }`: the result is newest first and a permutation of the input |
| AdminMessages.PresentRecipients | app/api/admin/messages/route.js:88 | the present recipients are never more than the group's rows (their exact content is `PresentRecipientsCount` and `PresentRecipientsExact`) |
| AdminMessages.PresentRecipientsCount | app/api/admin/messages/route.js:88 | `.filter(Boolean)` keeps one entry per row that has a recipient: a user is listed as many times as the rows' recipientId column names them |
| AdminMessages.PresentRecipientsExact | app/api/admin/messages/route.js:88 | `.map(m => m.recipient).filter(Boolean)`: a user is listed exactly when some row of the group has them as recipient |
| AdminMessages.EntryFor | app/api/admin/messages/route.js:66-102 | the entry built for one listed row; what it holds is stated by `EntryForMeaning` |
| AdminMessages.EntryForMeaning | app/api/admin/messages/route.js:66-102 | a grouped entry counts every row of the group in the table and lists exactly the present recipients among them, each user as many times as rows of the group are addressed to them; a single entry counts 1 and lists its recipient when it has one, else 0 and none |
| AdminMessages.GroupRowsExact | app/api/admin/messages/route.js:71-83 | a row is among the group's rows exactly when it is a table row with that groupId |
| AdminMessages.ShownIffFirst | app/api/admin/messages/route.js:60-64 | a row is listed exactly when it has no truthy groupId or no earlier row has that groupId |
| AdminMessages.RepresentativesExact | app/api/admin/messages/route.js:60-64 | the listed positions are exactly the shown rows, each once, in increasing order |
| AdminMessages.CollapseStep | app/api/admin/messages/route.js:60-102 | one more row adds its entry exactly when that row is shown |
| AdminMessages.CollapseListing | app/api/admin/messages/route.js:56-103 | the loop with `seenGroups` returns the entries of the shown rows, in listing order |
| AdminMessages.Get | app/api/admin/messages/route.js:8-105 | 401 "Unauthorized" without an admin session; otherwise the collapse of the filtered rows sorted newest first |
| AdminMessages.ShownCount | app/api/admin/messages/route.js:56-103 | the shown rows number the distinct truthy groupIds plus the rows without one |
| AdminMessages.CollapsedLength | app/api/admin/messages/route.js:56-103 | the listing has one entry per distinct group plus one per single row |
| AdminMessages.GroupHasEntry | app/api/admin/messages/route.js:56-103 | every group of the listed rows has an entry |
| AdminMessages.EntriesDistinctGroups | app/api/admin/messages/route.js:60-64 | no two entries belong to the same group |
| AdminMessages.RepresentativeIsFirst | app/api/admin/messages/route.js:60-93 | a group's entry is built from its first row in listing order, which is the newest of the group's rows when the listing is newest first |
| AdminMessages.SentGroupCountsAll | app/api/admin/messages/route.js:149-192 | after a send to n recipients with a fresh groupId, the entry built from any of the n rows, so also the newest one that GET lists, counts n and lists all n recipients |
| AdminMessages.SentGroupListed | app/api/admin/messages/route.js:56-103 | whatever order the listed rows come in, a listing holding a row of the send has an entry built from one of its rows that counts and lists all n recipients |
| AdminMessages.SentRowsAreGroup | app/api/admin/messages/route.js:71-83 | rows appended under a groupId no earlier row has are exactly the rows the group query returns |
| AdminMessages.InvestorsOf | app/api/admin/messages/route.js:136-139 | a user is listed exactly when assigned to the property |
| AdminMessages.InvestorsOfCount | app/api/admin/messages/route.js:136-139 | one entry per assignment record: a user is listed as many times as they are assigned to the property |
| AdminMessages.InvestorsOfLength | app/api/admin/messages/route.js:136-139 | the investor list is as long as the property's assignment records |
| AdminMessages.RecipientsFor | app/api/admin/messages/route.js:134-139 | a truthy `recipientId` is the only recipient; otherwise exactly the property's investors |
| AdminMessages.RecipientsForCount | app/api/admin/messages/route.js:134-152 | an explicit recipient gives one recipient; otherwise each investor once per assignment record, so a send to the property creates as many rows, and reports as large a `count`, as it has assignment records |
| AdminMessages.HasRequiredFields | app/api/admin/messages/route.js:126 | subject, message and propertyId are all truthy; `Post` answers 400 exactly when one of them is not |
| AdminMessages.RowsFor | app/api/admin/messages/route.js:152-192 | one created row per recipient, row k with the k-th row id and the k-th send date |
| AdminMessages.NotificationsBelow | app/api/admin/messages/route.js:194-220 | no more attempts than recipients, and none unless notification is asked for; `NotificationsAddressed` says to whom they go |
| AdminMessages.NotificationsAddressed | app/api/admin/messages/route.js:194-220 | every attempt goes to a non-empty address of one of the recipients and records what the mailer answered; when notification is asked for, every recipient with an address gets an attempt |
| AdminMessages.NotificationsCount | app/api/admin/messages/route.js:194-220 | one attempt per recipient with an address: when notification is asked for, a non-empty address is mailed exactly as many times as recipients have it, and otherwise never |
| AdminMessages.Post | app/api/admin/messages/route.js:115-227 | 401 without an admin session and 400 "Subject, message, and property are required" for a falsy field, both with nothing created or sent; otherwise one row per recipient is added, each stamped with its own send date, with a shared groupId exactly when there are several recipients, one e-mail attempt per recipient with an address when notification is asked for, and the response's count is the number of rows |
| AdminMessages.RowsForAt | app/api/admin/messages/route.js:152-164 | row k of a send is built from recipient k, row id k and send date k |
| AdminMessages.SentRows | app/api/admin/messages/route.js:134-192 | each created row carries the request's subject, message and property, the caller as sender, its own recipient, its own row id and send date, and the request's notification flag; all share one groupId, present exactly when there is more than one row and then used by no earlier row; an explicit recipient gives one row |
| GroupingAudit.SplitRow | scripts/test-message-grouping.js:26-35 | one iteration keeps every bucket equal to its group's rows so far, the key list equal to their groupIds in first-seen order, and singles equal to the ungrouped rows so far |
| GroupingAudit.Split | scripts/test-message-grouping.js:23-35 | after the loop the buckets, key order and singles describe the whole input |
| GroupingAudit.Audit | scripts/test-message-grouping.js:11-82 | bucket keys are exactly the truthy groupIds, in first-seen order (`FirstSeen`), each bucket is that group's rows and non-empty, singles are the rows without one; the summary's grouped and single counts add up to the total, groups never outnumber grouped rows, and the reduction is before − after ≥ 0 |
| GroupingAudit.FirstSeenPrecedes | scripts/test-message-grouping.js:26-31 | the keys are in first-seen order: every row of a later-listed group has a row of each earlier-listed group before it |
| GroupingAudit.BucketHeadIsFirst | scripts/test-message-grouping.js:47 | a bucket's first message is the group's first row in the input |
| PasswordStrength.Met | components/PasswordStrengthIndicator.tsx:29-30 | `req.regex.test(password)` for each of the five requirements; `MinLengthMeaning` and `AppendKeepsRequirement` state what it means |
| PasswordStrength.Strength | components/PasswordStrengthIndicator.tsx:32 | the number of requirements met; `StrengthCounts` bounds it and says when it is 0 and 5 |
| PasswordStrength.MetAmong | components/PasswordStrengthIndicator.tsx:29-31 | the filtered list holds exactly the requirements that are met, and no more than were given |
| PasswordStrength.MinLengthMeaning | components/PasswordStrengthIndicator.tsx:19 | the length requirement implies a UTF-16 `length` of at least 8, and for a password without line terminators is exactly `length >= 8` |
| PasswordStrength.Utf16LengthBounds | components/PasswordStrengthIndicator.tsx:19 | a string takes between one and two code units per character, exactly one each when all lie in the Basic Multilingual Plane |
| PasswordStrength.SurrogatePairsCountTwice | components/PasswordStrengthIndicator.tsx:18-32 | "Ab1!" followed by two emoji (six characters, eight code units) has strength 5 |
| PasswordStrength.StrengthCounts | components/PasswordStrengthIndicator.tsx:18-32 | the strength is the number of requirements met: between 0 and 5, 5 exactly when all hold, 0 exactly when none holds |
| PasswordStrength.AppendKeepsRequirement | components/PasswordStrengthIndicator.tsx:18-27 | a requirement a password meets stays met when characters are added at the end |
| PasswordStrength.AppendNeverWeakens | components/PasswordStrengthIndicator.tsx:29-32 | typing more characters never lowers the strength |
| PasswordStrength.BarColour | components/PasswordStrengthIndicator.tsx:34-40 | `getStrengthColor`; `ColoursAgree` ties it to the hue table |
| PasswordStrength.LabelColour | components/PasswordStrengthIndicator.tsx:66-78 | the label's nested conditional; `ColoursAgree` ties it to the same hue table |
| PasswordStrength.ColoursAgree | components/PasswordStrengthIndicator.tsx:34-40 | the bar (an ascending `<=` chain) and the label (a descending `>=` chain at lines 66-78) show the same hue for every strength |
| PasswordStrength.StrengthWord | components/PasswordStrengthIndicator.tsx:44-48 | every strength has a non-empty word, the one the hue table gives it, so the word changes at the same strengths as the bar and the label colours |
| PasswordStrength.StrengthText | components/PasswordStrengthIndicator.tsx:42-49 | the text is empty exactly for the empty password, and otherwise one of the five words |
| PasswordStrength.Render | components/PasswordStrengthIndicator.tsx:51-120 | nothing is drawn exactly for the empty password; otherwise bar colour, label colour and word follow the strength, and the checklist has five lines in requirement order (none when hidden), each with its text and whether it is met |
| Overview.ElapsedSeconds | components/adminComponents/adminOverviewTab.tsx:62 | the whole seconds elapsed, rounded down, also for a future date |
| Overview.FormatRelativeTime | components/adminComponents/adminOverviewTab.tsx:59-78 | which text `formatRelativeTime` picks and with what amount; `FormatRelativeTimeMeaning` and `AmountBounds` state it in milliseconds elapsed |
| Overview.FormatRelativeTimeMeaning | components/adminComponents/adminOverviewTab.tsx:59-78 | "just now" exactly under a minute (a future date included); minutes, hours and days exactly in [1 min, 1 h), [1 h, 1 day) and [1 day, 1 week); the locale date exactly from a week on or for an invalid date; the amount is the elapsed milliseconds rounded down to whole units and at least 1 |
| Overview.AmountBounds | components/adminComponents/adminOverviewTab.tsx:66-74 | the amount shown is 1-59 minutes, 1-23 hours or 1-6 days |
| Overview.RelativeTimeText | components/adminComponents/adminOverviewTab.tsx:68-74 | the template literals; `AgoTextReadsBack` states the text's shape |
| Overview.AgoTextReadsBack | components/adminComponents/adminOverviewTab.tsx:68-74 | an "ago" text starts with the amount's digits, which read back as the amount, then a space, ends in " ago", and has the plural "s" exactly when the amount is more than 1 |
| Overview.ActivityIcon | components/adminComponents/adminOverviewTab.tsx:80-93 | the chart icon is returned exactly for a kind other than the four known ones |
| Overview.IconIdentifiesKind | components/adminComponents/adminOverviewTab.tsx:80-93 | a known kind's icon belongs to no other kind |

## Left out

- **Database access.** The Prisma client, its queries, sessions (`getServerSession`) and request
  parsing are not modelled. Each one becomes a parameter.
- **ORM errors.** For example, a row created with a property or recipient that does not exist. So
  are the 500 responses they cause, and the rows a POST leaves behind when it fails halfway.
- **Related records.** The `include` of related property, sender and recipient records is not
  modelled. The listing carries recipient ids, not user records.
- **E-mail content.** The subject, the HTML body and the property lookup it uses are left out. The
  model only says to whom a notification goes and whether the mailer accepted it.
- **The migration's query order.** The query's `orderBy` (sender, property, subject, date) is not
  modelled. The model reads rows in table order. That order decides only which new id goes to
  which partition, and `IsMigration` does not depend on it.
- **A half-finished migration.** The script updates one row at a time, with no transaction
  (lines 60-66). A failure stops the run with some partitions updated, and possibly one partition
  only partly updated. The model gives the outcome of a complete run on any table, so a rerun after
  a partial run is covered as a run on the table it left. What that rerun does is
  `Migration.RerunSplitsPartition`: if two or more rows of the partly updated partition are still
  null, they get a second fresh id, and the send then shows as two groups. If only one is left, it
  stays a single row.
- **The audit's query order.** The audit script's `orderBy: { sentDate: "desc" }` is not modelled.
  `Audit` takes the rows in the order given, and none of its guarantees depends on that order.
- **The audit's printed details.** The audit's console listing of groups and single rows
  (lines 44-71) is not modelled; only the split and the summary numbers are. Line 53 would throw for
  a grouped row without a recipient, and the script would then end in its catch block without a
  summary.
- **Console output.** All `console.log` output is left out: the scripts' progress lines and the "Grouping n
  messages" line of the migration.
- **Character units.** Passwords and texts are sequences of Dafny characters (Unicode scalar
  values); JavaScript strings are UTF-16 code units. The length requirement counts code units
  (`Utf16Length`), a character outside the Basic Multilingual Plane counting two. The other four
  regular expressions test single code units from ASCII ranges, which a surrogate never falls in,
  so characters and code units give the same answer there. A JavaScript string holding an unpaired
  surrogate has no Dafny counterpart and is not modelled.
- **`validatePassword`.** The server-side password rules it applies (line 15 of the indicator) are not modelled.
  The indicator never uses the result. The change-password route is likewise not part of this model.
- **Bar width.** The bar width `(strength / 5) * 100` is a floating-point percentage and is left out.
- **Locale date.** `toLocaleDateString()` depends on the browser's locale. It is a parameter
  (`localeDate`) of the text rendering.
- **Invalid dates.** A date string that does not parse is `None`, which stands for NaN.
- **UI.** The rest of the overview tab (data fetching, layout) and the dashboards are UI only.
- AdminMessages.SortNewestFirst: rows with the same `sentDate` keep their table order, while
  `orderBy: { sentDate: "desc" }` leaves their order to the database. When rows of one send share
  a `sentDate`, which of them represents its group (its `id` and `recipientId` in the entry) is
  the database's choice, not a promise of the route.
- AdminMessages.Get: its ensures fixes the listing for the tie order above. The listing lemmas
  (`ShownIffFirst`, `CollapsedLength`, `GroupHasEntry`, `EntriesDistinctGroups`,
  `RepresentativeIsFirst`) are stated for any row sequence, so they hold whichever order the
  database picks.
- AdminMessages.EntryForMeaning: the group's rows are read in table order, but their query
  (app/api/admin/messages/route.js:71-83) has no `orderBy`, so the order of `recipients` is not
  promised. What is stated, which users appear and how often, does not depend on that order.
- Migration.Migrate: requires the id supply to hold at least as many fresh ids as the table has
  rows. This is how `uuidv4()` is modelled, and it is not something the script demands of its input.
- AdminMessages.Post: requires more row ids and more send dates than assignments, so that every
  created row can be given an id and a date. The database supplies both, and the route itself asks
  nothing of them. The dates are any integers: the model does not assume the database clock is
  monotone, and no contract depends on it.
- AdminMessages.SentRows: requires the drawn groupId to be non-empty and unused in the table. That
  is what `uuidv4()` promises.

## Findings

| source | as written | input that shows it | evidently intended | confidence | as-written member | corrected member |
|---|---|---|---|---|---|---|
| scripts/migrate-message-groups.js:39 | the partition key joins sender, property, subject and minute with "-" into one string | sender "a-b", property "c" and sender "a", property "b-c", same subject "Update", same minute: both keys are "a-b-c-Update-0" | partition by the four parts themselves, as the comment on line 35 says | low: ids of one fixed length (such as 36-character UUIDs) fix where the sender ends, and a subject containing "-" cannot be confused with a non-negative minute, so a collision needs ids of different lengths that contain "-", or a send date before 1970; not executed | Migration.StringKeyCollides | Migration.KeyOfSeparatesParts |
