# WeCase tweet models in Dafny

This project models the tweet layer of WeCase, a desktop client for the Sina Weibo
microblogging service (`src/Tweet.py`). That file has two parts.

- **Item projection.** `TweetItem` and `UserItem` wrap a raw API record, which is a decoded
  JSON object. They expose typed properties to the list views: the item kind, ids, the status
  URL, the author, the relative creation time, the text, the original status of a retweet or
  comment, and picture URLs.
- **List models.** `TweetAbstractModel` is the row container behind a list view.
  `TweetCommonModel` and `TweetCommentModel` load pages into it: a first page, newer items
  and older items. A boolean guard, `lock`, skips a load while another one is running. The
  models also remember the newest and oldest ids loaded, `since` and `max`.

Modules:

- `RawRecords` (raw_records.dfy): JSON values and records, dictionary lookup, Python
  truthiness, and Python's `int()` applied to an id.
- `RelativeTime` (relative_time.dfy): the relative-time text. Counts are rounded half to
  even, as `%.0f` prints them.
- `TweetItems` (tweet_items.dfy): the item properties as member functions of datatypes
  that wrap the raw record.
- `TweetModels` (tweet_models.dfy): classes for the three list models. The list is a `seq`
  field that the methods reassign. Each `*_thread` load takes the page the API returned as a
  parameter.

Behaviour the model makes explicit:

- `insertRows(row, items)` inserts every record at the same index, so the block lands
  reversed. `_new_thread` reverses the page first, so after a refresh the new page sits on
  top in the API's own order (`TweetModels.NewestFirst`, `TweetCommonModel.NewThread`).
- Building a `TweetItem` from a non-empty record fills its role table, which reads every
  property at once. Two of them can raise. `url` raises a `TypeError` (not caught by its
  `KeyError` handler) when `user` is present but is not a record. `original` builds the
  nested item, which raises for a truthy value that is not a record, or when building it
  raises in turn (`TweetItems.Constructs`, `TweetItems.ConstructsAlongOriginals`).
- A load can raise after it takes the guard. This happens in three cases:
  - a record of the page cannot be wrapped; the records before it are already in the list;
  - the list is still empty after the page is added;
  - an id does not convert with `int()`.

  The status model then keeps the guard forever, and every later load is skipped
  (`FailedRefreshBlocksLaterLoads`, `UnwrappableStatusBlocksLaterLoads`). The comment
  model's `_new_thread` checks the guard but never takes it, so the same failures leave that
  model usable (`FailedCommentRefreshLeavesGuardFree`, `UnwrappableCommentLeavesGuardFree`).
- Elapsed time is read with `timedelta.seconds`, which is always below 86400. As written,
  the "days ago" text can never appear, and the text for a past tweet repeats every day
  (`RelativeTime.SinceTimeStringRepeatsEveryDay`; see Findings).

Details of the code that the model keeps as written:

- The counts are rounded half to even, not floored: 90 seconds is "2 minutes ago".
- The nested keys are `retweeted_status` and `status`.
- The "days ago" bucket is unreachable as written.

## Model

| member | source | states |
|---|---|---|
| `RelativeTime.RoundHalfEven` | src/Tweet.py:302-306 | the printed count is the integer nearest to elapsed / unit, a tie going to the even neighbour |
| `RelativeTime.NearestHalfEvenUnique` | src/Tweet.py:302-306 | at most one integer is nearest with ties to even, so the count is determined |
| `RelativeTime.Bucket` | src/Tweet.py:301-308 | under a minute: the exact seconds; under an hour: rounded minutes; under a day: rounded hours; otherwise rounded days |
| `RelativeTime.DeltaSeconds` | src/Tweet.py:296 | the elapsed value is below 86400, differs from the true difference by whole days, and equals it within a day |
| `RelativeTime.SinceTimeString` | src/Tweet.py:286-308 | None exactly for a falsy timestamp; "Time travel!" exactly when now is before creation; never "days ago"; within a day, the bucket of the true elapsed time |
| `RelativeTime.SinceTimeStringTotal` | src/Tweet.py:286-308 | corrected version: None and "Time travel!" as written; "days ago" exactly when a whole day or more has passed |
| `RelativeTime.SinceTimeStringRepeatsDaily` | src/Tweet.py:296-308 | as written, the text for a past creation instant is the same one day later |
| `RelativeTime.SinceTimeStringRepeatsEveryDay` | src/Tweet.py:296-308 | as written, the text for a past creation instant is the same any whole number of days later |
| `RelativeTime.AgreeWithinADay` | src/Tweet.py:296-306 | the as-written and corrected versions agree unless a day or more has passed |
| `RelativeTime.TwoDaysOldReadsAsSeconds` | src/Tweet.py:296-308 | a tweet 2 days 30 seconds old reads "30 seconds ago" as written and "2 days ago" when corrected |
| `RelativeTime.CountsRoundHalfToEven` | src/Tweet.py:302-306 | 90 s and 150 s both read "2 minutes ago", 3599 s reads "60 minutes ago", 5400 s reads "2 hours ago" |
| `TweetItems.Kind.Code` | src/Tweet.py:182-184 | TWEET, RETWEET and COMMENT are the distinct integers 0, 1 and 2 |
| `TweetItems.UserItem.Id` | src/Tweet.py:168-170 | the raw `idstr`, or None when absent |
| `TweetItems.UserItem.Name` | src/Tweet.py:172-174 | the raw `name`, or None when absent |
| `TweetItems.UserItem.Avatar` | src/Tweet.py:176-178 | the raw `profile_image_url`, or None when absent |
| `TweetItems.TweetItem.Kind` | src/Tweet.py:221-228 | RETWEET iff `retweeted_status` is present; otherwise COMMENT iff `status` is present; otherwise TWEET |
| `TweetItems.TweetItem.Id` | src/Tweet.py:230-232 | the raw `idstr`, or None when absent |
| `TweetItems.TweetItem.Mid` | src/Tweet.py:234-238 | the encoder applied to the text of the raw `mid`, with an absent `mid` rendered as None |
| `TweetItems.TweetItem.Url` | src/Tweet.py:240-249 | empty exactly when the user, the user's id or the mid is missing; fails (None) exactly when the user is present but not a record; otherwise the Weibo home, the user id, "/" and the encoded mid |
| `TweetItems.TweetItem.Author` | src/Tweet.py:251-257 | absent exactly when there is no `user`; otherwise the user record wrapped as a UserItem |
| `TweetItems.TweetItem.Time` | src/Tweet.py:259-261 | None exactly for a falsy `created_at`; "days ago" only after a whole day (corrected formatter) |
| `TweetItems.TweetItem.Text` | src/Tweet.py:263-265 | the raw `text`, or None when absent |
| `TweetItems.TweetItem.Original` | src/Tweet.py:267-276 | absent exactly for a plain tweet; otherwise the `retweeted_status` (retweet) or `status` (comment) record wrapped as a tweet item |
| `TweetItems.TweetItem.ThumbnailPic` | src/Tweet.py:278-280 | the raw `thumbnail_pic`, defaulting to the empty string |
| `TweetItems.TweetItem.OriginalPic` | src/Tweet.py:282-284 | the raw `original_pic`, or None when absent |
| `TweetItems.Originals` | src/Tweet.py:198-216 | building an item wraps a finite chain of originals: each is the original of the one before, every one but the last is a retweet or comment, and the last has no readable original |
| `TweetItems.ConstructsAlongOriginals` | src/Tweet.py:198-216 | building an item succeeds exactly when every item along its chain of originals has an author that is a record or none, and the chain does not end in a truthy value that is not a record |
| `TweetItems.ConstructionExamples` | src/Tweet.py:198-216 | a record with a null `user` cannot be wrapped; a retweet of a null status can; a comment on a status given as text cannot; a failure two levels down fails the outer record |
| `TweetModels.Reversed` | src/Tweet.py:38-42 | the block order `insertRows` produces: same length, element i is element n-1-i of the input |
| `TweetModels.ReversedTwice` | src/Tweet.py:75-76 | reversing twice gives back the sequence |
| `TweetModels.Items` | src/Tweet.py:23-25 | one tweet item per raw record, in page order |
| `TweetModels.NewestFirst` | src/Tweet.py:75-76 | inserting the reversed page record by record at index 0 lays it out in page order |
| `TweetModels.PrependReversed` | src/Tweet.py:75-76 | inserting the first k records of the reversed page at the front gives the last k records of the page, in page order, followed by the old rows; the whole page when k is its length |
| `TweetModels.ConstructedPrefix` | src/Tweet.py:23-25 | how many records, from the front, are wrapped before a wrap raises: at most the page length, and every record before that count can be wrapped |
| `TweetModels.ConstructedPrefixStops` | src/Tweet.py:23-25 | the count stops at the first record that cannot be wrapped, and covers the page exactly when every record can be wrapped |
| `TweetModels.DropFirst` | src/Tweet.py:93 | the page minus its first record: one shorter (empty stays empty), and each element is the next one of the page |
| `TweetModels.FirstId` | src/Tweet.py:63 | no value for an empty list, so a load that leaves the list empty raises (otherwise it is `int()` of the first row's id, by definition) |
| `TweetModels.LastId` | src/Tweet.py:64 | no value for an empty list, so a load that leaves the list empty raises (otherwise it is `int()` of the last row's id, by definition) |
| `TweetModels.TweetAbstractModel.constructor` | src/Tweet.py:15-18 | a new container has no rows |
| `TweetModels.TweetAbstractModel.RowCount` | src/Tweet.py:44-45 | the number of rows |
| `TweetModels.TweetAbstractModel.InsertRow` | src/Tweet.py:33-36 | one more row, `item` at index `row`, earlier rows unchanged, later rows shifted right by one |
| `TweetModels.TweetAbstractModel.AppendRow` | src/Tweet.py:20-21 | the rows with `item` added at the end |
| `TweetModels.TweetAbstractModel.AppendRows` | src/Tweet.py:23-25 | the old rows unchanged, followed by the wrapped records in their given order, up to the first record that cannot be wrapped; reports a raise exactly when such a record exists |
| `TweetModels.TweetAbstractModel.InsertRows` | src/Tweet.py:38-42 | the wrapped records inserted at `row` in reverse order, up to the first record that cannot be wrapped; reports a raise exactly when such a record exists |
| `TweetModels.TweetAbstractModel.Clear` | src/Tweet.py:27-28 | no rows |
| `TweetModels.TweetCommonModel.constructor` | src/Tweet.py:51-54 | empty rows, guard free, `since` and `max` unset |
| `TweetModels.TweetCommonModel.GetThread` | src/Tweet.py:56-65 | guarded: skips and changes nothing. Otherwise: appends the page up to the first record that cannot be wrapped; sets `since` and `max` to the first and last ids only when every record was wrapped; completes exactly when every record was wrapped and both ids convert; on a raise keeps the guard and whatever was already set |
| `TweetModels.TweetCommonModel.NewThread` | src/Tweet.py:71-80 | guarded: skips. Otherwise: the records are wrapped oldest first, so the rows become the oldest records of the page, up to the first that cannot be wrapped, in API order, followed by the old rows (the whole page on completion); `since` becomes the first id; completes exactly when every record was wrapped and that id converts; `max` is untouched; a raise keeps the guard |
| `TweetModels.TweetCommonModel.OldThread` | src/Tweet.py:86-95 | guarded: skips. Otherwise: appends all but the first record, up to the first that cannot be wrapped; `max` becomes the last id; completes exactly when every record was wrapped and that id converts; `since` is untouched; a raise keeps the guard |
| `TweetModels.TweetCommentModel.constructor` | src/Tweet.py:116-117 | as for the status model |
| `TweetModels.TweetCommentModel.GetThread` | src/Tweet.py:119-128 | same behaviour as the status model's first-page load |
| `TweetModels.TweetCommentModel.NewThread` | src/Tweet.py:134-141 | as the status refresh, except that the guard is never taken, so it is free afterwards whatever the outcome |
| `TweetModels.TweetCommentModel.OldThread` | src/Tweet.py:147-156 | same behaviour as the status model's older-page load |
| `TweetModels.FailedRefreshBlocksLaterLoads` | src/Tweet.py:71-80 | on a new status model, a refresh with an empty page raises and every later load is skipped |
| `TweetModels.FailedCommentRefreshLeavesGuardFree` | src/Tweet.py:134-141 | on a new comment model, the same failed refresh leaves a later load free to proceed |
| `TweetModels.UnwrappableStatusBlocksLaterLoads` | src/Tweet.py:56-65 | on a new status model, a first page holding a status with a null `user` raises: no rows, `since` unset, and every later load is skipped |
| `TweetModels.UnwrappableCommentLeavesGuardFree` | src/Tweet.py:134-141 | on a new comment model, a refresh holding that status raises but leaves a later load free to proceed |

## Left out

- Threads. `_get`, `_new` and `_old` start each `*_thread` body on a background thread.
  Here each body runs as one sequential method. The guard is a plain branch, and two loads
  cannot interleave.
- The public `load`, `next` and `new` methods and the `page` field. They only start
  threads and pass `page`, `since` or `max` to the fetch.
- Network fetches (`self.timeline.get(...)`). The returned page is a parameter. Which field
  of the response a load reads (`statuses` or `comments`) is part of the fetch and is not
  modelled. Note that the comment model's older-page load reads `statuses` (line 151).
- Qt plumbing is not modelled: `beginInsertRows`/`endInsertRows`, `setRoleNames`, the
  `roles` table, `data(index, role)`, the `timelineLoaded` signal, and `self.tr`
  translation.
- Qt's insertion contract. `insertRow` and `insertRows` require `0 <= row <= rowCount()`,
  as `beginInsertRows` demands. Python's clamping of out-of-range `list.insert` indices is
  therefore not modelled.
- `get_mid`, the timestamp parser with its UTC offset, and Python's rendering of a value as
  text (`str`, `%s`). These are the function-valued fields of `Collaborators`.
- `datetime.utcnow()`. The current instant is a parameter, in whole UTC seconds.
- Sub-second precision. Instants are whole seconds, so comparing them agrees with the
  source only when the parsed creation time has no fraction, which holds for the API's
  timestamps.
- RelativeTime.SinceTimeString: the result is a count and a unit. The English words, their
  translation and the `%.0f` text are not produced.
- TweetItems.TweetItem.Time: uses the corrected formatter (see Findings), not the
  `.seconds` one.
- The values stored in the `_roleData` cache and the `_user`/`_original` attributes, and
  `data(role)` reading them back. The model computes each property on demand. What filling
  the cache does, evaluating every property and possibly raising, is modelled by
  `TweetItems.Constructs`.
- Exceptions raised inside the collaborators. `get_mid`, the timestamp parser and `str`
  are assumed to return normally for every value. A malformed timestamp or mid would make
  wrapping raise in the source, and the model does not capture that.
- `endInsertRows`, which is skipped when wrapping a record raises inside `insertRows`.
- Properties read on an item wrapped around a value that is not a record. The model returns
  `Unreadable(value)` and goes no further. In the source almost every such read raises. The
  exception is an empty string: there `in` is a substring test, so `type`, `author` and
  `original` return TWEET, None and None, and only the other seven properties raise.
- JSON arrays and floating-point values in records.
- RawRecords.IntOf: Python's `int()` also accepts, among others, surrounding whitespace,
  underscores between digits and non-ASCII decimal digits (fullwidth "１２", for example). The
  model accepts only an optional sign followed by ASCII digits.

## Findings

| source | as written | input that shows it | evidently intended | confidence | as-written member | corrected member |
|---|---|---|---|---|---|---|
| src/Tweet.py:296 | the elapsed value is `timedelta.seconds`, the time-of-day part of the difference only, so the "days ago" return at line 308 is unreachable | created 2 days and 30 seconds before now: "30 seconds ago" (`RelativeTime.TwoDaysOldReadsAsSeconds`) | whole elapsed seconds, so that the same tweet reads "2 days ago" | high; not executed | `RelativeTime.SinceTimeString` | `RelativeTime.SinceTimeStringTotal` |
