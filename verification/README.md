# farcaster-ens-bot engine, modelled in Dafny

The bot watches the 150 most followed Farcaster accounts and, once a day,
announces the accounts that changed their username (typically to an `.eth`
name) as a thread of casts. This project models the engine in `src/app.ts`:

- **Differ** (`checkDifferingUsernames`). It compares the held leaderboard
  with re-queried usernames, position by position. The result is one
  `UsernameHistory` record per position whose username changed, in position
  order.
- **Formatter** (`createMessages`, with `createFirstLineText` and
  `createUsernameChangeText`). It writes a pluralised header line and one
  line per rename. The lines are packed greedily, in order, into casts of
  fewer than 320 characters when every line fits.
- **FidList** (`createFidListString`). It builds the `"(fid, fid, )"` query
  parameter from the held rows.
- **Publisher** (`castDailyMessages`, `publishCast`). It publishes the casts
  strictly one after another. Each reply is anchored to the hash the
  previous publish returned. The first publish whose result is read and
  missing ends the chain.
- **Cycle** (`runBot`, `cronFunc`). The held leaderboard is either absent
  (bootstrap: post the introduction) or present (steady: run the bot).
  Either way the cycle ends by replacing the held rows with a fresh fetch.

The outside world is a parameter. The username lookup and the leaderboard
fetch are `Option<seq<Row>>` values (`None` is `undefined`). The publish
service is an oracle `seq<Option<Hash>>`: call number k gets answer k.
`Decimal` models the template-literal rendering `${n}` of an integer.
`Scenarios` works through small concrete cases.

Modules: `Wrappers` (Option), `Decimal`, `AppTypes` (the records of
`src/appTypes.ts`), `Differ`, `Formatter`, `FidList`, `Publisher`, `Cycle`,
`Scenarios`.

## Where the code and its documented intent differ

The model follows the code in each case below.

- Short lookup. The differ reads `updatedUsernames![i].username` unguarded.
  A lookup with fewer rows than the held leaderboard throws a TypeError,
  which `runBot` catches. So nothing is announced and the held rows are
  still replaced (`CheckDifferingUsernames`, `RunBot`).
- Over-long lines. The doc comment at `src/app.ts:103-104` promises casts
  that do not exceed the 320-character limit. A single line of 320
  characters or more is still emitted as a cast of its own. The bound is
  proved only under the premise that the header and every line fit
  (`CreateMessagesWithinLimit`).
- Header wording. The header reads "N new user has joined" or "N new users
  have joined". With zero renames it reads "0 new user has joined"; the bot
  never formats zero renames.
- Trailing separator. The doc comment at `src/app.ts:146` gives
  `'(10, 11, 12)'` as an example. The code writes `"(10, 11, 12, )"`, and
  `"()"` for no rows (`FidListKeepsTrailingSeparator`).
- Rename line length. The comment at `src/app.ts:117` says a rename line
  has 15 characters besides the usernames. It has 14 (`ChangeLine`).
- Lone message. A single cast's publish result is never read, so its
  failure does not throw. A failed publish throws whenever the thread has
  more than one message, the last reply included: `src/app.ts:97` reads
  every reply's result (`FailedLastReplyThrows`).
- Empty hash. `publishCast` passes a reply anchor only when the hash is
  truthy. A reply to a cast whose returned hash is `""` would go out as a
  root cast (`ReplyTarget`).
- Empty leaderboard. JavaScript arrays are truthy, so a fetched empty
  leaderboard puts the bot in the steady state, not in bootstrap.
- Overwrite after failure. `runBot` catches every failure, so the held rows
  are always overwritten (`src/app.ts:220-221`). A failed leaderboard fetch
  stores `undefined`, and the next cycle bootstraps again
  (`RunBootstrapsExactlyAfterMissingFetch`).

## Model

| member | source | states |
|---|---|---|
| Differ.Diff | src/app.ts:164-175 | with at least as many re-queried rows as held rows, the result has at most one record per held position, and every record is a real rename (old and new usernames differ) |
| Differ.ChangedPositions | src/app.ts:166-173 | reference set for the differ: exactly the positions below n whose usernames differ, each once, strictly increasing |
| Differ.DiffIsChangesAtPositions | src/app.ts:164-175 | the differ's output is exactly the pairs (held[i].username, updated[i].username) at the differing positions i, one per position, in increasing i |
| Differ.DiffEmptyIffNoChange | src/app.ts:166-173 | the differ finds nothing if and only if every held position keeps its username |
| Differ.DiffOfSelfIsEmpty | src/app.ts:164-175 | diffing a leaderboard against itself finds no rename |
| Differ.CheckDifferingUsernames | src/app.ts:164-175 | with the raw lookup result, the differ fails exactly when a held position has no row to read (lookup undefined or shorter than the held rows); otherwise it is the aligned diff, and an empty held list gives no records |
| Formatter.FirstLineText | src/app.ts:113 | the header is the decimal count followed by the plural phrase when the count exceeds one and by the singular phrase otherwise; it fits in a cast exactly when the count has few enough digits |
| Formatter.ChangeLine | src/app.ts:117 | a rename line is '@', the old username, " changed to ", the new username and a line break, in that order, so it is 14 characters longer than the two usernames |
| Formatter.Step | src/app.ts:120-126 | one packing step keeps every earlier cast unchanged; when the last cast plus the line stay under 320 characters the line is appended to the last cast, otherwise one new cast holding exactly the line is opened |
| Formatter.Pack | src/app.ts:119-127 | packing keeps all casts before the last seed cast unchanged and adds at most one cast per line |
| Formatter.CreateMessages | src/app.ts:109-129 | the result is never empty, has at most one cast more than there are renames, and its first cast starts with the header |
| Formatter.PackKeepsFirstPrefix | src/app.ts:115-127 | packing only ever extends the first cast, so the header stays at its start |
| Formatter.StepFlatten | src/app.ts:122-126 | a packing step appends the line to the very end of the concatenated text |
| Formatter.PackFlatten | src/app.ts:119-127 | concatenating the packed casts gives the seed casts followed by all lines, in order |
| Formatter.CreateMessagesPreservesOrder | src/app.ts:111-128 | reading the casts in order gives the header followed by one line per rename in input order: nothing dropped or reordered |
| Formatter.PackWholeLines | src/app.ts:119-127 | packing cuts the lines into consecutive runs: the last seed cast gains the first run, and every cast opened after it is exactly the concatenation of the next run of whole lines |
| Formatter.CreateMessagesWholeLines | src/app.ts:109-129 | the first cast is the header followed by a run of whole rename lines, and every later cast is exactly a run of whole rename lines: no line is split across casts |
| Formatter.EveryCastEndsWithNewline | src/app.ts:113-126 | every cast the formatter produces ends with a line break |
| Formatter.PackSnoc | src/app.ts:119-127 | packing one more line equals one more step on what was packed so far, which is the loop body applied to the last line |
| Formatter.PackWithinLimit | src/app.ts:119-127 | if every seed cast and every line is non-empty and under 320 characters, so is every packed cast |
| Formatter.CreateMessagesWithinLimit | src/app.ts:111-128 | when the header and every rename line are under 320 characters, every cast is non-empty and under 320 characters |
| Formatter.PackSaturated | src/app.ts:122-126 | greedy packing: from the last seed cast on, no two neighbouring casts could have been merged under the limit |
| Formatter.PackKeepsPrefixFrom | src/app.ts:122-126 | a cast that is no longer the last one is never changed again, and the last one only grows |
| Formatter.CreateMessagesSaturated | src/app.ts:111-128 | any two neighbouring casts the formatter produces together reach the 320-character limit |
| Formatter.SplitWhenOverLimit | src/app.ts:119-127 | when the header and the rename lines together reach 320 characters, the announcement uses at least two casts |
| Decimal.NatToString | src/app.ts:113 | the rendering of a natural number is a non-empty digit string without a superfluous leading zero, one digit long exactly for numbers below ten |
| Decimal.IntToString | src/app.ts:151 | the rendering of an integer starts with '-' exactly when it is negative, followed by a canonical digit string |
| Decimal.NatRoundTrip | src/app.ts:151 | parsing the rendering of a natural number gives it back |
| Decimal.NatCanonicalRendering | src/app.ts:151 | every canonical digit string is the rendering of the number it denotes, so the rendering is a bijection onto canonical strings |
| Decimal.NatToStringInjective | src/app.ts:151 | distinct numbers render differently |
| Decimal.IntRoundTrip | src/app.ts:151 | parsing the rendering of any integer, negative ones included, gives it back |
| FidList.CreateFidListString | src/app.ts:148-155 | the parameter is parenthesised, is "()" exactly when no rows are held, and otherwise ends with the trailing ", )" |
| FidList.ItemsEndWithSeparator | src/app.ts:150-152 | with at least one row, the text between the parentheses ends with the ", " separator |
| FidList.ItemsSnoc | src/app.ts:150-152 | adding a row appends exactly that row's "fid, " item at the end |
| FidList.FidListRoundTrip | src/app.ts:148-155 | reading the parameter back gives exactly the held fids in row order |
| Publisher.ReplyTarget | src/app.ts:57-68 | a reply anchor is passed exactly when the reply hash is non-empty, and it is that hash |
| Publisher.Replies | src/app.ts:94-98 | the replies are made for a prefix of the remaining messages in order; the first is anchored to the previous hash and each later one to the answer of the call before it; all calls but the last succeeded; the loop stops short only by throwing, and throws exactly when the last call made failed |
| Publisher.CastDailyMessages | src/app.ts:83-100 | at least one and at most one call per message, in message order; the first call has no anchor and call k is anchored to the hash returned by call k-1; every call but the last succeeded, and the chain stops short only at a failed answer; it throws exactly when there are several messages and the last call made failed |
| Publisher.AllSucceedPublishesAll | src/app.ts:83-98 | when every answer the chain depends on is a hash, exactly one call per message is made |
| Publisher.StopsAtFirstFailure | src/app.ts:85-98 | when the first failed answer is to call i and a later message exists, exactly i+1 calls are made and the chain throws |
| Publisher.CastDailyMessagesLoop | src/app.ts:83-100 | the loop over a list of returned hashes, replying to hash i with message i+1, makes the same calls and throws in the same cases as the functional definition |
| Cycle.RunBot | src/app.ts:182-203 | the bot queries with the fid list of the held rows, and makes publish calls exactly when the lookup could be read and at least one rename was found; those calls are the reply chain of the formatted casts |
| Cycle.CronFunc | src/app.ts:210-222 | a cycle always leaves the fresh leaderboard result held; with nothing held it posts only the introduction as a root cast and queries nothing; with rows held it queries their fid list, never posts the introduction, makes calls exactly when the differ succeeds with at least one rename, and those calls are the reply chain of the formatted casts |
| Cycle.Run | src/app.ts:210-240 | over consecutive daily cycles, day k runs one cycle from what the day before fetched (the initial value on day 0) and ends holding that day's fetch |
| Cycle.AnnouncementsAreNotIntro | src/app.ts:210-219 | no cast of an announcement thread has the introduction's text |
| Cycle.RunBootstrapsExactlyAfterMissingFetch | src/app.ts:210-222 | over consecutive cycles, each cycle starts from the rows the previous one fetched, and the introduction is posted exactly on the days that start with nothing held |
| Scenarios.OneRenameOneCast | src/app.ts:109-175 | alice renamed to alice.eth among two rows gives one record and the single cast made of the singular header for "1" followed by "@alice changed to alice.eth\n" |
| Scenarios.SingularHeader | src/app.ts:113 | the header for one rename is "1 new user has joined the .eth family!\n" |
| Scenarios.TwoRenamesPluralHeader | src/app.ts:113 | the header for two renames is "2 new users have joined the .eth family!\n" |
| Scenarios.FidListKeepsTrailingSeparator | src/app.ts:142-155 | fids 10, 11, 12 give "(10, 11, 12, )", not the doc comment's "(10, 11, 12)"; no rows give "()" |
| Scenarios.ShortLookupAnnouncesNothing | src/app.ts:182-222 | a lookup with fewer rows than held makes the differ fail, nothing is published, and the held rows are still replaced |
| Scenarios.SecondCastRepliesToFirst | src/app.ts:83-98 | in a two-cast thread the reply is anchored to the root cast's hash |
| Scenarios.FailedLastReplyThrows | src/app.ts:94-98 | in a two-cast thread whose reply fails, both calls are made and the chain throws although no message follows |
| Scenarios.FailedRootStopsThread | src/app.ts:85-92 | when the root publish fails, no reply is attempted and the chain throws |

## Left out

- Scheduling: the cron job and the parsing of `PUBLISH_CAST_TIME` (`src/app.ts:228-242`). This is runtime configuration, not engine logic.
- The Dune client (`queryDune`, `src/app.ts:37-49`, and `src/duneClient.ts`). Its results are parameters of the cycle. The lookup result does not depend on the fid-list string in the model; the string sent is recorded in the outcome.
- The Neynar SDK call inside `publishCast`. Only its result is kept, as the answer oracle: a hash, or `None` for a caught error.
- Start-up validation of the environment (`src/app.ts:18-23`), all logging, and the try/catch plumbing. A caught failure is modelled only by its effect: the current step ends.
- JavaScript dynamic typing. Rows are `Row(fid: int, username: string)`, and `!=` is string inequality. A row missing its `username` field is not modelled, and neither is the unused `total_followers`.
- Number rendering: `${n}` is modelled for integers only. JavaScript's exponent notation for magnitudes of 10^21 and more, and non-integral fids, are not modelled.
- String length: lengths are counted in Unicode scalar values. JavaScript counts UTF-16 code units, so the two differ for characters outside the Basic Multilingual Plane.
- The `messages.shift()` mutation of the caller's array. The replies are modelled as `messages[1..]`.
- async/await. The code is sequential here, and the model is too.
- Publisher.CastDailyMessages: requires at least one message. The source reads `messages[0]` unguarded and is only called with `createMessages` output, which is never empty (`Formatter.CreateMessages`).
- Differ.Diff: requires at least as many re-queried rows as held rows, because the source reads them unguarded. The failing case is modelled by `Differ.CheckDifferingUsernames`.
- Formatter.CreateMessagesWithinLimit: the 320-character bound holds only when the header and every line fit. The source neither splits nor rejects a longer line.
