# Chat-log reader, modelled in Dafny

This project models the reader of a plain-text chat log (the `Reader` class
of `regex_conversation_paser/RegexReadData`) and the records it builds. A log
holds three kinds of line:

- `user <id> <name>` declares a user;
- `room <id> <name>` declares a room;
- `conversation <id>` opens a conversation. It is followed by message lines
  `<sender-id> <unix-seconds> <text>`.

`Reader` answers six questions about a log:

- `ReadUserAsync` and `ReadRoomAsync` look up one record by id.
- `ReadUsersAllAsync` and `ReadRoomsAllAsync` build a dictionary of all
  users or all rooms.
- `ReadConversationAsync` reads the conversation with a given id.
- `ReadConversationsAssociatedWithUserAsync` reads every conversation in
  which a given user sent a message.

The source does all of this with .NET regular expressions. Here each pattern
is written out as a deterministic scanner over the text:

- `Patterns.RecordAt`, `Patterns.MessageAt` and `Patterns.HeaderAt` are one
  match attempt at a position.
- `Patterns.Records`, `Patterns.Blocks` and `Patterns.ScanMessages` stand for
  `Regex.Matches`.
- `Patterns.FindRecord` and `Patterns.FindHeader` stand for `Regex.Match`.

Each scanner is proved to find exactly the matches of a declarative reading
of its pattern, and to find the first one. For the scanners with a caller's
id spliced in, soundness is stated for an id that is a non-empty word
without white space.

The modules are:

- `Text`: character classes, runs and numerals.
- `Entities`: `User`, `Room`, `Message`, and `Conversation` with its two
  variants.
- `Patterns`: the scanners.
- `ScanLemmas`: how the message pattern behaves on the text of a whole
  conversation match.
- `ReaderSpec`: what each public operation returns, as functions over the
  text, with the exceptions as `ReadError` values.
- `Reader`: the bulk reads and the conversation reads as methods with their
  loops, each proved to compute its `ReaderSpec` function, and the single
  user and room lookups as functions, whose properties `TableLemmas` states.
- `TableLemmas`, `ConversationLemmas` and `AssociatedLemmas`: the properties
  the operations promise.

The exceptions become error values. A throwing `Dictionary.Add` becomes
`DuplicateKey`. A null dictionary that gets indexed becomes `NullDictionary`,
and a missing key becomes `UnresolvedUser`. `long.Parse` overflow becomes
`NumberOverflow`, and `DateTimeOffset.FromUnixTimeSeconds` out of range
becomes `TimestampOutOfRange`. The "No conversion found" exception becomes
`UnknownTarget`, and the `InvalidOperationException` becomes `InvalidState`.

Three behaviours of the code are worth naming, because a reader might
expect otherwise:

- The bulk reads fail with `DuplicateKey` on a repeated id, because
  `Dictionary.Add` throws on it.
- When the log has no user (or no room) lines, the dictionary is null. The
  conversation reads then fail when they index or query it; they do not
  treat it as empty.
- A conversation id with no matching block throws `InvalidOperationException`,
  modelled as `InvalidState`; the read does not return null.

## Model

| member | source | states |
|---|---|---|
| Text.Fold | regex_conversation_paser/RegexReadData/Reader.cs:42 | `RegexOptions.IgnoreCase` maps each ASCII upper-case letter to its lower-case letter and leaves every other character alone; no folded character is an upper-case letter |
| Text.FoldMatchesUpToCase | regex_conversation_paser/RegexReadData/Reader.cs:42 | two characters match under `RegexOptions.IgnoreCase` exactly when they are equal or are one ASCII letter in its upper and lower case |
| Text.RunEnd | regex_conversation_paser/RegexReadData/Reader.cs:291 | a greedy run such as `[^\s]+` ends at the first character outside the class, or at the end; every character it passes is in the class |
| Text.NumeralBound | regex_conversation_paser/RegexReadData/Reader.cs:92 | `NumeralValue`, the value `long.Parse` reads from the captured `\d+` digits before its range check, is below `10^n` for a numeral of `n` digits |
| Text.LeadingZeroIgnored | regex_conversation_paser/RegexReadData/Reader.cs:92 | leading zeros do not change the value read |
| Text.DecimalRoundTrip | regex_conversation_paser/RegexReadData/Reader.cs:92 | reading the decimal numeral of any natural number gives that number back |
| Entities.Wrap32 | regex_conversation_paser/RegexReadData/Message.cs:89 | unchecked C# `int` arithmetic: the result is a 32-bit value congruent to the exact one modulo 2^32 |
| Entities.User.Equals | regex_conversation_paser/RegexReadData/User.cs:52-55 | true exactly when the other user is not null and has the same id and name |
| Entities.User.EqualsObject | regex_conversation_paser/RegexReadData/User.cs:64-67 | true exactly when the object is this user; null and non-users are unequal |
| Entities.User.HashCode | regex_conversation_paser/RegexReadData/User.cs:76-79 | the hash is a 32-bit `int` |
| Entities.UserHashIsIdHash | regex_conversation_paser/RegexReadData/User.cs:76-79 | `User.HashCode` is the hash of the id alone: users with the same id hash alike whatever their names |
| Entities.UserEqualityIsConsistent | regex_conversation_paser/RegexReadData/User.cs:52-79 | user equality is reflexive, symmetric and transitive and false for null; equal users have equal hash codes |
| Entities.Room.Equals | regex_conversation_paser/RegexReadData/Room.cs:52-55 | true exactly when the other room is not null and has the same id and name |
| Entities.Room.EqualsObject | regex_conversation_paser/RegexReadData/Room.cs:64-67 | true exactly when the object is this room |
| Entities.Room.HashCode | regex_conversation_paser/RegexReadData/Room.cs:76-79 | the hash is a 32-bit `int` |
| Entities.RoomHashIsIdHash | regex_conversation_paser/RegexReadData/Room.cs:76-79 | `Room.HashCode` is the hash of the id alone: rooms with the same id hash alike whatever their names |
| Entities.RoomEqualityIsConsistent | regex_conversation_paser/RegexReadData/Room.cs:52-79 | room equality is an equivalence, false for null, and agrees with the hash code |
| Entities.Message.Equals | regex_conversation_paser/RegexReadData/Message.cs:62-66 | true exactly when the other message is not null and has an equal sender, equal content and the same instant |
| Entities.Message.EqualsObject | regex_conversation_paser/RegexReadData/Message.cs:75-78 | true exactly when the object is this message |
| Entities.Message.HashCode | regex_conversation_paser/RegexReadData/Message.cs:87-90 | the combined hash is a 32-bit `int`, whatever 32-bit component hashes it combines |
| Entities.MessageHashSeesSenderId | regex_conversation_paser/RegexReadData/Message.cs:87-90 | the hash sees only the sender's id: messages with the same instant, content and sender id hash alike |
| Entities.MessageEqualityIsConsistent | regex_conversation_paser/RegexReadData/Message.cs:62-90 | message equality is an equivalence, false for null, and equal messages have equal hash codes |
| Patterns.RecordAtSpec | regex_conversation_paser/RegexReadData/Reader.cs:291 | the record scanner succeeds at `i` exactly when `keyword\s[^\s]+\s[^\r\n]+` matches there, ignoring case, and it returns that match's id and name |
| Patterns.Records | regex_conversation_paser/RegexReadData/Reader.cs:311 | every match `Matches` reports lies inside the text, at or after the starting position |
| Patterns.RecordsAreMatches | regex_conversation_paser/RegexReadData/Reader.cs:311 | every reported record is a match of the record pattern at its own start |
| Patterns.RecordsDoNotOverlap | regex_conversation_paser/RegexReadData/Reader.cs:424 | each record starts at or after the end of the record before it |
| Patterns.RecordsFirst | regex_conversation_paser/RegexReadData/Reader.cs:311 | no match is skipped before the first record: wherever the pattern matches, the list is non-empty and starts there or earlier |
| Patterns.RecordForAt | regex_conversation_paser/RegexReadData/Reader.cs:238 | a match of `user\s<id>\s[^\r\n]+` at `i` lies in the text and starts at `i` |
| Patterns.RecordForAtSound | regex_conversation_paser/RegexReadData/Reader.cs:238 | for a non-empty caller's id without white space, a match of the single-id pattern has the declarative record shape, and its id is the caller's id read at its place, ignoring case |
| Patterns.RecordForAtComplete | regex_conversation_paser/RegexReadData/Reader.cs:238 | every text of the declarative record shape whose id is the caller's id, ignoring case, is exactly the match the single-id pattern returns there |
| Patterns.RecordForAtAgrees | regex_conversation_paser/RegexReadData/Reader.cs:238 | wherever the bulk pattern matches, the single-id pattern built from the captured id matches too, with the same record |
| Patterns.FindRecord | regex_conversation_paser/RegexReadData/Reader.cs:258 | `Regex.Match` returns a match of the single-id pattern at the position it reports |
| Patterns.FindRecordFirst | regex_conversation_paser/RegexReadData/Reader.cs:371 | that match is the first one: a match at `k` means one is found at `k` or earlier |
| Patterns.MessageAt | regex_conversation_paser/RegexReadData/Reader.cs:43 | a message match starts at the position tried and its text ends within the limit |
| Patterns.MessageAtSound | regex_conversation_paser/RegexReadData/Reader.cs:43 | what the message scanner returns is a match of `[^\s]+\s\d+\s[^\r\n]+`, with the numeral's value as the seconds |
| Patterns.MessageAtComplete | regex_conversation_paser/RegexReadData/Reader.cs:139 | every match of the message pattern at `i` is exactly the one the scanner returns: the pattern has at most one match per position |
| Patterns.SkipLineEnd | regex_conversation_paser/RegexReadData/Reader.cs:42 | `\r?\n?` consumes at most two characters, all of them line breaks |
| Patterns.BodyLines | regex_conversation_paser/RegexReadData/Reader.cs:42 | the repeated `last_message` group yields message lines that lie after the header, inside the text |
| Patterns.BodyLinesAreMatches | regex_conversation_paser/RegexReadData/Reader.cs:42 | each message line of a block is a match of the message pattern at its start |
| Patterns.BodyLinesAreContiguous | regex_conversation_paser/RegexReadData/Reader.cs:42 | the first line starts right after the header and every other line starts right after the line break of the one before |
| Patterns.BodyEnd | regex_conversation_paser/RegexReadData/Reader.cs:138 | a conversation match ends where no further message line can be matched |
| Patterns.LineBreakEnd | regex_conversation_paser/RegexReadData/Reader.cs:138 | `\r?\n` ends just after a `\n` |
| Patterns.HeaderAt | regex_conversation_paser/RegexReadData/Reader.cs:138 | a match of `conversation\s(?<conversation_id>[^\s]+)\r?\n` at `i` has that shape and a non-empty id with no white space |
| Patterns.HeaderForAt | regex_conversation_paser/RegexReadData/Reader.cs:42 | a match of the header with the caller's id spliced in has that shape, and the id is matched literally, ignoring case |
| Patterns.HeaderAtComplete | regex_conversation_paser/RegexReadData/Reader.cs:138 | every text of the header shape with a non-empty, space-free id is exactly the match the bulk header scanner returns there |
| Patterns.HeaderForAtComplete | regex_conversation_paser/RegexReadData/Reader.cs:42 | every text of the header shape whose id is the caller's id, ignoring case, is exactly the match the spliced header scanner returns there |
| Patterns.HeaderForAtAgrees | regex_conversation_paser/RegexReadData/Reader.cs:42 | where the bulk header matches, the header built from the captured id matches too, with the same result |
| Patterns.BlockOf | regex_conversation_paser/RegexReadData/Reader.cs:138 | a conversation match spans its header and lies in the text |
| Patterns.BlockAt | regex_conversation_paser/RegexReadData/Reader.cs:138 | a conversation match at `i` starts at `i` and lies in the text |
| Patterns.Blocks | regex_conversation_paser/RegexReadData/Reader.cs:159 | `Matches` lists blocks in text order without overlap, and skips no header before the first one: there are no blocks only when no header matches anywhere |
| Patterns.BlocksAreMatches | regex_conversation_paser/RegexReadData/Reader.cs:159 | every listed block is the conversation match at its own start |
| Patterns.FindHeader | regex_conversation_paser/RegexReadData/Reader.cs:64 | `Regex.Match` returns a header for the id at the position it reports, none matches earlier, and it finds none only when no position matches |
| Patterns.FindHeaderFirst | regex_conversation_paser/RegexReadData/Reader.cs:64 | the header found is the first one in the text for that id |
| Patterns.FindBlock | regex_conversation_paser/RegexReadData/Reader.cs:64-66 | the match found starts with a header for the id at a position before which no header for the id matches, and runs to the end of the message lines after it; there is no match exactly when no header for the id matches anywhere |
| Patterns.ScanMessages | regex_conversation_paser/RegexReadData/Reader.cs:78 | the message matches in a conversation's text lie inside that text |
| Patterns.ScanMessagesAreMatches | regex_conversation_paser/RegexReadData/Reader.cs:179 | each of them is the message match at its own start within that text |
| Patterns.ScanMessagesFirst | regex_conversation_paser/RegexReadData/Reader.cs:78 | no message match is skipped before the first one reported |
| Patterns.BlockMessages | regex_conversation_paser/RegexReadData/Reader.cs:78 | the message matches of a conversation match each lie inside its text, from the header on |
| ScanLemmas.NoMessageAtSpace | regex_conversation_paser/RegexReadData/Reader.cs:43 | no message starts at white space or at the end of the text |
| ScanLemmas.ScanSkips | regex_conversation_paser/RegexReadData/Reader.cs:78 | positions where no message starts are passed over |
| ScanLemmas.MessageAtLocal | regex_conversation_paser/RegexReadData/Reader.cs:78 | a message that fits within the conversation's text is matched alike in that text and in the whole log |
| ScanLemmas.ScanFollowsBody | regex_conversation_paser/RegexReadData/Reader.cs:42-43 | run from the first message line, the message pattern finds exactly the lines the conversation pattern's repeated group matched |
| ScanLemmas.KeywordIsQuiet | regex_conversation_paser/RegexReadData/Reader.cs:42-43 | no message starts inside the `conversation` keyword when the id does not start with a digit |
| ScanLemmas.IdIsQuiet | regex_conversation_paser/RegexReadData/Reader.cs:42-43 | no message starts inside an id without white space, unless the first message line starts with a digit |
| ScanLemmas.HeaderLineIsQuiet | regex_conversation_paser/RegexReadData/Reader.cs:42-43 | under those two conditions no message starts anywhere on the header line |
| ScanLemmas.BlockMessagesAreLines | regex_conversation_paser/RegexReadData/Reader.cs:78 | under those conditions the messages read from a conversation match are exactly its message lines |
| ReaderSpec.FillStopsAtFailure | regex_conversation_paser/RegexReadData/Reader.cs:321-326 | once `Add` throws, the remaining records are not looked at |
| ReaderSpec.ResolveOneSpec | regex_conversation_paser/RegexReadData/Reader.cs:83-92 | a message match becomes a Message exactly when the users dictionary is not null, holds its sender and its seconds are in range; the Message carries that user, the content and the seconds; the error is a number overflow exactly when the sender resolves and the digits exceed `long.MaxValue` |
| ReaderSpec.ResolveStopsAtFailure | regex_conversation_paser/RegexReadData/Reader.cs:78-94 | once a message cannot be built, the remaining ones are not looked at |
| ReaderSpec.GatherStopsAtFailure | regex_conversation_paser/RegexReadData/Reader.cs:164-214 | once a conversation fails, the remaining ones are not looked at |
| ReaderSpec.GatherStep | regex_conversation_paser/RegexReadData/Reader.cs:164-214 | reading one more conversation appends what it keeps, or fails with its error |
| Reader.ReadUser | regex_conversation_paser/RegexReadData/Reader.cs:233-272 | the user returned carries the caller's id |
| Reader.ReadRoom | regex_conversation_paser/RegexReadData/Reader.cs:346-385 | the room returned carries the caller's id |
| Reader.FillTable | regex_conversation_paser/RegexReadData/Reader.cs:314-329 | the dictionary loop returns null for no matches, the table built by `Add` in match order, or the first duplicate |
| Reader.ReadUsersAll | regex_conversation_paser/RegexReadData/Reader.cs:286-331 | returns the users table of the text |
| Reader.ReadRoomsAll | regex_conversation_paser/RegexReadData/Reader.cs:399-444 | returns the rooms table of the text |
| Reader.DistinctSendersStep | regex_conversation_paser/RegexReadData/Reader.cs:86 | `HashSet.Add` of a sender already present leaves the participants unchanged, and otherwise appends it |
| Reader.ReadMessages | regex_conversation_paser/RegexReadData/Reader.cs:78-94 | the message loop builds the resolved messages in order, the distinct senders, and whether the given user sent one, or fails with the first message's error |
| Reader.SentByStep | regex_conversation_paser/RegexReadData/Reader.cs:187 | the flag is set after a message exactly when it was set before or this message is from the user |
| Reader.MakeConversation | regex_conversation_paser/RegexReadData/Reader.cs:96-106 | builds the user or room conversation chosen by the kind of the id, or fails |
| Reader.ReadConversation | regex_conversation_paser/RegexReadData/Reader.cs:35-112 | returns what `ReadConversationAsync` specifies for the text and id |
| Reader.ReadBlockFor | regex_conversation_paser/RegexReadData/Reader.cs:164-214 | one pass of the outer loop keeps, drops or fails a conversation as specified |
| Reader.ReadBlocksFor | regex_conversation_paser/RegexReadData/Reader.cs:164-216 | the outer loop gathers the kept conversations in order, or fails at the first failing one |
| Reader.ReadConversationsAssociatedWithUser | regex_conversation_paser/RegexReadData/Reader.cs:131-218 | returns what `ReadConversationsAssociatedWithUserAsync` specifies for the text and user id |
| TableLemmas.FillSucceedsIffDistinct | regex_conversation_paser/RegexReadData/Reader.cs:321-326 | building the dictionary succeeds exactly when no two matches share an id |
| TableLemmas.FillContents | regex_conversation_paser/RegexReadData/Reader.cs:325 | the keys are exactly the matched ids, and each key maps to the record built from its match |
| TableLemmas.FillReportsFirstDuplicate | regex_conversation_paser/RegexReadData/Reader.cs:438 | a failure names the first id that repeats an earlier one |
| TableLemmas.TableIsNullIffNoRecord | regex_conversation_paser/RegexReadData/Reader.cs:314-317 | the dictionary is null exactly when the record pattern matches nowhere |
| TableLemmas.TablesKeyByOwnId | regex_conversation_paser/RegexReadData/Reader.cs:325 | every user and every room is stored under its own id |
| TableLemmas.FirstRecordFor | regex_conversation_paser/RegexReadData/Reader.cs:258 | the single lookup succeeds exactly when the pattern matches somewhere, and it returns the first match |
| TableLemmas.ReadUserFindsFirstMatch | regex_conversation_paser/RegexReadData/Reader.cs:258-268 | `ReadUserAsync` returns a user exactly when `user <id> <name>` matches, and the user is the caller's id with the first match's name |
| TableLemmas.ReadRoomFindsFirstMatch | regex_conversation_paser/RegexReadData/Reader.cs:371-381 | `ReadRoomAsync` returns a room exactly when `room <id> <name>` matches, and the room is the caller's id with the first match's name |
| TableLemmas.TabledRecordIsFound | regex_conversation_paser/RegexReadData/Reader.cs:238 | every id the bulk read put in its dictionary is found by the single-id pattern |
| TableLemmas.TabledIdsAreFound | regex_conversation_paser/RegexReadData/Reader.cs:233-272 | every id in the users (rooms) dictionary is found by `ReadUserAsync` (`ReadRoomAsync`) |
| TableLemmas.EarlierNameShadowsRecord | regex_conversation_paser/RegexReadData/Reader.cs:238-268 | on the log `user user bob Z` / `user bob Y` the users dictionary maps `bob` to the name `Y`, while `ReadUserAsync("bob")` returns the name `Z`, because the unanchored single-id pattern matches inside the first record's name |
| ConversationLemmas.ResolveSucceeds | regex_conversation_paser/RegexReadData/Reader.cs:78-94 | reading the messages succeeds exactly when every sender is a user id and every timestamp is in range; then the messages match the message matches one to one: sender's id, content and seconds |
| ConversationLemmas.ResolveReportsFirstFailure | regex_conversation_paser/RegexReadData/Reader.cs:83-92 | a failed read reports the error of the first message that cannot be built; all before it can be |
| ConversationLemmas.DistinctSpec | regex_conversation_paser/RegexReadData/Reader.cs:75-86 | the participants contain no repeats and are exactly the users who sent a message |
| ConversationLemmas.ClassifySpec | regex_conversation_paser/RegexReadData/Reader.cs:96-106 | the result has the requested id and the messages; it is a user conversation exactly when the id is a user id, and then lists exactly the senders; otherwise it is a room conversation for the room with that id; the only errors are a missing target and a null dictionary |
| ConversationLemmas.TableErrorIsDuplicate | regex_conversation_paser/RegexReadData/Reader.cs:325 | the bulk reads fail only with a repeated id |
| ConversationLemmas.ResolveErrorIsMessageError | regex_conversation_paser/RegexReadData/Reader.cs:83-92 | reading messages fails only with a null dictionary, an unknown sender, an overflowing number or an out-of-range timestamp |
| ConversationLemmas.ConversationMissingIffNoHeader | regex_conversation_paser/RegexReadData/Reader.cs:64-108 | `InvalidOperationException` is thrown exactly when no header for the id matches anywhere |
| ConversationLemmas.ConversationContents | regex_conversation_paser/RegexReadData/Reader.cs:35-112 | a conversation read by id carries that id and one message per message match, in order; it is a user conversation exactly when the id is a user id, and its participants are the distinct senders |
| ConversationLemmas.ConversationFollowsLines | regex_conversation_paser/RegexReadData/Reader.cs:42-94 | under the header conditions above, the messages are the block's message lines, one per line, in order |
| ConversationLemmas.UnresolvedSenderFails | regex_conversation_paser/RegexReadData/Reader.cs:83 | a message whose sender is not a user id makes the read fail |
| AssociatedLemmas.Participated | regex_conversation_paser/RegexReadData/Reader.cs:164-200 | the reference list: the blocks, in order, in which the user is named as a sender |
| AssociatedLemmas.FlagMatchesText | regex_conversation_paser/RegexReadData/Reader.cs:187 | the flag `user.Id == userId` is set exactly when a message match names the user as sender |
| AssociatedLemmas.KeepBlockSpec | regex_conversation_paser/RegexReadData/Reader.cs:164-214 | a conversation is kept exactly when the user sent one of its messages, and it is then classified by its own id |
| AssociatedLemmas.GatherReadsEveryBlock | regex_conversation_paser/RegexReadData/Reader.cs:164-214 | a successful read has read every conversation in the text without error |
| AssociatedLemmas.GatherSpec | regex_conversation_paser/RegexReadData/Reader.cs:164-216 | a successful read keeps one conversation per block in which the user is a sender, in order, each built from its block |
| AssociatedLemmas.AssociatedSpec | regex_conversation_paser/RegexReadData/Reader.cs:131-218 | the result lists, in text order, one conversation per block in which the user sent a message, with that block's id, and the user sent a message in each |
| AssociatedLemmas.UnknownUserHasNoConversations | regex_conversation_paser/RegexReadData/Reader.cs:184-200 | when the read succeeds for a user id that is not in the users dictionary, the list is empty |
| AssociatedLemmas.UnknownUserGetsEmptyList | regex_conversation_paser/RegexReadData/Reader.cs:164-216 | a user id that is not in the users dictionary gets the empty list, not an error, whenever the read succeeds for some other id |
| AssociatedLemmas.UnknownUserKeepsNothing | regex_conversation_paser/RegexReadData/Reader.cs:184-200 | a conversation whose messages can be read is not kept for a user id that is not in the users dictionary |
| AssociatedLemmas.GatherKeepsNothing | regex_conversation_paser/RegexReadData/Reader.cs:164-216 | when no conversation is kept, the result is the empty list |
| AssociatedLemmas.NoneParticipated | regex_conversation_paser/RegexReadData/Reader.cs:200 | the reference list is empty when the user is named as a sender in no block |
| AssociatedLemmas.GatherFailsOnFailingBlock | regex_conversation_paser/RegexReadData/Reader.cs:164-214 | any conversation that cannot be read makes the whole read fail |
| AssociatedLemmas.UnresolvedSenderFailsAll | regex_conversation_paser/RegexReadData/Reader.cs:184 | a message anywhere in the log from an unknown sender makes the read fail, whoever the requested user is |
| AssociatedLemmas.UnknownTargetOnlyWhenParticipating | regex_conversation_paser/RegexReadData/Reader.cs:200-213 | a conversation fails with "No conversion found" only when the user sent one of its messages, and the model's error value carries the conversation's own id |
| AssociatedLemmas.GatherErrorIsBlockError | regex_conversation_paser/RegexReadData/Reader.cs:164-214 | a failed read fails with the error of one of the conversations in the text |
| AssociatedLemmas.UnknownTargetOnlyForParticipant | regex_conversation_paser/RegexReadData/Reader.cs:131-218 | when the whole read fails with "No conversion found", some conversation in the text names the user as a sender and has the id the model's error value carries |
| AssociatedLemmas.ReadsAgree | regex_conversation_paser/RegexReadData/Reader.cs:35-218 | where the read by id finds the same block, it builds the same conversation as the read by participant |

## Left out

- Reading the file, the `Task` wrapping and the `ArgumentException` for an unreadable file are not modelled. Every operation takes the file's text as a parameter.
- Ids are spliced into the patterns of `ReadUserAsync`, `ReadRoomAsync` and `ReadConversationAsync`. The model matches them as literal text. An id containing a regular-expression metacharacter behaves differently in the source.
- `RegexOptions.IgnoreCase` is modelled as ASCII case folding only, and `\d` as the ASCII digits. Unicode case folding and other decimal digits are not modelled.
- Participants are listed in order of first appearance. The order `HashSet<User>.ToList()` produces is not guaranteed by .NET; the model proves only that there are no repeats and that the senders are exactly the participants.
- The runtime's string hash and `DateTimeOffset` hash are parameters. The runtime hashes are 32-bit `int` values, and the three hash-code members are proved to be 32-bit values, to depend only on ids (and, for messages, on the instant and content), and to agree with equality; nothing about the distribution of the runtime hashes is modelled.
- The `UnknownTarget` error value carries the conversation's id in both places it arises. The exception the associated-conversations read throws (Reader.cs:212) has a fixed message without the id; only the one at Reader.cs:106 names it.
- Instants are whole seconds after the Unix epoch. The offset and the tick resolution of `DateTimeOffset` are not modelled.
- ConversationLemmas.ConversationFollowsLines: stated only under a quiet header: the id contains no white space and does not start with a digit, and the first message line does not start with a digit. Otherwise the message pattern can also match text on the header line.
- Reader.ReadUser: states that the caller's id is stamped on the result and that the first match supplies the name. It does not state that the name agrees with the users dictionary, because the single-id pattern is not anchored to a line start: any earlier occurrence of `user <id> ` in the text is found first. That occurrence can be a line that matches only when case is ignored, or text inside another record's name (TableLemmas.EarlierNameShadowsRecord).
- Reader.ReadRoom: the same limitation as `Reader.ReadUser`, for rooms.
- AssociatedLemmas.ReadsAgree: requires that the read by id finds the same block. Two conversations with the same id, or ids that differ only in case, can make the two reads pick different blocks.
