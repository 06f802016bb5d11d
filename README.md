# duopow bot: address extraction and profile selection

This project models the logic part of the duopow Telegram bot
(`bot/src/main.rs`). The bot looks up a learning-platform profile by
username. It keeps the numeric user id and reads an Ethereum address from
the profile's free-text bio. That lookup is the whole of the bot's
implemented logic. The dialogue handler and the command loop are
unfinished in the source (`todo!()` and commented-out code).

Modules, one per concern:

- `Wrappers` (`wrappers.dfy`): Rust's `Option` and `Result`, failure-compatible
  so that the source's `?` becomes Dafny's `:-`.
- `Hex` (`hex.dfy`): hex digits `[0-9a-fA-F]`, digit values, folding to lower
  case, and the two-digits-per-byte codec, with both round trips proved.
- `EthAddress` (`address.dfy`): the 20-byte `Address` and the text parse
  applied to the match (`parse::<Address>()`). It strips an optional `0x`,
  takes exactly 40 hex digits of either case, and checks no checksum.
- `Extractor` (`extractor.dfy`): the `ETH_ADDRESS` pattern
  `0x[0-9a-fA-F]{40}` as the predicate `IsAddrWindow(s, i)`, and `find` as a
  leftmost scan. The lemmas state its leftmost and shape properties and the
  consequences of having no word boundary.
- `Duolingo` (`duolingo.dfy`): the `UserResponse` and `CourseResponse`
  records (field widths `u32`/`u64` as subset types), `Vec::pop`, and the
  selection in `get_user_from_duolingo_api`.
- `Bot` (`bot.dfy`): `get_user_uid_and_address`, which chains the fetch,
  the regex find and the parse into `Option<(u64, Address)>`.

The HTTP request and JSON decoding are network I/O. Their outcome is an
input value of type `Result<seq<UserResponse>, string>`: the decoded
`users` vector, or the error that `?` propagates.

Where the design description and the code disagree, the model follows the
code:

- The description says the first (or only) profile of the lookup
  collection is used. The code calls `pop()`, which takes the last one.
- The description says a checksum-cased address is validated. The code
  does a bare `parse()`, which accepts any letter case and checks no
  checksum.

## Model

| member | source | states |
|---|---|---|
| `Extractor.FindFrom` | bot/src/main.rs:131 | the scan from `start` returns the leftmost window at or after `start`, and returns nothing only if no window starts from `start` to the end of the bio |
| `Extractor.FindAddress` | bot/src/main.rs:131 | `find` returns nothing exactly when no index of the bio starts a match; otherwise it returns a window with no window before it |
| `Extractor.FindMatch` | bot/src/main.rs:32-33 | a match exists exactly when `FindAddress` finds one; the match is 42 characters, lower-case `0x` and then 40 hex digits of either case, taken from the bio at the found index |
| `Extractor.FindAddressIsLeftmost` | bot/src/main.rs:131 | `find` reports `i` if and only if a window starts at `i` and none starts before it |
| `Extractor.MatchIsStable` | bot/src/main.rs:32-33 | extracting from the returned match finds it at position 0 and gives the same match back |
| `Extractor.AddressAfterPlainPrefix` | bot/src/main.rs:32-33 | with no `x` in the text before an address, that address is the match, whatever character precedes it and whatever follows it (extra hex digits included): there is no boundary check |
| `Extractor.UpperMarkerNeverMatches` | bot/src/main.rs:32-33 | without a lower-case `x` (for instance an upper-case `0X` marker) nothing matches |
| `Extractor.OverlappingEarlierWindowWins` | bot/src/main.rs:32-33 | `0x` plus 39 digits glued to an address forms an overlapping earlier window, and that window is the match, not the address |
| `Hex.Decode` | bot/src/main.rs:133 | byte `k` of the decoded address is the value of hex digits `2k` and `2k+1`, high nibble first, either case |
| `Hex.DecodeEncode` | bot/src/main.rs:133 | decoding the hex encoding of any bytes gives the bytes back |
| `Hex.EncodeDecode` | bot/src/main.rs:133 | encoding decoded digits gives back the digits folded to lower case |
| `EthAddress.Parse` | bot/src/main.rs:133 | the parse succeeds exactly on 40 hex digits after an optional `0x`, and the address it yields prints as those digits in lower case |
| `EthAddress.ParseFormat` | bot/src/main.rs:133 | every address parses back from its canonical text |
| `EthAddress.ParseIgnoresCase` | bot/src/main.rs:133 | texts whose digits differ only in letter case parse to the same address (no checksum check) |
| `Duolingo.Pop` | bot/src/main.rs:102 | `pop` yields nothing on an empty vector; otherwise the remaining vector followed by the popped element is the original |
| `Duolingo.PopPush` | bot/src/main.rs:102 | popping after pushing `x` returns `x` and the vector before the push |
| `Duolingo.SelectUser` | bot/src/main.rs:102-106 | an empty collection is the error "User not found"; a non-empty one yields its last element |
| `Duolingo.SelectUserTakesLast` | bot/src/main.rs:102-106 | when the first and last profiles differ, the last one is chosen and the first one never is |
| `Duolingo.GetUserFromApi` | bot/src/main.rs:84-107 | a request or decoding error propagates unchanged; otherwise the result is the selection from the decoded collection, "User not found" when it is empty |
| `Bot.MatchParses` | bot/src/main.rs:131-133 | every text the pattern matches is accepted by the address parse, so the parse step never fails after a match |
| `Bot.GetUserUidAndAddress` | bot/src/main.rs:123-136 | the result is present exactly when the fetch succeeded, the collection is non-empty and the chosen bio has a match; then the uid is the profile's `id` and the address prints as the match in lower case |
| `Bot.NoWindowNoAddress` | bot/src/main.rs:131 | when no index of the bio starts a window the result is `None` |
| `Bot.FetchFailureGivesNone` | bot/src/main.rs:127 | a failed fetch gives `None`, whatever the bio would have held |
| `Bot.OnlyIdAndBioMatter` | bot/src/main.rs:129-135 | the result depends only on the chosen profile's `id` and `bio`, never on `username`, `name`, `streak`, `courses` or earlier profiles |
| `Bot.LinkedBioRoundTrip` | bot/src/main.rs:123-136 | a bio made of text without `x`, an address's canonical form and anything after yields the profile's id and exactly that address |
| `Bot.OnesTextParses` | bot/src/main.rs:133 | `0x` followed by forty `1` digits is a match and parses to twenty `0x11` bytes |
| `Bot.WorkedProfile` | bot/src/main.rs:123-136 | profile id 42 with bio `hi 0x111…1` resolves to uid 42 and the all-`0x11` address |

## Left out

- Command-line parsing (`Args`, `Command`) and keystore generation from OS
  randomness (bot/src/main.rs:35-63, 145-153): argument plumbing and
  cryptographic library calls.
- The Telegram bot, its dispatcher, the in-memory dialogue storage,
  `handler()` and the commented-out command loop (bot/src/main.rs:160-210):
  transport only, and unfinished (`todo!()`) in the source.
- `BotCommand` (bot/src/main.rs:109-121): its parsing is generated by a
  derive macro.
- The HTTP request and the JSON decoding (bot/src/main.rs:93-100): network
  I/O, replaced by an input value holding their outcome.
- The internals of the address library's `FromStr`: the library is not
  part of this model. `EthAddress.Parse` stands in for it with the
  fixed-width hash convention (optional `0x`, exactly 40 hex digits, either
  case). No EIP-55 checksum logic is modelled, because the code performs
  none.
- Extractor.FindAddress: positions are character indices, whereas the
  regex library reports UTF-8 byte offsets. The matched text is the same;
  only the offset differs when the bio holds non-ASCII characters before
  the match.
- The linking dialogue, bio rewriting, on-chain register/update decisions
  and reward arithmetic: the source contains none of them.
- `async`/`tokio`, the lock imports, and the `USER_AGENT` and `CHAIN_ID`
  constants: concurrency and configuration, not logic.
