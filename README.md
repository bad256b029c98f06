# Moderation and paging core of a Discord bot, in Dafny

This project models four parts of the bot in `Github/Bot.py` and proves
properties of them:

- **The paged list view** (`PagedEmbedView`). It shows a list of entries one
  page at a time, with each entry numbered by its place in the whole list. It
  has "Previous" and "Next" buttons. The model is a class with the page as its
  only mutable field (`PagedView.dfy`). The numerals come from a small model
  of `str(n)` (`Numerals.dfy`).
- **The temporary-action store and its reconciliation tick.** `tempban`
  records `(user, "ban", end time)` in the process-wide `temp_actions`
  dictionary. Every ten seconds `unban_task` walks a snapshot of the
  dictionary. For each expired entry it tries to lift the ban in every guild
  the bot is in, then pops the entry. The model is a class whose fields are
  the dictionary's keys in insertion order and its key-to-action map
  (`TempActions.dfy`). Each method is proved against a recursive
  specification function, and the promised properties are proved about that
  function.
- **The filtered-word set** (`FILTERED_WORDS`) and the `addword` and
  `removeword` commands that maintain it (`WordFilter.dfy`).
- **The argument checks of `announce`** (`Announce.dfy`). A plain-text
  announcement needs a message. An embed's colour argument is read by
  `int(colour.replace("#", ""), 16)`, so it follows the grammar Python's
  `int` accepts: surrounding whitespace, a sign, an optional `0x`/`0X`
  prefix, and single underscores between digits.

Platform calls are parameters of the model:

- The guilds the bot is in are a sequence.
- The outcome of fetching and unbanning a user in a guild is a function
  parameter `unban`.
- The current time is an integer parameter `now`, in seconds.
- Whether `user.ban` succeeded is a `banned` flag.
- A word-file save is reported as a `saved` result.

### Policies the code fixes

- **When a tick removes an entry.** A tick tries every guild the bot is in. A
  "not found" outcome moves on to the next guild. The entry is popped after
  the guild loop, unless some other error escaped. Such an error ends the
  tick at once: that entry and all later ones stay in the store. What happens
  after that is outside the model. `Reconcile` and `UnbanTask` model exactly
  this.
- **Re-banning a user.** A second `tempban` of the same user overwrites the
  earlier end time. The entry keeps its place in the dictionary's order
  (`Record`).
- **`tempkick` records nothing.** It only kicks the user and sends an embed,
  so no tick ever reverses it.

## Model

| member | source | states |
|---|---|---|
| Numerals.Show | Github/Bot.py:158 | `str(n)` has at least one character, only digits of the base, and starts with `0` exactly when `n` is 0 (so it has no leading zeros) |
| Numerals.ValueOfShow | Github/Bot.py:158 | reading back the numeral `Show(n, base)` gives `n` (the numeral round trip) |
| Numerals.ShowInjective | Github/Bot.py:158 | different numbers get different numerals, so line numbers never coincide |
| PagedView.PageLines | Github/Bot.py:155-158 | the lines of a page are `entries[page*chunk : page*chunk+chunk]` with Python's clamping: their count is `min(chunk, len - start)` or 0 past the end, and line k is entry `start+k` numbered `start+k+1` |
| PagedView.DescriptionIsPlaceholder | Github/Bot.py:161 | the description is "No entries." exactly when the page has no lines, because a numbered line starts with a digit |
| PagedView.ValidPageIsBounded | Github/Bot.py:169-179 | with a positive page size, the page bound the buttons keep (page 0, or a page whose first entry exists) means "at most the last page" |
| PagedView.StepsKeepValidPage | Github/Bot.py:169-179 | both buttons keep the page bound |
| PagedView.ValidPageShowsEntries | Github/Bot.py:175-179 | with a positive page size and a non-empty list, every page within the bound shows at least one entry |
| PagedView.NextKeepsEntriesShown | Github/Bot.py:177-178 | "Next" never moves from a page that shows entries to one that shows none |
| PagedView.NextStopsAtLastPage | Github/Bot.py:177-178 | "Next" stays put exactly on the last page and advances by one before it |
| PagedView.PreviousTimesReachesFirst | Github/Bot.py:171-172 | k presses of "Previous" from page p give page `max(p - k, 0)` |
| PagedView.NextTimesReachesLast | Github/Bot.py:177-178 | k presses of "Next" from a page within the bound give page `min(p + k, last page)` |
| PagedView.ZeroChunkPages | Github/Bot.py:155-158 | with a page size of 0, every page shows no entries, and on a non-empty list "Next" always advances |
| PagedView.PreviousPage | Github/Bot.py:171-172 | "Previous" moves back at most one page, and stays put exactly on page 0 |
| PagedView.NextPage | Github/Bot.py:177-178 | "Next" moves forward at most one page, and only to a page that starts inside the list |
| PagedView.PagedEmbedView.constructor | Github/Bot.py:146-152 | a new view keeps its entries, title and page size (defaults "" and 10) and starts on page 0, which is within the bound |
| PagedView.PagedEmbedView.GetEmbed | Github/Bot.py:154-163 | the embed has the view's title; its description is the placeholder exactly when the current page starts at or past the end of the list, or the page size is 0 |
| PagedView.PagedEmbedView.Previous | Github/Bot.py:169-173 | the page goes back by one unless it is 0, the bound is kept, and the re-rendered embed is the new page's |
| PagedView.PagedEmbedView.Next | Github/Bot.py:175-179 | the page advances only when the next page starts inside the list, the bound is kept, and the re-rendered embed is the new page's |
| TempActions.Items | Github/Bot.py:431 | the snapshot lists every recorded user once, in insertion order, with that user's action |
| TempActions.Without | Github/Bot.py:440 | popping a user from the key order removes exactly that user and keeps the keys distinct |
| TempActions.WithoutKeepsOrder | Github/Bot.py:440 | `dict.pop` keeps the other keys in their order: popping `x` from `a + [x] + b` leaves `a + b` |
| TempActions.Record | Github/Bot.py:311 | `temp_actions[user] = action` makes the keys the old keys plus `user`, maps `user` to `action`, leaves every other entry alone, and grows the order only for a new key |
| TempActions.Pop | Github/Bot.py:440 | `temp_actions.pop(user)` removes exactly `user` from the keys and the order, and leaves every other entry alone |
| TempActions.UnbanInGuilds | Github/Bot.py:433-439 | one user's sweep makes at most one attempt per guild, only in the bot's guilds, and an aborted sweep ends with an attempt for that user whose outcome was an error other than "not found" |
| TempActions.Reconcile | Github/Bot.py:430-440 | a tick attempts only in the bot's guilds, and an aborted tick ends with an attempt whose outcome was an error other than "not found" |
| TempActions.RecordOverwrites | Github/Bot.py:311 | `temp_actions[user] = action` keeps the store well formed, makes `action` the user's entry, leaves every other entry alone, keeps the place of an existing key and appends a new one |
| TempActions.UnbanInGuildsOutcome | Github/Bot.py:432-439 | one user's sweep over the guilds is aborted exactly when some guild reports an error other than "not found"; otherwise it tries every guild once, in guild order; every attempt is for that user |
| TempActions.ReconcileOnlyRemoves | Github/Bot.py:430-440 | a tick only removes entries: every user left after it was there before, with the same action |
| TempActions.ReconcileKeepsUnexpired | Github/Bot.py:432 | a tick never removes an entry whose snapshot entry has not expired |
| TempActions.ReconcileRemovesExpired | Github/Bot.py:432-440 | a tick that is not aborted removes every user whose snapshot entry has expired |
| TempActions.ReconcileAbortsIff | Github/Bot.py:433-439 | a tick is aborted exactly when some expired user meets an error other than "not found" in some guild |
| TempActions.ReconcileAttempts | Github/Bot.py:431-439 | a tick that is not aborted makes one attempt per guild for each expired user, users in snapshot order and guilds in guild order |
| TempActions.ReconcileOnlyAttemptsExpired | Github/Bot.py:432-436 | even an aborted tick only tries to lift the bans of expired users |
| TempActions.ReconcileKeepsWellFormed | Github/Bot.py:440 | a tick keeps the key order and the action map in step |
| TempActions.ExpiredUsersOfItems | Github/Bot.py:431-432 | the snapshot's expired users are exactly the store's users whose end time has passed |
| TempActions.TickOutcome | Github/Bot.py:428-440 | a tick over the store's own snapshot that is not aborted leaves exactly the unexpired entries; any tick leaves a sub-map of the old actions that keeps every unexpired entry |
| TempActions.NotFoundIsBenign | Github/Bot.py:438-439 | when no guild reports anything but success or "not found", the tick is not aborted and every expired entry is gone |
| TempActions.ExpiredBanIsLifted | Github/Bot.py:311 | a ban recorded with an end time that has passed is tried in every guild by the next tick and then removed, when no guild reports another error |
| TempActions.AttemptsOfExpired | Github/Bot.py:432-436 | every expired snapshot entry gets an attempt in every guild in the non-aborted attempt list |
| TempActions.AbortedTickAttempts | Github/Bot.py:431-439 | with `k` the first expired entry whose user meets an error other than "not found", the tick is aborted and its attempts are the full sweeps of the earlier expired users followed by that user's cut-short sweep |
| TempActions.AbortedTickKeepsRest | Github/Bot.py:433-440 | in the same aborted tick, the entry at `k` and every later entry keep their actions: only the expired entries before `k` are popped |
| TempActions.AbortedTickOutcome | Github/Bot.py:428-440 | the two facts above for a tick over the store's own snapshot: that user and every user recorded after them keep their entries |
| TempActions.TempActionStore.constructor | Github/Bot.py:82 | the store starts empty |
| TempActions.TempActionStore.Tempban | Github/Bot.py:308-311 | when the ban went through, the entry `(Ban, now + duration)` is recorded for the user as `Record` describes; otherwise nothing changes; the store stays well formed and holds only bans |
| TempActions.TempActionStore.Tempkick | Github/Bot.py:319-323 | a temporary kick records nothing: the store is unchanged |
| TempActions.TempActionStore.UnbanTask | Github/Bot.py:428-440 | one tick: the new store, the attempts made in order and whether it was aborted are exactly `Reconcile` over the old store's snapshot, so every `Reconcile` lemma applies to it |
| TempActions.UnbanUser | Github/Bot.py:433-439 | the guild loop for one user makes exactly the attempts of `UnbanInGuilds` and reports the same abort |
| WordFilter.LowerHasNoUpper | Github/Bot.py:258 | a lower-cased word has no upper-case letter |
| WordFilter.Lower | Github/Bot.py:258 | `str.lower()` keeps the length and lower-cases each character on its own |
| WordFilter.LowerIdempotent | Github/Bot.py:258 | lower-casing twice is lower-casing once, so a stored word is its own key |
| WordFilter.CapitalisedWordIsNeverRemoved | Github/Bot.py:84-85 | a word with an upper-case letter, which only a hand-edited word file can contain, can never be removed by `removeword` |
| WordFilter.FilteredWords.constructor | Github/Bot.py:83-87 | the set starts as the loaded words, taken as they are |
| WordFilter.FilteredWords.AddWord | Github/Bot.py:257-264 | the lower-cased word is in the set afterwards and nothing else changes; the set is saved exactly when the word was new; the reply is "Added …" or "… is already filtered." accordingly |
| WordFilter.FilteredWords.RemoveWord | Github/Bot.py:269-276 | the lower-cased word is gone afterwards and nothing else changes; the set is saved exactly when the word was there; the reply is "Removed …" or "… is not in the filter." accordingly |
| Announce.PlainHexDigits | Github/Bot.py:356 | a string of hexadecimal digits and nothing else reads as its base-16 value |
| Announce.ParseHexInt | Github/Bot.py:356 | `int(s, 16)` accepts a string only if it has a hexadecimal digit, and gives a negative value only if it has a `-` |
| Announce.ParseColour | Github/Bot.py:356 | the colour check accepts a colour only if it has a hexadecimal digit (so an empty colour or a lone `#` is refused), and gives a negative value only if it has a `-` |
| Announce.ColourRoundTrip | Github/Bot.py:352-356 | `#` followed by the lower-case hexadecimal numeral of n reads back as n |
| Announce.RedExample | Github/Bot.py:358 | the example in the error reply, `#FF0000`, reads as 0xFF0000 |
| Announce.HashSignsIgnored | Github/Bot.py:356 | a `#` anywhere in the colour makes no difference |
| Announce.MinusNegates | Github/Bot.py:356 | a `-` before a string that starts and ends with a digit negates its value and is rejected exactly when the string is |
| Announce.SignedColourAccepted | Github/Bot.py:356 | a colour `-` followed by a numeral passes the check as a negative number |
| Announce.ForeignCharacterRejected | Github/Bot.py:355-359 | a character anywhere in the colour that is not a hexadecimal digit, whitespace or one of `+ - _ x X #` makes the colour invalid |
| Announce.SeparatorPaddingRejected | Github/Bot.py:356-359 | the information separator U+001C before the digits is not skipped, so the colour is refused |
| Announce.TextModeIgnoresColour | Github/Bot.py:352 | in plain-text mode the colour argument makes no difference |
| Announce.Announce | Github/Bot.py:348-370 | nothing is posted exactly when plain-text mode has no message, or embed mode has a colour that does not parse; the reply then says which. A text post is the message. An embed carries the parsed colour (default 0), a non-empty title that is the given one when there is one, and an author or footer exactly when given. A post gets the success reply naming the channel |

## Left out

- Discord I/O is not modelled: responses, deferrals, follow-ups, edits, `channel.send`, the mod-log embed and `create_embed`. What would be sent is returned as a value instead.
- The view's colour, timeout and "Stop" button are left out; they do not affect paging. `update` is modelled as `Previous`/`Next` returning the re-rendered embed.
- The tick's `print` of each unban is not modelled.
- `tasks.loop` scheduling is not modelled: only one tick is. What the loop does after an error escapes a tick is outside the model.
- Interleaving at the tick's `await` points is not modelled: a `tempban` that runs between the guild loop and `pop` would be removed with the old entry. The model treats a tick as atomic.
- `fetch_user` and `guild.unban` are merged into one outcome per user and guild. Either one failing with "not found" counts as `NotFound`.
- Times are whole seconds. `datetime` microseconds and time zones are not modelled.
- `TempActions.TempActionStore.Tempban`: the `OverflowError` that `timedelta` raises for a huge duration is not modelled; the end time is always `now + duration` (a negative duration gives an end time in the past, as in the code).
- `user.ban` and `user.kick` are the platform's; whether the ban succeeded is the `banned` parameter.
- The permission checks (`has_permissions(administrator=True)`) and the command error handler are not modelled.
- `save_filtered_words` writes JSON to disk; the model reports only that a save happens (`saved`). Loading the word file is the constructor's argument.
- `listwords`, `contains_filtered_word` and `on_message` are not modelled; the word filter is modelled only as far as `addword` and `removeword` maintain it.
- `WordFilter.Lower`: only ASCII letters are lower-cased; Python's full Unicode `str.lower` is not modelled.
- `Announce.ParseHexInt`: only ASCII input is modelled. For ASCII, `int()` skips exactly space, tab, line feed, vertical tab, form feed and carriage return, and the model does the same. Python also skips non-ASCII whitespace and accepts non-ASCII decimal digits, which the model does not.
- `Announce.Announce`: `discord.Color` is given the parsed integer without a range check, so the model lets negative colours and colours above 0xFFFFFF through, as the code does. What the platform then does with them is not modelled.
- The embed timestamp is not modelled.
- The music commands and their state (`queues`, `history`, `repeat_mode`, `PlaylistSelect`, the download and search helpers) are not part of this model. So are `auto_disconnect_task`, `shutdown`, `help` and the plain `kick`/`ban` commands.
- `PagedView.PagedEmbedView.GetEmbed`: a negative `chunk_size` is not modelled (the page size is a natural number). A page size of 0 is modelled as the code behaves: every page is empty, and on a non-empty list "Next" advances on every press without bound (`PagedView.ZeroChunkPages`).
