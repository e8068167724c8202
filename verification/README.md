# howzat11 team selection, in Dafny

howzat11 is a browser page for picking a fantasy cricket XI. The user:

- picks eleven players from a fixed roster;
- names a captain and a wicket-keeper;
- drags the players into a batting order;
- confirms the team.

The team is saved to local storage as ids only. It can be shared as a link whose `team` parameter is a Base64 token of a compact JSON object. Opening such a link shows the shared team read-only, next to the visitor's own team.

This project models the logic under that page as pure Dafny functions, and proves what the code promises about it.

- `Wrappers`: `Option`.
- `Seqs`: generic facts about sequence concatenation.
- `Players`: the player record, `TOTAL_PLAYERS = 11`, and roster lookup by id (`roster.find(p => p.id === id)`).
- `Selection`: the page's handlers as transitions `State -> State`:
  - toggle a player;
  - toggle captain;
  - toggle keeper;
  - reorder;
  - submit;
  - reset;
  - close the success modal.

  It also holds the invariant the interface keeps: at most eleven players, unique ids, and role holders in the team. It covers runs of user intents, too.
- `Persistence`: the `StoredState` projection (`role?.id || null`) and the resolution of stored ids back against the roster when the page loads. Loading is modelled twice: at the declared type, and from a parsed JSON value of any shape.
- `Base64`: `btoa` and `atob` over binary strings. This is section 4 of RFC 4648, with `atob` as the WHATWG forgiving-base64 decode, which ignores ASCII whitespace and makes padding optional.
- `Json`: two parts.
  - A reader for any JSON text (`JSON.parse`, RFC 8259), property access on the result, and JavaScript truthiness.
  - The parts of `JSON.stringify` the token uses: strings with its escape rules, arrays of strings, and `null`.
- `ShareToken`: `encodeTeamData`, `decodeTeamData` (with its `|| []` and `|| null` defaults and its `catch`), and the shared-team part of the load effect.
- `TeamPanel`: the rules of the selected-team panel:
  - completion;
  - the submit button;
  - the empty slots and their numbers;
  - the one-at-a-time hints;
  - the C / WK / C/WK badge.

The roster (`availablePlayers`) is a parameter. Lemmas that need it to behave require unique ids.

The handlers alone do not keep the invariant `Selection.Valid` that the panel's inputs keep, the load path does not re-establish it, and the share path does not match its "URL-safe" comment. The model follows the code, and a lemma exhibits each gap:

- The captain and keeper toggles do not check that the player is selected (`Selection.CaptainNeedNotBeSelected`).
- Reorder takes any list (`Selection.ReorderNeedNotPermute`).
- Loading restores a role without checking team membership (`Persistence.RestoredCaptainNeedNotBeSelected`).
- Loading keeps duplicate ids (`Persistence.RestoredDuplicatesKept`).
- A stored team is not capped at eleven (`Persistence.RestoredTeamNotCapped`).
- The token is not URL-safe: it is standard Base64 placed in the query string unescaped (`ShareToken.TokenNotUrlSafe` exhibits a `+`).

The invariant is therefore proved under the conditions the panel supplies:

- role buttons exist only on selected players;
- the drag-and-drop list hands back a permutation of the team.

## Model

| member | source | states |
|---|---|---|
| Selection.Initial | src/app/page.tsx:46-50 | the page starts with no players, no captain, no keeper and the modal closed, which is a valid state |
| Selection.Valid | src/app/page.tsx:144-148 | in a valid state every selected player occurs exactly once |
| Selection.UniqueOnce | src/app/page.tsx:144-148 | in a list with unique ids every entry occurs exactly once |
| Players.FindById | src/app/page.tsx:71 | a player is found exactly when some roster entry carries the id; the result is a roster entry with that id, and no earlier entry has it |
| Players.FindMember | src/app/page.tsx:104 | in a roster with unique ids, looking up an entry's id finds that entry |
| Selection.CanSelect | src/app/page.tsx:144-148 | a player can be added exactly when fewer than `TOTAL_PLAYERS` are selected and its id is not among the selected ids |
| Selection.RemoveId | src/app/page.tsx:156 | the filter keeps exactly the entries with another id, never grows the list, and keeps ids unique |
| Selection.RemoveIdSingle | src/app/page.tsx:156 | a one-entry list is kept exactly when its id differs |
| Selection.RemoveIdAppend | src/app/page.tsx:156 | filtering a concatenation filters each part: the kept entries stay in their original order |
| Selection.RemoveIdCounts | src/app/page.tsx:156 | an entry with another id is kept as often as it occurs, duplicates included, and one with the id not at all |
| Selection.ClearIfId | src/app/page.tsx:157-158 | a role held by the removed id is cleared; a role held by another id is kept |
| Selection.SelectPlayer | src/app/page.tsx:151-163 | a selected player's id is filtered out of the team (the `RemoveId` result, so order and duplicates of other ids are kept) and any role it holds is cleared, the other role unchanged; an unselected player is appended when there is room; otherwise nothing changes |
| Selection.SelectPlayerValid | src/app/page.tsx:151-163 | toggling any player keeps at most eleven players, unique ids, and role holders in the team |
| Selection.SelectPlayerRemoves | src/app/page.tsx:152-156 | toggling the player at position `k` removes exactly that entry, and the others keep their relative order |
| Selection.SelectPlayerRemovesAround | src/app/page.tsx:152-156 | even when the team repeats a player, deselecting the entry at `k` leaves the filtered entries before `k` followed by the filtered entries after it |
| Selection.SelectThenDeselect | src/app/page.tsx:151-163 | adding a player and toggling it again gives back the original state |
| Selection.ToggleRole | src/app/page.tsx:167 | the functional update yields `null` for a `null` argument and for a holder with the same id, and yields the argument otherwise |
| Selection.SetCaptain | src/app/page.tsx:166-168 | only the captain changes, to the functional update of the previous captain; a new captain is the argument and differs in id from the previous one |
| Selection.SetWicketKeeper | src/app/page.tsx:170-172 | only the keeper changes, to the functional update of the previous keeper; a new keeper is the argument and differs in id from the previous one |
| Selection.ToggleRoleTwice | src/app/page.tsx:170-172 | toggling the same player twice empties the role, or restores it when that player held it |
| Selection.SetCaptainTwice | src/app/page.tsx:166-168 | setting the same captain twice, from a captain with another id, leaves no captain |
| Selection.SetWicketKeeperTwice | src/app/page.tsx:170-172 | setting the same keeper twice, from a keeper with another id, leaves no keeper |
| Selection.SetCaptainValid | src/components/SelectedTeamPanel.tsx:93 | with a selected argument, as the panel's role button supplies, the captain toggle keeps the invariant |
| Selection.SetWicketKeeperValid | src/components/SelectedTeamPanel.tsx:107 | with a selected argument the keeper toggle keeps the invariant |
| Selection.CaptainNeedNotBeSelected | src/app/page.tsx:166-168 | the handler alone makes an unselected player captain, and the invariant fails |
| Selection.Reorder | src/app/page.tsx:175-177 | the handed-back list becomes the team verbatim; roles and the modal flag are untouched |
| Selection.ReorderNeedNotPermute | src/app/page.tsx:175-177 | a list repeating a player is taken as it is, and the invariant fails |
| Selection.PermutationUnique | src/components/SelectedTeamPanel.tsx:181-184 | a permutation of a list with unique ids has unique ids |
| Selection.ReorderValid | src/components/SelectedTeamPanel.tsx:181-184 | reordering by a permutation of the team, as the drag-and-drop list supplies, keeps the invariant |
| Selection.Submit | src/app/page.tsx:180-184 | the success modal opens exactly when eleven players, a captain and a keeper are set (or it was already open); the team is untouched |
| Selection.Reset | src/app/page.tsx:187-192 | from any state: no players, no captain, no keeper, modal closed |
| Selection.ResetValid | src/app/page.tsx:187-192 | reset yields a valid state, the same whatever the prior state |
| Selection.StepValid | src/app/page.tsx:151-192 | every handler, fed what the panel offers, keeps the invariant |
| Selection.CloseModal | src/app/page.tsx:339 | closing the success modal leaves team, captain and keeper as they are and the modal closed |
| Selection.ConfirmThenClose | src/app/page.tsx:339 | confirming and then closing the modal is the same as closing alone, and a ready team can be confirmed again afterwards |
| Selection.RunValid | src/app/page.tsx:151-192 | every sequence of offered intents from a valid state ends in a valid state |
| Persistence.RoleId | src/app/page.tsx:132-133 | `role?.id \|\| null` is present exactly when a role is held by a player with a non-empty id, and is that id |
| Persistence.ToStored | src/app/page.tsx:130-134 | the stored ids are the selected players' ids, position by position; the role ids are as `RoleId` gives them |
| Persistence.ResolveIds | src/app/page.tsx:103-105 | resolution never yields more players than ids, and only roster entries |
| Persistence.ResolveAppend | src/app/page.tsx:103-105 | resolving a concatenation is the concatenation of the resolutions |
| Persistence.ResolveKnownIds | src/app/page.tsx:103-105 | the resolved players' ids are exactly the ids the roster knows, in their original order |
| Persistence.DropUnknown | src/app/page.tsx:103-105 | an id missing from the roster is dropped, and nothing else changes |
| Persistence.ResolveIdsOfPlayers | src/app/page.tsx:103-106 | resolving the ids of roster players gives back the same players in the same order |
| Persistence.RestoreRole | src/app/page.tsx:109-117 | a role is restored only from a non-empty id the roster knows, as the roster entry with that id |
| Persistence.RoleRoundTrip | src/app/page.tsx:109-117 | a role held by a roster entry with a non-empty id survives saving and loading |
| Persistence.LoadStored | src/app/page.tsx:97-118 | loading never yields more players than stored ids and leaves the modal closed |
| Persistence.LoadToStored | src/app/page.tsx:103-117 | saving and then loading restores players, order, captain and keeper |
| Persistence.LoadToStoredValid | src/app/page.tsx:103-117 | a valid team built from the roster is valid again after saving and loading, whatever the ids (a role held under an empty id is dropped) |
| Persistence.RoleRestored | src/app/page.tsx:109-117 | a role held by a roster entry survives saving and loading exactly when its id is non-empty, and is dropped otherwise |
| Persistence.RestoredTeamNotCapped | src/app/page.tsx:103-106 | a stored list of more than eleven roster ids restores all of them, and the loaded state is not valid |
| Persistence.StringIds | src/app/page.tsx:103-105 | the ids that can match a roster entry under `===` are exactly the string elements of the parsed list |
| Persistence.StringIdsSingle | src/app/page.tsx:103-105 | one element contributes its string if it is a string, and nothing otherwise |
| Persistence.StringIdsAppend | src/app/page.tsx:103-105 | taking the string elements distributes over concatenation, so the strings keep their order and duplicates in a mixed array |
| Persistence.StringIdsCounts | src/app/page.tsx:103-105 | each string occurs among the ids exactly as often as it occurs in the array |
| Persistence.RoleOfValue | src/app/page.tsx:109-117 | a role is restored exactly from a non-empty string that a roster entry carries, as the first such entry; any other value gives no role |
| Persistence.RoleOfMember | src/app/page.tsx:109-117 | a role is restored from the member with that key, as `RoleOfValue` restores it from the member's value, and a missing member restores none |
| Persistence.LoadParsed | src/app/page.tsx:100-118 | a parsed value loads exactly when it is an object whose `selectedPlayerIds` is an array; the team is the string ids resolved against the roster, captain and keeper are restored from the `captainId` and `wicketKeeperId` members, and the modal stays closed |
| Persistence.LoadParsedStored | src/app/page.tsx:100-118 | a value of the declared shape loads as the typed load does |
| Persistence.LoadParsedDropsSilently | src/app/page.tsx:103-112 | non-string ids and a non-string captain id are dropped without an error |
| Persistence.RoleOfNullable | src/app/page.tsx:109-117 | reading a role from a written string or `null` restores it as from the typed id |
| Persistence.StringIdsOfStrings | src/app/page.tsx:103-105 | the string elements of an array of strings are those strings |
| Persistence.RestoredCaptainNeedNotBeSelected | src/app/page.tsx:109-112 | a stored captain id restores that roster entry even when it is not in the stored team |
| Persistence.RestoredDuplicatesKept | src/app/page.tsx:103-105 | a stored list repeating an id restores that player twice |
| Base64.CharOf | src/app/page.tsx:28 | every 6-bit value maps to a character of the Base64 alphabet |
| Base64.IndexOf | src/app/page.tsx:34 | decoding an alphabet character gives the value that encodes to it |
| Base64.Encode | src/app/page.tsx:28 | the encoding has `4 * ceil(n / 3)` characters, each in the alphabet or `=` |
| Base64.EncodeShape | src/app/page.tsx:28 | the encoding is a binary string whose length is a multiple of four, non-empty for non-empty input |
| Base64.Btoa | src/app/page.tsx:28 | `btoa` succeeds exactly on binary strings, with a binary output whose length is a multiple of four and non-empty for non-empty input |
| Base64.DecodeEncodeSextets | src/app/page.tsx:28 | regrouping the 6-bit values into bytes gives back the bytes |
| Base64.StripEncode | src/app/page.tsx:34 | an encoding has no whitespace, and stripping its padding leaves the alphabet characters |
| Base64.AtobEncode | src/app/page.tsx:34 | decoding an encoding gives back the bytes |
| Base64.Atob | src/app/page.tsx:34 | a decoded text is binary; text of alphabet characters only decodes unless its length is one more than a multiple of four; any character that is not in the alphabet, not `=` and not ASCII whitespace makes it fail |
| Base64.EncodeGroupChar | src/app/page.tsx:28 | the last character of each group of four encodes the low six bits of the group's third byte |
| Base64.AtobBtoa | src/app/page.tsx:22-43 | `atob(btoa(s))` is `s` for every binary string |
| Json.HexDigit | src/app/page.tsx:28 | the lower-case digit written for a value reads back as that value |
| Json.SkipWs | src/app/page.tsx:34 | skipping whitespace yields a text no longer than the input that does not start with whitespace |
| Json.SkipWsSuffix | src/app/page.tsx:34 | skipping whitespace yields a suffix of the input, and everything skipped is whitespace |
| Json.Parse | src/app/page.tsx:34 | a text of whitespace only, the empty text included, is not JSON |
| Json.Unescape | src/app/page.tsx:34 | an escape consumes one character, or five for `\u`; a one-letter escape gives the character `JSON.stringify` escapes that way (or `/`), and `\u` gives the value of its four hex digits |
| Json.UnescapeUnwritten | src/app/page.tsx:34 | `JSON.parse` also reads escapes `JSON.stringify` never writes: `\/`, `\b`, `\f` and upper-case hex |
| Json.Lookup | src/app/page.tsx:36-38 | a found value belongs to the last member with that key; nothing is found when no member has the key |
| Json.Property | src/app/page.tsx:36-38 | a property is found exactly on an object with a member of that key |
| Json.TruthyAsJavaScript | src/app/page.tsx:36-38 | `null`, `false`, `""` and a zero number are falsy; `true`, a non-empty string, a non-zero number, arrays and objects are truthy |
| Json.EscapeCharShape | src/app/page.tsx:28 | a character is written as itself exactly when it is not a control character, a quote or a backslash; otherwise as an escape starting with a backslash; no control character is written |
| Json.WrittenShape | src/app/page.tsx:28 | escaping never shortens a string; a quoted string is bracketed by quotes; `null` is written exactly for `None`; an array is bracketed |
| Json.EscapeNoControl | src/app/page.tsx:28 | an escaped or quoted string contains no raw control character |
| Json.StringBodyEscapeChar | src/app/page.tsx:28 | each escaped character reads back as that character |
| Json.StringBodyEscape | src/app/page.tsx:28 | an escaped string and its closing quote read back as the string, leaving the rest |
| Json.ParseQuote | src/app/page.tsx:34 | a written string literal parses to that string |
| Json.ParseNullable | src/app/page.tsx:34 | a written string or `null` parses to that value |
| Json.ElementsJoin | src/app/page.tsx:34 | written comma-separated strings and the closing bracket parse to those elements |
| Json.ParseStrings | src/app/page.tsx:34 | a written array of strings parses to that array |
| Json.MemberNext | src/app/page.tsx:34 | a written member and a comma parse to that member followed by the remaining members |
| Json.ParseObjectText | src/app/page.tsx:34 | an opening brace followed by members that read back parses to the object |
| ShareToken.EncodeTeamData | src/app/page.tsx:22-29 | encoding succeeds exactly when every id is a binary string, and yields a non-empty binary token |
| ShareToken.CompactBraces | src/app/page.tsx:23-28 | the compact JSON starts with `{"p":[` and ends with `}` |
| ShareToken.WriteCompactLatin1 | src/app/page.tsx:28 | the compact JSON is a binary string exactly when every id is |
| ShareToken.OrElse | src/app/page.tsx:36-38 | `x \|\| d` is `x` when `x` is present and truthy, and `d` otherwise |
| ShareToken.FromCompact | src/app/page.tsx:34-39 | reading properties fails exactly on `null`; the list is truthy, and each role id is `null` or truthy; a truthy `p`, `c` or `w` is kept unchanged, whatever its type |
| ShareToken.DecodeTeamData | src/app/page.tsx:32-43 | a token that is not Base64 decodes to `null`, and a successful decode came from valid JSON |
| ShareToken.AsStoredState | src/app/page.tsx:15-19 | the typed view succeeds exactly on an array of strings and two strings-or-nulls, and writes back to the same values |
| ShareToken.DecodeStored | src/app/page.tsx:32-43 | a typed decode is one whose JSON values are what `decodeTeamData` returns |
| ShareToken.NonEmpty | src/app/page.tsx:37-38 | `id \|\| null` keeps exactly the non-empty ids |
| ShareToken.ParseCompact | src/app/page.tsx:22-35 | `JSON.parse(JSON.stringify({p, c, w}))` gives the object with members `p`, `c`, `w` back |
| ShareToken.DecodeEncode | src/app/page.tsx:22-43 | decoding an encoding gives the JSON values of the stored state, empty role ids becoming `null` |
| ShareToken.StringsOfStringIds | src/app/page.tsx:15-19 | an array whose elements are all strings is rebuilt from its string elements |
| ShareToken.AsStoredStateOf | src/app/page.tsx:15-19 | the JSON values of a stored state read back at the declared type as that state |
| ShareToken.TokenRoundTrip | src/app/page.tsx:22-43 | `decodeTeamData(encodeTeamData(s))` is `s` with empty role ids as `null`, and `s` itself when no role id is empty |
| ShareToken.FalsyDefaults | src/app/page.tsx:36-38 | a missing or falsy `p` decodes to `[]`, and a missing or falsy `c` or `w` to `null`; a truthy member decodes to its own value |
| ShareToken.NullPayloadRefused | src/app/page.tsx:40-42 | the token of `null` decodes to `null`, because reading `null.p` throws and is caught |
| ShareToken.BadBase64Refused | src/app/page.tsx:40-42 | a token `atob` rejects decodes to `null` |
| ShareToken.LoadShared | src/app/page.tsx:64-93 | no parameter or an undecodable token means no shared team; it throws exactly when the decoded `p` is not an array; otherwise a team is shown exactly when some string id of `p` is in the roster, and it is those players in order with the roles `RoleOfValue` gives for `c` and `w` |
| ShareToken.SharedKnownIds | src/app/page.tsx:70-72 | for any token, the shown players' ids are exactly the string ids of `p` the roster knows, in order and with duplicates |
| ShareToken.NonArrayListThrows | src/app/page.tsx:70-72 | a truthy `p` that is not an array makes the load effect throw |
| ShareToken.TokenGroupChar | src/app/page.tsx:28 | character `4g + 3` of a token encodes the low six bits of character `3g + 2` of the compact JSON |
| ShareToken.TokenNotUrlSafe | src/app/page.tsx:21-28 | the one-player team whose id is `a>` is encoded with a `+` at position 11, so the token is not URL-safe as the comment claims |
| ShareToken.ShareRoundTrip | src/app/page.tsx:195-202 | sharing a non-empty team of roster players and opening the token shows the same players, order, captain and keeper |
| TeamPanel.IsComplete | src/components/SelectedTeamPanel.tsx:155 | the panel calls a team complete exactly when the submit handler would accept it, and then shows no empty slot |
| TeamPanel.SubmitDisabled | src/components/SelectedTeamPanel.tsx:230 | the button is disabled exactly when the team does not have eleven players, a captain and a keeper |
| TeamPanel.Hints | src/components/SelectedTeamPanel.tsx:245-251 | at most one hint shows, and none exactly when the team is complete or over-full |
| TeamPanel.HintText | src/components/SelectedTeamPanel.tsx:247 | the missing-players hint reads `Select <n> more` with `n` written in decimal digits; the other hints start with `Select ` |
| TeamPanel.MissingCountShown | src/components/SelectedTeamPanel.tsx:247 | with fewer than eleven players exactly one hint shows, and its number reads back as `11 - n` |
| TeamPanel.EmptySlotCount | src/components/SelectedTeamPanel.tsx:210 | the empty slots fill the team up to eleven players, and there are none once eleven are reached |
| TeamPanel.SlotNumbers | src/components/SelectedTeamPanel.tsx:217 | there is one number per empty slot |
| TeamPanel.SlotsCompleteLineup | src/components/SelectedTeamPanel.tsx:210-217 | the filled positions followed by the slot numbers are exactly `1 .. 11` in order |
| TeamPanel.NoSlotsWhenFull | src/components/SelectedTeamPanel.tsx:210 | an over-full team shows no empty slot |
| TeamPanel.OneHintAtATime | src/components/SelectedTeamPanel.tsx:245-251 | a complete team shows no hint; otherwise exactly one, naming the first thing missing: players (`11 - n` more), then captain, then keeper |
| TeamPanel.OverfullShowsNoHint | src/components/SelectedTeamPanel.tsx:245-251 | more than eleven players is incomplete yet shows no hint |
| TeamPanel.Decimal | src/components/SelectedTeamPanel.tsx:247 | the count in the hint is a non-empty run of digits without a leading zero |
| TeamPanel.DecimalValue | src/components/SelectedTeamPanel.tsx:247 | the digits written for a count read back as that count |
| TeamPanel.SubmitMatchesHandler | src/components/SelectedTeamPanel.tsx:229-230 | the button is enabled exactly when clicking it opens the success modal |
| TeamPanel.Badge | src/components/SelectedTeamPanel.tsx:80-86 | a badge appears exactly on role holders; its label contains `C` exactly for the captain and `W` exactly for the keeper |
| TeamPanel.RoleMarkedOnce | src/components/SelectedTeamPanel.tsx:189-190 | with unique ids and a selected holder, exactly one item is marked for a held role, and none for an empty one |
| TeamPanel.NoneHolding | src/components/SelectedTeamPanel.tsx:189-190 | no item is marked for a role whose id no item has |

## Left out

- Local storage: reading, writing, and the catch-and-log paths (src/app/page.tsx:97-122, 136-140) are I/O. The model begins at the parsed `StoredState` and ends at the object passed to `JSON.stringify`.
- Reading the storage entry: `JSON.parse` of the entry and its `catch` are not modelled as text; loading starts from the parsed value (`Persistence.LoadParsed`). A value that is not an object whose `selectedPlayerIds` is an array throws at `.map` (src/app/page.tsx:103) into the logging `catch`, and the state stays as it was; any other value loads, and non-string ids and role ids are dropped silently.
- The URL: reading the query (`URLSearchParams`), building the link, `history.replaceState`, the clipboard, `navigator.share`, `alert` and `prompt` are browser effects. The parameter is an input to `ShareToken.LoadShared`.
- ShareToken.LoadShared: returns `TypeError` and stops there. The throw at src/app/page.tsx:70 is outside the `try` of :97, so the storage load and `setIsLoaded(true)` (:123) never run and the page stays unloaded; the React error path is not modelled.
- URL transport of the token: the link is built by plain concatenation (src/app/page.tsx:203), and query parsing turns `+` into a space. `atob` then drops that space, so a token containing `+` can arrive altered. Only the token itself (`btoa`/`atob`) is modelled.
- Hook mechanics: `useEffect` and `useCallback` dependency lists and the `isLoaded` gate are React scheduling. Each handler is one atomic transition.
- Player `stats` and `isCaptain`: floating-point statistics are display-only, and the flag is never read by the core.
- Presentational components: src/components/PlayerCard.tsx, src/components/SuccessModal.tsx apart from its `onClose` (its confetti uses `Math.random`), layout, styling and animation.
- Json.Truthy: judges a number by the digits of its mantissa. A literal that underflows to zero, such as `1e-400`, counts as truthy here but is falsy in JavaScript.
- Json.Unescape: rejects a `\u` escape that names a surrogate code unit, because a Dafny string holds Unicode scalar values; `JSON.parse` accepts it. `JSON.stringify` writes lone surrogates as escapes, which likewise has no counterpart here.
- Json.StringBody: accepts only the characters a Dafny string can hold. Ids are therefore strings of scalar values, and lone UTF-16 surrogates are not modelled.
- The roster contents (`availablePlayers`, defined outside the source shown) are a parameter.
