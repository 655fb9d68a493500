# tootbridge, modelled in Dafny

tootbridge mirrors Twitter accounts to Mastodon accounts. A *bridge* pairs one
Twitter account with one Mastodon account and keeps a *watermark*: the id of
the last tweet it relayed. Each synchronisation pass does two things.

- **Gather.** Fetch the account's latest tweets, which arrive newest first.
  Walk them oldest first and enqueue every tweet whose id lies strictly above
  the watermark.
- **Relay.** Drain the queue in FIFO order. For each tweet, prepare the status
  text, post it as an unlisted status, and move the watermark to that tweet's
  id when the post succeeded. A tweet whose post failed is dropped.

Preparing a status text means finding the `t.co` / `ift.tt` shortlinks with a
regular expression and replacing each with the target the shortener redirects
to (a link whose redirect cannot be read is replaced by itself). Then a footer
`\n\nИсточник: <source url>` is appended. The *director* builds one bridge per
record of a credentials file and writes the records back, with each bridge's
watermark, after the pass. An older generation of the text preparation also
strips a fixed Russian "foreign agent" disclaimer, matched without regard to
case, and tidies the whitespace left behind.

The model is split into these modules:

- `Wrappers` (`wrappers.dfy`) and `Tweets` (`tweet.dfy`) hold the Option type and the tweet value.
- `Strings` (`strings.dfy`) writes out the Python string operations the code relies on: `in`, `find`, `replace`, `strip`, `lower`.
- `TootbridgeUtils` (`tootbridge_utils.dfy`) covers link expansion and status text.
- `LegacyUtils` (`legacy_utils.dfy`) is the older text preparation, including disclaimer removal.
- `Bridges` (`bridge.dfy`) is the bridge: a class whose methods gather, relay and synchronise. Each method is proved against a specification function (`NewTweets`, `Relay`), and lemmas about those functions state the queue and watermark properties.
- `BridgeDirectors` (`bridge_director.dfy`) loads the bridges from the credentials records and writes them back.

The network is an input to the model:

- the reply to a fetch of each URL (`string -> FetchResponse`);
- the result of probing each shortlink (`string -> LinkProbe`);
- the server's answer to the k-th post of a pass (`nat -> PostResponse`).

## Model

| member | source | states |
|---|---|---|
| Strings.Find | src/utils.py:18 | `str.find`: never below -1; -1 exactly when the pattern does not occur, otherwise an index where it occurs with no earlier occurrence |
| Strings.ReplaceBySelf | src/tootbridge/utils.py:33 | `str.replace(link, link)` leaves the text unchanged, which is what happens to a link that cannot be unshortened |
| Strings.ReplaceAbsent | src/tootbridge/utils.py:33 | replacing a substring that does not occur leaves the text unchanged |
| Strings.ReplaceAll | src/tootbridge/utils.py:33 | `str.replace` with a replacement of the target's length keeps the text's length, and with a shorter one never lengthens it |
| Strings.ReplaceAtFirst | src/tootbridge/utils.py:33 | when the target occurs, `str.replace` keeps the text before its first occurrence, puts the replacement there, and goes on in the text after that occurrence |
| Strings.Strip | src/utils.py:21 | `strip`: the result neither starts nor ends with a stripped character, and it is the input with a leading and a trailing run of stripped characters taken off |
| Strings.StripDeletesOnly | src/utils.py:21 | `strip` deletes stripped characters only: every other character of the input is still there, in the same order |
| Strings.LowerTwice | src/utils.py:14-18 | lower-casing is idempotent, so lowering the already lowered disclaimer again finds the same occurrence |
| TootbridgeUtils.UnshortenLink | src/tootbridge/utils.py:10-22 | the redirect target when the probe answered with a non-error status and a non-empty `Location`; the link itself on any failure |
| TootbridgeUtils.FindLinks | src/tootbridge/utils.py:27-29 | every link `re.findall` returns is non-empty |
| TootbridgeUtils.FindLinksLeftmost | src/tootbridge/utils.py:27-29 | `re.findall` reports the leftmost matches, each the longest at its position, none overlapping, in text order: each starts at the first matching position at or after the end of the previous one, and no match starts after the last one |
| TootbridgeUtils.ScanIsLeftmost | src/tootbridge/utils.py:29 | the left-to-right scan from any index reports exactly the leftmost non-overlapping marked matches from there on |
| TootbridgeUtils.FindLinksCovers | src/tootbridge/utils.py:27-29 | every position where the pattern matches lies inside some reported link, which is a match of the pattern starting at or before it |
| TootbridgeUtils.MatchesWherePatternDoes | src/tootbridge/utils.py:28 | the matcher finds a match at a position exactly when the pattern `https://(?:t.co\|ift.tt)/[a-zA-Z0-9]+` matches there |
| TootbridgeUtils.FoundLinksAreMatches | src/tootbridge/utils.py:29 | every link found is the longest match of the pattern at some position of the text |
| TootbridgeUtils.FindLinksEmpty | src/tootbridge/utils.py:29 | no link is found exactly when the pattern matches at no position |
| TootbridgeUtils.ExampleLinkFound | src/tootbridge/utils.py:27-29 | in `see https://t.co/abc123 for details` the pattern finds exactly the one link `https://t.co/abc123` |
| TootbridgeUtils.DotIsWildcard | src/tootbridge/utils.py:28 | the unescaped `.` in the host alternatives matches any character, so `https://tXco/abc` is a link |
| TootbridgeUtils.ExpandUnresolved | src/tootbridge/utils.py:32-33 | when no link resolves, the replacement loop returns the text unchanged |
| TootbridgeUtils.UnshortenLinks | src/tootbridge/utils.py:25-34 | the loop replaces, in order, every link found by its resolution, with the result of the left fold `ExpandLinks` |
| TootbridgeUtils.PrepareStatusText | src/tootbridge/utils.py:37-42 | expanding the links and then appending the footer gives `PrepareText` of the tweet |
| TootbridgeUtils.ScanReadsMatches | src/tootbridge/utils.py:29 | every link the left-to-right scan reports is the text marked at some index from where the scan starts |
| TootbridgeUtils.ScanEmpty | src/tootbridge/utils.py:29 | the scan reports nothing exactly when no index from where it starts marks a match |
| TootbridgeUtils.PreparedTextEndsWithFooter | src/tootbridge/utils.py:37-42 | every status text ends with `\n\nИсточник: ` and the tweet's source url |
| TootbridgeUtils.PreparedTextWithoutLinks | src/tootbridge/utils.py:37-42 | a tweet without shortlinks is posted as its text followed by the footer |
| TootbridgeUtils.PreparedTextKeepsUnresolvedLinks | src/tootbridge/utils.py:37-42 | when every probe fails, the status is the original text followed by the footer |
| TootbridgeUtils.PreparedTextExample | src/tootbridge/utils.py:10-42 | when the probe of `https://t.co/abc123` answers 301 with `Location: https://example.com/full`, the tweet `see https://t.co/abc123 for details` becomes `see https://example.com/full for details` followed by the footer |
| TootbridgeUtils.ReplaceThroughPrefix | src/tootbridge/utils.py:32-33 | `str.replace` of a link rewrites, besides the link itself, the start of a longer link that extends it |
| TootbridgeUtils.PrefixPairFound | src/tootbridge/utils.py:27-29 | in `https://t.co/ab https://t.co/abc` the pattern finds both links, the first a prefix of the second |
| TootbridgeUtils.ReplaceRewritesUnresolvedLink | src/tootbridge/utils.py:25-42 | when `https://t.co/ab` resolves to `X` and the probe of `https://t.co/abc` raises, the status for `https://t.co/ab https://t.co/abc` is `X Xc` plus the footer, which no longer holds the unresolved link |
| TootbridgeUtils.RewriteKeepsResolutions | src/tootbridge/utils.py:27-33 | rewriting each scanned match where it stands leaves the resolution of every reported link in the result |
| TootbridgeUtils.ExpandMatchesKeepsResolutions | src/tootbridge/utils.py:25-34 | with the intended expansion, every found link leaves its resolution in the text, whatever the other probes answer, so a link whose probe fails stays intact |
| TootbridgeUtils.ExpandMatchesKeepsUnresolvedLink | src/tootbridge/utils.py:25-34 | with the intended expansion, the same tweet becomes `X https://t.co/abc` |
| LegacyUtils.CutFirst | src/utils.py:17-20 | one removal cuts out exactly the first case-insensitive occurrence, keeping what lies before and after it |
| LegacyUtils.CutWarning | src/utils.py:13-20 | a removal of the disclaimer shortens the text |
| LegacyUtils.DeleteBlankRuns | src/utils.py:22 | deleting the runs of blanks never lengthens the text |
| LegacyUtils.DeleteRemovesOnlyBlanks | src/utils.py:22 | the deletion removes spaces and newlines only: every other character is kept, in the same order |
| LegacyUtils.DeleteSplits | src/utils.py:22 | no deleted run reaches across a split that follows a character other than a blank, so the text is tidied piece by piece |
| LegacyUtils.DeleteKeepsLoneBlank | src/utils.py:22 | a single space or newline between two other characters is kept |
| LegacyUtils.DeleteDropsRun | src/utils.py:22 | a run of two or more spaces and newlines between two other characters is deleted outright, not collapsed: the text on either side is all that is left |
| LegacyUtils.DeleteLeavesNoBlankPairs | src/utils.py:22 | after `re.sub(r"[\n ]{2,}", "", …)` no two spaces or newlines stand side by side |
| LegacyUtils.DeleteKeepsEnds | src/utils.py:22 | a text that neither starts nor ends with a blank keeps its first and last character |
| LegacyUtils.TidyUp | src/utils.py:21-22 | the tidied text is no longer and has no surrounding whitespace and no adjacent blanks |
| LegacyUtils.TidyRemovesOnlySpace | src/utils.py:21-22 | tidying deletes whitespace only: every other character is kept, in the same order |
| LegacyUtils.CutThenTidy | src/utils.py:17-22 | one round of the recursion cuts out the first case-insensitive occurrence of the disclaimer and keeps the text on both sides of it; tidying that deletes only whitespace, so the round's result is the input with characters deleted |
| LegacyUtils.RemoveWarnings | src/utils.py:9-23 | the result contains no disclaimer in any case; a text without it is returned unchanged; otherwise the result is tidy and shorter by at least the disclaimer's length |
| LegacyUtils.RemoveWarningsDeletesOnly | src/utils.py:9-23 | the result is the tweet with characters deleted, never rewritten or reordered |
| LegacyUtils.LegacyPrepareText | src/utils.py:53-58 | the status text of the older bridge ends with `\n\nИсточник: ` and the tweet's source url |
| LegacyUtils.LegacyPreparedTextUnresolved | src/utils.py:53-58 | with every probe failing, the status is the text without disclaimers plus the footer |
| LegacyUtils.LegacyPreparedTextPlain | src/utils.py:53-58 | a text without disclaimer and without `t.co` links is posted unchanged plus the footer |
| Bridges.PostStatus | src/tootbridge/Bridge.py:67-88 | an error status or a transport failure is a suppressed failure; a success yields the stringified `id`; an unreadable `id` escapes the loop |
| Bridges.NewTweetsReverseFilter | src/tootbridge/Bridge.py:43-55 | gather enqueues the fetched tweets reversed and filtered by `id > watermark`, in that order |
| Bridges.NewTweetsMembers | src/tootbridge/Bridge.py:50-54 | a tweet is enqueued exactly when some fetched record carries it with an id strictly above the watermark |
| Bridges.NewTweetsAboveWatermark | src/tootbridge/Bridge.py:50-52 | nothing at or below the watermark is enqueued |
| Bridges.NewTweetsAscending | src/tootbridge/Bridge.py:43 | a newest-first response yields a queue in ascending id order |
| Bridges.RelaySendsInOrder | src/tootbridge/Bridge.py:63-68 | relay posts the queued tweets in FIFO order, each with the status text `prepare_text` makes of it |
| Bridges.RelayDrainsUnlessCrashed | src/tootbridge/Bridge.py:63-68 | relay crashes exactly when some post crashes; without a crash it posts every tweet and empties the queue; with one it stops at the first crashing post and leaves the tweets after it queued |
| Bridges.RelayWatermark | src/tootbridge/Bridge.py:67-72 | the final watermark is the id of the last tweet whose post succeeded, or the old watermark when none did |
| Bridges.RelayNeverLowersWatermark | src/tootbridge/Bridge.py:63-72 | when every queued id lies above the watermark, relay never lowers it |
| Bridges.RelayWatermarkIsHighestPosted | src/tootbridge/Bridge.py:63-72 | on an ascending queue, the final watermark is at least the id of every tweet posted |
| Bridges.PassKeepsWatermarkMonotone | src/tootbridge/Bridge.py:23-26 | a pass that starts with an empty queue never lowers the watermark |
| Bridges.FailedPostIsSkipped | src/tootbridge/Bridge.py:28-72 | watermark 100 and ids 102, 101, 99, 98 queue 101 then 102; a failed post of 101 and a successful post of 102 leave watermark 102 and an empty queue, and the same fetch above watermark 102 queues nothing |
| Bridges.Bridge.constructor | src/tootbridge/Bridge.py:12-21 | the fields as given and an empty queue |
| Bridges.Bridge.GatherNewTweets | src/tootbridge/Bridge.py:28-59 | fetches `<twitter api url>/<username>`; the queue grows by `NewTweets` of the payload unless the status is an error; a failed request raises; the count is the number enqueued; the watermark is untouched |
| Bridges.Bridge.RelayNextTweet | src/tootbridge/Bridge.py:64-72 | one round dequeues the oldest tweet, posts its prepared text to the bridge's instance with its token, and moves the watermark to its id only when the post succeeded |
| Bridges.Bridge.RelayNewTweets | src/tootbridge/Bridge.py:61-72 | the requests sent, the watermark and the queue left are those of `Relay` on the old queue and watermark |
| Bridges.Bridge.SynchronizeAccounts | src/tootbridge/Bridge.py:23-26 | gather from the bridge's feed URL, then relay; a failed fetch changes nothing; the accounts and endpoints are never modified |
| BridgeDirectors.LoadThenDump | src/tootbridge/BridgeDirector.py:25-35 | loading fails exactly on an empty file; writing back what was loaded reproduces the four fields of every record, in order |
| BridgeDirectors.DumpThenLoad | src/tootbridge/BridgeDirector.py:49-59 | writing the bridges and loading them again with the same endpoint gives the same bridges, watermarks included |
| BridgeDirectors.GetBridges | src/tootbridge/BridgeDirector.py:21-37 | one new, distinct bridge per record, in order, with the record's fields, the director's endpoint and an empty queue; none for an empty file |
| BridgeDirectors.UpdatedCredentials | src/tootbridge/BridgeDirector.py:49-59 | one record per bridge, in order, with the bridge's accounts, token and current watermark |

Where the code and its documentation differ, the model follows the code:

- `re.sub(r"[\n ]{2,}", "", …)` deletes runs of two or more spaces or newlines outright; it does not collapse them into one. Words on either side of such a run are glued together.
- The `.` in `t.co` and `ift.tt` is unescaped, so it matches any character except a newline.

Both variants of `_unshorten_links` are modelled by the one method `UnshortenLinks`. The newer one (`src/tootbridge/utils.py:25-34`) probes all links first and then replaces them one after the other. The older one (`src/utils.py:44-50`) probes and replaces link by link. With a deterministic probe per link the results are equal, so the older one is `UnshortenLinks` with `LEGACY_SHORTENERS`. Its `_unshorten_link` (`src/utils.py:26-41`) is `UnshortenLink`: a missing `Location` raises a `KeyError` that is caught, an empty one a `ValueError` that is caught, and both return the link.

## Findings

| source | as written | input that shows it | evidently intended | confidence | as-written member | corrected member |
|---|---|---|---|---|---|---|
| src/tootbridge/utils.py:32-33 | each found link is replaced with `text.replace(link, replacement)`, which rewrites every occurrence of the link's text, including the start of a longer link found separately | `https://t.co/ab https://t.co/abc`, where the first link redirects to `X` and the probe of the second raises: the status text is `X Xc` | a link whose redirect cannot be read stays in the text as it was; each match is rewritten where it stands | high (not executed) | TootbridgeUtils.ReplaceRewritesUnresolvedLink | TootbridgeUtils.ExpandMatchesKeepsResolutions |

The corrected expansion is `ExpandMatches`. It rewrites each match that the scan reports to its own resolution, in place, and copies the rest of the text. `ExpandMatchesKeepsUnresolvedLink` shows that it keeps `https://t.co/abc` on the input above. `PrepareText`, `UnshortenLinks` and the relay still model the code as written, with `str.replace`, because they describe what the bridge posts.

## Left out

- HTTP, JSON and the event loop: the fetch, each probe and each post are inputs. Probes are deterministic per link. The concurrency of `asyncio.gather` across bridges (`sync_bridges`) and across links is not modelled. The bridges share no state, so each pass is modelled bridge by bridge.
- Reading and writing the credentials file and the assertion that its path exists: the records are the file's contents.
- A credentials record holds only the four keys the code reads. `update_credentials` (`src/tootbridge/BridgeDirector.py:49-59`) writes exactly those four, so any other key of the file is lost on the way back. `LAST_POSTED_ID` goes back as a JSON number even when the file held it as a string. Neither effect is modelled.
- `int(id_str)` and `int(LAST_POSTED_ID)` are taken as already parsed. A missing key in a fetched record or a credentials record (a `KeyError`) is not modelled.
- GET against HEAD in the two `_unshorten_link` variants, and their 10-second timeout: a timeout is a failed probe.
- The condition at `src/utils.py:33` is written with `&&`, which is not valid Python. Read as `and`, it can never hold. The model leaves it out.
- Logging, timing and `main.py`'s scheduling loop.
- `Strings.LowerChar`: `str.lower()` is modelled for ASCII, Latin-1 and Cyrillic capitals only. Other characters are left unchanged, which is enough for the disclaimer's text. The model also takes `lower` to keep the string's length, character for character. Python lowers U+0130 to two characters, which would shift the indices that `find` reports on the lowered text away from the original text's, and so move the cut at src/utils.py:17-20.
- `Bridges.Bridge.RelayNewTweets`: a post whose reply body lacks `id` raises out of the loop. The model stops the relay there, with the remaining tweets still queued. It does not model the exception propagating further.
