# MediCat torrent updater — a Dafny model

The updater checks the MediCat USB forum thread for a new release. It
compares the thread's release with the releases the local qBittorrent client
already seeds. When the release is new, it adds the thread's magnet link to
the client and mails an HTML report of the client's MediCat torrents. This
project models what one run decides and computes, and proves properties of
that model:

- `VersionScan`: the two thread extractors, which return the first whole
  text node that starts with `vNN.NN` or `magnet:?`. Also the scan that
  collects the leftmost `vNN.NN` token of every torrent name, as a loop.
- `VersionOrder`: Python's string order and the `sort()` of the collected
  tokens. Proves that for tokens the string order is the numeric
  (major, minor) order, so the last sorted token is the newest release.
- `SizeFormat`: `sizeof_fmt`, the binary-unit choice for byte counts, as
  the source's loop.
- `TagStyling`: the chain of five `str.replace` calls that inlines the table
  style. Proves the chain equals one left-to-right pass, leaves no bare
  `<table>`, `<th>` or `<td>`, and gives every `<th style="` / `<td style="`
  the style.
- `StatusReport`: the plain-text status of all torrents, and the rows and
  styled HTML table of the MediCat torrents, both as the source's loops.
- `Notification`: `send_notification` up to the SMTP hand-over. That is the
  body template, the Subject, From and To headers, and the envelope. It
  also models the one header check of Python's email policy that this code
  can trip: a header value that `str.splitlines()` breaks into more than
  one line raises `ValueError`.
- `Pipeline`: the `__main__` decision. A missing node crashes the run, a
  known release is skipped, an empty inventory fails after the torrent is
  added, a header value over several lines fails after the torrent is
  added, and otherwise the notification mail is composed.

Supporting modules: `Wrappers` (an `Option` type) and `Text` (prefixes,
substrings, ASCII lower-casing, `sep.join`, `str.find` for one character,
decimal rendering of integers with its parser, and the line boundaries of
`str.splitlines()`).

External state enters as parameters:

- the thread's text nodes, as a sequence of strings in document order;
- the client's torrent names before the torrent is added;
- the client's torrent records when the report is built;
- the `tabulate` renderer, as a function from headers and rows to markup;
- the mail-related configuration values.

In the regular expressions `\d` is read as the ASCII digits `0`-`9`, and
`str.lower()` as ASCII lower-casing.

A missing `sender_displayname` key is a visible quirk of the code.
`config.get` then passes `None` explicitly, so the parameter's default
"MediCat Torrent Updater" never applies from the main block, and the mail
is signed and sent as `"None"`. The model keeps this behaviour
(`Pipeline.DisplayNameNeverDefault`).

## Model

| member | source | states |
|---|---|---|
| VersionScan.ThreadVersion | main.py:36-37 | specification of `get_thread_medicat_version`: the first text node matching `^v\d\d\.\d\d`, whole; its contract is stated by `ThreadVersionIsFirstWholeNode` and `ThreadVersionAnchored` |
| VersionScan.MagnetLink | main.py:40-41 | specification of `get_magnet_link`: the first text node matching `^magnet:\?`, whole; its contract is stated by `MagnetLinkIsFirstWholeNode` |
| VersionScan.VersionsOf | main.py:44-52 | specification of `get_torrent_medicat_versions`: the leftmost token of each matching name, in order; its properties are the `VersionsOf*` lemmas and the loop `TorrentVersions` |
| VersionScan.SearchVersion | main.py:48-50 | `re.search(r"v\d\d\.\d\d")`: a token is found iff the name contains one; the result is a well-formed token and is the leftmost match |
| VersionScan.SearchVersionAt | main.py:48 | the leftmost match position determines the search result |
| VersionScan.FirstNode | main.py:36-41 | `soup.find(string=...)`: absent iff no node is accepted; otherwise the first accepted node in document order, returned whole |
| VersionScan.ThreadVersionIsFirstWholeNode | main.py:36-37 | the thread version is the entire first node starting with a `vNN.NN` token (at least 6 characters, a token at its start), absent only when no node starts so |
| VersionScan.MagnetLinkIsFirstWholeNode | main.py:40-41 | the magnet link is the entire first node starting with `magnet:?`, absent only when no node starts so |
| VersionScan.ThreadVersionAnchored | main.py:37 | the thread pattern is anchored: a token in mid-node is not found, and a node with trailing text is returned with that text |
| VersionScan.TorrentVersions | main.py:44-52 | the loop returns exactly the specification list `VersionsOf(names)` |
| VersionScan.VersionsOfAppend | main.py:47-50 | the scan keeps the names' order: the tokens of a concatenation are the concatenated tokens |
| VersionScan.Found | main.py:48-50 | one name contributes at most one token, none exactly when it has no match, and then its leftmost match |
| VersionScan.VersionsOfCount | main.py:47-50 | one token per matching name, duplicates kept |
| VersionScan.VersionsOfMembership | main.py:47-50 | a token is collected iff it is the leftmost match of some name |
| VersionScan.VersionsOfAreTokens | main.py:48-50 | every collected version is a well-formed `vNN.NN` token |
| VersionScan.VersionsOfExample | main.py:44-52 | concrete inventory: duplicates are kept, a name without a token adds nothing, the token is taken from anywhere in the name |
| VersionOrder.Less | main.py:110 | specification of Python's `str <` (code-point lexicographic order, a proper prefix first); its order laws are the four lemmas below |
| VersionOrder.LessIrreflexive | main.py:110 | Python string `<` is irreflexive |
| VersionOrder.LessAsymmetric | main.py:110 | Python string `<` is asymmetric |
| VersionOrder.LessTransitive | main.py:110 | Python string `<` is transitive |
| VersionOrder.LessTotal | main.py:110 | any two strings are equal or ordered one way |
| VersionOrder.LessEqTransitive | main.py:110 | `<=` on strings is transitive |
| VersionOrder.Insert | main.py:110 | inserting into a sorted list keeps it sorted and adds exactly the element |
| VersionOrder.Sort | main.py:110 | `list.sort()`: the result is ascending and a permutation of the input |
| VersionOrder.SortedPermutationUnique | main.py:110 | two sorted permutations of the same list are equal, so any correct sort gives this result |
| VersionOrder.TokenOrderIsNumeric | main.py:110 | for tokens, string `<` holds iff the (major, minor) release number is smaller, and equality iff both numbers agree |
| VersionOrder.SortedTokensLastIsNewest | main.py:110 | in a sorted nonempty token list, no element is a newer release than the last |
| VersionOrder.SortKeepsMembers | main.py:110 | `sort()` keeps exactly the members of the list, so `in` before and after the sort agree |
| VersionOrder.SortedLastIsNewest | main.py:110 | after sorting a nonempty token list, `[-1]` is one of its tokens and no token is a newer release |
| SizeFormat.SizeOf | main.py:63-68 | specification of `sizeof_fmt`: the value divided by 1024 as often as the unit choice says, with that unit; its properties are `SizeOfChoosesSmallestUnit`, `SizeOfKeepsSign`, `UnitExponentMonotonic` and the loop `SizeofFmt` |
| SizeFormat.ExponentFrom | main.py:64-67 | the first unit index from `i` on where the scaled magnitude is below 1024, or 8 |
| SizeFormat.UnitExponent | main.py:64-67 | the number of divisions is the smallest `k < 8` with magnitude below 1024, or 8 when there is none |
| SizeFormat.UnitExponentUnique | main.py:64-67 | that characterisation has exactly one solution |
| SizeFormat.SizeofFmt | main.py:63-68 | the loop, with its early return and its `Yi` fall-through, returns exactly `SizeOf(num, suffix)` |
| SizeFormat.SizeOfChoosesSmallestUnit | main.py:64-68 | the value shown is `num / 1024^k` with unit prefix then suffix, below 1024 in magnitude unless the unit is `Yi`, every smaller unit too small, and at least 1 for all units after plain bytes |
| SizeFormat.SizeOfKeepsSign | main.py:65-67 | the magnitude is compared but the signed value divided: the sign and zero are kept |
| SizeFormat.UnitExponentMonotonic | main.py:64-67 | a larger magnitude never gets a smaller unit |
| SizeFormat.SizeOfExamples | main.py:63-68 | 0 → 0 B, 1024 → 1 KiB, 1536 → 1.5 KiB, 1024^4 → 1 TiB, -2048 → -2 KiB, 1024^9 → 1024 YiB |
| TagStyling.Replace | main.py:85-89 | specification of one `str.replace(pat, rep)`: every non-overlapping occurrence from the left replaced; used by `StyleTableIsOnePass` |
| TagStyling.StyleTable | main.py:84-89 | specification of the chain of five `replace` calls; its properties are `StyleTableIsOnePass`, `StyledTableHasNoBareTags`, `StyledCellsCarryStyle` and `StyleTableKeepsPlainText` |
| TagStyling.Rewrite | main.py:84-89 | the single left-to-right pass over the five rules that `StyleTableIsOnePass` proves equal to the chain |
| TagStyling.FirstRuleFrom | main.py:84-89 | the first rule from index `k` on whose pattern starts the text, or none |
| TagStyling.RewriteKeepsTextWithoutTags | main.py:84-89 | a replace pass whose patterns all start with `<` leaves text without `<` unchanged |
| TagStyling.RewriteAppend | main.py:84-89 | a replace pass splits over a concatenation whose right part starts at a tag |
| TagStyling.StyleTableIsOnePass | main.py:84-89 | the five `replace` calls in their order equal a single pass over the five rules: no call creates or destroys a match for a later one |
| TagStyling.StyledTableHasNoBareTags | main.py:84-89 | no `<table>`, `<th>` or `<td>` is left in the styled markup |
| TagStyling.StyledCellsCarryStyle | main.py:86-88 | every `<th style="` and `<td style="` in the output is followed by the inline style |
| TagStyling.StyleTableKeepsPlainText | main.py:84-89 | markup without any `<` passes through unchanged |
| StatusReport.StatusLine | main.py:58 | specification of one status line `- <last 6 of hash>: <name> (<state>)` with CRLF, absent when the name is missing; see `StatusLineOneBreak` |
| StatusReport.StatusText | main.py:55-60 | specification of `get_torrent_status`: the lines concatenated in the client's order; see `StatusTextAppend`, `StatusTextDefined`, `StatusTextOneLinePerTorrent` |
| StatusReport.IsMedicat | main.py:77 | specification of the filter `"medicat" in torrent.get("name", "").lower()`; see `IsMedicatIgnoresCase` |
| StatusReport.LeechField | main.py:80 | specification of the last column `"<leechs> (<incomplete> total)"`; see `LeechFieldRoundTrip` |
| StatusReport.Row | main.py:79-80 | specification of one table row in header order: name, formatted size, state, ratio, formatted upload amount, seeds, leech field |
| StatusReport.MedicatRows | main.py:76-80 | specification of the collected rows; see `MedicatRowsCount`, `MedicatRowsSound`, `MedicatRowsComplete` and the loop `MedicatTorrentRows` |
| StatusReport.StatusHtml | main.py:71-89 | specification of `get_medicat_torrent_status_html`: the styled rendering of the rows; see `MedicatTorrentStatusHtml` |
| StatusReport.TorrentStatus | main.py:55-60 | the loop returns exactly `StatusText(ts)`; it fails when a torrent has no name |
| StatusReport.StatusTextAppend | main.py:57-58 | the text of a concatenation is the concatenated text: lines in the client's order |
| StatusReport.StatusTextDefined | main.py:58 | the text exists iff every torrent has a name |
| StatusReport.StatusLineOneBreak | main.py:58 | each line holds exactly one line feed, at its CRLF end |
| StatusReport.StatusTextOneLinePerTorrent | main.py:57-58 | as many lines as torrents when no field holds a line feed |
| StatusReport.MedicatHasName | main.py:77-79 | a torrent passing the name filter has a name, so `torrent.name` in the row succeeds |
| StatusReport.MedicatTorrentRows | main.py:76-80 | the loop returns exactly the specification rows `MedicatRows(ts)`, with both sizes formatted by `SizeofFmt` |
| StatusReport.MedicatRowsCount | main.py:76-80 | one row per MediCat torrent, each with the seven header columns |
| StatusReport.MedicatRowsSound | main.py:76-80 | every row is the row of a MediCat torrent of the list |
| StatusReport.MedicatRowsComplete | main.py:76-80 | every MediCat torrent of the list has its row |
| StatusReport.MedicatRowsAppend | main.py:76-78 | rows follow the client's order |
| StatusReport.IsMedicatIgnoresCase | main.py:77 | a torrent qualifies iff some 7 consecutive characters of its name (missing name read as "") spell "medicat" in either case |
| StatusReport.IsMedicatExamples | main.py:77 | "MediCat USB" qualifies; a torrent without a name does not |
| StatusReport.LeechFieldRoundTrip | main.py:80 | the last column `"L (I total)"` gives back both counts |
| StatusReport.MedicatTorrentStatusHtml | main.py:71-89 | the returned markup is the chain applied to the rendered rows, with no bare table, header or data tag |
| Notification.Interpolate | mail.py:45-50 | f-string interpolation shows "None" exactly for `None` and for the string "None": the two cannot be told apart in the mail |
| Notification.DisplayName | mail.py:21 | the name shown is "MediCat Torrent Updater" exactly when no value is passed or that very string is passed |
| Notification.Body | mail.py:26-47 | specification of the body f-string: the fixed template with both versions, the table and the name; its read-backs are the `BodyEmbeds*` lemmas and `BodyDeterminesTable` |
| Notification.Subject | mail.py:49 | specification of the Subject value `Medicat Update <old> -> <new>`; see `SubjectRoundTrip`, `SubjectRejection` |
| Notification.FromHeader | mail.py:50 | specification of the From value `"<name>" <<address>>`; see `FromRoundTrip`, `FromRejection` |
| Notification.ToHeader | mail.py:51 | specification of the To value, the recipients joined with ", "; see `ToHeaderShapes`, `ToHeaderRoundTrip`, `ToAccepted` |
| Notification.BodyEmbedsTable | mail.py:40-42 | the body carries the table verbatim at a place fixed by the template and the two versions |
| Notification.BodyEmbedsOldVersion | mail.py:26-33 | the body opens with the fixed greeting and carries the old version verbatim after it |
| Notification.BodyEmbedsNewVersion | mail.py:33 | the new version appears verbatim after the old version and the fixed text between them |
| Notification.BodyEmbedsName | mail.py:44-47 | the display name appears verbatim just before the fixed closing |
| Notification.BodyDeterminesTable | mail.py:40-42 | different tables give different bodies: nothing of the table is lost |
| Notification.SubjectRoundTrip | mail.py:49 | the subject gives back both versions when the old one holds no space |
| Notification.FromRoundTrip | mail.py:50 | the From header gives back name and address when the name holds no double quote |
| Notification.ToHeaderShapes | mail.py:51 | no recipients give an empty header, one recipient gives the address unchanged |
| Notification.SplitJoin | mail.py:51 | splitting a nonempty joined list at ", " gives the list back |
| Notification.ToHeaderRoundTrip | mail.py:51 | the To header names every recipient, in order, when none is empty or holds a comma |
| Notification.ComposedHeadersReadBack | mail.py:26-51 | the subject gives back both versions, From the name and address, To the recipients (under the round-trip conditions), and the body carries the old version, the new version, the table and the name verbatim at places fixed by the template |
| Notification.Compose | mail.py:12-57 | the composed mail: subject and headers read back, table verbatim in the body, HTML subtype, envelope sender and recipients as given |
| Notification.DisplayNameDefaults | mail.py:21-50 | with the parameter left out the mail is from "MediCat Torrent Updater"; with `None` passed it is from "None" |
| Text.Lower | main.py:77 | `str.lower()` over ASCII: same length, each character lowered, others unchanged (its own ensures); used by `IsMedicatIgnoresCase` |
| Text.LastN | main.py:58 | `s[-n:]`: the last `n` characters, or all of `s` when shorter (its own ensures) |
| Text.Join | main.py:113-117 | specification of `", ".join(...)` as used by the skip and progress lines and the To header (mail.py:51); see `ToHeaderShapes`, `SplitJoin` and `ToHeaderRoundTrip` |
| Text.LineCount | mail.py:49-51 | specification of `len(value.splitlines())` over Python's line boundaries (LF, CR, CRLF as one, VT, FF, FS, GS, RS, NEL, LS, PS) |
| Text.SeveralLines | mail.py:49-51 | `splitlines()` gives more than one line exactly when some line break is followed by more text |
| Text.HasInnerBreakIff | mail.py:49-51 | the recursive scan `HasInnerBreak` that decides header rejection finds exactly such a break |
| Notification.HeaderRejected | mail.py:49-51 | specification of the email policy's refusal of a header value that `splitlines()` breaks into several lines; characterised by `SeveralLines` with `HasInnerBreakIff`, and per header by `SubjectRejection`, `FromRejection` and `ToAccepted` |
| Notification.HeadersAccepted | mail.py:49-51 | specification of all three header assignments succeeding; see `ComposeAccepted` |
| Notification.SubjectRejection | mail.py:49 | with an old version on one line, setting Subject raises exactly when the new version spans several lines |
| Notification.FromRejection | mail.py:50 | setting From raises exactly when the display name or the sender address holds any line break |
| Notification.ToAccepted | mail.py:51 | recipients without line breaks give a To value that is accepted |
| Notification.ComposeAccepted | mail.py:49-51 | all three header assignments succeed only if the new version is one line and name and address hold no break; they do succeed when in addition no recipient holds one |
| Pipeline.SkipMessage | main.py:113-114 | specification of the skip line `Skip: Version <v> is already in torrent (<sorted versions joined by ", ">)!`; carried by `AlreadyPresent`, see `SkipIffAlreadyPresent` and `RunSkipsOrFails` |
| Pipeline.ProgressMessage | main.py:117 | specification of the line `-- Version <v> is not yet in qBittorrent (<sorted versions joined by ", ">)!!`; every adding outcome carries it, see `DecideOutcomes`, `SkipIffAlreadyPresent` and `RunAddsNewerVersion` |
| Pipeline.DisplayNameOf | main.py:125 | specification of `config.get("sender_displayname")`: always passed, `None` when the key is missing; see `DisplayNameNeverDefault` |
| Pipeline.PreviousVersion | main.py:123 | specification of `torrent_medicat_versions[-1]` after the sort; see `PreviousVersionIsNewest` |
| Pipeline.Run | main.py:100-125 | specification of the `__main__` block after the client is built: extraction, the exit on empty values, sort, skip, progress, addition, `[-1]` and the mail step; its properties are the lemmas below |
| Pipeline.Deliver | main.py:122-125 | specification of the `send_notification` call: `ValueError` at a header assignment (`MailRejected`) or the mail sent (`Notified`); see `MailRejectedWhen` |
| Pipeline.Decide | main.py:109-125 | specification of the run past its extraction check; see `DecideOutcomes` |
| Pipeline.ExtractionOutcomes | main.py:101-107 | the run crashes iff a node is missing, before the check at line 105; that check never fires |
| Pipeline.RunDecides | main.py:104-112 | with both nodes found the run goes on to the skip test with the sorted client versions |
| Pipeline.DecideOutcomes | main.py:109-125 | past the extraction check, for any version list: skip iff the version is in it, `[-1]` crash iff it is new and the list empty, the mail step iff it is new and the list non-empty; every non-skip outcome carries the magnet link and the progress line |
| Pipeline.SkipIffAlreadyPresent | main.py:109-123 | skip iff the thread text equals a client token; fail after adding iff the token is new and the client has none; otherwise the mail step; every run that adds reports the progress line over the sorted versions and adds the thread's magnet link |
| Pipeline.RunDelivers | main.py:116-125 | with a new version and a non-empty inventory the run ends in the mail step for the composed mail with the thread version and `[-1]` |
| Pipeline.MailRejectedWhen | main.py:122-125 | after the addition the run fails in `send_notification` when the thread version spans several lines or the display name or sender address holds a break, and notifies when none of that holds and no recipient holds a break |
| Pipeline.MultiLineVersionRejected | main.py:101-125 | a new thread version over several lines is reported and added, and the run then fails on the subject header |
| Pipeline.TrailingTextAlwaysAdds | main.py:102-112 | a thread node with text after the token (e.g. "v21.08 Final") is never skipped |
| Pipeline.PreviousVersionIsNewest | main.py:110-123 | the version the mail names as replaced is a client version and the newest by release number |
| Pipeline.NotifiedMail | main.py:123-125 | a notifying run sends the mail composed from the thread version, the replaced version and the styled table |
| Pipeline.NotificationContents | main.py:122-125 | the mail's subject gives back (replaced, new); the body carries the styled table verbatim, without bare tags; the envelope uses the configured sender and recipients |
| Pipeline.DisplayNameNeverDefault | main.py:123-125 | the main block never leaves the display name to its default; a missing key shows "None" in From |
| Pipeline.ExampleMultiLineThread | main.py:36-37 | a version node "v21.08\nDownload" is taken whole, line break included |
| Pipeline.ExampleMultiLineVersion | mail.py:49 | that value is refused as a header value and is none of the tokens v20.12, v20.01 |
| Pipeline.RunAddsNewerVersion | main.py:101-125 | a thread on v21.08 with client tokens v20.12 and v20.01 reports v21.08 as missing from (v20.01, v20.12), adds the magnet link and goes on to the mail step |
| Pipeline.RunAnnouncesNewerVersion | main.py:101-125 | with a single-line configuration that run sends the mail composed for v21.08 replacing v20.12, with subject "Medicat Update v20.12 -> v21.08" |
| Pipeline.RunSkipsOrFails | main.py:109-123 | a thread on v20.12 is skipped when the client has it; with no client token the run reports the progress line and fails after adding |

## Left out

- HTTP fetching, Cloudflare handling and HTML parsing: the thread enters as its text nodes in document order. The debug copy `thread.html` and `fake_request_thread` are also out.
- The qBittorrent RPC calls: `torrents_info` results enter as inputs, and `torrents_add` is an outcome value. The client's `sort="name"` ordering is the client's; the rows keep whatever order the client returns.
- `tabulate`: the renderer is a function parameter, so no property of its markup is assumed.
- SMTP delivery (STARTTLS, login, port 587, sending) and the console messages of the mail module. The model stops at the composed message and its envelope.
- `EmailMessage.set_content`: the body is the f-string's text. The transfer encoding, the line-ending normalisation and the MIME headers that `set_content` adds are not modelled.
- Python's email policy: of its header checks only the multi-line `ValueError` is modelled. Header folding, the encoding of non-ASCII text and the parsing of addresses are not.
- Notification.ToAccepted: only one direction is stated. Recipients without breaks are accepted. A recipient with a break may or may not be refused; a break at the very end of the last address passes.
- Reading `config.json` and constructing the client: the mail-related values are inputs. `sys.exit` and three exceptions are outcome values of `Pipeline.Run`: the missing node (`.string` on `None`), `[-1]` on an empty list, and the header `ValueError`. Other exceptions (network, RPC, SMTP) are not modelled.
- SizeFormat.SizeofFmt: the `%3.1f` / `%.1f` decimal rendering of the value is not modelled; the value is returned as an exact real with its unit. Python floats are also taken as exact. Dividing by 1024 is exact in binary floating point, but byte counts above 2^53 would round on conversion.
- Torrent ratio: carried as the client's value; its float rendering by `tabulate` is not modelled.
- Unicode: `\d` and `str.lower()` are taken over ASCII only.
- VersionOrder.Sort: Python's own sorting algorithm is not modelled. Sort is an insertion sort, and `VersionOrder.SortedPermutationUnique` shows every correct sort gives the same list.
- Console output: the skip line and the progress line (main.py:113-117) are kept as strings in the outcome. The fixed line `-- Adding now...`, the error line before `sys.exit(1)` and `print(resp)` after adding are left out.
