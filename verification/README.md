# dig-app core: a verified model

A Dafny 4.11 model of the self-contained algorithms of the dig-app desktop agent, with proofs of what
each is for. `dafny verify dfyconfig.toml` checks the whole project. One module per source file or
component; `Wrappers`, `Text`, `Utf8`, `Decimal`, `Arithmetic` and `Clock` hold what several of them share.

- **`Envelope`, `SealedBox`**: the `DIGCHAT1` chat envelope, a length-prefixed big-endian format read by a
  bounds-checked cursor, and sealing and opening it. X25519 (section 6.1 of RFC 7748), HKDF (section 2 of
  RFC 5869) and XChaCha20-Poly1305 are values of a record with the laws they are used through; the laws are
  shown to hold together for one such record (`SealedBox.LawsHaveAnInstance`). Bytes, lengths, order of checks
  and UTF-8 (section 4 of RFC 3629) are concrete.
- **`Amount`**: base units to whole-coin decimals and back, with the machine's integer widths.
- **`HttpReply`**: one HTTP/1.1 reply (sections 4, 5 and 6.3 of RFC 9112) read under three header budgets
  and a body cap, from a stream that may never end.
- **`Endpoints`, `NodeDial`**: which nodes are asked, the host and port an endpoint names, and which addresses a
  name is allowed to be dialled at, in what order.
- **`Poller`**: the node pollers' cache, filled by worker threads while the link connects, changes and drops.
  Each critical section is one step, and any interleaving of steps is a run. One model serves both pollers.
- **`PhaseStamps`**: the scanner that finds the lines of Rust test items, and the stamps outside them.
- **`AutoUpdate`**: the throttled updater status, and the elevated command line.
- **`Hotkeys`, `Link`, `SpendDecode`, `Activation`, `NetworkBadge`**: chords, links, the figures shown for a
  spend, the activation gates, and the catch-up badge.

Where the source changes state, so does the model: a class or a loop, proved against a specification
function, and the promises are lemmas about that function. A time is a number of nanoseconds. What the
outside world decides (sockets, name resolution, clocks, thread spawning, the file system, CLVM execution)
is a parameter or a step.

## Where the code and its promises part

Each of these is a lemma below: a concrete case, the exact condition under which the promise holds, or both.

- The amount parser casts the fraction's length to 32 bits, so a fraction whose length wraps to few enough
  places is read instead of refused (`Amount.ParseIsExact`, `Amount.WrappedLengthIsAccepted`).
- A status or header line past the limit is refused as too long only when the limit falls between
  characters; inside a multi-byte character it is reported as unreadable (`HttpReply.OverlongText`,
  `HttpReply.StraddlingLineIsUnreadable`).
- A poller's worker that outlives a disconnect records after it, and that reading is shown on reconnecting;
  another endpoint's late worker blanks a held answer (`Poller.LateReadingsExactly`, `Poller.BlankedExactly`).
- The updater cache's `refresh` fetches before it takes the lock, so one that lands late puts an older
  reading back and the next read fetches again at once (`AutoUpdate.CrowdedExactly`,
  `AutoUpdate.LateRefreshCrowdsFetches`).
- The shortcut's documentation says every value round-trips through its display. One on the letter F does
  not: a lone `F` is taken for a function key (`Hotkeys.RoundTripsUnlessLetterF`).
- The hand-off file's removal may fail and that is ignored, so the same hand-off may open its route again
  (`Activation.OpensAgainExactly`, `Activation.UnremovedOpensTwice`). The file is read and then dated by name,
  so a file that is too old opens its route when a newer one lands in between (`Activation.StaleOpensExactly`).
- The catch-up distance is documented as never consulting the phase; a phase the app does not know withholds
  the height, and with it the distance (`NetworkBadge.DistanceShownExactly`).

The envelope encoder writes a ciphertext of 2^32 bytes or more with its length cut to 32 bits, and its wire is
then refused (`Envelope.WrittenParses`). Nothing can reach that: sealing is its only caller, and the plaintext
cap keeps every ciphertext it passes far below (`SealedBox.OpenUndoesSeal`).

## Model

| member | source | states |
|---|---|---|
| Envelope.BuildAssociatedData | crates/dig-app-core/src/digchat.rs:141-153 | The header bytes the AEAD covers are, in order, magic, version, suite, both length-prefixed DIDs and the ephemeral key |
| Envelope.EncodeEnvelope | crates/dig-app-core/src/digchat.rs:186-213 | The wire is that header, then nonce, four-byte length and ciphertext; a DID that is empty or over 512 bytes is refused and nothing else is |
| Envelope.Reader.Take | crates/dig-app-core/src/digchat.rs:224-235 | The cursor moves by exactly what it took, stays put on a refusal, and never passes the end, on any bytes |
| Envelope.Reader.TakeU16 | crates/dig-app-core/src/digchat.rs:241-244 | Two octets big-endian, or the field's own refusal, with the cursor as for `Take` |
| Envelope.Reader.TakeU32 | crates/dig-app-core/src/digchat.rs:246-249 | Four octets big-endian, or the field's own refusal, with the cursor as for `Take` |
| Envelope.Reader.TakeDid | crates/dig-app-core/src/digchat.rs:252-261 | A DID of 1 to 512 bytes of valid UTF-8, or the refusal of the first thing wrong with it |
| Envelope.DecodeEnvelope | crates/dig-app-core/src/digchat.rs:269-306 | The cursor's parse is the field-by-field reading of the bytes, refusals included |
| Envelope.WrittenParses | crates/dig-app-core/src/digchat.rs:269-306 | The wire of any envelope with valid DIDs, with anything appended, decodes to that envelope just when nothing is appended and the ciphertext is under 2^32 bytes, and is otherwise refused as trailing bytes |
| Envelope.ParsedIsWritten | crates/dig-app-core/src/digchat.rs:269-306 | Whatever decodes is the wire of what it decodes to, so no two byte strings decode alike |
| Envelope.ParseExactlyTheWire | crates/dig-app-core/src/digchat.rs:186-306 | Encoder and decoder are exact inverses: bytes decode to an envelope just when it is sendable and they are its wire |
| Envelope.TruncationNamesTheField | crates/dig-app-core/src/digchat.rs:224-306 | Every strict prefix of a wire is refused, with the name of the field it was cut in |
| Envelope.PreambleRefusals | crates/dig-app-core/src/digchat.rs:269-281 | Each refusal over the first ten octets has exactly its own condition: too few for the magic, the version or the suite, or the wrong ones |
| Envelope.AddressRefusals | crates/dig-app-core/src/digchat.rs:252-291 | Past the preamble a DID cut short is refused under its own side's name and an impossible one as a bad DID, each exactly; with both read, what is left to refuse is the body |
| Envelope.BodyRefusals | crates/dig-app-core/src/digchat.rs:285-298 | Key, nonce, length, ciphertext and trailing bytes: each refusal exactly by how many octets there are against the length stated |
| Envelope.DidAtExactly | crates/dig-app-core/src/digchat.rs:252-261 | A DID field is read just when it is two octets of length and that many of the DID's own; cut short and bad are told apart |
| Envelope.BigEndian | crates/dig-app-core/src/digchat.rs:241-249 | Lengths are most significant octet first in both widths, read and written |
| Envelope.AssociatedDataInjective | crates/dig-app-core/src/digchat.rs:141-153 | Sender, recipient and ephemeral key can be told apart from the header bytes alone |
| SealedBox.SealWith | crates/dig-app-core/src/digchat.rs:335-376 | Sealing gives the wire of the sealed envelope, or the first refusal in the source's order |
| SealedBox.Open | crates/dig-app-core/src/digchat.rs:385-411 | Opening is the parser's refusal or the AEAD's verdict over the header that was parsed |
| SealedBox.SealedExactly | crates/dig-app-core/src/digchat.rs:335-376 | A message seals to an envelope just when it and its DIDs are within their limits and the ciphertext is its encryption, under the key expanded from the shared secret, the ephemeral key and the recipient's key, with the header; each refusal has its own condition |
| SealedBox.NamesSpelled | crates/dig-app-core/src/digchat.rs:50-68 | The magic and the derivation's info string are the octets of the texts they spell |
| SealedBox.AnotherSecretNeedsACollision | crates/dig-app-core/src/digchat.rs:160-173 | If a secret with another public key opens a sealed wire, the derivation takes one value on two different 96-byte inputs, or one ciphertext is an encryption under two keys |
| SealedBox.KeyMaterialInjective | crates/dig-app-core/src/digchat.rs:160-173 | The derivation's input names the secret and both public keys unambiguously |
| SealedBox.OpenUndoesSeal | crates/dig-app-core/src/digchat.rs:335-411 | Every permitted plaintext seals into a wire that fits the 64 KiB frame, and the recipient opens exactly that plaintext and header |
| SealedBox.OpenedExactly | crates/dig-app-core/src/digchat.rs:385-411 | A wire opens to a header and message just when it is that header's wire and its ciphertext is that message's encryption under it and under the key expanded from the shared secret, the ephemeral key and the recipient's own |
| SealedBox.RefusedExactly | crates/dig-app-core/src/digchat.rs:385-411 | A wire is refused as not authentic if and only if it is an envelope's wire and no message encrypts to its ciphertext under that header; every other refusal is the parser's own |
| SealedBox.ReaddressingNeedsACollision | crates/dig-app-core/src/digchat.rs:141-153 | A sealed body under any other header that opens exhibits one nonce and ciphertext encrypting under two different headers |
| SealedBox.ReaddressedIsNotAuthentic | crates/dig-app-core/src/digchat.rs:385-411 | Under an AEAD whose ciphertext commits to its header, changing sender, recipient or ephemeral key opens to the authenticity refusal |
| Amount.FormatIsExactAndCanonical | crates/dig-app-core/src/amount.rs:197-206 | The figure denotes exactly the amount and has no superfluous zero and no bare point |
| Amount.ParseIsExact | crates/dig-app-core/src/amount.rs:261-307 | On every text and asset the answer is the one owed (the exact value, or the refusal on its own condition) if and only if the fraction's length does not wrap to fewer places |
| Amount.ParseIsExactOnShortText | crates/dig-app-core/src/amount.rs:261-307 | Every text under 2^32 characters gets the answer owed |
| Amount.OwedUnique | crates/dig-app-core/src/amount.rs:213-307 | At most one answer is owed for a text, so the refusals exclude one another and the value is determined |
| Amount.WrappedLengthIsAccepted | crates/dig-app-core/src/amount.rs:283-300 | 2^32 zeros after a point read as 0 XCH where a refusal is owed |
| Amount.CastLengthExactly | crates/dig-app-core/src/amount.rs:283-307 | What any fraction whose length passes the cast is read as, exactly: its number scaled by what the cast length leaves and cut to 128 bits, too large only past 128 bits by itself or 64 in all |
| Amount.ScaledFractionFits | crates/dig-app-core/src/amount.rs:283-300 | Within the asset's places no unchecked 128-bit product can overflow |
| Amount.ParseOfFormat | crates/dig-app-core/src/amount.rs:71-73 | For XCH and $DIG and every 64-bit amount, the figure shown reads back as the amount |
| Amount.ParseOfBaseUnits | crates/dig-app-core/src/amount.rs:173-187 | For a token of unknown precision the bare integer reads back as itself |
| Amount.CanonicalUnique | crates/dig-app-core/src/amount.rs:197-206 | Two canonical texts that denote one amount are one text |
| Amount.FormatIsNormalForm | crates/dig-app-core/src/amount.rs:197-307 | Formatting what a text reads as gives that text's one canonical form |
| Amount.PhraseInjective | crates/dig-app-core/src/amount.rs:173-187 | Two amounts of one asset are never worded alike |
| Amount.WholeCoinsRead | crates/dig-app-core/src/amount.rs:49-307 | So many whole coins read as that many times 10^12 for XCH, 1000 for $DIG and 1 for any other, or are too large for 64 bits |
| Amount.WholeCoinsShown | crates/dig-app-core/src/amount.rs:49-206 | And are shown as that many again, under the asset's own name |
| Amount.SmallestUnitShown | crates/dig-app-core/src/amount.rs:49-206 | One base unit is 0.000000000001 XCH and 0.001 $DIG |
| Amount.ShortIdExactly | crates/dig-app-core/src/amount.rs:137-165 | A long asset id is shown as its first six characters, an ellipsis and its last six, a short one whole |
| HttpReply.Connection.ReadBoundedLine | crates/dig-app-core/src/control.rs:833-848 | One line within the limit, or the first of read error, bad text and overlength; at most LINE + 1 bytes go |
| HttpReply.Connection.ReadHeaders | crates/dig-app-core/src/control.rs:873-890 | Headers are read to the first blank line within count and byte sum; at most BLOCK + LINE + 1 bytes go |
| HttpReply.Connection.ReadHttpBody | crates/dig-app-core/src/control.rs:866-909 | The reply as specified, having consumed at most 2(LINE + 1) + BLOCK + BODY + 1 bytes of any stream |
| HttpReply.ReceivedExactly | crates/dig-app-core/src/control.rs:866-909 | A code and body are received if and only if the whole stream is a status line with that code, header lines, a blank line or the end, and that body, all within bounds |
| HttpReply.ReplyExactly | crates/dig-app-core/src/control.rs:866-909 | A body is returned just for an in-bounds 2xx reply, and the refusal by code is exactly an in-bounds reply with another code |
| HttpReply.StatusExactly | crates/dig-app-core/src/control.rs:912-923 | A status line is read as a code just when its second word is that number below 2^16, in digits with a plus sign or none; a line without one is malformed |
| HttpReply.StatusReadsBack | crates/dig-app-core/src/control.rs:912-923 | The status line of every code below 2^16, with any reason phrase, reads back as that code |
| HttpReply.StatusRefused | crates/dig-app-core/src/control.rs:866-870 | A status line that cannot be read: a stalled node, a lost link or an overlong line, each exactly |
| HttpReply.CodeRefused | crates/dig-app-core/src/control.rs:871-923 | A status line without a code is a bad response whatever follows it |
| HttpReply.HeadersRefused | crates/dig-app-core/src/control.rs:873-890 | After a status line with a code, a header block that is refused refuses the reply with the same reason |
| HttpReply.HeadersExactly | crates/dig-app-core/src/control.rs:873-890 | How a header block ends or why it is refused, told from the line at which count, byte sum, a blank line or an unreadable one stops it |
| HttpReply.HeadersStop | crates/dig-app-core/src/control.rs:873-890 | Every header block stops at some line |
| HttpReply.BodyDecides | crates/dig-app-core/src/control.rs:892-908 | Past the headers the octets that come decide: too many are refused for size, a broken stream as malformed, and then the code |
| HttpReply.LineExactly | crates/dig-app-core/src/control.rs:833-848 | One line's outcome told from the octets that come: a socket error first, then unreadable text, then the length, then the line |
| HttpReply.ReadingExists | crates/dig-app-core/src/control.rs:833-848 | On any stream there is such a run of octets |
| HttpReply.LineIsRead | crates/dig-app-core/src/control.rs:833-848 | A line the stream has, ended by a newline, the budget or the end, is read as itself |
| HttpReply.LineWasDelivered | crates/dig-app-core/src/control.rs:833-848 | What was read as a line is one, and is what the stream had there |
| HttpReply.OverlongLine | crates/dig-app-core/src/control.rs:833-848 | A line past the limit is too long when what was read is whole characters, and unreadable otherwise |
| HttpReply.OverlongText | crates/dig-app-core/src/control.rs:833-848 | Of readable text past the limit: refused as too long if and only if one of its characters ends where the reading stops, and as unreadable otherwise |
| HttpReply.StraddlingLineIsUnreadable | crates/dig-app-core/src/control.rs:833-848 | A line of readable text whose last character straddles the limit is refused as unreadable |
| HttpReply.PrefixDecides | crates/dig-app-core/src/control.rs:866-909 | Streams alike for the first 8413187 bytes get one answer, so an endless one is answered too |
| HttpReply.SizeOutranksTheCode | crates/dig-app-core/src/control.rs:892-907 | A body past the cap is refused for its size whatever the code and whether or not it ends |
| NodeDial.CandidatesExactly | crates/dig-app-core/src/control.rs:733-746 | An address may be dialled just when the name resolves to it and it is loopback or the user's own choice of host |
| NodeDial.GuessedExactly | crates/dig-app-core/src/control.rs:708-715 | The guessed hosts are dig.local and localhost in any case, with any number of dots after them, and no others |
| NodeDial.KeptOneByOne | crates/dig-app-core/src/control.rs:738-746 | Keeping loopback addresses, or one family, decides each address by itself and keeps their order and repetition |
| NodeDial.Connect | crates/dig-app-core/src/control.rs:727-762 | Filtering, ordering and trying the addresses in place reaches and dials what the specification says, with each refusal, whatever each attempt meets |
| NodeDial.CandidatesInOrder | crates/dig-app-core/src/control.rs:746 | Every IPv6 candidate precedes every other, and each family keeps the resolver's order |
| NodeDial.PreferredKeeps | crates/dig-app-core/src/control.rs:746 | Ordering the addresses loses none and adds none |
| NodeDial.AnsweredExactly | crates/dig-app-core/src/control.rs:362-375 | An endpoint answers what its first candidate to accept says, nobody after that one being dialled; the unreachable and bad-endpoint refusals each have their own condition |
| NodeDial.ResolveStatus | crates/dig-app-core/src/control.rs:590-603 | The first tier that answers, dialling nothing past it; or every tier's own failure in order; each tier in a world of its own |
| NodeDial.DialledExactly | crates/dig-app-core/src/control.rs:590-603 | What a walk down the ladder dials is what its tiers dial, and all of that |
| NodeDial.NothingDialled | crates/dig-app-core/src/control.rs:362-375 | An endpoint that names nothing, or whose host does not resolve, is not dialled |
| NodeDial.GuessedHostsStayLocal | crates/dig-app-core/src/control.rs:708-745 | In any world, a guessed host is dialled on this machine only |
| NodeDial.LadderStaysLocal | crates/dig-app-core/src/control.rs:226-234 | With no node configured, or a blank one, no tier in any world dials anything off this machine |
| Endpoints.SplitsExactly | crates/dig-app-core/src/control.rs:931-967 | An endpoint names a host and port if and only if it spells http or https, an authority that names them (by default on port 80 or 443), and a path, query or fragment or nothing |
| Endpoints.RefusedExactly | crates/dig-app-core/src/control.rs:931-960 | No scheme, an unsupported one, no host, and a port that is not one: each refusal exactly on its own condition |
| Endpoints.HostReadsBack | crates/dig-app-core/src/control.rs:931-960 | A host reads back from http and from https, on the port given or else on 80 or 443, whatever follows |
| Endpoints.Ipv6Literal | crates/dig-app-core/src/control.rs:931-967 | A bracketed literal keeps its colons and loses its brackets, in either scheme, with a port or without |
| Endpoints.FinalSlashesMeanNothing | crates/dig-app-core/src/control.rs:239-246 | Dropping an endpoint's final slashes changes nothing it names |
| Endpoints.ConfiguredNodeAlone | crates/dig-app-core/src/control.rs:226-246 | A configured node is asked alone; with a scheme it is the node its text names, without one the node that text names over http |
| Endpoints.NormalizedExactly | crates/dig-app-core/src/control.rs:226-246 | A configured text is asked as typed, white space and final slashes apart, with http:// before it just when it has no :// |
| Endpoints.StripBracketsExactly | crates/dig-app-core/src/control.rs:963-967 | A host loses the opening brackets before it and the closing ones after it, and nothing else |
| Endpoints.LocalTiers | crates/dig-app-core/src/control.rs:226-234 | With no node configured, or a blank one, the tiers are http://dig.local and http://localhost:9778, which name those hosts on ports 80 and 9778 |
| Poller.NodePoller.StartRead | crates/dig-app-core/src/probe.rs:120-150 | A read starts exactly when its endpoint is unclaimed and a thread is had; a refused spawn leaves no claim |
| Poller.NodePoller.Observe | crates/dig-app-core/src/hosted_stores.rs:314-338 | One observation's answer, whether it starts a read, and the whole state it leaves |
| Poller.NodePoller.Record | crates/dig-app-core/src/hosted_stores.rs:341-355 | A worker's reading replaces whatever is held, tagged with the worker's endpoint |
| Poller.NodePoller.Release | crates/dig-app-core/src/probe.rs:83-98 | Exactly the worker's claim is given back, whether it returned or unwound |
| Poller.RunKeeps | crates/dig-app-core/src/hosted_stores.rs:243-355 | After any run: one live worker per claimed endpoint, every reading traced to the observation that started its worker, and the cache is the last recording since a disconnect |
| Poller.AnswersExactly | crates/dig-app-core/src/network.rs:762-858 | In any interleaving, observing an endpoint shows a reading if and only if the newest recording since the last disconnect holds it and was made for that endpoint |
| Poller.HeldUntilReplaced | crates/dig-app-core/src/hosted_stores.rs:259-338 | A held answer survives a step if and only if it is neither a disconnect nor another endpoint's recording |
| Poller.NoBlink | crates/dig-app-core/src/hosted_stores.rs:314-355 | Over any run without those, an answer once held is never pending again |
| Poller.ReadsDoNotOverlap | crates/dig-app-core/src/probe.rs:46-98 | Of two reads of one endpoint the first one's worker is gone before the second starts |
| Poller.ReadsAreSpaced | crates/dig-app-core/src/hosted_stores.rs:314-338 | A read starts only when no reading shown for its endpoint is younger than the refresh interval |
| Poller.StartedExactly | crates/dig-app-core/src/hosted_stores.rs:314-355 | An observation that can have a thread starts a read if and only if every earlier worker for its endpoint has been released and no reading shown for it is younger than the interval |
| Poller.FreshExactly | crates/dig-app-core/src/hosted_stores.rs:320-329 | A reading keeps the next one away if and only if it is shown and younger than the interval |
| Poller.ClaimedExactly | crates/dig-app-core/src/probe.rs:50-60 | An endpoint is claimed if and only if some worker started for it has not been released |
| Poller.LiveExactly | crates/dig-app-core/src/probe.rs:120-150 | The workers alive after a run are those started and not yet released, and which have recorded is told from the steps |
| Poller.PossibleExactly | crates/dig-app-core/src/probe.rs:120-150 | What can happen next: any observation, one recording of a live worker, one release of it |
| Poller.LateReadingsExactly | crates/dig-app-core/src/hosted_stores.rs:314-355 | After a disconnect some continuation shows a reading begun before it if and only if, at the disconnect, a worker for that endpoint is alive that has not recorded |
| Poller.BlankedExactly | crates/dig-app-core/src/hosted_stores.rs:259-355 | While the link stays put a held answer can turn pending if and only if another endpoint's worker is alive that has not recorded |
| Poller.LateWorkerIsShown | crates/dig-app-core/src/hosted_stores.rs:341-355 | A run in which a reading begun before a disconnect is shown after it |
| Poller.LateWorkerBlanks | crates/dig-app-core/src/hosted_stores.rs:259-272 | A run in which another endpoint's late worker turns a held answer back to pending |
| PhaseStamps.StripLineComment | scripts/check-phase-stamps.py:67-91 | The two-flag character scan cuts at the first comment start outside a string |
| PhaseStamps.StrippingIsIdempotent | scripts/check-phase-stamps.py:67-91 | What is kept has no unquoted `//`, is cut nowhere but at one, and strips to itself |
| PhaseStamps.CommentExactly | scripts/check-phase-stamps.py:67-91 | A comment starts exactly at a double slash with every string before it closed, backslash pairs passed over inside them |
| PhaseStamps.CodeExactly | scripts/check-phase-stamps.py:67-91 | A line's code runs up to its first comment, or to its end |
| PhaseStamps.AttrExactly | scripts/check-phase-stamps.py:58-145 | A line carries a test attribute just when its code, stripped of white space, starts with one |
| PhaseStamps.TestAttrExactly | scripts/check-phase-stamps.py:58 | That start is `#[`, white space or none, and either `cfg(test)` or the whole word `test` |
| PhaseStamps.SpaceExactly | scripts/check-phase-stamps.py:145 | White space is Unicode's and the four information separators |
| PhaseStamps.FindTestLineNumbers | scripts/check-phase-stamps.py:123-178 | The scan with its depth, armed start and backfill marks exactly the specified lines |
| PhaseStamps.CountIsMultiplicity | scripts/check-phase-stamps.py:164-172 | A character is counted as often as it occurs |
| PhaseStamps.BalanceIsExcess | scripts/check-phase-stamps.py:164-172 | The running depth is the number of opening braces less the closing ones in the lines' own text |
| PhaseStamps.ShapesExactly | scripts/check-phase-stamps.py:149-156 | A line decides an item's shape just when it has a brace or a semicolon, and opens a scope just when a brace comes first |
| PhaseStamps.MarksAreItems | scripts/check-phase-stamps.py:123-178 | Those lines are exactly the lines of the file's test items, declared by their first line with a brace or semicolon and by how many braces their text opens and closes |
| PhaseStamps.ItemsExist | scripts/check-phase-stamps.py:123-178 | Every file has such a list of disjoint items in order, with no attribute between them that any line decides |
| PhaseStamps.ItemsUnique | scripts/check-phase-stamps.py:123-178 | And only one |
| PhaseStamps.ClosingExact | scripts/check-phase-stamps.py:169-178 | A braced item ends with the first line by which its text has closed as many braces as it opened, or with the file |
| PhaseStamps.ProductionStamps | scripts/check-phase-stamps.py:181-192 | A variant is found just when a line of no test item carries it |
| AutoUpdate.BeaconCache.Read | crates/dig-app-core/src/auto_update.rs:493-511 | A read asks the source exactly when nothing is held or it has aged, and answers with what it then holds |
| AutoUpdate.BeaconCache.Refresh | crates/dig-app-core/src/auto_update.rs:517-526 | A refresh holds its own reading whatever was held |
| AutoUpdate.HeldIsLastStored | crates/dig-app-core/src/auto_update.rs:488-527 | In any run what is held is what the last storing step put there, and something is held once a step was taken |
| AutoUpdate.AnswersAreCurrent | crates/dig-app-core/src/auto_update.rs:488-527 | Every read in every run answers with the latest stored reading, absent ones included, taken less than the interval before |
| AutoUpdate.AskingNeedsAge | crates/dig-app-core/src/auto_update.rs:493-511 | A read asks just when the last reading stored is at least the interval old |
| AutoUpdate.StoresExactly | crates/dig-app-core/src/auto_update.rs:493-526 | A step stores a reading just when it is a refresh, comes first, or is a read that finds the last stored one five seconds old |
| AutoUpdate.FetchesSpan | crates/dig-app-core/src/auto_update.rs:460-527 | In every run, if n reads up to one that asks have asked, counted from one of them, n whole intervals lie between, less only what late refreshes dated the held reading back by |
| AutoUpdate.SpawnCountExactly | crates/dig-app-core/src/auto_update.rs:493-511 | The reads counted are the steps that ask, each once |
| AutoUpdate.SetbackExactly | crates/dig-app-core/src/auto_update.rs:517-526 | A step's deduction is how much earlier a refresh is dated than the reading it replaces, and nothing otherwise |
| AutoUpdate.TotalsAdd | crates/dig-app-core/src/auto_update.rs:488-527 | The deductions of one stretch after another add up |
| AutoUpdate.NothingDatedBack | crates/dig-app-core/src/auto_update.rs:488-527 | That deduction is nothing without refreshes, at whatever times, and nothing when times never go back |
| AutoUpdate.CrowdedExactly | crates/dig-app-core/src/auto_update.rs:493-526 | A read taken next can ask within an interval of the last that asked if and only if the reading held is dated before that one, and then a late refresh stored it |
| AutoUpdate.LateRefreshCrowdsFetches | crates/dig-app-core/src/auto_update.rs:517-526 | A refresh that lands late restores an older reading and two reads at one instant both fetch |
| AutoUpdate.ElevatedCommand | crates/dig-app-core/src/auto_update.rs:377-420 | On Windows the command text is a function of the argument count alone, and the values travel in the environment; Linux passes them as arguments; nothing else is offered |
| AutoUpdate.NamesDistinct | crates/dig-app-core/src/auto_update.rs:336-339 | The generated variable names are pairwise distinct even where case is ignored |
| AutoUpdate.ReferencesSpelled | crates/dig-app-core/src/auto_update.rs:377-391 | The script names the program and each argument by fixed environment references numbered in decimal |
| AutoUpdate.EveryValueArrives | crates/dig-app-core/src/auto_update.rs:377-405 | Resolving the script's references in its environment gives exactly the program and the arguments, in order and verbatim, for all of them |
| Hotkeys.Parse | crates/dig-app-core/src/hotkey.rs:133-169 | The token loop gives the chord, or the refusal of the first token that cannot be accepted |
| Hotkeys.SucceedsExactly | crates/dig-app-core/src/hotkey.rs:133-169 | A chord is read if and only if every token means something, exactly one names a key and Ctrl, Alt, Shift or Win is among them; it is those modifiers and that key |
| Hotkeys.RefusedExactly | crates/dig-app-core/src/hotkey.rs:147-168 | Nothing but white space, modifiers alone, a key alone: each refusal exactly on its own condition |
| Hotkeys.RoleExactly | crates/dig-app-core/src/hotkey.rs:150-164 | The words each modifier goes by, in any case; every other token names a key or means nothing |
| Hotkeys.KeyExactly | crates/dig-app-core/src/hotkey.rs:78-94 | A key's names: the word, one letter but not F, one digit, or an F and a number from 1 to 24, a plus sign and leading zeros allowed |
| Hotkeys.TokensExactly | crates/dig-app-core/src/hotkey.rs:142-146 | Each piece between plus signs is a token by itself, white space on either side apart, unless there is nothing else in it |
| Hotkeys.KeysExactly | crates/dig-app-core/src/hotkey.rs:150-164 | The keys are those named, as often as they are and in order |
| Hotkeys.RefusalIsTheFirst | crates/dig-app-core/src/hotkey.rs:151-164 | The refusal names the first unknown token or second key, all before it being acceptable |
| Hotkeys.RolesDecide | crates/dig-app-core/src/hotkey.rs:133-169 | Texts with the same set of roles and one key token read as the same chord, however modifiers repeat |
| Hotkeys.OrderDoesNotMatter | crates/dig-app-core/src/hotkey.rs:133-169 | Reordering the tokens changes neither success nor the chord |
| Hotkeys.CaseDoesNotMatter | crates/dig-app-core/src/hotkey.rs:133-169 | Recasing a text changes neither success nor the chord |
| Hotkeys.KeyReadBack | crates/dig-app-core/src/hotkey.rs:78-94 | Every valid key is read back from its own name, except the letter F |
| Hotkeys.Display | crates/dig-app-core/src/hotkey.rs:240-255 | The writing loop gives the held modifiers and the key joined by plus signs |
| Hotkeys.DisplayedExactly | crates/dig-app-core/src/hotkey.rs:240-255 | A chord is written as Ctrl, Alt, Shift and Win in that order, those held, each with a plus sign, and the key |
| Hotkeys.KeyTexts | crates/dig-app-core/src/hotkey.rs:97-106 | A key is written as Space, its letter, its digit, or an F and digits that denote its number |
| Hotkeys.ReadChords | crates/dig-app-core/src/hotkey.rs:133-255 | Every chord any text reads as is valid and is read back from its display |
| Hotkeys.RoundTripsUnlessLetterF | crates/dig-app-core/src/hotkey.rs:240-255 | A valid chord round-trips through its display if and only if its key is not the letter F |
| Hotkeys.Modifiers | crates/dig-app-core/src/hotkey.rs:180-204 | The or-ing loop gives the specified bit set |
| Hotkeys.BitsExact | crates/dig-app-core/src/hotkey.rs:180-204 | Alt, Ctrl, Shift and Win are bits 1, 2, 4 and 8, repeats are always suppressed by 0x4000, and no other bit is set |
| Hotkeys.VirtualKeys | crates/dig-app-core/src/hotkey.rs:63-76 | Virtual-key codes fall in four separate ranges, one for each kind of key, and give the key back |
| Hotkeys.RegistrationDeterminesChord | crates/dig-app-core/src/hotkey.rs:63-76 | Modifier bits and virtual key together determine the chord |
| Link.ParsesExactly | crates/dig-app-core/src/link.rs:64-94 | The text after a scheme parses as a store, root and path exactly when it spells them, slashes and colons in the path being the path's |
| Link.DividedExactly | crates/dig-app-core/src/link.rs:64-94 | Any text divides at its first slash and its first colon before that; the store is judged first and then the root, each refusal exactly |
| Link.DivisionExists | crates/dig-app-core/src/link.rs:64-75 | Every text divides so |
| Link.HexExactly | crates/dig-app-core/src/link.rs:56-58 | 64 characters, each a digit of base sixteen in either case |
| Link.SchemesAgree | crates/dig-app-core/src/link.rs:102-112 | A text is a link exactly when chia:// or urn:dig:chia: is followed by such a spelling, and is not one at all exactly without either |
| Link.UrlDeterminesLink | crates/dig-app-core/src/link.rs:119-128 | Under one endpoint two links share a URL if and only if they name the same store, root and path |
| Link.ServedExactly | crates/dig-app-core/src/link.rs:119-128 | A URL is the endpoint short of its final slashes, `/s/`, the 64-hex reference, a slash and the path, for exactly the links that parse; refusals are the parser's |
| SpendDecode.NativeXchOutputs | crates/dig-app-core/src/decode.rs:178-214 | A native spend's created coins in order, nothing for a foreign one, and a refusal for one that does not decode or run |
| SpendDecode.DecodeSpend | crates/dig-app-core/src/decode.rs:127-164 | The saturating folds give the true sums clamped once; a bundle with any failing spend gives a refusal and nothing else |
| SpendDecode.Decode | crates/dig-app-core/src/decode.rs:117-122 | Any payload type but the one known is refused before it is looked at |
| SpendDecode.ShownInOrder | crates/dig-app-core/src/decode.rs:137-150 | Outputs and inputs of one bundle after another are those of the first and then those of the second |
| SpendDecode.ShownExactly | crates/dig-app-core/src/decode.rs:137-150 | An output is shown if and only if a native spend creates it |
| SpendDecode.CreatedExactly | crates/dig-app-core/src/decode.rs:202-213 | A spend's outputs are those of its coin-creating conditions and no others |
| SpendDecode.CreatedOneByOne | crates/dig-app-core/src/decode.rs:202-213 | A coin-creating condition shows one output where it stands, and any other condition nothing |
| SpendDecode.CreatedInOrder | crates/dig-app-core/src/decode.rs:202-213 | One list of conditions after another creates the one's coins after the other's |
| SpendDecode.CreatedAddsUp | crates/dig-app-core/src/decode.rs:202-213 | The outputs add up to the amounts of the conditions that create them |
| SpendDecode.ShownAlone | crates/dig-app-core/src/decode.rs:178-214 | A native spend shows what its conditions create, a foreign one nothing, and either spends its coin |
| SpendDecode.RefusedExactly | crates/dig-app-core/src/decode.rs:178-201 | A bundle fails exactly for a puzzle that does not decode or a standard one that cannot be run |
| SpendDecode.ForeignIsNeverRun | crates/dig-app-core/src/decode.rs:185-195 | Whatever a foreign spend's solution leads to, the same is shown and the same is refused |
| SpendDecode.ConservedExactly | crates/dig-app-core/src/decode.rs:152-163 | For a native bundle total equals outputs plus fee if and only if what its spends create is within the total shown, and short of saturation the figures are the true ones; any other bundle is flagged and shows no fee |
| Activation.StripExact | crates/dig-app-core/src/activation.rs:246-250 | The scheme is stripped exactly when it is there in some case; a character across its end strips nothing |
| Activation.AllowlistExactly | crates/dig-app-core/src/activation.rs:103-107 | The one token on the list is deposit, in any case |
| Activation.RouteOfExactly | crates/dig-app-core/src/activation.rs:126-131 | The URI gate's language: the scheme in any case, an optional `//`, a token in any case, an optional final slash |
| Activation.RequestedIsTheFirst | crates/dig-app-core/src/activation.rs:137-139 | The route requested is the first argument's that names one |
| Activation.GatesCompared | crates/dig-app-core/src/activation.rs:103-131 | The URI gate admits what the file gate admits, and beyond it only those two decorations |
| Activation.HandoffPath.HandOff | crates/dig-app-core/src/activation.rs:150-169 | The file holds exactly the route's token once the rename is done, and is untouched if it is not; a refusal may come either way |
| Activation.HandoffPath.TakeWithin | crates/dig-app-core/src/activation.rs:199-212 | Which route is honoured and which file is left, whatever lands between reading the file, dating it and removing it, and whether or not it is removed |
| Activation.HonouredExactly | crates/dig-app-core/src/activation.rs:199-241 | The file gate's language: a readable file of a token in some case to the byte, and a date neither in the future nor too long ago |
| Activation.OneShot | crates/dig-app-core/src/activation.rs:199-204 | In every run, no more routes open than files were written, but for one more each time a take that opened one did not get its file removed |
| Activation.CountsExactly | crates/dig-app-core/src/activation.rs:199-204 | The bound counts the takes that open, those whose file stays, and the writes that landed |
| Activation.OpensExactly | crates/dig-app-core/src/activation.rs:199-241 | A route opens if and only if the last file left, not removed since, is a token of it and the file there to date is in time |
| Activation.OpensAgainExactly | crates/dig-app-core/src/activation.rs:199-204 | A hand-off that has opened opens again if and only if no take since got it removed, nothing was written, and it is in time |
| Activation.NextTakeOpens | crates/dig-app-core/src/activation.rs:199-204 | Of two takes with nothing written between, the second opens if and only if the first failed to remove the file and it is still in time |
| Activation.HandOffArrives | crates/dig-app-core/src/activation.rs:150-212 | A hand-off opens at the next take if and only if the file there to date is in time |
| Activation.StaleOpensExactly | crates/dig-app-core/src/activation.rs:199-229 | A file not itself in time opens its route if and only if one that is in time lands after it is read |
| Activation.StaleTextOpens | crates/dig-app-core/src/activation.rs:199-229 | An old hand-off opens when a newer file of any content lands before it is dated |
| Activation.UnremovedOpensTwice | crates/dig-app-core/src/activation.rs:199-204 | A removal that fails lets one hand-off open twice |
| NetworkBadge.GroupDigits | crates/dig-app-core/src/network.rs:312-324 | Writing left to right with the position test gives the digits in groups of three from the right |
| NetworkBadge.GroupedExact | crates/dig-app-core/src/network.rs:312-324 | A comma stands at exactly every fourth place from the right, never in front, and without the commas the digits are all there |
| NetworkBadge.DistanceReadsBack | crates/dig-app-core/src/network.rs:300-305 | The wording is the grouped number and block or blocks, singular just at one, and the number reads back as the distance |
| NetworkBadge.SyncExactly | crates/dig-app-core/src/network.rs:207-240 | What each phase, height and peer count of the node's answer is read as, exactly |
| NetworkBadge.BadgeIsTheDistance | crates/dig-app-core/src/network.rs:499-557 | The badge has digits if and only if an address is watched, both heights are known and the replica is strictly behind, and they are peers less replica |
| NetworkBadge.DistanceShownExactly | crates/dig-app-core/src/network.rs:207-557 | From the node's own answer to the badge: when each of the three wordings is shown, and when none |
| Hotkeys.RecasedRoles | crates/dig-app-core/src/hotkey.rs:142-153 | Recasing a text leaves the role of each of its tokens alone, through splitting and trimming |

## Left out

- The internals of X25519, HKDF and XChaCha20-Poly1305, the random ephemeral secret and nonce of `seal`, and key zeroing.
- SealedBox.ReaddressedIsNotAuthentic: stated for AEADs whose ciphertext commits to its header, because no AEAD with a fixed tag can promise that of every key; `SealedBox.RefusedExactly` and `SealedBox.ReaddressingNeedsACollision` need no such condition.
- SealedBox.Open: inputs are at most `usize::MAX` bytes, as every slice of the source is.
- The texts of refusals, and the text of an I/O error, in every component.
- HttpReply.Connection.ReadLine: a `BufReader` may fetch more from the socket than it hands over, and retries an interrupted read; the model counts bytes handed over.
- The host name `dig.local` and port 9778 are constants of a crate that is not part of this model; their values are those `control.rs` documents.
- Timeouts, the request written before a reply is read, and JSON-RPC decoding.
- Reading the control token from disk, and control calls other than the status read, which share its transport.
- What a node's answer to a poller means (`classify`, `read_once`), and the token reader.
- The regular expression engine: `\w` is a parameter of `PhaseStamps`, and the stamp pattern is a function from a line to the variants on it.
- Splitting a file into lines, and the scripts' command-line reporting.
- AutoUpdate.ElevatedCommand: the program is its displayed text, and how `Start-Process` composes the child's own command line from its list is not modelled.
- Updater status decoding, plans, cautions and copy in `auto_update.rs`.
- Registering a shortcut with the system, and `HotkeyState`.
- Bundle bytes, CLVM execution, condition decoding and bech32m: facts about each spend, or a rendering function.
- Activation.HandoffPath.TakeWithin: reading the file, dating it and removing it are one step each, so a file rewritten in place while it is being read is not modelled.
- Activation.HandoffPath.HandOff: which of its file operations stopped it, the temporary name it renames from and the links it removes there are not modelled, only how far it got.
- NetworkBadge.DistanceShownExactly: any phase of the wire contract without an arm of its own is `Syncing` here; the contract crate is not part of this model.
- Peer counts, their badges and the sync badge: single-branch lookups.
- `cache.rs`, `config.rs`, `environment.rs`, `ipc.rs`, `live.rs`, `constant_time.rs`, the galleries, the window and the tray: they would add only easy members, or draw.
