# Aegis kernel: a verified model

This project models the parts of the Aegis kernel (and of the script that builds its boot
image) where a wrong step is hardest to see, and proves what those parts promise: extended page
tables, AES-GCM, fleet capabilities between nodes, message channels and the audit log, the e1000
receive ring, the FAT16 boot image and its two readers, ACPI tables, the text editor and the
calculator. Each file holds one module, and `Common` holds what they share;
`dafny verify dfyconfig.toml` checks them all.

Code that updates state in place is a class or a method over arrays whose contract ties the new
state to a function of the old one; the theorems are lemmas about those functions. Sums and
products the code leaves unchecked wrap at 64 bits, as they do in the kernel's release profile.

Where the code does less than its documentation says, the model follows the code:

- An EPT `map` that returns success maps every page as asked exactly when the flags carry the
  read bit and only address bits that every host page already has, the host range is below 2^52
  and the guest range is at most 2^48 bytes (`MapsAsAskedIffSound`).
- The walk cannot tell windows of 2^48 bytes apart. An address that translates was itself mapped,
  inside a grant, exactly when it lies in the window of the page that justifies it
  (`GrantCoversAddressItself`, `MappedItselfIffInWindow`); in another window it translates
  without a grant (`UngrantedAliasTranslates`).
- A capability to a destroyed channel resolves again exactly when its index has been reused a
  multiple of 2^32 times (`StaleResolvesIffWrapped`, `WrapRevivesStale`).
- "Has this caller ever succeeded" is answered from the last 512 records. The answer is sure to
  hold for the whole history exactly while the tick is at most 512 (`RingAnswersIff`,
  `RingForgets`).
- `parse_madt` is documented never to panic; it does on a valid table in fewer than 44 bytes
  (`ParseMadt`, `ShortMadtPanics`).
- `visual_row` returns a row that ends before it starts when a row's start plus the width
  exceeds a machine word, and the right row exactly otherwise (`VisualRow`, `WidestWidthLosesLine`).
- The FAT volume is 64 bytes longer than its partition, because two directories assign 64 bytes
  to a 32-byte slice; `BuildGpt` shows that this reaches no other structure of the disk.

## Model

| member | source | states |
|---|---|---|
| EptModel.ContainsMeansCovers | aegis-kernel/src/ept.rs:119-130 | the 64-bit `contains` accepts only ranges that lie in the grant, and all of them if the grant's own end does not overflow |
| EptModel.OrKeepsIffWithin | aegis-kernel/src/ept.rs:284-303 | OR-ing flags into an address leaves it unchanged exactly when the address already has every flag bit |
| EptModel.Arena.AllocPage | aegis-kernel/src/ept.rs:68-90 | hands out a zeroed page nobody holds and takes it from the pool; nothing, and no change, exactly when the pool is empty |
| EptModel.Arena.FreePage | aegis-kernel/src/ept.rs:68-90 | takes back exactly the given page into the pool and logs it |
| EptModel.Ept.Translate | aegis-kernel/src/ept.rs:253-280 | the four-level walk over table pages reads the abstract page map |
| EptModel.Ept.Descend | aegis-kernel/src/ept.rs:310-324 | follows or creates one table link; no translation and no foreign page changes; fails only when a table is missing and the pool is empty, and then changes nothing |
| EptModel.Ept.WalkAndSet | aegis-kernel/src/ept.rs:284-303 | a success changes one page of the map and no other, however the tables are shared; a failure changes no translation and means the pool ran dry before the walk had its tables |
| EptModel.Ept.AnyMapped | aegis-kernel/src/ept.rs:229-234 | the overlap scan finds a mapped page exactly when one exists in the range |
| EptModel.Ept.Refuse | aegis-kernel/src/ept.rs:209-234 | which of alignment, overflow, grant and overlap errors is reported, in order |
| EptModel.Ept.Map | aegis-kernel/src/ept.rs:201-248 | a refusal changes nothing; an accepted request succeeds exactly when the pool holds at least as many pages as the request has tables missing; the map is then the old one plus the whole request, otherwise plus a proper prefix of it; foreign memory is untouched and every page taken from the pool is a table |
| EptModel.Ept.FreeTable | aegis-kernel/src/ept.rs:330-365 | freeing a table returns exactly the pages behind it, each once |
| EptModel.Ept.UnmapAll | aegis-kernel/src/ept.rs:330-365 | returns every table page exactly once to the pool and no other page, leaves `tables` at 0 and nothing mapped |
| EptModel.CoverCount | aegis-kernel/src/ept.rs:310-324 | the tables needed for a set of pages number one plus the distinct prefixes of length 1, 2 and 3 |
| EptRuns.SamePathIffSameSlot | aegis-kernel/src/ept.rs:369-371 | two addresses share a leaf entry exactly when they agree in bits 47 to 12 |
| EptRuns.WrittenElsewhere | aegis-kernel/src/ept.rs:236-248 | pages outside the request keep their translation |
| EptRuns.WrittenHere | aegis-kernel/src/ept.rs:236-248 | each page of the request holds its own leaf word |
| EptRuns.MapsAsAskedIffSound | aegis-kernel/src/ept.rs:201-303 | the exact condition under which a full `map` makes `translate` return host base plus offset on every requested page |
| EptRuns.OnlyGrantedPagesTranslate | aegis-kernel/src/ept.rs:201-365 | over any run of maps and teardowns, every address that translates is justified by a page of some map inside its grant |
| EptRuns.WindowIgnored | aegis-kernel/src/ept.rs:253-280 | an address translates as the same offset of the first 2^48-byte window does |
| EptRuns.GrantCoversAddressItself | aegis-kernel/src/ept.rs:119-130 | the page that justifies a translating address is the address's own page exactly when both lie in one window, whichever it is; then the grant contains the address |
| EptRuns.MappedItselfIffInWindow | aegis-kernel/src/ept.rs:201-365 | in a history whose maps stay in one window, a translating address was itself mapped exactly when it lies in that window |
| EptRuns.UngrantedAliasTranslates | aegis-kernel/src/ept.rs:253-280 | a concrete address at 2^48 that no grant contains and that translates |
| EptRuns.RunOps | aegis-kernel/src/ept.rs:201-365 | for any sequence of maps and teardowns, call by call: the result and the pages written are what the checks and the allocator allow on the state reached so far, the real tables mean the replay of those calls, every address that translates is justified by a page of one of the maps made, inside the grant passed to it, and no foreign page is touched |
| EptRuns.TablesArePrefixes | aegis-kernel/src/ept.rs:310-324 | while no map ran out of pages, `tables` is one plus the number of distinct 1-, 2- and 3-level prefixes of the pages written, which `Map` extends by exactly the pages of each request |
| EptRuns.UsedPagesTranslate | aegis-kernel/src/ept.rs:253-303 | while every map carried the read bit, the pages written are exactly those that translate |
| EptRuns.MapThenTranslate | aegis-kernel/src/ept.rs:201-280 | the refusal or success of one `map`, exactly; after a success `translate` gives host base plus offset on every requested page exactly for the sound requests, and it is unchanged on every page outside the request; a refusal changes no translation |
| Gf128.MulIsProduct | aegis-kernel/src/aes.rs:134-155 | the bit-serial sum is the polynomial product minus a multiple of x^128+x^7+x^2+x+1 |
| Gf128.MulUnique | aegis-kernel/src/aes.rs:134-155 | no other element is congruent to that product |
| Gf128.MulCommutes | aegis-kernel/src/aes.rs:134-155 | multiplication commutes |
| Gf128.MulAdds | aegis-kernel/src/aes.rs:134-155 | multiplication distributes over xor in its first argument |
| Gf128.MulAddsRight | aegis-kernel/src/aes.rs:134-155 | and in its second |
| Gf128.MulAssociates | aegis-kernel/src/aes.rs:134-155 | multiplication is associative |
| Gf128.MulOne | aegis-kernel/src/aes.rs:134-155 | the block 0x80 00 ... is the unit |
| Ghash.ShiftReduce | aegis-kernel/src/aes.rs:134-155 | the byte-wise shift and conditional 0xe1 multiply by x in the field |
| Ghash.Gmul | aegis-kernel/src/aes.rs:134-155 | the loop over byte arrays computes the field product, in GCM's reflected bit order |
| Ghash.HashBlocks | aegis-kernel/src/aes.rs:158-168 | `ghash` is the fold of xor-and-multiply over the blocks |
| Ghash.Stream | aegis-kernel/src/aes.rs:254-266 | absorbing data in chunks equals absorbing the zero-padded data |
| Ghash.FoldConcat | aegis-kernel/src/aes.rs:251-292 | hashing a concatenation is hashing its halves in turn |
| Ghash.GhashAad | aegis-kernel/src/aes.rs:251-292 | the three-stage hash is GHASH of padded AAD, padded ciphertext and the length block |
| GhashPolynomial.PolynomialSnoc | aegis-kernel/src/aes.rs:158-168 | Horner's rule: one more block multiplies the value plus the block by H |
| GhashPolynomial.FoldIsPolynomial | aegis-kernel/src/aes.rs:158-168 | hashing n blocks gives X1*H^n + X2*H^(n-1) + ... + Xn*H |
| GhashPolynomial.HashIsPolynomial | aegis-kernel/src/aes.rs:251-292 | the code's hash of AAD and ciphertext is that polynomial's value for the one padded message |
| Gcm.Inc32 | aegis-kernel/src/aes.rs:294-301 | adds one to the last four bytes modulo 2^32 and leaves the nonce alone |
| Gcm.CountersDistinct | aegis-kernel/src/aes.rs:191-203 | the counter blocks of one message are distinct from each other and from the tag's block |
| Gcm.CounterMode | aegis-kernel/src/aes.rs:194-204 | the loop with the incrementing counter masks byte k with block k/16+2 |
| Gcm.CryptTwice | aegis-kernel/src/aes.rs:194-204 | masking twice gives the data back |
| Gcm.Seal | aegis-kernel/src/aes.rs:176-213 | writes the masked plaintext and the tag over AAD and ciphertext, nothing past the plaintext's length |
| Gcm.Open | aegis-kernel/src/aes.rs:216-249 | accepts exactly the right tag; a rejected message writes nothing |
| Gcm.SealThenOpen | aegis-kernel/src/aes.rs:176-249 | opening what was sealed succeeds and returns the plaintext |
| FleetWire.IdentifierInjective | aegis-kernel/src/fleet.rs:239-264 | the 51-byte identifier fixes every token field but the recipient |
| FleetWire.ChainRoundTrip | aegis-kernel/src/fleet.rs:383-506 | a serialized chain parses back to itself |
| FleetWire.WireRoundTrip | aegis-kernel/src/fleet.rs:511-565 | a serialized capability parses back to itself, in every Local/Remote and Some/None shape and whatever follows it |
| FleetWire.SerializeChain | aegis-kernel/src/fleet.rs:383-438 | writes exactly the chain's bytes at the given position |
| FleetWire.Serialize | aegis-kernel/src/fleet.rs:511-531 | writes exactly the capability's bytes, within the envelope |
| Fleet.RootMessageInjective | aegis-kernel/src/fleet.rs:286-289 | two tokens with one root message agree but for the recipient |
| Fleet.BoundMessageInjective | aegis-kernel/src/fleet.rs:291-297 | a bound message fixes root and recipient |
| Fleet.FleetNode.PeerIndex | aegis-kernel/src/fleet.rs:616-620 | finds the first table entry with the id |
| Fleet.FleetNode.RegisterPeer | aegis-kernel/src/fleet.rs:633-649 | the new table, and which error refuses |
| Fleet.FleetNode.Beat | aegis-kernel/src/fleet.rs:654-661 | a heartbeat from a known peer restores it, from an unknown one changes nothing |
| Fleet.FleetNode.MarkUnreachable | aegis-kernel/src/fleet.rs:665-669 | cuts a known peer off, changes nothing otherwise |
| Fleet.RunExplained | aegis-kernel/src/fleet.rs:616-706 | after any run every table entry holds what the history says: the key of the registration that took effect, the time of the last sign of life since, and cut off exactly if marked after that; no registered peer is missing and ids are distinct |
| Fleet.RegisteredOnce | aegis-kernel/src/fleet.rs:633-649 | only one registration of a peer takes effect |
| Fleet.FailClosed | aegis-kernel/src/fleet.rs:651-797 | for every mac and every run, a foreign capability is accepted exactly when its issuer's one effective registration installed the key its chain verifies with, the last sign of life since (that registration or a heartbeat) is inside the stale window with no mark after it, and it is addressed to this node and unexpired |
| FleetNet.AcceptedIsAuthentic | aegis-kernel/src/fleet.rs:773-797 | in an invariant world, acceptance implies the issuer issued the token and after that sent its chain here |
| FleetNet.StepKeepsInv | aegis-kernel/src/fleet.rs:709-797 | issuing, sending, delivering and every local operation keep the network invariant |
| FleetNet.RunKeepsInv | aegis-kernel/src/fleet.rs:709-797 | every reachable world satisfies it |
| FleetNet.EveryAcceptanceIsAuthentic | aegis-kernel/src/fleet.rs:729-797 | in any run with reordering, duplication and re-wrapping, each acceptance follows a matching send, which follows the matching issue |
| Chaos.ScrambleNonZero | aegis-kernel/src/chaos.rs:51-73 | the xorshift generator never reaches zero |
| Chaos.Rng.Next | aegis-kernel/src/chaos.rs:51-73 | one generator step, state kept non-zero |
| Chaos.OfferVerdict | aegis-kernel/src/chaos.rs:137-201 | the offered capability is refused as unreachable exactly while the peer is cut |
| Chaos.NetworkPartition | aegis-kernel/src/chaos.rs:137-201 | for every mac and every random sequence the partition scenario reports success |
| Audit.RingIndex | aegis-kernel/src/audit.rs:187-201 | the queries' index arithmetic reaches record n-len+i |
| Audit.AuditLog.Append | aegis-kernel/src/audit.rs:155-173 | appends one record with the next tick; the ring then holds exactly the last 512 records |
| Audit.AuditLog.OpCounts | aegis-kernel/src/audit.rs:187-201 | the histogram counts the remembered records of each kind |
| Audit.AuditLog.EverSucceeded | aegis-kernel/src/audit.rs:204-217 | true exactly when a remembered record is such a success; up to tick 512, exactly when any record is |
| Audit.AuditLog.RevokeCount | aegis-kernel/src/audit.rs:221-235 | the number of remembered revocations |
| Audit.RingAnswersIff | aegis-kernel/src/audit.rs:175-217 | the ring answers for every history of n records, whatever is asked, exactly when n is at most 512 |
| Audit.RingForgets | aegis-kernel/src/audit.rs:203-217 | at every greater length, a history whose success the ring no longer knows |
| Channel.PushAppends | aegis-kernel/src/channel.rs:177-200 | storing at head+count appends to the queue |
| Channel.PopTakesOldest | aegis-kernel/src/channel.rs:206-226 | advancing head removes the oldest message |
| Channel.StaleResolvesIffWrapped | aegis-kernel/src/channel.rs:71-97 | over any history, a capability of a finished incarnation resolves exactly when its channel is live again a multiple of 2^32 mints later |
| Channel.WrapRevivesStale | aegis-kernel/src/channel.rs:142-171 | from boot, one create and 2^32 rounds of destroy and create revive the first capability |
| Channel.ReceivedIsPrefixOfSent | aegis-kernel/src/channel.rs:177-226 | in every history, the messages received from an incarnation are a prefix in order of those sent to it, the rest queued while it lives |
| Channel.AgreeStep | aegis-kernel/src/channel.rs:142-301 | one operation on the rings is one event on the abstract table |
| Channel.Kernel.StaleIsCurrentIff | aegis-kernel/src/channel.rs:282-301 | in any reachable kernel state, the object id of a finished incarnation passes `destroy`'s check exactly on a live channel minted a multiple of 2^32 times since |
| Channel.Kernel.StaleCapabilityRefused | aegis-kernel/src/channel.rs:71-97 | and a capability to it resolves, for a right it carries, exactly then; with fewer than 2^32 mints since, for no right |
| Channel.Kernel.Create | aegis-kernel/src/channel.rs:142-171 | takes the first free channel, starts it empty under a new generation and puts its capability in a free slot; the refusals and what they change |
| Channel.Kernel.SendAs | aegis-kernel/src/channel.rs:177-200 | appends exactly when the capability resolves, the message fits and there is room; one audit record either way |
| Channel.Kernel.RecvAs | aegis-kernel/src/channel.rs:206-226 | takes the oldest message exactly when the capability resolves and one is queued; one audit record either way |
| Channel.Kernel.Destroy | aegis-kernel/src/channel.rs:282-301 | succeeds exactly on the live channel of that generation, changes nothing otherwise |
| E1000.NicKeepsInv | aegis-kernel/src/e1000.rs:364-401 | every step of the card keeps the ring invariant and the slot the driver is working on |
| E1000.DoneMeansStored | aegis-kernel/src/e1000.rs:480-551 | a set DD bit means the slot holds the next stored frame with its final length |
| E1000.NotDoneMeansDrained | aegis-kernel/src/e1000.rs:480-551 | a clear DD bit means every stored frame was consumed |
| E1000.HandBack | aegis-kernel/src/e1000.rs:536-545 | re-arming the slot and moving RDT to it keeps the invariant |
| E1000.DeliversAll | aegis-kernel/src/e1000.rs:480-551 | what is delivered is every consumed frame's payload in order exactly when every length is valid and fits the buffer of its poll |
| E1000.Driver.constructor | aegis-kernel/src/e1000.rs:364-401 | the enabled ring satisfies the invariant |
| E1000.Driver.PollSlot | aegis-kernel/src/e1000.rs:480-551 | one slot: empty, dropped or delivered, whatever the card does between reads |
| E1000.Driver.Receive | aegis-kernel/src/e1000.rs:480-551 | under every interleaving: the frames consumed are judged in order against the caller's buffer, all but the last of them do not fit it or are malformed, the last is copied out whole if it fits, nothing else of the buffer is written, and nothing returned means every frame stored before the call was consumed |
| FatImage.VolumeFits | uefi-boot/build_image.py:348-368 | the computed sizes hold both files' clusters and leave room for the backup table |
| FatImage.BuildTable | uefi-boot/build_image.py:77-91 | the packed table holds the reserved entries and both chains, and zeros elsewhere |
| FatImage.TableReads | uefi-boot/build_image.py:77-91 | reading entry c of the table gives its value |
| FatImage.BuildFat16 | uefi-boot/build_image.py:40-147 | the volume's contents byte for byte, and that it is 64 bytes too long |
| FatImage.BuildGpt | uefi-boot/build_image.py:150-216 | every structure is in place on the disk and the long volume ends before the backup entries |
| FatImage.CreateDiskImage | uefi-boot/build_image.py:348-368 | for all files that fit the table, the disk is an image of them with its primary and backup tables intact |
| FatImage.ImagePieces | uefi-boot/build_image.py:93-145 | where each piece of the volume lies on the disk |
| FatReader.EntriesInPlace | uefi-boot/build_image.py:93-138 | every directory entry is where the readers look for it |
| FatReader.RangeIsChain | uefi-boot/build_image.py:300-310 | consecutive entries ending in an end marker are walked in order and stop |
| FatReader.RangeReads | uefi-boot/build_image.py:300-306 | the clusters of such a chain begin with the data laid out there |
| FatReader.WalkChain | uefi-boot/build_image.py:300-306 | the loop returns the chain's clusters cut to the size |
| FatReader.ReadBack | uefi-boot/build_image.py:273-326 | on every image both files are reconstructed byte for byte, also when there is no configuration file |
| FatReader.ScanDirSectors | aegis-kernel/src/fat.rs:109-143 | the nested loops stop at the first entry that matches, ends the directory or cannot be read, and return that match or nothing |
| FatReader.FirstStopUnique | aegis-kernel/src/fat.rs:109-143 | that stopping point is unique |
| FatReader.FindInRoot | aegis-kernel/src/fat.rs:146-154 | the same over the root directory's sectors |
| FatReader.FindInSubdir | aegis-kernel/src/fat.rs:161-170 | the same over one cluster |
| FatReader.ImageMounts | aegis-kernel/src/fat.rs:70-98 | the written boot sector mounts with the geometry the script used |
| FatReader.ImageLookups | aegis-kernel/src/fat.rs:27-191 | on every image each lookup of the boot walk finds its entry |
| FatReader.LocateBootFile | aegis-kernel/src/main.rs:1356-1396 | on every image the kernel finds BOOTX64.EFI at cluster 4 with the file's size and first sector |
| Acpi.Checksum | aegis-kernel/src/acpi.rs:419-425 | the wrapping loop is the byte sum modulo 256 |
| Acpi.Sealed | aegis-kernel/src/acpi.rs:427-430 | storing the complement in a zero byte makes the region sum to zero |
| Acpi.ParseSdtHeader | aegis-kernel/src/acpi.rs:127-160 | returns the header's fields exactly when its length, signature and whole-table checksum are right |
| Acpi.ParseMadt | aegis-kernel/src/acpi.rs:259-340 | keeps exactly the first eight LAPIC entries, the first IOAPIC and the first eight overrides among the well-formed entries, up to the first malformed length; panics exactly on an accepted MADT header in fewer than 44 bytes |
| Acpi.ShortMadtPanics | aegis-kernel/src/acpi.rs:259-266 | such a table |
| Acpi.DecodeEncode | aegis-kernel/src/acpi.rs:482-527 | an encoded entry decodes to itself |
| Acpi.WalkEncoded | aegis-kernel/src/acpi.rs:281-330 | walking encoded entries gives the list back |
| Acpi.BuildMadt | aegis-kernel/src/acpi.rs:482-527 | the 256-byte buffer holds the table and zeros after it |
| Acpi.RoundTripIffCanonical | aegis-kernel/src/acpi.rs:477-527 | a built table parses back to the structure exactly when its counts are within the caps and its unused slots are default |
| Acpi.Rebuild | aegis-kernel/src/acpi.rs:477-527 | building a table and parsing it gives the listed entries, the structure itself exactly when canonical |
| Acpi.RsdpRoundTrip | aegis-kernel/src/acpi.rs:71-108 | a built RSDP parses back for revisions 0 to 2 with an RSDT, is rejected otherwise, and loses its XSDT before revision 2 |
| Editor.UpThenDown | aegis-kernel/src/editor.rs:157-193 | moving up and down again returns to the same place exactly when the line above is long enough |
| Editor.DownThenUp | aegis-kernel/src/editor.rs:157-193 | where moving down and up again ends |
| Editor.RowsTile | aegis-kernel/src/editor.rs:226-263 | for every text and width the rows cover the text in order: no gap, no overlap, newlines only between rows, no row wider than the screen |
| Editor.TilingUnique | aegis-kernel/src/editor.rs:226-263 | no other list of rows does |
| Editor.CursorRows | aegis-kernel/src/editor.rs:226-263 | the cursor is in one row, and in a second exactly where the text wraps |
| Editor.LineRowAt | aegis-kernel/src/editor.rs:236-247 | a line takes the rounded-up quotient of rows, and which bytes each holds |
| Editor.PaintedIffNoWrap | aegis-kernel/src/editor.rs:243-250 | the returned row is the tiling's row exactly when its start plus the width is a machine word |
| Editor.WidestWidthLosesLine | aegis-kernel/src/editor.rs:243-250 | a two-line text whose second row is lost |
| Editor.Buffer.Insert | aegis-kernel/src/editor.rs:105-118 | adds one byte before the cursor, keeps the text after it, refuses exactly when full |
| Editor.Buffer.Backspace | aegis-kernel/src/editor.rs:121-133 | removes the byte before the cursor, keeps the text after it, refuses exactly at the start |
| Editor.Buffer.TypeAndErase | aegis-kernel/src/editor.rs:105-133 | backspace undoes an insert |
| Editor.Buffer.CursorUp | aegis-kernel/src/editor.rs:157-172 | moves to the same column of the line above or its end; false exactly on the first line |
| Editor.Buffer.CursorDown | aegis-kernel/src/editor.rs:176-193 | the same downwards; false exactly on the last line |
| Editor.Buffer.VisualRow | aegis-kernel/src/editor.rs:226-263 | the loop returns row `row` of the tiling and the cursor's column in it, nothing exactly past the last row; the row is right exactly when its start plus the width is a machine word, and otherwise ends before it starts |
| Calc.ParseShow | aegis-kernel/src/calc.rs:195-239 | reading a number back from its text gives the number |
| Calc.FitsIsWidth | aegis-kernel/src/calc.rs:216-239 | the text is at most 15 bytes exactly between -10^14 and 10^15 |
| Calc.TypingShows | aegis-kernel/src/calc.rs:81-107 | typing a number's digits shows it, or fails exactly if it is too wide |
| Calc.ChainShows | aegis-kernel/src/calc.rs:113-191 | any typed chain and `=` show its left-to-right value, and fail exactly when that has none |
| Calc.FailedStays | aegis-kernel/src/calc.rs:81-155 | an error stays until cleared |
| Calc.CheckedApply | aegis-kernel/src/calc.rs:166-191 | the overflow-checked result, cut to what fits, is the exact result cut to what fits |
| Calc.Calculator.WriteDisplay | aegis-kernel/src/calc.rs:216-239 | writes the decimal text exactly when it fits, changes nothing otherwise |
| Calc.Calculator.ParseDisplay | aegis-kernel/src/calc.rs:195-212 | the loop reads the number the text shows, without overflow |
| Calc.Calculator.Evaluate | aegis-kernel/src/calc.rs:166-191 | stores and shows the exact result, or latches the error |
| Calc.Calculator.PressDigit | aegis-kernel/src/calc.rs:81-107 | one interpreter step |
| Calc.Calculator.PressOp | aegis-kernel/src/calc.rs:113-140 | one interpreter step |
| Calc.Calculator.PressEquals | aegis-kernel/src/calc.rs:145-155 | one interpreter step |
| Calc.Calculator.PressAll | aegis-kernel/src/calc.rs:81-160 | every run of the machine is the run of the interpreter over unbounded integers |

## Left out

- The AES block cipher: a function parameter of the GCM modules.
- SHA-256 and HMAC: `FleetNet` uses an ideal mac whose outputs are fresh values; `Fleet` and `Chaos` hold for every mac function.
- EptModel.Ept.FreeTable: the nested teardown loops are one recursive method; the order in which pages return to the allocator is not stated.
- EptRuns.RunOps: the allocator serves only this EPT during the run; other owners hold pages but neither take nor return any meanwhile.
- EptModel.Ept.Map: the `tables` counter is unbounded, and the guest-physical width is the 48 bits the walk uses.
- Gcm.Seal: AAD is at most 512 and the message at most 4096 bytes, the sizes of the fixed buffers the code asserts.
- Gcm.SealThenOpen: stated under the same two sizes.
- E1000.Driver.Receive: a frame spread over several descriptors counts as several stored buffers; the card may store any 16-bit length.
- Audit.AuditLog.Append: the tick is unbounded; the code's wraps after 2^64 records.
- Channel.Kernel.SendAs: starts from a message already copied in; the checks of user pointers are not modelled.
- Channel.Kernel.RecvAs: ends with the bytes in a kernel buffer; the checks of user pointers are not modelled.
- FatReader.WalkChain: takes the finite chain as a ghost argument, since the script's loop does not end on a cyclic table.
- FatImage.CreateDiskImage: the protective MBR, GPT headers and entries are opaque blocks; CRC32 sums and GUIDs are not modelled.
- FatReader.LocateBootFile: the disk is a byte sequence whose reads fail only past its end; the NVMe queue is not modelled.
- Acpi.BuildMadt: the tests for a full buffer are omitted, because 200 bytes are always enough.
- Editor.Buffer.VisualRow: the final case for an empty buffer is omitted, because the loop has already returned row 0.
- `decode_ept_violation`, `eptp`, RSDT/XSDT listing, the ARP table, the e1000 transmit path, the desktop and the compositor: fixed geometry, single expressions or code whose partners are not part of this model.
- `adaptive.rs`, `ceiling.rs`, `agent.rs`, the durable half of the editor: thin layers over components that are not part of this model.
