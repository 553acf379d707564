# Trust Agent: a verified model

This project models the parts of the Intel Security Libraries Trust Agent that decide what a platform
reports about itself, and proves what they guarantee.

- **Event logs** (`Bytes`, `Hex`, `Text`, `Buffer`, `EventLog`, `EventTag`, `EventParser`, `EventNames`,
  `EventLogTheorems`, `EventLogContents`, `ApplicationLog`). The binary parser for TCG event logs, a
  TCG_PCClientPCREvent header followed by TCG_PCR_EVENT2 records (sections 10.2.1 and 10.2.2 of the TCG PC
  Client Platform Firmware Profile Specification 1.05), the tags of UEFI events, the text parser for
  application events, and the grouping of digests by PCR index and bank that both share.
- **PCR extension** (`HexCodec`, `TpmExtend`, `MeasureHost`). The boot-time loop that extends PCR 15 and
  appends to the application log, down to the bytes of the TPM2_PCR_Extend command (section 22.2 of the TPM 2.0
  Library, Part 3), and the replay of that log by a reader.
- **Provisioning and quotes** (`Provisioning`, `Quote`, `BankStrip`). Ownership, the asset-tag NV index and
  its secret over arbitrary runs of setups that may stop at any TPM call, the asset tag and nonce of a quote,
  and the in-place removal of inactive PCR banks.
- **Workload measurement** (`Wildcard`, `ReplaceAll`, `DirWalk`, `DirDescent`, `BoundedWalk`,
  `DirectoryFilter`, `Measurement`, `MeasuredManifest`, `ManifestSearch`). The compiler from wildcards to
  POSIX extended regular expressions (section 9.4 of IEEE Std 1003.1, Base Definitions), the in-place string
  replacement, the directory walk, and the cumulative hash over what a manifest asks for.

State that the programs update in place is modelled by classes, arrays and loops whose methods are proved
against specification functions; the theorems are about those functions. Hash functions, base64, the UTF-8
decoder with the table of printable characters, pattern matchers and the file system are parameters
with the few laws used stated as predicates. Out-of-range accesses are an outcome (`Panic`) rather than a
precondition.

The central results:

- `EventLogTheorems.WholeLogRoundTrip`: every encoded log parses back to exactly its digests, grouped in order
  of first occurrence; `EventParser.RecordExact` is the converse for arbitrary bytes.
- `EventLogContents.FileContents` and `ArbitraryContents`: read against the bytes, the log holds every digest of every record at
  its place, as hexadecimal that decodes to the digest, in the bank its algorithm number stands for, named and tagged as its
  record is.
- `EventLogTheorems.Resumption`: parsing in two calls equals parsing in one exactly when the restart of the
  0x501 counter cannot be seen.
- `Wildcard.CompilerCorrectness`: the emitted expression means what the wildcard means exactly when the
  wildcard contains no `+`, the one special character the compiler does not escape.
- `Provisioning.RunKeeps`: over every run, the saved secret opens the tag index, and neither a set owner
  auth nor a saved secret ever changes.
- `Quote.TagCarriedForward` and `Provisioning.TagSurvivesExactly`: successful re-provisioning is invisible in
  quotes; an interrupted one loses the tag exactly when it stops between release and write.
- `Provisioning.RecoverableExactly`: an index that was defined but never written can be recovered if and only
  if the saved secret opens it; a first setup stopped at the wrong call (`InterruptedFirstSetup`) loses that
  secret, and no later run of any steps gets past it.
- `MeasureHost.Host.TpmExtendLoop`: after every iteration PCR 15 is the replay of the lines written; the Go parser
  reads all of them back if and only if none is too long for its scanner, else those before the first such line.
- `BankStrip.StripExactly`: the in-place deletion leaves exactly the active banks if and only if no two
  neighbours are inactive and an inactive last bank is the only one.
- `BoundedWalk.WalkDirRecurse` is the directory walk for every tree. `UncutExactly` and `LimitMetExactly`: the limit on
  path lengths never interferes if and only if all names at all levels sort after ".." and all paths fit, and a tree with
  another name meets every limit, because the walk follows a dot entry. `FittingWalk` and `DirWalk.WalkCorrect`: otherwise
  every selected descendant is written once, and nothing else; in every case directory order does not matter.
- `ManifestSearch.SearchCoversExactly`: a search by an unanchored pattern is sure to find everything it matches if and only
  if it starts at the mount point itself.
- `Measurement.Wml.GenerateMeasurementLogs` and `MeasuredManifest.CumulativeHashOfManifest`: the cumulative hash
  printed last is the hash chain over exactly the entries the manifest asks for.

Where code and comments disagree the model follows the code: `bin2hex` returns -2 for a null byte buffer and -1
for a null text buffer, the reverse of its comment; the "garbage" branch of `getEventTag` wraps a nil error and so
reports no tag and no error; the refusal in take-ownership happens for the empty secret, although its comment
speaks of a non-empty one.

## Model

| member | source | states |
|---|---|---|
| `EventLog.AddEntry` | eventlog/common.go:380-396 | the linear search adds a digest to the first group with its PCR index and bank, or opens a new group at the end |
| `EventLog.FirstKeysMeaning` | eventlog/common.go:380-396 | group keys are pairwise distinct, are exactly the keys that occur, and stand in order of first occurrence |
| `EventLog.InsertAllIsGroups` | eventlog/common.go:359-397 | repeated insertion into an empty log yields, for each key, the in-order subsequence of the events with that key |
| `EventLog.InsertAllConserves` | eventlog/common.go:359-397 | no digest is lost or duplicated: the contents of the log grow by exactly the inserted digests |
| `EventLog.InsertAllInjective` | eventlog/common.go:359-397 | grouping forgets nothing: with the same keys, equal logs come from equal digests |
| `EventLog.StoredAt` | eventlog/common.go:380-396 | an entry is found in the group of its key, behind as many others as were inserted before it |
| `Buffer.ByteBuffer.Next` | eventlog/common.go:416-424 | consumes up to n bytes, silently fewer when the buffer is short |
| `Buffer.ByteBuffer.ReadLittleEndian` | eventlog/common.go:257-260 | decodes a little-endian integer, or drains a short buffer and fails |
| `EventTag.VariableNameTag` | eventlog/common.go:433-466 | a well-formed UEFI_VARIABLE_DATA payload with a printable name is tagged with exactly that name |
| `EventTag.BlobDescriptionTag` | eventlog/common.go:469-480 | a firmware blob is tagged with the description it counts out, whatever follows |
| `EventTag.StringEventTag` | eventlog/common.go:490-503 | a string event is tagged with its text up to the first NUL, and with nothing when that text is empty |
| `EventTag.StartupLocalityTag` | eventlog/common.go:506-520 | an EV_NO_ACTION text is tagged with the text and the decimal value of the byte behind its NUL |
| `EventTag.PfrEventTag` | eventlog/common.go:522-578 | a well-formed PFR event is tagged with its string exactly when the string starts with PFR or pfr |
| `EventTag.UntaggedTypes` | eventlog/common.go:433-581 | event types that are never tagged, an EV_COMPACT_HASH outside PCR 6 among them |
| `EventTag.ShortPayloads` | eventlog/common.go:438-446 | payloads too short for their fixed fields are errors |
| `EventTag.VariableClaims` | eventlog/common.go:453-466 | a variable payload that claims more than it holds is left untagged without an error; a name that runs past its end is an index out of range; otherwise the tag is the name's low bytes |
| `EventTag.NoActionCases` | eventlog/common.go:506-520 | EV_NO_ACTION without a NUL, with one in front, and with one at its end |
| `EventTag.PfrRejected` | eventlog/common.go:541-564 | sizes, PCR, version, event id, attribute or an empty string keep a PFR event untagged |
| `EventTag.PfrShortText` | eventlog/common.go:570-578 | a PFR string that ends within the three letters it is compared with is an index out of range |
| `EventTag.CleanMeaning` | eventlog/common.go:406-414 | cleaning keeps exactly the characters that print, in order |
| `EventParser.ReadDigestList` | eventlog/common.go:286-316 | the digest loop reads the counted digests, moving the cursor by nominal sizes even when bytes run out |
| `EventParser.ReadNextRecord` | eventlog/common.go:256-357 | one turn of the record loop reads the next record, stops at an index above 23 or a count outside 1..5, or fails on missing bytes |
| `EventParser.AddRecord` | eventlog/common.go:359-397 | every digest of a record is tagged and inserted in order; in TXT mode each cell of the event array gets exactly its name although its tags are appended to those of the last cell; a panic while tagging stops everything |
| `EventParser.CreateMeasureLog` | eventlog/common.go:247-403 | the buffer-driven parser computes ParseLoop on every input; its cursor equals the bytes consumed whenever a record is read, and it terminates |
| `EventParser.ParseTcgSpecEvent` | eventlog/common.go:217-244 | the header is skipped, and the remaining size is computed with 32-bit wrap-around |
| `EventNames.GetEventLogs` | eventlog/file_eventlog_parser.go:18-41 | the file parser is the header skip followed by the record parse on one buffer |
| `EventParser.RecordExact` | eventlog/common.go:256-357 | whatever record is read is the encoding at the front of the buffer with full digests; a payload may be cut short only if the buffer is exhausted and the cursor has passed its end |
| `EventParser.RecordLengths` | eventlog/common.go:262-354 | the cursor moves by the bytes consumed, or beyond the end of an exhausted buffer |
| `EventNames.TableNames` | eventlog/common.go:156-214 | no event type of the table has an empty name, and 0x501 is not in it, so that these events are named by rank |
| `EventNames.TcgRows` | eventlog/common.go:157-175 | the names of the event types 0 to 18 |
| `EventNames.EfiRows` | eventlog/common.go:176-183 | the names of the event types from 0x80000000 |
| `EventNames.TableParts` | eventlog/common.go:156-214 | merging the parts of the table changes none of them |
| `EventLogTheorems.ArbitraryBytes` | eventlog/common.go:247-403 | for all bytes, a successful parse stores only indices up to 23 and lower-case hex of exactly the bank's size (or empty bank and measurement), at most 5 digests per 26 bytes, under distinct keys |
| `EventLogTheorems.CursorInvariant` | eventlog/common.go:253-357 | with a declared size within the buffer, offset equals bytes consumed before every record, and each record takes at least 18 bytes |
| `EventLogTheorems.ReadEncodedRecord` | eventlog/common.go:256-357 | an encoded record is read back exactly, whatever follows it |
| `EventLogTheorems.ParseEncoded` | eventlog/common.go:247-403 | over an encoded list followed by anything, the parser inserts the list's digests and carries on at the right place |
| `EventLogTheorems.WholeLogRoundTrip` | eventlog/file_eventlog_parser.go:27-40 | for every header and list of well-formed records the parsed file is exactly their digests in hex, grouped |
| `EventLogTheorems.StopExactly` | eventlog/common.go:256-284 | which bytes end a log without an error |
| `EventLogTheorems.Padding` | eventlog/common.go:256-284 | zero padding of 12 bytes or more, or a word above 23, behind the last record changes nothing, however large the declared size |
| `EventLogTheorems.EntryAt` | eventlog/common.go:318-376 | each digest stands at its place, named by its record's rank and tagged as every other digest of its record |
| `EventLogTheorems.NameOfRecord` | eventlog/common.go:318-343 | every digest bears the table's name for its type; those of the k-th 0x501 record are named tb_policy, tb_policy, vmlinuz, initrd, asset-tag, then nothing |
| `EventLogTheorems.TxtTags` | eventlog/common.go:359-397 | for all bytes, every digest a TXT parse stores, of whatever bank, is tagged with exactly its own type name, or not at all when it has none |
| `EventLogTheorems.EntriesAgree` | eventlog/common.go:325-357 | the 0x501 counter influences nothing but the names (and TXT tags) of 0x501 records |
| `EventLogTheorems.Resumption` | eventlog/common.go:255-403 | two calls that thread the log equal one call on the concatenation if and only if a list has no 0x501 record or each has exactly one (or a payload makes both panic) |
| `EventLogContents.RecordLayout` | eventlog/common.go:256-354 | which bytes of a record are its index, type, count, digests, size and payload |
| `EventLogContents.DigestLayout` | eventlog/common.go:289-316 | each digest is its algorithm number in two bytes and its data, behind those before it |
| `EventLogContents.HeaderLayout` | eventlog/common.go:217-244 | which bytes of the header are its index, type, digest, size and payload |
| `EventLogContents.SkipHeaderExactly` | eventlog/common.go:217-244 | what is left of any file behind its header, and the size that wraps around when the header claims more than the file |
| `EventLogContents.FileContents` | eventlog/file_eventlog_parser.go:27-40 | the parsed file holds exactly its records' digests, each in its group at its place, decoding to the record's bytes, with the bank of its algorithm number, its type in hexadecimal, its name and its tags; it panics exactly when some payload cannot be tagged |
| `EventLogContents.ArbitraryContents` | eventlog/common.go:247-403 | for all bytes, a successful parse has read complete records off the front and holds exactly their digests in that sense |
| `ApplicationLog.NegativeIndexWraps` | eventlog/collect_application_event.go:49-59 | a negative index is accepted and wraps around to 32 bits |
| `ApplicationLog.GetEventLogs` | eventlog/collect_application_event.go:39-79 | the scanner loop computes ParseLines of the text's lines, with the binary parser's grouping |
| `ApplicationLog.ParseLinesInserts` | eventlog/collect_application_event.go:41-76 | every text that parses is grouped by the same function as a binary log, one entry per line |
| `ApplicationLog.WriteReadBack` | eventlog/collect_application_event.go:41-76 | written lines are read back as exactly their entries, grouped |
| `ApplicationLog.LongLineDropped` | eventlog/collect_application_event.go:40-41 | a line of 65536 characters or more, and all after it, is dropped without an error |
| `ApplicationLog.LongLineTruncates` | eventlog/collect_application_event.go:40-41 | with a line too long for the scanner the reader sees exactly the lines before it |
| `ApplicationLog.ReadBack` | eventlog/collect_application_event.go:40-76 | what the reader makes of any list of clean lines: the entries before the first line that is too long, grouped |
| `ApplicationLog.ReadBackExactly` | eventlog/collect_application_event.go:40-76 | clean lines are read back in full if and only if none is too long for the scanner |
| `ApplicationLog.ScannedLines` | eventlog/collect_application_event.go:40-44 | the lines delivered: without the line feed and one carriage return before it, the last one even without a line feed, none from one of 65536 characters on |
| `ApplicationLog.LineByFields` | eventlog/collect_application_event.go:45-59 | what a line yields by its fields: a panic, an error, or one event with literal type and name, bank, index, tag and measurement |
| `ApplicationLog.FirstBadLine` | eventlog/collect_application_event.go:41-54 | the first line without an event decides the result |
| `ApplicationLog.LineFound` | eventlog/collect_application_event.go:41-76 | a written line is found in the group of its bank and index, behind the earlier ones of that group, with its tag and measurement |
| `HexCodec.Hex2Bin` | tboot-xm/src/wml/char_converter.c:62-97 | error codes in order, the exact count, the decoded bytes followed by zeros; -5 exactly for a non-hex character |
| `HexCodec.Bin2Hex` | tboot-xm/src/wml/char_converter.c:108-125 | error codes, the exact length, lower-case hex followed by zeros |
| `HexCodec.Bin2HexThenHex2Bin` | tboot-xm/src/wml/char_converter.c:62-125 | hex2bin undoes bin2hex on every byte string, with the exact count |
| `HexCodec.GoodPairsExactly` | tboot-xm/src/wml/char_converter.c:77-97 | the conversion loop runs to the end exactly when every character is a hex digit |
| `Hex.EncodeDecode` | tboot-xm/src/wml/char_converter.c:62-125 | bin2hex of hex2bin is lower-casing on every even-length hex string |
| `Hex.EncodedDigits` | tboot-xm/src/wml/char_converter.c:117-122 | each byte gives its high digit, then its low one |
| `Hex.LoweredChars` | tboot-xm/src/wml/char_converter.c:62-125 | lower-casing moves A to F and nothing else |
| `TpmExtend.ReverseCopy` | tboot-xm/src/tpmextend/common.h:44-49 | the bytes land reversed at their offset and nothing else changes |
| `TpmExtend.AppendField` | tboot-xm/src/tpmextend/tpm2.c:183-201 | a field written at the running offset keeps all earlier fields |
| `TpmExtend.SubmitCmd` | tboot-xm/src/tpmextend/tpm2.c:65-98 | the header goes in front of the arguments, its size field is the total length |
| `TpmExtend.PcrExtend2` | tboot-xm/src/tpmextend/tpm2.c:127-206 | the bytes sent are the encoded TPM2_PCR_Extend command; a handle past 24 is refused |
| `TpmExtend.DecodeEncodeExtend` | tboot-xm/src/tpmextend/tpm2.c:183-206 | a TPM that reads the tag, the total size, the code and the handle, cuts the authorization area off by its size, demands an empty password session in it, and reads one digest behind it, gets back the PCR, algorithm and digest; the length is 33 plus the digest |
| `TpmExtend.EncodedReads` | tboot-xm/src/tpmextend/tpm2.c:127-206 | every field of the command at its byte, with its literal value |
| `TpmExtend.EncodeDecodeExtend` | tboot-xm/src/tpmextend/tpm2.c:183-206 | no other bytes decode to that command |
| `TpmExtend.RunTool` | tboot-xm/src/tpmextend/tpmextend.c:179-253 | exactly when the tool fails, that it then sent nothing, and what it sent otherwise |
| `TpmExtend.DigestOfArgument` | tboot-xm/src/tpmextend/tpmextend.c:233-243 | a hexadecimal argument gives its bytes |
| `TpmExtend.BadDigitZeroes` | tboot-xm/src/tpmextend/tpmextend.c:233-243 | a pair that is not two digits makes its byte and every later one zero |
| `TpmExtend.TpmExtend2` | tboot-xm/src/tpmextend/tpmextend.c:146-177 | the algorithm follows from the digest size, and larger digests are refused |
| `MeasureHost.AcceptedExtend` | tboot-xm/tcb_protection/tcb_protection_scripts/measure_host:262-293 | what the tool sent, the device decodes to an extension of PCR 15 by the image hash in the bank that is logged |
| `MeasureHost.BankMatchesAlgorithm` | tboot-xm/tcb_protection/tcb_protection_scripts/measure_host:265-293 | the logged bank is the parsers' name for the algorithm extended with, and the logged hash has that algorithm's size |
| `MeasureHost.ReplayOfLines` | eventlog/collect_application_event.go:41-76 | replaying what the Go parser reads back equals replaying the lines written before the first one that is too long |
| `MeasureHost.AllShortLines` | tboot-xm/tcb_protection/tcb_protection_scripts/measure_host:262-293 | the measurements' lines fit the scanner exactly when all lines that are logged do |
| `MeasureHost.Host.TpmExtendLoop` | tboot-xm/tcb_protection/tcb_protection_scripts/measure_host:244-297 | after every iteration, and on every exit, the log holds exactly the measurements done that have a proper uuid and PCR 15 is their replay; the reader gets all of them if and only if every line fits, and otherwise the replay of those before the first that does not; other PCRs are untouched; it fails exactly without a version or when the tool fails |
| `MeasureHost.MeasuredEvent` | tboot-xm/tcb_protection/tcb_protection_scripts/measure_host:244-293 | the event read back for a measurement: its one tag is the label without blanks, a dash and the uuid, its measurement the hash of the image, in PCR 15 and the version's bank, behind those of the proper measurements before it |
| `MeasureHost.PcrIsBootChain` | tboot-xm/tcb_protection/tcb_protection_scripts/measure_host:262-293 | PCR 15 is the chain H(value, H(image)) over the measurements with a proper uuid, in SHA-1 for TPM 1.2 and SHA-256 otherwise |
| `MeasureHost.UuidHasGroups` | tboot-xm/tcb_protection/tcb_protection_scripts/measure_host:250-252 | a proper uuid is groups of 8, 4, 4, 4 and 12 hexadecimal digits with dashes, a brace on either side or not |
| `MeasureHost.GroupsAreUuid` | tboot-xm/tcb_protection/tcb_protection_scripts/measure_host:250-252 | and every such text is one |
| `MeasureHost.LabelFits` | tboot-xm/tcb_protection/tcb_protection_scripts/measure_host:289-293 | the length of label and uuid from which a logged line is too long for the reader |
| `Provisioning.Tasks.RunDefineTagIndex` | tasks/define_tag_index.go:23-101 | the setup task computes DefineTagIndex for every first failing TPM call |
| `Provisioning.Tasks.RunTakeOwnership` | tasks/take_ownership.go:20-87 | the setup task computes TakeOwnership for every first failing TPM call |
| `Provisioning.TakeOwnershipExactly` | tasks/take_ownership.go:56-84 | success leaves the TPM owned by the given secret, and needs it to be so already or clear with a non-empty secret |
| `Provisioning.DeployAssetTag` | common/asset_tag.go:37-56 | a tag is written exactly when the index exists, opens with the service's secret and has its size |
| `Provisioning.DeployExactly` | common/asset_tag.go:37-56 | success is reported exactly when the index opens with the secret and has the tag's size; it then holds the tag and nothing else has changed |
| `Provisioning.DefineOutcome` | tasks/define_tag_index.go:23-101 | the secret and the index left for every first failing call |
| `Provisioning.TakeOwnershipOutcome` | tasks/take_ownership.go:56-84 | the result and the owner auth left for every first failing call |
| `Provisioning.SavedOnTheWay` | tasks/download_api_token.go:84-85 | once the API token has been downloaded the secret is saved, whatever the last task does |
| `Provisioning.TagSurvivesExactly` | tasks/define_tag_index.go:64-98 | a provisioned tag survives a run exactly when it stops before the release or reaches the write |
| `Provisioning.ForeignTagCleared` | tasks/define_tag_index.go:72-98 | an index of another size becomes an all-zero tag |
| `Provisioning.DefineSucceedsExactly` | tasks/define_tag_index.go:23-101 | a run succeeds exactly when the owner secret is right, an existing index has been written, and no call fails |
| `Provisioning.SetupCompletesExactly` | tasks/task_runner.go:167-191 | when nothing goes wrong, each setup command completes exactly when the TPM is clear or owned by the given secret and the index is absent or written |
| `Provisioning.StuckForever` | tasks/define_tag_index.go:64-70 | an unwritten index whose secret nobody knows stays as it is over every run of setups, deployments and quotes |
| `Provisioning.DeploymentRecovers` | common/asset_tag.go:37-56 | when the saved secret opens an unwritten index, a service start and a deployment write it, and later runs succeed again |
| `Provisioning.RecoverableExactly` | tasks/define_tag_index.go:64-98 | some run recovers an unwritten index if and only if the saved secret opens it |
| `Provisioning.InterruptedFirstSetup` | tasks/define_tag_index.go:86-98 | a first setup stopped between defining and writing reaches the state from which no later setup command, after any steps, completes |
| `Provisioning.TasksKeep` | tasks/task_runner.go:167-191 | every list of tasks, stopped anywhere, keeps the secrets consistent |
| `Provisioning.RunKeeps` | main.go:642-662 | over every run of setups stopped at any call, deployments and quotes: the saved secret opens the index, and a set owner auth or saved secret never changes |
| `Provisioning.FreshInstall` | main.go:642-662 | from a fresh installation, whatever index an earlier one left, a non-empty saved secret always opens an existing index |
| `Provisioning.SetupThenDeploy` | common/asset_tag.go:37-56 | after a completed setup and a service start the TPM is owned by the given secret and every 48-byte tag can be deployed |
| `Provisioning.SetupCommandsThenDeploy` | tasks/task_runner.go:167-191 | the same for the task lists of both setup commands that define the index |
| `Quote.GetAssetTags` | common/quote.go:204-247 | the tag is empty for an absent or all-zero index, else its bytes in base64; a failing call or a wrong size is an error |
| `Quote.CreateTpmQuoteResponse` | common/quote.go:44-305 | the TPM signs the nonce bound to the tag over the stripped banks, the response reports the same banks and that tag, any failing call or file makes it an error, and the TPM's state is unchanged |
| `Quote.NonceBindsTag` | common/quote.go:87-124 | the nonce is SHA1(n) without a tag, else SHA1(SHA1(n) followed by the tag) |
| `Quote.TagCarriedForward` | tasks/define_tag_index.go:63-98 | any number of successful define-tag-index runs between two quotes leaves the whole quote unchanged |
| `Quote.QuotedBanks` | common/quote.go:55-70 | the quoted and reported banks are exactly the active ones if and only if the deletion is harmless |
| `Quote.ResponseContents` | common/quote.go:249-305 | in every response the signature over the reported nonce and banks, the AIK certificate, the event log and the measurements are the platform's, each in its own place |
| `Quote.TagReported` | common/quote.go:204-247 | the reported tag is empty exactly without an index or with 48 zero bytes, and otherwise decodes to the index |
| `Quote.QuoteFailsExactly` | common/quote.go:44-305 | when a request yields a response, an error or a panic; a request without banks is for SHA384, SHA256 and SHA1 |
| `Quote.SetupDeployQuote` | common/quote.go:249-305 | a tag deployed after a completed setup is what the next quote reports and binds |
| `BankStrip.StripInactive` | common/quote.go:60-70 | the loop over the shared backing array, including the stale cell and the out-of-range slice |
| `BankStrip.StripExactly` | common/quote.go:60-70 | it leaves exactly the active banks if and only if no two neighbours are inactive and an inactive last bank is alone |
| `BankStrip.OneInactive` | common/quote.go:60-70 | at most one inactive position, in a list of any length, is always handled |
| `BankStrip.TwoInactiveNeighbours` | common/quote.go:60-70 | of two inactive neighbours the second survives |
| `BankStrip.ActivesMeaning` | common/quote.go:60-70 | the active banks are those that are active, in order |
| `Wildcard.ConvertWildcardToRegex` | tboot-xm/src/wml/util.c:170-212 | the buffer ends up holding the anchored expression and a terminator |
| `Wildcard.TokensOfCompiled` | tboot-xm/src/wml/util.c:170-212 | the emitted text reads back as the intended tokens between two anchors |
| `Wildcard.PreservedWithoutPlus` | tboot-xm/src/wml/util.c:170-212 | without '+' a string matches the wildcard iff it matches the expression |
| `Wildcard.BrokenByPlus` | tboot-xm/src/wml/util.c:189-206 | with '+' the expression is undefined or accepts a string too short for the wildcard |
| `Wildcard.CompilerCorrectness` | tboot-xm/src/wml/util.c:170-212 | meaning is preserved exactly for wildcards without '+' |
| `Wildcard.MatchesOne` | tboot-xm/src/wml/util.c:170-212 | a star matches anything, a question mark one character, any other character itself |
| `Wildcard.MatchesTwo` | tboot-xm/src/wml/util.c:170-212 | a wildcard in two parts matches a string in two parts |
| `Wildcard.EmittedText` | tboot-xm/src/wml/util.c:183-206 | the text emitted for each character, between "^" and "$" |
| `Wildcard.WildcardFilter` | tboot-xm/src/wml/measurement.c:148-186 | a wildcard filter selects what it says when its compiled form has at most 31 characters, and everything otherwise |
| `Wildcard.PreparedExactly` | tboot-xm/src/wml/measurement.c:148-186 | a filter is kept when it, and its compiled form if it is a wildcard, has fewer than 32 characters |
| `ReplaceAll.Line.ReplaceAllStr` | tboot-xm/src/wml/util.c:79-105 | the recursion terminates, and every intermediate line fits the buffer |
| `ReplaceAll.MeasureDrops` | tboot-xm/src/wml/util.c:79-105 | each replacement shortens the line, or what is left to search behind the inserted text |
| `ReplaceAll.NothingLeft` | tboot-xm/src/wml/util.c:87-104 | the result contains no occurrence of the search string |
| `ReplaceAll.ReplaceAllIsOnePass` | tboot-xm/src/wml/util.c:79-105 | when no occurrence can overlap inserted text, starting again equals one left-to-right pass |
| `ReplaceAll.ManifestUse` | tboot-xm/src/wml/measurement.c:292 | Manifest and Measurement cannot overlap |
| `ReplaceAll.LowerManifestUse` | tboot-xm/src/wml/measurement.c:293 | manifest and measurement cannot overlap |
| `ReplaceAll.ReplaceAllDropsSlashes` | tboot-xm/src/wml/measurement.c:294 | replacing "/>" by ">" removes every run of slashes before a '>' |
| `ReplaceAll.PartsReplaced` | tboot-xm/src/wml/util.c:79-105 | one pass puts the replacement wherever the search string stood, and keeps the rest |
| `ReplaceAll.SlashesDropped` | tboot-xm/src/wml/measurement.c:294 | slashes right in front of a '>' go, all other text stays |
| `DirWalk.FirstTwoAreDots` | tboot-xm/src/wml/util.c:257-266 | skipping two sorted entries skips exactly the dot entries if and only if every name sorts after ".." |
| `DirWalk.SkippedChild` | tboot-xm/src/wml/util.c:263-266 | otherwise the skip loses a child of the directory |
| `DirWalk.HashNameSkipped` | tboot-xm/src/wml/util.c:263-266 | a file named "#x" is lost |
| `DirDescent.NoEndlessDescent` | tboot-xm/src/wml/util.c:268-281 | in a tree whose names all sort after ".." every chain of recursive calls ends by itself |
| `DirDescent.LeavesForever` | tboot-xm/src/wml/util.c:268-281 | apart from the limit on path lengths: a directory with a name that does not is left through ".." and the calls never end, wherever in the file system it stands |
| `DirDescent.WalkEndsExactly` | tboot-xm/src/wml/util.c:257-281 | apart from the limit on path lengths: the recursion comes to an end if and only if every name at every level sorts after ".." |
| `BoundedWalk.UncutExactly` | tboot-xm/src/wml/util.c:249-270 | with the limit: no call is turned away and no name fails to fit if and only if every name at every level sorts after ".." and every path fits |
| `BoundedWalk.LimitMetExactly` | tboot-xm/src/wml/util.c:249-270 | a tree is walked in full under some limit if and only if every name sorts after ".."; any other tree drives the walk into every limit |
| `DirWalk.ListingUnique` | tboot-xm/src/wml/util.c:257 | the sorted listing does not depend on the order the directory returned |
| `BoundedWalk.WalkDirRecurse` | tboot-xm/src/wml/util.c:239-306 | for every tree and path the recursion ends, fails exactly for a path that is too long, and appends the names of Walked, which follows dot entries and enters a directory again for a name that does not fit |
| `BoundedWalk.WalkedUnique` | tboot-xm/src/wml/util.c:257 | what is written is the same for every order in which directories return their entries, in every tree |
| `BoundedWalk.WalkedConfined` | tboot-xm/src/wml/util.c:288-290 | a walk for full paths writes only paths that begin with its own |
| `BoundedWalk.FittingWalk` | tboot-xm/src/wml/util.c:239-306 | where the limit is not met, the names written are those of the plain recursive walk |
| `BoundedWalk.FittingName` | tboot-xm/src/wml/util.c:268-302 | what each kind of entry contributes, dot entries included |
| `BoundedWalk.LongNameReenters` | tboot-xm/src/wml/util.c:269-281 | a name that does not fit makes the walk enter the same directory again |
| `BoundedWalk.WalkedInOrder` | tboot-xm/src/wml/util.c:249-270 | a directory contributes the entries of its sorted listing behind the first two, or nothing when its path is too long |
| `DirWalk.WalkCorrect` | tboot-xm/src/wml/util.c:268-302 | each descendant of a selected kind that passes include and fails exclude is emitted once, nothing else is, and directory order does not matter |
| `DirWalk.WalkOrdered` | tboot-xm/src/wml/util.c:268-302 | contents come before their directory, entries of a directory in the order of their names |
| `Wildcard.WildcardFilterExactly` | tboot-xm/src/wml/measurement.c:148-186 | a defined filter that fits its buffer selects what it says if and only if it holds no '+' |
| `DirectoryFilter.FilteredWalk` | tboot-xm/src/wml/measurement.c:148-205 | whatever the two matchers are, the walk lists exactly the non-directories whose base name the first lets through and the second does not stop, each once |
| `DirectoryFilter.WildcardWalk` | tboot-xm/src/wml/measurement.c:148-205 | a directory measured with wildcard attributes lists exactly the non-directories whose base name the include selects and the exclude does not reject, each once; an attribute whose compiled form is too long has no effect |
| `Measurement.Wml.GenerateCumulativeHash` | tboot-xm/src/wml/crypt.c:53-82 | the digest is folded into the cumulative hash, or left out when it has the wrong length |
| `Measurement.Wml.GenerateFileHash` | tboot-xm/src/wml/crypt.c:84-111 | the digest is the hash of the content for every chunking, and is always folded |
| `Measurement.Wml.MeasureOne` | tboot-xm/src/wml/util.c:375-465 | what can be read is folded and emitted, what cannot is neither |
| `Measurement.Wml.FindTargets` | tboot-xm/src/wml/util.c:308-347 | a search walks the directory in front of the last slash of the pattern's first token, dots and stars before it included, and reads the lines the walk wrote |
| `Measurement.Wml.MeasurePath` | tboot-xm/src/wml/measurement.c:41-118 | the line's own path or each entry found is measured, and what is left in the line buffer |
| `Measurement.Wml.MeasureDir` | tboot-xm/src/wml/measurement.c:127-209 | both filters are prepared before the directory or each one found is measured by the text of its walk |
| `Measurement.AttributeValue` | tboot-xm/src/wml/util.c:146-168 | a tag value is what stands between the quotes behind its key |
| `Measurement.AttributeOrEmpty` | tboot-xm/src/wml/util.c:214-223 | a missing attribute reads as the empty text |
| `Measurement.OpensExactly` | tboot-xm/src/wml/measurement.c:270-272 | a line opens the manifest exactly when it holds both words |
| `Measurement.WantsExactly` | tboot-xm/src/wml/measurement.c:275-283 | the algorithm is accepted exactly when it spells SHA384 in either case |
| `Measurement.OpenElementMeaning` | tboot-xm/src/wml/measurement.c:292-295 | what is written of the opening line |
| `Measurement.ChainSteps` | tboot-xm/src/wml/crypt.c:53-82 | the chain starts at 48 zero bytes and folds in each entry's digest; copied text does not count |
| `Measurement.Wml.GenerateMeasurementLogs` | tboot-xm/src/wml/measurement.c:233-331 | at every line the cumulative hash is the chain over the entries emitted so far, and the last element prints it |
| `MeasuredManifest.MeasuredLines` | tboot-xm/src/wml/measurement.c:259-316 | a manifest is refused exactly when an opening line asks for another algorithm; otherwise the entries measured are those the lines from the first opening line on ask for, in order, and none before it |
| `MeasuredManifest.OpeningLines` | tboot-xm/src/wml/measurement.c:266-301 | in front of the opening line only XML declarations are copied; the renamed opening line is written and searched |
| `MeasuredManifest.CumulativeHashOfManifest` | tboot-xm/src/wml/measurement.c:259-324 | the run succeeds exactly for supported manifests, and the printed hash is the chain over exactly the entries asked for |
| `MeasuredManifest.LineEntries` | tboot-xm/src/wml/util.c:405-465 | a file line yields one entry over the file's content if it can be read, a link line one over the link's path followed by its target, a line that names nothing none |
| `MeasuredManifest.HashAfterLine` | tboot-xm/src/wml/measurement.c:303-314 | what one more such line does to the printed hash |
| `MeasuredManifest.AfterSearch` | tboot-xm/src/wml/measurement.c:303-314 | after a search the tests look at the last path found, not at the line |
| `MeasuredManifest.UnterminatedLineIgnored` | tboot-xm/src/wml/measurement.c:259-265 | a last line without a line feed measures nothing |
| `MeasuredManifest.ManifestLinesInOrder` | tboot-xm/src/wml/measurement.c:259-265 | the manifest is looked at line by line, each with its line feed |
| `MeasuredManifest.OrderIrrelevant` | tboot-xm/src/wml/util.c:257 | the whole measurement is the same for every order in which directories return their entries |
| `MeasuredManifest.DirDigest` | tboot-xm/src/wml/util.c:349-403 | a directory's digest is the hash of the base names of exactly the non-directories below it that its two matchers let through, each once |
| `MeasuredManifest.DirLineItems` | tboot-xm/src/wml/measurement.c:127-209 | a directory line measures its directory by the prepared filters, provided both compile |
| `MeasuredManifest.WildcardDirDigest` | tboot-xm/src/wml/util.c:349-403 | with wildcard filters without '+', these are the names the filters select as written in the manifest |
| `ManifestSearch.SearchStartsExactly` | tboot-xm/src/wml/util.c:225-321 | a search starts at the literal directory of its pattern if and only if the pattern does not start with a dot or a star |
| `ManifestSearch.SearchBaseOf` | tboot-xm/src/wml/util.c:225-321 | the start of a search: what stands before the last slash of the pattern's first token, leading dots and stars included |
| `ManifestSearch.LeadingStarSearch` | tboot-xm/src/wml/util.c:225-321 | a pattern that does, and where its search starts instead |
| `ManifestSearch.NoStartNothingFound` | tboot-xm/src/wml/util.c:317-347 | a search whose start does not exist finds nothing |
| `ManifestSearch.SearchFinds` | tboot-xm/src/wml/util.c:308-347 | a search finds exactly the entries of its kind below its start whose path the pattern matches, each once |
| `ManifestSearch.SearchConfined` | tboot-xm/src/wml/util.c:308-347 | in every tree a search writes only paths below its start |
| `ManifestSearch.SearchCoversExactly` | tboot-xm/src/wml/util.c:317-321 | all paths an unanchored pattern matches lie below its search's start if and only if that is the mount point |
| `ManifestSearch.RelativeSearchMisses` | tboot-xm/src/wml/util.c:317-321 | for a pattern that does not begin with a slash, such as an anchored one, none of them do |
| `ManifestSearch.UnanchoredExpression` | tboot-xm/src/wml/util.c:323 | an expression without '^' is unanchored |

## Left out

- MeasureHost.Host.TpmExtendLoop: the replay assumes a device that accepts the commands it decodes; the tool ignores the device's verdict, so a rejected command would still be logged.
- Wildcard.CompilerCorrectness: an escaped `]` or `}` is read as that character, as common implementations do; the standard leaves it undefined.
- DirWalk.WalkCorrect: speaks of trees whose names all sort after ".."; for the others BoundedWalk.WalkDirRecurse says what is written, up to the limit on path lengths.
- BoundedWalk.WalkDirRecurse: every stat and scan below the limit succeeds, names compare by byte value, a copy that does not fit leaves its destination empty, and the program's stack is large enough.
- DirDescent.LeavesForever: has no limit on path lengths; BoundedWalk.LimitMetExactly has.
- DirDescent.WalkEndsExactly: has no limit on path lengths; BoundedWalk.UncutExactly has.
- DirectoryFilter.WildcardWalk: filters with '+' are excluded because they do not mean what they say (Wildcard.WildcardFilterExactly); what is listed for any matcher is stated by DirectoryFilter.FilteredWalk.
- Measurement.Wml.GenerateMeasurementLogs: memory allocation does not fail, lines and mounted paths fit the 512-byte buffers, attributes are quoted, and file contents, link targets and directory trees are parameters that do not change during the run.
- Measurement.Wml.FindTargets: a search whose pattern has no slash up to the end of its first token starts outside the mount point, and what it finds is a parameter; an empty line, which only a name with a line feed can produce, is read as an empty path.
- ManifestSearch.SearchFinds: names with a line feed are left out, since they break the list of entries that is read back.
- Provisioning.Tasks.RunDefineTagIndex: a TPM that has failed one call is not called again, and an index is written as a whole or not at all.
- Provisioning.DeployAssetTag: a write is taken to succeed only for a tag of the index's size; the source passes a tag of any length on, and a provider may accept a shorter one.
- Provisioning.StuckForever: removing the index by other tools than the agent is outside the model.
- Provisioning.RunKeeps: the task runner is taken to run its tasks in order until one fails; a save either happens or leaves the file alone.
- Quote.CreateTpmQuoteResponse: the TPM's signature, the AIK certificate, the event log (which must be valid JSON) and the measurement files are parameters, copied as they are; time stamps are left out.
- Reading event logs through /dev/mem: physical addresses and mappings are outside the model.
- The TPM 1.2 command bytes: the same shape as TPM 2.0; the model records only which PCR is extended by what.
- Glob expansion of an unquoted flavor label in the boot script.
- The HTTP, NATS and TLS services, the clients of other services, AIK provisioning and configuration defaults.
