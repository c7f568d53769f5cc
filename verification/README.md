# Verified models of the agent tools

Dafny models of the parts of this repository whose correctness is easy to get wrong, each with a
simple meaning that the code must agree with. `dafny verify dfyconfig.toml` checks the whole project.

- **Settings lock** (`SettingsLock`, `SettingsEdits`). Processes that lock, edit and unlink, as atomic steps over a path,
  its inodes, the OS lock and the open handles. A process may crash at any step, an unlocked writer may
  step in, and removers (`acquire`), keepers (`acquire_kept`) and older binaries that open and lock without
  looking at the path again may run in any number, under the Unix rule, the Windows rule or neither. The
  lock excludes in every run exactly when removers and older binaries are not mixed; they mix on Unix, and
  on Windows when an older binary's handle lets the file be deleted under it. Where they mix a twelve-step
  run puts two processes inside. With no such mix and no unlocked writer, every run leaves the file as the
  finished calls applied one after another in lock order, each answering as it would in that order. An
  inode is not reused while a handle on it is open.
- **Settings loading** (`SettingsValues`, `SettingsSchema`, `SettingsLoad`, `SettingsLayers`,
  `SettingsPaths`, `SettingsSound`, `SettingsRegistry`, `SettingsRoundTrip`). A document is a tree of values.
  Key checks and closed readings are functions given with the schema, and so is the order a mapping is
  walked in. The wildcard matcher, the per-section and per-entry fallback, fail-closed switches, layer
  resolution and emit are modelled as the code runs them, and what is reported, what falls back and what
  loads is stated apart from how it is computed.
- **Calendar and stamps** (`Calendar`, `Stamp`). The closed-form day conversions against a calendar that
  is walked one day at a time, and the UTC stamp against its parser.
- **Wire formats** (`Signal`, `Corpus`, `Frame`, `Base64`, `HalfBlocks`). Printers and parsers that undo
  each other on arbitrary text, bytes and pictures. In `Corpus` a `char` is a byte, as the code there works on
  bytes and decodes none.
- **Ranking** (`Auc`, `Subtree`, `SubtreeRanking`). The rank form of the ROC area against its pairwise
  definition, and the rankings by tree descent for any aggregator. Scores are reals.
- **Following a moved session** (`Move`). The slot and its move as classes, and every run of ends, reads,
  stale reads and turns over them.
- **Layout** (`Width`, `TableFit`, `Table`). ANSI-aware cutting and padding, and the column fit.

Lemmas turn automatic induction off and call themselves where they need it, so each proof shows its own
recursion.

Where the code does not do what a first reading promises, the model follows the code and says exactly
when the promise holds:

- A formatted signal reads back exactly when its reply is absent or an id in class (`Signal.RoundTrip`).
- A sectioned load differs from the full load exactly when a unit that failed elsewhere is written like
  the name of one of its sections (`SettingsLayers.SectionedAgreesIff`, with a concrete schema in
  `ShadowedSectionDiffers`).
- `schema.rs` calls its shortest-first match unambiguous. A printed name determines its binding exactly when
  the pattern has at most one wildcard; with more, two legal bindings print one name
  (`SettingsSchema.UnambiguousIff`, `TwoWildcardsAmbiguous`), and the matcher finds the one that is shorter
  first (`PrintableNameMatches`).
- What a checked file loads at a key is accepted by that key or its closed reading, except in a per-entry section
  whose value is one key's: given a mapping it loads the empty one unchecked (`SettingsSound.LoadedFromFile`,
  `MappingForKey`; a list key at `{}` in `EmptyMappingLoads`).
- The lock's two release rules do not protect a remover from an older binary
  (`SettingsLock.ExclusiveIffNotMixed`, `MixedCollides`).
- The tree of way ids names the root and the node of an empty first segment alike. Node names tell apart,
  the root has each column once and an uncut descent ends exactly when no id's first segment is empty
  (`Subtree.NamesTellIff`, `RootSoundIff`, `DescentEndsIff`; at the id `/x` in `LeadingSlash`).
- `table.rs` says a pinned column keeps its width. A pinned first column is widened exactly when width is
  spare (`TableFit.PinnedKept`).
- `fit_visible` is exact except for a short text that ends inside an escape sequence, and
  `truncate_visible` to zero leaves its ellipsis (`Width.FitExact`, `Width.TruncateFits`).
- An id that ended is never settled by the move that records its end. Over a whole run an id that ended is
  settled exactly when an earlier settle took its end, that is, when a later move comes back to it
  (`Move.AlwaysSound`, `SettledAgainIff`, and a run in `ResumedLater`).

## Model

| member | source | states |
|---|---|---|
| SettingsLock.LockInvStep | tools/agent-settings/src/writer.rs:112-201 | every step of every process, crashes included, keeps the lock's invariant unless removers and unchecking lockers are mixed |
| SettingsLock.MutualExclusion | tools/agent-settings/src/writer.rs:49-88 | in every interleaving, under the Unix and the Windows rule, at most one process is past `take` and not releasing |
| SettingsLock.MixedCollides | tools/agent-settings/src/writer.rs:79-88 | a remover mixed with a locker that never looks at the path again, and whose handle does not stop the removal, ends with two processes inside |
| SettingsLock.ExclusiveIffNotMixed | tools/agent-settings/src/writer.rs:49-88 | on every platform the lock excludes in every run exactly when the two are not mixed |
| SettingsEdits.DataInvStep | tools/agent-settings/src/writer.rs:232-345 | every step keeps the file equal to the finished calls replayed, and what the process inside has read or written about the file as it stands |
| SettingsEdits.EditsSerialise | tools/agent-settings/src/writer.rs:263-312 | after any run the file is the finished edits and creates applied one after another in the order their processes took the lock; failed and no-change edits leave it, and each call answers as it would in that order |
| SettingsEdits.LoadReads | tools/agent-settings/src/writer.rs:297-301 | in every run an edit reads the file's text as it stands, and a missing file as the empty text |
| SettingsEdits.EditFinishes | tools/agent-settings/src/writer.rs:263-312 | an edit that finishes leaves the new text it makes of the file as it stands at that step, or the file as it was, and answers so |
| SettingsEdits.RenameWrites | tools/agent-settings/src/writer.rs:227-312 | a rename finishes its edit, and the file is the text the edit makes of it |
| SettingsEdits.FreeLockTaken | tools/agent-settings/src/writer.rs:112-181 | from any reachable state a lock nobody holds can be taken, whoever waits |
| SettingsEdits.CallCompletes | tools/agent-settings/src/writer.rs:263-345 | a process past `take` can finish its call alone, and then has done what the call does |
| SettingsEdits.ReaderSeesWholeVersion | tools/agent-settings/src/writer.rs:227-261 | at any step a reader sees the file as some number of finished calls left it, never part of one |
| SettingsEdits.CreateNeverReplaces | tools/agent-settings/src/writer.rs:314-345 | no create replaces an entry that is there, whoever made it and however lockers are mixed, and none answers that it did |
| SettingsEdits.CreateAnswers | tools/agent-settings/src/writer.rs:314-345 | a create answers that it wrote the file exactly when none was there, and then the file is its text |
| SettingsValues.SetInAt | tools/agent-settings/src/load.rs:454-466 | a value set at a path reads back there |
| SettingsValues.SetInElsewhere | tools/agent-settings/src/load.rs:454-466 | setting a path leaves every unrelated path as it was |
| SettingsValues.SetAllAt | tools/agent-settings/src/load.rs:454-466 | settings at prefix-free paths all read back, whatever their order |
| SettingsValues.TextAtReads | tools/agent-settings/src/load.rs:588-598 | a path of text keys reads the same through the lookup that also takes scalar keys |
| SettingsSchema.MatchInPlace | tools/agent-settings/src/schema.rs:506-535 | the backtracking matcher appends exactly the bindings of the match, and a failed branch leaves `out` untouched |
| SettingsSchema.MatchedNamePrints | tools/agent-settings/src/schema.rs:455-485 | what a match yields is legal and printing it gives the name back |
| SettingsSchema.PrintableNameMatches | tools/agent-settings/src/schema.rs:455-535 | a name some legal binding prints is matched, by a binding no longer at the first wildcard where they differ |
| SettingsSchema.SingleWildcardExact | tools/agent-settings/src/schema.rs:455-485 | with one wildcard the match is exactly the binding that prints the name |
| SettingsSchema.UnambiguousIff | tools/agent-settings/src/schema.rs:500-535 | for every key, a printed name determines the legal binding exactly when its pattern has at most one wildcard |
| SettingsSchema.TwoWildcardsAmbiguous | tools/agent-settings/src/schema.rs:500-535 | with two or more wildcards two given legal bindings print one name, and the match is not the longer one |
| SettingsPaths.TakesPathIff | tools/agent-settings/src/schema.rs:455-504 | a key takes exactly the paths its pattern gives with every wildcard bound to a segment it may be |
| SettingsPaths.FindKeyIff | tools/agent-settings/src/load.rs:236-240 | the key of a path is the first that takes it, if any does |
| SettingsPaths.FoundAlone | tools/agent-settings/src/load.rs:236-240 | with paths told apart a key is found at each path it takes, and no key above it |
| SettingsPaths.OverlapIff | tools/agent-settings/src/schema.rs:455-470 | two patterns overlap exactly when some bindings of theirs bind one path or one that leads to the other |
| SettingsPaths.LanguageAndWays | tools/ways-core/src/settings.rs:199-240 | two of the keys the tools declare are told apart by their paths |
| SettingsLoad.CheckTree | tools/agent-settings/src/load.rs:418-451 | the walk reports nothing exactly when every part of the value is taken by a key the layer admits, or is a mapping of such |
| SettingsLoad.ClosedFile | tools/agent-settings/src/load.rs:505-521 | an unparseable file becomes the closed value of every switch the layer admits, at each declared instance |
| SettingsLoad.ClosedEntries | tools/agent-settings/src/load.rs:478-503 | a refused entry name leaves the closed value of every switch under each declared or given instance |
| SettingsLoad.CheckEntries | tools/agent-settings/src/load.rs:301-359 | the entries walked one by one leave the good entries, the closed reading of the bad ones and the units that failed |
| SettingsLoad.Check | tools/agent-settings/src/load.rs:259-400 | the walk of the top-level keys accepts, fails and reports exactly what the per-key outcomes say |
| SettingsSound.PassesIff | tools/agent-settings/src/load.rs:418-451 | a value passes exactly when each of its parts does: what is at a key is admitted and accepted, and all else leads on to a key by text |
| SettingsSound.ClosedAtKey | tools/agent-settings/src/load.rs:234-252 | a closed reading holds at a key exactly the key's closed value of what the file holds there, where the layer admits it |
| SettingsSound.ClosedAboveKeys | tools/agent-settings/src/load.rs:234-252 | and above the keys nothing but mappings that are not empty |
| SettingsSound.StripExact | tools/agent-settings/src/load.rs:402-416 | stripping takes what is at the retired paths and leaves every path unrelated to them |
| SettingsSound.OwnerIff | tools/agent-settings/src/schema.rs:598-603 | a top-level key's section is the first of its file that lists it |
| SettingsSound.CleanIff | tools/agent-settings/src/load.rs:259-400 | a file is clean exactly when every top-level key has a section and, in those that are read, holds nothing retired and nothing that fails |
| SettingsSound.FailedIff | tools/agent-settings/src/load.rs:259-400 | the units that fall back are exactly the sections, entries and items that fail, and the sections with a refused name |
| SettingsSound.LoadsIff | tools/agent-settings/src/load.rs:391-399 | a top-level key loads exactly when its section does not fall back whole or it has a closed reading |
| SettingsSound.LoadedLeaves | tools/agent-settings/src/load.rs:301-399 | what loads of it is the good entries and the closed readings of the others, or the whole value that passes, or its closed reading |
| SettingsSound.LoadedItems | tools/agent-settings/src/load.rs:360-376 | what loads of a list of a per-entry section is each item that passes and the closed reading of each that does not, in order |
| SettingsSound.LoadedFromFile | tools/agent-settings/src/load.rs:259-400 | every value that loads at a key is one the file holds there, admitted and accepted by that key, or its closed reading |
| SettingsSound.MappingForKey | tools/agent-settings/src/load.rs:304-376 | given a mapping, a per-entry section whose value is one key's loads the empty mapping, whatever the key accepts |
| SettingsSound.EmptyMappingLoads | tools/agent-settings/src/load.rs:304-376 | a concrete list key for which the empty mapping loads without a finding |
| SettingsLayers.Resolve | tools/agent-settings/src/load.rs:607-643 | walking the layers upward gives the value of the highest that may hold the key and sets it, or the default |
| SettingsLayers.ResolvedIff | tools/agent-settings/src/load.rs:607-628 | a computed key resolves to its computed value, any other to what the highest layer that sets it holds, and where none does to its default |
| SettingsLayers.BarredDoNotCount | tools/agent-settings/src/schema.rs:32-53 | a user key depends on its file's user layers only, a project key on its project layers only, a machine key on no project layer |
| SettingsLayers.UnbarredDecides | tools/agent-settings/src/schema.rs:32-53 | a layer that may hold the key decides it when it sets it and no higher one does |
| SettingsLayers.ClosedKeepsSwitch | tools/agent-settings/src/load.rs:234-252 | the closed reading of a failed value holds the closed value of every switch inside it |
| SettingsLayers.WholeReadsClosed | tools/agent-settings/src/load.rs:377-399 | a switch inside a top-level value that fails reads its closed value from the layer |
| SettingsLayers.EntryReadsClosed | tools/agent-settings/src/load.rs:301-359 | a switch inside a failing entry reads its closed value from the layer |
| SettingsLayers.ItemReadsClosed | tools/agent-settings/src/load.rs:360-376 | in a list of a per-entry section the closed reading of a failing item stands in its place, the other items as they were kept |
| SettingsLayers.EntryNamesIff | tools/agent-settings/src/load.rs:478-503 | the entries closed are those the key declares and those the file names as the section allows |
| SettingsLayers.EntrySettingsIff | tools/agent-settings/src/load.rs:478-503 | the settings of closed entries are exactly every such entry's switches at their closed values |
| SettingsLayers.ClosedBindingsIff | tools/agent-settings/src/load.rs:466-475 | with nothing readable a fixed key is closed at its own path and a pattern with one wildcard at each declared instance |
| SettingsLayers.FileSettingsIff | tools/agent-settings/src/load.rs:505-521 | the settings of a closed file are exactly the switches of the sections read at those paths |
| SettingsLayers.NameReadsClosed | tools/agent-settings/src/load.rs:344-503 | a refused entry name makes every declared or given instance's switch read closed |
| SettingsLayers.NoParseReadsClosed | tools/agent-settings/src/load.rs:505-586 | from a file that does not parse every admitted switch reads closed, a fixed key at its path and a pattern with one wildcard at each declared instance |
| SettingsLayers.SwitchReadsClosed | tools/agent-settings/src/load.rs:237-586 | in each of those cases the layer answers the closed value |
| SettingsLayers.FailClosedSurvives | tools/agent-settings/src/load.rs:607-643 | the key then resolves to its closed value unless a higher layer that may hold it sets it |
| SettingsLayers.SectionedAgreesIff | tools/agent-settings/src/load.rs:259-400 | a sectioned load accepts what the full load accepts under its sections, exactly when no unit failed elsewhere is written like one of them |
| SettingsLayers.SectionedAgrees | tools/agent-settings/src/load.rs:259-400 | with section names told apart no failing section changes what another loads |
| SettingsLayers.ShadowedSectionDiffers | tools/agent-settings/src/load.rs:184-190 | a concrete schema and file where a failing entry `a.b` takes the section `a.b` with it |
| SettingsRegistry.LookedUpPrints | tools/agent-settings/src/registry.rs:54-62 | a key found by a concrete name prints that name |
| SettingsRegistry.LookupIff | tools/agent-settings/src/registry.rs:52-62 | a name is found exactly when it is a fixed key's or a legal binding of a pattern prints it, and a fixed key wins |
| SettingsRegistry.BindingsExact | tools/agent-settings/src/load.rs:712-749 | a fixed key's only binding is none, and a pattern's are its declared instances and exactly what some layer that may hold it sets |
| SettingsRegistry.DeclaredFirst | tools/agent-settings/src/load.rs:712-725 | a pattern's declared instances come first, as declared |
| SettingsRegistry.PathIsFree | tools/agent-settings/src/registry.rs:122-134 | at prefix-free paths `set_path` never meets a non-mapping |
| SettingsRegistry.ConcreteKeys | tools/agent-settings/src/registry.rs:79-92 | the loops over keys and bindings select the bound keys under the prefix, in schema order |
| SettingsRegistry.ConcreteIff | tools/agent-settings/src/registry.rs:30-92 | exactly the bindings of the keys whose section the prefix names, or whose name's first parts it is, are selected |
| SettingsRegistry.ConcreteOrder | tools/agent-settings/src/registry.rs:79-92 | they come in the order of the schema, each key's in the order of its bindings, none twice |
| SettingsRegistry.ConcreteEmittable | tools/agent-settings/src/registry.rs:79-134 | keys whose paths tell them apart emit settings at unrelated paths, under any prefix and from any layers |
| SettingsRegistry.Emit | tools/agent-settings/src/registry.rs:94-120 | each file's fragment holds the settings of the keys the prefix selects, in order, and is there only when it has one |
| SettingsRegistry.EmittedIff | tools/agent-settings/src/registry.rs:94-120 | a file's settings are exactly the resolved or default values of its keys that are no secrets and not computed |
| SettingsRegistry.EmitHolds | tools/agent-settings/src/registry.rs:94-134 | the fragment holds each selected key's value at its path, and nothing at the path of a secret or of a key without a value |
| SettingsRoundTrip.FragmentLoads | tools/agent-settings/src/load.rs:259-400 | a fragment of stored values checks clean and is accepted whole |
| SettingsRoundTrip.EmitThenLoad | tools/agent-settings/src/registry.rs:97-134 | what the registry emits under a prefix, read back as the one layer of its file, has no finding, and every emitted key resolves to its emitted value |
| Calendar.DateRecovered | tools/agent-fmt/src/when.rs:209-235 | every date of the calendar is recovered from its day number |
| Calendar.DayRecovered | tools/agent-fmt/src/when.rs:209-235 | every integer day names a date that exists and is recovered from it |
| Calendar.NumbersFollow | tools/agent-fmt/src/when.rs:209-220 | the calendar's next day, over month ends and leap years, has the next number |
| Calendar.WalksTheCalendar | tools/agent-fmt/src/when.rs:222-235 | one day number on is the calendar's next day, for every integer |
| Calendar.WalkedDate | tools/agent-fmt/src/when.rs:222-235 | the date of day `n` is the one reached by walking `n` days from 1970-01-01 |
| Calendar.DateStartAcceptsReal | tools/agent-fmt/src/when.rs:151-157 | exactly the dates of the Gregorian calendar are accepted |
| Calendar.DayStartIsDateStart | tools/agent-fmt/src/when.rs:120-125 | the start of an instant's local day is where its date starts, less than a day before it |
| Stamp.StampRoundTrip | tools/agent-fmt/src/when.rs:48-88 | parsing the stamp of any 64-bit count of seconds gives it back |
| Stamp.StampPlaces | tools/agent-fmt/src/when.rs:46-52 | up to the year 9999 the stamp is twenty characters, each number padded at its own place between its separators |
| Stamp.StampRead | tools/agent-fmt/src/when.rs:66-88 | a stamp in UTC, with space around it or not, reads as the second its date and time name, and nothing before 1970 does |
| Stamp.DateFields | tools/agent-fmt/src/when.rs:68-75 | a date reads as three numbers, the month to twelve and the day to thirty-one |
| Stamp.TimeFields | tools/agent-fmt/src/when.rs:76-84 | a time reads as hours to 23, minutes to 59 and seconds to 60, any fraction dropped |
| Stamp.ZoneNeeded | tools/agent-fmt/src/when.rs:63-67 | a stamp with another zone or none is refused |
| Signal.FormatTagged | tools/agent-identity/src/signal.rs:235-255 | the line appended piece by piece is header, tags in class in the fixed order, thread field and message |
| Signal.ParseSignal | tools/agent-identity/src/signal.rs:154-206 | the loop takes tags off the message as the one-segment reading says |
| Signal.RoundTrip | tools/agent-identity/src/signal.rs:129-262 | a formatted line reads back as sanitised header, tags in class, reply and message as sent, exactly when the reply is absent or an id |
| Signal.SentAsIs | tools/agent-identity/src/signal.rs:120-262 | a signal whose header, tags and reply are in their classes comes back exactly as sent, whatever its message |
| Signal.LineText | tools/agent-identity/src/signal.rs:218-262 | the line is the header, the tags in their order, the thread field where there is a reply or the message looks tagged, and the message |
| Signal.ParsesIff | tools/agent-identity/src/signal.rs:154-166 | a line is a signal exactly when three fields without a control character end at separators |
| Signal.PlainRead | tools/agent-identity/src/signal.rs:154-206 | a header with a message no tag starts reads as they are, whitespace in the sender mended |
| Signal.BadTagStays | tools/agent-identity/src/signal.rs:178-206 | a tag out of its class and a second tag of one key are the message's own text |
| Signal.BadThreadStays | tools/agent-identity/src/signal.rs:178-206 | a thread field that names no id is the message's own text |
| Signal.Reformatted | tools/agent-identity/src/signal.rs:154-262 | formatting and reparsing any parsed signal changes nothing |
| Corpus.JsonEscape | tools/way-embed/way-embed.cpp:111-120 | each character of the string is escaped in place, in order |
| Corpus.JsonGetString | tools/way-embed/way-embed.cpp:36-64 | the value from the first quote behind the key's first occurrence, unescaped to its closing quote |
| Corpus.UnescapeEscape | tools/way-embed/way-embed.cpp:51-120 | reading an escaped text up to its closing quote gives it back |
| Corpus.NoHit | tools/way-embed/way-embed.cpp:36-64 | no occurrence of another key starts in a field, whatever its value holds |
| Corpus.RecordRead | tools/way-embed/way-embed.cpp:361-380 | each value of a written record is read as it was written, whatever the values before it hold |
| Corpus.LoadCorpus | tools/way-embed/way-embed.cpp:136-173 | the file is read chunk by chunk as `fgets` cuts it, an entry for each line with an id |
| Corpus.Generate | tools/way-embed/way-embed.cpp:356-380 | the file written is one record line for each entry |
| Corpus.LoadsWritten | tools/way-embed/way-embed.cpp:136-380 | loading a written file gives back every entry with an id, in order, its strings unchanged, when no line is longer than the buffer and strings hold no NUL |
| Corpus.LoadsWrittenIff | tools/way-embed/way-embed.cpp:136-380 | and entries with ids all come back only then |
| Corpus.OtherEscapes | tools/way-embed/way-embed.cpp:51-62 | an escape that is not written stays as it is |
| Corpus.SpacedRead | tools/way-embed/way-embed.cpp:36-50 | a key that stands only with a space behind its colon is read so |
| Frame.OneLineIs | plugins/attend/hooks/lib.ts:927-933 | whatever the text, its one-line form has single spaces only and none at its ends |
| Frame.OneLineWords | plugins/attend/hooks/lib.ts:927-933 | the one-line form is the text's words with single spaces between |
| Frame.GapsAre | plugins/attend/hooks/lib.ts:927-933 | printable ASCII but the space is kept, and line ends, control, zero-width and separator characters are gaps |
| Frame.PlainKept | plugins/attend/hooks/lib.ts:927-933 | words of printable ASCII with single spaces between are one line already |
| Frame.DefusedSafe | plugins/attend/hooks/lib.ts:965-979 | in a defused line what follows a `<`, however many spaces on, is no slash and not the tags' word in any case |
| Frame.DefuseExact | plugins/attend/hooks/lib.ts:965-979 | only a `<` changes, and exactly where no allowed character that does not start the word follows its spaces |
| Frame.OneBlock | plugins/attend/hooks/lib.ts:981-988 | a framed delivery has one opening and one closing tag, at known places, and no other `<` in it starts one in any spacing or case |
| Frame.CleanExact | plugins/attend/hooks/lib.ts:927-989 | a line as framed is the text's words with single spaces, and only a `<` that may not stay changed |
| Frame.FrameLines | plugins/attend/hooks/lib.ts:949-989 | the frame's lines are the silence line, the header, the opening tag, each line as framed, the closing tag and in full the preamble |
| Frame.LinesReadBack | plugins/attend/hooks/lib.ts:981-1001 | the lines read back are exactly the non-empty lines, one line each and defused |
| Frame.AllLinesBack | plugins/attend/hooks/lib.ts:981-1001 | every line with anything but gaps in it is read back, in order |
| Base64.ToBase64 | plugins/images/hooks/lib.ts:306-319 | the text built group by group is the encoding of the bytes |
| Base64.FromBase64 | plugins/images/hooks/lib.ts:321-337 | the array filled while there is room is the decoding of the text's symbols |
| Base64.Vectors | plugins/images/hooks/lib.ts:304-319 | the text agrees with test vectors of section 10 of RFC 4648 |
| Base64.RoundTrip | plugins/images/hooks/lib.ts:304-337 | decoding the text of any bytes gives the bytes back |
| HalfBlocks.PackHalfBlocks | plugins/images/hooks/lib.ts:264-294 | every cell of the picture is packed from its two pixels, at its place |
| HalfBlocks.PixelShown | plugins/images/hooks/lib.ts:257-294 | every pixel's colour, or that it is clear, is read off the cells |
| HalfBlocks.BytesShown | plugins/images/hooks/lib.ts:257-294 | what the cells show is the picture's own bytes, clear under half alpha, and nothing below its last row |
| HalfBlocks.CellsToBase64 | plugins/images/hooks/lib.ts:296-302 | the text is the base64 of the words, least significant byte first |
| HalfBlocks.PixelInText | plugins/images/hooks/lib.ts:257-337 | every pixel is read off the text its cells become |
| Auc.Ranks | experiments/content-corpus/judge_ab.py:641-648 | each value of the sorted list is given its wins over the list and a half, ties averaged |
| Auc.WinsSumToPairs | experiments/content-corpus/run.py:182-186 | wins and losses over all pairs sum to the number of pairs |
| Auc.RankAuc | experiments/content-corpus/judge_ab.py:637-650 | the rank form is the pairwise definition, with any pattern of ties |
| Auc.AreaIsShare | experiments/content-corpus/run.py:182-186 | with both sides there is an area, the share of the pairs won, and the sides exchanged it is what is left to one |
| Subtree.Build | experiments/content-corpus/subtree.py:63-79 | for any ids, every node's columns and children are those the ids' joined prefixes file under its name, as often as they do |
| Subtree.UnderGood | experiments/content-corpus/subtree.py:63-79 | with no empty first segment a node's columns are exactly the ways at or below it, each once |
| Subtree.UnderAscends | experiments/content-corpus/subtree.py:63-79 | in column order |
| Subtree.ChildrenGood | experiments/content-corpus/subtree.py:63-79 | and its children exactly the nodes one segment further down some way below it |
| Subtree.NamesTellIff | experiments/content-corpus/subtree.py:63-79 | the joined names tell every two nodes apart exactly when no id's first segment is empty |
| Subtree.RootSoundIff | experiments/content-corpus/subtree.py:63-79 | the root has each column once, and is not its own child, exactly then |
| Subtree.DescentEndsIff | experiments/content-corpus/subtree.py:91-112 | the ways down from the root are bounded, so an uncut descent ends, exactly then |
| Subtree.OwnColumnIff | experiments/content-corpus/subtree.py:68 | each way's own score is found by its id exactly when no id is given twice |
| Subtree.LeadingSlash | experiments/content-corpus/subtree.py:70-79 | at the id `/x` the root is its own child and has the one column twice |
| SubtreeRanking.DescentRanking | experiments/content-corpus/subtree.py:91-112 | for any aggregator and depth, every way below the node once, flat by score where it is cut and elsewhere entry by entry, higher scores first; under a maximum the best first |
| SubtreeRanking.FlatOrder | experiments/content-corpus/subtree.py:97-99 | a flat list is by score, and ties are in column order |
| SubtreeRanking.RegionIs | experiments/content-corpus/subtree.py:85-88 | a region is worth what the aggregator makes of its ways' scores in column order and of the node's own way's |
| SubtreeRanking.TopkRanking | experiments/content-corpus/subtree.py:115-121 | the best domains' ways by score, then the other ways as the descent cut at the domains lists them; every way once; under a maximum the best first; no domain left out outscores a chosen one |
| SubtreeRanking.WithoutOrder | experiments/content-corpus/subtree.py:120-121 | the ways left over keep their order |
| Basics.SortStable | experiments/content-corpus/subtree.py:97-119 | sorting keeps the order of what ties |
| SubtreeRanking.SoftArgmax | experiments/content-corpus/subtree.py:22-25 | with the maximum and a weight of at least zero, the argmaxes of the soft scores are those of the plain ones |
| Move.MoveSlot.RecordMove | plugins/attend/hooks/move.ts:58-74 | the slot after an end: a move in progress takes the id and waits anew, one given up on lends its ids |
| Move.MoveSlot.ClaimMove | plugins/attend/hooks/move.ts:85-91 | only the move still in the slot is claimed, under an id that did not end |
| Move.MoveSlot.ReadOutcome | plugins/attend/hooks/move.ts:104-118 | a read settles, waits or gives up; a stale one changes nothing |
| Move.MoveSlot.SettleIfMoved | plugins/attend/hooks/register.tsx:319-336 | a turn settles the move or the one given up on, when its id did not end |
| Move.AlwaysSound | plugins/attend/hooks/move.ts:58-118 | in every run each settled record sums up exactly the ends since the settle before, across a give-up too, under an id not among them |
| Move.EndsConserved | plugins/attend/hooks/move.ts:58-118 | every end is settled once, in order, or still to be settled |
| Move.SettlesIff | plugins/attend/hooks/move.ts:77-118 | in every run a turn with anything pending, or a read by the watch, settles all of it and empties the slot exactly when its id did not end; every other step settles nothing |
| Move.GivesUpOn153rd | plugins/attend/hooks/move.ts:20-118 | reads and turns that settle nothing leave the move waiting through 152 reads and give it up on the 153rd |
| Move.OneRead | plugins/attend/hooks/move.ts:20-118 | a read that settles nothing waits twice as long up to two seconds, and the 153rd gives up with the record |
| Move.SettledAgainIff | plugins/attend/hooks/move.ts:1-118 | in every run a settled id is among the ids ended by then exactly when an earlier settle took its end |
| Move.EndRestarts | plugins/attend/hooks/move.ts:55-74 | each end leaves a move that holds its id and waits from the start, and nothing given up on |
| Move.ResumedLater | plugins/attend/hooks/move.ts:1-12 | a concrete run in which an id that ended is settled by a later move |
| TableFit.Pick | tools/agent-fmt/src/table.rs:214-219 | the last of the widest columns of a kind that can still narrow |
| TableFit.FitUnique | tools/agent-fmt/src/table.rs:195-229 | the conditions of a fit leave one answer |
| TableFit.Widths | tools/agent-fmt/src/table.rs:201-229 | the columns end as the one fit, spare width in the first |
| TableFit.WidthsFill | tools/agent-fmt/src/table.rs:195-229 | the widths sum to what is available or to the floors, whichever is more; no pinned column narrows |
| TableFit.PinnedKept | tools/agent-fmt/src/table.rs:107-114 | a pinned column keeps its width except a first one when width is spare |
| Table.Table.Add | tools/agent-fmt/src/table.rs:122-135 | each column stays as wide as its widest cell, however many cells the row has |
| Table.WidestIs | tools/agent-fmt/src/table.rs:110-135 | that width is the header's bytes or some cell's, and none is wider |
| Table.BytesFewest | tools/agent-fmt/src/table.rs:70-98 | a header counts its UTF-8 bytes |
| Table.RenderRow | tools/agent-fmt/src/table.rs:178-190 | a row is its cells truncated, padded and joined |
| Table.CellExact | tools/agent-fmt/src/table.rs:185-253 | a cell that does not end inside a sequence fills its column exactly |
| Table.CellShows | tools/agent-fmt/src/table.rs:243-253 | the padding stands on the side the column is not aligned to |
| Table.RowWidth | tools/agent-fmt/src/table.rs:157-193 | a full row is as wide as the indent, the columns and the spaces between |
| Table.RowShows | tools/agent-fmt/src/table.rs:178-190 | a row shows, at each column's place behind a space, that column's own cell cut to its width and on its side |
| Table.RowFillsTerminal | tools/agent-fmt/src/table.rs:157-229 | a full row is as wide as the terminal, or as the floors force |
| Width.VisibleLen | tools/agent-fmt/src/width.rs:14-29 | the count over the `in_escape` flag is the visible length |
| Width.TakeVisible | tools/agent-fmt/src/width.rs:33-55 | the loop takes the longest prefix that fits, and says whether anything visible was dropped |
| Width.TakeKeeps | tools/agent-fmt/src/width.rs:31-55 | what is taken is a prefix as long as there is room for, cut exactly when there is more, and a cut stops outside a sequence |
| Width.ClipWidth | tools/agent-fmt/src/width.rs:80-87 | a clip is as wide as the text or the edge, whichever is less, for every string |
| Width.ResetIsSequence | tools/agent-fmt/src/width.rs:57-64 | the reset written is one escape sequence |
| Width.ClipSealed | tools/agent-fmt/src/width.rs:57-87 | a clip that cuts is the text before the cut, and the reset when that holds an escape |
| Width.TruncateSealed | tools/agent-fmt/src/width.rs:57-78 | a truncation that cuts is the text before the cut, the ellipsis, and the reset when that holds an escape |
| Width.TruncateWidth | tools/agent-fmt/src/width.rs:66-78 | a truncation that cuts is exactly as wide as it may be, its ellipsis included |
| Width.TruncateFits | tools/agent-fmt/src/width.rs:66-78 | it fits exactly when there is room for an ellipsis or nothing to show |
| Width.PadWidth | tools/agent-fmt/src/width.rs:89-98 | padding counts unless a sequence is still open |
| Width.ClipShows | tools/agent-fmt/src/width.rs:80-87 | a clip shows the first characters of what the text shows, as many as fit |
| Width.TruncateShows | tools/agent-fmt/src/width.rs:66-78 | a truncation that cuts shows the first characters and the ellipsis |
| Width.FitShows | tools/agent-fmt/src/width.rs:100-103 | a fit shows the clip, then spaces up to the width |
| Width.FitExact | tools/agent-fmt/src/width.rs:100-103 | a fit is exactly the width unless a short text ends inside a sequence |

## Left out

- YAML text: parsing, `yaml_edit`, comments, finding lines and messages; a document is its value tree, and an edit is a total function on the file's text.
- Symbolic links, permissions, `fsync`, retry sleeps and the limit of `acquire_within`; a process may give up before it has the lock at any time.
- SettingsLayers.SectionedAgrees: assumes section names apart from one another and from the units of per-entry sections, and one top-level key for each per-entry section; `SectionedAgreesIff` says without that exactly when it holds.
- SettingsLayers.FailClosedSurvives: makes the same assumption about names, and for a file that does not parse or refuses a name that the keys' paths tell them apart.
- The order a mapping is walked in is a parameter; `set_in` and `set_path` work on values, without the source's descent through mutable references.
- Computed choices and their notes (`check_choices`), `overridden`, `is_higher` and the tracing of loads.
- `parse_span`, `parse_local_date`, `compact_time`, labels such as `ago`, and the probe for the local offset.
- Calendar.WalksTheCalendar: days are unbounded integers; the source's 64-bit arithmetic overflows only for days no clock names.
- Delivery rules over a parsed signal (`tray_reads`, `wakes`, `sender_id`), its size limits and its files.
- Corpus.LoadCorpus: leaves out `threshold`, `embed_threshold` and `embedding`, which `strtod` reads.
- Corpus.LoadsWritten: the number fields and the vector are an arbitrary text without newline or NUL, as floating-point printing is not modelled, and `snprintf`'s 256-byte pattern is not reached by the three keys.
- Frame.OneLineIs: characters are Unicode code points, not UTF-16 units, so a lone surrogate is not represented.
- SettingsRoundTrip.EmitThenLoad: assumes that the keys of the file are one component's, that their paths tell them apart, and that each emitted value is one its key and section take.
- The image tools' sizing, probing and option handling, and reading pixels from a file.
- SubtreeRanking.DescentRanking: requires ids that are given once and have a first segment that is not empty; `Subtree.OwnColumnIff`, `RootSoundIff` and `DescentEndsIff` say what is lost otherwise.
- SubtreeRanking.TopkRanking: requires the same of the ids.
- Auc.RankAuc: scores are reals, so rounding and NaN are not modelled; a missing side gives no number.
- Timers, the hold in `$.state` and logging around a move; a stale read stands for any in-flight read of a move no longer in the slot.
- Move.AlwaysSound: a move is adopted at the module's start only.
- The table's header line and rule, which the theme paints, and the detection of the terminal's width.
- Width.ClipWidth: the theme's reset is taken to be one escape sequence that a letter ends; double-width and combining characters count as one, as in the source.
