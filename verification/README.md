# Connector SDK: a verified model

A connector SDK is mostly contracts: when the answers of several calendars may be combined, when a wall-clock time
names one instant, what a registry may hold, which messages may be sent. This project models the parts
of it whose contracts need an argument, and proves them for every input, every run and every choice
the surrounding libraries may make.

- **Availability** (`Intervals`, `Availability`, `AvailabilityLaws`): busy windows of several calendars
  are clipped, sorted by an unstable sort and swept by a cursor. The free time that comes out is the
  exact complement of the busy time, in the one canonical form a set of instants has.
- **Local times** (`LocalTime`): a zone is an offset and a table of transitions. Sampling a handful of
  offsets decides whether a wall-clock reading has exactly one instant, whatever `time.Date` chose.
- **Dates and writes** (`Dates`, `CalendarWrite`, `CalendarRequests`): string order of dates is day
  order, write bounds span time, entity tags, attendee lists, and patches that keep an event valid.
- **Providers and registry** (`Provider`, `SchemaCheck`, `Store`, `RegistryModel`, `RegistryRuns`,
  `Snapshots`, `RegistryHeap`, `NonAliasing`): the rules of a descriptor with its compensation graph; the
  registry as a value, as a transition system over interleaved calls, and as an object on the heap whose
  snapshots no caller can reach through anything it was given.
- **Config defaults** (`ConfigDefaults`): one pass over fields that wait for each other, its least
  fixpoint, and exactly when one pass is enough.
- **Typed operations** (`Operations`): erasing a typed handler to an untyped invocation and calling it
  through a bound provider is calling the handler.
- **Mail writes** (`Subjects`, `MailWrite`), **request size** (`JsonText`, `RequestSize`) and **web
  URLs** (`WebUrl`, `PublicAddresses`): the subject normal form, who an accepted reply reaches, the 1 MiB
  bound over real JSON text, and URL normalization over a parser and a printer, with the reserved address
  ranges as integers.

`Text`, `Ordering` and `Wrappers` hold what they share. A Go string is the sequence of its Unicode
scalar values, with its UTF-8 length as a function; instants are integer nanoseconds. What a library
decides (zone data, address syntax, case mappings, JSON, IP addresses) is a parameter, with the laws a
proof needs stated where it is used. Where the Go code loops over a list or a map, the model does too,
and the method is tied to a specification function about which the laws are proved.

Beside the laws, every operation has its outcome stated from its inputs alone (the lemmas named
`...Exactly` and their neighbours): when it succeeds, with what, and which condition gives which error,
without the specification functions its method is tied to.

`dafny verify dfyconfig.toml` checks everything.

## What the proofs show about the code

- A one-pass `ApplyConfigDefaults` reaches the fixpoint from every configuration if and only if no
  field stands before one it requires that could supply itself without it; the field rules allow such
  an order.
- `LocalDateTime` prints offsets in whole minutes, so its text denotes the instant it found, and passes
  the write check of its own zone, if and only if the offset in force is a whole number of minutes.
  Local mean time offsets of old records are not.
- Sampling offsets is exact for every table whose transitions are spaced wider than its offsets differ.
  A made-up table with three transitions within twenty seconds shows that this is a limit of the
  algorithm; it is no statement about published zone data.
- The windows in `Free` read back as RFC 3339 for every busy list if and only if both ends of the
  request lie in UTC years 0 to 9999; a window accepted with a local offset may lie outside.
- `RegisterProviderSet` is registering its members one by one, except that an empty set is refused by a
  frozen registry.
- Duplicate recipients are found by lower case and reply targets by case folding. On ASCII the two
  agree and every target is reached once; beyond it a valid reply reaches every target of every original
  it may answer exactly once if and only if no To recipient folds to the same text as another recipient.
- The rules for calendar writes put no limit on `date_time`. Every valid create is at most 948000 bytes
  and six for each byte of its `date_time` texts, every valid update 961000 and the same, so they fit in
  1 MiB while those texts take 16762 and 14596 bytes together. A longer fraction of a second keeps a
  request valid but is refused by the decoder exactly when it no longer fits.

## Model

| member | source | states |
|---|---|---|
| Intervals.CanonicalUnique | calendar/availability.go:67-82 | Two lists that are sorted, inside the window, without empty entries and with positive gaps are equal as soon as they cover the same instants |
| Intervals.FreeOfIsComplement | calendar/availability.go:71-82 | Subtracting busy intervals one by one from the window leaves a canonical list of exactly the instants of the window that no busy interval holds |
| Intervals.FreeOfUnique | calendar/availability.go:71-82 | Any canonical list with those instants is that list |
| Intervals.FreeOfDependsOnPointsOnly | calendar/availability.go:67-82 | Order, duplicates and overlaps of the busy list cannot show in the free list |
| Intervals.DoubleComplement | calendar/availability.go:35-82 | The complement of the complement is the merged busy time inside the window, and its complement is the free list again |
| Intervals.LengthIsSize | calendar/availability.go:71-82 | The summed lengths of a canonical list count its instants |
| Intervals.Conservation | calendar/availability.go:35-82 | Free length plus busy instants, overlaps counted once, is the length of the window |
| Availability.ValidateRequest | calendar/validation.go:87-99 | Decides 1 to 20 distinct well-formed calendar ids, an ordered window of at most 93 days and a known zone |
| Availability.IndexCalendars | calendar/availability.go:17-23 | The index exists exactly when no two given calendars share an id, and then holds each of them under its id and nothing else |
| Availability.ClipWindows | calendar/availability.go:35-49 | Fails exactly on an unreadable window; otherwise the clipped intervals are proper, lie in the window and cover exactly the busy instants inside it |
| Availability.Gather | calendar/availability.go:26-51 | One report per requested calendar in request order, an explicit unavailable one where none was given, completeness as the conjunction over them, and all their busy instants inside the window |
| Availability.Unexpected | calendar/availability.go:52-63 | Counting first and then searching finds a calendar that was not asked for exactly when there is one |
| Availability.SortByStart | calendar/availability.go:67 | Sorted by start and a permutation of the input; nothing is said about ties |
| Availability.Sweep | calendar/availability.go:71-82 | The cursor sweep over sorted busy intervals inside the window returns the window minus all of them |
| Availability.FreeTime | calendar/availability.go:67-82 | Sorting and sweeping gives the same free time for every order in which the sort may leave ties |
| Availability.ResolveAvailability | calendar/availability.go:12-84 | The outcome, errors in the order the code finds them included, is the one specified: refused, suppressed as incomplete, or the rendered free time |
| AvailabilityLaws.AnswersExactly | calendar/availability.go:12-66 | The call answers if and only if the request is well posed, no two given calendars share an id, each was asked for and every given window can be read. The answer shows each requested calendar in order, as given or as explicitly unavailable, and is complete when each was given completely and without errors |
| AvailabilityLaws.RefusesExactly | calendar/availability.go:13-63 | Each of the four errors from the request and the given calendars alone, in the order the code finds them; a missing, partial or failing calendar is never one |
| AvailabilityLaws.ValidIsWellPosed | calendar/validation.go:87-99 | A request is valid exactly with 1 to 20 different trimmed ids, two readable instants in order at most 93 days apart, and a known zone that is neither empty nor Local |
| AvailabilityLaws.FreeIsExactComplement | calendar/availability.go:24-82 | A complete answer lists, in canonical form, exactly the instants of the window that lie in no given calendar's busy interval |
| AvailabilityLaws.UnknownIsNeverFree | calendar/availability.go:26-34 | An answer is complete exactly when every requested calendar reported completely and without errors; an incomplete answer shows no free time |
| AvailabilityLaws.FreeDependsOnBusyInstantsOnly | calendar/availability.go:24-82 | Two complete answers over one window agree whenever the same instants are busy, whichever calendar holds which window and however windows are split, repeated or ordered |
| AvailabilityLaws.CalendarOrderIrrelevant | calendar/availability.go:17-63 | The whole outcome, errors included, is the same for every order of the calendar list |
| AvailabilityLaws.AnswerConservesTime | calendar/availability.go:35-82 | In a complete answer free length and busy instants add up to the window |
| AvailabilityLaws.RenderReadable | calendar/availability.go:68-70 | Rendered intervals read back as themselves exactly when all their ends have four-digit UTC years |
| AvailabilityLaws.FreeReadableExactly | calendar/availability.go:68-70 | Free is readable for every busy list if and only if both ends of the window are in UTC years 0 to 9999 |
| AvailabilityLaws.AnswerDoubleComplement | calendar/availability.go:12-84 | Resolving with Free as the only busy list gives the merged clipped busy time, and resolving with that gives Free back |
| AvailabilityLaws.FreeLeavesYear9999 | calendar/availability.go:68-70 | A valid request, two hours around the end of year 9999 in UTC, whose complete answer cannot be read back |
| AvailabilityLaws.YearsFrom1970 | calendar/availability.go:69 | The two bounds of printable instants are the first instants of the years 0 and 10000, in days from 1970 |
| LocalTime.DateIn | calendar/local_time.go:20 | The instant time.Date settles on used some offset of the zone |
| LocalTime.Offsets | calendar/local_time.go:21-32 | The map filled by add holds exactly the offsets of the five samples |
| LocalTime.Candidates | calendar/local_time.go:33-39 | Whatever order the map is walked in, as many candidates remain as offsets whose candidate shows the reading again, and each is one of those |
| LocalTime.SamplesAreEnough | calendar/local_time.go:21-32 | When transitions lie further apart than any two offsets, the offset of every instant showing the reading is sampled and survives, for every choice time.Date may make |
| LocalTime.CountDecides | calendar/local_time.go:33-42 | Under that spacing exactly one candidate survives if and only if exactly one instant shows the reading |
| LocalTime.LocalDateTime | calendar/local_time.go:11-44 | The outcome is the specified one for the choice time.Date made, and that choice used some offset of the zone |
| LocalTime.RefusesExactly | calendar/local_time.go:12-18 | A zone is refused if and only if its name is empty, Local, longer than 128 bytes or unknown; then a text that is no reading; everything else is decided by the instants |
| LocalTime.ResolvesExactly | calendar/local_time.go:11-42 | Over a database with spaced transitions the call answers if and only if the zone is acceptable and one and only one instant shows the reading, and then prints that instant, whatever time.Date chose |
| LocalTime.PrintsTowardZero | calendar/local_time.go:42 | The text carries the reading and the whole minutes of the offset, the rest cut off toward zero |
| LocalTime.ResolvedShows | calendar/local_time.go:33-43 | Without any hypothesis on the zone, a returned text is that of an instant whose clocks show the reading |
| LocalTime.ResolvesUniqueReadings | calendar/local_time.go:19-43 | Under the spacing it succeeds if and only if one and only one instant shows the reading, returns that instant's text, and does not depend on the choice time.Date made |
| LocalTime.ResolvedTextDenotes | calendar/local_time.go:43 | The returned text denotes that instant if and only if the offset in force is a whole number of minutes |
| LocalTime.LocalMeanTimeIsLost | calendar/local_time.go:43 | In a zone on local mean time every reading has its one instant, and the returned text denotes another one, 32 seconds off, which the write check refuses |
| LocalTime.ResolvedIsWritable | calendarwrite/validation.go:106-113 | A resolved text passes the offset check of calendar writes in its zone if and only if its offset was a whole number of minutes |
| LocalTime.WritableResolvesBack | calendarwrite/validation.go:95-115 | An accepted text stripped of its offset resolves back to itself when its reading is unique and is refused otherwise |
| LocalTime.SpacingIsNeeded | calendar/local_time.go:21-32 | A zone with crowded transitions for which an ambiguous reading is answered |
| Dates.PrintedDateParses | calendar/validation.go:105-108 | Every valid date prints to a text that parses to it |
| Dates.ParsedDatePrints | calendar/validation.go:105-108 | Every accepted text is the printed form of its date, so the second comparison in the code never fails |
| Dates.TextOrderIsDayOrder | calendarwrite/validation.go:127-130 | On accepted texts string order is the order of leap-year-correct day numbers, and equality is equality of days |
| Dates.DayNumberCountsDays | calendar/validation.go:105-108 | The day number grows by one from each date to the next on the calendar |
| Dates.YearsInDays | calendar/validation.go:105 | The years before a year take 365 days each and one for each Gregorian leap year |
| CalendarWrite.BoundsSpanTime | calendarwrite/validation.go:117-139 | Write bounds are accepted exactly when both moments are and they span at least one whole day in one zone or a positive duration |
| CalendarWrite.BoundsExactly | calendarwrite/validation.go:95-139 | Bounds are accepted if and only if they are two dates in one known zone at least a day apart, or two instants in known zones in order, each written with the offset its zone has at that instant |
| CalendarWrite.MomentsExactly | calendar/validation.go:101-113 | A moment is a full date or an instant with an offset, and not both |
| CalendarWrite.EventBoundsExactly | calendar/validation.go:115-138 | Event bounds are two dates at least a day apart, or two instants in order, which may coincide; nothing else is asked |
| CalendarWrite.ValidVersion | calendarwrite/validation.go:50-64 | Accepts exactly the texts of at most 1024 bytes that are one weak or strong entity tag with a non-empty printable body |
| CalendarWrite.TagListIsNoTag | calendarwrite/validation.go:48-64 | A list that starts with a tag is never itself a tag |
| CalendarRequests.CheckAttendees | calendarwrite/validation.go:77-93 | Decides a present list of at most 100 valid attendees no two of whom are alike in lower case |
| CalendarRequests.AttendeesExactly | calendarwrite/validation.go:66-93 | A complete list of at most 100 bare mailboxes of the three kinds, no two alike in lower case |
| CalendarRequests.CreatesExactly | calendarwrite/validation.go:176-191 | A create is one trimmed target without path steps, the one notification policy, and a draft with a title, bounded texts, bounds and attendees |
| CalendarRequests.PatchesExactly | calendarwrite/validation.go:193-212 | A patch changes something, both bounds or neither, and each field only to what a draft may hold |
| CalendarRequests.UpdatesExactly | calendarwrite/validation.go:148-234 | An update is accepted if and only if request and snapshot agree on the event and on one entity tag, a series is changed as a series and anything else as an event, the patch is valid, and the snapshot is a live event with bounded texts, event bounds, attendees and the identity its kind demands |
| CalendarRequests.BoundsAreEventBounds | calendarwrite/validation.go:117-139 | Accepted write bounds satisfy the rules of a stored event |
| CalendarRequests.AcceptedOncePerVersion | calendarwrite/validation.go:193-234 | Writing the patch of an accepted update leaves a snapshot that passes every rule, under every version the provider may give it, and the same update is accepted again if and only if the version did not change |
| SchemaCheck.CheckOptions | schema.go:258-264 | The loop with its key map decides that all options are clean and distinct |
| SchemaCheck.CheckDependencies | schema.go:211-217 | The loop decides that all dependencies are canonical, distinct and name another field |
| SchemaCheck.CheckFields | schema.go:144-153 | The loop decides that all fields are valid and their keys distinct |
| SchemaCheck.CheckSecrets | schema.go:154-163 | After the fields passed, decides that secrets are valid and that no key is repeated among fields and secrets together |
| SchemaCheck.CheckKnown | schema.go:164-170 | The two loops decide that every dependency is the key of a field |
| SchemaCheck.ValidateSchema | schema.go:134-184 | The loops, one after the other, decide exactly the rule stated of the whole schema |
| SchemaCheck.FieldByKind | schema.go:186-311 | A field is valid if and only if it is described and carries only what its kind knows: lengths and a pattern for texts, finite ordered bounds for numbers, options for a choice, nothing for the rest; its default is one value of the kind that meets them |
| SchemaCheck.SchemaIsValid | schema.go:134-184 | A schema is valid if and only if its keys are canonical, its revision trimmed, its startup known, each field and secret valid, all their keys different, every dependency a field, and a safe default start needs no input |
| SchemaCheck.KeysExactly | schema.go:441-445 | A canonical key is a small letter and at most 127 more small letters, digits, underscores and hyphens |
| SchemaCheck.LocalesExactly | schema.go:384-391 | Every locale is trimmed and not empty, with a name or a description that is not just space |
| Provider.ValidateOperations | provider.go:28-56 | Indexing the operations and looking targets up decides exactly: all valid, distinct keys, and every declared compensation has a good target |
| Provider.DescriptorIsValid | provider.go:21-58 | A descriptor is valid if and only if its schema is, it has operations, each is valid, their keys differ, and each declared compensation leads to a listed enqueue write that is idempotent, can be looked up and has no compensation itself |
| Provider.CompensationsExactly | provider.go:38-56 | Of operations valid one by one, exactly those compensations are accepted; nothing else is asked of either end |
| Provider.OperationIsValid | operation.go:24-43 | An operation is valid if and only if none of its keys is blank, its mode is known, its contract is 64 lower-case hexadecimal digits, and its effect allows what it declares |
| Provider.EffectAllows | reliability.go:59-113 | A read is naturally idempotent and declares nothing else; a reservation or a write may retain provider keys, ask for lookup and name another operation as compensation |
| Provider.RequiresReconciler | provider.go:60-67 | True exactly when some operation asks for provider lookup |
| Provider.UniqueTarget | provider.go:38-56 | In a valid descriptor a declared compensation has exactly one target, another operation, an idempotent reconcilable enqueue write without a compensation of its own |
| Provider.NoCompensationChain | provider.go:38-56 | No walk along compensations has more than one edge, and none returns |
| Provider.CompensationNeedsReconciler | provider.go:50-67 | A declared compensation makes the provider need a Reconciler |
| ConfigDefaults.ApplyConfigDefaults | schema.go:316-342 | One call is one pass in field order over supplied values, failing at the first ready default that does not decode |
| ConfigDefaults.FilledExactly | schema.go:316-353 | At every position of any field list: the field is filled if and only if its key is absent, it has a default, and each dependency is there with a value that is neither null nor a text of only space; the default must be one value other than null, anything else ends the pass with the key of the field |
| ConfigDefaults.FailureSticks | schema.go:337-339 | Where the pass ends at a position, it has ended for the whole list |
| ConfigDefaults.ValidSchemaIsUsable | schema.go:134-219 | A valid schema has distinct keys, decodable defaults and trimmed dependencies on other fields, so a pass cannot fail |
| ConfigDefaults.Filled | schema.go:316-342 | On such fields a pass always succeeds |
| ConfigDefaults.FilledExtends | schema.go:313-342 | A pass keeps every supplied value and adds only defaults of its fields |
| ConfigDefaults.FixpointIsLeastModel | schema.go:316-342 | Repeating the call at most once per field with an unset default reaches a configuration that keeps supplied values, can be filled no further, and is contained in every such configuration |
| ConfigDefaults.FixpointIgnoresOrder | schema.go:321-340 | That fixpoint is the same for every order of the fields |
| ConfigDefaults.OnePassSufficesExactly | schema.go:321-340 | One call reaches the fixpoint from every configuration if and only if no field comes before one it needs that can supply itself without it |
| ConfigDefaults.DependenciesFirst | schema.go:321-340 | One call is enough when every dependency precedes its dependents |
| ConfigDefaults.FieldRulesAllowLateDependency | schema.go:186-219 | Two valid fields in the order that needs a second call |
| Store.BatchIsAllMembers | registry.go:242-277 | A batch succeeds exactly when registering its members one by one from the same state all succeeds, with the same result, except the empty batch on a frozen registry; a refused batch changes nothing |
| Store.GatherMeans | registry.go:243-262 | The loop before the lock succeeds exactly when all members pass and their keys are distinct, and collects each under its key |
| Store.BatchOrderIrrelevant | registry.go:242-277 | Success and the resulting registry are the same for every order of the batch |
| RegistryModel.Wrap | registry.go:174-207 | The wrapper chosen by the switch offers exactly the optional capabilities the adapter implements |
| RegistryModel.AtomicGrows | registry.go:216-309 | One call never removes or replaces an entry, changes nothing after a freeze, and nothing at all when it fails |
| RegistryModel.RegistersExactly | registry.go:216-240 | One registration is done if and only if the provider is there, its descriptor is valid, it can reconcile if some operation asks for lookup, the registry is open and its place is free; then exactly that place holds its descriptor, capabilities and declared scopes. Each error has its one cause, in the order of the checks |
| RegistryModel.RegistersSetExactly | registry.go:242-277 | A set is registered if and only if the registry is open, every member is fit, no two share a place and every place is free; then each member is stored in its place and nothing else changes |
| RegistryModel.SetStopsAtFirst | registry.go:244-263 | The first member that is not fit, or shares its place with one before it, refuses the whole set with its own error |
| RegistryModel.GatheredSetStops | registry.go:264-273 | With no such member a frozen registry refuses the set, and otherwise a taken place does |
| RegistryModel.ReadsExactly | registry.go:279-324 | A freeze sets the flag and nothing else; the readers change nothing, a lookup answers with what lies under the trimmed pair of keys, and a listing with everything stored in the one increasing order of the keys |
| RegistryModel.SetIsAllMembers | registry.go:242-277 | The batch law for provider sets, adapter checks included |
| RegistryModel.SetOrderIrrelevant | registry.go:242-277 | Every permutation of a provider set has the same success and the same final registry |
| RegistryModel.IdentityExact | registry.go:212-214 | A lookup key equals the identity of a valid descriptor exactly when both trimmed halves match |
| RegistryModel.LookupIsExact | registry.go:291-296 | A lookup finds a stored entry exactly under its own connector and provider keys |
| RegistryModel.AtomicKeepsSound | registry.go:216-277 | Every call keeps each entry under its own identity, valid, and with a Reconciler where one is needed |
| RegistryModel.CompensationIsServed | registry.go:216-240 | In whatever a registry holds, a declared compensation leads in one step to its one good target and no further, and the stored wrapper offers a Reconciler |
| RegistryRuns.EveryRunIsSerial | registry.go:216-309 | Every interleaving of calls that validate outside the lock and act inside it ends in the state, and gives each finished call the answer, of running those calls one after another in the order they took effect |
| RegistryRuns.OrderRespectsTime | registry.go:216-309 | In that order a call that returned before another was made comes first |
| RegistryRuns.RunsOnlyGrow | registry.go:216-309 | Along every run entries are never removed or replaced and nothing changes after a freeze |
| RegistryRuns.RunsStaySound | registry.go:216-277 | In every run each stored entry passed the checks and lies under its identity |
| RegistryRuns.RefusedCallsLeaveNoTrace | registry.go:216-277 | Leaving a refused call out of the sequential order changes nothing |
| Snapshots.CloneField | provider.go:119-131 | A copied field reads the same and consists of fresh objects only |
| Snapshots.CloneConfigFields | provider.go:119-131 | The same for a list of fields, down to defaults, options, bounds, dependencies and localizations |
| Snapshots.CloneSecretFields | provider.go:141-148 | The same for secret fields |
| Snapshots.CloneProviderDescriptor | provider.go:112-117 | The same for a whole descriptor |
| Snapshots.CloneScopes | oauth.go:24-33 | Both levels of a scope list are fresh and equal, and nil stays nil |
| Snapshots.CloneScopeMap | registry.go:164-169 | The frozen scope map holds exactly the declared scopes of the descriptor's operations, in fresh objects |
| Snapshots.CloneBook | registry.go:163-169 | Connection scopes and operation scopes are captured together in fresh objects |
| RegistryHeap.FreezeAdapter | registry.go:161-208 | The frozen adapter keeps the value the adapter had, in fresh objects, and the adapter itself to delegate calls to |
| RegistryHeap.FrozenAdapter.Descriptor | registry.go:153-155 | Returns the captured descriptor in fresh objects |
| RegistryHeap.FrozenAdapter.OAuthConnectionTestScopes | registry.go:43-45 | Returns the captured scopes, declared or not, in fresh objects |
| RegistryHeap.FrozenAdapter.OAuthOperationScopes | registry.go:38-41 | Returns the captured scopes of an operation, declared or not, in fresh objects |
| RegistryHeap.Precheck | registry.go:217-229 | The checks before the lock refuse or admit exactly as the value model does |
| RegistryHeap.Collect | registry.go:243-262 | The loop before the lock ends with the first problem, or with every member frozen into fresh objects under its key |
| RegistryHeap.Registry.constructor | registry.go:210 | A new registry is empty and not frozen |
| RegistryHeap.Registry.Register | registry.go:216-240 | New contents and error are those of registering the value the adapter has now; the registry takes over fresh objects only |
| RegistryHeap.Registry.RegisterProviderSet | registry.go:242-277 | New contents and error are those of the batch of values, all or nothing |
| RegistryHeap.Registry.Freeze | registry.go:279-283 | Only the flag is set |
| RegistryHeap.Registry.Provider | registry.go:291-296 | Finds an adapter exactly when an entry is stored under the pair of keys, and that adapter keeps that entry |
| RegistryHeap.Registry.Providers | registry.go:311-324 | The stored adapters themselves in increasing order of their keys, whatever order the map is walked in, each keeping its entry in objects the registry owns |
| RegistryHeap.Registry.Descriptors | registry.go:298-309 | Every stored descriptor, in that order, in fresh objects |
| NonAliasing.RegisterSome | registry.go:216-277 | Registering any adapter, alone or as a set, takes over fresh objects only and removes or replaces no entry |
| NonAliasing.CallersCannotReachIn | registry.go:38-45 | A caller registers an adapter it owns; then, in any order and number, everything the caller owns or was ever handed is overwritten, others register, the registry is frozen, and descriptors, both kinds of scopes, the descriptor list and listed adapters are read: every read, made through the accessor its action names, returns what was captured, and the registry still stores the captured entry |
| NonAliasing.WritesStayOutside | registry.go:153-169 | Whatever code writes only to objects outside the registry leaves every captured adapter and the stored entry as they were |
| Ordering.IncreasingUnique | registry.go:314-318 | A set of keys has one increasing list |
| Ordering.SortedKeys | registry.go:314-318 | Sorting the keys of a map gives that list |
| Operations.CloneStrings | operation.go:269-278 | A non-nil map is copied into a fresh map with the same pairs and is left as it was; nil stays nil |
| Operations.BindCallGuards | operation.go:134-165 | A bound call runs its handler exactly when connector, provider, key, mode and hash match and the payload, null when absent, decodes; otherwise it answers with an error and nothing else |
| Operations.BindDeliveryGuards | operation.go:179-206 | The same for delivery handlers |
| Operations.BindsExactly | operation.go:134-184 | A declaration binds if and only if it is valid with its keys trimmed and a handler is given, under those keys and as declared; the two refusals are told apart |
| Operations.ProviderRoutes | provider.go:101-110 | A request for another provider or for a key that is not bound is refused as such and runs nothing; any other goes to the one binding of its key |
| Operations.BoundCallAnswers | operation.go:140-164 | The whole answer of a bound call to any request with its keys: another mode, another contract and an undecodable payload are refused in that order and run nothing; otherwise the handler runs once on the input, null where it is absent, and its failure, an output that cannot be encoded, or the output comes back |
| Operations.BoundDeliveryAnswers | operation.go:186-205 | The same for a delivery, which has no output |
| Operations.TypedCallExactly | operation.go:208-232 | What a typed caller sends through any gateway, under the trimmed keys and with nothing beside the payload, when it sends nothing, and what it makes of every answer |
| Operations.SortByKey | provider.go:92 | Sorted by key and a permutation of the input |
| Operations.ValidityIgnoresOrder | provider.go:28-56 | A descriptor stays valid under every order of its operations |
| Operations.NewProvider | provider.go:74-97 | Succeeds exactly for operations that all belong to the schema and make it a valid descriptor in whatever order they are bound; the provider then offers each of them under its key and no others |
| Operations.OnlyTheNamedHandlerRuns | provider.go:101-110 | A provider runs a handler only for a request that names its operation exactly, of which there is then only one, and otherwise answers with an error alone |
| Operations.ErasurePreservesCalls | operation.go:208-232 | For codecs that undo their own encoding of the input and the output, a typed call through the provider is a direct call of the bound handler, run once, with its output or its error |
| Operations.CallReachesHandler | operation.go:141-164 | A request that names a bound call and carries an encoded input reaches the handler once with that input and envelope; output, trailer and failure come back as the handler gave them, and an output that cannot be encoded comes back as an error alone |
| Operations.DeliveryReachesHandler | operation.go:186-205 | A delivery request that names a bound operation and carries an encoded input reaches the handler once with that input and envelope, and reports its result |
| Operations.StaleCallersRunNothing | operation.go:208-248 | A caller whose operation is not bound under exactly its keys, mode and hash gets an error and runs nothing |
| Subjects.ReplySubject | mailwrite/validation.go:60-66 | The loop terminates with the normal form of the subject |
| Subjects.MarkInAnyCase | mailwrite/validation.go:60-66 | A mark is the letters re in any case and a colon |
| Subjects.SubjectSplits | mailwrite/validation.go:60-66 | Every subject is a run of spaces and re: marks, then a text without surrounding space or leading mark, which is the result, then spaces |
| Subjects.SubjectUnique | mailwrite/validation.go:60-66 | There is no other such split: any text in normal form between such a run and trailing space is the result |
| Subjects.SubjectIdempotent | mailwrite/validation.go:60-66 | The normal form is a fixed point |
| Subjects.MarksChangeNothing | mailwrite/validation.go:60-66 | Any number of added "Re: " prefixes leaves it unchanged |
| MailWrite.CheckGroup | mailwrite/validation.go:40-46 | Continuing the duplicate check over one group decides whether all recipients so far are valid and distinct in lower case |
| MailWrite.ValidateMessage | mailwrite/validation.go:31-49 | Decides bounded texts not both blank, three present groups, 1 to 50 valid recipients in all, no two alike in lower case across the groups |
| MailWrite.MessagesExactly | mailwrite/validation.go:31-49 | A message is two bounded texts of which one says something and three given groups of together 1 to 50 bare mailboxes, no two alike in lower case |
| MailWrite.ValidateAgainst | mailwrite/validation.go:71-101 | Decides that the reply and the fresh original are valid, that they belong together with one subject class, and that every target is valid and stands in To |
| MailWrite.RepliesExactly | mailwrite/validation.go:71-101 | A reply is accepted if and only if it is valid, the original is valid, complete, sent, of that id and subject class, and every Reply-To address, or every From address where there is no Reply-To, is a usable mailbox that folds to some To recipient; with neither there is no acceptance |
| MailWrite.OriginalsExactly | mail/validation.go:69-91 | An original is identified, bounded, validly dated and has all four address lists, each of at most 50 bounded addresses |
| MailWrite.IdentifiersExactly | mail/validation.go:24-34 | An identifier is trimmed bounded text none of whose parts between slashes is a dot or two |
| MailWrite.AsciiTargetsReachedOnce | mailwrite/validation.go:31-99 | With ASCII recipients every target of an accepted reply matches exactly one recipient across To, CC and BCC, and that one is in To |
| MailWrite.ReachedOnceExactly | mailwrite/validation.go:31-99 | For any library, that holds for every original the reply may answer if and only if no To recipient folds to the same text as another recipient |
| MailWrite.LongSReachedTwice | mailwrite/validation.go:41-94 | A valid message with two recipients that fold to each other |
| MailWrite.ChainKeepsSubject | mailwrite/validation.go:78 | Along a chain of accepted replies every subject stays in the class of the first message |
| JsonText.EscapeBound | mailwrite/decode.go:10-11 | Escaped text is at most six times as long when every character is |
| JsonText.GoEscapeIsSixFold | mailwrite/decode.go:10-11 | What encoding/json writes costs at most six bytes per byte |
| JsonText.EscapeAllIsSixFold | mailwrite/decode.go:10-11 | So does escaping every character as section 7 of RFC 8259 allows |
| RequestSize.Receiver.UnmarshalJSON | mailwrite/decode.go:13-43 | Succeeds exactly for text within the limit, not null, that decodes strictly to a valid request; whatever decodes is stored even when it is then refused |
| RequestSize.ValidSendFits | mailwrite/decode.go:10-15 | Every valid send encodes to at most 1048576 bytes, summed over all recipients, and is admitted |
| RequestSize.ValidReplyFits | mailwrite/decode.go:10-15 | The same for every valid reply |
| RequestSize.ValidCreateFits | calendarwrite/decode.go:10-15 | Every valid calendar create takes at most 948000 bytes and six for each byte of its date_time texts, and is admitted whenever those take at most 16762 bytes |
| RequestSize.ValidUpdateFits | calendarwrite/decode.go:10-15 | Every valid calendar update takes at most 961000 bytes and six for each byte of its date_time texts, and is admitted whenever those take at most 14596 bytes |
| RequestSize.LongClocksRefusedExactly | calendarwrite/decode.go:13-16 | Zeros in the fraction of a second keep a create valid, and it is admitted exactly while they fit in what the rest leaves of the limit |
| RequestSize.ReceiveSend | mailwrite/decode.go:25-33 | Decoding what was encoded: every valid send is accepted and stored as it was |
| RequestSize.ReceiveReply | mailwrite/decode.go:35-43 | The same for every valid reply |
| RequestSize.ReceiveCreate | calendarwrite/decode.go:25-33 | A valid create is accepted and stored as it was if and only if its encoding is within the limit; otherwise the receiver keeps what it had |
| RequestSize.ReceiveUpdate | calendarwrite/decode.go:35-43 | The same for every valid update |
| WebUrl.UnescapeEscape | web/url.go:57 | Decoding a printed path gives its bytes back, and a printed path is a valid encoding |
| WebUrl.NormalizeURL | web/url.go:15-70 | The steps over the fields of a parsed URL compute the specified normal form or refuse |
| PublicAddresses.ContainsIsRange | web/url.go:33-37 | An address has the leading bits of a prefix exactly when it lies between its first and its last address |
| PublicAddresses.IsPublic | web/url.go:28-37 | The class checks and the loop over the listed prefixes accept exactly the addresses outside all those ranges |
| PublicAddresses.PublicInBytes | web/url.go:30-37 | The accepted IPv4 addresses in their four bytes |
| PublicAddresses.PublicInGroups | web/url.go:30-37 | The accepted IPv6 addresses in their groups of sixteen bits |
| WebUrl.IdentifyHost | web/url.go:24-46 | The host overwritten in lower case and by the address it may be is the specified identity, or is refused |
| WebUrl.SpellingParses | web/url.go:20-23 | A URL put together from its parts, with the scheme in any case, parses to those parts, unless its authority holds user information |
| WebUrl.HostIsFixed | web/url.go:24-46 | The host in a normal form is accepted again and stays as it is, for names, IPv4 and bracketed IPv6 |
| WebUrl.NormalizeIdempotent | web/url.go:15-70 | Every accepted URL normalizes to a fixed point, as the item check in web/validation.go needs |
| WebUrl.SpellingsAgree | web/url.go:47-56 | Another case of scheme or host, whether a name, an IPv4 or a bracketed IPv6 address, the default port, an empty path for the root and any readable fragment do not change the normal form (sections 6.2.2.1 and 6.2.3 of RFC 3986) |
| WebUrl.AcceptsExactly | web/url.go:15-70 | Any spelling of a public host with any path, query and fragment is accepted if and only if it is plain text of at most 4096 bytes, its parts decode to clean text, the path without a backslash, and the result is not longer; the result is scheme and host in normal form, the path as it was or re-encoded, and the query as it was |
| WebUrl.AcceptedIsWritten | web/url.go:20-46 | Whatever is accepted is written like that: a web scheme in any case, an authority the parser reads as the resulting host alone or with the default port, a path from the root and no mark before an empty query |
| WebUrl.BareMarkRefused | web/url.go:21 | A question mark without a query is refused |
| WebUrl.NamesExactly | web/url.go:71-95 | A DNS name is accepted if and only if it is written as two or more legal labels, the last starting with a letter, takes at most 253 bytes and does not end like a private name |
| WebUrl.ByteReads | web/url.go:57-61 | A percent sign and two hexadecimal digits in either case read as one byte |
| WebUrl.CharReads | web/url.go:57-61 | A plus reads as a space in a query and as itself in a path; every other character as its UTF-8 bytes |
| WebUrl.BrokenByteRefused | web/url.go:57-61 | A percent sign before anything else refuses the text |
| WebUrl.AcceptedForm | web/url.go:11-70 | A normal form is plain text of at most 4096 bytes without fragment or credentials, its host a legal DNS name or an address outside every refused range, without a port, its path from the root |
| WebUrl.PortsExactly | web/url.go:25 | Of all ports beside an accepted host, name or address of either family, only the default port of the scheme is accepted |
| WebUrl.ZonesNeverMatter | web/url.go:25-28 | An address with a zone is refused before it is parsed: address parsers that differ on such texts only give the same result for every URL |
| WebUrl.CredentialsRefused | web/url.go:21 | A URL with user information is refused, whatever the rest of it is |
| WebUrl.AcceptedNameIsLabels | web/url.go:71-95 | An accepted DNS name is the one list of at least two legal labels it is written as, rejoining to the name, with a final label that starts with a letter |
| Text.TrimSpaceSplits | registry.go:212-214 | TrimSpace cuts spaces off both ends and leaves a middle without space at its ends |
| Text.TrimSpaceUnique | registry.go:212-214 | Any such middle is what TrimSpace returns |
| Text.SplitJoins | web/url.go:80 | Splitting gives separator-free parts that rejoin to the text, two or more exactly when the separator occurs |
| Text.JoinSplits | web/url.go:80 | Joined separator-free parts are what splitting gives back |

## Left out

- LocalTime.DateIn: says only that some offset of the zone was used, because that is all time.Date promises for missing and repeated readings.
- LocalTime.ResolvesUniqueReadings: needs transitions spaced wider than the zone's offsets; LocalTime.SpacingIsNeeded shows that the code relies on it.
- LocalTime.Offsets: a transition exactly at Go's zero time, which the code takes for "no bound", is not modelled.
- Availability.SortByStart: does not fix the order of ties, as sort.Slice does not.
- SchemaCheck.ValidateSchema: a pattern is what the regexp package makes of it: blank, broken, or matching the field's default or not; a float bound is finite with a value or not.
- CalendarRequests.AcceptedOncePerVersion: takes the provider to write what the patch defines and nothing else; the write itself happens elsewhere.
- RegistryRuns.EveryRunIsSerial: takes each adapter as the value it has when its call is made; an adapter that changes its descriptor while its own registration runs is not modelled, nor are mutexes below the level of one locked section.
- RegistryHeap.Registry.Descriptors: sorts the keys and then copies, where the code copies and then sorts by identity; each entry lies under its own identity, so the lists agree.
- RegistryHeap.FreezeAdapter: the delegate's calls, OAuth authorizer and background interfaces, which the wrapper passes on, are not modelled.
- Snapshots.CloneConfigFields: nil and empty slices read the same; only the outer scope list keeps them apart, as the code does.
- Operations.NewProvider: works on descriptor values; that the schema's fields are copied is the heap model's part.
- Operations.ErasurePreservesCalls: handlers and codecs are functions of their arguments; contexts, timeouts, panics and other effects of a handler are not modelled.
- CalendarRequests.CheckAttendees: address syntax is a parameter, as in the mail model.
- RequestSize.ReceiveSend: the JSON decoder is a parameter that reads back what was written; how it parses is not modelled.
- WebUrl.NormalizeURL: parsing an authority without user information and parsing an address are library functions, with laws about names and bracketed IPv6 addresses, alone or with a port, only.
- WebUrl.SpellingsAgree: takes one address in any letter case; its other spellings (leading zeros, elided groups, mapped IPv4) are the address parser's matter.
- Strings that are not valid UTF-8; error texts; which of several simultaneous faults is reported, except where a method's outcome says so.
- Contract hashes and identities, transports, background processing, the mail and web read contracts, receipts of writes and the MCP tool contract: flat validators, DTOs or I/O owned by a host.
- Paging defaults, enum switches and length checks of single fields beyond those the properties above need.
