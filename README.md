# ListingProxy, modelled in Dafny

`gcsproxy/listing_proxy.go` defines `ListingProxy`, a view of one "directory"
of a Google Cloud Storage bucket. A directory is an object-name prefix that is
empty (the root) or ends in `/`. The proxy answers `List` from a cached listing
for ten seconds (`ListingCacheTTL`). For five minutes (`ModificationMemoryTTL`)
it patches every listing with the modifications made locally, because a bucket
listing may not show one's own recent writes. It keeps:

- the cached `contents`: full name to object or sub-directory;
- `contentsExpiration`;
- a journal `childModifications` of recent additions and removals, oldest first;
- the journal's index by name, `childModificationsIndex`.

The model has five modules:

- `Wrappers` (`wrappers.dfy`): `Option` and `Result`.
- `Names` (`names.dfy`): the name validators `isDirName`, `checkObjectName` and
  `checkSubdirName`, following the Go functions line for line, with Go's `strings.TrimPrefix` and
  `strings.IndexByte`. Beside them are the definitions of "file" and
  "sub-directory" from the type's documentation, and lemmas relating the two.
- `Entries` (`entries.dfy`): objects and nodes, the well-formedness of a
  contents map, and the validating half of a refresh as a function of the
  listed objects and prefixes.
- `Journal` (`journal.dfy`): modification records and their playback. It also
  has supersede-by-name (`list.Remove` of the indexed element) and the
  front-only prune of `cleanChildModifications`, with their lemmas.
- `GcsProxy` (`listing_proxy.dfy`). First come the proxy's state as a value
  (`Snapshot`) and what each operation does to it, as functions with lemmas.
  Then comes the class `ListingProxy`, whose fields are the Go struct's mutable
  fields and whose methods update them in place, each proved against the
  matching function. `Valid()` is the set of conditions `CheckInvariants`
  tests, and every public method keeps it.

Time is an integer number of nanoseconds. `Before` is `<`, `Add` is `+`, and
the zero `time.Time` is `0`. Instants before it exist in the model but not on
Go's clock; `GcsProxy.InitialIsStale` shows that from the zero time on a new
proxy's cache is always stale. The bucket listing is an input: objects and
prefixes, or a failure.

Where the code and its comments disagree, the model follows the code:

- With the root directory `""`, `strings.TrimPrefix` changes nothing. So
  `checkObjectName` and `checkSubdirName` refuse every name, although the type's
  documentation (lines 22-62) lists `taco` and `burrito/` as root children. The
  lemmas `Names.RootRefusesEveryObjectName`,
  `Names.RootRefusesEverySubdirName` and
  `Names.RootDocumentedChildrenRefused` state this. For the root, every
  non-empty listing that holds a non-placeholder name is refused, and
  `NoteNewObject` always fails.
- The field comment at line 105 says `checkObjectName(o.Name) != nil`. The
  checker at line 251 demands `== nil`, and so does the model.
- The documentation requires a sub-directory to have at least one object below
  it (lines 37-38). Nothing in this file checks that. The prefixes the bucket
  returns are taken as they are.
- `NoteNewSubdirectory` and `NoteRemoval` are stubs that always return an
  error. Their deferred prune still runs, and the model does the same.

## Model

| member | source | states |
|---|---|---|
| Names.DirNameShape | gcsproxy/listing_proxy.go:405-407 | `IsDirName`, the definition of `isDirName` as written, holds exactly for the empty string and for some string followed by a single `/` |
| Names.TrimPrefix | gcsproxy/listing_proxy.go:415 | the result is `s` without `prefix` when `s` starts with it, and `s` itself otherwise |
| Names.IndexByte | gcsproxy/listing_proxy.go:421 | the result is -1 exactly when `c` does not occur, and otherwise the index of its first occurrence |
| Names.CheckObjectName | gcsproxy/listing_proxy.go:409-427 | the definition as written; for a directory name it refuses with `NotAnObjectName` exactly the directory names, and what it accepts is a file of the directory (`Names.CheckObjectNameSpec` gives the converse) |
| Names.CheckObjectNameSpec | gcsproxy/listing_proxy.go:409-427 | for a directory name `dir`, checkObjectName accepts `n` iff `dir` is not the root and `n` is a file of `dir` in the documented sense (strict prefix, no slash after it) |
| Names.RootRefusesEveryObjectName | gcsproxy/listing_proxy.go:415-419 | with the root directory every object name is refused |
| Names.OneSlashAtEnd | gcsproxy/listing_proxy.go:443-446 | for a slash-terminated rest, "first slash is the last character" is the same as "exactly one slash" |
| Names.CheckSubdirName | gcsproxy/listing_proxy.go:429-447 | the definition as written; it refuses with `NotADirectoryName` exactly the names that are not directory names, and for a directory name what it accepts is a strict descendant ending in its only slash after the prefix (`Names.CheckSubdirNameSpec` gives the converse) |
| Names.CheckSubdirNameSpec | gcsproxy/listing_proxy.go:429-447 | for a directory name `dir`, checkSubdirName accepts `n` iff `dir` is not the root and `n` is an immediate sub-directory of `dir` in the documented sense (strict prefix, exactly one slash after it, at the end) |
| Names.RootRefusesEverySubdirName | gcsproxy/listing_proxy.go:435-439 | with the root directory every sub-directory name is refused |
| Names.AcceptedSubdirIsStrictDescendant | gcsproxy/listing_proxy.go:499-503 | a name checkSubdirName accepts starts with the directory prefix and differs from it, so the non-descendant test of a refresh never fails |
| Names.AcceptedObjectIsStrictDescendant | gcsproxy/listing_proxy.go:225-228 | a name checkObjectName accepts is a strict descendant of the directory, as the checker demands of every key |
| Names.ObjectAndSubdirNamesDisjoint | gcsproxy/listing_proxy.go:409-447 | no name is accepted both as an object name and as a sub-directory name |
| Names.RootDocumentedChildrenRefused | gcsproxy/listing_proxy.go:40-62 | `taco` and `burrito/` are a file and a sub-directory of the root by the documented definitions, yet the validators refuse both as not descendants |
| Entries.ObjectEntries | gcsproxy/listing_proxy.go:471-486 | the objects loop as written, on values; an accepted map holds under each key an object of that name with a legal name, never the placeholder, and a refusal is always a bad object name |
| Entries.SubdirEntries | gcsproxy/listing_proxy.go:488-506 | the prefixes loop as written, on values; an accepted map keeps every key of the object map and holds every listed prefix as the sub-directory of its own name, and a refusal is about a prefix |
| Entries.ObjectEntriesFirstFault | gcsproxy/listing_proxy.go:471-486 | the first object with an illegal name refuses the whole listing, whatever follows it |
| Entries.SubdirEntriesFirstFault | gcsproxy/listing_proxy.go:488-506 | the first illegal prefix refuses the whole listing, whatever follows it |
| Entries.ObjectEntriesAccepts | gcsproxy/listing_proxy.go:471-486 | the objects are accepted iff every object other than the directory's placeholder has a legal object name |
| Entries.ObjectEntriesMap | gcsproxy/listing_proxy.go:471-486 | accepted objects give a map whose keys are exactly the listed names other than the placeholder, each mapped to a listed object of that name |
| Entries.ObjectEntriesFault | gcsproxy/listing_proxy.go:480-484 | a refusal of the objects names a listed non-placeholder object and the reason checkObjectName gives for it |
| Entries.SubdirEntriesAccepts | gcsproxy/listing_proxy.go:488-506 | the prefixes are accepted iff each is a legal sub-directory name |
| Entries.SubdirEntriesMap | gcsproxy/listing_proxy.go:488-506 | accepted prefixes are added to the object map, each as a sub-directory of its own name, and nothing else changes |
| Entries.SubdirEntriesFault | gcsproxy/listing_proxy.go:490-503 | a refusal of the prefixes names a listed prefix and checkSubdirName's reason; the non-descendant refusal never occurs |
| Entries.ListingEntriesSpec | gcsproxy/listing_proxy.go:456-506 | a listing is accepted iff all its names are legal; the new contents are then well formed, omit the directory's own name, and hold exactly the listed objects and prefixes |
| Entries.ListingEntriesFault | gcsproxy/listing_proxy.go:480-503 | a refused listing is refused for a listed illegal name, never as a non-descendant |
| Journal.PlayBack | gcsproxy/listing_proxy.go:548-556 | after playback the contents reflect the record (removal: name absent; addition: name maps to the node) and every other name is untouched |
| Journal.ExpiredCount | gcsproxy/listing_proxy.go:527-538 | the count is the length of the longest run of records at the front with `!now.Before(expiration)`: those are expired and the next one, if any, is live |
| Journal.Replay | gcsproxy/listing_proxy.go:515-518 | the playback loop as written, on values; the result holds no name that is neither in the old contents nor in the journal |
| Journal.ReplayReflects | gcsproxy/listing_proxy.go:515-518 | replaying a journal with unique names leaves every record reflected and every name it does not mention as it was |
| Journal.ReplayKeepsWellFormed | gcsproxy/listing_proxy.go:515-518 | replaying well-formed records onto well-formed contents keeps them well formed |
| Journal.ReflectedRecordsWellFormed | gcsproxy/listing_proxy.go:119-122 | records reflected in well-formed contents are themselves well formed |
| Journal.WithoutSpec | gcsproxy/listing_proxy.go:351-355 | deleting the record of a name keeps exactly the other records, removes exactly that name, and keeps names unique |
| Journal.WithoutAbsent | gcsproxy/listing_proxy.go:351-355 | deleting a name the journal does not hold changes nothing |
| Journal.WithoutAt | gcsproxy/listing_proxy.go:540-545 | with unique names, deleting the name of record `i` removes just that record and keeps the others in order |
| Journal.Prune | gcsproxy/listing_proxy.go:523-546 | `cleanChildModifications` on the journal; the result is a suffix of the journal, every record dropped had expired at `now`, and its first record, if any, is live |
| Journal.PruneKeepsLive | gcsproxy/listing_proxy.go:523-546 | a record still live at `now` survives the prune |
| Journal.PruneAppendLive | gcsproxy/listing_proxy.go:343-364 | appending a live record and then pruning is pruning and then appending |
| Journal.PruneExactWhenSorted | gcsproxy/listing_proxy.go:535-537 | when expirations do not decrease along the journal, the prune leaves only live records (otherwise expired ones may remain, as the comment admits) |
| Journal.PruneIdempotent | gcsproxy/listing_proxy.go:523-546 | pruning twice at the same instant is pruning once |
| Journal.SuffixKeeps | gcsproxy/listing_proxy.go:119-122 | dropping a prefix of the journal keeps names unique and records reflected |
| Journal.SuffixIndexed | gcsproxy/listing_proxy.go:540-545 | dropping the first `k` records and deleting their names from the index keeps the index exact |
| Journal.SupersedeUnique | gcsproxy/listing_proxy.go:351-362 | deleting a name's record and appending a new one keeps names unique and leaves the new record the only one of its name |
| Journal.SupersedeIndexed | gcsproxy/listing_proxy.go:351-362 | the index updated alongside a supersede-and-append stays exact |
| Journal.IndexDetermined | gcsproxy/listing_proxy.go:125-130 | with unique names, an index satisfying the index invariants is determined by the journal |
| GcsProxy.InitialInv | gcsproxy/listing_proxy.go:193-200 | a new proxy with a legal name satisfies the invariants |
| GcsProxy.PrunedInv | gcsproxy/listing_proxy.go:523-546 | pruning keeps the invariants |
| GcsProxy.SupersedeInv | gcsproxy/listing_proxy.go:351-367 | superseding with a well-formed record and playing it back keeps the invariants |
| GcsProxy.RefreshInv | gcsproxy/listing_proxy.go:450-521 | a refresh keeps the invariants, whatever the listing |
| GcsProxy.NoteObjectInv | gcsproxy/listing_proxy.go:339-370 | NoteNewObject keeps the invariants |
| GcsProxy.Refresh | gcsproxy/listing_proxy.go:450-521 | `ensureContents` on the proxy's state; a failure changes nothing, the expiration never moves back, and the journal only loses records |
| GcsProxy.NoteObject | gcsproxy/listing_proxy.go:339-370 | `NoteNewObject` on the proxy's state; it succeeds iff `checkObjectName` accepts the name, fails with that reason otherwise, maps the name to the object on success, and never moves the expiration |
| GcsProxy.InitialIsStale | gcsproxy/listing_proxy.go:194-200 | a new proxy's cache is stale at every instant from the zero time on: the first refresh consults the listing, succeeds iff it is legal, and then holds exactly the listed names with an empty journal |
| GcsProxy.RefreshAllOrNothing | gcsproxy/listing_proxy.go:450-506 | fresh contents make a refresh a no-op; a failed refresh changes nothing; it fails iff the contents are stale and the listing failed or holds an illegal name |
| GcsProxy.RefreshSucceeds | gcsproxy/listing_proxy.go:472-518 | a successful refresh of stale contents sets the expiration to `now + ListingCacheTTL`, prunes the journal, omits the directory's placeholder, reflects every remaining record, and otherwise shows exactly the listed names, each holding a listed object (line 485) or the sub-directory of a listed prefix (line 505) |
| GcsProxy.JournalMasksListing | gcsproxy/listing_proxy.go:110-117 | a record live at `now` survives a successful refresh at `now` and is reflected in the contents, whatever the bucket listed |
| GcsProxy.CacheReuse | gcsproxy/listing_proxy.go:451-454 | after a successful refresh, any refresh less than `ListingCacheTTL` later changes nothing and ignores the listing |
| GcsProxy.NoteObjectSpec | gcsproxy/listing_proxy.go:339-370 | NoteNewObject succeeds iff the name is a legal object name; on success the contents map the name to the object and the journal is the pruned old journal without that name's record, then one new record of it at the tail expiring `now + ModificationMemoryTTL`; on failure only the prune happens |
| GcsProxy.NoteObjectIdempotent | gcsproxy/listing_proxy.go:335-370 | noting the same object twice at the same instant is the same as noting it once |
| GcsProxy.NotedObjectListed | gcsproxy/listing_proxy.go:335-338 | an object noted at `now` is listed by every successful refresh before `now + ModificationMemoryTTL`, whatever the bucket lists |
| GcsProxy.ListPartition | gcsproxy/listing_proxy.go:320-330 | under the invariants every key is either a listed object of that name or a listed sub-directory of that name, never both |
| GcsProxy.ListingProxy.constructor | gcsproxy/listing_proxy.go:193-200 | a new proxy has the given name, no contents, expiration at the zero time, empty journal and index, and is valid |
| GcsProxy.ListingProxy.Name | gcsproxy/listing_proxy.go:205-208 | the name of a valid proxy is a directory name |
| GcsProxy.ListingProxy.CheckContents | gcsproxy/listing_proxy.go:224-256 | true iff every key is a strict descendant holding a sub-directory or object of that name with a legal name |
| GcsProxy.ListingProxy.CheckJournal | gcsproxy/listing_proxy.go:258-285 | true iff journal names are unique and every record is reflected in the contents; the names seen are then exactly the journal's names |
| GcsProxy.ListingProxy.CheckIndex | gcsproxy/listing_proxy.go:287-299 | true iff every index entry is a journal record filed under its own name |
| GcsProxy.ListingProxy.CheckInvariants | gcsproxy/listing_proxy.go:213-305 | true iff all invariants hold (`Valid()`) |
| GcsProxy.ListingProxy.ExpiredNames | gcsproxy/listing_proxy.go:527-538 | the names of the longest run of expired records at the front, in order |
| GcsProxy.ListingProxy.PlayBackModification | gcsproxy/listing_proxy.go:548-556 | the contents become their playback with the record |
| GcsProxy.ListingProxy.RemoveFront | gcsproxy/listing_proxy.go:540-545 | removing the named front records leaves the rest of the journal and deletes exactly those names from the index |
| GcsProxy.ListingProxy.CleanChildModifications | gcsproxy/listing_proxy.go:523-546 | the journal becomes its prune, the index loses exactly the pruned names, contents and expiration are unchanged, and validity is kept |
| GcsProxy.ListingProxy.ObjectsListed | gcsproxy/listing_proxy.go:471-486 | the objects loop computes the object map of the listing, or its first fault |
| GcsProxy.ListingProxy.SubdirsListed | gcsproxy/listing_proxy.go:488-506 | the prefixes loop extends that map with the sub-directories, or gives the first fault |
| GcsProxy.ListingProxy.PlayBackAll | gcsproxy/listing_proxy.go:515-518 | the contents become the journal replayed onto them, oldest record first |
| GcsProxy.ListingProxy.EnsureContents | gcsproxy/listing_proxy.go:450-521 | the error and the new state are those of a refresh of the old state at `now` with the listing, and validity is kept |
| GcsProxy.ListingProxy.ReadOut | gcsproxy/listing_proxy.go:321-330 | the objects are exactly the object values of the contents, and the sub-directories exactly the keys holding sub-directories |
| GcsProxy.ListingProxy.List | gcsproxy/listing_proxy.go:314-333 | refreshes as EnsureContents; on error nothing is listed, otherwise the objects and sub-directories of the refreshed contents |
| GcsProxy.ListingProxy.SupersedeWith | gcsproxy/listing_proxy.go:351-367 | the state becomes the old one with the record superseding its name in the journal and played back, the index files the record under its name, and validity is kept |
| GcsProxy.ListingProxy.NoteNewObject | gcsproxy/listing_proxy.go:339-370 | the error and the new state are those of NoteObject on the old state, and validity is kept |
| GcsProxy.ListingProxy.NoteNewSubdirectory | gcsproxy/listing_proxy.go:379-391 | always an error (the name's fault if illegal, otherwise not implemented); the only change is the prune |
| GcsProxy.ListingProxy.NoteRemoval | gcsproxy/listing_proxy.go:397-403 | always the not-implemented error; the only change is the prune |
| GcsProxy.NewListingProxy | gcsproxy/listing_proxy.go:183-203 | fails with an illegal-directory-name error iff the name is not a directory name; otherwise a new, valid proxy with the initial state |

## Left out

- The bucket call (`gcsutil.List` with a `storage.Query`, lines 456-469) is foreign I/O. It is replaced by the `ListingResult` input: listed objects and prefixes, or a failure with its text.
- `context.Context` cancellation is a concurrency and I/O concern. It only surfaces as a listing failure, which the input covers.
- The clock is an input. Go reads `clock.Now()` separately for the freshness test, the prune and the new expiration (lines 452, 513, 524). The model uses one instant `now` per operation.
- `time.Time` is an unbounded integer of nanoseconds. Go's wall/monotonic clock details and overflow of `Add` are not modelled.
- `storage.Object` keeps only `Name`; its other fields are an opaque map. Go's comparison at line 269 is pointer identity; the model uses value equality.
- Error messages (`fmt.Errorf`) become the `Error` datatype, and the panics of `CheckInvariants` become its `false` result.
- The nil-map checks (lines 219-222) and the bad-type panic (lines 231-232) are absent: maps are values, and `Node` has only the two legal cases.
- `sort` and `reflect.DeepEqual` in `CheckInvariants` become a set of names. The duplicate test folds into the journal loop.
- `List` returns sets, not slices in map-iteration order.
- GcsProxy.ListingProxy.CheckIndex: the index maps names to records rather than `*list.Element`. So it also checks that each indexed record is in the journal, which Go has by construction.
- Some loops and blocks of the Go methods are separate methods here, with their statements and order unchanged. These are the three loops of `CheckInvariants` (`CheckContents`, `CheckJournal`, `CheckIndex`), the journal steps of `NoteNewObject` (`SupersedeWith`), the two loops of `cleanChildModifications` (`ExpiredNames`, `RemoveFront`), the three loops of `ensureContents` (`ObjectsListed`, `SubdirsListed`, `PlayBackAll`), and the read-out loop of `List` (`ReadOut`).
- Go strings are byte strings; here a name is a `string` of characters. The validators only look for `/`, compare prefixes and cut at a prefix, so for valid UTF-8 names they behave the same: `/` is a single ASCII byte that never occurs inside a multi-byte character, and UTF-8 is prefix-free, so a character-level prefix is a byte-level prefix and back.
