/**
 * ListingProxy: a view on one directory of a bucket that caches listings for
 * a short while and patches them with recent local modifications for a
 * longer while, to hide the bucket's lack of list-after-write consistency.
 *
 * The first part of this module states what each operation does to the
 * proxy's abstract state (a Snapshot) as functions, with the lemmas that give
 * those functions their meaning. The class ListingProxy after it holds the
 * same state in fields that its methods update in place, and each method is
 * proved against the corresponding function.
 */
module GcsProxy {
  import opened Wrappers
  import opened Names
  import opened Entries
  import opened Journal

  const Second: Time := 1_000_000_000

  /** How long a listing is trusted before the bucket is asked again. */
  const ListingCacheTTL: Time := 10 * Second

  /** How long a local modification overrides what a listing says. */
  const ModificationMemoryTTL: Time := 5 * 60 * Second

  /** Go's zero time.Time, the initial expiration: every later instant finds the cache stale. */
  const ZeroTime: Time := 0

  datatype Error =
    | IllegalDirectoryName(dir: string)
    | IllegalObjectName(reason: NameError, name: string)
    | IllegalSubdirName(reason: NameError, name: string)
    | ListingFailed(cause: string)
    | BadListing(fault: ListingFault)
    | NotImplemented(operation: string)

  /** What listing the directory with delimiter '/' returns: the objects and prefixes, or an error. */
  datatype ListingResult =
    | Listed(objects: seq<StorageObject>, prefixes: seq<string>)
    | ListFailed(cause: string)

  /** The mutable state of a proxy: the cached contents, their expiration, and the journal. */
  datatype Snapshot = Snapshot(contents: map<string, Node>, expiration: Time, journal: seq<ChildModification>)

  /** The state of a new proxy. */
  function Initial(): Snapshot {
    Snapshot(map[], ZeroTime, [])
  }

  /**
   * The invariants the checker enforces, apart from the index: the name is a
   * directory name, every key is a strict descendant holding a matching entry
   * with a legal name, journal names are unique, and every journal record is
   * reflected in the contents.
   */
  ghost predicate Inv(dir: string, s: Snapshot) {
    && IsDirName(dir)
    && ContentsWellFormed(dir, s.contents)
    && UniqueNames(s.journal)
    && Reflected(s.journal, s.contents)
  }

  /** The state after cleanChildModifications at `now`. */
  function Pruned(s: Snapshot, now: Time): Snapshot {
    s.(journal := Prune(s.journal, now))
  }

  /** Journal `m`, superseding any record of its name, and play it back onto the contents. */
  function Supersede(s: Snapshot, m: ChildModification): Snapshot {
    Snapshot(PlayBack(s.contents, m), s.expiration, Without(s.journal, m.name) + [m])
  }

  /**
   * ensureContents: nothing while the contents are fresh; otherwise the
   * listing, validated in full before anything changes, then the journal is
   * pruned, the new contents and expiration swapped in and the journal
   * replayed onto them.
   */
  function Refresh(dir: string, s: Snapshot, now: Time, listing: ListingResult): (r: (Option<Error>, Snapshot))
    ensures r.0.Some? ==> r.1 == s
    ensures s.expiration <= r.1.expiration
    ensures forall m :: m in r.1.journal ==> m in s.journal
  {
    if now < s.expiration then (None, s)
    else match listing
      case ListFailed(cause) => (Some(ListingFailed(cause)), s)
      case Listed(objects, prefixes) =>
        var entries := ListingEntries(dir, objects, prefixes);
        if entries.Failure? then (Some(BadListing(entries.error)), s)
        else
          var journal := Prune(s.journal, now);
          (None, Snapshot(Replay(entries.value, journal), now + ListingCacheTTL, journal))
  }

  /** The addition record NoteNewObject journals for `o` at `now`. */
  function AdditionRecord(o: StorageObject, now: Time): ChildModification {
    ChildModification(now + ModificationMemoryTTL, o.name, Some(Object(o)))
  }

  /** NoteNewObject: refuse an illegal name, else journal and apply the addition; prune in both cases. */
  function NoteObject(dir: string, s: Snapshot, o: StorageObject, now: Time): (r: (Option<Error>, Snapshot))
    ensures r.0 == None <==> CheckObjectName(dir, o.name) == None
    ensures r.0.Some? ==> r.0 == Some(IllegalObjectName(CheckObjectName(dir, o.name).value, o.name))
    ensures r.0 == None ==> o.name in r.1.contents && r.1.contents[o.name] == Object(o)
    ensures r.1.expiration == s.expiration
  {
    match CheckObjectName(dir, o.name)
    case Some(reason) => (Some(IllegalObjectName(reason, o.name)), Pruned(s, now))
    case None => (None, Pruned(Supersede(s, AdditionRecord(o, now)), now))
  }

  /** The objects in the contents. */
  function ObjectsIn(c: map<string, Node>): set<StorageObject> {
    set k | k in c && c[k].Object? :: c[k].obj
  }

  /** The names of the sub-directories in the contents. */
  function SubdirsIn(c: map<string, Node>): set<string> {
    set k | k in c && c[k].Subdir?
  }

  /** A new proxy satisfies the invariants. */
  lemma InitialInv(dir: string)
    requires IsDirName(dir)
    ensures Inv(dir, Initial())
  {
  }

  /**
   * A new proxy's cache is stale at every instant from the zero time on: the
   * first List always asks the bucket, succeeds iff the listing is legal, and
   * then holds exactly the listed names.
   */
  lemma InitialIsStale(dir: string, now: Time, listing: ListingResult)
    requires IsDirName(dir) && ZeroTime <= now
    ensures var (err, s') := Refresh(dir, Initial(), now, listing);
            && (err == None <==> listing.Listed? && ListingIsLegal(dir, listing.objects, listing.prefixes))
            && (err == None ==>
                  && s'.expiration == now + ListingCacheTTL
                  && s'.journal == []
                  && (forall k :: k in s'.contents <==> k in ObjectNames(dir, listing.objects) || k in listing.prefixes))
  {
    assert Prune([], now) == [];
    if listing.Listed? {
      ListingEntriesSpec(dir, listing.objects, listing.prefixes);
      var entries := ListingEntries(dir, listing.objects, listing.prefixes);
      if entries.Success? {
        assert Replay(entries.value, []) == entries.value;
      }
    }
  }

  /** Pruning keeps the invariants and touches only the journal. */
  lemma PrunedInv(dir: string, s: Snapshot, now: Time)
    requires Inv(dir, s)
    ensures Inv(dir, Pruned(s, now))
  {
    SuffixKeeps(s.journal, ExpiredCount(s.journal, now), s.contents);
  }

  /** Journalling and applying a well-formed record keeps the invariants. */
  lemma SupersedeInv(dir: string, s: Snapshot, m: ChildModification)
    requires Inv(dir, s) && RecordWellFormed(dir, m)
    ensures Inv(dir, Supersede(s, m))
  {
    var s' := Supersede(s, m);
    SupersedeUnique(s.journal, m);
    WithoutSpec(s.journal, m.name);
    forall r | r in s'.journal ensures Reflects(s'.contents, r) {
      if r != m {
        assert r in s.journal && r.name != m.name;
      }
    }
  }

  /** A refresh keeps the invariants, whatever the listing says. */
  lemma RefreshInv(dir: string, s: Snapshot, now: Time, listing: ListingResult)
    requires Inv(dir, s)
    ensures Inv(dir, Refresh(dir, s, now, listing).1)
  {
    if !(now < s.expiration) && listing.Listed? {
      ListingEntriesSpec(dir, listing.objects, listing.prefixes);
      var entries := ListingEntries(dir, listing.objects, listing.prefixes);
      if entries.Success? {
        var journal := Prune(s.journal, now);
        SuffixKeeps(s.journal, ExpiredCount(s.journal, now), s.contents);
        ReflectedRecordsWellFormed(dir, s.contents, s.journal);
        ReplayKeepsWellFormed(dir, entries.value, journal);
        ReplayReflects(entries.value, journal);
      }
    }
  }

  /** NoteNewObject keeps the invariants. */
  lemma NoteObjectInv(dir: string, s: Snapshot, o: StorageObject, now: Time)
    requires Inv(dir, s)
    ensures Inv(dir, NoteObject(dir, s, o, now).1)
  {
    if CheckObjectName(dir, o.name) == None {
      AcceptedObjectIsStrictDescendant(dir, o.name);
      SupersedeInv(dir, s, AdditionRecord(o, now));
      PrunedInv(dir, Supersede(s, AdditionRecord(o, now)), now);
    } else {
      PrunedInv(dir, s, now);
    }
  }

  /**
   * A refresh changes nothing while the contents are fresh, and nothing when
   * it fails: it fails exactly when the contents are stale and the listing
   * either failed or holds an illegal name.
   */
  lemma RefreshAllOrNothing(dir: string, s: Snapshot, now: Time, listing: ListingResult)
    requires IsDirName(dir)
    ensures now < s.expiration ==> Refresh(dir, s, now, listing) == (None, s)
    ensures Refresh(dir, s, now, listing).0.Some? ==> Refresh(dir, s, now, listing).1 == s
    ensures Refresh(dir, s, now, listing).0.Some? <==>
              && !(now < s.expiration)
              && (listing.ListFailed? || !ListingIsLegal(dir, listing.objects, listing.prefixes))
  {
    if listing.Listed? {
      ListingEntriesSpec(dir, listing.objects, listing.prefixes);
    }
  }

  /**
   * A successful refresh of stale contents keeps the listing's legal names,
   * minus the directory's placeholder, sets the expiration one listing TTL
   * ahead, prunes the journal and makes every remaining record visible. Names
   * the journal does not mention are exactly the listed ones, each holding a
   * listed object or the sub-directory of a listed prefix.
   */
  lemma RefreshSucceeds(dir: string, s: Snapshot, now: Time, listing: ListingResult)
    requires Inv(dir, s) && !(now < s.expiration)
    requires listing.Listed? && ListingIsLegal(dir, listing.objects, listing.prefixes)
    ensures var (err, s') := Refresh(dir, s, now, listing);
            && err == None
            && s'.expiration == now + ListingCacheTTL
            && s'.journal == Prune(s.journal, now)
            && dir !in s'.contents
            && Reflected(s'.journal, s'.contents)
            && (forall k :: k !in NamesOf(s'.journal) ==>
                 (k in s'.contents <==> k in ObjectNames(dir, listing.objects) || k in listing.prefixes))
            && (forall k :: k in s'.contents && k !in NamesOf(s'.journal) ==>
                 || (s'.contents[k].Object? && s'.contents[k].obj in listing.objects)
                 || (s'.contents[k] == Subdir(k) && k in listing.prefixes))
  {
    ListingEntriesSpec(dir, listing.objects, listing.prefixes);
    RefreshInv(dir, s, now, listing);
    var listed := ListingEntries(dir, listing.objects, listing.prefixes).value;
    var journal := Prune(s.journal, now);
    SuffixKeeps(s.journal, ExpiredCount(s.journal, now), s.contents);
    ReplayReflects(listed, journal);
  }

  /**
   * The masking window: a journal record still live at `now` survives a
   * refresh at `now`, and the contents show it, whatever the listing said.
   */
  lemma JournalMasksListing(dir: string, s: Snapshot, m: ChildModification, now: Time, listing: ListingResult)
    requires Inv(dir, s) && m in s.journal && now < m.expiration
    requires Refresh(dir, s, now, listing).0 == None
    ensures m in Refresh(dir, s, now, listing).1.journal
    ensures Reflects(Refresh(dir, s, now, listing).1.contents, m)
  {
    RefreshInv(dir, s, now, listing);
    if !(now < s.expiration) {
      PruneKeepsLive(s.journal, m, now);
    }
  }

  /**
   * A successful refresh is reused: until one listing TTL has passed, a
   * further refresh changes nothing and ignores the listing.
   */
  lemma CacheReuse(dir: string, s: Snapshot, now: Time, listing: ListingResult, later: Time, listing': ListingResult)
    requires !(now < s.expiration) && Refresh(dir, s, now, listing).0 == None
    requires now <= later < now + ListingCacheTTL
    ensures var s' := Refresh(dir, s, now, listing).1;
            Refresh(dir, s', later, listing') == (None, s')
  {
  }

  /**
   * NoteNewObject succeeds iff the name is a legal object name. On success the
   * contents map the name to the object (stale or not), the journal is the
   * pruned old journal without the name's record followed by the new record,
   * which is the only one of that name and expires one modification TTL after
   * `now`. On failure only the prune happens.
   */
  lemma NoteObjectSpec(dir: string, s: Snapshot, o: StorageObject, now: Time)
    requires Inv(dir, s)
    ensures var (err, s') := NoteObject(dir, s, o, now);
            && (err == None <==> CheckObjectName(dir, o.name) == None)
            && (err != None ==> s' == Pruned(s, now))
            && (err == None ==>
                  && s'.contents == s.contents[o.name := Object(o)]
                  && s'.expiration == s.expiration
                  && s'.journal == Prune(Without(s.journal, o.name), now) + [AdditionRecord(o, now)]
                  && s'.journal[|s'.journal| - 1].expiration == now + ModificationMemoryTTL
                  && forall r :: r in s'.journal && r.name == o.name ==> r == AdditionRecord(o, now))
  {
    var m := AdditionRecord(o, now);
    if CheckObjectName(dir, o.name) == None {
      var w := Without(s.journal, o.name);
      var s' := NoteObject(dir, s, o, now).1;
      assert s' == Pruned(Supersede(s, m), now);
      assert s'.journal == Prune(w, now) + [m] by {
        PruneAppendLive(w, m, now);
      }
      assert forall r :: r in s'.journal && r.name == o.name ==> r == m by {
        SupersedeUnique(s.journal, m);
        SuffixKeeps(w + [m], ExpiredCount(w + [m], now), s.contents);
      }
    }
  }

  /** Noting the same object twice at the same instant is the same as noting it once. */
  lemma NoteObjectIdempotent(dir: string, s: Snapshot, o: StorageObject, now: Time)
    requires Inv(dir, s)
    ensures var once := NoteObject(dir, s, o, now);
            NoteObject(dir, once.1, o, now) == once
  {
    var once := NoteObject(dir, s, o, now);
    var m := AdditionRecord(o, now);
    NoteObjectInv(dir, s, o, now);
    var s1 := once.1;
    var j := s1.journal;
    if CheckObjectName(dir, o.name) == None {
      var w := Without(s.journal, o.name);
      var p := Prune(w, now);
      PruneAppendLive(w, m, now);
      assert j == p + [m];
      assert Supersede(s1, m) == s1 by {
        assert Without(j, o.name) == p by {
          assert j[|p|] == m && j[..|p|] == p && j[|p| + 1..] == [];
          WithoutAt(j, |p|);
        }
        assert PlayBack(s1.contents, m) == s1.contents;
      }
      assert Prune(j, now) == j by {
        PruneIdempotent(w, now);
        assert ExpiredCount(j, now) == 0 by {
          if |p| == 0 {
            assert j[0] == m;
          } else {
            assert j[0] == p[0];
          }
        }
        assert j[0..] == j;
      }
    } else {
      PruneIdempotent(s.journal, now);
    }
  }

  /**
   * Round trip: an object noted at `now` is among the listed objects of every
   * successful refresh before its record expires, whatever the bucket lists.
   */
  lemma NotedObjectListed(dir: string, s: Snapshot, o: StorageObject, now: Time, later: Time, listing: ListingResult)
    requires Inv(dir, s) && NoteObject(dir, s, o, now).0 == None
    requires later < now + ModificationMemoryTTL
    requires Refresh(dir, NoteObject(dir, s, o, now).1, later, listing).0 == None
    ensures var s' := Refresh(dir, NoteObject(dir, s, o, now).1, later, listing).1;
            o.name in s'.contents && s'.contents[o.name] == Object(o) && o in ObjectsIn(s'.contents)
  {
    var noted := NoteObject(dir, s, o, now).1;
    NoteObjectSpec(dir, s, o, now);
    NoteObjectInv(dir, s, o, now);
    var m := AdditionRecord(o, now);
    assert m in noted.journal;
    JournalMasksListing(dir, noted, m, later, listing);
  }

  /**
   * List's partition: under the invariants every key holds either an object
   * of that name, listed among the objects, or a sub-directory of that name,
   * listed among the sub-directories, never both.
   */
  lemma ListPartition(dir: string, s: Snapshot)
    requires Inv(dir, s)
    ensures forall o :: o in ObjectsIn(s.contents) ==>
              o.name in s.contents && s.contents[o.name] == Object(o) && CheckObjectName(dir, o.name) == None
    ensures forall d :: d in SubdirsIn(s.contents) ==>
              d in s.contents && s.contents[d] == Subdir(d) && CheckSubdirName(dir, d) == None
    ensures s.contents.Keys == (set o | o in ObjectsIn(s.contents) :: o.name) + SubdirsIn(s.contents)
    ensures forall o :: o in ObjectsIn(s.contents) ==> o.name !in SubdirsIn(s.contents)
  {
    var c := s.contents;
    forall k | k in c
      ensures k in (set o | o in ObjectsIn(c) :: o.name) + SubdirsIn(c)
    {
      if c[k].Object? {
        assert c[k].obj in ObjectsIn(c);
      }
    }
  }

  /** Adding a key not yet present adds its object, or its sub-directory name, to the partition. */
  lemma PartitionAdd(c: map<string, Node>, k: string, v: Node)
    requires k !in c
    ensures ObjectsIn(c[k := v]) == ObjectsIn(c) + (if v.Object? then {v.obj} else {})
    ensures SubdirsIn(c[k := v]) == SubdirsIn(c) + (if v.Subdir? then {k} else {})
  {
    var c' := c[k := v];
    forall x | x in ObjectsIn(c') ensures x in ObjectsIn(c) || (v.Object? && x == v.obj) {
      var k' :| k' in c' && c'[k'].Object? && c'[k'].obj == x;
      if k' != k { assert c[k'] == c'[k']; }
    }
    forall x | x in ObjectsIn(c) ensures x in ObjectsIn(c') {
      var k' :| k' in c && c[k'].Object? && c[k'].obj == x;
      assert c'[k'] == c[k'];
    }
    if v.Object? {
      assert c'[k].obj == v.obj;
    }
  }

  /**
   * A proxy for one directory: the cached contents with their expiration, and
   * the journal of recent modifications with its name index. Not safe for
   * concurrent use.
   */
  class ListingProxy {
    /** The directory's prefix, fixed at construction. */
    const name: string

    /** The directory's children by full name; trusted until contentsExpiration. */
    var contents: map<string, Node>
    var contentsExpiration: Time

    /** Recent modifications, oldest first, and each one under its name. */
    var childModifications: seq<ChildModification>
    var childModificationsIndex: map<string, ChildModification>

    ghost function State(): Snapshot
      reads this
    {
      Snapshot(contents, contentsExpiration, childModifications)
    }

    /** The conditions CheckInvariants tests. */
    ghost predicate Valid()
      reads this
    {
      Inv(name, State()) && Indexed(childModifications, childModificationsIndex)
    }

    /** The object NewListingProxy allocates once the name has passed. */
    constructor (dir: string)
      requires IsDirName(dir)
      ensures Valid()
      ensures name == dir && State() == Initial() && childModificationsIndex == map[]
    {
      name := dir;
      contents := map[];
      contentsExpiration := ZeroTime;
      childModifications := [];
      childModificationsIndex := map[];
      new;
      InitialInv(dir);
    }

    /** Name: the directory prefix the proxy was created for. */
    function Name(): (r: string)
      reads this
      requires Valid()
      ensures IsDirName(r)
    {
      name
    }

    /** The first loop of CheckInvariants: every key is a strict descendant holding a matching, legal entry. */
    method CheckContents() returns (ok: bool)
      ensures ok <==> ContentsWellFormed(name, contents)
    {
      var keys := contents.Keys;
      while keys != {}
        invariant keys <= contents.Keys
        invariant forall k :: k in contents.Keys - keys ==> KeyWellFormed(name, k, contents[k])
        decreases |keys|
      {
        var k :| k in keys;
        if !(HasPrefix(k, name) && k != name) {
          return false;
        }
        match contents[k] {
          case Subdir(p) =>
            if k != p || CheckSubdirName(name, p) != None {
              return false;
            }
          case Object(o) =>
            if k != o.name || CheckObjectName(name, o.name) != None {
              return false;
            }
        }
        keys := keys - {k};
      }
      return true;
    }

    /**
     * The second loop of CheckInvariants: every journal record is reflected in
     * the contents and no name occurs twice; the names seen are returned.
     */
    method CheckJournal() returns (ok: bool, listNames: set<string>)
      ensures ok <==> UniqueNames(childModifications) && Reflected(childModifications, contents)
      ensures ok ==> listNames == NamesOf(childModifications)
    {
      listNames := {};
      for i := 0 to |childModifications|
        invariant listNames == NamesOf(childModifications[..i])
        invariant UniqueNames(childModifications[..i])
        invariant Reflected(childModifications[..i], contents)
      {
        var m := childModifications[i];
        assert childModifications[..i + 1] == childModifications[..i] + [m];
        if !Reflects(contents, m) {
          assert m in childModifications;
          return false, listNames;
        }
        if m.name in listNames {
          var r :| r in childModifications[..i] && r.name == m.name;
          var j :| 0 <= j < i && childModifications[..i][j] == r;
          assert childModifications[j].name == childModifications[i].name;
          return false, listNames;
        }
        NamesOfPrefixStep(childModifications, i);
        listNames := listNames + {m.name};
      }
      assert childModifications[..|childModifications|] == childModifications;
      return true, listNames;
    }

    /** The third loop of CheckInvariants: each index entry is filed under its record's name. */
    method CheckIndex() returns (ok: bool)
      ensures ok <==> forall n :: n in childModificationsIndex ==>
                        childModificationsIndex[n].name == n && childModificationsIndex[n] in childModifications
    {
      var indexNames := childModificationsIndex.Keys;
      while indexNames != {}
        invariant indexNames <= childModificationsIndex.Keys
        invariant forall n :: n in childModificationsIndex.Keys - indexNames ==>
                    childModificationsIndex[n].name == n && childModificationsIndex[n] in childModifications
        decreases |indexNames|
      {
        var n :| n in indexNames;
        var m := childModificationsIndex[n];
        if m.name != n || m !in childModifications {
          return false;
        }
        indexNames := indexNames - {n};
      }
      return true;
    }

    /**
     * CheckInvariants, reporting instead of panicking: true exactly when
     * every invariant holds.
     */
    method CheckInvariants() returns (ok: bool)
      ensures ok <==> Valid()
    {
      if !IsDirName(name) {
        return false;
      }
      ok := CheckContents();
      if !ok {
        return;
      }
      var listNames;
      ok, listNames := CheckJournal();
      if !ok {
        return;
      }
      ok := CheckIndex();
      if !ok {
        return;
      }
      // The index and the journal hold the same names.
      ok := listNames == childModificationsIndex.Keys;
    }

    /**
     * The first loop of cleanChildModifications: the names of the longest run
     * of records at the front of the journal that have expired at `now`.
     */
    method ExpiredNames(now: Time) returns (names: seq<string>)
      ensures |names| == ExpiredCount(childModifications, now)
      ensures forall j :: 0 <= j < |names| ==> names[j] == childModifications[j].name
    {
      names := [];
      var i := 0;
      while i < |childModifications|
        invariant 0 <= i <= |childModifications|
        invariant |names| == i && forall j :: 0 <= j < i ==> names[j] == childModifications[j].name
        invariant forall j :: 0 <= j < i ==> !(now < childModifications[j].expiration)
      {
        if now < childModifications[i].expiration {
          break;
        }
        names := names + [childModifications[i].name];
        i := i + 1;
      }
    }

    /** playBackModification: make the contents reflect `m`. */
    method PlayBackModification(m: ChildModification)
      modifies this`contents
      ensures contents == PlayBack(old(contents), m)
    {
      match m.node
      case None =>
        contents := contents - {m.name};
      case Some(n) =>
        contents := contents[m.name := n];
    }

    /**
     * The second loop of cleanChildModifications: remove the records named
     * `names`, which are the first records of the journal, from the journal
     * and the index.
     */
    method RemoveFront(names: seq<string>)
      requires UniqueNames(childModifications) && |names| <= |childModifications|
      requires forall j :: 0 <= j < |names| ==> names[j] == childModifications[j].name
      modifies this`childModifications, this`childModificationsIndex
      ensures childModifications == old(childModifications)[|names|..]
      ensures childModificationsIndex == old(childModificationsIndex) - NamesOf(old(childModifications)[..|names|])
    {
      ghost var journal, index := childModifications, childModificationsIndex;
      ghost var gone: set<string> := {};
      for j := 0 to |names|
        invariant childModifications == journal[j..]
        invariant gone == NamesOf(journal[..j])
        invariant childModificationsIndex == index - gone
      {
        DropFirst(journal, j);
        NamesOfPrefixStep(journal, j);
        childModifications := Without(childModifications, names[j]);
        childModificationsIndex := childModificationsIndex - {names[j]};
        assert childModificationsIndex == index - (gone + {names[j]});
        gone := gone + {names[j]};
      }
    }

    /**
     * cleanChildModifications: drop the longest run of expired records at the
     * front of the journal, and their names from the index.
     */
    method CleanChildModifications(now: Time)
      requires Valid()
      modifies this`childModifications, this`childModificationsIndex
      ensures Valid()
      ensures State() == Pruned(old(State()), now)
      ensures childModificationsIndex ==
                old(childModificationsIndex) - NamesOf(old(childModifications)[..ExpiredCount(old(childModifications), now)])
    {
      ghost var journal, index := childModifications, childModificationsIndex;
      assert UniqueNames(journal);
      var names := ExpiredNames(now);
      ghost var k := |names|;
      assert k == ExpiredCount(journal, now);
      RemoveFront(names);
      assert childModifications == journal[k..] == Prune(journal, now);
      assert State() == Pruned(old(State()), now);
      PrunedInv(name, old(State()), now);
      SuffixIndexed(journal, index, k);
    }

    /** The objects loop of ensureContents: the listed objects, validated, keyed by name. */
    method ObjectsListed(objects: seq<StorageObject>) returns (r: Result<map<string, Node>, ListingFault>)
      ensures r == ObjectEntries(name, objects)
    {
      var m: map<string, Node> := map[];
      for i := 0 to |objects|
        invariant ObjectEntries(name, objects[..i]) == Success(m)
      {
        var o := objects[i];
        assert objects[..i + 1][..i] == objects[..i];
        // The directory's own placeholder object is not one of its children.
        if o.name == name {
          continue;
        }
        var reason := CheckObjectName(name, o.name);
        if reason.Some? {
          ObjectEntriesFirstFault(name, objects, i + 1);
          return Failure(BadObjectName(reason.value, o.name));
        }
        m := m[o.name := Object(o)];
      }
      assert objects[..|objects|] == objects;
      return Success(m);
    }

    /** The prefixes loop of ensureContents: `base` extended with the listed prefixes, validated. */
    method SubdirsListed(base: map<string, Node>, subdirs: seq<string>) returns (r: Result<map<string, Node>, ListingFault>)
      ensures r == SubdirEntries(name, base, subdirs)
    {
      var m := base;
      for i := 0 to |subdirs|
        invariant SubdirEntries(name, base, subdirs[..i]) == Success(m)
      {
        var subdir := subdirs[i];
        assert subdirs[..i + 1][..i] == subdirs[..i];
        var reason := CheckSubdirName(name, subdir);
        if reason.Some? {
          SubdirEntriesFirstFault(name, base, subdirs, i + 1);
          return Failure(BadSubdirName(reason.value, subdir));
        }
        if !(HasPrefix(subdir, name) && subdir != name) {
          SubdirEntriesFirstFault(name, base, subdirs, i + 1);
          return Failure(NonDescendantSubdir(subdir));
        }
        m := m[subdir := Subdir(subdir)];
      }
      assert subdirs[..|subdirs|] == subdirs;
      return Success(m);
    }

    /** The playback loop of ensureContents: play every journal record back, oldest first. */
    method PlayBackAll()
      modifies this`contents
      ensures contents == Replay(old(contents), childModifications)
    {
      ghost var start := contents;
      for k := 0 to |childModifications|
        invariant contents == Replay(start, childModifications[..k])
      {
        assert childModifications[..k + 1][..k] == childModifications[..k];
        PlayBackModification(childModifications[k]);
      }
      assert childModifications[..|childModifications|] == childModifications;
    }

    /**
     * ensureContents: keep fresh contents; otherwise validate the whole
     * listing, then prune the journal, swap in the new contents and
     * expiration, and play the journal back onto them.
     */
    method EnsureContents(now: Time, listing: ListingResult) returns (err: Option<Error>)
      requires Valid()
      modifies this
      ensures Valid()
      ensures (err, State()) == Refresh(name, old(State()), now, listing)
    {
      if now < contentsExpiration {
        return None;
      }
      if listing.ListFailed? {
        return Some(ListingFailed(listing.cause));
      }
      var objects := ObjectsListed(listing.objects);
      if objects.Failure? {
        return Some(BadListing(objects.error));
      }
      var listed := SubdirsListed(objects.value, listing.prefixes);
      if listed.Failure? {
        return Some(BadListing(listed.error));
      }

      ghost var s0 := State();
      assert ListingEntries(name, listing.objects, listing.prefixes) == listed;
      CleanChildModifications(now);
      ghost var journal, index := childModifications, childModificationsIndex;
      assert journal == Prune(s0.journal, now) && Indexed(journal, index);
      contents := listed.value;
      contentsExpiration := now + ListingCacheTTL;
      assert contents == listed.value && childModifications == journal;
      PlayBackAll();
      assert State() == Snapshot(Replay(listed.value, journal), now + ListingCacheTTL, journal);
      RefreshInv(name, s0, now, listing);
      return None;
    }

    /** The read-out loop of List: the objects, and the names of the sub-directories. */
    method ReadOut() returns (objects: set<StorageObject>, subdirs: set<string>)
      ensures objects == ObjectsIn(contents) && subdirs == SubdirsIn(contents)
    {
      objects, subdirs := {}, {};
      var keys := contents.Keys;
      assert contents - keys == map[];
      while keys != {}
        invariant keys <= contents.Keys
        invariant objects == ObjectsIn(contents - keys) && subdirs == SubdirsIn(contents - keys)
        decreases |keys|
      {
        var k :| k in keys;
        PartitionAdd(contents - keys, k, contents[k]);
        assert (contents - keys)[k := contents[k]] == contents - (keys - {k});
        match contents[k] {
          case Object(o) => objects := objects + {o};
          case Subdir(_) => subdirs := subdirs + {k};
        }
        keys := keys - {k};
      }
      assert contents - keys == contents;
    }

    /**
     * List: refresh the contents if needed, then read them out; on a failed
     * refresh nothing is listed.
     */
    method List(now: Time, listing: ListingResult) returns (objects: set<StorageObject>, subdirs: set<string>, err: Option<Error>)
      requires Valid()
      modifies this
      ensures Valid()
      ensures (err, State()) == Refresh(name, old(State()), now, listing)
      ensures err.Some? ==> objects == {} && subdirs == {}
      ensures err.None? ==> objects == ObjectsIn(contents) && subdirs == SubdirsIn(contents)
    {
      objects, subdirs := {}, {};
      err := EnsureContents(now, listing);
      if err.Some? {
        return;
      }
      objects, subdirs := ReadOut();
    }

    /**
     * The journal steps of NoteNewObject for a record `m` of a legal name:
     * delete any record of its name from the journal and the index, append
     * `m` to both, and play it back.
     */
    method SupersedeWith(m: ChildModification)
      requires Valid() && RecordWellFormed(name, m)
      modifies this`contents, this`childModifications, this`childModificationsIndex
      ensures Valid()
      ensures State() == Supersede(old(State()), m)
      ensures childModificationsIndex == (old(childModificationsIndex) - {m.name})[m.name := m]
    {
      ghost var s0, journal, index := State(), childModifications, childModificationsIndex;
      if m.name in childModificationsIndex {
        childModifications := Without(childModifications, m.name);
        childModificationsIndex := childModificationsIndex - {m.name};
      } else {
        assert m.name !in NamesOf(journal);
        WithoutAbsent(journal, m.name);
      }
      assert childModifications == Without(journal, m.name);
      assert childModificationsIndex == index - {m.name};
      childModifications := childModifications + [m];
      childModificationsIndex := childModificationsIndex[m.name := m];
      PlayBackModification(m);
      assert State() == Supersede(s0, m);
      SupersedeInv(name, s0, m);
      SupersedeIndexed(journal, index, m);
    }

    /**
     * NoteNewObject: refuse an illegal name; otherwise replace any journal
     * record of the name by a new addition record at the tail and play it
     * back. The expired records are pruned on the way out either way.
     */
    method NoteNewObject(o: StorageObject, now: Time) returns (err: Option<Error>)
      requires Valid()
      modifies this
      ensures Valid()
      ensures (err, State()) == NoteObject(name, old(State()), o, now)
    {
      var n := o.name;
      var reason := CheckObjectName(name, n);
      if reason.Some? {
        err := Some(IllegalObjectName(reason.value, n));
        CleanChildModifications(now);
        return;
      }

      var m := ChildModification(now + ModificationMemoryTTL, n, Some(Object(o)));
      AcceptedObjectIsStrictDescendant(name, n);
      SupersedeWith(m);
      err := None;
      CleanChildModifications(now);
    }

    /**
     * NoteNewSubdirectory: refuse an illegal name, and otherwise report that
     * the operation is not implemented; only the prune on the way out happens.
     */
    method NoteNewSubdirectory(subdir: string, now: Time) returns (err: Option<Error>)
      requires Valid()
      modifies this
      ensures Valid()
      ensures State() == Pruned(old(State()), now)
      ensures CheckSubdirName(name, subdir).Some? ==>
                err == Some(IllegalSubdirName(CheckSubdirName(name, subdir).value, subdir))
      ensures CheckSubdirName(name, subdir).None? ==> err == Some(NotImplemented("NoteNewSubdirectory"))
    {
      var reason := CheckSubdirName(name, subdir);
      if reason.Some? {
        err := Some(IllegalSubdirName(reason.value, subdir));
      } else {
        err := Some(NotImplemented("NoteNewSubdirectory"));
      }
      CleanChildModifications(now);
    }

    /** NoteRemoval: not implemented; only the prune on the way out happens. */
    method NoteRemoval(n: string, now: Time) returns (err: Option<Error>)
      requires Valid()
      modifies this
      ensures Valid()
      ensures State() == Pruned(old(State()), now)
      ensures err == Some(NotImplemented("NoteRemoval"))
    {
      err := Some(NotImplemented("NoteRemoval"));
      CleanChildModifications(now);
    }
  }

  /**
   * NewListingProxy: a proxy with no contents, an expired cache and an empty
   * journal, for a legal directory name only.
   */
  method NewListingProxy(dir: string) returns (lp: ListingProxy?, err: Option<Error>)
    ensures err.None? <==> IsDirName(dir)
    ensures err.Some? ==> lp == null && err == Some(IllegalDirectoryName(dir))
    ensures err.None? ==> lp != null && fresh(lp) && lp.Valid() && lp.name == dir && lp.State() == Initial()
  {
    if !IsDirName(dir) {
      return null, Some(IllegalDirectoryName(dir));
    }
    lp := new ListingProxy(dir);
    err := None;
  }
}
