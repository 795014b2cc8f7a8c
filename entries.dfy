/**
 * The values a directory's contents map holds, what makes the map well formed,
 * and the map a bucket listing produces (the validating part of a refresh,
 * stated as a function of the listed objects and prefixes).
 */
module Entries {
  import opened Wrappers
  import opened Names

  /** A listed object. Only its name matters here; the other fields are an opaque payload. */
  datatype StorageObject = StorageObject(name: string, metadata: map<string, string>)

  /** A child of the directory: a sub-directory prefix or an object. */
  datatype Node = Subdir(prefix: string) | Object(obj: StorageObject)

  /** The entry stored under `key` is indexed by its own name, and that name is legal. */
  predicate EntryWellFormed(dir: string, key: string, node: Node) {
    match node
    case Subdir(p) => key == p && CheckSubdirName(dir, p) == None
    case Object(o) => key == o.name && CheckObjectName(dir, o.name) == None
  }

  /** What the invariant checker demands of one key of the contents map. */
  predicate KeyWellFormed(dir: string, key: string, node: Node) {
    HasPrefix(key, dir) && key != dir && EntryWellFormed(dir, key, node)
  }

  ghost predicate ContentsWellFormed(dir: string, c: map<string, Node>) {
    forall k :: k in c ==> KeyWellFormed(dir, k, c[k])
  }

  /** Why a listing was refused. */
  datatype ListingFault =
    | BadObjectName(reason: NameError, name: string)
    | BadSubdirName(reason: NameError, name: string)
    | NonDescendantSubdir(name: string)

  /**
   * The map built from the listed objects, in listing order: the placeholder
   * object named like the directory is skipped, and the first object with an
   * illegal name refuses the whole listing.
   */
  function ObjectEntries(dir: string, objects: seq<StorageObject>): (r: Result<map<string, Node>, ListingFault>)
    ensures r.Success? ==> forall k :: k in r.value ==>
              k != dir && r.value[k].Object? && r.value[k].obj.name == k && CheckObjectName(dir, k) == None
    ensures r.Failure? ==> r.error.BadObjectName?
    decreases |objects|
  {
    if objects == [] then Success(map[])
    else
      var o := objects[|objects| - 1];
      match ObjectEntries(dir, objects[..|objects| - 1])
      case Failure(f) => Failure(f)
      case Success(m) =>
        if o.name == dir then Success(m)
        else match CheckObjectName(dir, o.name)
          case Some(reason) => Failure(BadObjectName(reason, o.name))
          case None => Success(m[o.name := Object(o)])
  }

  /** `base` extended with the listed prefixes, refusing on the first illegal one. */
  function SubdirEntries(dir: string, base: map<string, Node>, subdirs: seq<string>): (r: Result<map<string, Node>, ListingFault>)
    ensures r.Success? ==> forall k :: k in base ==> k in r.value
    ensures r.Success? ==> forall p :: p in subdirs ==> p in r.value && r.value[p] == Subdir(p)
    ensures r.Failure? ==> r.error.BadSubdirName? || r.error.NonDescendantSubdir?
    decreases |subdirs|
  {
    if subdirs == [] then Success(base)
    else
      var s := subdirs[|subdirs| - 1];
      match SubdirEntries(dir, base, subdirs[..|subdirs| - 1])
      case Failure(f) => Failure(f)
      case Success(m) =>
        match CheckSubdirName(dir, s)
        case Some(reason) => Failure(BadSubdirName(reason, s))
        case None =>
          if !(HasPrefix(s, dir) && s != dir) then Failure(NonDescendantSubdir(s))
          else SplitLast(subdirs); Success(m[s := Subdir(s)])
  }

  /** The fresh contents map for a listing, or the reason it is refused. */
  function ListingEntries(dir: string, objects: seq<StorageObject>, subdirs: seq<string>): Result<map<string, Node>, ListingFault> {
    match ObjectEntries(dir, objects)
    case Failure(f) => Failure(f)
    case Success(m) => SubdirEntries(dir, m, subdirs)
  }

  /** Every listed name is acceptable (the placeholder object aside). */
  predicate ListingIsLegal(dir: string, objects: seq<StorageObject>, subdirs: seq<string>) {
    && (forall o :: o in objects && o.name != dir ==> CheckObjectName(dir, o.name) == None)
    && (forall s :: s in subdirs ==> CheckSubdirName(dir, s) == None)
  }

  /** A non-empty sequence is its front followed by its last element. */
  lemma SplitLast<T>(xs: seq<T>)
    requires xs != []
    ensures xs == xs[..|xs| - 1] + [xs[|xs| - 1]]
    ensures forall x :: x in xs <==> x in xs[..|xs| - 1] || x == xs[|xs| - 1]
  {
    assert xs == xs[..|xs| - 1] + [xs[|xs| - 1]];
  }

  /** Once a prefix of the objects is refused, the whole listing is refused with the same fault. */
  lemma {:induction false} ObjectEntriesFirstFault(dir: string, objects: seq<StorageObject>, j: nat)
    requires j <= |objects| && ObjectEntries(dir, objects[..j]).Failure?
    ensures ObjectEntries(dir, objects) == ObjectEntries(dir, objects[..j])
    decreases |objects|
  {
    if j < |objects| {
      var prefix := objects[..|objects| - 1];
      assert prefix[..j] == objects[..j];
      ObjectEntriesFirstFault(dir, prefix, j);
    } else {
      assert objects[..j] == objects;
    }
  }

  /** Likewise for the prefixes. */
  lemma {:induction false} SubdirEntriesFirstFault(dir: string, base: map<string, Node>, subdirs: seq<string>, j: nat)
    requires j <= |subdirs| && SubdirEntries(dir, base, subdirs[..j]).Failure?
    ensures SubdirEntries(dir, base, subdirs) == SubdirEntries(dir, base, subdirs[..j])
    decreases |subdirs|
  {
    if j < |subdirs| {
      var prefix := subdirs[..|subdirs| - 1];
      assert prefix[..j] == subdirs[..j];
      SubdirEntriesFirstFault(dir, base, prefix, j);
    } else {
      assert subdirs[..j] == subdirs;
    }
  }

  /** The names of the listed objects other than the directory's placeholder. */
  ghost function ObjectNames(dir: string, objects: seq<StorageObject>): set<string> {
    set o | o in objects && o.name != dir :: o.name
  }

  lemma ObjectNamesSnoc(dir: string, prefix: seq<StorageObject>, o: StorageObject)
    ensures ObjectNames(dir, prefix + [o]) ==
              ObjectNames(dir, prefix) + (if o.name == dir then {} else {o.name})
  {
    var objects := prefix + [o];
    forall n | n in ObjectNames(dir, objects)
      ensures n in ObjectNames(dir, prefix) || (o.name != dir && n == o.name)
    {
      var o' :| o' in objects && o'.name != dir && o'.name == n;
      if o' != o { assert o' in prefix; }
    }
  }

  /** `m` holds exactly the listed non-placeholder objects, each under its own name. */
  ghost predicate IsObjectMap(dir: string, objects: seq<StorageObject>, m: map<string, Node>) {
    && m.Keys == ObjectNames(dir, objects)
    && forall k :: k in m ==> m[k].Object? && m[k].obj in objects && m[k].obj.name == k
  }

  /** The objects are accepted iff each one other than the placeholder has a legal name. */
  lemma {:induction false} ObjectEntriesAccepts(dir: string, objects: seq<StorageObject>)
    ensures ObjectEntries(dir, objects).Success? <==>
              forall o :: o in objects && o.name != dir ==> CheckObjectName(dir, o.name) == None
    decreases |objects|
  {
    if objects != [] {
      var prefix, o := objects[..|objects| - 1], objects[|objects| - 1];
      SplitLast(objects);
      ObjectEntriesAccepts(dir, prefix);
    }
  }

  /** One step of an accepted listing of objects: the last object is skipped or added under its name. */
  lemma ObjectEntriesStep(dir: string, objects: seq<StorageObject>)
    requires objects != [] && ObjectEntries(dir, objects).Success?
    ensures var o := objects[|objects| - 1];
            && ObjectEntries(dir, objects[..|objects| - 1]).Success?
            && ObjectEntries(dir, objects).value ==
                 if o.name == dir then ObjectEntries(dir, objects[..|objects| - 1]).value
                 else ObjectEntries(dir, objects[..|objects| - 1]).value[o.name := Object(o)]
  {
  }

  /** An accepted listing of objects gives exactly those objects, keyed by name. */
  lemma {:induction false} ObjectEntriesMap(dir: string, objects: seq<StorageObject>)
    requires ObjectEntries(dir, objects).Success?
    ensures IsObjectMap(dir, objects, ObjectEntries(dir, objects).value)
    decreases |objects|
  {
    if objects != [] {
      var prefix, o := objects[..|objects| - 1], objects[|objects| - 1];
      SplitLast(objects);
      ObjectEntriesStep(dir, objects);
      ObjectEntriesMap(dir, prefix);
      var m, m' := ObjectEntries(dir, prefix).value, ObjectEntries(dir, objects).value;
      assert m'.Keys == ObjectNames(dir, objects) by {
        ObjectNamesSnoc(dir, prefix, o);
        assert m'.Keys == m.Keys + (if o.name == dir then {} else {o.name});
      }
      forall k | k in m' ensures m'[k].Object? && m'[k].obj in objects && m'[k].obj.name == k {
        if o.name == dir || k != o.name {
          assert m'[k] == m[k];
        }
      }
    }
  }

  /** A refusal of the objects names a listed object, not the placeholder, and the reason. */
  lemma {:induction false} ObjectEntriesFault(dir: string, objects: seq<StorageObject>)
    requires ObjectEntries(dir, objects).Failure?
    ensures var f := ObjectEntries(dir, objects).error;
            && f.BadObjectName?
            && f.name in ObjectNames(dir, objects)
            && CheckObjectName(dir, f.name) == Some(f.reason)
    decreases |objects|
  {
    var prefix, o := objects[..|objects| - 1], objects[|objects| - 1];
    SplitLast(objects);
    ObjectNamesSnoc(dir, prefix, o);
    if ObjectEntries(dir, prefix).Failure? {
      ObjectEntriesFault(dir, prefix);
    }
  }

  /** The prefixes are accepted iff each is a legal sub-directory name. */
  lemma {:induction false} SubdirEntriesAccepts(dir: string, base: map<string, Node>, subdirs: seq<string>)
    ensures SubdirEntries(dir, base, subdirs).Success? <==>
              forall s :: s in subdirs ==> CheckSubdirName(dir, s) == None
    decreases |subdirs|
  {
    if subdirs != [] {
      var prefix, s := subdirs[..|subdirs| - 1], subdirs[|subdirs| - 1];
      SplitLast(subdirs);
      SubdirEntriesAccepts(dir, base, prefix);
      if CheckSubdirName(dir, s) == None {
        AcceptedSubdirIsStrictDescendant(dir, s);
      }
    }
  }

  /** `m` is `base` with each listed prefix added as a sub-directory of its own name. */
  ghost predicate IsSubdirMap(base: map<string, Node>, subdirs: seq<string>, m: map<string, Node>) {
    && (forall k :: k in m <==> k in base || k in subdirs)
    && (forall k :: k in subdirs ==> k in m && m[k] == Subdir(k))
    && (forall k :: k in base && k !in subdirs ==> k in m && m[k] == base[k])
  }

  /** One step of accepted prefixes: the last prefix is added as a sub-directory of its own name. */
  lemma SubdirEntriesStep(dir: string, base: map<string, Node>, subdirs: seq<string>)
    requires subdirs != [] && SubdirEntries(dir, base, subdirs).Success?
    ensures var s := subdirs[|subdirs| - 1];
            && SubdirEntries(dir, base, subdirs[..|subdirs| - 1]).Success?
            && SubdirEntries(dir, base, subdirs).value == SubdirEntries(dir, base, subdirs[..|subdirs| - 1]).value[s := Subdir(s)]
  {
  }

  /** Accepted prefixes are added to `base`, each as a sub-directory of its own name. */
  lemma {:induction false} SubdirEntriesMap(dir: string, base: map<string, Node>, subdirs: seq<string>)
    requires SubdirEntries(dir, base, subdirs).Success?
    ensures IsSubdirMap(base, subdirs, SubdirEntries(dir, base, subdirs).value)
    decreases |subdirs|
  {
    if subdirs != [] {
      var prefix, s := subdirs[..|subdirs| - 1], subdirs[|subdirs| - 1];
      SplitLast(subdirs);
      SubdirEntriesStep(dir, base, subdirs);
      SubdirEntriesMap(dir, base, prefix);
      var m := SubdirEntries(dir, base, prefix).value;
      var m' := m[s := Subdir(s)];
      assert forall t :: t in subdirs ==> t in m' && m'[t] == Subdir(t) by {
        forall t | t in subdirs ensures t in m' && m'[t] == Subdir(t) {
          if t != s {
            assert t in prefix;
          }
        }
      }
      assert forall t :: t in base && t !in subdirs ==> t in m' && m'[t] == base[t] by {
        forall t | t in base && t !in subdirs ensures t in m' && m'[t] == base[t] {
          assert t !in prefix;
        }
      }
    }
  }

  /** A refusal of the prefixes names a listed prefix and the reason; the non-descendant fault never arises. */
  lemma {:induction false} SubdirEntriesFault(dir: string, base: map<string, Node>, subdirs: seq<string>)
    requires SubdirEntries(dir, base, subdirs).Failure?
    ensures var f := SubdirEntries(dir, base, subdirs).error;
            f.BadSubdirName? && f.name in subdirs && CheckSubdirName(dir, f.name) == Some(f.reason)
    decreases |subdirs|
  {
    var prefix, s := subdirs[..|subdirs| - 1], subdirs[|subdirs| - 1];
    SplitLast(subdirs);
    if SubdirEntries(dir, base, prefix).Failure? {
      SubdirEntriesFault(dir, base, prefix);
    } else if CheckSubdirName(dir, s) == None {
      AcceptedSubdirIsStrictDescendant(dir, s);
    }
  }

  /**
   * A listing is accepted iff all its names are legal. The map it then gives
   * is well formed, leaves out the directory's own placeholder object, and
   * holds exactly the listed objects and prefixes.
   */
  lemma ListingEntriesSpec(dir: string, objects: seq<StorageObject>, subdirs: seq<string>)
    requires IsDirName(dir)
    ensures ListingEntries(dir, objects, subdirs).Success? <==> ListingIsLegal(dir, objects, subdirs)
    ensures ListingEntries(dir, objects, subdirs).Success? ==>
              var m := ListingEntries(dir, objects, subdirs).value;
              && ContentsWellFormed(dir, m)
              && dir !in m
              && (forall k :: k in m <==> k in ObjectNames(dir, objects) || k in subdirs)
              && (forall k :: k in m ==> (m[k].Object? && m[k].obj in objects) || (m[k] == Subdir(k) && k in subdirs))
  {
    ObjectEntriesAccepts(dir, objects);
    if ObjectEntries(dir, objects).Success? {
      var m0 := ObjectEntries(dir, objects).value;
      ObjectEntriesMap(dir, objects);
      SubdirEntriesAccepts(dir, m0, subdirs);
      if SubdirEntries(dir, m0, subdirs).Success? {
        var m := SubdirEntries(dir, m0, subdirs).value;
        SubdirEntriesMap(dir, m0, subdirs);
        forall k | k in m
          ensures KeyWellFormed(dir, k, m[k])
        {
          if k in subdirs {
            AcceptedSubdirIsStrictDescendant(dir, k);
          } else {
            AcceptedObjectIsStrictDescendant(dir, k);
          }
        }
      }
    }
  }

  /** A refused listing is refused for a listed illegal name, never for a non-descendant prefix. */
  lemma ListingEntriesFault(dir: string, objects: seq<StorageObject>, subdirs: seq<string>)
    requires ListingEntries(dir, objects, subdirs).Failure?
    ensures var f := ListingEntries(dir, objects, subdirs).error;
            || (f.BadObjectName? && f.name in ObjectNames(dir, objects) && CheckObjectName(dir, f.name) == Some(f.reason))
            || (f.BadSubdirName? && f.name in subdirs && CheckSubdirName(dir, f.name) == Some(f.reason))
  {
    if ObjectEntries(dir, objects).Failure? {
      ObjectEntriesFault(dir, objects);
    } else {
      SubdirEntriesFault(dir, ObjectEntries(dir, objects).value, subdirs);
    }
  }
}
