/**
 * The modification journal: the records of recent local additions and
 * removals, in the order they happened, with their expirations; how one record
 * is played back onto a contents map; how the whole journal is replayed; and
 * the prefix-only pruning of expired records.
 */
module Journal {
  import opened Wrappers
  import opened Names
  import opened Entries

  /** An instant or a duration, in nanoseconds. Go's Before is `<`, Add is `+`. */
  type Time = int

  /** childModification: a removal when `node` is None, an addition otherwise. */
  datatype ChildModification = ChildModification(expiration: Time, name: string, node: Option<Node>)

  /** The contents show the record: a removal's name is absent, an addition's maps to its node. */
  predicate Reflects(c: map<string, Node>, m: ChildModification) {
    match m.node
    case None => m.name !in c
    case Some(n) => m.name in c && c[m.name] == n
  }

  /** playBackModification, on a contents map: only the record's own name changes, and it comes to reflect the record. */
  function PlayBack(c: map<string, Node>, m: ChildModification): (r: map<string, Node>)
    ensures Reflects(r, m)
    ensures forall k :: k != m.name ==> (k in r <==> k in c)
    ensures forall k :: k != m.name && k in c ==> r[k] == c[k]
  {
    match m.node
    case None => c - {m.name}
    case Some(n) => c[m.name := n]
  }

  /** The journal played back onto `c`, oldest record first. */
  function Replay(c: map<string, Node>, journal: seq<ChildModification>): (r: map<string, Node>)
    ensures forall k :: k in r ==> k in c || k in NamesOf(journal)
    decreases |journal|
  {
    if journal == [] then c
    else PlayBack(Replay(c, journal[..|journal| - 1]), journal[|journal| - 1])
  }

  ghost function NamesOf(journal: seq<ChildModification>): set<string> {
    set m | m in journal :: m.name
  }

  /** No two records share a name. */
  ghost predicate UniqueNames(journal: seq<ChildModification>) {
    forall i, j :: 0 <= i < j < |journal| ==> journal[i].name != journal[j].name
  }

  /** Every record is reflected in the contents. */
  ghost predicate Reflected(journal: seq<ChildModification>, c: map<string, Node>) {
    forall m :: m in journal ==> Reflects(c, m)
  }

  /** The index holds exactly the journal's names, each mapped to the journal's record of that name. */
  ghost predicate Indexed(journal: seq<ChildModification>, index: map<string, ChildModification>) {
    && index.Keys == NamesOf(journal)
    && forall n :: n in index ==> index[n].name == n && index[n] in journal
  }

  /** An addition record carries an entry the contents map may hold under its name. */
  predicate RecordWellFormed(dir: string, m: ChildModification) {
    m.node.Some? ==> KeyWellFormed(dir, m.name, m.node.value)
  }

  /**
   * The journal without the record named `n`: list.Remove applied to the
   * element the index holds for `n`, which is that record.
   */
  function Without(journal: seq<ChildModification>, n: string): seq<ChildModification>
    decreases |journal|
  {
    if journal == [] then []
    else (if journal[0].name == n then [] else [journal[0]]) + Without(journal[1..], n)
  }

  /** The length of the longest prefix of records that have expired at `now`. */
  function ExpiredCount(journal: seq<ChildModification>, now: Time): (k: nat)
    ensures k <= |journal|
    ensures forall i :: 0 <= i < k ==> !(now < journal[i].expiration)
    ensures k < |journal| ==> now < journal[k].expiration
    decreases |journal|
  {
    if journal == [] || now < journal[0].expiration then 0
    else 1 + ExpiredCount(journal[1..], now)
  }

  /** cleanChildModifications, on the journal: drop the expired prefix. */
  function Prune(journal: seq<ChildModification>, now: Time): (r: seq<ChildModification>)
    ensures |r| <= |journal| && r == journal[|journal| - |r|..]
    ensures forall i :: 0 <= i < |journal| - |r| ==> !(now < journal[i].expiration)
    ensures r != [] ==> now < r[0].expiration
  {
    journal[ExpiredCount(journal, now)..]
  }

  /**
   * Replaying a journal with unique names makes every record reflected, and
   * leaves every name the journal does not mention as it was.
   */
  lemma {:induction false} ReplayReflects(c: map<string, Node>, journal: seq<ChildModification>)
    requires UniqueNames(journal)
    ensures Reflected(journal, Replay(c, journal))
    ensures forall k :: k !in NamesOf(journal) ==> (k in Replay(c, journal) <==> k in c)
    ensures forall k :: k !in NamesOf(journal) && k in c ==> Replay(c, journal)[k] == c[k]
    decreases |journal|
  {
    if journal != [] {
      var prefix, last := journal[..|journal| - 1], journal[|journal| - 1];
      assert journal == prefix + [last];
      ReplayReflects(c, prefix);
      var before := Replay(c, prefix);
      forall m | m in prefix ensures m.name != last.name {
        var i :| 0 <= i < |prefix| && prefix[i] == m;
        assert journal[i] == m;
      }
      forall m | m in journal
        ensures Reflects(Replay(c, journal), m)
      {
        if m != last {
          assert m in prefix;
          assert m.name in NamesOf(prefix);
        }
      }
    }
  }

  /** Replaying well-formed records onto well-formed contents keeps them well formed. */
  lemma {:induction false} ReplayKeepsWellFormed(dir: string, c: map<string, Node>, journal: seq<ChildModification>)
    requires ContentsWellFormed(dir, c)
    requires forall m :: m in journal ==> RecordWellFormed(dir, m)
    ensures ContentsWellFormed(dir, Replay(c, journal))
    decreases |journal|
  {
    if journal != [] {
      var prefix, last := journal[..|journal| - 1], journal[|journal| - 1];
      assert journal == prefix + [last];
      assert forall m :: m in prefix ==> m in journal;
      ReplayKeepsWellFormed(dir, c, prefix);
      assert RecordWellFormed(dir, last);
      var before := Replay(c, prefix);
      forall k | k in Replay(c, journal) ensures KeyWellFormed(dir, k, Replay(c, journal)[k]) {
        if k != last.name {
          assert k in before;
        }
      }
    }
  }

  /** Records reflected in well-formed contents are themselves well formed. */
  lemma ReflectedRecordsWellFormed(dir: string, c: map<string, Node>, journal: seq<ChildModification>)
    requires ContentsWellFormed(dir, c) && Reflected(journal, c)
    ensures forall m :: m in journal ==> RecordWellFormed(dir, m)
  {
  }

  /** Dropping the first record keeps names unique. */
  lemma UniqueTail(journal: seq<ChildModification>)
    requires journal != [] && UniqueNames(journal)
    ensures UniqueNames(journal[1..])
  {
    var rest := journal[1..];
    forall i, j | 0 <= i < j < |rest| ensures rest[i].name != rest[j].name {
      assert rest[i] == journal[i + 1] && rest[j] == journal[j + 1];
    }
  }

  /** Without keeps exactly the records not named `n`. */
  lemma {:induction false} WithoutMembers(journal: seq<ChildModification>, n: string)
    ensures forall m :: m in Without(journal, n) <==> m in journal && m.name != n
    decreases |journal|
  {
    if journal != [] {
      var rest := journal[1..];
      WithoutMembers(rest, n);
      assert journal == [journal[0]] + rest;
      assert forall m :: m in journal <==> m == journal[0] || m in rest;
    }
  }

  /** Without keeps names unique. */
  lemma {:induction false} WithoutUnique(journal: seq<ChildModification>, n: string)
    requires UniqueNames(journal)
    ensures UniqueNames(Without(journal, n))
    decreases |journal|
  {
    if journal != [] {
      var rest := journal[1..];
      UniqueTail(journal);
      WithoutUnique(rest, n);
      if journal[0].name != n {
        var w, w' := Without(journal, n), Without(rest, n);
        assert w == [journal[0]] + w';
        WithoutMembers(rest, n);
        forall i, j | 0 <= i < j < |w| ensures w[i].name != w[j].name {
          if i == 0 {
            assert w[j] == w'[j - 1] && w'[j - 1] in rest;
            var k :| 0 <= k < |rest| && rest[k] == w[j];
            assert journal[k + 1] == w[j];
          } else {
            assert w[i] == w'[i - 1] && w[j] == w'[j - 1];
          }
        }
      }
    }
  }

  /** Without removes exactly the records named `n`, and keeps names unique. */
  lemma WithoutSpec(journal: seq<ChildModification>, n: string)
    ensures forall m :: m in Without(journal, n) <==> m in journal && m.name != n
    ensures NamesOf(Without(journal, n)) == NamesOf(journal) - {n}
    ensures UniqueNames(journal) ==> UniqueNames(Without(journal, n))
  {
    WithoutMembers(journal, n);
    if UniqueNames(journal) {
      WithoutUnique(journal, n);
    }
  }

  /** Without a name the journal does not hold leaves it as it is. */
  lemma {:induction false} WithoutAbsent(journal: seq<ChildModification>, n: string)
    requires n !in NamesOf(journal)
    ensures Without(journal, n) == journal
    decreases |journal|
  {
    if journal != [] {
      assert journal[0] in journal;
      assert forall m :: m in journal[1..] ==> m in journal;
      WithoutAbsent(journal[1..], n);
      assert journal == [journal[0]] + journal[1..];
    }
  }

  /** With unique names, Without removes the one record of that name and keeps the rest in order. */
  lemma {:induction false} WithoutAt(journal: seq<ChildModification>, i: nat)
    requires UniqueNames(journal) && i < |journal|
    ensures Without(journal, journal[i].name) == journal[..i] + journal[i + 1..]
    decreases |journal|
  {
    var n, rest := journal[i].name, journal[1..];
    UniqueTail(journal);
    if i == 0 {
      assert n !in NamesOf(rest) by {
        forall m | m in rest ensures m.name != n {
          var k :| 0 <= k < |rest| && rest[k] == m;
          assert journal[k + 1] == m;
        }
      }
      WithoutAbsent(rest, n);
      assert Without(journal, n) == Without(rest, n);
    } else {
      assert rest[i - 1] == journal[i];
      WithoutAt(rest, i - 1);
      assert Without(journal, n) == [journal[0]] + Without(rest, n);
      assert journal[..i] == [journal[0]] + rest[..i - 1];
      assert journal[i + 1..] == rest[i..];
    }
  }

  /** A record still live at `now` survives pruning. */
  lemma PruneKeepsLive(journal: seq<ChildModification>, m: ChildModification, now: Time)
    requires m in journal && now < m.expiration
    ensures m in Prune(journal, now)
  {
    var k := ExpiredCount(journal, now);
    var i :| 0 <= i < |journal| && journal[i] == m;
    assert journal[k..][i - k] == m;
  }

  /** Appending a live record commutes with pruning. */
  lemma {:induction false} PruneAppendLive(journal: seq<ChildModification>, m: ChildModification, now: Time)
    requires now < m.expiration
    ensures Prune(journal + [m], now) == Prune(journal, now) + [m]
    decreases |journal|
  {
    if journal != [] && !(now < journal[0].expiration) {
      assert (journal + [m])[1..] == journal[1..] + [m];
      PruneAppendLive(journal[1..], m, now);
    }
  }

  /** When expirations never decrease along the journal, pruning removes every expired record. */
  lemma PruneExactWhenSorted(journal: seq<ChildModification>, now: Time)
    requires forall i, j :: 0 <= i < j < |journal| ==> journal[i].expiration <= journal[j].expiration
    ensures forall m :: m in Prune(journal, now) ==> now < m.expiration
  {
    var k := ExpiredCount(journal, now);
    forall m | m in Prune(journal, now) ensures now < m.expiration {
      var i :| 0 <= i < |journal| - k && journal[k..][i] == m;
      assert journal[k].expiration <= journal[k + i].expiration;
    }
  }

  /** A suffix of a unique journal is unique, and reflected wherever the journal is. */
  lemma SuffixKeeps(journal: seq<ChildModification>, k: nat, c: map<string, Node>)
    requires k <= |journal|
    ensures UniqueNames(journal) ==> UniqueNames(journal[k..])
    ensures Reflected(journal, c) ==> Reflected(journal[k..], c)
    ensures forall m :: m in journal[k..] ==> m in journal
  {
    if UniqueNames(journal) {
      forall a, b | 0 <= a < b < |journal| - k ensures journal[k..][a].name != journal[k..][b].name {
        assert journal[k..][a] == journal[k + a] && journal[k..][b] == journal[k + b];
      }
    }
  }

  /**
   * Dropping the first `k` records and deleting their names from the index
   * keeps the index exact.
   */
  lemma SuffixIndexed(journal: seq<ChildModification>, index: map<string, ChildModification>, k: nat)
    requires UniqueNames(journal) && Indexed(journal, index) && k <= |journal|
    ensures Indexed(journal[k..], index - NamesOf(journal[..k]))
  {
    var front, rest := journal[..k], journal[k..];
    NamesSplit(journal, k);
    forall n | n in index && n !in NamesOf(front) ensures index[n] in rest {
      assert index[n] in journal && index[n].name == n;
    }
  }

  /** With unique names, a split of the journal splits its names into disjoint parts. */
  lemma NamesSplit(journal: seq<ChildModification>, k: nat)
    requires UniqueNames(journal) && k <= |journal|
    ensures forall m :: m in journal <==> m in journal[..k] || m in journal[k..]
    ensures NamesOf(journal) == NamesOf(journal[..k]) + NamesOf(journal[k..])
    ensures NamesOf(journal[..k]) !! NamesOf(journal[k..])
  {
    var front, rest := journal[..k], journal[k..];
    assert journal == front + rest;
    forall m, m' | m in front && m' in rest ensures m.name != m'.name {
      var a :| 0 <= a < k && front[a] == m;
      var b :| 0 <= b < |rest| && rest[b] == m';
      assert journal[a] == m && journal[k + b] == m';
    }
  }

  /**
   * Supersede-and-append: after dropping any record of `m`'s name and
   * appending `m`, names stay unique and `m` is the one record of its name.
   */
  lemma SupersedeUnique(journal: seq<ChildModification>, m: ChildModification)
    requires UniqueNames(journal)
    ensures UniqueNames(Without(journal, m.name) + [m])
    ensures forall r :: r in Without(journal, m.name) + [m] && r.name == m.name ==> r == m
  {
    var w := Without(journal, m.name);
    WithoutSpec(journal, m.name);
    forall i, j | 0 <= i < j < |w + [m]| ensures (w + [m])[i].name != (w + [m])[j].name {
      if j == |w| {
        assert (w + [m])[i] == w[i] && w[i] in w;
      } else {
        assert (w + [m])[i] == w[i] && (w + [m])[j] == w[j];
      }
    }
  }

  /** The index kept beside a supersede-and-append stays exact. */
  lemma SupersedeIndexed(journal: seq<ChildModification>, index: map<string, ChildModification>, m: ChildModification)
    requires UniqueNames(journal) && Indexed(journal, index)
    ensures Indexed(Without(journal, m.name) + [m], (index - {m.name})[m.name := m])
  {
    var w := Without(journal, m.name);
    WithoutSpec(journal, m.name);
    assert NamesOf(w + [m]) == NamesOf(w) + {m.name} by {
      assert forall r :: r in w + [m] <==> r in w || r == m;
    }
  }

  /** Each step along the journal adds exactly the name of the record stepped over. */
  lemma NamesOfPrefixStep(journal: seq<ChildModification>, j: nat)
    requires j < |journal|
    ensures NamesOf(journal[..j + 1]) == NamesOf(journal[..j]) + {journal[j].name}
  {
    assert journal[..j + 1] == journal[..j] + [journal[j]];
    assert forall r :: r in journal[..j + 1] <==> r in journal[..j] || r == journal[j];
  }

  /**
   * With unique names the journal determines its index: two exact indexes of
   * the same journal are equal.
   */
  lemma IndexDetermined(journal: seq<ChildModification>, a: map<string, ChildModification>, b: map<string, ChildModification>)
    requires UniqueNames(journal) && Indexed(journal, a) && Indexed(journal, b)
    ensures a == b
  {
    forall n | n in a ensures a[n] == b[n] {
      var i :| 0 <= i < |journal| && journal[i] == a[n];
      var j :| 0 <= j < |journal| && journal[j] == b[n];
      assert journal[i].name == journal[j].name;
    }
  }

  /** Removing the name of the first record of a suffix drops exactly that record. */
  lemma DropFirst(journal: seq<ChildModification>, j: nat)
    requires UniqueNames(journal) && j < |journal|
    ensures Without(journal[j..], journal[j].name) == journal[j + 1..]
  {
    SuffixKeeps(journal, j, map[]);
    WithoutAt(journal[j..], 0);
    assert journal[j..][1..] == journal[j + 1..];
  }

  /** Pruning twice at the same instant is pruning once. */
  lemma PruneIdempotent(journal: seq<ChildModification>, now: Time)
    ensures ExpiredCount(Prune(journal, now), now) == 0
    ensures Prune(Prune(journal, now), now) == Prune(journal, now)
  {
    var k := ExpiredCount(journal, now);
    var p := journal[k..];
    if p != [] {
      assert p[0] == journal[k];
    }
    assert ExpiredCount(p, now) == 0;
    assert p[0..] == p;
  }
}
