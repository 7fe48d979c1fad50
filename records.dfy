/** Chirp records, the snapshot the store persists, and the properties the
    store's operations are specified against: the id allocator's relation
    to the stored keys, insertion of a new chirp, and the ordered listing. */
module Records {

  /** One stored message; `id` and `body` are the JSON members "id" and "body". */
  datatype Chirp = Chirp(id: int, body: string)

  /** The member "chirps" of the persisted document: entries keyed by id. */
  type Snapshot = map<int, Chirp>

  /** Every key of `s` lies strictly below `bound`. */
  ghost predicate AboveAll(s: Snapshot, bound: int)
  {
    forall k :: k in s ==> k < bound
  }

  /** Every entry is stored under its own id. */
  ghost predicate KeysMatchIds(s: Snapshot)
  {
    forall k :: k in s ==> s[k].id == k
  }

  /** `n` is the allocator value recovered from `s` by scanning its keys
      upwards from 0: the least non-negative value above every key, that is
      max(0, largest key + 1). */
  ghost predicate IsRecoveredId(s: Snapshot, n: int)
  {
    n >= 0 && AboveAll(s, n) && (n == 0 || n - 1 in s)
  }

  /** The recovered allocator value is determined by the snapshot alone. */
  lemma RecoveredIdUnique(s: Snapshot, n: int, m: int)
    requires IsRecoveredId(s, n) && IsRecoveredId(s, m)
    ensures n == m
  {
  }

  /** On an empty snapshot the recovered allocator value is 0. */
  lemma RecoveredIdOfEmpty(n: int)
    requires IsRecoveredId(map[], n)
    ensures n == 0
  {
  }

  /** The snapshot after storing a new chirp under the allocator value `id`. */
  function AddChirp(s: Snapshot, id: int, body: string): (r: Snapshot)
    requires AboveAll(s, id)
    ensures id in r && r[id] == Chirp(id, body)
    ensures r.Keys == s.Keys + {id} && |r| == |s| + 1
    ensures forall k :: k in s ==> r[k] == s[k]
    ensures AboveAll(r, id + 1)
  {
    assert id !in s;
    s[id := Chirp(id, body)]
  }

  /** Storing a chirp at the allocator value keeps every entry under its own id. */
  lemma AddChirpPreserves(s: Snapshot, id: int, body: string)
    requires AboveAll(s, id) && KeysMatchIds(s)
    ensures KeysMatchIds(AddChirp(s, id, body))
  {
  }

  /** A run of successful creates starting from snapshot `s` with allocator
      `next`: the final snapshot and the chirps returned, in call order. */
  function CreateMany(s: Snapshot, next: int, bodies: seq<string>): (r: (Snapshot, seq<Chirp>))
    ensures |r.1| == |bodies|
    decreases |bodies|
  {
    if bodies == [] then (s, [])
    else
      var rest := CreateMany(s[next := Chirp(next, bodies[0])], next + 1, bodies[1..]);
      (rest.0, [Chirp(next, bodies[0])] + rest.1)
  }

  /** A run of successful creates begins with one create. */
  lemma CreateManyStep(s: Snapshot, next: int, bodies: seq<string>)
    requires AboveAll(s, next) && bodies != []
    ensures CreateMany(s, next, bodies).0 == CreateMany(AddChirp(s, next, bodies[0]), next + 1, bodies[1..]).0
  {
  }

  /** The i-th of successive successful creates returns the chirp with id
      next + i and the i-th body. */
  lemma {:induction false} CreateManyChirpAt(s: Snapshot, next: int, bodies: seq<string>, i: int)
    requires AboveAll(s, next) && 0 <= i < |bodies|
    ensures |CreateMany(s, next, bodies).1| == |bodies|
    ensures CreateMany(s, next, bodies).1[i] == Chirp(next + i, bodies[i])
    decreases |bodies|
  {
    var s1 := AddChirp(s, next, bodies[0]);
    var ts := CreateMany(s1, next + 1, bodies[1..]).1;
    assert |ts| == |bodies| - 1 && (i > 0 ==> ts[i - 1] == Chirp(next + i, bodies[i])) by {
      if |bodies| > 1 {
        CreateManyChirpAt(s1, next + 1, bodies[1..], if i > 0 then i - 1 else 0);
      }
    }
  }

  /** Successive successful creates keep every existing entry, grow the
      map by one entry per create, and keep both invariants with the
      allocator advanced past the new ids. */
  lemma {:induction false} CreateManySnapshot(s: Snapshot, next: int, bodies: seq<string>)
    requires AboveAll(s, next) && KeysMatchIds(s)
    ensures var s' := CreateMany(s, next, bodies).0;
      && (forall k :: k in s ==> k in s' && s'[k] == s[k])
      && |s'| == |s| + |bodies|
      && AboveAll(s', next + |bodies|)
      && KeysMatchIds(s')
    decreases |bodies|
  {
    if bodies != [] {
      var s1 := AddChirp(s, next, bodies[0]);
      AddChirpPreserves(s, next, bodies[0]);
      CreateManySnapshot(s1, next + 1, bodies[1..]);
    }
  }

  /** Successive successful creates keep every existing entry. */
  lemma {:induction false} CreateManyKeeps(s: Snapshot, next: int, bodies: seq<string>, k: int)
    requires AboveAll(s, next) && k in s
    ensures k in CreateMany(s, next, bodies).0 && CreateMany(s, next, bodies).0[k] == s[k]
    decreases |bodies|
  {
    if bodies != [] {
      CreateManyKeeps(AddChirp(s, next, bodies[0]), next + 1, bodies[1..], k);
    }
  }

  /** Successive successful creates store each new chirp under its id. */
  lemma {:induction false} CreateManyStoresAt(s: Snapshot, next: int, bodies: seq<string>, k: int)
    requires AboveAll(s, next) && next <= k < next + |bodies|
    ensures k in CreateMany(s, next, bodies).0
    ensures CreateMany(s, next, bodies).0[k] == Chirp(k, bodies[k - next])
    decreases |bodies|
  {
    var s1 := AddChirp(s, next, bodies[0]);
    var r1 := CreateMany(s1, next + 1, bodies[1..]).0;
    assert k in r1 && r1[k] == Chirp(k, bodies[k - next]) by {
      if k == next {
        CreateManyKeeps(s1, next + 1, bodies[1..], k);
      } else {
        CreateManyStoresAt(s1, next + 1, bodies[1..], k);
        assert bodies[1..][k - (next + 1)] == bodies[k - next];
      }
    }
  }

  /** Ids returned by successive successful creates are strictly increasing,
      hence pairwise distinct. */
  lemma CreateManyIdsIncrease(s: Snapshot, next: int, bodies: seq<string>)
    requires AboveAll(s, next)
    ensures var cs := CreateMany(s, next, bodies).1;
      forall i, j :: 0 <= i < j < |cs| ==> cs[i].id < cs[j].id
  {
    var cs := CreateMany(s, next, bodies).1;
    if bodies != [] {
      CreateManyChirpAt(s, next, bodies, 0);
    }
    forall i, j | 0 <= i < j < |cs|
      ensures cs[i].id < cs[j].id
    {
      CreateManyChirpAt(s, next, bodies, i);
      CreateManyChirpAt(s, next, bodies, j);
    }
  }

  // ---------------------------------------------------------------------
  // The listing: one element per entry, ascending by id.

  /** The values stored under `keys`, counted once per key. */
  ghost function ValuesAt(m: Snapshot, keys: set<int>): multiset<Chirp>
    requires keys <= m.Keys
    decreases keys
  {
    if keys == {} then multiset{}
    else
      assert exists k :: k in keys by { NonEmptyHasElement(keys); }
      var k :| k in keys;
      multiset{m[k]} + ValuesAt(m, keys - {k})
  }

  /** A non-empty set has an element. */
  lemma NonEmptyHasElement(keys: set<int>)
    requires keys != {}
    ensures exists k :: k in keys
  {
    if forall k :: k !in keys { assert false; }
  }

  /** All entries' values of `m`, one per key. */
  ghost function EntryValues(m: Snapshot): multiset<Chirp>
  {
    ValuesAt(m, m.Keys)
  }

  /** `ValuesAt` may take its keys out in any order. */
  lemma {:induction false} ValuesAtRemove(m: Snapshot, keys: set<int>, k: int)
    requires keys <= m.Keys && k in keys
    ensures ValuesAt(m, keys) == multiset{m[k]} + ValuesAt(m, keys - {k})
    decreases keys
  {
    var j :| j in keys && ValuesAt(m, keys) == multiset{m[j]} + ValuesAt(m, keys - {j});
    if j != k {
      ValuesAtRemove(m, keys - {j}, k);
      ValuesAtRemove(m, keys - {k}, j);
      assert keys - {j} - {k} == keys - {k} - {j};
    }
  }

  /** One value per key. */
  lemma {:induction false} ValuesAtSize(m: Snapshot, keys: set<int>)
    requires keys <= m.Keys
    ensures |ValuesAt(m, keys)| == |keys|
    decreases keys
  {
    if keys != {} {
      NonEmptyHasElement(keys);
      var k :| k in keys;
      ValuesAtRemove(m, keys, k);
      ValuesAtSize(m, keys - {k});
    }
  }

  /** A value occurs exactly when some key in `keys` maps to it. */
  lemma {:induction false} ValuesAtMember(m: Snapshot, keys: set<int>, v: Chirp)
    requires keys <= m.Keys
    ensures v in ValuesAt(m, keys) <==> exists k :: k in keys && m[k] == v
    decreases keys
  {
    if keys != {} {
      NonEmptyHasElement(keys);
      var k :| k in keys;
      ValuesAtRemove(m, keys, k);
      ValuesAtMember(m, keys - {k}, v);
      if v in ValuesAt(m, keys) && v != m[k] {
        var k' :| k' in keys - {k} && m[k'] == v;
        assert k' in keys;
      }
    }
  }

  /** When every entry is stored under its own id, no value occurs twice. */
  lemma {:induction false} ValuesAtDistinct(m: Snapshot, keys: set<int>, v: Chirp)
    requires keys <= m.Keys && KeysMatchIds(m)
    ensures ValuesAt(m, keys)[v] <= 1
    decreases keys
  {
    if keys != {} {
      NonEmptyHasElement(keys);
      var k :| k in keys;
      ValuesAtRemove(m, keys, k);
      ValuesAtDistinct(m, keys - {k}, v);
      if v == m[k] {
        ValuesAtMember(m, keys - {k}, v);
      }
    }
  }

  /** Ascending by id (ties allowed: nothing forces distinct ids in a file
      written by someone else). */
  predicate SortedById(s: seq<Chirp>)
  {
    forall i, j :: 0 <= i < j < |s| ==> s[i].id <= s[j].id
  }

  /** Ascending by id with no two ids equal. */
  predicate StrictlyById(s: seq<Chirp>)
  {
    forall i, j :: 0 <= i < j < |s| ==> s[i].id < s[j].id
  }

  /** `s` is a listing of `m`: its values, one per entry, ascending by id. */
  ghost predicate IsListing(m: Snapshot, s: seq<Chirp>)
  {
    SortedById(s) && multiset(s) == EntryValues(m)
  }

  /** A listing has one element per entry, holds exactly the stored values,
      and, on a snapshot whose entries are keyed by their ids, is strictly
      ascending and finds each element under its id. */
  lemma ListingSpec(m: Snapshot, s: seq<Chirp>)
    requires IsListing(m, s)
    ensures |s| == |m|
    ensures forall c :: c in s <==> exists k :: k in m && m[k] == c
    ensures KeysMatchIds(m) ==>
      StrictlyById(s) && (forall i :: 0 <= i < |s| ==> s[i].id in m && m[s[i].id] == s[i])
  {
    ValuesAtSize(m, m.Keys);
    assert |multiset(s)| == |s|;
    forall c
      ensures c in s <==> exists k :: k in m && m[k] == c
    {
      ValuesAtMember(m, m.Keys, c);
      assert c in s <==> c in multiset(s);
    }
    if KeysMatchIds(m) {
      forall i | 0 <= i < |s|
        ensures s[i].id in m && m[s[i].id] == s[i]
      {
        assert s[i] in s;
        ValuesAtMember(m, m.Keys, s[i]);
        assert s[i] in multiset(s);
        var k :| k in m && m[k] == s[i];
      }
      forall i, j | 0 <= i < j < |s|
        ensures s[i].id < s[j].id
      {
        if s[i].id == s[j].id {
          assert s[i] in s && s[j] in s;
          assert s[i] == m[s[i].id] == s[j];
          TwoOccurrences(s, i, j);
          ValuesAtDistinct(m, m.Keys, s[i]);
        }
      }
    }
  }

  /** On a snapshot keyed by ids there is only one listing, whatever order
      the map is walked in and however the sort breaks ties. */
  lemma ListingUnique(m: Snapshot, s: seq<Chirp>, t: seq<Chirp>)
    requires KeysMatchIds(m) && IsListing(m, s) && IsListing(m, t)
    ensures s == t
  {
    ListingSpec(m, s);
    ListingSpec(m, t);
    StrictlySortedUnique(s, t);
  }

  /** Two sequences ascending strictly by id with the same elements are equal. */
  lemma {:induction false} StrictlySortedUnique(s: seq<Chirp>, t: seq<Chirp>)
    requires StrictlyById(s) && StrictlyById(t)
    requires multiset(s) == multiset(t)
    ensures s == t
    decreases |s|
  {
    assert |s| == |multiset(s)| == |multiset(t)| == |t|;
    if s != [] {
      SameHead(s, t);
      assert multiset(s[1..]) == multiset(t[1..]) by {
        assert s == [s[0]] + s[1..] && t == [t[0]] + t[1..];
        assert multiset(s) == multiset{s[0]} + multiset(s[1..]);
        assert multiset(t) == multiset{t[0]} + multiset(t[1..]);
        forall c
          ensures multiset(s[1..])[c] == multiset(t[1..])[c]
        {
          assert multiset(s)[c] == multiset{s[0]}[c] + multiset(s[1..])[c];
          assert multiset(t)[c] == multiset{t[0]}[c] + multiset(t[1..])[c];
        }
      }
      assert StrictlyById(s[1..]) && StrictlyById(t[1..]);
      StrictlySortedUnique(s[1..], t[1..]);
      assert s == [s[0]] + s[1..] && t == [t[0]] + t[1..];
    }
  }

  /** The element with the least id comes first in both. */
  lemma SameHead(s: seq<Chirp>, t: seq<Chirp>)
    requires StrictlyById(s) && StrictlyById(t)
    requires multiset(s) == multiset(t) && s != [] && t != []
    ensures s[0] == t[0]
  {
    assert s[0] in multiset(t) && t[0] in multiset(s);
    var k :| 0 <= k < |t| && t[k] == s[0];
    var n :| 0 <= n < |s| && s[n] == t[0];
    assert s[0].id <= s[n].id && t[0].id <= t[k].id;
  }

  /** A fresh store creating "hello" then "world" hands out ids 0 and 1
      and lists the two chirps in creation order. */
  lemma FreshStoreScenario()
    ensures var (s, cs) := CreateMany(map[], 0, ["hello", "world"]);
      cs == [Chirp(0, "hello"), Chirp(1, "world")] && IsListing(s, cs)
  {
    var bodies := ["hello", "world"];
    var hello, world := Chirp(0, "hello"), Chirp(1, "world");
    var s1 := AddChirp(map[], 0, "hello");
    var s2 := AddChirp(s1, 1, "world");
    assert bodies[1..] == ["world"] && bodies[1..][1..] == [];
    var r2 := CreateMany(s2, 2, []);
    assert r2.0 == s2 && r2.1 == [];
    var r1 := CreateMany(s1, 1, ["world"]);
    assert r1.0 == s2 && r1.1 == [world];
    var r0 := CreateMany(map[], 0, bodies);
    assert r0.0 == s2 && r0.1 == [hello, world];
    assert s2 == map[hello.id := hello, world.id := world];
    TwoEntryListing(hello, world);
  }

  /** Two chirps stored under their ids are listed lower id first. */
  lemma TwoEntryListing(a: Chirp, b: Chirp)
    requires a.id < b.id
    ensures IsListing(map[a.id := a, b.id := b], [a, b])
  {
    var m := map[a.id := a, b.id := b];
    TwoEntryValues(m, a.id, b.id);
    assert multiset([a, b]) == multiset{a} + multiset{b};
  }

  lemma TwoEntryValues(m: Snapshot, x: int, y: int)
    requires m.Keys == {x, y} && x != y
    ensures EntryValues(m) == multiset{m[x]} + multiset{m[y]}
  {
    assert m.Keys - {x} == {y};
    ValuesAtRemove(m, m.Keys, x);
    ValuesAtSingleton(m, y);
  }

  lemma ValuesAtSingleton(m: Snapshot, k: int)
    requires k in m
    ensures ValuesAt(m, {k}) == multiset{m[k]}
  {
    ValuesAtRemove(m, {k}, k);
    assert {k} - {k} == {};
  }

  /** Two equal elements at different positions occur twice in the multiset. */
  lemma TwoOccurrences<T>(s: seq<T>, i: int, j: int)
    requires 0 <= i < j < |s| && s[i] == s[j]
    ensures multiset(s)[s[i]] >= 2
  {
    assert s == s[..i] + [s[i]] + s[i+1..j] + [s[j]] + s[j+1..];
  }
}
