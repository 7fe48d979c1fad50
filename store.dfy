/** The chirp record store `DB`: a single JSON file holding every chirp,
    reloaded and rewritten whole by each operation, and an in-memory id
    allocator `currentID` recovered at start-up by scanning the stored ids. */
module Store {
  import opened Records

  /** What the file at the store's path holds: nothing, bytes that do not
      decode as a store document, or a decodable document. */
  datatype FileState = Absent | Corrupt | Stored(chirps: Snapshot)

  datatype StoreError =
    | StatFailed    // os.Stat failed for a reason other than a missing file
    | ReadFailed    // os.ReadFile failed (missing file, I/O error)
    | DecodeFailed  // json.Unmarshal rejected the file's bytes
    | WriteFailed   // os.WriteFile failed

  datatype Result<T> = Ok(value: T) | Err(error: StoreError)

  /** Go's `error` result: nil or an error. */
  datatype Outcome = Pass | Fail(error: StoreError)

  /** `ids` strictly increase and all lie below `bound`. */
  ghost predicate IssuedBelow(ids: seq<int>, bound: int)
  {
    && (forall i, j :: 0 <= i < j < |ids| ==> ids[i] < ids[j])
    && (forall i :: 0 <= i < |ids| ==> ids[i] < bound)
  }

  /** Handing out `bound` and moving the allocator on keeps the issued ids
      strictly increasing and below it. */
  lemma IssueNext(ids: seq<int>, bound: int)
    requires IssuedBelow(ids, bound)
    ensures IssuedBelow(ids + [bound], bound + 1)
  {
  }

  class DB {
    /** The file at the store's path. */
    var file: FileState
    /** The next id to hand out. */
    var currentID: int
    /** Every id handed out so far, in order, including ids whose write failed. */
    ghost var issued: seq<int>

    /** The allocator invariant: ids handed out strictly increase and stay
        below `currentID`, and so does every key of the stored snapshot. */
    ghost predicate Valid()
      reads this
    {
      && 0 <= currentID
      && IssuedBelow(issued, currentID)
      && (file.Stored? ==> AboveAll(file.chirps, currentID))
    }

    /** `&DB{path: path, mux: ...}`: `currentID` keeps Go's zero value. */
    constructor (disk: FileState)
      ensures file == disk && currentID == 0 && issued == []
    {
      file := disk;
      currentID := 0;
      issued := [];
    }

    /** Creates a file holding an empty snapshot when, and only when, no file
        exists. An existing file is never touched, so a second call after a
        successful one changes nothing. */
    method EnsureDB() returns (err: Outcome)
      modifies this`file
      ensures !old(file).Absent? ==> file == old(file)
      ensures old(file).Absent? ==> file == Absent || file == Corrupt || file == Stored(map[])
      ensures err.Pass? ==> !file.Absent?
      ensures err.Pass? && old(file).Absent? ==> file == Stored(map[])
      ensures err.Fail? ==> err.error == StatFailed || err.error == WriteFailed
    {
      // os.Stat either reports what is there or fails for another reason.
      var statFailed: bool :| true;
      if !statFailed && file.Absent? {
        err := WriteDB(map[]);
        return;
      }
      err := if statFailed then Fail(StatFailed) else Pass;
    }

    /** Reads and decodes the whole file. */
    method LoadDB() returns (r: Result<Snapshot>)
      ensures r.Ok? ==> file == Stored(r.value)
      ensures file.Absent? ==> r == Err(ReadFailed)
      ensures file.Corrupt? ==> r.Err?
      ensures r.Err? ==> r.error == ReadFailed || (r.error == DecodeFailed && file.Corrupt?)
    {
      if file.Absent? {
        return Err(ReadFailed);
      }
      var readFailed: bool :| true;
      if readFailed {
        return Err(ReadFailed);
      }
      if file.Corrupt? {
        return Err(DecodeFailed);
      }
      return Ok(file.chirps);
    }

    /** Encodes `data` and replaces the whole file with it. Encoding a
        snapshot cannot fail. A failed write either left the file as it was
        (it could not be opened), truncated it part-way through, or wrote
        all of it and then failed to close it. */
    method WriteDB(data: Snapshot) returns (err: Outcome)
      modifies this`file
      ensures err.Pass? ==> file == Stored(data)
      ensures err.Fail? ==>
        err.error == WriteFailed && (file == old(file) || file == Corrupt || file == Stored(data))
    {
      var openFailed: bool :| true;
      if openFailed {
        return Fail(WriteFailed);
      }
      var writeFailed: bool :| true;
      if writeFailed {
        file := Corrupt;
        return Fail(WriteFailed);
      }
      file := Stored(data);
      var closeFailed: bool :| true;
      err := if closeFailed then Fail(WriteFailed) else Pass;
    }

    /** Reloads the file, stores the new chirp under `currentID`, advances
        the allocator and writes the whole snapshot back. A failed load
        changes nothing; once the load succeeds the allocator has moved on,
        whether or not the write succeeds, so this store never hands the id
        out again. */
    method CreateChirp(body: string) returns (r: Result<Chirp>)
      requires Valid()
      modifies this`file, this`currentID, this`issued
      ensures Valid()
      ensures currentID == old(currentID) || currentID == old(currentID) + 1
      ensures currentID == old(currentID) ==>
        r.Err? && file == old(file) && issued == old(issued)
      ensures currentID == old(currentID) + 1 ==>
        old(file).Stored? && issued == old(issued) + [old(currentID)]
      ensures !old(file).Stored? ==> r.Err? && currentID == old(currentID)
      ensures r.Ok? ==>
        && r.value == Chirp(old(currentID), body)
        && currentID == old(currentID) + 1
        && file == Stored(AddChirp(old(file).chirps, old(currentID), body))
      ensures old(file).Stored? && KeysMatchIds(old(file).chirps) && file.Stored? ==>
        KeysMatchIds(file.chirps)
      ensures r.Err? && r.error == WriteFailed ==> currentID == old(currentID) + 1
      ensures r.Err? && currentID == old(currentID) + 1 ==>
        && r.error == WriteFailed
        && (|| file == old(file)
            || file == Corrupt
            || file == Stored(AddChirp(old(file).chirps, old(currentID), body)))
    {
      var data := LoadDB();
      if data.Err? {
        return Err(data.error);
      }
      var chirp := Chirp(currentID, body);
      var chirps := data.value[currentID := chirp];
      assert chirps == AddChirp(data.value, currentID, body);
      if KeysMatchIds(data.value) {
        AddChirpPreserves(data.value, currentID, body);
      }
      assert AboveAll(chirps, currentID + 1);
      IssueNext(issued, currentID);
      issued := issued + [currentID];
      currentID := currentID + 1;
      var err := WriteDB(chirps);
      if err.Fail? {
        r := Err(err.error);
      } else {
        r := Ok(chirp);
      }
    }

    /** Creates one chirp per body, in order, stopping at the first error.
        The i-th chirp created gets id `currentID + i` and the i-th body; when
        no call fails the chirps and the file are exactly those of a run of
        successful creates from the state the store started in. Without a
        stored file the first create already fails and nothing changes. */
    method CreateAll(bodies: seq<string>) returns (created: seq<Chirp>, err: Outcome)
      requires Valid()
      modifies this`file, this`currentID, this`issued
      ensures Valid()
      ensures |created| <= |bodies|
      ensures forall j :: 0 <= j < |created| ==> created[j] == Chirp(old(currentID) + j, bodies[j])
      ensures !old(file).Stored? ==>
        && created == [] && file == old(file) && currentID == old(currentID)
        && (err.Fail? <==> bodies != [])
      ensures err.Pass? && old(file).Stored? ==>
        && created == CreateMany(old(file).chirps, old(currentID), bodies).1
        && currentID == old(currentID) + |bodies|
        && file == Stored(CreateMany(old(file).chirps, old(currentID), bodies).0)
    {
      if !file.Stored? {
        if bodies == [] {
          return [], Pass;
        }
        var r := CreateChirp(bodies[0]);
        return [], Fail(r.error);
      }
      ghost var s0, n0 := file.chirps, currentID;
      ghost var run := CreateMany(s0, n0, bodies);
      // The creates still to do, from snapshot `snap`, end in `run.0`.
      ghost var snap, next, rest := s0, n0, bodies;
      created := [];
      var i := 0;
      while i < |bodies|
        invariant 0 <= i <= |bodies| && |created| == i
        invariant Valid() && currentID == next && next == n0 + i && file == Stored(snap)
        invariant AboveAll(snap, next)
        invariant forall j :: 0 <= j < i ==> created[j] == Chirp(n0 + j, bodies[j])
        invariant rest == bodies[i..]
        invariant CreateMany(snap, next, rest).0 == run.0
      {
        var r := CreateChirp(bodies[i]);
        if r.Err? {
          return created, Fail(r.error);
        }
        assert rest != [] && rest[0] == bodies[i] && rest[1..] == bodies[i + 1..];
        assert CreateMany(file.chirps, next + 1, rest[1..]).0 == run.0 by {
          assert file.chirps == AddChirp(snap, next, rest[0]);
          CreateManyStep(snap, next, rest);
        }
        snap, next, rest := file.chirps, next + 1, rest[1..];
        assert r.value == Chirp(n0 + i, bodies[i]);
        created := created + [r.value];
        i := i + 1;
      }
      assert rest == [];
      assert created == run.1 by {
        forall j | 0 <= j < |bodies|
          ensures run.1[j] == created[j]
        {
          CreateManyChirpAt(s0, n0, bodies, j);
        }
      }
      err := Pass;
    }

    /** The start-up scan of `NewDB`: raises `currentID` above each stored id
        in turn, in whatever order the map is walked. */
    method RecoverCurrentID(chirps: Snapshot)
      requires currentID == 0
      modifies this`currentID
      ensures IsRecoveredId(chirps, currentID)
    {
      if |chirps| > 0 {
        var keys := chirps.Keys;
        while keys != {}
          invariant keys <= chirps.Keys
          invariant 0 <= currentID
          invariant forall k :: k in chirps && k !in keys ==> k < currentID
          invariant currentID == 0 || currentID - 1 in chirps
          decreases keys
        {
          NonEmptyHasElement(keys);
          var id :| id in keys;
          if id >= currentID {
            currentID := id + 1;
          }
          keys := keys - {id};
        }
      }
    }

    /** Reloads the file and lists every stored chirp, ascending by id. */
    method GetChirps() returns (r: Result<seq<Chirp>>)
      ensures r.Ok? ==> file.Stored? && IsListing(file.chirps, r.value)
      ensures !file.Stored? ==> r.Err?
    {
      var data := LoadDB();
      if data.Err? {
        return Err(data.error);
      }
      var collected := CollectValues(data.value);
      var chirps := new Chirp[|collected|](j requires 0 <= j < |collected| => collected[j]);
      assert chirps[..] == collected;
      SortById(chirps);
      r := Ok(chirps[..]);
    }
  }

  /** Opens the store whose file initially holds `disk`: creates the file
      if it is absent, loads it, and sets the allocator one above the
      largest stored id (leaving it at 0 when there is none, or when every
      id is negative). */
  method NewDB(disk: FileState) returns (r: Result<DB>)
    ensures r.Ok? ==>
      && fresh(r.value)
      && r.value.Valid()
      && r.value.issued == []
      && r.value.file.Stored?
      && IsRecoveredId(r.value.file.chirps, r.value.currentID)
      && (disk.Stored? ==> r.value.file == disk)
      && (disk.Absent? ==> r.value.file == Stored(map[]))
    ensures disk.Corrupt? ==> r.Err?
  {
    var db := new DB(disk);
    var err := db.EnsureDB();
    if err.Fail? {
      return Err(err.error);
    }
    var data := db.LoadDB();
    if data.Err? {
      return Err(data.error);
    }
    db.RecoverCurrentID(data.value);
    return Ok(db);
  }

  /** The slice `make([]Chirp, 0, len(m))` filled by appending while ranging
      over `m`, in whatever order the map is walked: one element per entry. */
  method CollectValues(m: Snapshot) returns (collected: seq<Chirp>)
    ensures multiset(collected) == EntryValues(m)
  {
    collected := [];
    var rest := m.Keys;
    while rest != {}
      invariant rest <= m.Keys
      invariant multiset(collected) + ValuesAt(m, rest) == EntryValues(m)
      decreases rest
    {
      NonEmptyHasElement(rest);
      var k :| k in rest;
      ValuesAtRemove(m, rest, k);
      collected := collected + [m[k]];
      rest := rest - {k};
    }
  }

  /** `sort.Slice(chirps, less by ID)`: sorts `a` in place, ascending by id. */
  method SortById(a: array<Chirp>)
    modifies a
    ensures SortedById(a[..])
    ensures multiset(a[..]) == old(multiset(a[..]))
  {
    var i := 0;
    while i < a.Length
      invariant 0 <= i <= a.Length
      invariant SortedById(a[..i])
      invariant multiset(a[..]) == old(multiset(a[..]))
    {
      InsertInPlace(a, i);
      i := i + 1;
    }
    assert a[..i] == a[..];
  }

  /** Moves `a[i]` left into the sorted prefix `a[..i]`. */
  method InsertInPlace(a: array<Chirp>, i: int)
    requires 0 <= i < a.Length
    requires SortedById(a[..i])
    modifies a
    ensures SortedById(a[..i + 1])
    ensures multiset(a[..]) == old(multiset(a[..]))
  {
    var j := i;
    while j > 0 && a[j - 1].id > a[j].id
      invariant 0 <= j <= i
      invariant forall p, q :: 0 <= p < q <= i && q != j ==> a[p].id <= a[q].id
      invariant multiset(a[..]) == old(multiset(a[..]))
    {
      SwapWithPrevious(a, j);
      j := j - 1;
    }
  }

  method SwapWithPrevious(a: array<Chirp>, j: int)
    requires 0 < j < a.Length
    modifies a
    ensures a[j - 1] == old(a[j]) && a[j] == old(a[j - 1])
    ensures forall k :: 0 <= k < a.Length && k != j - 1 && k != j ==> a[k] == old(a[k])
    ensures multiset(a[..]) == old(multiset(a[..]))
  {
    a[j - 1], a[j] := a[j], a[j - 1];
  }
}
