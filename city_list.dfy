/**
 * The city list held by the `App` screen of App.js: an ordered list of
 * `{id, name}` entries, and the two list computations the screen performs on
 * it, `addCity` (spread-append) and `deleteCity` (`filter`), as functions on
 * values. The state that holds the list is in module Registry.
 */
module CityList {

  /** One entry of the list, `{id: ..., name: ...}`. */
  datatype City = City(id: int, name: string)

  /** No two entries carry the same id. */
  predicate DistinctIds(cities: seq<City>)
  {
    forall i, j :: 0 <= i < j < |cities| ==> cities[i].id != cities[j].id
  }

  /**
   * `addCity`: the old entries, then one new entry whose id is the length of
   * the list before the call and whose name is taken verbatim (no validation).
   */
  function AddCity(cities: seq<City>, cityName: string): (r: seq<City>)
    ensures |r| == |cities| + 1
    ensures r[..|cities|] == cities
    ensures r[|cities|].id == |cities| && r[|cities|].name == cityName
  {
    cities + [City(|cities|, cityName)]
  }

  /**
   * `deleteCity`: keeps, in order, the entries whose id differs from `id`,
   * walking the list front to back as a filter does.
   */
  function DeleteCity(cities: seq<City>, id: int): (r: seq<City>)
    ensures |r| <= |cities|
    ensures forall c :: c in r <==> c in cities && c.id != id
  {
    if cities == [] then []
    else
      var rest := DeleteCity(cities[1..], id);
      if cities[0].id != id then [cities[0]] + rest else rest
  }

  /** `idx` lists, in increasing order, the positions of `big` whose entries make up `small`. */
  ghost predicate Embeds(small: seq<City>, big: seq<City>, idx: seq<int>)
  {
    && |idx| == |small|
    && (forall i :: 0 <= i < |idx| ==> 0 <= idx[i] < |big| && big[idx[i]] == small[i])
    && (forall i, j :: 0 <= i < j < |idx| ==> idx[i] < idx[j])
  }

  /** Deleting counts out exactly the entries with that id: the others keep their multiplicity. */
  lemma {:induction false} DeleteCount(cities: seq<City>, id: int, c: City)
    ensures multiset(DeleteCity(cities, id))[c] == if c.id == id then 0 else multiset(cities)[c]
  {
    if cities != [] {
      DeleteCount(cities[1..], id, c);
      assert cities == [cities[0]] + cities[1..];
    }
  }

  /** Every position of `cities` whose entry has another id than `id` occurs in `idx`. */
  ghost predicate KeepsAll(cities: seq<City>, id: int, idx: seq<int>)
  {
    forall k :: 0 <= k < |cities| && cities[k].id != id ==> k in idx
  }

  /** The positions in `idx`, each moved one place to the right. */
  function Shift(idx: seq<int>): seq<int>
  {
    seq(|idx|, i requires 0 <= i < |idx| => idx[i] + 1)
  }

  lemma EmbedsCons(c: City, small: seq<City>, big: seq<City>, idx: seq<int>)
    requires Embeds(small, big, idx)
    ensures Embeds(small, [c] + big, Shift(idx))
    ensures Embeds([c] + small, [c] + big, [0] + Shift(idx))
  {
  }

  lemma KeepsAllCons(c: City, big: seq<City>, id: int, idx: seq<int>)
    requires KeepsAll(big, id, idx)
    ensures KeepsAll([c] + big, id, if c.id != id then [0] + Shift(idx) else Shift(idx))
  {
    var r := if c.id != id then [0] + Shift(idx) else Shift(idx);
    forall k | 0 <= k < |[c] + big| && ([c] + big)[k].id != id
      ensures k in r
    {
      if k > 0 {
        assert big[k - 1] == ([c] + big)[k];
        var i :| 0 <= i < |idx| && idx[i] == k - 1;
        assert Shift(idx)[i] == k;
      }
    }
  }

  /**
   * Deleting keeps the surviving entries unchanged and in their original
   * relative order, and every entry with another id survives.
   */
  lemma {:induction false} DeleteKeepsOrder(cities: seq<City>, id: int)
    ensures exists idx :: Embeds(DeleteCity(cities, id), cities, idx) && KeepsAll(cities, id, idx)
  {
    if cities == [] {
      assert Embeds([], [], []) && KeepsAll([], id, []);
    } else {
      var c, rest := cities[0], cities[1..];
      assert cities == [c] + rest;
      DeleteKeepsOrder(rest, id);
      var idx' :| Embeds(DeleteCity(rest, id), rest, idx') && KeepsAll(rest, id, idx');
      EmbedsCons(c, DeleteCity(rest, id), rest, idx');
      KeepsAllCons(c, rest, id, idx');
      var idx := if c.id != id then [0] + Shift(idx') else Shift(idx');
      assert Embeds(DeleteCity(cities, id), cities, idx) && KeepsAll(cities, id, idx);
    }
  }

  /** Deleting from a concatenation deletes from each part, keeping the parts in order. */
  lemma {:induction false} DeleteAppend(a: seq<City>, b: seq<City>, id: int)
    ensures DeleteCity(a + b, id) == DeleteCity(a, id) + DeleteCity(b, id)
  {
    if a == [] {
      assert a + b == b;
    } else {
      assert (a + b)[0] == a[0];
      assert (a + b)[1..] == a[1..] + b;
      DeleteAppend(a[1..], b, id);
    }
  }

  /** Deleting leaves the list as it was exactly when no entry carries that id. */
  lemma {:induction false} DeleteUnchangedIff(cities: seq<City>, id: int)
    ensures DeleteCity(cities, id) == cities <==> forall c :: c in cities ==> c.id != id
  {
    if cities != [] {
      DeleteUnchangedIff(cities[1..], id);
      assert cities == [cities[0]] + cities[1..];
    }
  }

  /** Deleting the same id twice is the same as deleting it once. */
  lemma DeleteIdempotent(cities: seq<City>, id: int)
    ensures DeleteCity(DeleteCity(cities, id), id) == DeleteCity(cities, id)
  {
    DeleteUnchangedIff(DeleteCity(cities, id), id);
  }

  /** Deleting never makes two entries share an id. */
  lemma DeletePreservesDistinct(cities: seq<City>, id: int)
    requires DistinctIds(cities)
    ensures DistinctIds(DeleteCity(cities, id))
  {
    DeleteKeepsOrder(cities, id);
    var r := DeleteCity(cities, id);
    var idx :| Embeds(r, cities, idx);
    forall i, j | 0 <= i < j < |r|
      ensures r[i].id != r[j].id
    {
      assert idx[i] < idx[j];
    }
  }

  /** With distinct ids, the entry at `k` is the only one carrying its id. */
  lemma DistinctAround(cities: seq<City>, k: int)
    requires DistinctIds(cities)
    requires 0 <= k < |cities|
    ensures forall c :: c in cities[..k] ==> c.id != cities[k].id
    ensures forall c :: c in cities[k + 1..] ==> c.id != cities[k].id
  {
    forall c | c in cities[..k] ensures c.id != cities[k].id {
      var i :| 0 <= i < k && cities[..k][i] == c;
      assert cities[i] == c;
    }
    forall c | c in cities[k + 1..] ensures c.id != cities[k].id {
      var i :| 0 <= i < |cities| - k - 1 && cities[k + 1..][i] == c;
      assert cities[k + 1 + i] == c;
    }
  }

  /** Deleting the id of `c` from `before + [c] + after` removes just `c` when no other entry carries it. */
  lemma DeleteOnly(before: seq<City>, c: City, after: seq<City>)
    requires forall e :: e in before ==> e.id != c.id
    requires forall e :: e in after ==> e.id != c.id
    ensures DeleteCity(before + [c] + after, c.id) == before + after
  {
    assert DeleteCity([c], c.id) == [] by {
      assert [c][1..] == [];
    }
    DeleteAppend(before + [c], after, c.id);
    DeleteAppend(before, [c], c.id);
    DeleteUnchangedIff(before, c.id);
    DeleteUnchangedIff(after, c.id);
  }

  /** With distinct ids, deleting the id of the entry at `k` removes exactly that entry. */
  lemma DeleteDistinctAt(cities: seq<City>, k: int)
    requires DistinctIds(cities)
    requires 0 <= k < |cities|
    ensures DeleteCity(cities, cities[k].id) == cities[..k] + cities[k + 1..]
  {
    DistinctAround(cities, k);
    assert cities == cities[..k] + [cities[k]] + cities[k + 1..];
    DeleteOnly(cities[..k], cities[k], cities[k + 1..]);
  }

  /** Adding keeps the ids distinct exactly when no existing entry already has the length as id. */
  lemma AddDistinctIff(cities: seq<City>, cityName: string)
    requires DistinctIds(cities)
    ensures DistinctIds(AddCity(cities, cityName)) <==> forall c :: c in cities ==> c.id != |cities|
  {
    var r := AddCity(cities, cityName);
    if !forall c :: c in cities ==> c.id != |cities| {
      var c :| c in cities && c.id == |cities|;
      var i :| 0 <= i < |cities| && cities[i] == c;
      assert r[i].id == r[|cities|].id;
    }
  }

  /** An entry that was just added is removed again by deleting its id, if no older entry shares it. */
  lemma AddThenDelete(cities: seq<City>, cityName: string)
    requires forall c :: c in cities ==> c.id != |cities|
    ensures DeleteCity(AddCity(cities, cityName), |cities|) == cities
  {
    DeleteAppend(cities, [City(|cities|, cityName)], |cities|);
    DeleteUnchangedIff(cities, |cities|);
  }

  /** The list after pressing "Add" once for each name, in order, starting from `cities`. */
  function AddEach(cities: seq<City>, names: seq<string>): seq<City>
    decreases |names|
  {
    if names == [] then cities else AddEach(AddCity(cities, names[0]), names[1..])
  }

  /** The list whose entry at position `i` is `{id: i, name: names[i]}`. */
  function Numbered(names: seq<string>): seq<City>
  {
    seq(|names|, i requires 0 <= i < |names| => City(i, names[i]))
  }

  lemma {:induction false} AddEachNumbered(names: seq<string>, more: seq<string>)
    ensures AddEach(Numbered(names), more) == Numbered(names + more)
    decreases |more|
  {
    if more == [] {
      assert names + more == names;
    } else {
      var names' := names + [more[0]];
      assert AddCity(Numbered(names), more[0]) == Numbered(names');
      AddEachNumbered(names', more[1..]);
      assert names' + more[1..] == names + more;
    }
  }

  /**
   * From the empty list the screen starts with, adds alone give every entry its
   * position as id, so the ids are distinct.
   */
  lemma AddsFromEmpty(names: seq<string>)
    ensures AddEach([], names) == Numbered(names)
    ensures DistinctIds(AddEach([], names))
  {
    assert Numbered([]) == [];
    AddEachNumbered([], names);
    assert [] + names == names;
  }

  /**
   * Length-based ids collide after a deletion: add, add, delete id 0, add
   * leaves two entries with id 1, and deleting either card removes both.
   */
  lemma IdCollision(a: string, b: string, c: string)
    ensures AddCity(AddCity([], a), b) == [City(0, a), City(1, b)]
    ensures DeleteCity(AddCity(AddCity([], a), b), 0) == [City(1, b)]
    ensures AddCity(DeleteCity(AddCity(AddCity([], a), b), 0), c) == [City(1, b), City(1, c)]
    ensures !DistinctIds(AddCity(DeleteCity(AddCity(AddCity([], a), b), 0), c))
    ensures DeleteCity(AddCity(DeleteCity(AddCity(AddCity([], a), b), 0), c), 1) == []
  {
    var two := [City(0, a), City(1, b)];
    assert two[1..] == [City(1, b)];
    assert DeleteCity(two, 0) == [City(1, b)];
    var collided := [City(1, b), City(1, c)];
    assert collided[1..] == [City(1, c)];
  }
}
