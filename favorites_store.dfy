/**
 The favorites store behind the `Favoritos` endpoints of CuentasController:
 listing a user's favorites, adding a (user, meal) pair and removing one.

 The table (`DbSet<Favoritos>`) is a sequence of rows in store order together
 with the next value of its identity column. `AddTo` and `RemoveFrom` give the
 effect of one request on that table; the class `Store` performs the same
 requests in place and is proved to agree with them.
 */
module FavoritesStore {
  import opened Wrappers
  import opened Favoritos

  /** The favorites table: its rows in store order and the id the identity
      column hands out next (identity values are never reused). */
  datatype Table = Table(rows: seq<Favorite>, nextId: int)

  /** What a request answers: 200, or the controller's error branches. */
  datatype Outcome =
    | Ok              // 200
    | InvalidData     // 400 "Datos inválidos": null payload
    | AlreadyFavorite // 400 "Ya está en la lista de favoritos"
    | NotFavorite     // 404 "No se encuentra en la lista de favoritos"

  /** The outcome of one request and the table after it. */
  datatype Step = Step(outcome: Outcome, table: Table)

  // ---------------------------------------------------------------------
  // Invariants of the table
  // ---------------------------------------------------------------------

  /** No two rows share (userId, idMeal). */
  ghost predicate UniqueKeys(s: seq<Favorite>)
  {
    forall i, j :: 0 <= i < j < |s| ==> !SameFavorite(s[i], s[j])
  }

  /** The surrogate keys are pairwise distinct. */
  ghost predicate UniqueIds(s: seq<Favorite>)
  {
    forall i, j :: 0 <= i < j < |s| ==> s[i].id != s[j].id
  }

  /** Every id was handed out before `bound`. */
  ghost predicate IdsBelow(s: seq<Favorite>, bound: int)
  {
    forall i :: 0 <= i < |s| ==> s[i].id < bound
  }

  /** The invariant the store keeps between requests. */
  ghost predicate WellFormed(t: Table)
  {
    UniqueKeys(t.rows) && UniqueIds(t.rows) && IdsBelow(t.rows, t.nextId)
  }

  // ---------------------------------------------------------------------
  // Queries
  // ---------------------------------------------------------------------

  /** Some row denotes the same favorite as `f`. */
  predicate HasFavorite(s: seq<Favorite>, f: Favorite)
  {
    exists i :: 0 <= i < |s| && SameFavorite(s[i], f)
  }

  /** `i` is the position of the first row that denotes the same favorite as `f`. */
  predicate FirstMatch(s: seq<Favorite>, f: Favorite, i: int)
  {
    && 0 <= i < |s|
    && SameFavorite(s[i], f)
    && forall j :: 0 <= j < i ==> !SameFavorite(s[j], f)
  }

  /** The lookup `FirstOrDefault(p => p.UserId == f.UserId && p.idMeal == f.idMeal)`,
      giving the position of the row found, or None for the default `null`. */
  function FindFirst(s: seq<Favorite>, f: Favorite): (r: Option<nat>)
    ensures r.None? <==> !HasFavorite(s, f)
    ensures r.Some? ==> FirstMatch(s, f, r.value)
  {
    if |s| == 0 then None
    else if SameFavorite(s[0], f) then Some(0)
    else match FindFirst(s[1..], f)
      case None => None
      case Some(i) => Some(i + 1)
  }

  /** How many rows denote the same favorite as `f`. */
  function CountOf(s: seq<Favorite>, f: Favorite): (n: nat)
    ensures n <= |s|
    ensures n > 0 <==> HasFavorite(s, f)
  {
    if |s| == 0 then 0
    else (if SameFavorite(s[0], f) then 1 else 0) + CountOf(s[1..], f)
  }

  /** The query `Where(p => p.UserId == userId).ToList()`. */
  function ForUser(s: seq<Favorite>, userId: string): (r: seq<Favorite>)
    ensures forall f :: f in r <==> f in s && f.userId == userId
    ensures r == [] <==> forall i :: 0 <= i < |s| ==> s[i].userId != userId
    ensures |r| <= |s|
  {
    if |s| == 0 then []
    else (if s[0].userId == userId then [s[0]] else []) + ForUser(s[1..], userId)
  }

  // ---------------------------------------------------------------------
  // The requests
  // ---------------------------------------------------------------------

  /** AgregarFavoritoAsync: reject a null payload, reject a pair that is already
      stored, otherwise append the payload with the next identity value. */
  function AddTo(t: Table, payload: Option<Favorite>): (r: Step)
    ensures payload.None? ==> r == Step(InvalidData, t)
    ensures payload.Some? && HasFavorite(t.rows, payload.value) ==>
              r == Step(AlreadyFavorite, t)
    ensures payload.Some? && !HasFavorite(t.rows, payload.value) ==>
              && r.outcome == Ok
              && r.table.rows == t.rows + [payload.value.(id := t.nextId)]
              && r.table.nextId == t.nextId + 1
  {
    match payload
    case None => Step(InvalidData, t)
    case Some(f) =>
      if FindFirst(t.rows, f).Some? then Step(AlreadyFavorite, t)
      else Step(Ok, Table(t.rows + [f.(id := t.nextId)], t.nextId + 1))
  }

  /** EliminarFavoritoAsync: reject a null payload, answer NotFound for a pair
      that is not stored, otherwise delete the row the lookup found. */
  function RemoveFrom(t: Table, payload: Option<Favorite>): (r: Step)
    ensures payload.None? ==> r == Step(InvalidData, t)
    ensures payload.Some? && !HasFavorite(t.rows, payload.value) ==>
              r == Step(NotFavorite, t)
    ensures payload.Some? && HasFavorite(t.rows, payload.value) ==>
              && r.outcome == Ok
              && r.table.nextId == t.nextId
              && exists i :: FirstMatch(t.rows, payload.value, i)
                             && r.table.rows == t.rows[..i] + t.rows[i + 1..]
  {
    match payload
    case None => Step(InvalidData, t)
    case Some(f) =>
      match FindFirst(t.rows, f)
      case None => Step(NotFavorite, t)
      case Some(i) => Step(Ok, Table(t.rows[..i] + t.rows[i + 1..], t.nextId))
  }

  // ---------------------------------------------------------------------
  // Lemmas about the queries
  // ---------------------------------------------------------------------

  /** Counting distributes over concatenation. */
  lemma {:induction false} CountOfAppend(a: seq<Favorite>, b: seq<Favorite>, f: Favorite)
    ensures CountOf(a + b, f) == CountOf(a, f) + CountOf(b, f)
  {
    if |a| == 0 {
      assert a + b == b;
    } else {
      assert (a + b)[1..] == a[1..] + b;
      CountOfAppend(a[1..], b, f);
    }
  }

  /** Under the uniqueness invariant a favorite is stored at most once. */
  lemma {:induction false} UniqueKeysAtMostOnce(s: seq<Favorite>, f: Favorite)
    requires UniqueKeys(s)
    ensures CountOf(s, f) <= 1
  {
    if |s| > 0 {
      var rest := s[1..];
      assert UniqueKeys(rest) by {
        forall i, j | 0 <= i < j < |rest| ensures !SameFavorite(rest[i], rest[j]) {
          assert rest[i] == s[i + 1] && rest[j] == s[j + 1];
        }
      }
      UniqueKeysAtMostOnce(rest, f);
      if SameFavorite(s[0], f) {
        assert !HasFavorite(rest, f) by {
          forall j | 0 <= j < |rest| ensures !SameFavorite(rest[j], f) {
            assert rest[j] == s[j + 1];
            assert !SameFavorite(s[0], s[j + 1]);
          }
        }
      }
    }
  }

  /** The list query keeps store order: it distributes over concatenation. */
  lemma {:induction false} ForUserAppend(a: seq<Favorite>, b: seq<Favorite>, userId: string)
    ensures ForUser(a + b, userId) == ForUser(a, userId) + ForUser(b, userId)
  {
    if |a| == 0 {
      assert a + b == b;
    } else {
      assert (a + b)[0] == a[0];
      assert (a + b)[1..] == a[1..] + b;
      ForUserAppend(a[1..], b, userId);
    }
  }

  // ---------------------------------------------------------------------
  // Lemmas about the requests
  // ---------------------------------------------------------------------

  /** Adding keeps the table well formed. */
  lemma AddPreservesWellFormed(t: Table, payload: Option<Favorite>)
    requires WellFormed(t)
    ensures WellFormed(AddTo(t, payload).table)
  {
    if payload.Some? && !HasFavorite(t.rows, payload.value) {
      var f := payload.value;
      var g := f.(id := t.nextId);
      var s := t.rows;
      var s' := s + [g];
      forall i, j | 0 <= i < j < |s'| ensures !SameFavorite(s'[i], s'[j]) && s'[i].id != s'[j].id {
        if j == |s| {
          assert s'[i] == s[i] && s'[j] == g;
          assert !SameFavorite(s[i], f);
        }
      }
    }
  }

  /** Adding an absent pair stores it exactly once under a fresh id, after all
      rows that were there, which are left as they were. */
  lemma AddStoresNewPair(t: Table, f: Favorite)
    requires WellFormed(t)
    requires !HasFavorite(t.rows, f)
    ensures var r := AddTo(t, Some(f));
            && r.outcome == Ok
            && |r.table.rows| == |t.rows| + 1
            && r.table.rows[..|t.rows|] == t.rows
            && SameFavorite(r.table.rows[|t.rows|], f)
            && CountOf(r.table.rows, f) == 1
            && forall i :: 0 <= i < |t.rows| ==> t.rows[i].id != r.table.rows[|t.rows|].id
  {
    var s' := AddTo(t, Some(f)).table.rows;
    assert s'[..|t.rows|] == t.rows;
    CountOfAppend(t.rows, [f.(id := t.nextId)], f);
    assert CountOf([f.(id := t.nextId)], f) == 1;
  }

  /** Adding the same pair twice: the second request is rejected and the pair
      is stored exactly once. */
  lemma AddTwiceConflicts(t: Table, f: Favorite)
    requires WellFormed(t)
    ensures var t1 := AddTo(t, Some(f)).table;
            && AddTo(t1, Some(f)) == Step(AlreadyFavorite, t1)
            && CountOf(t1.rows, f) == 1
  {
    var t1 := AddTo(t, Some(f)).table;
    if !HasFavorite(t.rows, f) {
      AddStoresNewPair(t, f);
    } else {
      UniqueKeysAtMostOnce(t.rows, f);
    }
  }

  /** Removing keeps the table well formed. */
  lemma RemovePreservesWellFormed(t: Table, payload: Option<Favorite>)
    requires WellFormed(t)
    ensures WellFormed(RemoveFrom(t, payload).table)
  {
    if payload.Some? && HasFavorite(t.rows, payload.value) {
      var s := t.rows;
      var i := FindFirst(s, payload.value).value;
      var s' := s[..i] + s[i + 1..];
      forall a, b | 0 <= a < b < |s'| ensures !SameFavorite(s'[a], s'[b]) && s'[a].id != s'[b].id {
        var a0 := if a < i then a else a + 1;
        var b0 := if b < i then b else b + 1;
        assert s'[a] == s[a0] && s'[b] == s[b0];
      }
      forall a | 0 <= a < |s'| ensures s'[a].id < t.nextId {
        assert s'[a] == s[if a < i then a else a + 1];
      }
    }
  }

  /** Cutting row `i` out lowers the count of a favorite by one exactly when
      that row denotes it. */
  lemma CutCount(s: seq<Favorite>, i: nat, f: Favorite)
    requires i < |s|
    ensures CountOf(s[..i] + s[i + 1..], f) == CountOf(s, f) - (if SameFavorite(s[i], f) then 1 else 0)
  {
    assert s == s[..i] + [s[i]] + s[i + 1..];
    CountOfAppend(s[..i] + [s[i]], s[i + 1..], f);
    CountOfAppend(s[..i], [s[i]], f);
    CountOfAppend(s[..i], s[i + 1..], f);
    assert CountOf([s[i]], f) == (if SameFavorite(s[i], f) then 1 else 0) by {
      assert [s[i]][1..] == [];
    }
  }

  /** Cutting row `i` out keeps every other row and adds none. */
  lemma CutKeepsOthers(s: seq<Favorite>, i: nat)
    requires i < |s|
    ensures forall k :: 0 <= k < |s| && k != i ==> s[k] in s[..i] + s[i + 1..]
    ensures forall g :: g in s[..i] + s[i + 1..] ==> g in s
  {
    var s' := s[..i] + s[i + 1..];
    forall k | 0 <= k < |s| && k != i ensures s[k] in s' {
      if k < i {
        assert s'[k] == s[k];
      } else {
        assert s'[k - 1] == s[k];
      }
    }
    forall g | g in s' ensures g in s {
      var k :| 0 <= k < |s'| && s'[k] == g;
      assert g == s[if k < i then k else k + 1];
    }
  }

  /** Removing a stored pair under the invariant: the pair is gone, exactly one
      row is deleted and every other row remains. */
  lemma RemoveDeletesPair(t: Table, f: Favorite)
    requires WellFormed(t)
    requires HasFavorite(t.rows, f)
    ensures var r := RemoveFrom(t, Some(f));
            && r.outcome == Ok
            && r.table.nextId == t.nextId
            && |r.table.rows| == |t.rows| - 1
            && !HasFavorite(r.table.rows, f)
            && (forall g :: g in t.rows && !SameFavorite(g, f) ==> g in r.table.rows)
            && (forall g :: g in r.table.rows ==> g in t.rows)
  {
    var s := t.rows;
    var i := FindFirst(s, f).value;
    UniqueKeysAtMostOnce(s, f);
    CutCount(s, i, f);
    CutKeepsOthers(s, i);
    forall g | g in s && !SameFavorite(g, f) ensures g in s[..i] + s[i + 1..] {
      var k :| 0 <= k < |s| && s[k] == g;
      assert k != i;
    }
  }

  /** Removal undoes a successful addition: the rows are back as they were;
      only the identity counter has moved on. */
  lemma AddThenRemoveRestores(t: Table, f: Favorite)
    requires !HasFavorite(t.rows, f)
    ensures var t1 := AddTo(t, Some(f)).table;
            RemoveFrom(t1, Some(f)) == Step(Ok, Table(t.rows, t.nextId + 1))
  {
    var s1 := t.rows + [f.(id := t.nextId)];
    var n := |t.rows|;
    assert FirstMatch(s1, f, n) by {
      forall j | 0 <= j < n ensures !SameFavorite(s1[j], f) {
        assert s1[j] == t.rows[j];
      }
    }
    assert FindFirst(s1, f) == Some(n);
    assert s1[..n] + s1[n + 1..] == t.rows;
  }

  /** After a successful addition and its removal, the user's list holds no row
      for that meal. */
  lemma ListAfterAddThenRemove(t: Table, f: Favorite)
    requires !HasFavorite(t.rows, f)
    ensures var t2 := RemoveFrom(AddTo(t, Some(f)).table, Some(f)).table;
            forall g :: g in ForUser(t2.rows, f.userId) ==> g.idMeal != f.idMeal
  {
    AddThenRemoveRestores(t, f);
    forall g | g in t.rows && g.userId == f.userId ensures g.idMeal != f.idMeal {
      var k :| 0 <= k < |t.rows| && t.rows[k] == g;
      assert !SameFavorite(t.rows[k], f);
    }
  }

  /** A successful addition appends the new row to its owner's list and leaves
      every other user's list as it was. */
  lemma ListAfterAdd(t: Table, f: Favorite, userId: string)
    requires !HasFavorite(t.rows, f)
    ensures var t1 := AddTo(t, Some(f)).table;
            ForUser(t1.rows, userId) ==
              ForUser(t.rows, userId) + (if f.userId == userId then [f.(id := t.nextId)] else [])
  {
    var g := f.(id := t.nextId);
    ForUserAppend(t.rows, [g], userId);
    assert ForUser([g], userId) == (if f.userId == userId then [g] else []) by {
      assert [g][1..] == [];
    }
  }

  /** Both requests look the pair up by (userId, idMeal) only, so the id the
      caller sends does not affect the lookup. For removal this is the
      program's behaviour. For addition it also rests on the model's choice to
      treat every payload as if its id were 0, so that the identity column
      assigns the id. */
  lemma PayloadIdIgnored(t: Table, f: Favorite, id: int)
    ensures AddTo(t, Some(f)) == AddTo(t, Some(f.(id := id)))
    ensures RemoveFrom(t, Some(f)) == RemoveFrom(t, Some(f.(id := id)))
  {
    var f' := f.(id := id);
    assert HasFavorite(t.rows, f) <==> HasFavorite(t.rows, f') by {
      forall i | 0 <= i < |t.rows| ensures SameFavorite(t.rows[i], f) <==> SameFavorite(t.rows[i], f') {
      }
    }
    assert f.(id := t.nextId) == f'.(id := t.nextId);
    if HasFavorite(t.rows, f) {
      var i := FindFirst(t.rows, f).value;
      assert FirstMatch(t.rows, f', i);
      var i' := FindFirst(t.rows, f').value;
      assert FirstMatch(t.rows, f, i');
      assert i == i';
    }
  }

  // ---------------------------------------------------------------------
  // The store, updated in place
  // ---------------------------------------------------------------------

  /** `context.Favoritos` as the controller sees it. */
  class Store {
    var rows: seq<Favorite>
    var nextId: int

    ghost function State(): Table
      reads this
    {
      Table(rows, nextId)
    }

    ghost predicate Valid()
      reads this
    {
      WellFormed(State())
    }

    /** An empty table whose identity column starts at 1. */
    constructor ()
      ensures Valid()
      ensures rows == [] && nextId == 1
    {
      rows := [];
      nextId := 1;
    }

    /** ObtenerFavoritos: the rows of `userId`, in store order; empty, not an
        error, when the user has none. */
    function List(userId: string): (r: seq<Favorite>)
      reads this
      ensures forall f :: f in r <==> f in rows && f.userId == userId
      ensures r == [] <==> forall i :: 0 <= i < |rows| ==> rows[i].userId != userId
      ensures r == ForUser(rows, userId)
    {
      ForUser(rows, userId)
    }

    /** AgregarFavoritoAsync. */
    method Add(payload: Option<Favorite>) returns (outcome: Outcome)
      requires Valid()
      modifies this
      ensures Valid()
      ensures Step(outcome, State()) == AddTo(old(State()), payload)
    {
      AddPreservesWellFormed(State(), payload);
      if payload.None? {
        return InvalidData;
      }
      var favorite := payload.value;
      var existing := FindFirst(rows, favorite);
      if existing.Some? {
        return AlreadyFavorite;
      }
      rows := rows + [favorite.(id := nextId)];
      nextId := nextId + 1;
      outcome := Ok;
    }

    /** EliminarFavoritoAsync. */
    method Remove(payload: Option<Favorite>) returns (outcome: Outcome)
      requires Valid()
      modifies this
      ensures Valid()
      ensures Step(outcome, State()) == RemoveFrom(old(State()), payload)
    {
      RemovePreservesWellFormed(State(), payload);
      if payload.None? {
        return InvalidData;
      }
      var favorite := payload.value;
      var existing := FindFirst(rows, favorite);
      if existing.None? {
        return NotFavorite;
      }
      var i := existing.value;
      rows := rows[..i] + rows[i + 1..];
      outcome := Ok;
    }
  }
}
