/**
 * The in-memory film database: the list `material_list` that the menu operations
 * append to, overwrite, delete from and enumerate, in place.
 */
module FilmStore {
  import opened Wrappers
  import opened ThinFilm

  /**
   * A list position as Python resolves it: -n <= position < n is valid, and a negative
   * position counts from the end, so the resolved index is congruent to it modulo n.
   */
  function Resolve(n: nat, position: int): (r: Option<nat>)
    ensures r.Some? <==> -(n as int) <= position < n
    ensures r.Some? ==> r.value < n && (r.value - position) % n == 0
  {
    if 0 <= position < n then Some(position)
    else if -(n as int) <= position < 0 then Some(position + n)
    else None
  }

  /** Growing a prefix of `all` by its next element, after some fixed `start`. */
  lemma AppendNext<T>(start: seq<T>, all: seq<T>, i: nat)
    requires i < |all|
    ensures (start + all[..i]) + [all[i]] == start + all[..i + 1]
  {
    assert all[..i + 1] == all[..i] + [all[i]];
  }

  /** One line of the listing: a position and the film there. */
  datatype Row = Row(position: nat, film: Film)

  /** What `List_films` shows: the empty-list notice, or the rows in list order. */
  datatype Listing = EmptyNotice | Table(rows: seq<Row>)

  class Store {
    /** The films, in insertion order; a film's position is its index here. */
    var films: seq<Film>

    /** The list starts out empty. */
    constructor ()
      ensures films == []
    {
      films := [];
    }

    /**
     * `Add_film`: a default film is filled in by `Write` and appended; when a conversion
     * in `Write` fails, nothing is appended.
     */
    method Add(entry: Entry) returns (failure: Option<Error>)
      modifies this
      ensures failure == Write(Default, entry).error
      ensures failure.None? ==> |films| == |old(films)| + 1
      ensures failure.None? ==> films[..|old(films)|] == old(films)
      ensures failure.None? ==> films[|films| - 1] == Write(Default, entry).film
      ensures failure.Some? ==> films == old(films)
    {
      var written := Write(Default, entry);
      failure := written.error;
      if failure.None? {
        films := films + [written.film];
      }
    }

    /**
     * `Edit_film`: the film at `position` is overwritten by `Write`. An invalid position
     * raises IndexError before anything changes; a failed conversion leaves that one film
     * partly written. The length and every other position never change.
     */
    method Edit(position: int, entry: Entry) returns (failure: Option<Error>)
      modifies this
      ensures |films| == |old(films)|
      ensures Resolve(|old(films)|, position).None? ==> failure == Some(IndexError) && films == old(films)
      ensures Resolve(|old(films)|, position).Some? ==>
                var k := Resolve(|old(films)|, position).value;
                && films[k] == Write(old(films)[k], entry).film
                && failure == Write(old(films)[k], entry).error
                && forall j :: 0 <= j < |films| && j != k ==> films[j] == old(films)[j]
    {
      var k := Resolve(|films|, position);
      if k.None? {
        return Some(IndexError);
      }
      var written := Write(films[k.value], entry);
      films := films[k.value := written.film];
      failure := written.error;
    }

    /**
     * `Remove_film`: `del` at `position`. A valid position removes exactly that film and
     * the later ones move down by one; any other position raises IndexError and nothing
     * changes.
     */
    method Remove(position: int) returns (failure: Option<Error>)
      modifies this
      ensures failure.None? <==> -|old(films)| <= position < |old(films)|
      ensures failure.Some? ==> failure == Some(IndexError) && films == old(films)
      ensures failure.None? ==>
                var k := Resolve(|old(films)|, position).value;
                && |films| == |old(films)| - 1
                && films[..k] == old(films)[..k]
                && forall j :: k <= j < |films| ==> films[j] == old(films)[j + 1]
    {
      var k := Resolve(|films|, position);
      if k.None? {
        return Some(IndexError);
      }
      films := films[..k.value] + films[k.value + 1..];
      failure := None;
    }

    /**
     * `Load_data` over the lines of the file: each line's record is appended in turn, so
     * the list grows by one record per line, in line order, after the films already there;
     * the first line that raises stops the load, keeping what was appended before it.
     */
    method Load(lines: seq<string>) returns (failure: Option<Error>)
      modifies this
      ensures films == old(films) + LoadAll(lines).films
      ensures failure == LoadAll(lines).failure
    {
      ghost var loaded := LoadAll(lines);
      var i := 0;
      while i < |lines|
        invariant i <= |loaded.films| <= |lines|
        invariant films == old(films) + loaded.films[..i]
      {
        var parsed := ParseLine(lines[i]);
        assert parsed == Parses(lines)[i];
        CollectAt(Parses(lines), i);
        if parsed.Err? {
          assert loaded.films[..i] == loaded.films;
          return Some(parsed.error);
        }
        films := films + [parsed.value];
        AppendNext(old(films), loaded.films, i);
        i := i + 1;
      }
      assert loaded.films[..i] == loaded.films;
      failure := None;
    }

    /**
     * `List_films`: the empty-list notice when there are no films, otherwise one row per
     * film, numbered by `enumerate` from 0, in list order.
     */
    method List() returns (listing: Listing)
      ensures listing.EmptyNotice? <==> films == []
      ensures listing.Table? ==>
                |listing.rows| == |films| &&
                forall j :: 0 <= j < |films| ==> listing.rows[j] == Row(j, films[j])
    {
      if films == [] {
        return EmptyNotice;
      }
      var rows: seq<Row> := [];
      for i := 0 to |films|
        invariant |rows| == i
        invariant forall j :: 0 <= j < i ==> rows[j] == Row(j, films[j])
      {
        rows := rows + [Row(i, films[i])];
      }
      listing := Table(rows);
    }
  }

  /**
   * A session that uses only the contracts above: two films added in turn are listed in
   * the order they were added.
   */
  method AddListSession(a: Entry, b: Entry)
    requires Write(Default, a).error.None? && Write(Default, b).error.None?
  {
    var first, second := Write(Default, a).film, Write(Default, b).film;
    var store := new Store();
    var failure := store.Add(a);
    failure := store.Add(b);
    assert store.films == [first, second];
    var listing := store.List();
    assert listing == Table([Row(0, first), Row(1, second)]);
  }

  /**
   * A session over a two-film list: an edit and a removal at a position past the end fail
   * and change nothing, and removing position -2 leaves only the second film. The program
   * itself catches none of these exceptions, so there a failed edit ends the process; the
   * session only checks the state each one leaves.
   */
  method RemoveSession(store: Store, b: Entry)
    requires |store.films| == 2
    modifies store
  {
    var first, second := store.films[0], store.films[1];
    var failure := store.Edit(5, b);
    assert failure == Some(IndexError) && store.films == [first, second];
    failure := store.Remove(5);
    assert failure == Some(IndexError) && store.films == [first, second];
    failure := store.Remove(-2);
    assert store.films == [second];
    var listing := store.List();
    assert listing == Table([Row(0, second)]);
  }
}
