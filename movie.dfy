/** The pure parts of the movie blueprint: `_validate_movie_request`, what a
    row of the `movie JOIN user` query is, and the order `index` lists in. */
module Movies {
  import opened Types

  const TitleRequired := "Movie title is required"
  const PlotRequired := "Movie plot is required"

  /** `_validate_movie_request`: the title is checked before the plot, so a
      request missing both reports the title. */
  function ValidateMovieRequest(title: Option<string>, plot: Option<string>): (r: Option<string>)
    ensures r.None? <==> title.Some? && plot.Some?
    ensures title.None? ==> r == Some(TitleRequired)
    ensures title.Some? && plot.None? ==> r == Some(PlotRequired)
  {
    if title.None? then Some(TitleRequired)
    else if plot.None? then Some(PlotRequired)
    else None
  }

  /** `row` is what `SELECT movie_id, movie_title, plot, created, username FROM
      movie m JOIN user u ON m.added_by = u.user_id` yields for movie `id`. */
  ghost predicate JoinedRow(row: MovieRow, id: int, movies: map<int, Movie>, users: map<string, User>)
  {
    id in movies &&
    row.username in users &&
    users[row.username].id == movies[id].addedBy &&
    row == MovieRow(id, movies[id].title, movies[id].plot, movies[id].created, row.username)
  }

  /** `ORDER BY created DESC`: no row is older than a row after it. */
  ghost predicate NewestFirst(rows: seq<MovieRow>)
  {
    forall i, j :: 0 <= i < j < |rows| ==> rows[j].created <= rows[i].created
  }

  /** `k` is a movie of `candidates` created no earlier than any other of them. */
  predicate IsNewest(movies: map<int, Movie>, candidates: set<int>, k: int)
    requires candidates <= movies.Keys
  {
    k in candidates && forall j :: j in candidates ==> movies[j].created <= movies[k].created
  }

  /** Every non-empty set of movies has a newest one. */
  lemma {:induction false} NewestExists(movies: map<int, Movie>, candidates: set<int>)
    requires candidates != {} && candidates <= movies.Keys
    ensures exists k :: IsNewest(movies, candidates, k)
  {
    HasMember(candidates);
    var x :| x in candidates;
    var rest := candidates - {x};
    if rest == {} {
      assert candidates == {x};
      assert IsNewest(movies, candidates, x);
    } else {
      NewestExists(movies, rest);
      var k :| IsNewest(movies, rest, k);
      if movies[x].created <= movies[k].created {
        assert IsNewest(movies, candidates, k);
      } else {
        assert IsNewest(movies, candidates, x);
      }
    }
  }

  /** `rows` is the whole answer of the query behind `index`: one joined row
      for each movie and no other, newest first. */
  ghost predicate IsListing(rows: seq<MovieRow>, movies: map<int, Movie>, users: map<string, User>)
  {
    NewestFirst(rows) &&
    (forall i :: 0 <= i < |rows| ==> JoinedRow(rows[i], rows[i].movieId, movies, users)) &&
    (forall i, j :: 0 <= i < j < |rows| ==> rows[i].movieId != rows[j].movieId) &&
    (forall id :: id in movies ==> exists i :: 0 <= i < |rows| && rows[i].movieId == id)
  }

  /** The movie ids a listing shows. */
  ghost function Ids(rows: seq<MovieRow>): set<int>
  {
    set i | 0 <= i < |rows| :: rows[i].movieId
  }

  lemma {:induction false} DistinctIdsCount(rows: seq<MovieRow>)
    requires forall i, j :: 0 <= i < j < |rows| ==> rows[i].movieId != rows[j].movieId
    ensures |Ids(rows)| == |rows|
  {
    if rows != [] {
      var tail := rows[1..];
      DistinctIdsCount(tail);
      assert Ids(rows) == {rows[0].movieId} + Ids(tail) by {
        forall id | id in Ids(rows)
          ensures id in {rows[0].movieId} + Ids(tail)
        {
          var i :| 0 <= i < |rows| && rows[i].movieId == id;
          if i > 0 {
            assert tail[i - 1].movieId == id;
          }
        }
        forall id | id in Ids(tail)
          ensures id in Ids(rows)
        {
          var i :| 0 <= i < |tail| && tail[i].movieId == id;
          assert rows[i + 1].movieId == id;
        }
      }
      assert rows[0].movieId !in Ids(tail) by {
        forall i | 0 <= i < |tail|
          ensures tail[i].movieId != rows[0].movieId
        {
          assert tail[i] == rows[i + 1];
        }
      }
    }
  }

  /** A listing shows exactly the movies of the table, so it is as long as
      the table is: the whole table is returned, without pagination. */
  lemma ListingCoversTable(rows: seq<MovieRow>, movies: map<int, Movie>, users: map<string, User>)
    requires IsListing(rows, movies, users)
    ensures Ids(rows) == movies.Keys
    ensures |rows| == |movies|
  {
    forall id | id in movies
      ensures id in Ids(rows)
    {
      var i :| 0 <= i < |rows| && rows[i].movieId == id;
    }
    DistinctIdsCount(rows);
  }

  /** The rows of a listing built so far while `remaining` movies are still
      to come: each row is a joined row of a movie no longer remaining, no
      movie twice, every movie no longer remaining has its row, and the rows
      are newest first and no older than any remaining movie. */
  ghost predicate ListedSoFar(rows: seq<MovieRow>, remaining: set<int>, movies: map<int, Movie>, users: map<string, User>)
  {
    remaining <= movies.Keys &&
    NewestFirst(rows) &&
    (forall i :: 0 <= i < |rows| ==> JoinedRow(rows[i], rows[i].movieId, movies, users) && rows[i].movieId !in remaining) &&
    (forall i, j :: 0 <= i < j < |rows| ==> rows[i].movieId != rows[j].movieId) &&
    (forall id :: id in movies && id !in remaining ==> exists i :: 0 <= i < |rows| && rows[i].movieId == id) &&
    (forall i, id :: 0 <= i < |rows| && id in remaining ==> movies[id].created <= rows[i].created)
  }

  /** Appending the row of the newest remaining movie keeps a partial listing one. */
  lemma ListNewest(rows: seq<MovieRow>, remaining: set<int>, movies: map<int, Movie>, users: map<string, User>, k: int, name: string)
    requires ListedSoFar(rows, remaining, movies, users)
    requires IsNewest(movies, remaining, k)
    requires name in users && users[name].id == movies[k].addedBy
    ensures ListedSoFar(rows + [MovieRow(k, movies[k].title, movies[k].plot, movies[k].created, name)], remaining - {k}, movies, users)
  {
    var row := MovieRow(k, movies[k].title, movies[k].plot, movies[k].created, name);
    ListNewestOrder(rows, remaining, movies, users, k, row);
    ListNewestRows(rows, remaining, movies, users, k, row);
    ListNewestCover(rows, remaining, movies, users, k, row);
  }

  lemma ListNewestOrder(rows: seq<MovieRow>, remaining: set<int>, movies: map<int, Movie>, users: map<string, User>, k: int, row: MovieRow)
    requires ListedSoFar(rows, remaining, movies, users)
    requires IsNewest(movies, remaining, k) && row.created == movies[k].created
    ensures NewestFirst(rows + [row])
    ensures forall i, id :: 0 <= i < |rows + [row]| && id in remaining - {k} ==> movies[id].created <= (rows + [row])[i].created
  {
    var rows' := rows + [row];
    forall i, j | 0 <= i < j < |rows'|
      ensures rows'[j].created <= rows'[i].created
    {
      if j == |rows| {
        assert movies[k].created <= rows[i].created;
      } else {
        assert rows'[i] == rows[i] && rows'[j] == rows[j];
      }
    }
    forall i, id | 0 <= i < |rows'| && id in remaining - {k}
      ensures movies[id].created <= rows'[i].created
    {
      if i < |rows| {
        assert rows'[i] == rows[i];
      }
    }
  }

  lemma ListNewestRows(rows: seq<MovieRow>, remaining: set<int>, movies: map<int, Movie>, users: map<string, User>, k: int, row: MovieRow)
    requires ListedSoFar(rows, remaining, movies, users)
    requires k in remaining && JoinedRow(row, k, movies, users) && row.movieId == k
    ensures forall i :: 0 <= i < |rows + [row]| ==>
      JoinedRow((rows + [row])[i], (rows + [row])[i].movieId, movies, users) && (rows + [row])[i].movieId !in remaining - {k}
    ensures forall i, j :: 0 <= i < j < |rows + [row]| ==> (rows + [row])[i].movieId != (rows + [row])[j].movieId
  {
    var rows' := rows + [row];
    assert forall i :: 0 <= i < |rows| ==> rows'[i] == rows[i];
  }

  lemma ListNewestCover(rows: seq<MovieRow>, remaining: set<int>, movies: map<int, Movie>, users: map<string, User>, k: int, row: MovieRow)
    requires ListedSoFar(rows, remaining, movies, users)
    requires row.movieId == k
    ensures forall id :: id in movies && id !in remaining - {k} ==>
      exists i :: 0 <= i < |rows + [row]| && (rows + [row])[i].movieId == id
  {
    var rows' := rows + [row];
    forall id | id in movies && id !in remaining - {k}
      ensures exists i :: 0 <= i < |rows'| && rows'[i].movieId == id
    {
      if id == k {
        assert rows'[|rows|].movieId == id;
      } else {
        var i :| 0 <= i < |rows| && rows[i].movieId == id;
        assert rows'[i].movieId == id;
      }
    }
  }

  /** A partial listing with nothing remaining is the whole listing. */
  lemma ListedAll(rows: seq<MovieRow>, movies: map<int, Movie>, users: map<string, User>)
    requires ListedSoFar(rows, {}, movies, users)
    ensures IsListing(rows, movies, users)
  {
  }
}
