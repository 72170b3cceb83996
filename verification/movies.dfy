/**
  The catalog operations of `MoviesList`: adding, editing and deleting a movie as
  transformations of the ordered list that is persisted to `MoviesList.json`.
  Each operation gets the outcomes of its side effects (thumbnail generation,
  image-folder removal, the catalog write) as parameters and returns the reply
  the caller sees together with the catalog that is persisted afterwards.
 */
module Movies {
  import opened Js
  import opened MovieFiles

  datatype Imdb = Imdb(rating: JsValue, votes: JsValue)

  /** A catalog record. The text and IMDb fields hold whatever the submitted form held. */
  datatype Movie = Movie(id: int, title: JsValue, director: JsValue, distributor: JsValue,
                         imdb: Imdb, images: Images)

  /** The fields `addMovie` and `editMovie` copy from the submitted movie. */
  datatype MovieForm = MovieForm(title: JsValue, director: JsValue, distributor: JsValue,
                                 imdbRating: JsValue, imdbVotes: JsValue)

  /** The argument of `editMovie`: the target id, the new fields, and whether a
      poster image was attached. */
  datatype MovieEdit = MovieEdit(id: int, form: MovieForm, hasPoster: bool)

  /** `{status: 'success'}` (with `addedMovieId` after an add) or `{status: 'error', error}`. */
  datatype Reply = Success(addedMovieId: Option<int>) | Error(error: string)

  /** The reply, and the catalog as persisted once the operation is over. */
  datatype Outcome = Outcome(reply: Reply, catalog: seq<Movie>)

  const IdBelowOne := "Movie Id cannot be less than 1!"
  const NotInDatabase := "Movie Id not in database!"

  /** The catalog invariant: every id is at least 1 and no two records share one. */
  predicate ValidIds(movies: seq<Movie>)
  {
    && (forall i :: 0 <= i < |movies| ==> movies[i].id >= 1)
    && (forall i, j :: 0 <= i < j < |movies| ==> movies[i].id != movies[j].id)
  }

  /** The record carries exactly the form's fields. */
  predicate Carries(m: Movie, form: MovieForm)
  {
    && m.title == form.title
    && m.director == form.director
    && m.distributor == form.distributor
    && m.imdb == Imdb(form.imdbRating, form.imdbVotes)
  }

  function Record(id: int, form: MovieForm, images: Images): (m: Movie)
    ensures m.id == id && m.images == images && Carries(m, form)
  {
    Movie(id, form.title, form.director, form.distributor,
          Imdb(form.imdbRating, form.imdbVotes), images)
  }

  // ---------------------------------------------------------------------------
  // Id assignment

  /** The `reduce` that finds the largest id, starting from `acc`. */
  function MaxId(acc: int, movies: seq<Movie>): (m: int)
    ensures acc <= m
    ensures forall i :: 0 <= i < |movies| ==> movies[i].id <= m
    ensures m == acc || exists i :: 0 <= i < |movies| && movies[i].id == m
    decreases |movies|
  {
    if |movies| == 0 then acc
    else
      var rest := movies[1..];
      var m := MaxId(if movies[0].id > acc then movies[0].id else acc, rest);
      assert forall i :: 1 <= i < |movies| ==> movies[i] == rest[i - 1];
      m
  }

  /** The id `addMovie` gives a new record: 1 in an empty catalog, otherwise one
      more than the largest id. */
  function NextId(movies: seq<Movie>): (id: int)
    ensures |movies| == 0 ==> id == 1
    ensures forall i :: 0 <= i < |movies| ==> movies[i].id < id
    ensures |movies| > 0 ==> exists i :: 0 <= i < |movies| && movies[i].id == id - 1
  {
    if |movies| == 0 then 1
    else MaxId(movies[0].id, movies) + 1
  }

  // ---------------------------------------------------------------------------
  // Lookup and removal by id

  /** `findIndex(el => el.id == key)`: the first position whose id equals `key`, or -1. */
  function IndexOf(movies: seq<Movie>, key: real): (k: int)
    ensures -1 <= k < |movies|
    ensures k == -1 <==> forall i :: 0 <= i < |movies| ==> movies[i].id as real != key
    ensures k >= 0 ==> movies[k].id as real == key
    ensures k >= 0 ==> forall i :: 0 <= i < k ==> movies[i].id as real != key
    decreases |movies|
  {
    if |movies| == 0 then -1
    else if movies[0].id as real == key then 0
    else
      var rest := movies[1..];
      var k := IndexOf(rest, key);
      assert forall i :: 1 <= i < |movies| ==> movies[i] == rest[i - 1];
      if k == -1 then -1 else k + 1
  }

  /** `filter(el => el.id !== key)`: the records whose id differs from `key`, in order. */
  function Without(movies: seq<Movie>, key: real): (r: seq<Movie>)
    ensures |r| <= |movies|
    ensures forall m :: m in r ==> m in movies && m.id as real != key
    ensures forall m :: m in movies && m.id as real != key ==> m in r
    decreases |movies|
  {
    if |movies| == 0 then []
    else
      var rest := movies[1..];
      var tail := Without(rest, key);
      assert forall i :: 1 <= i < |movies| ==> movies[i] == rest[i - 1];
      if movies[0].id as real != key then [movies[0]] + tail else tail
  }

  // ---------------------------------------------------------------------------
  // The operations

  /** `addMovie`: assigns a fresh id, generates the poster renditions, and appends
      the new record to the catalog before writing it. */
  function AddMovie(movies: seq<Movie>, form: MovieForm, thumbnails: StepResult, write: StepResult): (r: Outcome)
    ensures thumbnails.Failed? ==> r == Outcome(Error(thumbnails.error), movies)
    ensures thumbnails.Done? && write.Failed? ==> r == Outcome(Error(write.error), movies)
    ensures r.reply.Success? <==> thumbnails.Done? && write.Done?
    ensures r.reply.Error? ==> r.catalog == movies
    ensures r.reply.Success? ==>
      var n := |movies|;
      && r.reply.addedMovieId == Some(NextId(movies))
      && |r.catalog| == n + 1
      && r.catalog[..n] == movies
      && r.catalog[n].id == NextId(movies)
      && r.catalog[n].images == MovieImages(NextId(movies))
      && Carries(r.catalog[n], form)
  {
    var id := NextId(movies);
    if thumbnails.Failed? then Outcome(Error(thumbnails.error), movies)
    else
      var updated := movies + [Record(id, form, MovieImages(id))];
      if write.Failed? then Outcome(Error(write.error), movies)
      else Outcome(Success(Some(id)), updated)
  }

  /** `editMovie`: replaces the first record whose id matches, keeping its image
      paths; regenerates the renditions when a poster is attached. */
  function EditMovie(movies: seq<Movie>, edit: MovieEdit, thumbnails: StepResult, write: StepResult): (r: Outcome)
    ensures IndexOf(movies, edit.id as real) == -1 ==> r == Outcome(Error(NotInDatabase), movies)
    ensures IndexOf(movies, edit.id as real) >= 0 && edit.hasPoster && thumbnails.Failed? ==>
      r == Outcome(Error(thumbnails.error), movies)
    ensures IndexOf(movies, edit.id as real) >= 0 && !(edit.hasPoster && thumbnails.Failed?) && write.Failed? ==>
      r == Outcome(Error(write.error), movies)
    ensures r.reply.Success? <==>
      IndexOf(movies, edit.id as real) >= 0 && (edit.hasPoster ==> thumbnails.Done?) && write.Done?
    ensures r.reply.Error? ==> r.catalog == movies
    ensures r.reply.Success? ==>
      var at := IndexOf(movies, edit.id as real);
      && r.reply.addedMovieId.None?
      && |r.catalog| == |movies|
      && movies[at].id == edit.id
      && r.catalog[at].id == edit.id
      && r.catalog[at].images == movies[at].images
      && Carries(r.catalog[at], edit.form)
      && forall j :: 0 <= j < |movies| && j != at ==> r.catalog[j] == movies[j]
  {
    var k := IndexOf(movies, edit.id as real);
    if k == -1 then Outcome(Error(NotInDatabase), movies)
    else
      var updated := movies[k := Record(edit.id, edit.form, movies[k].images)];
      if edit.hasPoster && thumbnails.Failed? then Outcome(Error(thumbnails.error), movies)
      else if write.Failed? then Outcome(Error(write.error), movies)
      else Outcome(Success(None), updated)
  }

  /** `deleteMovie`: `requested` is `Number(movieId)`, None for NaN. Refuses ids
      below 1 and ids not in the catalog, removes the image folder, then writes the
      catalog without the record. */
  function DeleteMovie(movies: seq<Movie>, requested: Option<real>, folder: FolderRemoval, write: StepResult): (r: Outcome)
    ensures Below(requested, 1.0) ==> r == Outcome(Error(IdBelowOne), movies)
    ensures requested.None? ==> r == Outcome(Error(NotInDatabase), movies)
    ensures requested.Some? && !Below(requested, 1.0) && IndexOf(movies, requested.value) == -1 ==>
      r == Outcome(Error(NotInDatabase), movies)
    ensures requested.Some? && !Below(requested, 1.0) && IndexOf(movies, requested.value) >= 0 && folder.RemoveFailed? ==>
      r == Outcome(Error(DeleteFilesError), movies)
    ensures requested.Some? && !Below(requested, 1.0) && IndexOf(movies, requested.value) >= 0 && !folder.RemoveFailed? && write.Failed? ==>
      r == Outcome(Error(write.error), movies)
    ensures r.reply.Success? <==>
      && requested.Some? && requested.value >= 1.0
      && IndexOf(movies, requested.value) >= 0
      && !folder.RemoveFailed?
      && write.Done?
    ensures r.reply.Error? ==> r.catalog == movies
    ensures r.reply.Success? ==> r.reply.addedMovieId.None? && r.catalog == Without(movies, requested.value)
  {
    if Below(requested, 1.0) then Outcome(Error(IdBelowOne), movies)
    else if requested.None? || IndexOf(movies, requested.value) == -1 then Outcome(Error(NotInDatabase), movies)
    else
      var remaining := Without(movies, requested.value);
      if folder.RemoveFailed? then Outcome(Error(DeleteFilesError), movies)
      else if write.Failed? then Outcome(Error(write.error), movies)
      else Outcome(Success(None), remaining)
  }

  // ---------------------------------------------------------------------------
  // Properties relating the operations

  /** The filter distributes over concatenation: together with WithoutSingleton this
      fixes the result, in order and with multiplicity, for every list. */
  lemma {:induction false} WithoutConcat(a: seq<Movie>, b: seq<Movie>, key: real)
    ensures Without(a + b, key) == Without(a, key) + Without(b, key)
    decreases |a|
  {
    if |a| > 0 {
      assert (a + b)[1..] == a[1..] + b;
      WithoutConcat(a[1..], b, key);
    } else {
      assert a + b == b;
    }
  }

  /** Filtering a one-record list keeps the record exactly when its id differs. */
  lemma WithoutSingleton(m: Movie, key: real)
    ensures Without([m], key) == if m.id as real != key then [m] else []
  {
    assert [m][1..] == [];
  }

  lemma SplitAt(movies: seq<Movie>, k: int)
    requires 0 <= k < |movies|
    ensures movies == movies[..k] + [movies[k]] + movies[k + 1..]
  {
  }

  /** Filtering out an id no record has returns the list itself. */
  lemma {:induction false} WithoutNoMatch(movies: seq<Movie>, key: real)
    requires forall i :: 0 <= i < |movies| ==> movies[i].id as real != key
    ensures Without(movies, key) == movies
    decreases |movies|
  {
    if |movies| > 0 {
      assert movies[0].id as real != key;
      var rest := movies[1..];
      assert forall i :: 0 <= i < |rest| ==> rest[i] == movies[i + 1];
      WithoutNoMatch(rest, key);
      assert movies == [movies[0]] + rest;
    }
  }

  /** When the record at position `at` is the only one with id `key`, filtering out `key`
      removes exactly that record and keeps the order of the rest. */
  lemma WithoutSingleMatch(movies: seq<Movie>, key: real, at: int)
    requires 0 <= at < |movies| && movies[at].id as real == key
    requires forall i :: 0 <= i < |movies| && i != at ==> movies[i].id as real != key
    ensures Without(movies, key) == movies[..at] + movies[at + 1..]
  {
    var before, after := movies[..at], movies[at + 1..];
    assert forall i :: 0 <= i < |before| ==> before[i].id as real != key by {
      assert forall i :: 0 <= i < |before| ==> before[i] == movies[i];
    }
    assert forall i :: 0 <= i < |after| ==> after[i].id as real != key by {
      assert forall i :: 0 <= i < |after| ==> after[i] == movies[at + 1 + i];
    }
    WithoutNoMatch(before, key);
    WithoutNoMatch(after, key);
    var front := before + [movies[at]];
    SplitAt(movies, at);
    WithoutSingleton(movies[at], key);
    WithoutConcat(before, [movies[at]], key);
    assert Without(front, key) == before;
    WithoutConcat(front, after, key);
  }

  /** A successful add keeps the catalog invariant. */
  lemma AddPreservesValidIds(movies: seq<Movie>, form: MovieForm, thumbnails: StepResult, write: StepResult)
    requires ValidIds(movies)
    ensures ValidIds(AddMovie(movies, form, thumbnails, write).catalog)
  {
  }

  /** A successful edit keeps the catalog invariant. */
  lemma EditPreservesValidIds(movies: seq<Movie>, edit: MovieEdit, thumbnails: StepResult, write: StepResult)
    requires ValidIds(movies)
    ensures ValidIds(EditMovie(movies, edit, thumbnails, write).catalog)
  {
  }

  /** A successful delete on a valid catalog removes exactly the one record with
      that id, keeps the order of the others, and keeps the invariant. */
  lemma DeleteRemovesExactlyOne(movies: seq<Movie>, requested: Option<real>, folder: FolderRemoval, write: StepResult)
    requires ValidIds(movies)
    ensures var r := DeleteMovie(movies, requested, folder, write);
      r.reply.Success? ==>
        var at := IndexOf(movies, requested.value);
        && r.catalog == movies[..at] + movies[at + 1..]
        && |r.catalog| == |movies| - 1
        && ValidIds(r.catalog)
  {
    var r := DeleteMovie(movies, requested, folder, write);
    if r.reply.Success? {
      var key := requested.value;
      var at := IndexOf(movies, key);
      assert forall i :: 0 <= i < |movies| && i != at ==> movies[i].id as real != key by {
        assert forall i :: 0 <= i < |movies| && i != at ==> movies[i].id != movies[at].id;
      }
      assert r.catalog == Without(movies, key);
      WithoutSingleMatch(movies, key, at);
      ValidIdsSplice(movies, at);
    }
  }

  lemma ValidIdsSplice(movies: seq<Movie>, k: int)
    requires ValidIds(movies) && 0 <= k < |movies|
    ensures ValidIds(movies[..k] + movies[k + 1..])
  {
  }

  /** Filtering a list with one record appended: the filtered list, then the record
      if its id differs. */
  lemma WithoutAppend(movies: seq<Movie>, m: Movie, key: real)
    ensures Without(movies + [m], key) == Without(movies, key) + (if m.id as real != key then [m] else [])
  {
    WithoutConcat(movies, [m], key);
    WithoutSingleton(m, key);
  }

  lemma IndexOfAppended(movies: seq<Movie>, m: Movie, key: real)
    requires forall i :: 0 <= i < |movies| ==> movies[i].id as real != key
    requires m.id as real == key
    ensures IndexOf(movies + [m], key) == |movies|
  {
    var s := movies + [m];
    assert s[|movies|].id as real == key;
    assert forall i :: 0 <= i < |movies| ==> s[i] == movies[i];
  }

  /** Deleting the record a successful add created gives back the catalog as it
      was before the add. */
  lemma AddThenDeleteRestores(movies: seq<Movie>, form: MovieForm, folder: FolderRemoval)
    requires ValidIds(movies)
    requires !folder.RemoveFailed?
    ensures var added := AddMovie(movies, form, Done, Done);
      && added.reply.addedMovieId.Some?
      && DeleteMovie(added.catalog, Some(added.reply.addedMovieId.value as real), folder, Done)
         == Outcome(Success(None), movies)
  {
    var added := AddMovie(movies, form, Done, Done);
    var id := NextId(movies);
    var key := id as real;
    var m := added.catalog[|movies|];
    assert added.catalog == movies + [m];
    assert id >= 1 by {
      if |movies| > 0 {
        assert movies[0].id < id;
      }
    }
    assert forall i :: 0 <= i < |movies| ==> movies[i].id as real != key by {
      assert forall i :: 0 <= i < |movies| ==> movies[i].id < id;
    }
    WithoutAppend(movies, m, key);
    WithoutNoMatch(movies, key);
    assert Without(added.catalog, key) == movies;
    IndexOfAppended(movies, m, key);
    var deleted := DeleteMovie(added.catalog, Some(key), folder, Done);
    assert deleted.reply.Success?;
  }

  /** An add whose thumbnails come from `#generateThumbnails` for the fresh id: it
      succeeds iff the folder is available, every rendition of that id is written
      and the catalog write succeeds, and a poster failure always gives the poster
      message. */
  lemma AddWithGeneratedThumbnails(movies: seq<Movie>, form: MovieForm, folderExists: bool,
                                   mkdirSucceeds: bool, written: set<string>, write: StepResult)
    ensures var r := AddMovie(movies, form, GenerateThumbnails(NextId(movies), folderExists, mkdirSucceeds, written), write);
      && (r.reply.Success? <==>
            && (folderExists || mkdirSucceeds)
            && (forall f :: f in RenditionFiles(NextId(movies)) ==> f in written)
            && write.Done?)
      && (r.reply.Error? ==> r.reply.error == PosterError || r.reply == Error(write.error))
  {
  }

  /** Editing twice with the same arguments persists the same catalog as editing once. */
  lemma EditIdempotent(movies: seq<Movie>, edit: MovieEdit)
    ensures var once := EditMovie(movies, edit, Done, Done);
      once.reply.Success? ==> EditMovie(once.catalog, edit, Done, Done) == once
  {
  }

  function SampleMovie(id: int): Movie
  {
    Record(id, MovieForm(JsUndefined, JsUndefined, JsUndefined, JsUndefined, JsUndefined), MovieImages(id))
  }

  /** The first movie gets id 1; after ids 1 and 3 comes 4, in either order. */
  lemma NextIdExamples()
    ensures NextId([]) == 1
    ensures NextId([SampleMovie(1), SampleMovie(3)]) == 4
    ensures NextId([SampleMovie(3), SampleMovie(1)]) == 4
  {
  }
}
