# movies-list-server: catalog operations and form validators in Dafny

This project models the two deterministic parts of a small movie-catalog web
server.

- **The catalog operations of `MoviesList`.** `addMovie`, `editMovie` and
  `deleteMovie` are written as pure functions over the ordered list of movie
  records that the server holds in memory (module `Movies`). That cached list
  equals the contents of `MoviesList.json` only after the file has been read.
  Each
  function receives the outcomes of its side effects as parameters: thumbnail
  generation, removal of the movie's image folder, and the write of the catalog
  file. It returns the reply the caller sees (`success`, with `addedMovieId`
  after an add, or `error` with a message) together with the catalog as persisted
  afterwards. On every error path that catalog is the input list, unchanged.
- **The files of one movie** (module `MovieFiles`). This covers the per-movie
  folder `public/images/movies/{id}`, the four renditions written into it, the
  image URLs a new record stores, and the fan-out/join of thumbnail generation.
- **The form validators** (module `MovieValidators`). These are the per-field
  rules of `validateMethods` with their exact messages, plus `validateField`,
  `validateFormData` and the size test of `validatePoster`.
- **A small model of JavaScript values** (module `Js`). It covers `typeof`,
  `Number(...)` with NaN as `None`, and comparisons that are false on NaN. It
  also covers the decimal text that `${id}` produces, proved to read back to the
  same integer.

The catalog invariant is that ids are distinct and at least 1. The source never
checks it, but every operation keeps it: `AddPreservesValidIds`,
`EditPreservesValidIds` and `DeleteRemovesExactlyOne` prove this.
`AddThenDeleteRestores` proves that deleting the record a successful add
created gives back the catalog as it was. `EditIdempotent` proves that
repeating an edit changes nothing further. Both lemmas give the second call the
catalog the first call persisted. In the server, that holds only if
`MoviesList.json` was read back into the cache between the two calls. Without a
re-read, the second call sees the timestamp object instead (see "## Left out").

Three facts about the code shape the model:

- `#generateThumbnails` returns the poster message for a failed `mkdir` of the
  movie's folder as well as for a failed rendition write (api/movies.js:94-98,
  118-122). The model has no separate kind of file-system error.
- The result of the timestamp write after a successful mutation is discarded
  (api/movies.js:223-224, 283-284, 335-336). It cannot change the reply, so it is
  not a parameter here.
- The catalog operations check nothing about the fields they store; the routes
  call `validateFormData` and `validatePoster` first (routes/movies/index.js:44-50,
  123-129). The validators are modelled as written, including the message/bound
  mismatches that `NumericBoundaries` and `PosterBoundaries` state.

## Model

| member | source | states |
|---|---|---|
| Js.IntToStringRoundTrip | api/movies.js:200-205 | the decimal text an id gets inside a template literal reads back to the same id, so the per-id paths lose nothing |
| Js.IntToString | api/movies.js:200-205 | the text `${id}` gives is nonempty, starts with a digit exactly when the id is not negative, and has no `/`, so an id is a single path segment |
| MovieFiles.MovieImages | api/movies.js:200-205 | every image URL of a new record lies inside the movie's own folder `images/movies/{id}/` |
| MovieFiles.GenerateThumbnails | api/movies.js:76-126 | poster generation succeeds iff the folder exists or is created and all four rendition files are written; every failure gives "Could not update poster, please try again later" |
| MovieFiles.RenditionsWritten | api/movies.js:113-123 | the `Promise.all` join holds iff every rendition file was written |
| MovieFiles.ImagesAreRenditions | api/movies.js:200-205 | each of the four URLs stored in a new record, served from `public/`, is one of the files thumbnail generation writes for that id |
| MovieFiles.ImagesDistinct | api/movies.js:200-205 | two different ids never share an image folder or a URL of the same rendition |
| Movies.MaxId | api/movies.js:171-177 | the `reduce` result is at least its start value and every id, and is the start value or some record's id |
| Movies.NextId | api/movies.js:166-181 | the new id is 1 for an empty catalog; otherwise it exceeds every id and is one more than an id present, i.e. max+1 |
| Movies.NextIdExamples | api/movies.js:166-181 | an empty catalog gives id 1; ids {1,3} give 4 in either order |
| Movies.IndexOf | api/movies.js:293 | returns -1 iff no record has the id; otherwise the first record with that id |
| Movies.Without | api/movies.js:249 | the filter result is no longer than the input; it holds only input records with another id, and every input record with another id is in it |
| Movies.WithoutConcat | api/movies.js:249 | filtering a concatenation is the concatenation of the filtered parts, so the filter keeps order and multiplicity |
| Movies.WithoutSingleton | api/movies.js:249 | a one-record list keeps its record exactly when the id differs; with WithoutConcat this fixes the filter's result for every list |
| Movies.WithoutNoMatch | api/movies.js:249 | filtering out an id that no record has returns the list unchanged |
| Movies.WithoutSingleMatch | api/movies.js:249 | when exactly one record has the id, the filter removes that record and keeps the others in order |
| Movies.AddMovie | api/movies.js:165-227 | failed thumbnails or a failed write return that error and leave the catalog unchanged; success means both steps succeeded; on success the old list is kept as a prefix and one record is appended with the fresh id, the form's fields and the four `images/movies/{id}/...` paths, and `addedMovieId` is that id |
| Movies.EditMovie | api/movies.js:289-339 | an id with no match gives "Movie Id not in database!"; for a matched id, a failed poster regeneration returns its error, and otherwise a failed write returns the write's error, both leaving the catalog unchanged; on success only the first matching position changes, length is kept, and the new record has the form's fields and the old record's images |
| Movies.DeleteMovie | api/movies.js:229-287 | an id below 1 gives "Movie Id cannot be less than 1!"; NaN or an absent id gives "Movie Id not in database!"; for a present id a failed folder removal gives "Could not delete files, please try again later", and otherwise a failed write gives the write's error; success iff the id is present, folder removal did not fail and the write succeeded; errors leave the catalog unchanged; on success the catalog is filtered by id |
| Movies.DeleteRemovesExactlyOne | api/movies.js:239-249 | on a catalog with distinct ids a successful delete removes exactly the matching record, keeps the order of the rest, and keeps ids distinct and at least 1 |
| Movies.AddWithGeneratedThumbnails | api/movies.js:183-189 | with thumbnails generated for the fresh id, an add succeeds iff the folder exists or is created, all four renditions of that id are written and the catalog write succeeds; every error is the poster message or the write's error |
| Movies.AddPreservesValidIds | api/movies.js:166-212 | adding keeps ids distinct and at least 1 |
| Movies.EditPreservesValidIds | api/movies.js:290-316 | editing keeps ids distinct and at least 1, because the replaced record keeps the matched id |
| Movies.AddThenDeleteRestores | api/movies.js:165-287 | deleting the id a successful add returned restores the catalog exactly |
| Movies.EditIdempotent | api/movies.js:289-316 | a second identical edit, with or without a poster, persists the same catalog and gives the same reply as the first |
| MovieValidators.SearchFrom | data/validators/movieValidators.js:11 | `/.+/.test` holds iff the string has a character other than a line terminator |
| MovieValidators.CheckText | data/validators/movieValidators.js:4-50 | a non-string gets the "must be a string" message; a string passes iff it has a non-line-terminator character, otherwise it gets the "at least one character" message |
| MovieValidators.CheckRating | data/validators/movieValidators.js:51-67 | passes iff `Number(value)` is a number in [1,10]; every failure, NaN included, gets the range message |
| MovieValidators.CheckVotes | data/validators/movieValidators.js:68-84 | passes iff `Number(value)` is at least 1; every failure gets "IMDB Votes must be greater than 1" |
| MovieValidators.RuleFor | data/validators/movieValidators.js:3-89 | the validator table has an entry exactly for title, director, distributor, imdbRating and imdbVotes |
| MovieValidators.ValidateField | data/validators/movieValidators.js:87-97 | a field without a rule fails with "Could not validate field", and no ruled field ever gets that message; each ruled field passes exactly on its condition and fails with its exact message; the "must be a number" messages never occur |
| MovieValidators.ValidateFormData | data/validators/movieValidators.js:99-113 | the result is `true` iff every present field validates, and an empty form is valid; otherwise it is a nonempty map whose keys are exactly the failing present fields, each with its field's message |
| MovieValidators.ValidatePoster | data/validators/movieValidators.js:115-135 | a file on which the `sharp(...)` call throws gets "Invalid file format"; an image passes iff it is at least 481 wide and at least 101 taller than wide, so an accepted poster is at least 481 by 582 |
| MovieValidators.EmptyTextRejected | data/validators/movieValidators.js:4-34 | `""` as a title and `"\n"` as a director fail with the "at least one character" message |
| MovieValidators.TextTypeAndLineBreak | data/validators/movieValidators.js:4-50 | `"\nX"` passes as a distributor, and a number as a title gets "Title must be a string" |
| MovieValidators.NumericBoundaries | data/validators/movieValidators.js:51-84 | ratings 1 and 10 pass, a NaN rating gets the range message, 1 vote passes despite the "greater than 1" message, and undefined votes fail |
| MovieValidators.PosterBoundaries | data/validators/movieValidators.js:127-134 | 481×582 is accepted; 481×581, 480×580 (the size the message names), 480 wide at any height, and any poster at most 100 taller than wide are refused |

## Left out

- File reads, JSON parsing and the startup load (`init`, `getAllMovies`, `getLastUpdatedTime`, api/movies.js:23-74) are I/O and are not modelled.
- `#writeToFile` (api/movies.js:128-163) is I/O. Its lock with retry and backoff, the JSON serialization and the file write appear only as a `StepResult` parameter. A failed write is taken to persist nothing.
- The timestamp write after each successful mutation (api/movies.js:223-224, 283-284, 335-336) is not modelled, because its result is ignored by the source.
- The in-memory cache is not modelled. Each operation's input is the cached list (api/movies.js:208, 239, 292). `#writeToFile` copies whatever it wrote into the cache (api/movies.js:150). So after a successful mutation, the timestamp write (api/movies.js:224, 284, 336) leaves the cache holding `{lastUpdatedAt}`. The cache is right again only once `getAllMovies` re-reads the file (api/movies.js:49-55). Without that re-read, the next call goes wrong:
  - a delete throws at api/movies.js:240;
  - an edit throws at api/movies.js:293;
  - an add takes id 1, writes its renditions into folder 1, and then throws at api/movies.js:209.

  The model's input is the persisted catalog. Movies.AddThenDeleteRestores and Movies.EditIdempotent describe the second call only when the file was re-read between the two calls.
- Movies.NextId: ids are unbounded integers, while the source's ids are JavaScript numbers (doubles). From 2^53 = 9007199254740992 on, `maxMovieId++` (api/movies.js:180) can return the same value. The model returns max+1 instead. So once the catalog holds an id of 2^53 or more, the source breaks both "the new id exceeds every id" and Movies.AddPreservesValidIds (a new record can share an existing id). The model promises both for every catalog.
- The singleton and the `structuredClone` copies are not modelled. Dafny's values are immutable, so these copies are implicit.
- Image encoding with `sharp` and reading poster metadata are foreign library calls. Thumbnail generation takes which rendition files were written as input, and poster validation takes the decoded size.
- Movies.EditMovie: ids are integers. The route passes `movie.id` as a string, and `editMovie` stores that raw string as the record's id. The model stores the integer.
- Movies.DeleteMovie: the requested id is `Number(movieId)` as an input, with `None` for NaN. The folder path uses the raw text, so for example "05" matches record 5 while folder "05" does not exist. That case shows up only as the `FolderMissing` outcome.
- MovieValidators.ValidateField: the table lookup is modelled as own properties only. In the source, names inherited from `Object.prototype` (such as `toString` or `constructor`) reach a builtin function instead of the "Could not validate field" branch.
- MovieValidators.ValidateFormData: fields are checked in an unspecified order rather than in `Object.keys` order. The result is a map, so only the key order of the JSON reply could differ.
- Js.JsValue: a string carries the number `Number(...)` gives for it. String-to-number parsing and floating-point rounding are not modelled.
- Js.IntToString: ids are unbounded integers. The exponent form JavaScript uses for numbers of 10^21 and above is not modelled.
- `validatePoster` is modelled only as the constructor failure it catches. A rejected `metadata()` call is not caught in the source, and it is not modelled.
- HTTP routing, status codes, the error merging in the edit route, the auth middleware, and the user store (bcrypt and JWT) are not part of this model.
