# Douban crawler pipelines: a Dafny model

This project models the three Scrapy item pipelines of the Douban movie and
actor crawler (`crawler/pipelines.py`). Together they maintain the crawl
frontier and the results:

- a **movie table** and an **actor table**, with one lifecycle row per known id.
  Each row has a `type` (NORMAL, LOGIN or BROKEN) and a `crawled` flag;
- a **movie document collection**, with a unique index on `mid`.

Every item a spider yields is assumed to pass through all three pipelines. The `ITEM_PIPELINES` setting that enables them is not part of this model.

- **SeedPipeline** creates a movie row for every seed id that has none.
- **MoviePipeline**:
  - handles a movie 404 by setting the row's type: LOGIN without a session;
    BROKEN and crawled with one;
  - otherwise, for a parsed movie, creates the rows of its credited actors
    (ids > 0) and of its recommendations (after `int()`);
  - marks the movie crawled;
  - inserts its document (the item without `recommendations`). A duplicate key
    makes it return a `DropItem` naming the `mid`.
- **ActorPipeline**:
  - marks an actor 404 BROKEN and crawled;
  - otherwise marks the actor crawled when its filmography is finished;
  - creates a movie row for every film it lists.

Each pipeline passes items from other spiders through untouched.

Layout:

- `wrappers.dfy`: `Option`.
- `pyint.dfy` (module `PyInt`):
  - Python's `int()` on an id, which arrives either as an integer or as text;
  - `'{:d}'.format(n)`;
  - the round trip between the two.
- `lifecycle.dfy` (module `Lifecycle`):
  - the row type;
  - `create` under a unique key (insert-if-absent), a batch of creates, and `update(...).where(id == x)`;
  - their algebra (idempotence, order-independence, growth).
- `items.dfy` (module `Items`): spiders, item classes and the stored movie document.
- `stages.dfy` (module `Stages`):
  - the reference step functions `SeedStep`, `MovieStep` and `ActorStep`;
  - the `int()` conversion of an id list (`Convert`), which stops at the first ValueError;
  - the actor ids a movie credits.
- `pipelines.dfy` (module `Pipelines`):
  - a `Store` class holding the two tables and the collection, with one method per database operation the pipelines issue;
  - the classes `SeedPipeline`, `MoviePipeline` and `ActorPipeline`, whose `ProcessItem` methods change the store one row at a time with loops;
  - each `ProcessItem` is proved to yield exactly the state and result of its step function.
- `properties.dfy` (module `Properties`): the lifecycle, discovery and first-write-wins properties, stated over the step functions.

The model follows the code as written, including these points a reader might not expect:

- The LOGIN update for a movie 404 without a session (`crawler/pipelines.py:79`) has no guard. It turns a BROKEN movie back into LOGIN (`LoginOverwritesBroken`) and leaves `crawled` as it was.
- A successful crawl never changes a row's type (line 91 only sets `crawled`). A movie marked LOGIN stays LOGIN after a later successful crawl with a session.
- A duplicate document makes `process_item` **return** a `DropItem` (line 96), not raise it. It is modelled as the outcome `Dropped(message)`, with message `Mongodb: DuplicateKey: <mid>`.
- Every id list goes through `int()`: recommendations (line 110), an actor's films (line 149) and seeds (see the assumption under "## Left out"). A value `int()` refuses raises ValueError. That error escapes `process_item` (`Raised(ValueError(id))`), and the rows created before it stay.
- Updates on an id without a row change nothing and create nothing.
- An item of the wrong class for its spider fails on its first field access (`Raised(KeyError(field))`) before any store changes. This covers, for example, a seed spider's item without `mids`. An actor item under the seed spider has `mids`, so it is processed like a seed list.

## Model

| member | source | states |
|---|---|---|
| Pipelines.SeedPipeline.ProcessItem | crawler/pipelines.py:29-39 | The store after processing equals `SeedStep` of the store before, and so does the result: a movie row is created for each seed id in order, existing rows are kept, and `int()` refusing an id raises ValueError after the rows before it. |
| Pipelines.MoviePipeline.ProcessItem | crawler/pipelines.py:66-98 | The store and the result equal `MovieStep`, covering the 404 branches, actor and recommendation discovery, the `crawled` update, and the insert or duplicate-key drop. |
| Pipelines.MoviePipeline.StoreActors | crawler/pipelines.py:100-106 | The actor table afterwards is the old one with a create for each credit with `aid > 0`, in order; nothing else changes. |
| Pipelines.MoviePipeline.StoreMovies | crawler/pipelines.py:108-115 | Get-then-create per recommended id gives the batch of creates of the converted prefix; it returns the id `int()` refused, if any. |
| Pipelines.ActorPipeline.ProcessItem | crawler/pipelines.py:132-156 | The store and the result equal `ActorStep`: 404 gives BROKEN and crawled; finished gives crawled; each listed film gets a movie row; ValueError stops the loop. |
| Pipelines.Store.CreateMovie | crawler/pipelines.py:35-37 | `Movie.create` under the unique key: it reports AlreadyExists and changes nothing when the row is there, and otherwise adds a fresh row. |
| Pipelines.Store.CreateActor | crawler/pipelines.py:103-106 | `Actor.create` under the unique key, with the same contract as CreateMovie on the actor table. |
| Pipelines.Store.UpdateMovie | crawler/pipelines.py:77 | `Movie.update(...).where(mid)` sets the given columns of that row only, and creates no row. |
| Pipelines.Store.UpdateActor | crawler/pipelines.py:140 | The same contract as UpdateMovie, on the actor table. |
| Pipelines.Store.InsertDoc | crawler/pipelines.py:93-96 | `insert(data)` under the unique `mid` index created at line 61: a second document for a `mid` is refused, the first is kept, and every document stays under its own `mid`. |
| Pipelines.Store.constructor | crawler/pipelines.py:58-61 | Sets up the unique-index invariant that `create_index` provides. The empty contents are only the model's starting point; `open_spider` may connect to a database that already holds rows and documents. |
| Stages.SeedStep | crawler/pipelines.py:29-39 | Reference definition of the seed stage. It has no contract of its own; SeedPipeline.ProcessItem is proved equal to it, and SeedStepEvolves, SeedStepKeepsTypes, SeedStepFrame, SeedStepDiscovers, SeedStepStopsAtBadId and SeedStepIdempotent characterise it. |
| Stages.MovieStep | crawler/pipelines.py:66-98 | Reference definition of the movie stage. It has no contract of its own; MoviePipeline.ProcessItem is proved equal to it, and MovieStepEvolves, MovieStepKeepsTypes, MovieNotFound, MovieDiscoversActors, MovieDiscoversRecommendations, MovieMarkedCrawled, MovieStored and MovieReplay characterise it. |
| Stages.ActorStep | crawler/pipelines.py:132-156 | Reference definition of the actor stage. It has no contract of its own; ActorPipeline.ProcessItem is proved equal to it, and ActorStepEvolves, ActorStepKeepsTypes, ActorNotFound, ActorParsedRow and ActorParsedDiscovers characterise it. |
| Stages.Convert | crawler/pipelines.py:109-110 | Reference definition of converting an id list with `int()` one id at a time, up to the first ValueError; lines 148-149 do the same for an actor's films. It has no contract of its own; ConvertSpec, ConvertStops, ConvertFirstFailure and ConvertIntVals characterise it. |
| Stages.PositiveAids | crawler/pipelines.py:101-102 | Reference definition of the actor ids `_store_actors` creates, in order. It has no contract of its own; PositiveAidsSpec characterises it, and StoreActors is proved against it. |
| Stages.StoreActorsOf | crawler/pipelines.py:82-84 | Reference definition of the three `_store_actors` calls. It has no contract of its own; StoreActorsOfAll characterises it. |
| Stages.DuplicateKeyMessage | crawler/pipelines.py:96 | Reference definition of the drop message. It has no contract of its own; DuplicateKeyMessageNamesMid characterises it. |
| Lifecycle.Insert | crawler/pipelines.py:35-37 | Reference definition of `create` with IntegrityError swallowed: insert-if-absent. It has no contract of its own; CreateMovie and CreateActor are proved against it, and InsertAllSpec characterises it. |
| Lifecycle.InsertAll | crawler/pipelines.py:33-37 | Reference definition of a batch of creates, in order. It has no contract of its own; InsertAllSpec, InsertAllAppend, InsertAllPresent, InsertAllIdempotent, InsertAllOnlyElementsMatter and InsertAllGrows characterise it. |
| Lifecycle.Update | crawler/pipelines.py:77-79 | Reference definition of `update(...).where(id == x)`. It has no contract of its own; UpdateMovie and UpdateActor are proved against it, and UpdateFrame characterises it. |
| PyInt.ToInt | crawler/pipelines.py:110 | Reference definition of `int()` on an id: the identity on integers, `ParseInt` on text. It has no contract of its own; ShowIntRoundTrip, PaddedRoundTrip, RejectsNoDigits, RejectsTrailingJunk and ConvertIntVals characterise it. |
| PyInt.ParseInt | crawler/pipelines.py:149 | Reference definition of `int()` on text: trim ASCII whitespace, then an optional sign and at least one ASCII digit. It has no contract of its own; TrimLeftSpec, TrimRightSpec, ShowIntParses, PaddedRoundTrip, RejectsNoDigits and RejectsTrailingJunk characterise it. |
| PyInt.ShowInt | crawler/pipelines.py:96 | Reference definition of `'{:d}'.format(n)`. It has no contract of its own; ShowIntRoundTrip and ShowIntParses characterise it. |
| Items.ToDocument | crawler/pipelines.py:87-88 | `dict(item)` minus `recommendations`; it keeps the `mid`. DocumentRoundTrip, DocumentOfRestored and SameDocument characterise it. |
| Pipelines.Store.HasMovie | crawler/pipelines.py:112-113 | `Movie.get(Movie.mid == mid)` succeeds exactly when the movie has a row. It has no contract of its own; StoreMovies uses it to create only the missing rows. |
| Lifecycle.InsertAllSpec | crawler/pipelines.py:33-37 | After a batch of creates, exactly the old ids and the batch's ids have rows, old rows are unchanged, and new rows are fresh (NORMAL, not crawled). |
| Lifecycle.InsertAllAppend | crawler/pipelines.py:82-84 | Two consecutive batches do what their concatenation does. |
| Lifecycle.InsertAllPresent | crawler/pipelines.py:36-37 | Creating ids that all have rows changes nothing, because IntegrityError is swallowed. |
| Lifecycle.InsertAllIdempotent | crawler/pipelines.py:33-37 | Repeating a batch of creates changes nothing. |
| Lifecycle.InsertAllOnlyElementsMatter | crawler/pipelines.py:33-37 | Two batches with the same ids, in whatever order and multiplicity, give the same table. |
| Lifecycle.InsertAllGrows | crawler/pipelines.py:33-37 | A batch of creates deletes no row and resets no `crawled` flag. |
| Lifecycle.UpdateFrame | crawler/pipelines.py:77-79 | An update keeps the key set, touches only its own row, and without `crawled=False` resets no flag. |
| Stages.ConvertSpec | crawler/pipelines.py:109-110 | Converting ids one by one yields the values of the ids before the first one `int()` refuses, and that id; with no refusal it yields the values of all of them. |
| Stages.ConvertStops | crawler/pipelines.py:148-149 | An id `int()` refuses ends the conversion of the list at that point. |
| Stages.ConvertFirstFailure | crawler/pipelines.py:109-110 | When the first refused id is at index i, the conversion fails with it after exactly i values. |
| Stages.InsertConvertedHasAll | crawler/pipelines.py:108-115 | When the whole list converts, every id in it has a row afterwards. |
| Stages.PositiveAidsSpec | crawler/pipelines.py:101-102 | The actor ids created are exactly the positive ids of the credits. |
| Stages.StoreActorsOfAll | crawler/pipelines.py:82-84 | The three `_store_actors` calls create what one batch of all credited ids would. |
| Stages.ConvertIntVals | crawler/pipelines.py:110 | Ids that are already integers convert to themselves. |
| Stages.DuplicateKeyMessageNamesMid | crawler/pipelines.py:96 | The drop message is the fixed prefix followed by the `mid`, and `int()` reads the `mid` back from it. |
| PyInt.ShowIntRoundTrip | crawler/pipelines.py:96 | `int('{:d}'.format(n)) == n` for every integer. |
| PyInt.ShowIntParses | crawler/pipelines.py:96 | The rendered number is a sign and digits that parse, untrimmed, to n. |
| PyInt.PaddedRoundTrip | crawler/pipelines.py:110 | `int()` ignores ASCII whitespace around a rendered number `'{:d}'.format(n)`. |
| PyInt.RejectsNoDigits | crawler/pipelines.py:110 | Text without any digit (empty, blank or a bare sign) makes `int()` raise ValueError. |
| PyInt.RejectsTrailingJunk | crawler/pipelines.py:149 | A trailing character that is neither a digit nor whitespace makes `int()` raise ValueError. |
| PyInt.TrimLeftSpec | crawler/pipelines.py:110 | Left trimming keeps a suffix that does not start with a blank and drops only blanks. |
| PyInt.TrimRightSpec | crawler/pipelines.py:110 | Right trimming keeps a prefix that does not end with a blank and drops only blanks. |
| PyInt.ShowNatValue | crawler/pipelines.py:96 | The decimal digits of n have value n. |
| Items.DocumentRoundTrip | crawler/pipelines.py:87-88 | The stored document is the item minus `recommendations`: putting them back restores the item. |
| Items.SameDocument | crawler/pipelines.py:87-88 | Two movie items have the same document exactly when they differ at most in `recommendations`. |
| Items.DocumentOfRestored | crawler/pipelines.py:87-88 | Adding recommendations to a document and dropping them again gives the document. |
| Properties.PassThrough | crawler/pipelines.py:30-31 | An item from another spider comes back unchanged and no store changes. Lines 67-68 and 133-134 are the other two stages' pass-through. |
| Properties.MissingFieldChangesNothing | crawler/pipelines.py:70 | An item of the wrong class raises KeyError on its first field before any store changes: `item['mid']` here, `item['mids']` at line 33 and `item['aid']` at line 136. |
| Properties.SeedStepEvolves | crawler/pipelines.py:29-39 | The seed stage deletes no row, resets no `crawled` flag, changes no document and keeps the index unique. |
| Properties.MovieStepEvolves | crawler/pipelines.py:66-98 | The same invariant for the movie stage. |
| Properties.MovieParsedEvolves | crawler/pipelines.py:82-98 | The same invariant for the parsed-movie branch. |
| Properties.ActorStepEvolves | crawler/pipelines.py:132-156 | The same invariant for the actor stage. |
| Properties.OnlyNotFoundSetsType | crawler/pipelines.py:72-80 | Only a 404 changes a row's type, and only the type of its own row. No success changes a type, and no existing row disappears. |
| Properties.SeedStepKeepsTypes | crawler/pipelines.py:33-37 | The seed stage keeps every movie row and its type, and does not touch actors. |
| Properties.MovieStepKeepsTypes | crawler/pipelines.py:77-91 | The movie stage keeps every row, and keeps the types of all rows except a 404's own. |
| Properties.ActorStepKeepsTypes | crawler/pipelines.py:139-154 | The actor stage keeps every row, and keeps the types of all rows except a 404's own. |
| Properties.BrokenActorStaysBroken | crawler/pipelines.py:140 | A BROKEN actor stays BROKEN through every stage. |
| Properties.SeedStepFrame | crawler/pipelines.py:33-37 | For a seed item, or an actor item sent to the seed stage, the stage leaves actors, documents and existing movie rows alone; the rows it adds are fresh. |
| Properties.SeedStepDiscovers | crawler/pipelines.py:33-39 | When the item (a seed item, or an actor item with `mids`) is returned, every id in its `mids` has a movie row. |
| Properties.SeedStepStopsAtBadId | crawler/pipelines.py:33-35 | A seed id `int()` refuses raises ValueError, and the ids before it already have rows. |
| Properties.SeedStepIdempotent | crawler/pipelines.py:33-37 | Processing the same seed item twice equals processing it once. |
| Properties.SeedBatchScenario | crawler/pipelines.py:33-37 | The batch `[a, b, b, c]` leaves exactly the fresh rows a, b and c. |
| Properties.MovieNotFound | crawler/pipelines.py:72-80 | A logged-in 404 makes the row BROKEN and crawled; otherwise only its type becomes LOGIN. No other row changes, no row is created, and the item is returned. |
| Properties.LoginOverwritesBroken | crawler/pipelines.py:79 | The unguarded LOGIN update turns a BROKEN movie into LOGIN. |
| Properties.LoginWallThenBroken | crawler/pipelines.py:72-79 | A 404 without a session, then one with a session, gives LOGIN and then BROKEN and crawled. |
| Properties.MovieDiscoversActors | crawler/pipelines.py:82-84 | Every credited director, writer and cast member with a positive id has an actor row afterwards. |
| Properties.MovieCreatesOnlyPositiveActors | crawler/pipelines.py:101-106 | Every new actor row has a positive id and is fresh, and existing actor rows keep their value. |
| Properties.MovieDiscoversRecommendations | crawler/pipelines.py:108-115 | When every recommendation converts, each has a movie row. In every case, movie rows other than the movie's own are kept, and new rows other than its own are fresh. |
| Properties.MovieMarkedCrawled | crawler/pipelines.py:90-91 | Once the recommendations all convert, the movie's own row becomes crawled with its type kept, even when its document is a duplicate. A movie that has no row and does not recommend itself gets none. |
| Properties.MovieStored | crawler/pipelines.py:86-98 | A new `mid` stores the document and returns the item; a known `mid` is dropped with the documents unchanged; a refused recommendation raises before the update and the insert. |
| Properties.DuplicateKeepsFirstDocument | crawler/pipelines.py:93-96 | First write wins: a second result for the same `mid` is dropped, and the first document stays. |
| Properties.MovieReplay | crawler/pipelines.py:82-98 | Re-processing a movie result changes no store. When its recommendations convert, the repeat is dropped; otherwise it raises the same ValueError as the first run. |
| Properties.StoreActorsReplay | crawler/pipelines.py:100-106 | Storing the same credits twice equals storing them once. |
| Properties.CrawledReplay | crawler/pipelines.py:86-91 | Creating the same recommendations again and re-marking the movie crawled changes nothing. |
| Properties.DiscoveryClosure | crawler/pipelines.py:108-115 | A single recommendation that `int()` reads as a movie nobody knew of, other than the movie itself, gets a fresh, uncrawled NORMAL row. |
| Properties.ActorNotFound | crawler/pipelines.py:139-142 | An actor 404 makes the row BROKEN and crawled; nothing else changes, and no row is created. |
| Properties.ActorParsedRow | crawler/pipelines.py:145-146 | `crawled` is set only when the filmography is finished, the type never changes, and no other actor row changes. |
| Properties.ActorParsedDiscovers | crawler/pipelines.py:148-156 | When all film ids convert, the item is returned and every film has a movie row; existing movie rows are untouched. |
| Properties.ActorCompletionScenario | crawler/pipelines.py:145-154 | A finished actor with one unknown film ends up crawled, and the film gets a fresh row. |

## Left out

- Connections, settings and teardown (`from_crawler`, the Mongo client in `open_spider` and `close_spider`) are not modelled. Only the unique `mid` index created at line 61 is kept, as the `Valid` invariant of `Store`.
- Logging (lines 74, 114, 141 and 152) is left out. `_store_movies`' `source` argument is used only for logging, so `StoreMovies` does not take it.
- Concurrency is left out. Scrapy may run pipelines for several items at once, and two get-then-create calls in `_store_movies` can race into an IntegrityError. The model processes one item at a time.
- How Scrapy handles a returned `DropItem` is left out. The model only records that `process_item` returns it.
- The item and spider classes and HTML parsing (`crawler/items.py`, `crawler/spiders/`) are not part of this model. Items are given as values, and spiders by name.
- `crawler/intermedia.py` is not part of this model. The column defaults of a created row are taken to be NORMAL and not crawled.
- PyInt.ToInt: follows Python 3's `int()` (3.6 or later), which refuses a blank between the sign and the digits; Python 2's conversion, which skips such blanks, is not modelled. It also does not model `int()`'s acceptance of underscores between digits, of non-ASCII digits or of non-ASCII whitespace. Only ASCII whitespace, an optional sign and ASCII digits are read.
- A declared but unset Scrapy item field, which raises KeyError on access, is not modelled separately. Only an item of the wrong class for its stage raises KeyError here.
- `tests/test_fake.py` performs network I/O and is not modelled.
- Stages.SeedStep: lines 33-37 pass each raw seed id to `Movie.create(mid=mid)` with no explicit `int()`. The model assumes that the `mid` column is an integer field that converts its value with `int()` and raises ValueError on refused text, as peewee 2's `IntegerField` does. `crawler/intermedia.py`, which declares the field, is not part of this model. Under an ORM that passed unconvertible text through to the database, a refused seed id would not raise here.
- Items.ToDocument: the `_id` that the legacy `insert(data)` at line 94 adds to the stored document is not modelled. The document is the item minus `recommendations`.
