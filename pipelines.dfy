/**
  The three Scrapy item pipelines and the stores they write. `Store` holds the
  movie and actor tables and the movie document collection and offers the
  operations the pipelines use (`create`, `get`, `update(...).where(...)`,
  `insert` under the unique index on `mid`). Each pipeline's `ProcessItem`
  changes the store in place, one row operation at a time, and is proved to do
  what the matching function of module Stages says.
 */
module Pipelines {
  import opened Wrappers
  import opened PyInt
  import opened Lifecycle
  import opened Items
  import opened Stages

  class Store {
    var movies: Table
    var actors: Table
    var docs: map<int, MovieDoc>

    /** The unique index on `mid` holds. */
    ghost predicate Valid()
      reads this
    {
      DocsKeyed(docs)
    }

    function Contents(): State
      reads this
    {
      State(movies, actors, docs)
    }

    /** Empty tables and an empty collection. */
    constructor ()
      ensures Valid() && Contents() == Empty
    {
      movies, actors, docs := map[], map[], map[];
    }

    /** `Movie.create(mid=mid)`; the unique key turns a second create into `AlreadyExists`. */
    method CreateMovie(mid: int) returns (r: Created)
      modifies this
      ensures r == if mid in old(movies) then AlreadyExists else Inserted
      ensures movies == Insert(old(movies), mid)
      ensures actors == old(actors) && docs == old(docs)
    {
      if mid in movies {
        r := AlreadyExists;
      } else {
        movies := movies[mid := Fresh];
        r := Inserted;
      }
    }

    /** `Actor.create(aid=aid)`. */
    method CreateActor(aid: int) returns (r: Created)
      modifies this
      ensures r == if aid in old(actors) then AlreadyExists else Inserted
      ensures actors == Insert(old(actors), aid)
      ensures movies == old(movies) && docs == old(docs)
    {
      if aid in actors {
        r := AlreadyExists;
      } else {
        actors := actors[aid := Fresh];
        r := Inserted;
      }
    }

    /** Whether `Movie.get(Movie.mid == mid)` finds a row (false is its DoesNotExist). */
    function HasMovie(mid: int): bool
      reads this
    {
      mid in movies
    }

    /** `Movie.update(...).where(Movie.mid == mid)`. */
    method UpdateMovie(mid: int, ty: Option<EntityType>, crawled: Option<bool>)
      modifies this
      ensures movies == Update(old(movies), mid, ty, crawled)
      ensures actors == old(actors) && docs == old(docs)
    {
      if mid in movies {
        var row := movies[mid];
        movies := movies[mid := Row(if ty.Some? then ty.value else row.ty,
                                    if crawled.Some? then crawled.value else row.crawled)];
      }
    }

    /** `Actor.update(...).where(Actor.aid == aid)`. */
    method UpdateActor(aid: int, ty: Option<EntityType>, crawled: Option<bool>)
      modifies this
      ensures actors == Update(old(actors), aid, ty, crawled)
      ensures movies == old(movies) && docs == old(docs)
    {
      if aid in actors {
        var row := actors[aid];
        actors := actors[aid := Row(if ty.Some? then ty.value else row.ty,
                                    if crawled.Some? then crawled.value else row.crawled)];
      }
    }

    /**
      `db.movie.insert(doc)` under the unique index on `mid`: a second document
      for a `mid` is refused (DuplicateKeyError) and the first one stays.
     */
    method InsertDoc(doc: MovieDoc) returns (r: Created)
      requires Valid()
      modifies this
      ensures Valid()
      ensures r == if doc.mid in old(docs) then AlreadyExists else Inserted
      ensures docs == if doc.mid in old(docs) then old(docs) else old(docs)[doc.mid := doc]
      ensures movies == old(movies) && actors == old(actors)
    {
      if doc.mid in docs {
        r := AlreadyExists;
      } else {
        docs := docs[doc.mid := doc];
        r := Inserted;
      }
    }
  }

  class SeedPipeline {
    const db: Store

    constructor (db: Store)
      ensures this.db == db
    {
      this.db := db;
    }

    /** Creates a movie row for every seed id that has none. */
    method ProcessItem(item: Item, spider: Spider) returns (r: Outcome)
      requires db.Valid()
      modifies db
      ensures db.Valid()
      ensures db.Contents() == SeedStep(old(db.Contents()), item, spider).state
      ensures r == SeedStep(old(db.Contents()), item, spider).out
    {
      if spider != SeedSpider {
        return Returned(item);
      }
      if !(item.SeedItem? || item.ActorItem?) {
        return Raised(KeyError("mids"));
      }
      var mids := item.mids;
      var i := 0;
      while i < |mids|
        invariant 0 <= i <= |mids|
        invariant Convert(mids[..i]).failed.None?
        invariant db.movies == InsertAll(old(db.movies), Convert(mids[..i]).ok)
        invariant db.actors == old(db.actors) && db.docs == old(db.docs)
      {
        var mid := ToInt(mids[i]);
        if mid.None? {
          ConvertStops(mids, i);
          return Raised(ValueError(mids[i]));
        }
        var _ := db.CreateMovie(mid.value);
        InsertConvertedNext(old(db.movies), mids, i);
        i := i + 1;
      }
      assert mids[..i] == mids;
      return Returned(item);
    }
  }

  class MoviePipeline {
    const db: Store

    constructor (db: Store)
      ensures this.db == db
    {
      this.db := db;
    }

    /**
      A 404 sets the movie's type (and, when logged in, `crawled`); a parsed
      movie has its actors and recommendations created, is marked crawled, and
      has its document stored unless one is already there.
     */
    method ProcessItem(item: Item, spider: Spider) returns (r: Outcome)
      requires db.Valid()
      modifies db
      ensures db.Valid()
      ensures db.Contents() == MovieStep(old(db.Contents()), item, spider).state
      ensures r == MovieStep(old(db.Contents()), item, spider).out
    {
      if spider != MovieSpider && spider != MovieLoginSpider {
        return Returned(item);
      }
      if !(item.Movie404Item? || item.MovieItem?) {
        return Raised(KeyError("mid"));
      }
      var mid := item.mid;
      if item.Movie404Item? {
        if item.loggedIn {
          db.UpdateMovie(mid, Some(Broken), Some(true));
        } else {
          db.UpdateMovie(mid, Some(Login), None);
        }
        return Returned(item);
      }
      StoreActors(item.directors);
      StoreActors(item.writers);
      StoreActors(item.casts);
      var failed := StoreMovies(item.recommendations);
      if failed.Some? {
        return Raised(ValueError(failed.value));
      }
      var data := ToDocument(item);
      db.UpdateMovie(mid, None, Some(true));
      var stored := db.InsertDoc(data);
      if stored == AlreadyExists {
        return Dropped(DuplicateKeyMessage(mid));
      }
      return Returned(item);
    }

    /** `_store_actors`: an actor row for every credit with a positive id. */
    method StoreActors(credits: seq<Credit>)
      modifies db
      ensures db.actors == InsertAll(old(db.actors), PositiveAids(credits))
      ensures db.movies == old(db.movies) && db.docs == old(db.docs)
    {
      var i := 0;
      while i < |credits|
        invariant 0 <= i <= |credits|
        invariant db.actors == InsertAll(old(db.actors), PositiveAids(credits[..i]))
        invariant db.movies == old(db.movies) && db.docs == old(db.docs)
      {
        var aid := credits[i].aid;
        assert credits[..i + 1][..i] == credits[..i];
        if aid > 0 {
          var _ := db.CreateActor(aid);
          InsertAllSnoc(old(db.actors), PositiveAids(credits[..i]), aid);
        } else {
          assert PositiveAids(credits[..i + 1]) == PositiveAids(credits[..i]);
        }
        i := i + 1;
      }
      assert credits[..i] == credits;
    }

    /**
      `_store_movies`: looks each recommended id up after `int()` and creates
      the rows that are missing; returns the id `int()` refused, if any.
     */
    method StoreMovies(movies: seq<RawId>) returns (failed: Option<RawId>)
      modifies db
      ensures failed == Convert(movies).failed
      ensures db.movies == InsertAll(old(db.movies), Convert(movies).ok)
      ensures db.actors == old(db.actors) && db.docs == old(db.docs)
    {
      var i := 0;
      while i < |movies|
        invariant 0 <= i <= |movies|
        invariant Convert(movies[..i]).failed.None?
        invariant db.movies == InsertAll(old(db.movies), Convert(movies[..i]).ok)
        invariant db.actors == old(db.actors) && db.docs == old(db.docs)
      {
        var mid := ToInt(movies[i]);
        if mid.None? {
          ConvertStops(movies, i);
          return Some(movies[i]);
        }
        if !db.HasMovie(mid.value) {
          var _ := db.CreateMovie(mid.value);
        }
        InsertConvertedNext(old(db.movies), movies, i);
        i := i + 1;
      }
      assert movies[..i] == movies;
      return None;
    }
  }

  class ActorPipeline {
    const db: Store

    constructor (db: Store)
      ensures this.db == db
    {
      this.db := db;
    }

    /**
      A 404 marks the actor broken and crawled; a parsed actor is marked
      crawled when its filmography is finished, and every film it lists gets
      a movie row.
     */
    method ProcessItem(item: Item, spider: Spider) returns (r: Outcome)
      requires db.Valid()
      modifies db
      ensures db.Valid()
      ensures db.Contents() == ActorStep(old(db.Contents()), item, spider).state
      ensures r == ActorStep(old(db.Contents()), item, spider).out
    {
      if spider != ActorSpider {
        return Returned(item);
      }
      if !(item.Actor404Item? || item.ActorItem?) {
        return Raised(KeyError("aid"));
      }
      var aid := item.aid;
      if item.Actor404Item? {
        db.UpdateActor(aid, Some(Broken), Some(true));
        return Returned(item);
      }
      if item.finished {
        db.UpdateActor(aid, None, Some(true));
      }
      var mids := item.mids;
      var i := 0;
      while i < |mids|
        invariant 0 <= i <= |mids|
        invariant Convert(mids[..i]).failed.None?
        invariant db.movies == InsertAll(old(db.movies), Convert(mids[..i]).ok)
        invariant db.actors == (if item.finished then Update(old(db.actors), aid, None, Some(true))
                                else old(db.actors))
        invariant db.docs == old(db.docs)
      {
        var mid := ToInt(mids[i]);
        if mid.None? {
          ConvertStops(mids, i);
          return Raised(ValueError(mids[i]));
        }
        var _ := db.CreateMovie(mid.value);
        InsertConvertedNext(old(db.movies), mids, i);
        i := i + 1;
      }
      assert mids[..i] == mids;
      return Returned(item);
    }
  }
}
