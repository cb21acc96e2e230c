/**
  What the pipeline stages guarantee, stated over the reference step
  functions of module Stages (which the imperative stages are proved to
  follow): pass-through, insert-if-absent discovery, the lifecycle
  transitions, first-write-wins for documents, and the invariants every stage
  keeps.
 */
module Properties {
  import opened Wrappers
  import opened PyInt
  import opened Lifecycle
  import opened Items
  import opened Stages

  predicate IsMovieSpider(spider: Spider) {
    spider == MovieSpider || spider == MovieLoginSpider
  }

  // ---------------------------------------------------------------- dispatch

  /** An item from a spider a stage is not for comes back unchanged, and no store changes. */
  lemma PassThrough(s: State, item: Item, spider: Spider)
    ensures spider != SeedSpider ==> SeedStep(s, item, spider) == Step(s, Returned(item))
    ensures !IsMovieSpider(spider) ==> MovieStep(s, item, spider) == Step(s, Returned(item))
    ensures spider != ActorSpider ==> ActorStep(s, item, spider) == Step(s, Returned(item))
  {
  }

  /** An item of the wrong class for its spider fails on its first field, before any store changes. */
  lemma MissingFieldChangesNothing(s: State, item: Item)
    ensures !(item.SeedItem? || item.ActorItem?) ==>
              SeedStep(s, item, SeedSpider) == Step(s, Raised(KeyError("mids")))
    ensures !(item.Movie404Item? || item.MovieItem?) ==>
              MovieStep(s, item, MovieSpider) == Step(s, Raised(KeyError("mid")))
    ensures !(item.Actor404Item? || item.ActorItem?) ==>
              ActorStep(s, item, ActorSpider) == Step(s, Raised(KeyError("aid")))
  {
  }

  // ---------------------------------------------------------- every stage

  /** No stage deletes a row, resets `crawled`, or changes a stored document, and the `mid` index stays unique. */
  lemma SeedStepEvolves(s: State, item: Item, spider: Spider)
    requires DocsKeyed(s.docs)
    ensures Evolves(s, SeedStep(s, item, spider).state)
    ensures DocsKeyed(SeedStep(s, item, spider).state.docs)
  {
    if item.SeedItem? || item.ActorItem? {
      InsertAllGrows(s.movies, Convert(item.mids).ok);
    }
  }

  lemma MovieStepEvolves(s: State, item: Item, spider: Spider)
    requires DocsKeyed(s.docs)
    ensures Evolves(s, MovieStep(s, item, spider).state)
    ensures DocsKeyed(MovieStep(s, item, spider).state.docs)
  {
    if IsMovieSpider(spider) && item.MovieItem? {
      MovieParsedEvolves(s, item, spider);
    } else if IsMovieSpider(spider) && item.Movie404Item? {
      UpdateFrame(s.movies, item.mid, Some(Broken), Some(true));
      UpdateFrame(s.movies, item.mid, Some(Login), None);
    }
  }

  lemma MovieParsedEvolves(s: State, item: Item, spider: Spider)
    requires DocsKeyed(s.docs)
    requires IsMovieSpider(spider) && item.MovieItem?
    ensures Evolves(s, MovieStep(s, item, spider).state)
    ensures DocsKeyed(MovieStep(s, item, spider).state.docs)
  {
    StoreActorsOfAll(s.actors, item);
    InsertAllGrows(s.actors, CreditedAids(item));
    var d := InsertAll(s.movies, Convert(item.recommendations).ok);
    InsertAllGrows(s.movies, Convert(item.recommendations).ok);
    UpdateFrame(d, item.mid, None, Some(true));
  }

  lemma ActorStepEvolves(s: State, item: Item, spider: Spider)
    requires DocsKeyed(s.docs)
    ensures Evolves(s, ActorStep(s, item, spider).state)
    ensures DocsKeyed(ActorStep(s, item, spider).state.docs)
  {
    if spider == ActorSpider && (item.Actor404Item? || item.ActorItem?) {
      UpdateFrame(s.actors, item.aid, Some(Broken), Some(true));
      UpdateFrame(s.actors, item.aid, None, Some(true));
    }
    if item.ActorItem? {
      InsertAllGrows(s.movies, Convert(item.mids).ok);
    }
  }

  /**
    A success never changes a `type`: only a 404 does, and only on its own
    row. So a movie once marked LOGIN or BROKEN keeps that mark after a later
    successful crawl.
   */
  lemma OnlyNotFoundSetsType(s: State, item: Item, spider: Spider)
    ensures forall k | k in s.movies ::
              && k in SeedStep(s, item, spider).state.movies
              && k in ActorStep(s, item, spider).state.movies
              && k in MovieStep(s, item, spider).state.movies
              && SeedStep(s, item, spider).state.movies[k].ty == s.movies[k].ty
              && ActorStep(s, item, spider).state.movies[k].ty == s.movies[k].ty
              && (!(item.Movie404Item? && item.mid == k) ==> MovieStep(s, item, spider).state.movies[k].ty == s.movies[k].ty)
    ensures forall k | k in s.actors ::
              && k in SeedStep(s, item, spider).state.actors
              && k in ActorStep(s, item, spider).state.actors
              && k in MovieStep(s, item, spider).state.actors
              && SeedStep(s, item, spider).state.actors[k].ty == s.actors[k].ty
              && MovieStep(s, item, spider).state.actors[k].ty == s.actors[k].ty
              && (!(item.Actor404Item? && item.aid == k) ==> ActorStep(s, item, spider).state.actors[k].ty == s.actors[k].ty)
  {
    SeedStepKeepsTypes(s, item, spider);
    MovieStepKeepsTypes(s, item, spider);
    ActorStepKeepsTypes(s, item, spider);
  }

  lemma SeedStepKeepsTypes(s: State, item: Item, spider: Spider)
    ensures var t := SeedStep(s, item, spider).state;
            && (forall k | k in s.movies :: k in t.movies && t.movies[k].ty == s.movies[k].ty)
            && t.actors == s.actors
  {
    if item.SeedItem? || item.ActorItem? {
      InsertAllSpec(s.movies, Convert(item.mids).ok);
    }
  }

  lemma MovieStepKeepsTypes(s: State, item: Item, spider: Spider)
    ensures var t := MovieStep(s, item, spider).state;
            && (forall k | k in s.movies :: k in t.movies)
            && (forall k | k in s.movies && !(item.Movie404Item? && item.mid == k) :: t.movies[k].ty == s.movies[k].ty)
            && (forall k | k in s.actors :: k in t.actors && t.actors[k].ty == s.actors[k].ty)
  {
    if item.MovieItem? {
      var d := InsertAll(s.movies, Convert(item.recommendations).ok);
      InsertAllSpec(s.movies, Convert(item.recommendations).ok);
      UpdateFrame(d, item.mid, None, Some(true));
      StoreActorsOfAll(s.actors, item);
      InsertAllSpec(s.actors, CreditedAids(item));
    } else if item.Movie404Item? {
      UpdateFrame(s.movies, item.mid, Some(Broken), Some(true));
      UpdateFrame(s.movies, item.mid, Some(Login), None);
    }
  }

  lemma ActorStepKeepsTypes(s: State, item: Item, spider: Spider)
    ensures var t := ActorStep(s, item, spider).state;
            && (forall k | k in s.movies :: k in t.movies && t.movies[k].ty == s.movies[k].ty)
            && (forall k | k in s.actors :: k in t.actors)
            && (forall k | k in s.actors && !(item.Actor404Item? && item.aid == k) :: t.actors[k].ty == s.actors[k].ty)
  {
    if item.ActorItem? {
      InsertAllSpec(s.movies, Convert(item.mids).ok);
      UpdateFrame(s.actors, item.aid, None, Some(true));
    } else if item.Actor404Item? {
      UpdateFrame(s.actors, item.aid, Some(Broken), Some(true));
    }
  }

  /** BROKEN is terminal for actors: no stage ever changes a broken actor's row type. */
  lemma BrokenActorStaysBroken(s: State, item: Item, spider: Spider, aid: int)
    requires aid in s.actors && s.actors[aid].ty == Broken
    ensures SeedStep(s, item, spider).state.actors[aid].ty == Broken
    ensures aid in MovieStep(s, item, spider).state.actors && MovieStep(s, item, spider).state.actors[aid].ty == Broken
    ensures ActorStep(s, item, spider).state.actors[aid].ty == Broken
  {
    SeedStepKeepsTypes(s, item, spider);
    MovieStepKeepsTypes(s, item, spider);
    ActorStepKeepsTypes(s, item, spider);
  }

  // ---------------------------------------------------------------- seeds

  /** The seed stage leaves the actor table, the documents and every existing movie row alone; new rows are fresh. */
  lemma SeedStepFrame(s: State, item: Item)
    requires item.SeedItem? || item.ActorItem?
    ensures var t := SeedStep(s, item, SeedSpider).state;
            && t.actors == s.actors && t.docs == s.docs
            && (forall k | k in s.movies :: k in t.movies && t.movies[k] == s.movies[k])
            && (forall k | k in t.movies && k !in s.movies :: t.movies[k] == Fresh)
  {
    InsertAllSpec(s.movies, Convert(item.mids).ok);
  }

  /** When the seed stage returns the item, every seed id converted and has a movie row. */
  lemma SeedStepDiscovers(s: State, item: Item)
    requires item.SeedItem? || item.ActorItem?
    ensures var t := SeedStep(s, item, SeedSpider);
            t.out == Returned(item) ==>
              forall i | 0 <= i < |item.mids| :: ToInt(item.mids[i]).Some? && ToInt(item.mids[i]).value in t.state.movies
  {
    if Convert(item.mids).failed.None? {
      InsertConvertedHasAll(s.movies, item.mids);
    }
  }

  /** A seed id `int()` refuses stops the batch there: the ids before it have rows, and the exception escapes. */
  lemma SeedStepStopsAtBadId(s: State, item: Item, i: nat)
    requires (item.SeedItem? || item.ActorItem?) && i < |item.mids|
    requires forall j | 0 <= j < i :: ToInt(item.mids[j]).Some?
    requires ToInt(item.mids[i]).None?
    ensures SeedStep(s, item, SeedSpider).out == Raised(ValueError(item.mids[i]))
    ensures forall j | 0 <= j < i :: ToInt(item.mids[j]).value in SeedStep(s, item, SeedSpider).state.movies
  {
    var c := Convert(item.mids);
    ConvertFirstFailure(item.mids, i);
    InsertAllSpec(s.movies, c.ok);
    forall j | 0 <= j < i
      ensures ToInt(item.mids[j]).value in SeedStep(s, item, SeedSpider).state.movies
    {
      assert c.ok[j] in c.ok;
    }
  }

  /** Processing the same seed batch twice is the same as processing it once. */
  lemma SeedStepIdempotent(s: State, item: Item, spider: Spider)
    ensures SeedStep(SeedStep(s, item, spider).state, item, spider) == SeedStep(s, item, spider)
  {
    if spider == SeedSpider && (item.SeedItem? || item.ActorItem?) {
      InsertAllIdempotent(s.movies, Convert(item.mids).ok);
    }
  }

  /**
    A seed batch with a repeated id, `[a, b, b, c]` for three distinct ids,
    raises nothing and leaves exactly the rows a, b and c, all fresh.
   */
  lemma SeedBatchScenario(a: int, b: int, c: int)
    requires a != b && b != c && a != c
    ensures var t := SeedStep(Empty, SeedItem([IntVal(a), IntVal(b), IntVal(b), IntVal(c)]), SeedSpider);
            t.out.Returned? && t.state == State(map[a := Fresh, b := Fresh, c := Fresh], map[], map[])
  {
    var raws := [IntVal(a), IntVal(b), IntVal(b), IntVal(c)];
    ConvertIntVals(raws);
    var ok := Convert(raws).ok;
    assert ok == [a, b, b, c];
    assert InsertAll(map[], [a]) == map[a := Fresh] by {
      assert [a][..0] == [];
    }
    InsertAllSnoc(map[], [a], b);
    InsertAllSnoc(map[], [a, b], b);
    InsertAllSnoc(map[], [a, b, b], c);
    assert [a] + [b] == [a, b] && [a, b] + [b] == [a, b, b] && [a, b, b] + [c] == ok;
  }

  // ---------------------------------------------------------------- movies

  /**
    A movie 404: logged in, the row becomes BROKEN and crawled; not logged in,
    only its type becomes LOGIN, whatever it was. No other row changes, no row
    is created, the documents are untouched and the item is returned.
   */
  lemma MovieNotFound(s: State, mid: int, loggedIn: bool, spider: Spider)
    requires IsMovieSpider(spider)
    ensures var t := MovieStep(s, Movie404Item(mid, loggedIn), spider);
            && t.out == Returned(Movie404Item(mid, loggedIn))
            && t.state.docs == s.docs && t.state.actors == s.actors
            && t.state.movies.Keys == s.movies.Keys
            && (forall k | k in s.movies && k != mid :: t.state.movies[k] == s.movies[k])
            && (mid in s.movies ==>
                  t.state.movies[mid] == if loggedIn then Row(Broken, true) else Row(Login, s.movies[mid].crawled))
  {
    UpdateFrame(s.movies, mid, Some(Broken), Some(true));
    UpdateFrame(s.movies, mid, Some(Login), None);
  }

  /**
    The unguarded LOGIN update can take a movie out of BROKEN: a broken movie
    that a spider without a session reports as 404 again becomes LOGIN.
   */
  lemma LoginOverwritesBroken()
    ensures var s := State(map[5 := Row(Broken, true)], map[], map[]);
            MovieStep(s, Movie404Item(5, false), MovieSpider).state.movies[5] == Row(Login, true)
  {
  }

  /** A 404 without a session, then one with a session: LOGIN, then BROKEN and crawled. */
  lemma LoginWallThenBroken()
    ensures var s0 := State(map[5 := Fresh], map[], map[]);
            var s1 := MovieStep(s0, Movie404Item(5, false), MovieSpider).state;
            var s2 := MovieStep(s1, Movie404Item(5, true), MovieLoginSpider).state;
            s1.movies[5] == Row(Login, false) && s2.movies[5] == Row(Broken, true)
  {
  }

  /**
    A parsed movie grows the actor frontier: every director, writer and cast
    member with a positive id has an actor row afterwards.
   */
  lemma MovieDiscoversActors(s: State, item: Item, spider: Spider)
    requires IsMovieSpider(spider) && item.MovieItem?
    ensures var t := MovieStep(s, item, spider).state;
            forall c | (c in item.directors || c in item.writers || c in item.casts) && c.aid > 0 :: c.aid in t.actors
  {
    StoreActorsOfAll(s.actors, item);
    var ids := CreditedAids(item);
    InsertAllSpec(s.actors, ids);
    PositiveAidsSpec(item.directors);
    PositiveAidsSpec(item.writers);
    PositiveAidsSpec(item.casts);
    forall c | (c in item.directors || c in item.writers || c in item.casts) && c.aid > 0
      ensures c.aid in MovieStep(s, item, spider).state.actors
    {
      assert c.aid in ids;
    }
  }

  /**
    Credits with an id of 0 or less are skipped: every actor row the movie
    stage creates has a positive id and is fresh, and the rows that existed
    keep their value.
   */
  lemma MovieCreatesOnlyPositiveActors(s: State, item: Item, spider: Spider)
    requires IsMovieSpider(spider) && item.MovieItem?
    ensures var t := MovieStep(s, item, spider).state;
            && (forall k | k in t.actors && k !in s.actors :: k > 0 && t.actors[k] == Fresh)
            && (forall k | k in s.actors :: k in t.actors && t.actors[k] == s.actors[k])
  {
    StoreActorsOfAll(s.actors, item);
    var ids := CreditedAids(item);
    var a := InsertAll(s.actors, ids);
    InsertAllSpec(s.actors, ids);
    PositiveAidsSpec(item.directors);
    PositiveAidsSpec(item.writers);
    PositiveAidsSpec(item.casts);
    forall k | k in a && k !in s.actors
      ensures k > 0
    {
      assert k in s.actors || k in ids;
      assert k in ids;
    }
  }

  /**
    When the recommendations all convert, every recommended id has a movie
    row; every other movie row is as it was, and every new one is fresh.
   */
  lemma MovieDiscoversRecommendations(s: State, item: Item, spider: Spider)
    requires IsMovieSpider(spider) && item.MovieItem?
    ensures var t := MovieStep(s, item, spider).state; var recs := item.recommendations;
            && (Convert(recs).failed.None? ==>
                  forall i | 0 <= i < |recs| :: ToInt(recs[i]).Some? && ToInt(recs[i]).value in t.movies)
            && (forall k | k in s.movies && k != item.mid :: k in t.movies && t.movies[k] == s.movies[k])
            && (forall k | k in t.movies && k !in s.movies && k != item.mid :: t.movies[k] == Fresh)
  {
    var c := Convert(item.recommendations);
    var d := InsertAll(s.movies, c.ok);
    UpdateFrame(d, item.mid, None, Some(true));
    InsertAllSpec(s.movies, c.ok);
    if c.failed.None? {
      InsertConvertedHasAll(s.movies, item.recommendations);
    }
  }

  /**
    Once the recommendations convert, the movie's own row is marked crawled with
    its type left alone, whether or not its document turns out to be a
    duplicate; a movie without a row still gets none from that update.
   */
  lemma MovieMarkedCrawled(s: State, item: Item, spider: Spider)
    requires IsMovieSpider(spider) && item.MovieItem?
    requires Convert(item.recommendations).failed.None?
    ensures var t := MovieStep(s, item, spider).state;
            && (item.mid in s.movies ==> item.mid in t.movies && t.movies[item.mid] == Row(s.movies[item.mid].ty, true))
            && (item.mid !in s.movies && item.mid !in Convert(item.recommendations).ok ==> item.mid !in t.movies)
  {
    InsertAllSpec(s.movies, Convert(item.recommendations).ok);
  }

  /**
    Storing the document: with none yet for the `mid`, the item minus its
    recommendations is stored and the item returned; with one already there,
    it stays as it was and the result is the duplicate-key drop naming the
    `mid`. A recommendation `int()` refuses stops the stage before both the
    `crawled` update and the insert.
   */
  lemma MovieStored(s: State, item: Item, spider: Spider)
    requires IsMovieSpider(spider) && item.MovieItem?
    ensures var t := MovieStep(s, item, spider); var c := Convert(item.recommendations);
            && (c.failed.Some? ==>
                  && t.out == Raised(ValueError(c.failed.value))
                  && t.state.docs == s.docs
                  && t.state.movies == InsertAll(s.movies, c.ok))
            && (c.failed.None? && item.mid !in s.docs ==>
                  t.out == Returned(item) && t.state.docs == s.docs[item.mid := ToDocument(item)])
            && (c.failed.None? && item.mid in s.docs ==>
                  t.out == Dropped(DuplicateKeyMessage(item.mid)) && t.state.docs == s.docs)
  {
  }

  /**
    First write wins: after one movie result is stored, a second result for
    the same `mid` (whatever its content) is dropped and the stored document
    stays the first one's.
   */
  lemma DuplicateKeepsFirstDocument(s: State, a: Item, b: Item, spider: Spider, spider': Spider)
    requires IsMovieSpider(spider) && IsMovieSpider(spider')
    requires a.MovieItem? && b.MovieItem? && a.mid == b.mid && a.mid !in s.docs
    requires Convert(a.recommendations).failed.None? && Convert(b.recommendations).failed.None?
    ensures var t1 := MovieStep(s, a, spider);
            var t2 := MovieStep(t1.state, b, spider');
            && t1.out == Returned(a)
            && t2.out == Dropped(DuplicateKeyMessage(a.mid))
            && t2.state.docs == t1.state.docs
            && t2.state.docs[a.mid] == ToDocument(a)
  {
  }

  /** Re-processing a movie result changes nothing more; if it converts, the repeat is dropped. */
  lemma MovieReplay(s: State, item: Item, spider: Spider)
    requires IsMovieSpider(spider) && item.MovieItem?
    ensures var t1 := MovieStep(s, item, spider);
            var t2 := MovieStep(t1.state, item, spider);
            && t2.state == t1.state
            && (Convert(item.recommendations).failed.None? ==> t2.out == Dropped(DuplicateKeyMessage(item.mid)))
            && (Convert(item.recommendations).failed.Some? ==> t2.out == t1.out)
  {
    StoreActorsReplay(s.actors, item);
    var c := Convert(item.recommendations);
    InsertAllIdempotent(s.movies, c.ok);
    if c.failed.None? {
      CrawledReplay(s.movies, c.ok, item.mid);
    }
  }

  lemma StoreActorsReplay(actors: Table, item: Item)
    requires item.MovieItem?
    ensures StoreActorsOf(StoreActorsOf(actors, item), item) == StoreActorsOf(actors, item)
  {
    StoreActorsOfAll(actors, item);
    StoreActorsOfAll(StoreActorsOf(actors, item), item);
    InsertAllIdempotent(actors, CreditedAids(item));
  }

  /** Creating the same recommendations and marking the same movie crawled a second time changes nothing. */
  lemma CrawledReplay(movies: Table, ids: seq<int>, mid: int)
    ensures var m := Update(InsertAll(movies, ids), mid, None, Some(true));
            InsertAll(m, ids) == m && Update(m, mid, None, Some(true)) == m
  {
    var d := InsertAll(movies, ids);
    var m := Update(d, mid, None, Some(true));
    InsertAllSpec(movies, ids);
    UpdateFrame(d, mid, None, Some(true));
    forall i | 0 <= i < |ids| ensures ids[i] in m {
      var k := ids[i];
      assert k in movies || k in ids;
    }
    InsertAllPresent(m, ids);
  }

  /**
    Discovery closure: a movie result recommending a movie nobody knew of (by
    any id `int()` reads as that movie's, such as the decimal text
    `ShowInt(b)`, by ShowIntRoundTrip) leaves a fresh, uncrawled NORMAL row
    for it.
   */
  lemma DiscoveryClosure(s: State, item: Item, spider: Spider, b: int)
    requires IsMovieSpider(spider) && item.MovieItem?
    requires |item.recommendations| == 1 && ToInt(item.recommendations[0]) == Some(b)
    requires b !in s.movies && b != item.mid
    ensures b in MovieStep(s, item, spider).state.movies && MovieStep(s, item, spider).state.movies[b] == Fresh
  {
    ConvertSpec(item.recommendations);
    MovieDiscoversRecommendations(s, item, spider);
    assert ToInt(item.recommendations[0]).value in MovieStep(s, item, spider).state.movies;
  }

  // ---------------------------------------------------------------- actors

  /** An actor 404 marks the actor BROKEN and crawled, touching no other row and creating none. */
  lemma ActorNotFound(s: State, aid: int)
    ensures var t := ActorStep(s, Actor404Item(aid), ActorSpider);
            && t.out == Returned(Actor404Item(aid))
            && t.state.movies == s.movies && t.state.docs == s.docs
            && t.state.actors.Keys == s.actors.Keys
            && (forall k | k in s.actors && k != aid :: t.state.actors[k] == s.actors[k])
            && (aid in s.actors ==> t.state.actors[aid] == Row(Broken, true))
  {
    UpdateFrame(s.actors, aid, Some(Broken), Some(true));
  }

  /**
    A parsed actor: `crawled` is set only when the filmography is finished and
    is otherwise left as it was, its type never changes, no other actor row
    changes and none is created.
   */
  lemma ActorParsedRow(s: State, aid: int, finished: bool, mids: seq<RawId>)
    ensures var t := ActorStep(s, ActorItem(aid, finished, mids), ActorSpider).state;
            && t.docs == s.docs
            && t.actors.Keys == s.actors.Keys
            && (forall k | k in s.actors && k != aid :: t.actors[k] == s.actors[k])
            && (aid in s.actors ==> t.actors[aid] == Row(s.actors[aid].ty, finished || s.actors[aid].crawled))
  {
    UpdateFrame(s.actors, aid, None, Some(true));
  }

  /**
    Whether finished or not, when every film id converts the item is returned
    and every film has a movie row; movie rows that existed are untouched.
   */
  lemma ActorParsedDiscovers(s: State, aid: int, finished: bool, mids: seq<RawId>)
    ensures var t := ActorStep(s, ActorItem(aid, finished, mids), ActorSpider);
            && (Convert(mids).failed.None? ==>
                  && t.out == Returned(ActorItem(aid, finished, mids))
                  && forall i | 0 <= i < |mids| :: ToInt(mids[i]).Some? && ToInt(mids[i]).value in t.state.movies)
            && (forall k | k in s.movies :: k in t.state.movies && t.state.movies[k] == s.movies[k])
  {
    InsertAllSpec(s.movies, Convert(mids).ok);
    if Convert(mids).failed.None? {
      InsertConvertedHasAll(s.movies, mids);
    }
  }

  /** A finished actor with one unknown film: the actor is crawled and the film has a fresh row. */
  lemma ActorCompletionScenario()
    ensures var s := State(map[], map[7 := Fresh], map[]);
            var t := ActorStep(s, ActorItem(7, true, [IntVal(10)]), ActorSpider).state;
            t.actors[7] == Row(Normal, true) && t.movies == map[10 := Fresh]
  {
    assert Convert([IntVal(10)]) == Conversion([10], None) by {
      assert [IntVal(10)][..0] == [];
    }
    assert InsertAll(map[], [10]) == map[10 := Fresh] by {
      assert [10][..0] == [];
    }
  }
}
