/**
  What reaches the pipeline stages: the spider that produced an item, the item
  itself (one variant per item class the spiders yield), and the document the
  movie stage stores for a successfully parsed movie.
 */
module Items {
  import opened PyInt

  /** The spiders the stages dispatch on, by name; any other spider is `OtherSpider`. */
  datatype Spider = SeedSpider | MovieSpider | MovieLoginSpider | ActorSpider | OtherSpider

  /** One `(aid, name)` pair of a movie's directors, writers or cast. */
  datatype Credit = Credit(aid: int, name: string)

  /**
    The item classes. `fields` stands for the movie's descriptive fields
    (title, rating, ...), which the stages never look at. Seed and actor ids
    and recommendations arrive as `RawId`s and are converted with `int()`.
   */
  datatype Item =
    | SeedItem(mids: seq<RawId>)
    | Movie404Item(mid: int, loggedIn: bool)
    | MovieItem(mid: int, directors: seq<Credit>, writers: seq<Credit>, casts: seq<Credit>,
                recommendations: seq<RawId>, fields: map<string, string>)
    | Actor404Item(aid: int)
    | ActorItem(aid: int, finished: bool, mids: seq<RawId>)

  /** The stored form of a movie: the item as a dictionary, minus `recommendations`. */
  datatype MovieDoc =
    MovieDoc(mid: int, directors: seq<Credit>, writers: seq<Credit>, casts: seq<Credit>,
             fields: map<string, string>)

  /** `data = dict(item); data.pop('recommendations')`. */
  function ToDocument(item: Item): (d: MovieDoc)
    requires item.MovieItem?
    ensures d.mid == item.mid
  {
    MovieDoc(item.mid, item.directors, item.writers, item.casts, item.fields)
  }

  /** The inverse of `ToDocument`: puts a recommendation list back. */
  function WithRecommendations(d: MovieDoc, recommendations: seq<RawId>): (item: Item)
    ensures item.MovieItem? && item.recommendations == recommendations
  {
    MovieItem(d.mid, d.directors, d.writers, d.casts, recommendations, d.fields)
  }

  /** The document loses exactly the recommendations: nothing else of the item. */
  lemma DocumentRoundTrip(item: Item)
    requires item.MovieItem?
    ensures WithRecommendations(ToDocument(item), item.recommendations) == item
  {
  }

  lemma DocumentOfRestored(d: MovieDoc, recommendations: seq<RawId>)
    ensures ToDocument(WithRecommendations(d, recommendations)) == d
  {
  }

  /** Two movie items have the same document exactly when they differ at most in their recommendations. */
  lemma SameDocument(a: Item, b: Item)
    requires a.MovieItem? && b.MovieItem?
    ensures ToDocument(a) == ToDocument(b) <==> a == b.(recommendations := a.recommendations)
  {
  }
}
