/** The shapes of a movie row and of the two response bodies. The field names
    are those of the row and of the response schemas. */
module MovieSchemas {

  import opened Responses

  /** A calendar date, passed through as it is stored. */
  datatype Date = Date(year: int, month: int, day: int)

  /** A floating-point value, kept as its IEEE 754 double bit pattern: the
      model never computes with it, only copies it. */
  datatype Float = Float(bits: bv64)

  /** One stored movie row. */
  datatype MovieModel = MovieModel(
    id: int,
    name: string,
    date: Date,
    score: Float,
    genre: string,
    overview: string,
    crew: string,
    origTitle: string,
    status: string,
    origLang: string,
    budget: Float,
    revenue: Float,
    country: string)

  /** The body of the detail endpoint, and one element of a list body. */
  datatype MovieDetail = MovieDetail(
    id: int,
    name: string,
    date: Date,
    score: Float,
    genre: string,
    overview: string,
    crew: string,
    origTitle: string,
    status: string,
    origLang: string,
    budget: Float,
    revenue: Float,
    country: string)

  /** The body of the list endpoint. */
  datatype MovieList = MovieList(
    movies: seq<MovieDetail>,
    prevPage: Option<string>,
    nextPage: Option<string>,
    totalPages: nat,
    totalItems: nat)

}
