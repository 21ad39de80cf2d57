/** The catalog record and the fixed six-record catalog that both scripts
    declare, identically, as MOVIES. */
module Movies {

  /** One catalog entry; the title is unique within the catalog. The poster,
      synopsis and video URL of the source's records take no part in any
      computation and are not modelled. */
  datatype Movie = Movie(title: string, year: int, genre: string)

  const DemonHunter := Movie("The Demon Hunter", 2025, "Horror")
  const Smurf := Movie("Smurf", 2025, "Animation")
  const ToyStory := Movie("Toy Story", 1995, "Animation")
  const Frozen := Movie("Frozen", 2013, "Animation")
  const Moana := Movie("Moana", 2016, "Adventure")
  const FindingNemo := Movie("Finding Nemo", 2003, "Adventure")

  /** The catalog, in the order the scripts list it. */
  const MOVIES: seq<Movie> := [DemonHunter, Smurf, ToyStory, Frozen, Moana, FindingNemo]
}
