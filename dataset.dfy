/** The movie table as loaded from the CSV file, and the start-up clean-up of
    its `genre` column (src/app.py:49-53), which rewrites that column in
    place. */
module Dataset {
  import opened PyText

  /** A `genre` cell as pandas reads it: some text, or an empty cell (NaN). */
  datatype GenreValue = Missing | Text(s: string)

  /** One row of the table. `year` holds the text the reply prints for it. */
  datatype Movie = Movie(title: string, year: string, description: string, genre: GenreValue)

  /** `str(v)`, as `astype('str')` applies it to a cell: NaN prints as "nan". */
  function AsStr(v: GenreValue): string
  {
    match v
    case Missing => "nan"
    case Text(s) => s
  }

  /** The cell the two clean-up passes leave behind: the text of the cell up
      to its first comma. */
  function NormalisedGenre(v: GenreValue): GenreValue
  {
    Text(FirstField(AsStr(v)))
  }

  /** The table, column by column, as pandas stores it. */
  class MovieTable {
    var title: array<string>
    var year: array<string>
    var description: array<string>
    var genre: array<GenreValue>

    /** All columns have one cell per row. */
    ghost predicate Valid()
      reads this
    {
      title.Length == year.Length == description.Length == genre.Length
    }

    /** The rows of the table, in table order. */
    function Rows(): (rows: seq<Movie>)
      reads this, title, year, description, genre
      requires Valid()
      ensures |rows| == genre.Length
      ensures forall i :: 0 <= i < |rows| ==> rows[i].genre == genre[i]
    {
      var t, y, d, g := title, year, description, genre;
      seq(g.Length, i requires 0 <= i < g.Length == t.Length == y.Length == d.Length reads t, y, d, g =>
        Movie(t[i], y[i], d[i], g[i]))
    }

    /** Every genre cell holds text. */
    predicate AllText()
      reads this, genre
    {
      forall i :: 0 <= i < genre.Length ==> genre[i].Text?
    }

    /** The table `read_csv` hands over: one row per record, in file order,
        in columns of its own. */
    constructor (rows: seq<Movie>)
      ensures Valid() && Rows() == rows
      ensures fresh(title) && fresh(year) && fresh(description) && fresh(genre)
    {
      title := new string[|rows|](i requires 0 <= i < |rows| => rows[i].title);
      year := new string[|rows|](i requires 0 <= i < |rows| => rows[i].year);
      description := new string[|rows|](i requires 0 <= i < |rows| => rows[i].description);
      genre := new GenreValue[|rows|](i requires 0 <= i < |rows| => rows[i].genre);
    }

    /** `df['genre'] = df['genre'].astype('str')`: every cell becomes its
        text, and only the genre column changes. */
    method GenresAsText()
      requires Valid()
      modifies genre
      ensures Valid() && AllText()
      ensures forall i :: 0 <= i < genre.Length ==> genre[i] == Text(AsStr(old(genre[i])))
      ensures |Rows()| == |old(Rows())|
      ensures forall i :: 0 <= i < |Rows()| ==>
                Rows()[i] == old(Rows()[i]).(genre := Text(AsStr(old(Rows()[i].genre))))
    {
      for i := 0 to genre.Length
        invariant forall j :: 0 <= j < i ==> genre[j] == Text(AsStr(old(genre[j])))
        invariant forall j :: i <= j < genre.Length ==> genre[j] == old(genre[j])
      {
        genre[i] := Text(AsStr(genre[i]));
      }
    }

    /** `df['genre'] = df['genre'].apply(lambda g: g.split(',')[0])`: every
        cell keeps the text before its first comma, so no cell holds a comma
        afterwards; only the genre column changes. The cells must be text
        already: the bot runs this right after `GenresAsText` at start-up, and a
        NaN cell would have no `split`. */
    method KeepFirstGenre()
      requires Valid() && AllText()
      modifies genre
      ensures Valid() && AllText()
      ensures forall i :: 0 <= i < genre.Length ==> genre[i] == Text(FirstField(old(genre[i]).s))
      ensures forall i :: 0 <= i < genre.Length ==> ',' !in genre[i].s
      ensures |Rows()| == |old(Rows())|
      ensures forall i :: 0 <= i < |Rows()| ==>
                Rows()[i] == old(Rows()[i]).(genre := Text(FirstField(old(Rows()[i].genre).s)))
    {
      for i := 0 to genre.Length
        invariant forall j :: 0 <= j < i ==> genre[j] == Text(FirstField(old(genre[j]).s))
        invariant forall j :: 0 <= j < i ==> ',' !in genre[j].s
        invariant forall j :: i <= j < genre.Length ==> genre[j] == old(genre[j])
      {
        genre[i] := Text(FirstField(genre[i].s));
      }
    }

    /** Both start-up passes in source order: each genre cell ends up as
        `NormalisedGenre` of what was read, and every other cell and the
        row count stay as they were. */
    method NormaliseGenres()
      requires Valid()
      modifies genre
      ensures Valid() && AllText()
      ensures forall i :: 0 <= i < genre.Length ==> ',' !in genre[i].s
      ensures |Rows()| == |old(Rows())|
      ensures forall i :: 0 <= i < |Rows()| ==>
                Rows()[i] == old(Rows()[i]).(genre := NormalisedGenre(old(Rows()[i].genre)))
    {
      GenresAsText();
      KeepFirstGenre();
    }
  }

  /** Start-up (src/app.py:42-53): the table read from the file, with both
      genre passes applied. Each row is the record read, with its genre cell
      normalised. */
  method LoadTable(rows: seq<Movie>) returns (table: MovieTable)
    ensures fresh(table) && table.Valid() && table.AllText()
    ensures forall i :: 0 <= i < table.genre.Length ==> ',' !in table.genre[i].s
    ensures |table.Rows()| == |rows|
    ensures forall i :: 0 <= i < |rows| ==>
              table.Rows()[i] == rows[i].(genre := NormalisedGenre(rows[i].genre))
  {
    table := new MovieTable(rows);
    table.NormaliseGenres();
  }

  /** What normalisation does to one cell: the result is comma-free text, a
      prefix of the cell's printed form, equal to it exactly when it had no
      comma, and otherwise cut at its first comma. */
  lemma NormalisedGenreSpec(v: GenreValue)
    ensures NormalisedGenre(v).Text?
    ensures ',' !in NormalisedGenre(v).s
    ensures NormalisedGenre(v).s <= AsStr(v)
    ensures NormalisedGenre(v).s == AsStr(v) <==> ',' !in AsStr(v)
    ensures v.Missing? ==> NormalisedGenre(v) == Text("nan")
  {
  }
}
