# Thin-film database: a Dafny model

This project models the core of `thin_film.py`, a console tool that keeps a small
list of thin-film measurements in memory. The model covers four parts:

- **The record.** A `Thin_film` has four fields: name, spectral range, refractive index and
  number of maxima. Its getters (thin_film.py:58-90) are the field selectors of the
  `Film` datatype.
- **Its text form.** `__str__` joins the four fields with commas. `Read` splits a line on
  commas and passes the pieces to the constructor, which has defaults.
- **Bulk load.** `Load_data` turns each line into a record with float, float and int fields.
- **The store.** A Python list that `Add_film`, `Edit_film`, `Remove_film` and `List_films`
  change or list in place.

Modules:

- `Wrappers` (`wrappers.dfy`): `Option` and `Result`.
- `Strings` (`strings.dfy`): Python's `str.split` on one separator character, and its inverse `Join`.
- `Numbers` (`numbers.dfy`): `int(text)`, `float(text)` and `str()` of numbers.
- `ThinFilm` (`thin_film.dfy`): the record, `__str__`, the constructor's defaults, `Read`,
  `Write`, the conversion of one `Load_data` line, and `LoadAll`. `LoadAll` states what a
  whole load appends.
- `FilmStore` (`store.dfy`): the class `Store`. Its field `films: seq<Film>` stands for the
  shared `material_list`. Its methods change it in place, as the source does.

Python fields are dynamically typed. `Read` stores raw strings, while `Load_data` and `Write`
store floats and ints. So each numeric field is a `Value`: `Str`, `Float` or `Int`. A float is
the exact decimal it was read from, so `str()` of it is that decimal with at least one digit
after the point ("100.0", "1.45").

Exceptions become results: `IndexError`, `ValueError` and `TypeError` are the values of
`ThinFilm.Error`. Where the source raises partway through an operation, the model keeps
the effects made before the raise:

- A `Load_data` that stops at a bad line keeps the records appended before that line.
- A `Write` whose second or later conversion fails keeps the fields it has already assigned.

Points worth noting about the source:

- `Read` accepts one to four pieces and fills in defaults for the missing fields.
- `Read` converts nothing, so its numeric fields hold raw strings.
- `Load_data` raises IndexError on an empty line rather than skipping it.
- `Load_data` ignores any fields after the fourth.
- Positions follow Python list indexing, so -n to n-1 are valid.
- No exception is caught anywhere (thin_film.py:290-307 has no `try`). A failure result
  describes the state at the moment of the raise; the real program then terminates.

## Model

| member | source | states |
|---|---|---|
| `Strings.Split` | thin_film.py:145 | `str.split(',')` gives at least one piece. No piece holds the separator, and joining the pieces with it gives back the input. |
| `Strings.SplitJoin` | thin_film.py:145 | Splitting undoes joining whenever no piece holds the separator. |
| `Strings.SplitAppend` | thin_film.py:205 | Splitting `a + sep + b` gives the pieces of `a` followed by the pieces of `b`. |
| `Numbers.ParseIntAccepts` | thin_film.py:209 | `int()` succeeds exactly on one or more digits, optionally after a single '+' or '-'. |
| `Numbers.ParseIntValue` | thin_film.py:117 | `int()` reads a digit string as its decimal value, negated after '-' and unchanged after '+'. |
| `Numbers.ParseFloatAccepts` | thin_film.py:207-208 | `float()` succeeds exactly on an optional sign followed by digits and at most one point, with at least one digit in all. |
| `Numbers.ParseFloatWhole` | thin_film.py:114 | `float()` reads a digit string as that whole number with an empty fraction. |
| `Numbers.ParseFloatPoint` | thin_film.py:115-116 | `float()` reads `w.f` as whole part `w` with fraction `f`, trailing zeros dropped. A leading '-' makes it negative. |
| `Numbers.ShowInt` | thin_film.py:55 | `str()` of an int holds no comma, and `int()` reads it back to the same number. |
| `Numbers.ShowFloat` | thin_film.py:53-54 | `str()` of a float holds no comma, and `float()` reads it back to the same value. This includes the sign, so -0.0 reads back as -0.0. |
| `ThinFilm.Show` | thin_film.py:53-55 | The text of a numeric field never holds a comma. A string field shows as itself. |
| `ThinFilm.Serialize` | thin_film.py:43-56 | `str(film)` is the four field texts joined by commas, in the order name, spectral range, index, number of maxima. |
| `ThinFilm.SerializeSplit` | thin_film.py:51-56 | If no field text holds a comma, splitting `str(film)` on commas gives exactly the four field texts, in order. |
| `ThinFilm.Construct` | thin_film.py:24-40 | Up to four arguments are bound by position. Each missing field takes its default: "SiO2" for the name, 0.0 for the rest. Five or more arguments raise TypeError. |
| `ThinFilm.Read` | thin_film.py:136-146 | `Read` succeeds exactly when the line has at most four comma-separated pieces. The first piece is the name. |
| `ThinFilm.ReadSerialize` | thin_film.py:145-146 | Reading `str(f)` for a comma-free `f` gives a film whose fields hold `f`'s field texts as raw strings. Their texts equal `f`'s. |
| `ThinFilm.SerializeRead` | thin_film.py:145-146 | A line of at most four pieces reads, then writes back, as itself followed by ",0.0" for each defaulted field. |
| `ThinFilm.Write` | thin_film.py:113-118 | The fields are assigned in prompt order: name, float index, float spectral range, int maxima. On success all four hold the entered values. A failed conversion raises ValueError. The fields before it keep their new values and the fields after it keep their old ones. |
| `ThinFilm.ParseLine` | thin_film.py:205-209 | A line loads exactly when it has at least four pieces, pieces 1 and 2 convert with `float()`, and piece 3 converts with `int()`. The record is then (piece 0, float(piece 1), float(piece 2), int(piece 3)), and its name holds no comma. With four or more pieces a failure is ValueError. A one-piece line, such as the empty line, raises IndexError. |
| `ThinFilm.ParseLineIgnoresExtra` | thin_film.py:205-209 | Appending ",extra" to a line of four or more pieces does not change what is loaded from it. |
| `ThinFilm.LoadSerialize` | thin_film.py:205-209 | A record of the shape `Load_data` builds, written with `str`, loads back as the same record. |
| `ThinFilm.Collect` | thin_film.py:204-209 | It returns the values of the leading successes, each equal to its result, and reports the first failure. There is no failure exactly when every result succeeded. |
| `ThinFilm.LoadAllSpec` | thin_film.py:202-209 | A load yields one record per line, each the conversion of its line, in line order. With no raise it covers all lines. Otherwise it covers the lines before the first line that raises, and that line's exception is the load's failure. |
| `ThinFilm.LoadLines` | thin_film.py:204-209 | Loading the `str` lines of records that `Load_data` built gives back exactly those records, with no failure. |
| `FilmStore.Resolve` | thin_film.py:256 | A position is valid exactly when -n <= position < n. A valid position resolves to the index below n that is congruent to it modulo n. |
| `FilmStore.Store.constructor` | thin_film.py:262 | The list starts empty. |
| `FilmStore.Store.Add` | thin_film.py:183-185 | On success the list grows by one and the new film, filled in by `Write` from the defaults, is last. Earlier positions are unchanged. If `Write` raises, nothing is appended. |
| `FilmStore.Store.Edit` | thin_film.py:240-241 | An invalid position raises IndexError and nothing changes. Otherwise only the film at the resolved position is rewritten by `Write`, possibly in part. The length and all other positions are unchanged. |
| `FilmStore.Store.Remove` | thin_film.py:255-256 | An invalid position raises IndexError and nothing changes. Otherwise the length drops by one, films before the resolved position are unchanged, and later films shift down by one. |
| `FilmStore.Store.Load` | thin_film.py:202-209 | The list becomes the old list followed by `LoadAll(lines).films`, and the method reports `LoadAll(lines).failure`. |
| `FilmStore.Store.List` | thin_film.py:158-172 | The empty notice comes exactly when the list is empty. Otherwise there is one row per film, numbered from 0 in list order. |

## Left out

- `Get_thickness` and `Calculate_thickness` (thin_film.py:92-101, 211-226) compute a
  floating-point formula with `sqrt`. Floating-point arithmetic is not modelled.
- Console and file I/O are not modelled:
  - `input` and `print`, `Display`, and the table formatting of `List_films`;
  - the menu loop (thin_film.py:261-307);
  - opening and reading the file in `Load_data`.

  `Write` and `Load` take the typed answers and the file's lines as parameters.
- The position typed for `Edit_film` and `Remove_film` is passed as an `int`. A ValueError
  from `int()` on non-numeric text is not modelled.
- `Delete_film`, `Get_film_Index`, `Save_data` and menu option 7 have no behaviour in the source.
- Numbers.ParseFloat: accepts only an optional sign, digits and at most one decimal point.
  Python's `float()` also accepts surrounding whitespace, underscores, exponents, "inf" and
  "nan", which the model rejects. Rounding to binary floating point is not modelled. Neither
  is the exponent notation `str()` uses for very large or very small floats. Nor is overflow:
  digit text beyond about 1.8e308 becomes `inf` in Python, and `str` writes it as "inf",
  while the model keeps the exact decimal.
- Numbers.ParseInt: accepts only an optional sign followed by digits. Python's `int()` also
  accepts surrounding whitespace and underscores, which the model rejects. Python 3.11 and
  later raise ValueError for more than 4300 digits; the model reads any length.
- Films are values, so object identity is not modelled. The source never holds one object
  at two positions, so rewriting the value at a position has the same effect as mutating
  the object there.
- The name field is always a string in the source, and is modelled as one.
