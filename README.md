# pokedex_citron_db — the in-memory record store, in Dafny

This project models the record store in `pokedex_citron_db/__init__.py`. The
store is the state that `_load_csv` leaves behind:

- `_pokemon_data`, the ordered list of CSV rows;
- `_pokemon_by_name`, the dictionary from each row's lower-cased `name` to the row.

The model also covers the seven public queries over that state:
`search_by_name`, `ispokemon`, `get_by_primary_type`, `get_by_secondary_type`,
`get_all_megas`, `get_all_regional_forms` and `get_all_legendaries`.
`ispokemon` is the predicate `Store.IsKnown`; its contract says a name is
known exactly when some row's name has the same lower-case form.

The project has three files:

- `wrappers.dfy` holds `Option` and `Result`.
- `casefold.dfy` holds `Lower`, an ASCII stand-in for `str.lower`.
- `pokedex.dfy` holds module `PokedexCitronDb`.

A row is a `map<string, Option<string>>`, as `csv.DictReader` yields it.
A column can be absent, present as `None` (a short CSV line), `""` or `"0"`,
and the model keeps these four cases apart. They behave differently:

- `search_by_name` copies a column only when it is truthy, so `"0"` is copied.
- `get_all_regional_forms` rejects `""`, `"0"` and `None`.
- The type filters treat an absent column as `""`. A column present as `None`
  makes them raise.

The store is the class `Store`. Its two fields are `const`, because nothing
changes them after loading. `Load` takes the parsed rows and builds the name
index with a loop (`BuildNameIndex`). It fails with `RuntimeError` at the
first row whose `name` is absent or `None`, the two cases where
`row['name'].lower()` raises inside the `try` of `_load_csv`. The name index
is specified by the function `NameIndex` (later rows overwrite earlier ones)
and described by lemmas:

- it has a key exactly when some row lower-cases to it;
- under each key it holds the last such row.

`search_by_name` is a method. It builds the projection (`Project`) in loops
over the column lists, as the source does. Its contract is the predicate
`IsSummary`:

- each of the six text columns is present exactly when it is truthy, with its raw value;
- each of the three flags is present, as `True`, exactly when it is `"1"`;
- no other key is present.

`SummaryUnique` shows that this determines the dictionary.

Each filter is the function `Select` over a `Criterion`. Its contract is
`Enumerates`: there is a strictly increasing list of positions that are
exactly the matching rows, and the result is their names in that order.
`EnumeratesUnique` shows that this determines the list.
`EnumeratesMembership` and `EnumeratesBounded` derive two consequences:
membership, and that the list is no longer than the rows.

Four behaviours of the code are easy to miss, and the model follows the code:

- A type filter raises `AttributeError` when some row has the column present
  as `None`, because `row.get(field, '')` only fills in an absent column and
  `None` then reaches `.lower()`. `TypeFilter` returns
  `Failure(AttributeError(field))` exactly when some row has that column as `None`.
- The argument `""` matches every row whose column is absent or `""`
  (`EmptyTypeMatchesBlank`).
- Loading raises `FileNotFoundError` or `RuntimeError`. Only the
  `RuntimeError` that building the name index causes is modelled.
- The comment at line 159 says a row is legendary when `legendary` or
  `overall_legendary` is `"1"`. The code tests only `legendary`, and so does
  the model (`LegendariesIgnoreOverallLegendary`).

## Model

| member | source | states |
|---|---|---|
| Casefold.Lower | pokedex_citron_db/__init__.py:27 | lower-casing keeps the length and maps each character on its own (ASCII letters only) |
| Casefold.LowerHasNoUpper | pokedex_citron_db/__init__.py:27 | a lower-cased string, such as a key of the name index, holds no upper-case ASCII letter |
| Casefold.LowerIdempotent | pokedex_citron_db/__init__.py:86 | lower-casing an already lower-cased string changes nothing |
| Casefold.LowerEmpty | pokedex_citron_db/__init__.py:102 | only the empty string lower-cases to the empty string |
| PokedexCitronDb.NameIndex | pokedex_citron_db/__init__.py:27 | every row stored in the name index sits under its own lower-cased name |
| PokedexCitronDb.NameIndexKeys | pokedex_citron_db/__init__.py:27 | `k` is a key of the name index if and only if some row's lower-cased name is `k` |
| PokedexCitronDb.NameIndexLastWins | pokedex_citron_db/__init__.py:27 | the last row with key `k` is the one stored under `k`; later duplicates overwrite earlier ones |
| PokedexCitronDb.NameIndexHoldsLast | pokedex_citron_db/__init__.py:27 | whatever is stored under `k` is the last row whose lower-cased name is `k` |
| PokedexCitronDb.BuildNameIndex | pokedex_citron_db/__init__.py:27-32 | succeeds if and only if every row has a non-`None` `name`, and then returns the name index; otherwise it fails at the first such row and all earlier rows were named |
| PokedexCitronDb.Load | pokedex_citron_db/__init__.py:21-32 | gives a store exactly when every row is named; the store keeps the rows unchanged and its index is the name index of those rows; otherwise it fails at the first row without a usable name |
| PokedexCitronDb.Store.constructor | pokedex_citron_db/__init__.py:24-27 | the store holds the row list and the name index built from it |
| PokedexCitronDb.Project | pokedex_citron_db/__init__.py:52-73 | the dictionary built from a row is its projection: text columns when truthy, flags as `True` when `"1"`, nothing else |
| PokedexCitronDb.SummaryKeys | pokedex_citron_db/__init__.py:54-71 | a projection's keys lie among the nine columns; a text column is present if and only if truthy and then carries the raw value; a flag is present if and only if `"1"` and then is `True` |
| PokedexCitronDb.SummaryHasNoFalsyValue | pokedex_citron_db/__init__.py:51-71 | no key of a projection maps to `False` or to an empty string |
| PokedexCitronDb.SummaryUnique | pokedex_citron_db/__init__.py:52-73 | a row has exactly one projection |
| PokedexCitronDb.Store.SearchByName | pokedex_citron_db/__init__.py:46-73 | returns `None` if and only if `ispokemon` is false for the name; otherwise returns the projection of the last row whose lower-cased name equals the lower-cased query |
| PokedexCitronDb.Store.IsKnown | pokedex_citron_db/__init__.py:86 | `ispokemon(s)` holds if and only if some row's lower-cased name equals `Lower(s)`, that is, case-insensitive membership in the name index |
| PokedexCitronDb.Store.KnownIgnoresCase | pokedex_citron_db/__init__.py:86 | two names with the same lower-case form are known or unknown together |
| PokedexCitronDb.Store.KnownOfLower | test_pokedex.py:56 | asking with the lower-cased name ("mewtwo") gives the same answer as the original casing |
| PokedexCitronDb.Select | pokedex_citron_db/__init__.py:99-103 | a filter never returns more names than there are rows |
| PokedexCitronDb.SelectEnumerates | pokedex_citron_db/__init__.py:99-103 | a filter returns the names of exactly the matching rows, in file order, one per matching row |
| PokedexCitronDb.EnumeratesMembership | pokedex_citron_db/__init__.py:99-103 | a name is in a filter's result if and only if some matching row carries it |
| PokedexCitronDb.EnumeratesBounded | pokedex_citron_db/__init__.py:99-103 | a filter's result is no longer than the row list |
| PokedexCitronDb.EnumeratesUnique | pokedex_citron_db/__init__.py:99-103 | the in-order enumeration of matching names determines the list, so each filter contract fixes the result |
| PokedexCitronDb.SelectCongruent | pokedex_citron_db/__init__.py:99-103 | rows with the same names on which two conditions agree yield the same list |
| PokedexCitronDb.TypeFilter | pokedex_citron_db/__init__.py:99-103 | fails with `AttributeError` if and only if some row has the column present as `None`; otherwise enumerates the rows whose lower-cased column (absent read as `""`) equals the lower-cased argument |
| PokedexCitronDb.TypeFilterIgnoresCase | pokedex_citron_db/__init__.py:102 | type arguments with the same lower-case form ("Fire", "fire") select the same names |
| PokedexCitronDb.EmptyTypeMatchesBlank | pokedex_citron_db/__init__.py:119 | the empty argument matches a row if and only if its column is absent or `""` |
| PokedexCitronDb.FlagNeedsExactOne | pokedex_citron_db/__init__.py:133 | a flag matches if and only if its value is exactly `"1"`; `"true"` does not match |
| PokedexCitronDb.LegendariesIgnoreOverallLegendary | pokedex_citron_db/__init__.py:159-166 | changing `overall_legendary` in any rows leaves the legendary list unchanged |
| PokedexCitronDb.RegionalZeroShownButNotListed | pokedex_citron_db/__init__.py:70-71 | a `regional_form` of `"0"` is not listed by the regional-form filter but is copied into the projection |
| PokedexCitronDb.Store.ByPrimaryType | pokedex_citron_db/__init__.py:99-103 | `get_by_primary_type` fails exactly when some row's `primary_type` is `None`, else enumerates the rows whose lower-cased primary type equals the lower-cased argument |
| PokedexCitronDb.Store.BySecondaryType | pokedex_citron_db/__init__.py:116-120 | the same for `secondary_type` |
| PokedexCitronDb.Store.AllMegas | pokedex_citron_db/__init__.py:130-134 | enumerates, in order, exactly the rows whose `mega_evolution` is `"1"` |
| PokedexCitronDb.Store.AllRegionalForms | pokedex_citron_db/__init__.py:145-149 | enumerates, in order, exactly the rows whose `regional_form` is present and not `""`, `"0"` or `None` |
| PokedexCitronDb.Store.AllLegendaries | pokedex_citron_db/__init__.py:160-166 | enumerates, in order, exactly the rows whose `legendary` is `"1"` (`overall_legendary` is not consulted) |

## Left out

- Reading the file: locating it (lines 18-19), `open` and `csv.DictReader` (lines 22-24). The model starts from the parsed rows.
- The `FileNotFoundError` path (lines 29-30). It concerns only the file system.
- The `RuntimeError` message text. The model's error records the position of the offending row instead.
- The load at import time (line 170) and `__all__` (lines 174-182). They are not logic.
- Columns that `csv.DictReader` collects under the key `None` for over-long lines. Row keys here are strings.
- Casefold.Lower: models ASCII lower-casing only, not Python's full Unicode case mapping.
- PokedexCitronDb.Project: the result is a `map`, so the insertion order of the Python dictionary's keys is not modelled.
- The tests' dataset-specific expectations (47 megas, 52 regional forms, 105 legendaries; Raticate, Charizard and Vulpix present). They depend on the contents of `pokedex_db.csv`, which is not part of this model.
- Repeated calls returning the same answer. This holds by construction: the store's fields are constant and the queries are functions or a method that changes nothing.
