# Economic-variable selection page: a Dafny model

This project models the bookkeeping behind a Streamlit page that lets a user
choose Banco Central SGS time series, fetch them over a date range, chart them
and download them. The model covers the per-session state and the actions
that change it, in `appmacrovars.py`:

- the **variable registry**, an insertion-ordered dictionary from slug to
  series code, seeded from sixteen defaults (module `Variables`);
- the **data frames**: the wide frame the SGS client returns, column renaming,
  and the `melt` into long-form (date, variable, value) records that feeds the
  chart (module `Frames`);
- **`CollectDataBacen`**: its constructor and `request_macro_vars`, which
  inverts slug→code into code→slug and renames the fetched columns (module
  `Bacen`);
- the **session**: a class with the registry, the two pending inputs, the last
  frame and the `data_collected` flag, and the actions *add variable*,
  *remove selected*, *reset to defaults*, *fetch* and the chart's long form
  (module `App`).

The registry is a `seq<Entry>` whose slugs are distinct, which is how a Python
dict keeps its keys. The SGS client (`sgs.dataframe`) is passed in as a
function from the request to either a frame or an error text. `slugify` is
also passed in as a function, and nothing is assumed about it. Dates and cell
values are type parameters that the model never looks inside. The date range
reaches the collector as the day/month/year text that `strftime` produces.

Three behaviours of the code are worth stating explicitly:

- Removing a slug uses `del`, and `del` raises on an absent key. The
  multiselect only offers current keys, so `Session.Remove` requires the
  selected slugs to be present and distinct. It does not model a silent no-op
  for absent slugs.
- Nothing stops a negative code: the number input has no minimum, and only
  zero is refused. The session invariant is therefore "no code is zero", not
  "every code is positive".
- Fetching with an empty registry leaves the `data_collected` flag as it was.
  The code does not force it to false.

## Model

| member | source | states |
|---|---|---|
| Variables.DefaultSize | appmacrovars.py:14-33 | the default registry has sixteen entries, all with positive codes |
| Variables.DefaultDistinct | appmacrovars.py:14-33 | the defaults form a well-formed dictionary: no slug twice and no zero code |
| Variables.DefaultDistinctCodes | appmacrovars.py:14-33 | no two defaults share a code, so inverting the defaults loses nothing |
| Variables.Default | appmacrovars.py:14-33 | the sixteen default slugs and codes of the literal, in its order; their laws are `DefaultSize`, `DefaultDistinct` and `DefaultDistinctCodes` |
| Variables.Has | appmacrovars.py:79 | the `in` test on the registry's keys; its law is `LookupNone`: a slug is a key exactly when looking it up finds a code |
| Variables.Slugs | appmacrovars.py:100 | `keys()`, the slugs offered for removal; its law is `SlugsAt` |
| Variables.SlugsAt | appmacrovars.py:100 | the key list has one slug per entry, each at its entry's position, in insertion order |
| Variables.Codes | appmacrovars.py:44 | `values()`: one code per entry, each at its entry's position, in insertion order |
| Variables.LookupNone | appmacrovars.py:79 | looking a slug up finds nothing if and only if the slug is not a key |
| Variables.LookupAt | appmacrovars.py:82 | dictionary behaviour of the registry: the code stored under a key is the one at the key's position in insertion order |
| Variables.LookupEntry | appmacrovars.py:82 | dictionary behaviour of the registry: with distinct slugs, the code stored with each entry is found under its own slug |
| Variables.AppendFresh | appmacrovars.py:82 | storing a fresh slug with a nonzero value keeps the registry well formed and makes the slug a key |
| Variables.AppendLookup | appmacrovars.py:82 | after storing a fresh slug, that slug maps to the value and every other slug keeps its old code |
| Variables.Delete | appmacrovars.py:103 | `del` of one slug, the step of the removal loop; its law is `DeleteAt` |
| Variables.DeleteAt | appmacrovars.py:103 | `del` of a present slug removes exactly that entry and keeps the entries before and after it in order |
| Variables.DeleteIsKeep | appmacrovars.py:102-103 | with distinct slugs, deleting one slug is the same as removing the one-element set holding it |
| Variables.KeepKeep | appmacrovars.py:102-103 | deleting one set of slugs after another is the same as deleting their union |
| Variables.RemoveStep | appmacrovars.py:102-103 | one pass of the removal loop: deleting a further selected slug leaves the registry without all slugs deleted so far, and still well formed |
| Variables.KeepHas | appmacrovars.py:100-103 | after removal a slug is a key if and only if it was a key and was not selected |
| Variables.KeepMember | appmacrovars.py:100-103 | an entry survives removal if and only if it was in the registry and its slug was not selected |
| Variables.KeepLookup | appmacrovars.py:100-103 | after removal a selected slug has no code and every other slug keeps its old code |
| Variables.KeepOrder | appmacrovars.py:100-103 | two surviving slugs keep their relative order, in both directions of the comparison |
| Variables.KeepWellFormed | appmacrovars.py:100-103 | removal keeps the registry well formed |
| Variables.KeepAll | appmacrovars.py:100-103 | removing every key empties the registry |
| Frames.EmptyFrame | appmacrovars.py:61-62 | the initial frame has no rows and no columns |
| Frames.Relabel | appmacrovars.py:49 | renaming keeps the number and order of columns; a code column with an entry takes the mapped slug and every other column keeps its label |
| Frames.Rename | appmacrovars.py:49 | renaming changes only the labels, never the dates or the cells |
| Frames.RelabelUntouched | appmacrovars.py:49 | a mapping that holds none of the frame's codes leaves the labels as they are |
| Frames.Melt | appmacrovars.py:141-142 | an n-row, m-column frame melts into exactly n·m records |
| Frames.MeltAt | appmacrovars.py:141-142 | the record at position j·n + i is (date of row i, label of column j, cell of column j and row i): column by column, then row by row |
| Frames.MeltRoundTrip | appmacrovars.py:141-142 | cutting the records of a frame with at least one row and one column into blocks of n rebuilds the frame exactly |
| Frames.Group | appmacrovars.py:149 | the records of one variable in their melted order, as `groupby` hands them to a trace; its law is `GroupOfMelt` |
| Frames.GroupOfMelt | appmacrovars.py:149 | when labels are distinct, a variable's group among the melted records is its column paired with the dates, in row order |
| Bacen.NewCollector | appmacrovars.py:35-40 | the constructor fails with its message when the registry is `None` or empty; otherwise it keeps the registry and both dates unchanged |
| Bacen.RequestOf | appmacrovars.py:43-47 | the single request carries every code in registry order and the collector's two dates |
| Bacen.Invert | appmacrovars.py:48 | the inverted mapping has exactly the registry's codes as keys |
| Bacen.LastWith | appmacrovars.py:48 | the last position in insertion order whose entry carries a given code: no later entry carries it |
| Bacen.InvertLastWins | appmacrovars.py:48 | each code is inverted to the slug of the last entry carrying it, because later pairs of the comprehension overwrite earlier ones |
| Bacen.InvertSound | appmacrovars.py:48 | looking up the slug that a code inverts to gives back that code |
| Bacen.InvertExact | appmacrovars.py:48 | when codes are distinct, each entry's code inverts to that entry's own slug |
| Bacen.RequestMacroVars | appmacrovars.py:42-50 | the result succeeds if and only if the provider answers; on success it is the provider's frame renamed through the inverted registry; on failure it carries the provider's error |
| Bacen.RelabelRecoversSlugs | appmacrovars.py:48-49 | when codes are distinct and the provider labels columns with the requested codes, the renamed columns are the registry's slugs in registry order |
| Bacen.RelabelLastSlugWins | appmacrovars.py:48-49 | each column returned under a registry code is named after the last slug in insertion order that carries that code |
| Bacen.CollisionExample | appmacrovars.py:48-49 | two slugs sharing code 4390 both come back under the later slug |
| App.Session.constructor | appmacrovars.py:53-62 | a new session has the default registry, empty name, zero value, an empty frame and nothing collected |
| App.Session.AddVariable | appmacrovars.py:74-88 | with a non-empty name and a nonzero value: a fresh slug is appended with the value and nothing else changes; a present slug only draws a warning; in both cases the inputs reset to `''` and `0`. An empty name or a zero value changes nothing and reports an error. The registry invariant is kept |
| App.Session.Remove | appmacrovars.py:99-106 | the registry becomes the old one without the selected slugs, which is order-preserving (see the `Keep` lemmas); the invariant is kept and nothing else changes |
| App.Session.Reset | appmacrovars.py:113-116 | the registry equals the sixteen defaults, the flag is cleared and the stored frame is untouched |
| App.Session.Fetch | appmacrovars.py:119-134 | an empty registry changes nothing and sends no request. Otherwise exactly one request is sent with every code and both dates. On success the renamed frame replaces the stored one and the flag is set; on failure the flag is cleared, the old frame is kept and the error text is reported |
| App.Session.LongForm | appmacrovars.py:137-142 | the chart data is the melted stored frame once data is collected, and absent otherwise |
| App.SelicScenario | appmacrovars.py:42-50 | for the registry {selic: 4390}, a two-row column returned under 4390 comes back under `selic` with the same dates and values |

## Left out

- Streamlit widgets, page layout, messages and the rerun/callback machinery (appmacrovars.py:9-12, 65-110) are not modelled. The text and number widgets write `varName` and `varValue` directly. Messages appear only as outcome tags.
- `sgs.dataframe` (appmacrovars.py:43-47) is a network client. It is modelled as a function parameter that returns a frame or an error text. Nothing is assumed about which columns or rows it returns.
- `slugify` (appmacrovars.py:78) is a foreign library. It is a function parameter, and no property of it is assumed.
- The date pickers and `strftime` (appmacrovars.py:68-69, 126-127) are library calls. The two dates reach the fetch as opaque text. The constructor's default dates are not modelled, because the page always passes both dates.
- Plotly figure construction (appmacrovars.py:145-168) is rendering only. Only the per-variable group that feeds each trace is modelled; the sorting of group keys that `groupby` does is not.
- CSV and Parquet export (appmacrovars.py:169-188) is serialisation of floating-point data by pandas and pyarrow, so it is not modelled.
- Cell values are floating point in the application. Here they are an opaque type parameter.
- The first session registry is the module-level `variables_dict` object itself, not a copy. Streamlit rebuilds that dict literal on every rerun, so the model treats the defaults as a constant value.
- `df.rename(..., inplace=True)` renames a frame that has just been returned and has no other reference. It is modelled as a new frame value.
- App.Session.LongForm: does not capture a stored frame that has a column labelled `index`, as after adding a variable whose name slugifies to `index`. Then `reset_index()` (appmacrovars.py:141) puts the real dates in a column `level_0`, and `melt(id_vars='index')` (appmacrovars.py:142) uses that variable's values as the dates and melts the real dates as a variable `level_0`. The model always pairs each cell with its real date, as `Frames.MeltAt` states, because a date column among the value columns cannot be typed here.
