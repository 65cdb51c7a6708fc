# Goalkeeper draft of the EA FC team generator, in Dafny

This project models the core of the EA FC team generator. That core does three things.

- **Goalkeeper draft.** The generator keeps the players whose `Position` is `"GK"`. It sorts them by `Overall`, best first, and keeps the best thirty as candidates. Then it draws `premier_league` of the candidates at random, without repeats, or takes all of them when there are too few. Each drafted player becomes one row of the draft table. That row has an empty `Name` cell and a `GK` cell holding the player's whole record, `", "`-joined.
- **Criteria and orchestration.** `create_draft` first sets the module-global criteria to 3 leagues of 20, 20 and 24 teams, and then drafts.
- **Dataset choice and analytics.** `get_file_path` prefers the edited dataset and falls back to the original. `analyze_male_players` counts the players, three rating bands and four position groups.

Modules, one per source file or shared concept:

- `Wrappers`: `Option` and `Result`.
- `Records`: the table row (`Player`, its `Cell`s) and Python's `str` of a cell, including the decimal form of integers.
- `Serialise`: `", ".join` of a record, and `str.split(", ")` as its inverse.
- `Frames`: a pandas boolean-mask selection (`Filter`) and what its `len` counts.
- `CreatePlayers`: `draft_goalkeeper(gk_data, criteria)` from `my_project/create_players.py`.
- `CreateSuperLeague`: the global `criteria` as the class `CriteriaConfig`, `set_criteria`, the goalkeeper mask of `create_player_draft`, that module's `draft_goalkeeper`, `create_draft` and `get_file_path`, from `my_project/create_super_league.py`.
- `Analytics`: the figures of `analyze_male_players` from `my_project/analytics.py`.

Some choices are left to pandas' random generator and to its unstable sort. The model treats them as unspecified choices (`:|`), so its contracts hold for every outcome:

- which candidates `sample` draws, and in what order;
- in what order the sort leaves players with equal `Overall`.

`CreatePlayers.SortByOverall` exists to show that an admissible sort always exists. `CreatePlayers.Sample` picks distinct positions for the draw.

Criteria values that are still `None` are modelled, as are negative sample sizes. They are the error results `NoneComparison` (Python's TypeError from `len(top_gk) >= None`) and `NegativeSample` (pandas' ValueError from `sample(n=-k)`). They are not preconditions. `CreateSuperLeague.CreateDraft` proves that setting the criteria first rules out both errors.

The two `draft_goalkeeper` functions have the same text. The only difference is where `premier_league` comes from. So `CreateSuperLeague.DraftGoalkeeper` passes the global's `current` criteria to `CreatePlayers.DraftGoalkeeper`.

## Model

| member | source | states |
|---|---|---|
| `CreatePlayers.SortByOverall` | my_project/create_players.py:17 | an admissible result of `sort_values(by="Overall", ascending=False)` exists: the same rows (as a multiset), in non-increasing Overall order |
| `CreatePlayers.HeadOfSortIsTopCandidates` | my_project/create_players.py:14-20 | `head(30)` of any descending sort has min(30, pool size) rows, all taken from the pool and in order. No row left out is rated above a row kept, however the sort ordered ties |
| `CreatePlayers.Candidates` | my_project/create_players.py:20 | `head(30)` is a prefix of the sorted table with min(30, its length) rows, and the whole table when it has at most 30 rows |
| `CreatePlayers.SampleIsSubMultiset` | my_project/create_players.py:24 | drawing distinct positions never repeats a row: the drawn rows are a sub-multiset of the candidates |
| `CreatePlayers.DrawIsSubMultiset` | my_project/create_players.py:24 | a draw of `n` candidates has exactly `n` rows and is a sub-multiset of the candidate list |
| `CreatePlayers.Sample` | my_project/create_players.py:24 | `sample(n)` with `n` at most the candidate count returns exactly `n` distinct candidate rows |
| `CreatePlayers.DraftGoalkeeper` | my_project/create_players.py:10-33 | `None` for `premier_league` fails with the comparison error, and a negative value fails with the sample error. Otherwise the candidates are a valid top-30 list. If there are at least `n` of them, exactly `n` distinct ones are drawn; if not, all are taken. There is one row per drafted player, with `Name` empty and `GK` the `", "`-join of `str` of its fields. There are min(n, 30, pool size) rows |
| `CreatePlayers.DraftRowOf` | my_project/create_players.py:29-33 | a draft row has an empty `Name` cell, and its `GK` cell splits on `", "` back into `str` of each field of the player, in column order, when the record has a field and no text field holds `", "` |
| `CreatePlayers.DraftSelectionBounds` | my_project/create_players.py:20-31 | in every successful draft, row count = number drafted = min(n, 30, pool size). The drafted players are distinct rows of the candidates, which are rows of the pool. No goalkeeper left out of the candidates is rated above a drafted one |
| `Records.NatToDecimal` | my_project/create_players.py:32 | `str` of a non-negative integer is a non-empty string of decimal digits with no leading zero |
| `Records.IntToDecimal` | my_project/create_players.py:32 | `str` of an int starts with `-` exactly when the int is negative; what follows is a non-empty string of decimal digits whose value is the int's magnitude |
| `Records.Str` | my_project/create_players.py:32 | `str` of a text cell is its text; `str` of an integer cell holds only decimal digits and at most a leading `-` |
| `Records.DecimalRoundTrip` | my_project/create_players.py:32 | reading the digits of `str(n)` back gives `n` |
| `Serialise.Join` | my_project/create_players.py:32 | `", ".join` of no pieces is empty and of one piece is that piece; the text starts with the first piece, and with two or more pieces it contains `", "` |
| `Serialise.CellTexts` | my_project/create_players.py:32 | `map(str, row)` gives one text per field, the i-th being `str` of the i-th field |
| `Serialise.SerialiseRecord` | my_project/create_players.py:32 | the `GK` text of a record starts with `str` of its first field, and contains `", "` once the record has two fields |
| `Serialise.SplitJoin` | my_project/create_players.py:32 | splitting a `", "`-join gives back the pieces when there is at least one piece and none contains `", "` |
| `Serialise.RecordRoundTrip` | my_project/create_players.py:32 | a `GK` cell splits back into `str` of each field, in column order, when no text field contains `", "` (integer fields never do) |
| `CreateSuperLeague.CriteriaConfig.constructor` | my_project/create_super_league.py:11-16 | the global criteria start with every value `None` |
| `CreateSuperLeague.CriteriaConfig.SetCriteria` | my_project/create_super_league.py:87-96 | the whole new state: leagues = 3, premier_league = 20, championship = 20 and league_one = 24 |
| `CreateSuperLeague.GoalkeeperPool` | my_project/create_super_league.py:44 | the goalkeeper mask keeps only rows with position `"GK"`, and no more rows than the table has |
| `CreateSuperLeague.GoalkeeperPoolExact` | my_project/create_super_league.py:44 | each goalkeeper row is kept as often as the table holds it; every other row is dropped |
| `CreateSuperLeague.DraftGoalkeeper` | my_project/create_super_league.py:48-76 | the same selection, with `premier_league` read from the global criteria. An unset value fails with the comparison error |
| `CreateSuperLeague.CreatePlayerDraft` | my_project/create_super_league.py:37-45 | the draft is a draft of the goalkeeper pool, and every drafted player is a goalkeeper. An unset `premier_league` fails with the comparison error. A value `n >= 0` gives min(n, 30, number of goalkeepers) rows |
| `CreateSuperLeague.DraftedAreGoalkeepers` | my_project/create_super_league.py:44-64 | a draft drawn from a pool of goalkeepers contains only goalkeepers |
| `CreateSuperLeague.CreateDraft` | my_project/create_super_league.py:19-31 | setting the criteria before drafting leaves them at 3/20/20/24. The draft then always succeeds, with min(20, number of goalkeepers) rows |
| `CreateSuperLeague.PathJoin` | my_project/create_super_league.py:111 | POSIX `os.path.join`: the result always ends with the file name; an absolute name replaces the directory; a relative name keeps the directory as a prefix, with a `/` inserted after a directory that does not end in one |
| `CreateSuperLeague.GetFilePath` | my_project/create_super_league.py:99-121 | a failure names an environment variable that is unset, and only `EDITED_DATASET_PATH` or `ORIGINAL_DATASET_PATH`; a returned path ends in `male_players_edited.csv` or `male_players.csv` |
| `CreateSuperLeague.GetFilePathChoice` | my_project/create_super_league.py:107-121 | returns `<EDITED_DATASET_PATH>/male_players_edited.csv` whenever that file exists, and `<ORIGINAL_DATASET_PATH>/male_players.csv` otherwise. Fails exactly when a variable it needs is unset |
| `CreateSuperLeague.ChosenFileNameShowsDataset` | my_project/create_super_league.py:110-118 | the returned path ends in `male_players_edited.csv` exactly when the edited file exists, and in `male_players.csv` exactly when it does not |
| `Frames.Filter` | my_project/analytics.py:34 | a masked table keeps only matching rows and is no longer than the table |
| `Frames.FilterCountsMatches` | my_project/analytics.py:33-55 | the length of a masked table is the number of row positions that match |
| `Frames.FilterMultiplicity` | my_project/create_super_league.py:44 | a masked table holds each matching row as often as the table does, and no other row |
| `Frames.FilterDisjointUnion` | my_project/analytics.py:34-40 | for two masks no row satisfies together, the rows matching either count as the sum of the two counts |
| `Analytics.AnalyzeMalePlayers` | my_project/analytics.py:33-55 | the total is the number of rows. Each band and group count is the number of rows satisfying its condition (90+, [80,90), [70,80), GK, the defender, midfielder and striker lists), and each is at most the total |
| `Analytics.RatingBandsPartition` | my_project/analytics.py:34-40 | the three rating bands are pairwise disjoint, and their counts add up to the number of rows rated 70 or more, which is at most the total |
| `Analytics.PositionGroupsDisjoint` | my_project/analytics.py:48-55 | the four position lists (GK; CB, LB, RB, LWB, RWB; CM, CDM, CAM, RM, LM; ST, CF, RW, LW) are pairwise disjoint, so no row is in two groups |
| `Analytics.PositionGroupCountsBounded` | my_project/analytics.py:48-55 | the four group counts add up to the number of rows in some group, which is at most the total |
| `Analytics.UngroupedRowCountsNowhere` | my_project/analytics.py:48-55 | a row whose position is in none of the four lists is counted in no group |

## Left out

- Reading the dataset (`pd.read_csv`) is not modelled. The table arrives as a `seq<Player>`.
- Writing the draft (`to_csv`, the `LEAGUES_PATH` output path) is not modelled. The methods return the rows that would be written.
- Printing is left out: banners, summaries and the "file created" message.
- `load_dotenv` and `os.getenv` become a `map` of environment variables. `os.path.exists` becomes the set of existing paths. Paths are compared as strings, with no normalisation.
- pandas' random generator and its sort order among ties are left as unspecified choices.
- Floating-point and missing (NaN) cells are not modelled. A cell is text or an integer; `str` of a float or of NaN, and a NaN `Position` or `Overall`, are left out.
- `Player` keeps `position` and `overall` next to the full record `fields`, and `name` only to make rows readable. The model does not require them to equal the matching entries of `fields`.
- A `criteria` dictionary that lacks the `premier_league` key (a KeyError) is not modelled. The `Criteria` datatype always has every key; only a `None` value is modelled.
- `main.py` is not part of this model: its flags only dispatch to the modules above. `create_own_dataset.py` in both places is not part of this model either: it reads a CSV, projects six columns and writes a CSV.
- `Serialise.RecordRoundTrip`: the round trip is stated only for records whose text fields contain no `", "`, because a field holding the separator is split apart.
