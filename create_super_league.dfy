/** The league draft: the module-global `criteria`, `set_criteria`, the goalkeeper
    mask of `create_player_draft`, `draft_goalkeeper` reading the global criteria,
    `create_draft`, and the dataset choice of `get_file_path`. */
module CreateSuperLeague {
  import opened Wrappers
  import opened Records
  import opened Frames
  import CreatePlayers

  /** The module-global `criteria` dictionary; every value starts as `None`. */
  class CriteriaConfig {
    var current: CreatePlayers.Criteria

    constructor ()
      ensures current == CreatePlayers.Criteria(None, None, None, None)
    {
      current := CreatePlayers.Criteria(None, None, None, None);
    }

    /** `set_criteria`: three English leagues of 20, 20 and 24 teams. */
    method SetCriteria()
      modifies this
      ensures current == CreatePlayers.Criteria(Some(3), Some(20), Some(20), Some(24))
    {
      current := current.(leagues := Some(3));
      current := current.(premierLeague := Some(20));
      current := current.(championship := Some(20));
      current := current.(leagueOne := Some(24));
    }
  }

  /** `datafile[datafile["Position"] == "GK"]`: the goalkeepers, in table order. */
  function GoalkeeperPool(datafile: seq<Player>): (gk: seq<Player>)
    ensures forall p :: p in gk ==> IsGoalkeeper(p)
    ensures |gk| <= |datafile|
  {
    Filter(datafile, IsGoalkeeper)
  }

  /** The goalkeeper mask keeps every goalkeeper row, as often as the table holds it,
      and nothing else. */
  lemma GoalkeeperPoolExact(datafile: seq<Player>, p: Player)
    ensures multiset(GoalkeeperPool(datafile))[p] == if p.position == "GK" then multiset(datafile)[p] else 0
  {
    FilterMultiplicity(datafile, IsGoalkeeper, p);
  }

  /** `draft_goalkeeper(gk_data)` of this module: the same selection as
      `CreatePlayers.DraftGoalkeeper`, with `premier_league` read from the global. */
  method DraftGoalkeeper(gkData: seq<Player>, config: CriteriaConfig)
    returns (draft: Result<seq<CreatePlayers.DraftRow>, CreatePlayers.DraftError>,
             ghost top: seq<Player>, ghost selected: seq<Player>)
    ensures CreatePlayers.IsDraft(gkData, config.current.premierLeague, draft, top, selected)
    ensures config.current.premierLeague.None? ==> draft == Failure(CreatePlayers.NoneComparison)
  {
    draft, top, selected := CreatePlayers.DraftGoalkeeper(gkData, config.current);
  }

  /** `create_player_draft` once the dataset is read: only goalkeepers reach the draft. */
  method CreatePlayerDraft(datafile: seq<Player>, config: CriteriaConfig)
    returns (draft: Result<seq<CreatePlayers.DraftRow>, CreatePlayers.DraftError>,
             ghost top: seq<Player>, ghost selected: seq<Player>)
    ensures CreatePlayers.IsDraft(GoalkeeperPool(datafile), config.current.premierLeague, draft, top, selected)
    ensures forall p :: p in selected ==> IsGoalkeeper(p)
    ensures config.current.premierLeague.None? ==> draft == Failure(CreatePlayers.NoneComparison)
    ensures config.current.premierLeague.Some? && config.current.premierLeague.value >= 0 ==>
      && draft.Success?
      && |draft.value| == CreatePlayers.Min(config.current.premierLeague.value,
                                            CreatePlayers.Min(CreatePlayers.NumberOfTopGk, |GoalkeeperPool(datafile)|))
  {
    var gkData := GoalkeeperPool(datafile);
    draft, top, selected := DraftGoalkeeper(gkData, config);
    DraftedAreGoalkeepers(gkData, config.current.premierLeague, draft, top, selected);
    if config.current.premierLeague.Some? && config.current.premierLeague.value >= 0 {
      CreatePlayers.DraftSelectionBounds(gkData, config.current.premierLeague.value, draft, top, selected);
    }
  }

  /** Every player in a draft of a goalkeeper pool is a goalkeeper. */
  lemma DraftedAreGoalkeepers(
    gkData: seq<Player>, premierLeague: Option<int>,
    draft: Result<seq<CreatePlayers.DraftRow>, CreatePlayers.DraftError>,
    top: seq<Player>, selected: seq<Player>)
    requires forall p :: p in gkData ==> IsGoalkeeper(p)
    requires CreatePlayers.IsDraft(gkData, premierLeague, draft, top, selected)
    ensures forall p :: p in selected ==> IsGoalkeeper(p)
  {
    if premierLeague.Some? && premierLeague.value >= 0 {
      var n := premierLeague.value;
      if |top| >= n {
        CreatePlayers.DrawIsSubMultiset(selected, top, n);
      }
      forall p | p in selected
        ensures IsGoalkeeper(p)
      {
        assert p in multiset(selected);
        assert p in multiset(gkData);
      }
    } else {
      assert selected == [];
    }
  }

  /** `create_draft` without the banner: set the criteria, then draft. Because the
      criteria are set first, the comparison with `premier_league` never meets
      `None`, and the draft holds min(20, number of goalkeepers) rows. */
  method CreateDraft(datafile: seq<Player>, config: CriteriaConfig)
    returns (draft: Result<seq<CreatePlayers.DraftRow>, CreatePlayers.DraftError>,
             ghost top: seq<Player>, ghost selected: seq<Player>)
    modifies config
    ensures config.current == CreatePlayers.Criteria(Some(3), Some(20), Some(20), Some(24))
    ensures CreatePlayers.IsDraft(GoalkeeperPool(datafile), Some(20), draft, top, selected)
    ensures draft.Success? && |draft.value| == CreatePlayers.Min(20, |GoalkeeperPool(datafile)|)
  {
    config.SetCriteria();
    draft, top, selected := CreatePlayerDraft(datafile, config);
    CreatePlayers.DraftSelectionBounds(GoalkeeperPool(datafile), 20, draft, top, selected);
  }

  /** Why `get_file_path` may fail: `os.path.join` of an unset environment variable
      (`None`) raises TypeError. */
  datatype PathError = UnsetVariable(variable: string)

  const EditedDatasetVar: string := "EDITED_DATASET_PATH"
  const OriginalDatasetVar: string := "ORIGINAL_DATASET_PATH"
  const EditedFileName: string := "male_players_edited.csv"
  const OriginalFileName: string := "male_players.csv"

  /** `s` ends with `suffix`. */
  predicate EndsWith(s: string, suffix: string) {
    |suffix| <= |s| && s[|s| - |suffix|..] == suffix
  }

  /** POSIX `os.path.join(dir, name)`: an absolute `name` replaces `dir`; otherwise
      `name` is appended, with a `/` between unless `dir` is empty or already ends in
      one. Either way the result ends with `name`, and a relative name keeps `dir`
      as the prefix. */
  function PathJoin(dir: string, name: string): (path: string)
    ensures EndsWith(path, name)
    ensures |name| > 0 && name[0] == '/' ==> path == name
    ensures |name| > 0 && name[0] != '/' ==> dir <= path
    ensures |name| > 0 && name[0] != '/' && dir != [] && dir[|dir| - 1] != '/' ==>
      |dir| < |path| && path[|dir|] == '/'
  {
    if |name| > 0 && name[0] == '/' then name
    else if dir == [] || dir[|dir| - 1] == '/' then dir + name
    else
      var path := dir + "/" + name;
      assert path[|path| - |name|..] == name;
      path
  }

  /** `get_file_path` after `load_dotenv`: `env` is the process environment and
      `existing` the set of paths `os.path.exists` accepts. It fails only on a
      variable that is unset, and a path it returns names one of the two dataset
      files. */
  function GetFilePath(env: map<string, string>, existing: set<string>): (r: Result<string, PathError>)
    ensures r.Failure? ==>
      && r.error.variable !in env
      && (r.error.variable == EditedDatasetVar || r.error.variable == OriginalDatasetVar)
    ensures r.Success? ==> EndsWith(r.value, EditedFileName) || EndsWith(r.value, OriginalFileName)
  {
    if EditedDatasetVar !in env then Failure(UnsetVariable(EditedDatasetVar))
    else
      var editedPath := PathJoin(env[EditedDatasetVar], EditedFileName);
      if editedPath in existing then Success(editedPath)
      else if OriginalDatasetVar !in env then Failure(UnsetVariable(OriginalDatasetVar))
      else Success(PathJoin(env[OriginalDatasetVar], OriginalFileName))
  }

  /** The edited dataset is preferred whenever it exists; the original is used
      otherwise; and the call fails exactly when a variable it needs is unset. */
  lemma GetFilePathChoice(env: map<string, string>, existing: set<string>)
    ensures GetFilePath(env, existing).Failure? <==>
      EditedDatasetVar !in env
      || (PathJoin(env[EditedDatasetVar], EditedFileName) !in existing && OriginalDatasetVar !in env)
    ensures EditedDatasetVar in env && PathJoin(env[EditedDatasetVar], EditedFileName) in existing ==>
      GetFilePath(env, existing) == Success(PathJoin(env[EditedDatasetVar], EditedFileName))
    ensures (EditedDatasetVar in env && PathJoin(env[EditedDatasetVar], EditedFileName) !in existing
      && OriginalDatasetVar in env) ==>
      GetFilePath(env, existing) == Success(PathJoin(env[OriginalDatasetVar], OriginalFileName))
  {
  }

  /** No path ends in both file names: they differ in the fifth character from the end. */
  lemma FileNamesExclusive(path: string)
    ensures !(EndsWith(path, EditedFileName) && EndsWith(path, OriginalFileName))
  {
    if EndsWith(path, EditedFileName) {
      assert path[|path| - 5] == 'd';
    }
  }

  /** The file name at the end of the returned path tells which dataset was chosen:
      it ends in `male_players_edited.csv` exactly when that file exists, and in
      `male_players.csv` otherwise. */
  lemma ChosenFileNameShowsDataset(env: map<string, string>, existing: set<string>)
    requires GetFilePath(env, existing).Success?
    ensures EditedDatasetVar in env
    ensures var path := GetFilePath(env, existing).value;
      && (EndsWith(path, EditedFileName) <==> PathJoin(env[EditedDatasetVar], EditedFileName) in existing)
      && (EndsWith(path, OriginalFileName) <==> PathJoin(env[EditedDatasetVar], EditedFileName) !in existing)
  {
    FileNamesExclusive(GetFilePath(env, existing).value);
  }
}
