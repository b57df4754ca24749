/** The two branches of `main` (index.js) that touch the filesystem: the
    create flow, which makes sure `Projects` exists and then runs
    `createFolders` in it, and the remove flow, which either deletes the whole
    `Projects` tree or runs `deleteFolders` in it. The prompts are replaced by
    parameters: the base path, the confirm answer and the selection. */
module Commands {
  import opened Wrappers
  import opened Selections
  import opened Paths
  import opened Folders

  const ProjectsFolder: Name := "Projects"

  /** `path.join(targetPath, 'Projects')`. */
  function ProjectsPath(target: Path): Path
  {
    Child(target, ProjectsFolder)
  }

  /** The existence check and `mkdirSync` of the create flow: the directory is
      made only when absent; the flag says whether it was made. */
  function EnsureDir(fs: set<Path>, dir: Path): (r: (set<Path>, Result<bool, FsError>))
    ensures r.1.Success? ==> dir in r.0 && r.0 == fs + {dir} && r.1.value == (dir !in fs)
    ensures r.1.Failure? ==> r.0 == fs && dir !in fs
    ensures Closed(fs) && dir != [] ==> (r.1.Failure? <==> Parent(dir) !in fs)
    ensures Closed(fs) ==> Closed(r.0)
  {
    if dir in fs then (fs, Success(false))
    else
      match Mkdir(fs, dir)
      case Success(grown) => (grown, Success(true))
      case Failure(e) => (fs, Failure(e))
  }

  /** The whole-tree branch of the remove flow: the directory and everything
      beneath it go when it exists; the flag says whether it existed. */
  function DeleteWholeTree(fs: set<Path>, dir: Path): (r: (set<Path>, bool))
    ensures r.1 == (dir in fs)
    ensures Closed(fs) ==> r.0 == RemoveTree(fs, dir)
  {
    if dir in fs then (RemoveTree(fs, dir), true)
    else
      RemoveAbsentTree(fs, dir);
      (fs, false)
  }

  /** What the create flow reports: whether `Projects` was made, and the
      report of `createFolders`. */
  datatype CreateOutcome = CreateOutcome(madeProjects: bool, report: CreateReport)

  /** What the remove flow reports. */
  datatype RemoveOutcome =
    | WholeTree(existed: bool)
    | Selected(report: DeleteReport)

  /** The create flow: `Projects` under `target`, then `createFolders` in it.
      An error thrown by either step ends the flow. */
  function CreateFlow(fs: set<Path>, target: Path, selected: seq<Name>): (r: (set<Path>, Result<CreateOutcome, FsError>))
    ensures fs <= r.0
    ensures Closed(fs) ==> Closed(r.0)
  {
    var (ready, made) := EnsureDir(fs, ProjectsPath(target));
    if made.Failure? then (ready, Failure(made.error))
    else
      var (after, outcome) := CreateRun(ready, ProjectsPath(target), selected);
      if outcome.Failure? then (after, Failure(outcome.error))
      else (after, Success(CreateOutcome(made.value, outcome.value)))
  }

  /** The remove flow: the confirm answer `wholeTree` chooses between deleting
      the entire `Projects` tree and `deleteFolders` on the selection. */
  function RemoveFlow(fs: set<Path>, target: Path, wholeTree: bool, selected: seq<Name>): (r: (set<Path>, RemoveOutcome))
    ensures r.0 <= fs
    ensures Closed(fs) ==> Closed(r.0)
  {
    if wholeTree then
      var (after, existed) := DeleteWholeTree(fs, ProjectsPath(target));
      (after, WholeTree(existed))
    else
      var (after, report) := DeleteRun(fs, ProjectsPath(target), selected);
      (after, Selected(report))
  }

  /** The create flow on an existing base path always completes: afterwards
      `Projects` and every selected folder in it exist and nothing else was
      added. When the base path is missing, the flow stops at `Projects` with
      ENOENT and changes nothing. */
  lemma CreateFlowOutcome(fs: set<Path>, target: Path, selected: seq<Name>)
    requires Closed(fs)
    ensures target in fs ==>
      CreateFlow(fs, target, selected).1.Success? &&
      CreateFlow(fs, target, selected).0
        == fs + {ProjectsPath(target)} + SelectedFolders(ProjectsPath(target), selected)
    ensures target !in fs ==>
      CreateFlow(fs, target, selected) == (fs, Failure(NoEntry(ProjectsPath(target))))
  {
    var projects := ProjectsPath(target);
    if target in fs {
      var ready := EnsureDir(fs, projects).0;
      CreateRunSucceeds(ready, projects, selected);
      CreateRunOutcome(ready, projects, selected);
    } else if projects in fs {
      AncestorPresent(fs, target, projects);
    }
  }

  /** Creating a selection none of whose folders existed and then removing the
      same selection restores the paths under the base path, except that
      `Projects` itself stays. */
  lemma CreateThenRemove(fs: set<Path>, target: Path, selected: seq<Name>)
    requires Closed(fs) && target in fs
    requires forall lang :: lang in selected ==> Child(ProjectsPath(target), lang) !in fs
    ensures var created := CreateFlow(fs, target, selected).0;
      RemoveFlow(created, target, false, selected).0 == fs + {ProjectsPath(target)}
    ensures var created := CreateFlow(fs, target, selected).0;
      Distinct(selected) ==> RemoveFlow(created, target, false, selected).1 == Selected(DeleteReport(selected, []))
  {
    var projects := ProjectsPath(target);
    var ready := EnsureDir(fs, projects).0;
    assert ready == fs + {projects};
    forall lang | lang in selected ensures Child(projects, lang) !in ready {
      assert |Child(projects, lang)| != |projects|;
    }
    CreateRunSucceeds(ready, projects, selected);
    CreateThenDelete(ready, projects, selected);
  }
}
