/** The filesystem the tool works on, as an object whose set of existing paths
    the operations of index.js update in place. */
module Workspace {
  import opened Wrappers
  import opened Paths
  import opened Folders
  import opened Commands

  class FileTree {
    var paths: set<Path>

    /** A filesystem holds its root and the parent of everything it holds. */
    ghost predicate Valid()
      reads this
    {
      Closed(paths)
    }

    constructor (initial: set<Path>)
      requires Closed(initial)
      ensures Valid() && paths == initial
    {
      paths := initial;
    }

    /** `fs.mkdirSync(dir)`. */
    method MakeDirectory(dir: Path) returns (r: Result<(), FsError>)
      requires Valid()
      modifies this
      ensures Valid()
      ensures Mkdir(old(paths), dir).Success? ==> r == Success(()) && paths == Mkdir(old(paths), dir).value
      ensures Mkdir(old(paths), dir).Failure? ==> r == Failure(Mkdir(old(paths), dir).error) && paths == old(paths)
    {
      var made := Mkdir(paths, dir);
      if made.Success? {
        paths := made.value;
        r := Success(());
      } else {
        r := Failure(made.error);
      }
    }

    /** `fs.rmSync(dir, { recursive: true, force: true })`. */
    method RemoveRecursive(dir: Path)
      requires Valid() && dir != []
      modifies this
      ensures Valid()
      ensures paths == RemoveTree(old(paths), dir)
    {
      paths := RemoveTree(paths, dir);
    }

    /** `createFolders(basePath, selectedTypes)`: visits the selection in order,
        makes `base/lang` when it is absent and records `lang` as created,
        otherwise as already existing. A `mkdirSync` error ends the loop and
        is returned; the folders made before it stay. */
    method CreateFolders(base: Path, selected: seq<Name>) returns (result: Result<CreateReport, FsError>)
      requires Valid()
      modifies this
      ensures Valid()
      ensures (paths, result) == CreateRun(old(paths), base, selected)
      ensures result.Success? ==> paths == old(paths) + SelectedFolders(base, selected)
    {
      var created, alreadyExists := [], [];
      var i := 0;
      while i < |selected|
        invariant 0 <= i <= |selected|
        invariant Valid()
        invariant (paths, Success(CreateReport(created, alreadyExists))) == CreateRun(old(paths), base, selected[..i])
      {
        var lang := selected[i];
        var dir := Child(base, lang);
        assert selected[..i + 1][..i] == selected[..i];
        if dir !in paths {
          var made := MakeDirectory(dir);
          if made.Failure? {
            result := Failure(made.error);
            CreateRunFailureSticks(old(paths), base, selected, i + 1);
            return;
          }
          created := created + [lang];
        } else {
          alreadyExists := alreadyExists + [lang];
        }
        i := i + 1;
      }
      assert selected[..i] == selected;
      result := Success(CreateReport(created, alreadyExists));
      CreateRunOutcome(old(paths), base, selected);
    }

    /** `deleteFolders(basePath, selectedTypes)`: visits the selection in order,
        removes `base/lang` with everything beneath it when it exists and
        records `lang` as deleted, otherwise as already deleted. */
    method DeleteFolders(base: Path, selected: seq<Name>) returns (report: DeleteReport)
      requires Valid()
      modifies this
      ensures Valid()
      ensures (paths, report) == DeleteRun(old(paths), base, selected)
      ensures paths == Pruned(old(paths), base, selected)
    {
      var deleted, alreadyDeleted := [], [];
      var i := 0;
      while i < |selected|
        invariant 0 <= i <= |selected|
        invariant Valid()
        invariant (paths, DeleteReport(deleted, alreadyDeleted)) == DeleteRun(old(paths), base, selected[..i])
      {
        var lang := selected[i];
        var dir := Child(base, lang);
        assert selected[..i + 1][..i] == selected[..i];
        if dir in paths {
          RemoveRecursive(dir);
          deleted := deleted + [lang];
        } else {
          alreadyDeleted := alreadyDeleted + [lang];
        }
        i := i + 1;
      }
      assert selected[..i] == selected;
      report := DeleteReport(deleted, alreadyDeleted);
      DeleteRunPaths(old(paths), base, selected);
    }

    /** The `Projects` step of the create flow: made only when absent. */
    method EnsureProjects(target: Path) returns (result: Result<bool, FsError>)
      requires Valid()
      modifies this
      ensures Valid()
      ensures (paths, result) == EnsureDir(old(paths), ProjectsPath(target))
    {
      var projects := ProjectsPath(target);
      if projects !in paths {
        var made := MakeDirectory(projects);
        if made.Failure? {
          result := Failure(made.error);
        } else {
          result := Success(true);
        }
      } else {
        result := Success(false);
      }
    }

    /** The whole-tree branch of the remove flow. */
    method DeleteProjects(target: Path) returns (existed: bool)
      requires Valid()
      modifies this
      ensures Valid()
      ensures (paths, existed) == DeleteWholeTree(old(paths), ProjectsPath(target))
    {
      var projects := ProjectsPath(target);
      existed := projects in paths;
      if existed {
        RemoveRecursive(projects);
      }
    }

    /** The `--create` branch of `main` once its prompts are answered. */
    method Create(target: Path, selected: seq<Name>) returns (result: Result<CreateOutcome, FsError>)
      requires Valid()
      modifies this
      ensures Valid()
      ensures (paths, result) == CreateFlow(old(paths), target, selected)
    {
      var made := EnsureProjects(target);
      if made.Failure? {
        result := Failure(made.error);
        return;
      }
      var outcome := CreateFolders(ProjectsPath(target), selected);
      if outcome.Failure? {
        result := Failure(outcome.error);
      } else {
        result := Success(CreateOutcome(made.value, outcome.value));
      }
    }

    /** The `--remove` branch of `main` once its prompts are answered. */
    method Remove(target: Path, wholeTree: bool, selected: seq<Name>) returns (outcome: RemoveOutcome)
      requires Valid()
      modifies this
      ensures Valid()
      ensures (paths, outcome) == RemoveFlow(old(paths), target, wholeTree, selected)
    {
      if wholeTree {
        var existed := DeleteProjects(target);
        outcome := WholeTree(existed);
      } else {
        var report := DeleteFolders(ProjectsPath(target), selected);
        outcome := Selected(report);
      }
    }
  }
}
