/** `createFolders` and `deleteFolders` (index.js) as pure folds over the
    selection, with the closed forms of their reports and of the paths left
    behind. */
module Folders {
  import opened Wrappers
  import opened Selections
  import opened Paths

  datatype CreateReport = CreateReport(created: seq<Name>, alreadyExists: seq<Name>)

  datatype DeleteReport = DeleteReport(deleted: seq<Name>, alreadyDeleted: seq<Name>)

  /** The folders `base/lang` for every `lang` of the selection. */
  function SelectedFolders(base: Path, selected: seq<Name>): set<Path>
  {
    set lang | lang in selected :: Child(base, lang)
  }

  /** `q` lies in, or is, one of the selected folders under `base`. */
  predicate Beneath(base: Path, selected: seq<Name>, q: Path)
  {
    exists lang :: lang in selected && Child(base, lang) <= q
  }

  /** The paths of `fs` that lie outside every selected folder. */
  function Pruned(fs: set<Path>, base: Path, selected: seq<Name>): set<Path>
  {
    set q | q in fs && !Beneath(base, selected, q)
  }

  /** The loop of `createFolders` run over `selected` from the state `fs`: the
      paths afterwards and the report, or the error `mkdirSync` threw. The
      paths created before an error stay. */
  function CreateRun(fs: set<Path>, base: Path, selected: seq<Name>): (r: (set<Path>, Result<CreateReport, FsError>))
    ensures fs <= r.0
    ensures Closed(fs) ==> Closed(r.0)
    decreases |selected|
  {
    if selected == [] then (fs, Success(CreateReport([], [])))
    else
      var (done, outcome) := CreateRun(fs, base, selected[..|selected| - 1]);
      var lang := selected[|selected| - 1];
      if outcome.Failure? then (done, outcome)
      else if Child(base, lang) !in done then
        match Mkdir(done, Child(base, lang))
        case Success(grown) =>
          (grown, Success(CreateReport(outcome.value.created + [lang], outcome.value.alreadyExists)))
        case Failure(e) => (done, Failure(e))
      else (done, Success(CreateReport(outcome.value.created, outcome.value.alreadyExists + [lang])))
  }

  /** The loop of `deleteFolders` run over `selected` from the state `fs`. */
  function DeleteRun(fs: set<Path>, base: Path, selected: seq<Name>): (r: (set<Path>, DeleteReport))
    ensures r.0 <= fs
    ensures Closed(fs) ==> Closed(r.0)
    decreases |selected|
  {
    if selected == [] then (fs, DeleteReport([], []))
    else
      var (remaining, report) := DeleteRun(fs, base, selected[..|selected| - 1]);
      var lang := selected[|selected| - 1];
      if Child(base, lang) in remaining then
        (RemoveTree(remaining, Child(base, lang)), DeleteReport(report.deleted + [lang], report.alreadyDeleted))
      else (remaining, DeleteReport(report.deleted, report.alreadyDeleted + [lang]))
  }

  /** Position `i` is reported created: `base/lang` was absent at the start and
      no earlier element of the selection created it. */
  function CreatedMask(fs: set<Path>, base: Path, selected: seq<Name>): (m: seq<bool>)
    ensures |m| == |selected|
  {
    seq(|selected|, i requires 0 <= i < |selected| =>
      Child(base, selected[i]) !in fs && selected[i] !in selected[..i])
  }

  /** Position `i` is reported deleted: `base/lang` existed at the start and no
      earlier element of the selection deleted it. */
  function DeletedMask(fs: set<Path>, base: Path, selected: seq<Name>): (m: seq<bool>)
    ensures |m| == |selected|
  {
    seq(|selected|, i requires 0 <= i < |selected| =>
      Child(base, selected[i]) in fs && selected[i] !in selected[..i])
  }

  lemma SelectedFoldersSnoc(base: Path, selected: seq<Name>)
    requires selected != []
    ensures SelectedFolders(base, selected)
      == SelectedFolders(base, selected[..|selected| - 1]) + {Child(base, selected[|selected| - 1])}
  {
    assert selected == selected[..|selected| - 1] + [selected[|selected| - 1]];
  }

  lemma InSelectedFolders(base: Path, selected: seq<Name>, lang: Name)
    ensures Child(base, lang) in SelectedFolders(base, selected) <==> lang in selected
  {
    if Child(base, lang) in SelectedFolders(base, selected) {
      var other :| other in selected && Child(base, lang) == Child(base, other);
      ChildPrefix(base, lang, other);
    }
  }

  lemma CreatedMaskPrefix(fs: set<Path>, base: Path, selected: seq<Name>, n: nat)
    requires n <= |selected|
    ensures CreatedMask(fs, base, selected)[..n] == CreatedMask(fs, base, selected[..n])
  {
    forall i | 0 <= i < n ensures selected[..n][..i] == selected[..i] { }
  }

  /** Once `mkdirSync` has thrown, the rest of the selection is not visited. */
  lemma {:induction false} CreateRunFailureSticks(fs: set<Path>, base: Path, selected: seq<Name>, n: nat)
    requires n <= |selected|
    requires CreateRun(fs, base, selected[..n]).1.Failure?
    ensures CreateRun(fs, base, selected) == CreateRun(fs, base, selected[..n])
    decreases |selected| - n
  {
    if n < |selected| {
      assert selected[..n + 1][..n] == selected[..n];
      CreateRunFailureSticks(fs, base, selected, n + 1);
    } else {
      assert selected[..n] == selected;
    }
  }

  /** When the loop of `createFolders` completes, each element of the selection
      is reported created exactly when `base/lang` was absent at its iteration,
      otherwise as already existing, both lists in selection order; and the
      paths afterwards are the old ones plus every selected folder. */
  lemma {:induction false} CreateRunOutcome(fs: set<Path>, base: Path, selected: seq<Name>)
    requires CreateRun(fs, base, selected).1.Success?
    ensures CreateRun(fs, base, selected).0 == fs + SelectedFolders(base, selected)
    ensures CreateRun(fs, base, selected).1.value == CreateReport(
      Select(selected, CreatedMask(fs, base, selected), true),
      Select(selected, CreatedMask(fs, base, selected), false))
    decreases |selected|
  {
    if selected != [] {
      var n := |selected| - 1;
      var init, lang := selected[..n], selected[n];
      CreateRunOutcome(fs, base, init);
      CreatedMaskPrefix(fs, base, selected, n);
      SelectedFoldersSnoc(base, selected);
      InSelectedFolders(base, init, lang);
    }
  }

  /** `createFolders` succeeds whenever `base` exists. */
  lemma {:induction false} CreateRunSucceeds(fs: set<Path>, base: Path, selected: seq<Name>)
    requires base in fs
    ensures CreateRun(fs, base, selected).1.Success?
    decreases |selected|
  {
    if selected != [] {
      CreateRunSucceeds(fs, base, selected[..|selected| - 1]);
    }
  }

  /** When `base` does not exist, the first `mkdirSync` throws ENOENT and nothing
      changes. */
  lemma {:induction false} CreateRunMissingBase(fs: set<Path>, base: Path, selected: seq<Name>)
    requires Closed(fs) && base !in fs && selected != []
    ensures CreateRun(fs, base, selected) == (fs, Failure(NoEntry(Child(base, selected[0]))))
    decreases |selected|
  {
    var n := |selected| - 1;
    if n == 0 {
      if Child(base, selected[0]) in fs {
        AncestorPresent(fs, base, Child(base, selected[0]));
      }
      assert selected[..n] == [];
    } else {
      CreateRunMissingBase(fs, base, selected[..n]);
    }
  }

  /** When every selected folder exists, the loop creates nothing and reports
      the whole selection as already existing. */
  lemma {:induction false} CreateRunAllPresent(fs: set<Path>, base: Path, selected: seq<Name>)
    requires forall lang :: lang in selected ==> Child(base, lang) in fs
    ensures CreateRun(fs, base, selected) == (fs, Success(CreateReport([], selected)))
    decreases |selected|
  {
    if selected != [] {
      var n := |selected| - 1;
      CreateRunAllPresent(fs, base, selected[..n]);
      assert selected == selected[..n] + [selected[n]];
    }
  }

  /** A second `createFolders` with the same selection, after a first one that
      completed, creates nothing, reports every element as already existing
      and leaves the paths as they are. */
  lemma CreateTwice(fs: set<Path>, base: Path, selected: seq<Name>)
    requires CreateRun(fs, base, selected).1.Success?
    ensures var after := CreateRun(fs, base, selected).0;
      CreateRun(after, base, selected) == (after, Success(CreateReport([], selected)))
  {
    CreateRunOutcome(fs, base, selected);
    CreateRunAllPresent(CreateRun(fs, base, selected).0, base, selected);
  }

  /** One step of the `deleteFolders` loop on the closed form of the paths:
      removing `base/lang` when it is still there, or nothing when it is not,
      prunes one more folder. */
  lemma PruneStep(fs: set<Path>, base: Path, init: seq<Name>, lang: Name)
    requires Closed(fs)
    ensures var remaining, dir := Pruned(fs, base, init), Child(base, lang);
      (if dir in remaining then RemoveTree(remaining, dir) else remaining) == Pruned(fs, base, init + [lang])
  {
    var remaining, dir := Pruned(fs, base, init), Child(base, lang);
    forall q | q in fs
      ensures Beneath(base, init + [lang], q) <==> Beneath(base, init, q) || dir <= q
    {
      if Beneath(base, init + [lang], q) && !(dir <= q) {
        var other :| other in init + [lang] && Child(base, other) <= q;
        assert other in init;
      }
    }
    if dir !in remaining {
      forall q | q in remaining && dir <= q
        ensures false
      {
        AncestorPresent(fs, dir, q);
      }
    }
  }

  /** Afterwards no selected folder exists, nor anything beneath one, and every
      other path is untouched. */
  lemma {:induction false} DeleteRunPaths(fs: set<Path>, base: Path, selected: seq<Name>)
    requires Closed(fs)
    ensures DeleteRun(fs, base, selected).0 == Pruned(fs, base, selected)
    decreases |selected|
  {
    if selected != [] {
      var n := |selected| - 1;
      DeleteRunPaths(fs, base, selected[..n]);
      PruneStep(fs, base, selected[..n], selected[n]);
      assert selected == selected[..n] + [selected[n]];
    } else {
      assert Pruned(fs, base, selected) == fs;
    }
  }

  /** A selected folder survives the pruning of the folders selected before
      it exactly when it existed and was not selected before. */
  lemma PrunedChild(fs: set<Path>, base: Path, init: seq<Name>, lang: Name)
    ensures Child(base, lang) in Pruned(fs, base, init) <==> Child(base, lang) in fs && lang !in init
  {
    forall other | other in init
      ensures Child(base, other) <= Child(base, lang) <==> other == lang
    {
      ChildPrefix(base, other, lang);
    }
  }

  lemma DeletedMaskPrefix(fs: set<Path>, base: Path, selected: seq<Name>, n: nat)
    requires n <= |selected|
    ensures DeletedMask(fs, base, selected)[..n] == DeletedMask(fs, base, selected[..n])
  {
    forall i | 0 <= i < n ensures selected[..n][..i] == selected[..i] { }
  }

  /** `deleteFolders` reports an element deleted exactly when `base/lang`
      existed at its iteration, otherwise as already deleted, both lists in
      selection order. */
  lemma {:induction false} DeleteRunReport(fs: set<Path>, base: Path, selected: seq<Name>)
    requires Closed(fs)
    ensures DeleteRun(fs, base, selected).1 == DeleteReport(
      Select(selected, DeletedMask(fs, base, selected), true),
      Select(selected, DeletedMask(fs, base, selected), false))
    decreases |selected|
  {
    if selected != [] {
      var n := |selected| - 1;
      var init, lang := selected[..n], selected[n];
      DeleteRunReport(fs, base, init);
      DeleteRunPaths(fs, base, init);
      DeletedMaskPrefix(fs, base, selected, n);
      PrunedChild(fs, base, init, lang);
    }
  }

  /** A completed `createFolders` reports every element of the selection once,
      either as created or as already existing. */
  lemma CreateRunPartition(fs: set<Path>, base: Path, selected: seq<Name>)
    requires CreateRun(fs, base, selected).1.Success?
    ensures var report := CreateRun(fs, base, selected).1.value;
      multiset(report.created) + multiset(report.alreadyExists) == multiset(selected)
  {
    CreateRunOutcome(fs, base, selected);
    SelectPartition(selected, CreatedMask(fs, base, selected));
  }

  /** `deleteFolders` reports every element of the selection once, either as
      deleted or as already deleted. */
  lemma DeleteRunPartition(fs: set<Path>, base: Path, selected: seq<Name>)
    requires Closed(fs)
    ensures var report := DeleteRun(fs, base, selected).1;
      multiset(report.deleted) + multiset(report.alreadyDeleted) == multiset(selected)
  {
    DeleteRunReport(fs, base, selected);
    SelectPartition(selected, DeletedMask(fs, base, selected));
  }

  /** When none of the selected folders existed, `createFolders` followed by
      `deleteFolders` on the same selection restores the original paths, and
      a selection without repeats is reported deleted in full. */
  lemma CreateThenDelete(fs: set<Path>, base: Path, selected: seq<Name>)
    requires Closed(fs) && base in fs
    requires forall lang :: lang in selected ==> Child(base, lang) !in fs
    ensures var grown := CreateRun(fs, base, selected).0;
      DeleteRun(grown, base, selected).0 == fs
    ensures var grown := CreateRun(fs, base, selected).0;
      Distinct(selected) ==> DeleteRun(grown, base, selected).1 == DeleteReport(selected, [])
  {
    CreateRunSucceeds(fs, base, selected);
    CreateRunOutcome(fs, base, selected);
    var grown := CreateRun(fs, base, selected).0;
    DeleteRunPaths(grown, base, selected);
    DeleteRunReport(grown, base, selected);
    forall q | q in grown
      ensures q in fs <==> !Beneath(base, selected, q)
    {
      if q in fs && Beneath(base, selected, q) {
        var lang :| lang in selected && Child(base, lang) <= q;
        AncestorPresent(fs, Child(base, lang), q);
      }
    }
    if Distinct(selected) {
      var mask := DeletedMask(grown, base, selected);
      forall i | 0 <= i < |selected| ensures mask[i] {
        assert Child(base, selected[i]) in SelectedFolders(base, selected);
      }
      SelectConstant(selected, mask, true);
    }
  }
}
