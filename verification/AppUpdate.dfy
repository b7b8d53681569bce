/**
 * Replacing application files from a staging directory, with a backup to roll back from, on a file
 * system where any operation may fail half-way. Stopping the program is the failure of its next
 * operation, so a claim about every failure is a claim about every place to stop.
 */
module AppUpdate {
  import opened Wrappers

  type Path = string

  function Under(dir: Path, rel: Path): Path
  {
    dir + "/" + rel
  }

  predicate Inside(dir: Path, p: Path)
  {
    dir + "/" <= p
  }

  lemma UnderInside(dir: Path, rel: Path)
    ensures Inside(dir, Under(dir, rel)) && Under(dir, rel)[|dir| + 1..] == rel
  {
  }

  lemma InsideUnder(dir: Path, p: Path)
    requires Inside(dir, p)
    ensures p == Under(dir, p[|dir| + 1..])
  {
  }

  lemma UnderInjective(dir: Path, a: Path, b: Path)
    requires Under(dir, a) == Under(dir, b)
    ensures a == b
  {
    UnderInside(dir, a);
    UnderInside(dir, b);
  }

  // ---------- temporary names ----------

  /** Where the file name of a path starts. */
  function NameStart(p: Path): (i: nat)
    ensures i <= |p| && (forall k :: i <= k < |p| ==> p[k] != '/') && (i > 0 ==> p[i - 1] == '/')
  {
    if p == "" then 0
    else if p[|p| - 1] == '/' then |p|
    else NameStart(p[..|p| - 1])
  }

  /** The length of a file name without its extension; a leading dot starts no extension. */
  function StemLength(name: string): (n: nat)
    ensures n <= |name| && (name != "" ==> n > 0)
    ensures n < |name| ==> name[n] == '.' && forall k :: n < k < |name| ==> name[k] != '.'
    ensures n == |name| ==> forall k :: 0 < k < |name| ==> name[k] != '.'
  {
    StemFrom(name, |name|)
  }

  function StemFrom(name: string, k: nat): (n: nat)
    requires k <= |name| && forall j :: k <= j < |name| && j > 0 ==> name[j] != '.'
    ensures n <= |name| && (name != "" ==> n > 0)
    ensures n < |name| ==> name[n] == '.' && forall j :: n < j < |name| ==> name[j] != '.'
    ensures n == |name| ==> forall j :: 0 < j < |name| ==> name[j] != '.'
    decreases k
  {
    if k <= 1 then |name|
    else if name[k - 1] == '.' then k - 1
    else StemFrom(name, k - 1)
  }

  const NEW_EXTENSION := ".useful-new"

  /** The path with its extension replaced by `useful-new`; a path without a file name stays as it is. */
  function TemporaryOf(p: Path): Path
  {
    var i := NameStart(p);
    var name := p[i..];
    if name == "" || name == ".." then p
    else p[..i] + name[..StemLength(name)] + NEW_EXTENSION
  }

  lemma StemOfExtended(stem: string)
    requires stem != ""
    ensures var name := stem + NEW_EXTENSION; StemLength(name) == |stem| && name[..|stem|] == stem
  {
    var name := stem + NEW_EXTENSION;
    var n := StemLength(name);
    assert name[|stem|] == '.';
    assert forall k :: |stem| < k < |name| ==> name[k] == NEW_EXTENSION[k - |stem|] != '.';
  }

  /** The temporary name of a file `name` in the directory text `dir`. */
  lemma TemporaryOfName(dir: string, name: string)
    requires dir == "" || dir[|dir| - 1] == '/'
    requires name != "" && name != ".." && forall k :: 0 <= k < |name| ==> name[k] != '/'
    ensures TemporaryOf(dir + name) == dir + name[..StemLength(name)] + NEW_EXTENSION
  {
    hide NameStart, StemLength;
    NameStartOf(dir, name);
    assert (dir + name)[|dir|..] == name && (dir + name)[..|dir|] == dir;
  }

  lemma TemporaryOfExtended(dir: string, stem: string)
    requires dir == "" || dir[|dir| - 1] == '/'
    requires stem != "" && forall k :: 0 <= k < |stem| ==> stem[k] != '/'
    ensures TemporaryOf(dir + stem + NEW_EXTENSION) == dir + stem + NEW_EXTENSION
  {
    hide TemporaryOf, StemLength;
    var name := stem + NEW_EXTENSION;
    ExtendedName(stem);
    StemOfExtended(stem);
    TemporaryOfName(dir, name);
    assert dir + stem + NEW_EXTENSION == dir + name;
  }

  lemma ExtendedName(stem: string)
    requires forall k :: 0 <= k < |stem| ==> stem[k] != '/'
    ensures var name := stem + NEW_EXTENSION; |name| > 2 && forall k :: 0 <= k < |name| ==> name[k] != '/'
  {
  }

  /** A temporary name is its own temporary name: only a file already called `*.useful-new` can clash. */
  lemma TemporaryOfTemporary(p: Path)
    ensures TemporaryOf(TemporaryOf(p)) == TemporaryOf(p)
  {
    var i := NameStart(p);
    var name := p[i..];
    if name != "" && name != ".." {
      TemporaryOfExtended(p[..i], name[..StemLength(name)]);
    }
  }

  lemma {:induction false} NameStartOf(dir: Path, name: string)
    requires dir == "" || dir[|dir| - 1] == '/'
    requires forall k :: 0 <= k < |name| ==> name[k] != '/'
    ensures NameStart(dir + name) == |dir|
    decreases |name|
  {
    if name == "" {
      assert dir + name == dir;
    } else {
      var p := dir + name;
      assert p[..|p| - 1] == dir + name[..|name| - 1];
      NameStartOf(dir, name[..|name| - 1]);
    }
  }

  // ---------- the file system ----------

  class FileSystem {
    var files: map<Path, Bytes>
    /** How many operations have failed that could have been done, look-ups included. */
    ghost var failures: nat

    constructor ()
      ensures files == map[] && failures == 0
    {
      files, failures := map[], 0;
    }

    /** Looks for a file; a failing look-up reads as "not there". */
    method Exists(p: Path) returns (seen: bool, ghost honest: bool)
      modifies this`failures
      ensures seen == (honest && p in files) && failures == old(failures) + (if honest then 0 else 1)
    {
      if * {
        seen, honest := p in files, true;
      } else {
        seen, honest := false, false;
        failures := failures + 1;
      }
    }

    /** Makes or walks a directory; the model has only the files in it. */
    method Open(dir: Path) returns (ok: bool)
      modifies this`failures
      ensures failures == old(failures) + (if ok then 0 else 1)
    {
      ok := true;
      if * {
        ok := false;
        failures := failures + 1;
      }
    }

    /** A failing copy may leave anything at the target. */
    method Copy(from: Path, to: Path) returns (ok: bool)
      modifies this
      ensures ok ==> from in old(files) && files == old(files)[to := old(files)[from]]
      ensures SameExcept(old(files), files, {to})
      ensures failures == old(failures) + (if !ok && from in old(files) then 1 else 0)
    {
      ok := false;
      if from in files {
        if * {
          files := files[to := files[from]];
          ok := true;
        } else {
          if * {
            var partial: Bytes := *;
            files := files[to := partial];
          }
          failures := failures + 1;
        }
      }
    }

    method RemoveFile(p: Path) returns (ok: bool)
      modifies this
      ensures ok ==> files == old(files) - {p}
      ensures !ok ==> files == old(files)
      ensures failures == old(failures) + (if !ok && p in old(files) then 1 else 0)
    {
      ok := false;
      if p in files {
        if * {
          files := files - {p};
          ok := true;
        } else {
          failures := failures + 1;
        }
      }
    }

    method Rename(from: Path, to: Path) returns (ok: bool)
      modifies this
      ensures ok ==> from in old(files) &&
                     files == if from == to then old(files) else old(files)[to := old(files)[from]] - {from}
      ensures !ok ==> files == old(files)
      ensures failures == old(failures) + (if !ok && from in old(files) then 1 else 0)
    {
      ok := false;
      if from in files {
        if * {
          files := if from == to then files else files[to := files[from]] - {from};
          ok := true;
        } else {
          failures := failures + 1;
        }
      }
    }
  }

  ghost predicate SameAt(a: map<Path, Bytes>, b: map<Path, Bytes>, p: Path)
  {
    (p in a <==> p in b) && (p in a ==> a[p] == b[p])
  }

  /** Two file systems that agree everywhere off `touched`. */
  ghost predicate SameExcept(a: map<Path, Bytes>, b: map<Path, Bytes>, touched: set<Path>)
  {
    forall p :: p !in touched ==> SameAt(a, b, p)
  }

  lemma Compose(a: map<Path, Bytes>, b: map<Path, Bytes>, c: map<Path, Bytes>,
                first: set<Path>, second: set<Path>, all: set<Path>)
    requires SameExcept(a, b, first) && SameExcept(b, c, second) && first <= all && second <= all
    ensures SameExcept(a, c, all)
  {
    forall p | p !in all ensures SameAt(a, c, p) {
      assert SameAt(a, b, p) && SameAt(b, c, p);
    }
  }

  // ---------- one update ----------

  datatype Update = Update(root: Path, staging: Path, backup: Path, files: seq<Path>)

  function Target(u: Update, rel: Path): Path { Under(u.root, rel) }

  function Temporary(u: Update, rel: Path): Path { TemporaryOf(Target(u, rel)) }

  /** Every path the replace loop may write. */
  function Touched(u: Update): set<Path>
  {
    (set rel | rel in u.files :: Target(u, rel)) + (set rel | rel in u.files :: Temporary(u, rel))
  }

  /** The backup copies of the listed files. */
  function Copies(u: Update): set<Path>
  {
    set rel | rel in u.files :: Under(u.backup, rel)
  }

  /** The replaced files lie outside the staging and backup directories, and those do not overlap. */
  predicate Separated(u: Update)
  {
    && (forall p :: p in Touched(u) ==> !Inside(u.staging, p) && !Inside(u.backup, p))
    && (forall p :: p in Copies(u) ==> !Inside(u.staging, p))
  }

  lemma TouchedHas(u: Update, rel: Path)
    requires rel in u.files
    ensures Target(u, rel) in Touched(u) && Temporary(u, rel) in Touched(u)
  {
  }

  /** `rel` is saved: its backup copy holds the bytes it had at the start. */
  ghost predicate Saved(u: Update, before: map<Path, Bytes>, now: map<Path, Bytes>, rel: Path)
  {
    Target(u, rel) in before ==>
      Under(u.backup, rel) in now && now[Under(u.backup, rel)] == before[Target(u, rel)]
  }

  /** A copy that was not there at the start holds the bytes that its file had at the start. */
  ghost predicate OnlyOldBytes(u: Update, before: map<Path, Bytes>, now: map<Path, Bytes>)
  {
    forall rel :: Under(u.backup, rel) in now && Under(u.backup, rel) !in before ==>
                    Target(u, rel) in before && now[Under(u.backup, rel)] == before[Target(u, rel)]
  }

  /** Copies every existing listed file into the backup directory; `missed` are files a look-up failed to see. */
  method BackupFiles(fs: FileSystem, u: Update) returns (ok: bool, ghost missed: set<Path>)
    requires Separated(u)
    modifies fs
    ensures SameExcept(old(fs.files), fs.files, Copies(u))
    ensures ok ==> forall rel :: rel in u.files && rel !in missed ==> Saved(u, old(fs.files), fs.files, rel)
    ensures ok ==> OnlyOldBytes(u, old(fs.files), fs.files)
    ensures if ok then |missed| <= fs.failures - old(fs.failures) else fs.failures > old(fs.failures)
  {
    missed := {};
    for i := 0 to |u.files|
      invariant SameExcept(old(fs.files), fs.files, Copies(u))
      invariant forall j :: 0 <= j < i && u.files[j] !in missed ==> Saved(u, old(fs.files), fs.files, u.files[j])
      invariant OnlyOldBytes(u, old(fs.files), fs.files)
      invariant |missed| <= fs.failures - old(fs.failures)
    {
      var rel := u.files[i];
      ghost var sofar := fs.files;
      SourceIsNotACopy(u, rel);
      assert SameAt(old(fs.files), fs.files, Target(u, rel));
      var seen, honest := fs.Exists(Target(u, rel));
      if !honest { missed := missed + {rel}; }
      if seen {
        var copied := fs.Copy(Target(u, rel), Under(u.backup, rel));
        Compose(old(fs.files), sofar, fs.files, Copies(u), {Under(u.backup, rel)}, Copies(u));
        if !copied { return false, missed; }
        forall j | 0 <= j < i && u.files[j] !in missed ensures Saved(u, old(fs.files), fs.files, u.files[j]) {
          if Under(u.backup, u.files[j]) == Under(u.backup, rel) { UnderInjective(u.backup, u.files[j], rel); }
        }
        forall r | Under(u.backup, r) in fs.files && Under(u.backup, r) !in old(fs.files)
          ensures Target(u, r) in old(fs.files) && fs.files[Under(u.backup, r)] == old(fs.files)[Target(u, r)]
        {
          if Under(u.backup, r) == Under(u.backup, rel) { UnderInjective(u.backup, r, rel); }
        }
      }
    }
    ok := true;
  }

  lemma SourceIsNotACopy(u: Update, rel: Path)
    requires Separated(u) && rel in u.files
    ensures Target(u, rel) !in Copies(u)
  {
    TouchedHas(u, rel);
    forall r | r in u.files ensures Under(u.backup, r) != Target(u, rel) { UnderInside(u.backup, r); }
  }

  /** Where the replacement of one file ended. */
  datatype Stage = NotStarted | CopyFailed | StillThere | NotRenamed(removed: bool) | Renamed

  /**
   * What each end leaves behind: only a failing copy leaves anything at the temporary; an old file that
   * could not be removed is still there beside the finished temporary; a failing rename leaves the finished
   * temporary alone; and a finished replacement leaves the staged bytes.
   */
  ghost predicate LeftBy(stage: Stage, u: Update, rel: Path, before: map<Path, Bytes>, now: map<Path, Bytes>)
  {
    var (target, temporary, staged) := (Target(u, rel), Temporary(u, rel), Under(u.staging, rel));
    match stage
    case NotStarted => now == before
    case CopyFailed => SameExcept(before, now, {temporary})
    case StillThere => staged in before && now == before[temporary := before[staged]]
    case NotRenamed(removed) =>
      staged in before &&
      now == if removed then before[temporary := before[staged]] - {target} else before[temporary := before[staged]]
    case Renamed =>
      staged in before &&
      now == if temporary == target then before[target := before[staged]]
             else before[target := before[staged]] - {temporary}
  }

  /** One file: copy beside it, remove it, rename over it. Success leaves the staged bytes and no temporary. */
  method ReplaceFile(fs: FileSystem, u: Update, rel: Path) returns (ok: bool, ghost honest: bool, ghost stage: Stage)
    requires Separated(u) && rel in u.files
    modifies fs
    ensures SameExcept(old(fs.files), fs.files, {Target(u, rel), Temporary(u, rel)})
    ensures ok ==> Under(u.staging, rel) in old(fs.files) && Target(u, rel) in fs.files &&
                   fs.files[Target(u, rel)] == old(fs.files)[Under(u.staging, rel)]
    ensures ok && honest ==> Temporary(u, rel) !in fs.files && Temporary(u, rel) != Target(u, rel)
    ensures ok <==> stage == Renamed
    ensures LeftBy(stage, u, rel, old(fs.files), fs.files)
    ensures fs.failures >= old(fs.failures) && (!honest ==> fs.failures > old(fs.failures))
    ensures Under(u.staging, rel) in old(fs.files) && Temporary(u, rel) != Target(u, rel) && !ok ==>
              fs.failures > old(fs.failures)
  {
    hide SameExcept, Target, Temporary, Touched, Separated, Under;
    var target, temporary := Target(u, rel), Temporary(u, rel);
    ok, honest, stage := false, true, NotStarted;
    var entered := fs.Open(target);  // its parent directory
    if !entered {
      LeftByMeans(stage, u, rel, old(fs.files), fs.files);
      return;
    }
    var copied := fs.Copy(Under(u.staging, rel), temporary);
    stage := CopyFailed;
    if copied {
      var seen, probe := fs.Exists(target);
      var removed := true;
      if seen { removed := fs.RemoveFile(target); }
      honest, stage := probe, StillThere;
      if removed {
        ok := fs.Rename(temporary, target);
        stage := if ok then Renamed else NotRenamed(seen);
      }
    }
    LeftByMeans(stage, u, rel, old(fs.files), fs.files);
  }

  lemma LeftByMeans(stage: Stage, u: Update, rel: Path, before: map<Path, Bytes>, now: map<Path, Bytes>)
    requires LeftBy(stage, u, rel, before, now)
    ensures SameExcept(before, now, {Target(u, rel), Temporary(u, rel)})
    ensures stage == Renamed ==> HasStaged(u, before, now, rel)
    ensures stage == Renamed && Temporary(u, rel) != Target(u, rel) ==> Temporary(u, rel) !in now
  {
    hide Target, Temporary, Under;
  }

  /** What the finished replace loop promises for `rel`. */
  ghost predicate Replaced(u: Update, before: map<Path, Bytes>, now: map<Path, Bytes>, rel: Path)
  {
    && Under(u.staging, rel) in before
    && Target(u, rel) in now && now[Target(u, rel)] == before[Under(u.staging, rel)]
    && Temporary(u, rel) !in now && Temporary(u, rel) != Target(u, rel)
  }

  // ---------- where the replace loop stops ----------

  /** No listed file exists under a temporary name, nor is itself called like one. */
  ghost predicate CleanStart(u: Update, before: map<Path, Bytes>)
  {
    forall rel :: rel in u.files ==> Temporary(u, rel) !in before && Temporary(u, rel) != Target(u, rel)
  }

  /** The first `done` listed files have been replaced. */
  function Finished(u: Update, done: nat): set<Path>
    requires done <= |u.files|
  {
    set j | 0 <= j < done :: Target(u, u.files[j])
  }

  /** The loop has replaced `done` files, and the next one has left its temporary behind. */
  predicate TemporaryLeft(u: Update, now: map<Path, Bytes>, done: nat)
  {
    done < |u.files| && Temporary(u, u.files[done]) in now
  }

  /**
   * A stop after `done` files: these hold their staged bytes, and apart from them nothing has changed, unless
   * the next file has left its temporary behind.
   */
  ghost predicate StoppedAt(u: Update, before: map<Path, Bytes>, now: map<Path, Bytes>, done: nat)
  {
    done <= |u.files| &&
    if TemporaryLeft(u, now, done) then
      SameExcept(before, now, Finished(u, done) + {Target(u, u.files[done]), Temporary(u, u.files[done])})
    else Advanced(u, before, now, done)
  }

  ghost predicate Advanced(u: Update, before: map<Path, Bytes>, now: map<Path, Bytes>, done: nat)
    requires done <= |u.files|
  {
    SameExcept(before, now, Finished(u, done)) &&
    forall j :: 0 <= j < done ==> HasStaged(u, before, now, u.files[j])
  }

  predicate HasStaged(u: Update, before: map<Path, Bytes>, now: map<Path, Bytes>, rel: Path)
  {
    Under(u.staging, rel) in before && Target(u, rel) in now && now[Target(u, rel)] == before[Under(u.staging, rel)]
  }

  lemma NoTemporaryYet(u: Update, before: map<Path, Bytes>, now: map<Path, Bytes>, done: nat, rel: Path)
    requires CleanStart(u, before) && done <= |u.files| && Advanced(u, before, now, done) && rel in u.files
    ensures Temporary(u, rel) !in now && Temporary(u, rel) != Target(u, rel)
  {
    TemporaryOfTemporary(Target(u, rel));
    forall j | 0 <= j < done ensures Target(u, u.files[j]) != Temporary(u, rel) {
      assert u.files[j] in u.files;
    }
    assert SameAt(before, now, Temporary(u, rel));
  }

  /** One more file: it is replaced, or its temporary is left, or nothing has changed. */
  lemma NextStop(u: Update, before: map<Path, Bytes>, sofar: map<Path, Bytes>, now: map<Path, Bytes>, done: nat,
                 stage: Stage)
    requires Separated(u) && CleanStart(u, before) && done < |u.files| && Advanced(u, before, sofar, done)
    requires LeftBy(stage, u, u.files[done], sofar, now)
    ensures stage == Renamed ==> Advanced(u, before, now, done + 1)
    ensures stage != Renamed ==> StoppedAt(u, before, now, done)
  {
    hide Separated, CleanStart, Advanced, LeftBy, Target, Temporary, Under, SameExcept, Finished;
    var rel := u.files[done];
    var (target, temporary) := (Target(u, rel), Temporary(u, rel));
    NoTemporaryYet(u, before, sofar, done, rel);
    LeftByMeans(stage, u, rel, sofar, now);
    if stage == Renamed {
      OneMoreFinished(u, before, sofar, now, done);
    } else if TemporaryLeft(u, now, done) {
      AdvancedFrame(u, before, sofar, done);
      Compose(before, sofar, now, Finished(u, done), {target, temporary}, Finished(u, done) + {target, temporary});
    } else {
      NothingLeft(stage, u, rel, sofar, now);
      AdvancedAgain(u, before, sofar, now, done);
    }
  }

  lemma AdvancedFrame(u: Update, before: map<Path, Bytes>, now: map<Path, Bytes>, done: nat)
    requires done <= |u.files| && Advanced(u, before, now, done)
    ensures SameExcept(before, now, Finished(u, done))
  {
  }

  /** If no temporary is left although there was none before, the file has not been touched. */
  lemma NothingLeft(stage: Stage, u: Update, rel: Path, before: map<Path, Bytes>, now: map<Path, Bytes>)
    requires LeftBy(stage, u, rel, before, now) && stage != Renamed
    requires Temporary(u, rel) !in before && Temporary(u, rel) !in now && Temporary(u, rel) != Target(u, rel)
    ensures SameExcept(before, now, {})
  {
    hide Target, Temporary, Under;
  }

  lemma AdvancedAgain(u: Update, before: map<Path, Bytes>, sofar: map<Path, Bytes>, now: map<Path, Bytes>, done: nat)
    requires done <= |u.files| && Advanced(u, before, sofar, done) && SameExcept(sofar, now, {})
    ensures Advanced(u, before, now, done)
  {
    Compose(before, sofar, now, Finished(u, done), {}, Finished(u, done));
    forall j | 0 <= j < done ensures HasStaged(u, before, now, u.files[j]) {
      assert HasStaged(u, before, sofar, u.files[j]) && SameAt(sofar, now, Target(u, u.files[j]));
    }
  }

  lemma OneMoreFinished(u: Update, before: map<Path, Bytes>, sofar: map<Path, Bytes>, now: map<Path, Bytes>, done: nat)
    requires Separated(u) && done < |u.files| && Advanced(u, before, sofar, done)
    requires SameExcept(sofar, now, {Target(u, u.files[done]), Temporary(u, u.files[done])})
    requires HasStaged(u, sofar, now, u.files[done])
    requires Temporary(u, u.files[done]) !in sofar && Temporary(u, u.files[done]) !in now
    ensures Advanced(u, before, now, done + 1)
  {
    hide TemporaryOf, Separated;
    var rel := u.files[done];
    StagedIsUntouched(u, rel);
    FinishedIsTouched(u, done);
    assert SameAt(before, sofar, Under(u.staging, rel));
    assert Finished(u, done + 1) == Finished(u, done) + {Target(u, rel)};
    assert SameExcept(sofar, now, {Target(u, rel)});
    forall j | 0 <= j < done + 1 ensures HasStaged(u, before, now, u.files[j]) {
      if Target(u, u.files[j]) == Target(u, rel) { UnderInjective(u.root, u.files[j], rel); }
      assert j < done ==> HasStaged(u, before, sofar, u.files[j]);
      assert Target(u, u.files[j]) != Target(u, rel) ==> SameAt(sofar, now, Target(u, u.files[j]));
    }
    Compose(before, sofar, now, Finished(u, done), {Target(u, rel)}, Finished(u, done + 1));
  }

  lemma FinishedIsTouched(u: Update, done: nat)
    requires done <= |u.files|
    ensures Finished(u, done) <= Touched(u)
  {
    forall j | 0 <= j < done ensures Target(u, u.files[j]) in Touched(u) { TouchedHas(u, u.files[j]); }
  }

  // ---------- where it stops from any start ----------

  /** No listed file is itself called like a temporary. */
  predicate OwnNames(u: Update)
  {
    forall rel :: rel in u.files ==> Temporary(u, rel) != Target(u, rel)
  }

  /** Everything the first `done` files and their temporaries stand for. */
  function TouchedBy(u: Update, done: nat): set<Path>
    requires done <= |u.files|
  {
    Finished(u, done) + set j | 0 <= j < done :: Temporary(u, u.files[j])
  }

  /** The file at which the loop has stopped, and its temporary. */
  function Current(u: Update, done: nat): set<Path>
  {
    if done < |u.files| then {Target(u, u.files[done]), Temporary(u, u.files[done])} else {}
  }

  /**
   * A stop after `done` files, whatever lay around at the start: apart from the file in progress, the replaced
   * ones hold their staged bytes, and the temporaries they went through are gone, old ones included.
   */
  ghost predicate StoppedSomewhere(u: Update, before: map<Path, Bytes>, now: map<Path, Bytes>, done: nat)
  {
    done <= |u.files| && SameExcept(before, now, TouchedBy(u, done) + Current(u, done)) &&
    forall j :: 0 <= j < done ==>
                  (Target(u, u.files[j]) !in Current(u, done) ==> HasStaged(u, before, now, u.files[j])) &&
                  (Temporary(u, u.files[j]) !in Current(u, done) ==> Temporary(u, u.files[j]) !in now)
  }

  lemma OneMoreTouched(u: Update, before: map<Path, Bytes>, sofar: map<Path, Bytes>, now: map<Path, Bytes>, done: nat)
    requires done < |u.files| && SameExcept(before, sofar, TouchedBy(u, done))
    requires SameExcept(sofar, now, Current(u, done))
    ensures SameExcept(before, now, TouchedBy(u, done + 1))
    ensures (forall j :: 0 <= j < done ==> Replaced(u, before, sofar, u.files[j])) ==>
              StoppedSomewhere(u, before, now, done)
  {
    hide Target, Temporary;
    Compose(before, sofar, now, TouchedBy(u, done), Current(u, done), TouchedBy(u, done) + Current(u, done));
    assert TouchedBy(u, done) + Current(u, done) <= TouchedBy(u, done + 1);
    forall j | 0 <= j < done && Replaced(u, before, sofar, u.files[j])
      ensures Target(u, u.files[j]) !in Current(u, done) ==> HasStaged(u, before, now, u.files[j])
      ensures Temporary(u, u.files[j]) !in Current(u, done) ==> Temporary(u, u.files[j]) !in now
    {
      assert Target(u, u.files[j]) !in Current(u, done) ==> SameAt(sofar, now, Target(u, u.files[j]));
      assert Temporary(u, u.files[j]) !in Current(u, done) ==> SameAt(sofar, now, Temporary(u, u.files[j]));
    }
  }

  lemma AllTouched(u: Update, before: map<Path, Bytes>, now: map<Path, Bytes>)
    requires SameExcept(before, now, TouchedBy(u, |u.files|))
    requires forall j :: 0 <= j < |u.files| ==> Replaced(u, before, now, u.files[j])
    ensures StoppedSomewhere(u, before, now, |u.files|)
  {
    hide Target, Temporary;
    assert TouchedBy(u, |u.files|) + Current(u, |u.files|) == TouchedBy(u, |u.files|);
    assert forall j :: 0 <= j < |u.files| ==> Replaced(u, before, now, u.files[j]);
  }

  // ---------- the whole loop ----------

  /** Every listed file has been staged. */
  predicate AllStaged(u: Update, files: map<Path, Bytes>)
  {
    forall rel :: rel in u.files ==> Under(u.staging, rel) in files
  }

  method ReplaceFiles(fs: FileSystem, u: Update) returns (ok: bool, ghost honest: bool, ghost done: nat)
    requires Separated(u)
    modifies fs
    ensures SameExcept(old(fs.files), fs.files, Touched(u))
    ensures ok && honest ==> forall rel :: rel in u.files ==> Replaced(u, old(fs.files), fs.files, rel)
    ensures done <= |u.files| && (ok <==> done == |u.files|)
    ensures CleanStart(u, old(fs.files)) ==> StoppedAt(u, old(fs.files), fs.files, done)
    ensures OwnNames(u) ==> StoppedSomewhere(u, old(fs.files), fs.files, done)
    ensures fs.failures >= old(fs.failures) && (!honest ==> fs.failures > old(fs.failures))
    ensures OwnNames(u) && AllStaged(u, old(fs.files)) && !ok ==> fs.failures > old(fs.failures)
  {
    hide LeftBy, CleanStart, StoppedSomewhere, TouchedBy, StoppedAt, Advanced, Replaced, Separated, Touched, Target,
      Temporary, HasStaged;
    honest, done := true, 0;
    NothingDone(u, fs.files);
    for i := 0 to |u.files|
      invariant SameExcept(old(fs.files), fs.files, Touched(u)) && done == i
      invariant honest || OwnNames(u) ==> forall j :: 0 <= j < i ==> Replaced(u, old(fs.files), fs.files, u.files[j])
      invariant SameExcept(old(fs.files), fs.files, TouchedBy(u, i))
      invariant fs.failures >= old(fs.failures) && (!honest ==> fs.failures > old(fs.failures))
      invariant CleanStart(u, old(fs.files)) ==> Advanced(u, old(fs.files), fs.files, i)
    {
      var rel := u.files[i];
      ghost var sofar := fs.files;
      StagedIsUntouched(u, rel);
      assert SameAt(old(fs.files), fs.files, Under(u.staging, rel));
      var replaced, probe, stage := ReplaceFile(fs, u, rel);
      TouchedHas(u, rel);
      Compose(old(fs.files), sofar, fs.files, Touched(u), {Target(u, rel), Temporary(u, rel)}, Touched(u));
      honest := honest && probe;
      if CleanStart(u, old(fs.files)) { NextStop(u, old(fs.files), sofar, fs.files, i, stage); }
      OneMoreTouched(u, old(fs.files), sofar, fs.files, i);
      assert OwnNames(u) ==> StoppedSomewhere(u, old(fs.files), fs.files, i);
      if !replaced { return false, honest, i; }
      done := i + 1;
      if honest || OwnNames(u) {
        LeftByMeans(stage, u, rel, sofar, fs.files);
        NowReplaced(u, old(fs.files), sofar, fs.files, rel);
        forall j | 0 <= j < i ensures Replaced(u, old(fs.files), fs.files, u.files[j]) {
          ReplacedStays(u, old(fs.files), sofar, fs.files, u.files[j], rel);
        }
      }
    }
    AllDone(u, old(fs.files), fs.files);
    if OwnNames(u) { AllTouched(u, old(fs.files), fs.files); }
    ok := true;
  }

  lemma NothingDone(u: Update, files: map<Path, Bytes>)
    ensures Advanced(u, files, files, 0)
  {
  }

  lemma AllDone(u: Update, before: map<Path, Bytes>, now: map<Path, Bytes>)
    ensures Advanced(u, before, now, |u.files|) ==> StoppedAt(u, before, now, |u.files|)
  {
  }

  lemma NowReplaced(u: Update, before: map<Path, Bytes>, sofar: map<Path, Bytes>, now: map<Path, Bytes>, rel: Path)
    requires SameAt(before, sofar, Under(u.staging, rel)) && HasStaged(u, sofar, now, rel)
    requires Temporary(u, rel) !in now && Temporary(u, rel) != Target(u, rel)
    ensures Replaced(u, before, now, rel)
  {
  }

  lemma StagedIsUntouched(u: Update, rel: Path)
    requires Separated(u)
    ensures Under(u.staging, rel) !in Touched(u)
  {
    UnderInside(u.staging, rel);
  }

  /** Replacing a later file cannot disturb an earlier one, even when temporary names are shared. */
  lemma ReplacedStays(u: Update, before: map<Path, Bytes>, sofar: map<Path, Bytes>, now: map<Path, Bytes>,
                      done: Path, rel: Path)
    requires Replaced(u, before, sofar, done) && Replaced(u, before, now, rel)
    requires SameExcept(sofar, now, {Target(u, rel), Temporary(u, rel)})
    ensures Replaced(u, before, now, done)
  {
    TemporaryOfTemporary(Target(u, rel));
    TemporaryOfTemporary(Target(u, done));
    if Target(u, done) == Target(u, rel) { UnderInjective(u.root, done, rel); }
    assert SameAt(sofar, now, Target(u, done)) || Target(u, done) in {Target(u, rel), Temporary(u, rel)};
    assert SameAt(sofar, now, Temporary(u, done)) || Temporary(u, done) in {Target(u, rel), Temporary(u, rel)};
  }

  datatype Outcome = BackupFailed | Stopped | Completed

  /**
   * A completed update leaves every listed file with its staged bytes, no temporary behind, and
   * everything else but the backup directory alone; a stopped one has every old file in the backup. From a
   * clean start it is known where it stopped: `backed` are the files before the first replacement.
   */
  method ApplyUpdate(fs: FileSystem, u: Update)
    returns (outcome: Outcome, ghost missed: set<Path>, ghost honest: bool, ghost backed: map<Path, Bytes>,
             ghost done: nat)
    requires Separated(u)
    modifies fs
    ensures outcome == Completed && honest ==>
              forall rel :: rel in u.files ==> Replaced(u, old(fs.files), fs.files, rel)
    ensures SameExcept(old(fs.files), fs.files, Touched(u) + Copies(u))
    ensures outcome.BackupFailed? ==> SameExcept(old(fs.files), fs.files, Copies(u))
    ensures !outcome.BackupFailed? ==>
              (forall rel :: rel in u.files && rel !in missed ==> Saved(u, old(fs.files), fs.files, rel)) &&
              SameExcept(old(fs.files), backed, Copies(u)) && SameExcept(backed, fs.files, Touched(u)) &&
              OnlyOldBytes(u, old(fs.files), backed) &&
              (CleanStart(u, old(fs.files)) ==> StoppedAt(u, backed, fs.files, done)) &&
              (OwnNames(u) ==> StoppedSomewhere(u, backed, fs.files, done))
    ensures done <= |u.files| && (outcome.Completed? <==> done == |u.files| && !outcome.BackupFailed?)
    ensures fs.failures >= old(fs.failures)
    ensures !honest || outcome.BackupFailed? ==> fs.failures > old(fs.failures)
    ensures |missed| <= fs.failures - old(fs.failures) || outcome.BackupFailed?
    ensures OwnNames(u) && AllStaged(u, old(fs.files)) && !outcome.Completed? ==> fs.failures > old(fs.failures)
  {
    hide CleanStart, StoppedAt, StoppedSomewhere, OnlyOldBytes;
    honest, backed, done := true, fs.files, 0;
    var entered := fs.Open(u.backup);
    if !entered { return BackupFailed, {}, honest, backed, done; }
    var saved, notSeen := BackupFiles(fs, u);
    missed, backed := notSeen, fs.files;
    if !saved { return BackupFailed, missed, honest, backed, done; }
    StillClean(u, old(fs.files), backed);
    var replaced, probe, finished := ReplaceFiles(fs, u);
    honest, done := probe, finished;
    outcome := if replaced then Completed else Stopped;
    Compose(old(fs.files), backed, fs.files, Copies(u), Touched(u), Touched(u) + Copies(u));
    forall rel | rel in u.files ensures SameAt(backed, fs.files, Under(u.backup, rel)) {
      UnderInside(u.backup, rel);
    }
    forall rel | rel in u.files ensures SameAt(old(fs.files), backed, Under(u.staging, rel)) {
      UnderInside(u.staging, rel);
    }
  }

  /** Making the backup creates no temporary. */
  lemma StillClean(u: Update, before: map<Path, Bytes>, backed: map<Path, Bytes>)
    requires Separated(u) && SameExcept(before, backed, Copies(u))
    ensures CleanStart(u, before) ==> CleanStart(u, backed)
  {
    if CleanStart(u, before) {
      forall rel | rel in u.files ensures Temporary(u, rel) !in backed {
        TouchedHas(u, rel);
        CopiesAreInside(u, Temporary(u, rel));
        assert SameAt(before, backed, Temporary(u, rel));
      }
    }
  }

  lemma CopiesAreInside(u: Update, p: Path)
    ensures p in Copies(u) ==> Inside(u.backup, p)
  {
    forall rel | rel in u.files ensures Inside(u.backup, Under(u.backup, rel)) { UnderInside(u.backup, rel); }
  }

  // ---------- rollback ----------

  /** The backup directory holds nothing but copies this update made. */
  predicate OwnBackup(u: Update, files: map<Path, Bytes>)
  {
    forall p :: p in files && Inside(u.backup, p) ==> p in Copies(u)
  }

  /** The listed files that have a copy in the backup. */
  function Restorable(u: Update, files: map<Path, Bytes>): set<Path>
  {
    set rel | rel in u.files && Under(u.backup, rel) in files :: Target(u, rel)
  }

  /**
   * Copies every backed-up file over its target and touches nothing else, neither temporaries nor new files.
   * Success or not, the backup itself is never changed.
   */
  method Rollback(fs: FileSystem, u: Update) returns (ok: bool)
    requires Separated(u) && OwnBackup(u, fs.files)
    modifies fs
    ensures SameExcept(old(fs.files), fs.files, Restorable(u, old(fs.files)))
    ensures forall p :: Inside(u.backup, p) ==> SameAt(old(fs.files), fs.files, p)
    ensures ok ==> forall rel :: rel in u.files && Under(u.backup, rel) in old(fs.files) ==>
                     Target(u, rel) in fs.files && fs.files[Target(u, rel)] == old(fs.files)[Under(u.backup, rel)]
    ensures fs.failures >= old(fs.failures) && (!ok ==> fs.failures > old(fs.failures))
  {
    ok := false;
    RestorableIsTouched(u, fs.files);
    var entered := fs.Open(u.backup);
    if !entered { return; }
    var all := set p | p in fs.files && Inside(u.backup, p);
    var todo := all;
    while todo != {}
      invariant todo <= all && SameExcept(old(fs.files), fs.files, Restorable(u, old(fs.files)))
      invariant fs.failures >= old(fs.failures)
      invariant forall rel :: Under(u.backup, rel) in all - todo ==>
                  Target(u, rel) in fs.files && fs.files[Target(u, rel)] == old(fs.files)[Under(u.backup, rel)]
      decreases todo
    {
      var p :| p in todo;
      var rel := p[|u.backup| + 1..];
      InsideUnder(u.backup, p);
      ListedCopy(u, rel);
      ghost var sofar := fs.files;
      assert SameAt(old(fs.files), fs.files, p);
      var copied := fs.Copy(p, Target(u, rel));
      Compose(old(fs.files), sofar, fs.files, Restorable(u, old(fs.files)), {Target(u, rel)},
              Restorable(u, old(fs.files)));
      if !copied { return; }
      forall r | Under(u.backup, r) in all - (todo - {p})
        ensures Target(u, r) in fs.files && fs.files[Target(u, r)] == old(fs.files)[Under(u.backup, r)]
      {
        if Target(u, r) == Target(u, rel) { UnderInjective(u.root, r, rel); }
        if Under(u.backup, r) == p { UnderInjective(u.backup, r, rel); }
        assert Target(u, r) != Target(u, rel) ==> SameAt(sofar, fs.files, Target(u, r));
      }
      todo := todo - {p};
    }
    forall rel | rel in u.files && Under(u.backup, rel) in old(fs.files) ensures Under(u.backup, rel) in all {
      UnderInside(u.backup, rel);
    }
    ok := true;
  }

  lemma RestorableIsTouched(u: Update, files: map<Path, Bytes>)
    ensures Restorable(u, files) <= Touched(u)
    ensures Separated(u) ==> forall p :: p in Restorable(u, files) ==> !Inside(u.backup, p)
  {
    forall rel | rel in u.files ensures Target(u, rel) in Touched(u) { TouchedHas(u, rel); }
  }

  lemma ListedCopy(u: Update, rel: Path)
    requires Under(u.backup, rel) in Copies(u)
    ensures rel in u.files && Target(u, rel) in Touched(u)
  {
    var r :| r in u.files && Under(u.backup, r) == Under(u.backup, rel);
    UnderInjective(u.backup, r, rel);
  }

  // ---------- stopping and rolling back ----------

  /** Everything outside the backup directory is exactly as before. */
  ghost predicate AsBefore(u: Update, before: map<Path, Bytes>, now: map<Path, Bytes>)
  {
    forall p :: !Inside(u.backup, p) ==> SameAt(before, now, p)
  }

  /** Undoing the replacement of `rel` brings back what was there: it has a copy, or the update did not change it. */
  predicate Undoable(u: Update, before: map<Path, Bytes>, stopped: map<Path, Bytes>, rel: Path)
  {
    Target(u, rel) in before &&
    (Under(u.backup, rel) in stopped ||
     (Under(u.staging, rel) in before && before[Under(u.staging, rel)] == before[Target(u, rel)]))
  }

  /** What a successful rollback does to the files it finds. */
  ghost predicate RolledBack(u: Update, stopped: map<Path, Bytes>, now: map<Path, Bytes>)
  {
    SameExcept(stopped, now, Restorable(u, stopped)) &&
    forall rel :: rel in u.files && Under(u.backup, rel) in stopped ==>
                    Target(u, rel) in now && now[Target(u, rel)] == stopped[Under(u.backup, rel)]
  }

  /** The files at the start, after the backup, and when the replace loop had stopped. */
  ghost predicate BackedUp(u: Update, before: map<Path, Bytes>, backed: map<Path, Bytes>, stopped: map<Path, Bytes>)
  {
    Separated(u) && (forall p :: p in before ==> !Inside(u.backup, p)) &&
    SameExcept(before, backed, Copies(u)) && OnlyOldBytes(u, before, backed) &&
    SameExcept(backed, stopped, Touched(u))
  }

  /** From a clean start, and where the loop stopped. */
  ghost predicate StopOf(u: Update, before: map<Path, Bytes>, backed: map<Path, Bytes>, stopped: map<Path, Bytes>,
                         done: nat)
  {
    BackedUp(u, before, backed, stopped) && CleanStart(u, before) && StoppedAt(u, backed, stopped, done)
  }

  /**
   * From a clean start, a successful rollback brings everything outside the backup back exactly as before if
   * and only if the loop did not stop between the copy and the rename of a file, and every file it had
   * replaced can be undone; a listed file that did not exist before cannot.
   */
  lemma RestoredExactly(u: Update, before: map<Path, Bytes>, backed: map<Path, Bytes>, stopped: map<Path, Bytes>,
                        done: nat, now: map<Path, Bytes>)
    requires StopOf(u, before, backed, stopped, done) && RolledBack(u, stopped, now)
    ensures AsBefore(u, before, now) <==>
            !TemporaryLeft(u, stopped, done) && forall j :: 0 <= j < done ==> Undoable(u, before, stopped, u.files[j])
  {
    if TemporaryLeft(u, stopped, done) {
      TemporaryStays(u, before, backed, stopped, done, now);
    } else {
      forall j | 0 <= j < done && !Undoable(u, before, stopped, u.files[j]) ensures !AsBefore(u, before, now) {
        ReplacementStays(u, before, backed, stopped, done, now, j);
      }
      if forall j :: 0 <= j < done ==> Undoable(u, before, stopped, u.files[j]) {
        forall p | !Inside(u.backup, p) ensures SameAt(before, now, p) {
          EverythingBack(u, before, backed, stopped, done, now, p);
        }
      }
    }
  }

  /** A temporary left behind is not a listed file, so the rollback leaves it. */
  lemma TemporaryStays(u: Update, before: map<Path, Bytes>, backed: map<Path, Bytes>, stopped: map<Path, Bytes>,
                       done: nat, now: map<Path, Bytes>)
    requires StopOf(u, before, backed, stopped, done) && RolledBack(u, stopped, now) && TemporaryLeft(u, stopped, done)
    ensures Temporary(u, u.files[done]) in now && Temporary(u, u.files[done]) !in before && !AsBefore(u, before, now)
  {
    var rel := u.files[done];
    TouchedHas(u, rel);
    TemporaryOfTemporary(Target(u, rel));
    forall r | r in u.files ensures Target(u, r) != Temporary(u, rel) {
      assert Temporary(u, r) != Target(u, r);
    }
    assert SameAt(stopped, now, Temporary(u, rel));
    assert !SameAt(before, now, Temporary(u, rel));
  }

  /** A copy found at the stop was made by this update, from the bytes of a file that existed. */
  lemma CopyIsOld(u: Update, before: map<Path, Bytes>, backed: map<Path, Bytes>, stopped: map<Path, Bytes>,
                  rel: Path)
    requires BackedUp(u, before, backed, stopped) && Under(u.backup, rel) in stopped
    ensures Target(u, rel) in before && stopped[Under(u.backup, rel)] == before[Target(u, rel)]
  {
    UnderInside(u.backup, rel);
    assert Under(u.backup, rel) !in Touched(u);
    assert SameAt(backed, stopped, Under(u.backup, rel));
  }

  lemma WithoutCopy(u: Update, files: map<Path, Bytes>, rel: Path)
    requires Under(u.backup, rel) !in files
    ensures Target(u, rel) !in Restorable(u, files)
  {
    forall r | r in u.files && Under(u.backup, r) in files ensures Target(u, r) != Target(u, rel) {
      if Target(u, r) == Target(u, rel) { UnderInjective(u.root, r, rel); }
    }
  }

  /** Where nothing is left, a replaced file holds the bytes its staged file had at the start. */
  lemma StagedAtStart(u: Update, before: map<Path, Bytes>, backed: map<Path, Bytes>, stopped: map<Path, Bytes>,
                      done: nat, j: nat)
    requires StopOf(u, before, backed, stopped, done) && !TemporaryLeft(u, stopped, done) && j < done
    ensures done <= |u.files| && HasStaged(u, before, stopped, u.files[j]) && !Inside(u.backup, Target(u, u.files[j]))
  {
    hide CleanStart;
    var rel := u.files[j];
    TouchedHas(u, rel);
    UnderInside(u.staging, rel);
    assert HasStaged(u, backed, stopped, rel);
    assert Under(u.staging, rel) !in Copies(u);
    assert SameAt(before, backed, Under(u.staging, rel));
  }

  lemma ReplacementStays(u: Update, before: map<Path, Bytes>, backed: map<Path, Bytes>, stopped: map<Path, Bytes>,
                         done: nat, now: map<Path, Bytes>, j: nat)
    requires StopOf(u, before, backed, stopped, done) && RolledBack(u, stopped, now) && !TemporaryLeft(u, stopped, done)
    requires j < done <= |u.files| && !Undoable(u, before, stopped, u.files[j])
    ensures !AsBefore(u, before, now)
  {
    var rel := u.files[j];
    StagedAtStart(u, before, backed, stopped, done, j);
    if Under(u.backup, rel) in stopped { CopyIsOld(u, before, backed, stopped, rel); }
    hide StopOf, Target, Under, Restorable;
    WithoutCopy(u, stopped, rel);
    assert SameAt(stopped, now, Target(u, rel));
    assert !SameAt(before, now, Target(u, rel));
  }

  lemma EverythingBack(u: Update, before: map<Path, Bytes>, backed: map<Path, Bytes>, stopped: map<Path, Bytes>,
                       done: nat, now: map<Path, Bytes>, p: Path)
    requires StopOf(u, before, backed, stopped, done) && RolledBack(u, stopped, now) && !TemporaryLeft(u, stopped, done)
    requires done <= |u.files| && forall j :: 0 <= j < done ==> Undoable(u, before, stopped, u.files[j])
    requires !Inside(u.backup, p)
    ensures SameAt(before, now, p)
  {
    if rel :| rel in u.files && Under(u.backup, rel) in stopped && Target(u, rel) == p {
      CopyIsOld(u, before, backed, stopped, rel);
    } else {
      assert p !in Restorable(u, stopped);
      assert SameAt(stopped, now, p);
      if j :| 0 <= j < done && Target(u, u.files[j]) == p {
        StagedAtStart(u, before, backed, stopped, done, j);
        assert Undoable(u, before, stopped, u.files[j]);
      } else {
        UnchangedSoFar(u, before, backed, stopped, done, p);
      }
    }
  }

  lemma UnchangedSoFar(u: Update, before: map<Path, Bytes>, backed: map<Path, Bytes>, stopped: map<Path, Bytes>,
                       done: nat, p: Path)
    requires StopOf(u, before, backed, stopped, done) && !TemporaryLeft(u, stopped, done) && done <= |u.files|
    requires !Inside(u.backup, p) && forall j :: 0 <= j < done ==> Target(u, u.files[j]) != p
    ensures SameAt(before, stopped, p)
  {
    hide Inside, CleanStart;
    CopiesAreInside(u, p);
    assert SameAt(before, backed, p) && SameAt(backed, stopped, p);
  }

  // ---------- rolling back from any start ----------

  /** What a rollback brings back is all there was. */
  ghost predicate NothingLost(u: Update, before: map<Path, Bytes>, stopped: map<Path, Bytes>, done: nat)
    requires done <= |u.files|
  {
    && (forall j :: 0 <= j < done ==>
          (Target(u, u.files[j]) !in Current(u, done) ==> Undoable(u, before, stopped, u.files[j])) &&
          (Temporary(u, u.files[j]) !in Current(u, done) ==> Temporary(u, u.files[j]) !in before))
    && (done < |u.files| ==>
          var rel := u.files[done];
          SameAt(before, stopped, Temporary(u, rel)) &&
          (Under(u.backup, rel) in stopped || SameAt(before, stopped, Target(u, rel))))
  }

  /**
   * From any start, a successful rollback brings everything outside the backup back exactly as before if and
   * only if each replaced file can be undone and has not used up an older temporary, and the file in progress
   * has its temporary as before and its target untouched or saved.
   */
  lemma RestoredFromAnyStart(u: Update, before: map<Path, Bytes>, backed: map<Path, Bytes>,
                             stopped: map<Path, Bytes>, done: nat, now: map<Path, Bytes>)
    requires BackedUp(u, before, backed, stopped) && StoppedSomewhere(u, backed, stopped, done) && OwnNames(u)
    requires RolledBack(u, stopped, now)
    ensures AsBefore(u, before, now) <==> NothingLost(u, before, stopped, done)
  {
    assert done <= |u.files|;
    hide BackedUp, StoppedSomewhere, RolledBack, NothingLost;
    if AsBefore(u, before, now) {
      AsBeforeLosesNothing(u, before, backed, stopped, done, now);
    }
    if NothingLost(u, before, stopped, done) {
      forall p | !Inside(u.backup, p) ensures SameAt(before, now, p) {
        NothingLostIsBack(u, before, backed, stopped, done, now, p);
      }
    }
  }

  /** A rollback changes nothing at a temporary, and at a target only with a copy. */
  lemma NotRestored(u: Update, stopped: map<Path, Bytes>, now: map<Path, Bytes>, rel: Path)
    requires RolledBack(u, stopped, now) && OwnNames(u) && rel in u.files
    ensures SameAt(stopped, now, Temporary(u, rel))
    ensures Under(u.backup, rel) !in stopped ==> SameAt(stopped, now, Target(u, rel))
  {
    hide Target, Under, TemporaryOf;
    TemporaryOfTemporary(Target(u, rel));
    forall r | r in u.files ensures Target(u, r) != Temporary(u, rel) { assert Temporary(u, r) != Target(u, r); }
    if Under(u.backup, rel) !in stopped { WithoutCopy(u, stopped, rel); }
  }

  /** The staged bytes are the same after the backup, and the replaced files lie outside it. */
  lemma OutsideTheBackup(u: Update, before: map<Path, Bytes>, backed: map<Path, Bytes>, stopped: map<Path, Bytes>,
                         rel: Path)
    requires BackedUp(u, before, backed, stopped) && rel in u.files
    ensures !Inside(u.backup, Target(u, rel)) && !Inside(u.backup, Temporary(u, rel))
    ensures SameAt(before, backed, Under(u.staging, rel))
  {
    TouchedHas(u, rel);
    UnderInside(u.staging, rel);
    assert Under(u.staging, rel) !in Copies(u);
  }

  lemma AsBeforeLosesNothing(u: Update, before: map<Path, Bytes>, backed: map<Path, Bytes>,
                             stopped: map<Path, Bytes>, done: nat, now: map<Path, Bytes>)
    requires BackedUp(u, before, backed, stopped) && StoppedSomewhere(u, backed, stopped, done) && OwnNames(u)
    requires RolledBack(u, stopped, now) && AsBefore(u, before, now)
    ensures NothingLost(u, before, stopped, done)
  {
    hide BackedUp, RolledBack, OwnNames, Target, Temporary, Under, Inside;
    forall rel | rel in u.files
      ensures SameAt(before, stopped, Temporary(u, rel))
      ensures Under(u.backup, rel) in stopped ==> Target(u, rel) in before
      ensures Under(u.backup, rel) !in stopped ==> SameAt(before, stopped, Target(u, rel))
      ensures SameAt(before, backed, Under(u.staging, rel))
    {
      NotRestored(u, stopped, now, rel);
      OutsideTheBackup(u, before, backed, stopped, rel);
      if Under(u.backup, rel) in stopped { CopyIsOld(u, before, backed, stopped, rel); }
    }
    assert forall j :: 0 <= j < |u.files| ==> u.files[j] in u.files;
  }

  lemma NothingLostIsBack(u: Update, before: map<Path, Bytes>, backed: map<Path, Bytes>, stopped: map<Path, Bytes>,
                          done: nat, now: map<Path, Bytes>, p: Path)
    requires BackedUp(u, before, backed, stopped) && StoppedSomewhere(u, backed, stopped, done) && OwnNames(u)
    requires RolledBack(u, stopped, now) && NothingLost(u, before, stopped, done) && !Inside(u.backup, p)
    ensures SameAt(before, now, p)
  {
    hide OwnNames, Target, Temporary, Under, Inside;
    if rel :| rel in u.files && Under(u.backup, rel) in stopped && Target(u, rel) == p {
      CopyIsOld(u, before, backed, stopped, rel);
    } else {
      assert SameAt(stopped, now, p);
      if p in TouchedBy(u, done) && p !in Current(u, done) {
        var j :| 0 <= j < done && p in {Target(u, u.files[j]), Temporary(u, u.files[j])};
        OutsideTheBackup(u, before, backed, stopped, u.files[j]);
      } else if p !in Current(u, done) {
        CopiesAreInside(u, p);
        assert SameAt(before, backed, p) && SameAt(backed, stopped, p);
      }
    }
  }

  /**
   * Whatever stops the replace loop, a rollback that succeeds brings back the old bytes of every listed file
   * that was seen when the backup was made. From a clean start and with every look-up of the backup telling
   * the truth, all else is as before, too, if and only if no temporary was left and no new file put in place.
   */
  method StopThenRollback(fs: FileSystem, u: Update)
    returns (restored: bool, ghost missed: set<Path>, ghost stopped: map<Path, Bytes>, ghost done: nat)
    requires Separated(u) && forall p :: p in fs.files ==> !Inside(u.backup, p)
    modifies fs
    ensures SameExcept(old(fs.files), fs.files, Touched(u) + Copies(u))
    ensures restored ==> forall rel :: rel in u.files && rel !in missed && Target(u, rel) in old(fs.files) ==>
                           SameAt(old(fs.files), fs.files, Target(u, rel))
    ensures done <= |u.files|
    ensures restored && CleanStart(u, old(fs.files)) ==>
              (AsBefore(u, old(fs.files), fs.files) <==>
               !TemporaryLeft(u, stopped, done) &&
               forall j :: 0 <= j < done ==> Undoable(u, old(fs.files), stopped, u.files[j]))
    ensures restored && OwnNames(u) ==>
              (AsBefore(u, old(fs.files), fs.files) <==> NothingLost(u, old(fs.files), stopped, done))
    ensures restored && CleanStart(u, old(fs.files)) && missed == {} ==>
              (AsBefore(u, old(fs.files), fs.files) <==>
               !TemporaryLeft(u, stopped, done) && forall j :: 0 <= j < done ==> Target(u, u.files[j]) in old(fs.files))
    ensures fs.failures == old(fs.failures) ==> restored && missed == {}
  {
    hide CleanStart, StoppedAt, StoppedSomewhere, NothingLost, OwnNames, OnlyOldBytes, AsBefore;
    var outcome, notSeen, _, backed, finished := ApplyUpdate(fs, u);
    missed, stopped, done := notSeen, fs.files, finished;
    if outcome.BackupFailed? { return false, missed, stopped, done; }
    forall p | p in fs.files && Inside(u.backup, p) ensures p in Copies(u) {
      assert p in Touched(u) + Copies(u) || SameAt(old(fs.files), fs.files, p);
    }
    restored := Rollback(fs, u);
    RestorableIsTouched(u, stopped);
    Compose(old(fs.files), stopped, fs.files, Touched(u) + Copies(u), Touched(u), Touched(u) + Copies(u));
    if restored {
      forall rel | rel in u.files && rel !in missed && Target(u, rel) in old(fs.files)
        ensures SameAt(old(fs.files), fs.files, Target(u, rel))
      {
        assert Saved(u, old(fs.files), stopped, rel);
      }
      if OwnNames(u) { RestoredFromAnyStart(u, old(fs.files), backed, stopped, done, fs.files); }
      if CleanStart(u, old(fs.files)) {
        RestoredExactly(u, old(fs.files), backed, stopped, done, fs.files);
        forall j | 0 <= j < done && u.files[j] !in missed
          ensures Undoable(u, old(fs.files), stopped, u.files[j]) <==> Target(u, u.files[j]) in old(fs.files)
        {
          assert Saved(u, old(fs.files), stopped, u.files[j]);
        }
      }
    }
  }

  // ---------- three stops that are not undone ----------

  const ONE_FILE := Update("app", "new", "old", ["a"])

  lemma OneFileNames()
    ensures Target(ONE_FILE, "a") == "app/a" && Temporary(ONE_FILE, "a") == "app/a.useful-new"
    ensures Under("new", "a") == "new/a" && Under("old", "a") == "old/a"
    ensures Touched(ONE_FILE) == {"app/a", "app/a.useful-new"} && Copies(ONE_FILE) == {"old/a"} && Separated(ONE_FILE)
  {
    assert "app" + "/" + "a" == "app/" + "a" == "app/a";
    TemporaryOfName("app/", "a");
    assert StemLength("a") == 1 && "a"[..1] == "a" && "app/" + "a" + NEW_EXTENSION == "app/a.useful-new";
    hide TemporaryOf;
    assert "a" in ONE_FILE.files && forall rel :: rel in ONE_FILE.files ==> rel == "a";
    TouchedHas(ONE_FILE, "a");
    assert forall q :: q in Touched(ONE_FILE) ==> q in {"app/a", "app/a.useful-new"};
    assert Under("old", "a") in Copies(ONE_FILE) && forall q :: q in Copies(ONE_FILE) ==> q == "old/a";
    forall dir, q | dir in {"new", "old"} && q in {"app/a", "app/a.useful-new"} ensures !Inside(dir, q) {
      InsideStarts(dir, q);
    }
    InsideStarts("new", "old/a");
  }

  lemma InsideStarts(dir: Path, p: Path)
    requires dir != ""
    ensures Inside(dir, p) ==> p != "" && p[0] == dir[0]
  {
    assert (dir + "/")[0] == dir[0];
  }

  /** Stopped between the copy and the rename: the rollback succeeds and the temporary stays. */
  lemma StopAfterTheCopy()
    ensures var before := map["app/a" := [1], "new/a" := [2]];
            var backed := before["old/a" := [1]];
            var stopped := backed["app/a.useful-new" := [2]];
            LeftBy(StillThere, ONE_FILE, "a", backed, stopped) && StopOf(ONE_FILE, before, backed, stopped, 0) &&
            RolledBack(ONE_FILE, stopped, stopped) && !AsBefore(ONE_FILE, before, stopped)
  {
    hide Target, Temporary, Touched, Copies, Separated, AsBefore;
    OneFileNames();
    var before := map["app/a" := [1], "new/a" := [2]];
    var backed := before["old/a" := [1]];
    var stopped := backed["app/a.useful-new" := [2]];
    InsideStarts("old", "app/a");
    InsideStarts("old", "new/a");
    forall rel | Under("old", rel) in backed && Under("old", rel) !in before ensures rel == "a" {
      UnderInjective("old", rel, "a");
    }
    assert OnlyOldBytes(ONE_FILE, before, backed);
    assert CleanStart(ONE_FILE, before);
    assert TemporaryLeft(ONE_FILE, stopped, 0);
    assert StoppedAt(ONE_FILE, backed, stopped, 0);
    assert Restorable(ONE_FILE, stopped) == {"app/a"};
    TemporaryStays(ONE_FILE, before, backed, stopped, 0, stopped);
  }

  /** A file that did not exist before has been put in place: the rollback succeeds and the file stays. */
  lemma StopAfterANewFile()
    ensures var before := map["new/a" := [2]];
            var stopped := before["app/a" := [2]];
            LeftBy(Renamed, ONE_FILE, "a", before, stopped) && StopOf(ONE_FILE, before, before, stopped, 1) &&
            RolledBack(ONE_FILE, stopped, stopped) && !AsBefore(ONE_FILE, before, stopped)
  {
    hide Target, Temporary, Touched, Copies, Separated, AsBefore;
    OneFileNames();
    var before := map["new/a" := [2]];
    var stopped := before["app/a" := [2]];
    InsideStarts("old", "new/a");
    assert CleanStart(ONE_FILE, before);
    assert ONE_FILE.files[0] == "a" && Finished(ONE_FILE, 1) == {"app/a"} by {
      assert Target(ONE_FILE, ONE_FILE.files[0]) in Finished(ONE_FILE, 1);
    }
    assert StoppedAt(ONE_FILE, before, stopped, 1);
    RestoredExactly(ONE_FILE, before, before, stopped, 1, stopped);
    assert !Undoable(ONE_FILE, before, stopped, ONE_FILE.files[0]);
  }

  /** A temporary from an earlier stop is used up by the replacement: the rollback succeeds and it stays away. */
  lemma StopAfterAnOldTemporary()
    ensures var before := map["app/a" := [1], "app/a.useful-new" := [9], "new/a" := [2]];
            var backed := before["old/a" := [1]];
            var stopped := backed["app/a" := [2]] - {"app/a.useful-new"};
            var now := stopped["app/a" := [1]];
            LeftBy(Renamed, ONE_FILE, "a", backed, stopped) && BackedUp(ONE_FILE, before, backed, stopped) &&
            StoppedSomewhere(ONE_FILE, backed, stopped, 1) && RolledBack(ONE_FILE, stopped, now) &&
            !AsBefore(ONE_FILE, before, now)
  {
    hide Target, Temporary, Touched, Copies, Separated, AsBefore;
    OneFileNames();
    var before := map["app/a" := [1], "app/a.useful-new" := [9], "new/a" := [2]];
    var backed := before["old/a" := [1]];
    var stopped := backed["app/a" := [2]] - {"app/a.useful-new"};
    var now := stopped["app/a" := [1]];
    InsideStarts("old", "app/a");
    InsideStarts("old", "app/a.useful-new");
    InsideStarts("old", "new/a");
    forall rel | Under("old", rel) in backed && Under("old", rel) !in before ensures rel == "a" {
      UnderInjective("old", rel, "a");
    }
    assert ONE_FILE.files[0] == "a" && TouchedBy(ONE_FILE, 1) == {"app/a", "app/a.useful-new"} by {
      assert Target(ONE_FILE, ONE_FILE.files[0]) in TouchedBy(ONE_FILE, 1);
      assert Temporary(ONE_FILE, ONE_FILE.files[0]) in TouchedBy(ONE_FILE, 1);
    }
    assert StoppedSomewhere(ONE_FILE, backed, stopped, 1);
    assert Restorable(ONE_FILE, stopped) == {"app/a"};
    RestoredFromAnyStart(ONE_FILE, before, backed, stopped, 1, now);
    assert !NothingLost(ONE_FILE, before, stopped, 1);
  }
}
