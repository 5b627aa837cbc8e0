/** Which files get diffed. Two filters decide it: one over the files a recursive glob
    finds after checking out the initial commit (docugit.py:236-237), one over the
    names `git diff --name-only` reports that were not among those files
    (docugit.py:264-270). The second is the first without the `Dockerfile` exception. */
module PathFilters {
  import opened PyStr
  import opened Seqs

  /** What the filters read of a `pathlib.Path`: its full text `str(p)`, its last
      component `p.name`, its extension `p.suffix` (dot included, or empty) and its
      components `p.parts`. */
  datatype PathInfo = PathInfo(text: string, name: string, suffix: string, parts: seq<string>)

  /** The filter lists of the configuration file. */
  datatype FilterConfig = FilterConfig(
    fileTypes: seq<string>,
    ignoreFileNames: seq<string>,
    ignoreFileTypes: seq<string>,
    ignoreFolders: seq<string>)

  /** The one file name kept whatever its extension, by the initial filter only. */
  const DockerfileName: string := "Dockerfile"

  /** Paths containing this text are never reported. */
  const ProductionMarker: string := "_production"

  /** `any(suffix == ign for ign in ignoreFileTypes)` */
  predicate SuffixIgnored(cfg: FilterConfig, p: PathInfo)
  {
    exists k | 0 <= k < |cfg.ignoreFileTypes| :: cfg.ignoreFileTypes[k] == p.suffix
  }

  /** `any(ignored in parts for ignored in ignoreFolders)` */
  predicate InIgnoredFolder(cfg: FilterConfig, p: PathInfo)
  {
    exists k | 0 <= k < |cfg.ignoreFolders| :: cfg.ignoreFolders[k] in p.parts
  }

  /** The exclusions both filters apply. */
  predicate NotExcluded(cfg: FilterConfig, p: PathInfo)
  {
    && p.name !in cfg.ignoreFileNames
    && !SuffixIgnored(cfg, p)
    && !Contains(p.text, ProductionMarker)
    && !InIgnoredFolder(cfg, p)
  }

  /** The filter over the files present at the initial commit (docugit.py:236-237). */
  predicate KeepInitial(cfg: FilterConfig, p: PathInfo)
  {
    (p.suffix in cfg.fileTypes || p.name == DockerfileName) && NotExcluded(cfg, p)
  }

  /** The filter over files that are new in the last commit (docugit.py:270). */
  predicate KeepNew(cfg: FilterConfig, p: PathInfo)
  {
    p.suffix in cfg.fileTypes && NotExcluded(cfg, p)
  }

  /** Both filters only get stricter as the configuration does: with fewer file types,
      or more ignored names, extensions or folders, neither keeps a path it dropped. */
  lemma FiltersMonotone(cfg: FilterConfig, stricter: FilterConfig, p: PathInfo)
    requires forall t :: t in stricter.fileTypes ==> t in cfg.fileTypes
    requires forall n :: n in cfg.ignoreFileNames ==> n in stricter.ignoreFileNames
    requires forall t :: t in cfg.ignoreFileTypes ==> t in stricter.ignoreFileTypes
    requires forall f :: f in cfg.ignoreFolders ==> f in stricter.ignoreFolders
    ensures KeepInitial(stricter, p) ==> KeepInitial(cfg, p)
    ensures KeepNew(stricter, p) ==> KeepNew(cfg, p)
  {
    if SuffixIgnored(cfg, p) {
      var k :| 0 <= k < |cfg.ignoreFileTypes| && cfg.ignoreFileTypes[k] == p.suffix;
      assert cfg.ignoreFileTypes[k] in cfg.ignoreFileTypes;
      var m :| 0 <= m < |stricter.ignoreFileTypes| && stricter.ignoreFileTypes[m] == p.suffix;
    }
    if InIgnoredFolder(cfg, p) {
      var k :| 0 <= k < |cfg.ignoreFolders| && cfg.ignoreFolders[k] in p.parts;
      assert cfg.ignoreFolders[k] in cfg.ignoreFolders;
      var m :| 0 <= m < |stricter.ignoreFolders| && stricter.ignoreFolders[m] == cfg.ignoreFolders[k];
    }
  }

  /** The new-file filter keeps less: a path it keeps is kept by the initial filter, and
      the only paths the initial filter keeps on top are `Dockerfile`s whose extension is
      not a configured file type. */
  lemma KeepNewNarrower(cfg: FilterConfig, p: PathInfo)
    ensures KeepNew(cfg, p) ==> KeepInitial(cfg, p)
    ensures KeepInitial(cfg, p) && !KeepNew(cfg, p) <==>
      p.name == DockerfileName && p.suffix !in cfg.fileTypes && NotExcluded(cfg, p)
  {
  }

  /** A `Dockerfile` added in the last commit is not diffed even though one present at
      the initial commit would be (with the usual configuration, where "" is not a file type). */
  lemma NewDockerfileSkipped(cfg: FilterConfig)
    requires "" !in cfg.fileTypes && "" !in cfg.ignoreFileTypes
    requires DockerfileName !in cfg.ignoreFileNames && cfg.ignoreFolders == []
    ensures KeepInitial(cfg, PathInfo("repo/Dockerfile", DockerfileName, "", ["repo", DockerfileName]))
    ensures !KeepNew(cfg, PathInfo("repo/Dockerfile", DockerfileName, "", ["repo", DockerfileName]))
  {
    NotContainsFirstChar("repo/Dockerfile", ProductionMarker);
  }

  /** `initial_files`: the found files the initial filter keeps, in glob order. */
  function InitialFiles(cfg: FilterConfig, found: seq<PathInfo>): (r: seq<PathInfo>)
    ensures forall p :: p in r <==> p in found && KeepInitial(cfg, p)
  {
    var r := Filter(p => KeepInitial(cfg, p), found);
    forall p ensures p in r <==> p in found && KeepInitial(cfg, p) {
      FilterMembership(p => KeepInitial(cfg, p), found, p);
    }
    r
  }

  /** The names reported by `git diff --name-only` that are not initial files and pass
      the new-file filter, in report order. */
  function NewFiles(cfg: FilterConfig, initial: seq<PathInfo>, changed: seq<PathInfo>): (r: seq<PathInfo>)
    ensures forall p :: p in r <==> p in changed && p !in initial && KeepNew(cfg, p)
  {
    var r := Filter(p => p !in initial && KeepNew(cfg, p), changed);
    forall p ensures p in r <==> p in changed && p !in initial && KeepNew(cfg, p) {
      FilterMembership(p => p !in initial && KeepNew(cfg, p), changed, p);
    }
    r
  }

  /** Every file the tool considers diffing for a window: the initial files, and, when
      there is an initial commit to diff against, the new files. */
  function DiffCandidates(cfg: FilterConfig, initialCommitEmpty: bool, found: seq<PathInfo>, changed: seq<PathInfo>): seq<PathInfo>
  {
    var initial := InitialFiles(cfg, found);
    initial + (if initialCommitEmpty then [] else NewFiles(cfg, initial, changed))
  }

  /** Every candidate passes the initial filter; a candidate is either a found file or a
      changed file that was not found; with no initial commit only found files are candidates. */
  lemma DiffCandidatesSound(cfg: FilterConfig, initialCommitEmpty: bool, found: seq<PathInfo>, changed: seq<PathInfo>, p: PathInfo)
    requires p in DiffCandidates(cfg, initialCommitEmpty, found, changed)
    ensures KeepInitial(cfg, p)
    ensures p in found || (!initialCommitEmpty && p in changed && p !in found)
  {
    var initial := InitialFiles(cfg, found);
    if p !in initial {
      assert p in NewFiles(cfg, initial, changed);
      KeepNewNarrower(cfg, p);
    }
  }

  /** Each file is a candidate at most once when the glob and the diff report list each path once. */
  lemma DiffCandidatesNoRepeats(cfg: FilterConfig, initialCommitEmpty: bool, found: seq<PathInfo>, changed: seq<PathInfo>, p: PathInfo)
    requires multiset(found)[p] <= 1 && multiset(changed)[p] <= 1
    ensures multiset(DiffCandidates(cfg, initialCommitEmpty, found, changed))[p] <= 1
  {
    var initial := InitialFiles(cfg, found);
    if !initialCommitEmpty {
      var added := NewFiles(cfg, initial, changed);
      if p in initial {
        assert p !in added;
        assert multiset(added)[p] == 0;
      }
    }
  }
}
