/**
 * The packaged `cs2star` command (src/cs2star/cs2star.py) up to the point where files are
 * loaded: it resolves the job's files, lists each slot in sorted order, stops when there is
 * no particle file, reconciles the passthrough counts, and pairs each file with its passthrough.
 * It also rewrites image paths with `fix_path`.
 */
module ResolverFrontEnd {
  import opened Wrappers
  import opened Sorting
  import opened PathNames
  import opened Loading
  import opened JobParser

  /** Why the conversion stops before it loads anything. */
  datatype ConversionError =
    | NoUsableParticles                    // "No usable particle files were found", exit status 1
    | IncompatibleParticlePassthroughs     // ValueError for the particle lists
    | IncompatibleMicrographPassthroughs   // ValueError for the micrograph lists
    | Unresolved(cause: ResolveError)      // an exception raised inside the resolver

  /** The four lists the command builds from the resolver's slots. */
  datatype FileLists = FileLists(particles: seq<Path>, particlesPassthrough: seq<Path>,
                                 micrographs: seq<Path>, micrographsPassthrough: seq<Path>)

  /** `xs` is `sorted(slot)`: the slot's paths, strictly increasing. */
  ghost predicate Lists(xs: seq<Path>, slot: set<Path>)
  {
    StrictlySorted(xs) && forall p :: p in xs <==> p in slot
  }

  /** The sorted lists of the four slots; no particle file stops the command with status 1. */
  method ListResolved(idx: Index) returns (r: Result<FileLists, ConversionError>)
    ensures r.Err? <==> idx.particlesCs == {}
    ensures r.Err? ==> r.error == NoUsableParticles
    ensures r.Ok? ==> Lists(r.value.particles, idx.particlesCs)
                      && Lists(r.value.particlesPassthrough, idx.particlesPassthrough)
                      && Lists(r.value.micrographs, idx.micrographsCs)
                      && Lists(r.value.micrographsPassthrough, idx.micrographsPassthrough)
  {
    var particles := SortedOf(idx.particlesCs);
    if |particles| == 0 {
      return Err(NoUsableParticles);
    }
    var particlesPassthrough := SortedOf(idx.particlesPassthrough);
    var micrographs := SortedOf(idx.micrographsCs);
    var micrographsPassthrough := SortedOf(idx.micrographsPassthrough);
    r := Ok(FileLists(particles, particlesPassthrough, micrographs, micrographsPassthrough));
  }

  /** The count reconciliation of one primary list and its passthrough list. `None` is the `ValueError`. */
  function Reconcile(primary: seq<Path>, passthroughs: seq<Path>): (r: Option<seq<Path>>)
    ensures r.None? <==> |passthroughs| != |primary| && |passthroughs| >= 2
    ensures r.Some? ==> r.value == [] || |r.value| == |primary|
    ensures r.Some? ==> forall p :: p in r.value ==> p in passthroughs
    ensures r.Some? && |passthroughs| == |primary| ==> r.value == passthroughs
  {
    if |primary| != |passthroughs| then
      if |passthroughs| == 0 then Some(passthroughs)
      else if |passthroughs| == 1 then Some(Repeat(passthroughs[0], |primary|))
      else None
    else Some(passthroughs)
  }

  /** A single passthrough file serves every primary file. */
  lemma SinglePassthroughShared(primary: seq<Path>, pt: Path)
    ensures Reconcile(primary, [pt]).Some?
    ensures |Reconcile(primary, [pt]).value| == |primary|
    ensures forall i :: 0 <= i < |primary| ==> Reconcile(primary, [pt]).value[i] == pt
  {
  }

  /** The loading loop as written: `zip(files, passthroughs)`, each file read with its one passthrough. */
  function LoadsAsWritten(files: seq<Path>, passthroughs: seq<Path>): (r: seq<LoadRequest>)
    ensures |r| == if |files| <= |passthroughs| then |files| else |passthroughs|
    ensures forall i :: 0 <= i < |r| ==> r[i] == LoadRequest(files[i], [passthroughs[i]])
  {
    var pairs := Zip(files, passthroughs);
    seq(|pairs|, i requires 0 <= i < |pairs| => LoadRequest(pairs[i].0, [pairs[i].1]))
  }

  /** The loading loop as evidently intended: every file is read, with its passthrough when there is one. */
  function Loads(files: seq<Path>, passthroughs: seq<Path>): (r: seq<LoadRequest>)
    ensures |r| == |files|
    ensures forall i :: 0 <= i < |r| ==> r[i].file == files[i]
    ensures forall i :: 0 <= i < |r| ==> r[i].passthroughs == if i < |passthroughs| then [passthroughs[i]] else []
  {
    seq(|files|, i requires 0 <= i < |files| =>
      LoadRequest(files[i], if i < |passthroughs| then [passthroughs[i]] else []))
  }

  /** When there is at least one passthrough, the loop as written reads every file, with its own passthrough. */
  lemma LoadsAgreeWithPassthroughs(primary: seq<Path>, passthroughs: seq<Path>)
    requires passthroughs != [] && Reconcile(primary, passthroughs).Some?
    ensures var q := Reconcile(primary, passthroughs).value;
      LoadsAsWritten(primary, q) == Loads(primary, q) && |LoadsAsWritten(primary, q)| == |primary|
  {
    var q := Reconcile(primary, passthroughs).value;
    assert |q| == |primary|;
  }

  /** With no passthrough at all, the loop as written reads no file although the primary list is not empty. */
  lemma NoPassthroughLoadsNothing(primary: seq<Path>)
    requires primary != []
    ensures Reconcile(primary, []) == Some([])
    ensures LoadsAsWritten(primary, []) == []
    ensures |Loads(primary, [])| == |primary|
  {
  }

  /** Everything the command decides before it loads data. */
  datatype ConversionPlan = ConversionPlan(lists: FileLists, particleLoads: seq<LoadRequest>,
                                           micrographLoads: seq<LoadRequest>)

  /** What the command does with a resolved index: the checks in their order, then the lists and loads. */
  ghost predicate PlannedFrom(idx: Index, r: Result<ConversionPlan, ConversionError>)
  {
    if idx.particlesCs == {} then r == Err(NoUsableParticles)
    else if |idx.particlesPassthrough| != |idx.particlesCs| && |idx.particlesPassthrough| >= 2 then
      r == Err(IncompatibleParticlePassthroughs)
    else if |idx.micrographsPassthrough| != |idx.micrographsCs| && |idx.micrographsPassthrough| >= 2 then
      r == Err(IncompatibleMicrographPassthroughs)
    else
      && r.Ok?
      && var l := r.value.lists;
      && Lists(l.particles, idx.particlesCs) && Lists(l.particlesPassthrough, idx.particlesPassthrough)
      && Lists(l.micrographs, idx.micrographsCs) && Lists(l.micrographsPassthrough, idx.micrographsPassthrough)
      && Reconcile(l.particles, l.particlesPassthrough).Some?
      && Reconcile(l.micrographs, l.micrographsPassthrough).Some?
      && r.value.particleLoads == Loads(l.particles, Reconcile(l.particles, l.particlesPassthrough).value)
      && r.value.micrographLoads == Loads(l.micrographs, Reconcile(l.micrographs, l.micrographsPassthrough).value)
  }

  /** A strictly sorted listing of a set is as long as the set. */
  lemma ListsLength(xs: seq<Path>, slot: set<Path>)
    requires Lists(xs, slot)
    ensures |xs| == |slot|
  {
    forall x ensures multiset(xs)[x] == if x in slot then 1 else 0 {
      StrictCount(xs, x);
    }
    assert multiset(xs) == multiset(slot);
  }

  /** The command from resolution to the loads, using the intended loading loop. */
  method PlanConversion(proj: Project, ghost rank: map<JobId, nat>, job: JobId, sets: Option<set<int>>)
    returns (r: Result<ConversionPlan, ConversionError>)
    requires Ranked(proj, rank)
    ensures Resolve(proj, rank, job, sets).Err? ==> r == Err(Unresolved(Resolve(proj, rank, job, sets).error))
    ensures Resolve(proj, rank, job, sets).Ok? ==> PlannedFrom(Resolve(proj, rank, job, sets).value, r)
  {
    ghost var visited;
    var found;
    found, visited := FindCsFiles(proj, rank, job, sets);
    if found.Err? {
      return Err(Unresolved(found.error));
    }
    var idx := found.value.Contents();
    var listed := ListResolved(idx);
    if listed.Err? {
      return Err(listed.error);
    }
    var l := listed.value;
    ListsLength(l.particles, idx.particlesCs);
    ListsLength(l.particlesPassthrough, idx.particlesPassthrough);
    ListsLength(l.micrographs, idx.micrographsCs);
    ListsLength(l.micrographsPassthrough, idx.micrographsPassthrough);
    var particlePts := Reconcile(l.particles, l.particlesPassthrough);
    if particlePts.None? {
      return Err(IncompatibleParticlePassthroughs);
    }
    var micrographPts := Reconcile(l.micrographs, l.micrographsPassthrough);
    if micrographPts.None? {
      return Err(IncompatibleMicrographPassthroughs);
    }
    r := Ok(ConversionPlan(l, Loads(l.particles, particlePts.value), Loads(l.micrographs, micrographPts.value)));
  }

  /** `fix_path`: the new parent, then the name of the path's grandparent directory, then its file name;
      "s" is appended when `addS` holds. */
  function FixPath(path: string, newParent: string, addS: bool): string
  {
    Join(Join(newParent, GrandparentName(path)), Name(path)) + (if addS then "s" else "")
  }

  /** The rewritten path is the new parent followed by the grandparent directory and the file name, when present. */
  lemma FixPathParts(path: string, newParent: string)
    ensures var c := Components(path);
      Components(FixPath(path, newParent, false))
      == Components(newParent) + (if |c| >= 3 then [c[|c| - 3]] else []) + (if c != [] then [c[|c| - 1]] else [])
    ensures FixPath(path, newParent, true) == FixPath(path, newParent, false) + "s"
  {
    var c := Components(path);
    assert |c| >= 3 ==> GrandparentName(path) == c[|c| - 3] && IsPart(c[|c| - 3]);
    assert c != [] ==> Name(path) == c[|c| - 1] && IsPart(c[|c| - 1]);
    var g, n := GrandparentName(path), Name(path);
    assert '/' !in g && '/' !in n;
    assert (if IsPart(g) then [g] else []) == (if |c| >= 3 then [c[|c| - 3]] else []);
    assert (if IsPart(n) then [n] else []) == (if c != [] then [c[|c| - 1]] else []);
    JoinAddsPart(newParent, g);
    JoinAddsPart(Join(newParent, g), n);
    assert FixPath(path, newParent, false) == Join(Join(newParent, g), n) + "";
    assert Join(Join(newParent, g), n) + "" == Join(Join(newParent, g), n);
  }

  /** A file `<job>/<dir>/<file>` of the project moves to `<new parent>/<job>/<file>`. */
  lemma FixPathOfJobFile(job: string, dir: string, file: string, newParent: string, addS: bool)
    requires IsPart(job) && IsPart(dir) && IsPart(file)
    requires '/' !in job && '/' !in dir && '/' !in file
    ensures FixPath(job + "/" + dir + "/" + file, newParent, addS)
            == newParent + "/" + job + "/" + file + (if addS then "s" else "")
  {
    var path := job + "/" + dir + "/" + file;
    SegmentsOfJoin(job + "/" + dir, file);
    SegmentsOfJoin(job, dir);
    SegmentsOfPlain(job);
    SegmentsOfPlain(dir);
    SegmentsOfPlain(file);
    assert Segments(path) == [job, dir, file];
    var parts := [job, dir, file];
    assert parts[1..] == [dir, file] && parts[1..][1..] == [file] && parts[1..][1..][1..] == [];
    assert KeepParts([file]) == [file];
    assert KeepParts([dir, file]) == [dir, file];
    assert Components(path) == [job, dir, file];
  }
}
