/**
 * The job-lineage resolver of cs2star (cs2star/job_parser.py): `update_dict`, the
 * fill-only-empty merge of two result indexes, and `find_cs_files`, which selects the
 * metadata files of one job by its type, drops the ones that do not exist, and then walks
 * the job's parents in order until all four slots of the index are filled.
 *
 * The specification is given by ghost functions (`Collect`, `Resolve`, `Walk`, `Trace`);
 * the source's in-place algorithm is the class `Files` and the methods `UpdateDict`,
 * `CollectOutputs` and `FindCsFiles`, each proved to compute its specification.
 */
module JobParser {
  import opened Wrappers
  import opened Strings
  import opened Sorting
  import opened Patterns

  /** Paths are strings; see README for how their order relates to Python's `Path` order. */
  type Path = string
  type JobId = string

  /** One entry of a job descriptor's `output_results`. */
  datatype Output = Output(groupName: string, metafiles: seq<string>, passthrough: bool)

  /** A parsed `job.json`: `type`, `output_results` and `parents`. */
  datatype JobDescriptor = JobDescriptor(jobType: string, outputs: seq<Output>, parents: seq<JobId>)

  /**
   * A project directory as plain data: the directory holding the jobs, the descriptor of every
   * job whose `job.json` exists (a job not in `jobs` has none), and the set of existing files.
   */
  datatype Project = Project(root: Path, jobs: map<JobId, JobDescriptor>, existing: set<Path>)

  /** The three selection policies `find_cs_files` dispatches on. */
  datatype Policy = HeteroRefine | ParticleSets | Generic

  function PolicyOf(jobType: string): Policy
  {
    if jobType == "hetero_refine" then HeteroRefine
    else if jobType == "particle_sets" then ParticleSets
    else Generic
  }

  datatype Category = Particles | Micrographs
  datatype Kind = Cs | Passthrough
  datatype Slot = Slot(category: Category, kind: Kind)

  /** The slots in the order the source's nested dictionary lists them. */
  const AllSlots: seq<Slot> :=
    [Slot(Particles, Cs), Slot(Particles, Passthrough), Slot(Micrographs, Cs), Slot(Micrographs, Passthrough)]

  /** The four-slot result of `find_cs_files`: `files[category][kind]`. */
  datatype Index = Index(particlesCs: set<Path>, particlesPassthrough: set<Path>,
                         micrographsCs: set<Path>, micrographsPassthrough: set<Path>)
  {
    function Get(s: Slot): set<Path>
    {
      match s
      case Slot(Particles, Cs) => particlesCs
      case Slot(Particles, Passthrough) => particlesPassthrough
      case Slot(Micrographs, Cs) => micrographsCs
      case Slot(Micrographs, Passthrough) => micrographsPassthrough
    }

    function With(s: Slot, v: set<Path>): (r: Index)
      ensures r.Get(s) == v
      ensures forall t :: t != s ==> r.Get(t) == Get(t)
    {
      match s
      case Slot(Particles, Cs) => this.(particlesCs := v)
      case Slot(Particles, Passthrough) => this.(particlesPassthrough := v)
      case Slot(Micrographs, Cs) => this.(micrographsCs := v)
      case Slot(Micrographs, Passthrough) => this.(micrographsPassthrough := v)
    }

    /** `files[category][kind].add(p)`. */
    function Add(s: Slot, p: Path): (r: Index)
      ensures r.Get(s) == Get(s) + {p}
      ensures forall t :: t != s ==> r.Get(t) == Get(t)
    {
      With(s, Get(s) + {p})
    }

    /** Python's `all(file_set for dct in files.values() for file_set in dct.values())`. */
    predicate Full()
    {
      particlesCs != {} && particlesPassthrough != {} && micrographsCs != {} && micrographsPassthrough != {}
    }
  }

  const EmptyIndex: Index := Index({}, {}, {}, {})

  lemma AllSlotsListsEverySlot()
    ensures forall s: Slot :: s in AllSlots
  {
    forall s: Slot ensures s in AllSlots {
      match s
      case Slot(Particles, Cs) => assert s == AllSlots[0];
      case Slot(Particles, Passthrough) => assert s == AllSlots[1];
      case Slot(Micrographs, Cs) => assert s == AllSlots[2];
      case Slot(Micrographs, Passthrough) => assert s == AllSlots[3];
    }
  }

  lemma IndexExtensionality(a: Index, b: Index)
    requires forall s :: a.Get(s) == b.Get(s)
    ensures a == b
  {
    assert a.Get(Slot(Particles, Cs)) == b.Get(Slot(Particles, Cs));
    assert a.Get(Slot(Particles, Passthrough)) == b.Get(Slot(Particles, Passthrough));
    assert a.Get(Slot(Micrographs, Cs)) == b.Get(Slot(Micrographs, Cs));
    assert a.Get(Slot(Micrographs, Passthrough)) == b.Get(Slot(Micrographs, Passthrough));
  }

  lemma FullMeansEverySlot(idx: Index)
    ensures idx.Full() <==> forall s :: idx.Get(s) != {}
  {
    if !idx.Full() {
      if idx.particlesCs == {} { assert idx.Get(Slot(Particles, Cs)) == {}; }
      else if idx.particlesPassthrough == {} { assert idx.Get(Slot(Particles, Passthrough)) == {}; }
      else if idx.micrographsCs == {} { assert idx.Get(Slot(Micrographs, Cs)) == {}; }
      else { assert idx.Get(Slot(Micrographs, Passthrough)) == {}; }
    }
  }

  /** The only exception the resolver lets through: `metafiles[-1]` on an empty list (`IndexError`). */
  datatype ResolveError = IndexError(job: JobId, groupName: string)

  /** `k2 = 'passthrough' if passthrough else 'cs'`. */
  function KindOf(o: Output): Kind
  {
    if o.passthrough then Passthrough else Cs
  }

  /** `job_dir.parent / file`: metafile names are relative to the project directory. */
  function InProject(root: Path, file: string): Path
  {
    root + "/" + file
  }

  /** The quality markers the generic policy skips. */
  const Blacklist: seq<string> := ["excluded", "incomplete", "remainder", "rejected", "uncategorized"]

  predicate Blacklisted(file: string)
  {
    exists bad :: bad in Blacklist && Contains(file, bad)
  }

  /** The generic policy's classification: "particles" is tested before "micrographs". */
  function CategoryOf(file: string): Option<Category>
  {
    if Contains(file, "particles") then Some(Particles)
    else if Contains(file, "micrographs") then Some(Micrographs)
    else None
  }

  /** The outputs the heterogeneous-refinement policy takes. */
  predicate HeteroSelected(o: Output)
  {
    (!o.passthrough && Contains(o.groupName, "particles_class_"))
    || (o.passthrough && o.groupName == "particles_all_classes")
  }

  /** The outputs the particle-sets policy takes: a `split_<n>` group whose `n` the filter admits. */
  predicate SplitSelected(o: Output, sets: Option<set<int>>)
  {
    match SplitId(o.groupName)
    case None => false
    case Some(n) => sets.None? || n in sets.value
  }

  /** The generic policy's inner loop over one output's metafiles, without the final collapse. */
  function AddMetafiles(acc: Index, root: Path, k: Kind, files: seq<string>): Index
    decreases |files|
  {
    if files == [] then acc
    else
      var prev := AddMetafiles(acc, root, k, files[..|files| - 1]);
      var f := files[|files| - 1];
      if Blacklisted(f) then prev
      else
        match CategoryOf(f)
        case None => prev
        case Some(c) => prev.Add(Slot(c, k), InProject(root, f))
  }

  /** `dct[k] = set(sorted(dct[k])[-1:])` for every slot. */
  ghost function CollapseAll(idx: Index): (r: Index)
  {
    Index(Collapse(idx.particlesCs), Collapse(idx.particlesPassthrough),
          Collapse(idx.micrographsCs), Collapse(idx.micrographsPassthrough))
  }

  /** The effect of one output on the node-local index, for each policy. */
  ghost function CollectOne(root: Path, job: JobId, policy: Policy, acc: Index, o: Output,
                            sets: Option<set<int>>): Result<Index, ResolveError>
  {
    match policy
    case HeteroRefine =>
      if !HeteroSelected(o) then Ok(acc)
      else if |o.metafiles| == 0 then Err(IndexError(job, o.groupName))
      else Ok(acc.Add(Slot(Particles, KindOf(o)), InProject(root, o.metafiles[|o.metafiles| - 1])))
    case ParticleSets =>
      if !SplitSelected(o, sets) then Ok(acc)
      else if |o.metafiles| == 0 then Err(IndexError(job, o.groupName))
      else Ok(acc.Add(Slot(Particles, KindOf(o)), InProject(root, o.metafiles[|o.metafiles| - 1])))
    case Generic =>
      Ok(CollapseAll(AddMetafiles(acc, root, KindOf(o), o.metafiles)))
  }

  /** The loop over `output_results`: the node-local index, or the first exception raised. */
  ghost function Collect(root: Path, job: JobId, policy: Policy, outs: seq<Output>,
                         sets: Option<set<int>>): Result<Index, ResolveError>
    decreases |outs|
  {
    if outs == [] then Ok(EmptyIndex)
    else
      match Collect(root, job, policy, outs[..|outs| - 1], sets)
      case Err(e) => Err(e)
      case Ok(acc) => CollectOne(root, job, policy, acc, outs[|outs| - 1], sets)
  }

  /** The existence filter: every slot keeps only the files that exist. */
  function KeepExisting(idx: Index, existing: set<Path>): (r: Index)
    ensures forall s :: r.Get(s) == idx.Get(s) * existing
  {
    Index(idx.particlesCs * existing, idx.particlesPassthrough * existing,
          idx.micrographsCs * existing, idx.micrographsPassthrough * existing)
  }

  /** `update_dict(d1, d2)`: a slot of `d1` that is empty receives `d2`'s slot; the others stay. */
  function Merge(d1: Index, d2: Index): (r: Index)
    ensures forall s :: r.Get(s) == if d1.Get(s) == {} then d2.Get(s) else d1.Get(s)
  {
    Index(if d1.particlesCs == {} then d2.particlesCs else d1.particlesCs,
          if d1.particlesPassthrough == {} then d2.particlesPassthrough else d1.particlesPassthrough,
          if d1.micrographsCs == {} then d2.micrographsCs else d1.micrographsCs,
          if d1.micrographsPassthrough == {} then d2.micrographsPassthrough else d1.micrographsPassthrough)
  }

  /**
   * The source has no cycle detection; the model assumes an acyclic parent graph, witnessed by
   * a rank that decreases from every job to each of its parents that has a descriptor.
   */
  ghost predicate Ranked(proj: Project, rank: map<JobId, nat>)
  {
    forall j :: j in proj.jobs ==>
      j in rank && forall p :: p in proj.jobs[j].parents && p in proj.jobs ==> p in rank && rank[p] < rank[j]
  }

  ghost function Depth(proj: Project, rank: map<JobId, nat>, job: JobId): nat
  {
    if job in proj.jobs && job in rank then rank[job] + 1 else 0
  }

  lemma ParentsShallower(proj: Project, rank: map<JobId, nat>, job: JobId)
    requires Ranked(proj, rank) && job in proj.jobs
    ensures forall p :: p in proj.jobs[job].parents ==> Depth(proj, rank, p) < Depth(proj, rank, job)
  {
  }

  /** `find_cs_files(job_dir, sets)`: the resolved index, or the exception it raises. */
  ghost function Resolve(proj: Project, rank: map<JobId, nat>, job: JobId,
                         sets: Option<set<int>>): Result<Index, ResolveError>
    requires Ranked(proj, rank)
    decreases Depth(proj, rank, job), 1
  {
    if job !in proj.jobs then Ok(EmptyIndex)
    else
      var d := proj.jobs[job];
      match Collect(proj.root, job, PolicyOf(d.jobType), d.outputs, sets)
      case Err(e) => Err(e)
      case Ok(local) =>
        ParentsShallower(proj, rank, job);
        Walk(proj, rank, Depth(proj, rank, job), KeepExisting(local, proj.existing), d.parents)
  }

  /** The loop over `parents`: resolve each (without `sets`), merge, and stop once every slot is filled. */
  ghost function Walk(proj: Project, rank: map<JobId, nat>, bound: nat, files: Index,
                      ps: seq<JobId>): Result<Index, ResolveError>
    requires Ranked(proj, rank)
    requires forall p :: p in ps ==> Depth(proj, rank, p) < bound
    decreases bound, 0, |ps|
  {
    if ps == [] then Ok(files)
    else
      match Resolve(proj, rank, ps[0], None)
      case Err(e) => Err(e)
      case Ok(found) =>
        var merged := Merge(files, found);
        if merged.Full() then Ok(merged) else Walk(proj, rank, bound, merged, ps[1..])
  }

  /** The jobs whose `job.json` the call opens, in the order it opens them. */
  ghost function Trace(proj: Project, rank: map<JobId, nat>, job: JobId,
                       sets: Option<set<int>>): seq<JobId>
    requires Ranked(proj, rank)
    decreases Depth(proj, rank, job), 1
  {
    [job] +
    if job !in proj.jobs then []
    else
      var d := proj.jobs[job];
      match Collect(proj.root, job, PolicyOf(d.jobType), d.outputs, sets)
      case Err(_) => []
      case Ok(local) =>
        ParentsShallower(proj, rank, job);
        WalkTrace(proj, rank, Depth(proj, rank, job), KeepExisting(local, proj.existing), d.parents)
  }

  ghost function WalkTrace(proj: Project, rank: map<JobId, nat>, bound: nat, files: Index,
                           ps: seq<JobId>): seq<JobId>
    requires Ranked(proj, rank)
    requires forall p :: p in ps ==> Depth(proj, rank, p) < bound
    decreases bound, 0, |ps|
  {
    if ps == [] then []
    else
      Trace(proj, rank, ps[0], None) +
      match Resolve(proj, rank, ps[0], None)
      case Err(_) => []
      case Ok(found) =>
        var merged := Merge(files, found);
        if merged.Full() then [] else WalkTrace(proj, rank, bound, merged, ps[1..])
  }

  lemma WalkStepFails(proj: Project, rank: map<JobId, nat>, bound: nat, files: Index, ps: seq<JobId>, e: ResolveError)
    requires Ranked(proj, rank) && ps != []
    requires forall p :: p in ps ==> Depth(proj, rank, p) < bound
    requires Resolve(proj, rank, ps[0], None) == Err(e)
    ensures Walk(proj, rank, bound, files, ps) == Err(e)
    ensures WalkTrace(proj, rank, bound, files, ps) == Trace(proj, rank, ps[0], None)
  {
  }

  lemma WalkStepMerges(proj: Project, rank: map<JobId, nat>, bound: nat, files: Index, ps: seq<JobId>, found: Index)
    requires Ranked(proj, rank) && ps != []
    requires forall p :: p in ps ==> Depth(proj, rank, p) < bound
    requires Resolve(proj, rank, ps[0], None) == Ok(found)
    ensures Merge(files, found).Full() ==> Walk(proj, rank, bound, files, ps) == Ok(Merge(files, found))
    ensures Merge(files, found).Full() ==> WalkTrace(proj, rank, bound, files, ps) == Trace(proj, rank, ps[0], None)
    ensures !Merge(files, found).Full() ==>
      Walk(proj, rank, bound, files, ps) == Walk(proj, rank, bound, Merge(files, found), ps[1..])
    ensures !Merge(files, found).Full() ==>
      WalkTrace(proj, rank, bound, files, ps)
      == Trace(proj, rank, ps[0], None) + WalkTrace(proj, rank, bound, Merge(files, found), ps[1..])
  {
  }

  /** The `files` dictionary of `find_cs_files`, which the source fills and rewrites in place. */
  class Files {
    var slots: map<Slot, set<Path>>

    ghost predicate Valid()
      reads this
    {
      forall s: Slot :: s in slots
    }

    function Contents(): Index
      reads this
      requires Valid()
    {
      Index(slots[Slot(Particles, Cs)], slots[Slot(Particles, Passthrough)],
            slots[Slot(Micrographs, Cs)], slots[Slot(Micrographs, Passthrough)])
    }

    constructor ()
      ensures Valid() && Contents() == EmptyIndex
    {
      AllSlotsListsEverySlot();
      slots := map s | s in AllSlots :: {};
    }

    function Full(): (b: bool)
      reads this
      requires Valid()
      ensures b == Contents().Full()
    {
      slots[Slot(Particles, Cs)] != {} && slots[Slot(Particles, Passthrough)] != {}
      && slots[Slot(Micrographs, Cs)] != {} && slots[Slot(Micrographs, Passthrough)] != {}
    }

    method Add(s: Slot, p: Path)
      requires Valid()
      modifies this
      ensures Valid() && Contents() == old(Contents()).Add(s, p)
    {
      slots := slots[s := slots[s] + {p}];
    }

    /** The generic policy's collapse loop: `for dct in files.values(): for k in dct: ...`. */
    method CollapseSlots()
      requires Valid()
      modifies this
      ensures Valid() && Contents() == CollapseAll(old(Contents()))
    {
      var i := 0;
      while i < |AllSlots|
        invariant 0 <= i <= |AllSlots| && Valid()
        invariant forall s :: s in AllSlots[..i] ==> slots[s] == Collapse(old(slots)[s])
        invariant forall s :: s !in AllSlots[..i] ==> slots[s] == old(slots)[s]
      {
        var s := AllSlots[i];
        assert AllSlots[..i + 1] == AllSlots[..i] + [s];
        var kept := KeepLast(slots[s]);
        slots := slots[s := kept];
        i := i + 1;
      }
      assert AllSlots[..i] == AllSlots;
    }

    /** `for f in list(file_set): if not f.exists(): file_set.remove(f)` for one slot. */
    method RemoveMissingFrom(s: Slot, existing: set<Path>)
      requires Valid()
      modifies this
      ensures Valid()
      ensures slots == old(slots)[s := old(slots)[s] * existing]
    {
      ghost var original := slots[s];
      var fileSet := slots[s];
      var pending := fileSet;
      while pending != {}
        invariant pending <= original
        invariant forall x :: x in fileSet <==> x in original && (x in pending || x in existing)
        decreases |pending|
      {
        var f :| f in pending;
        if f !in existing {
          fileSet := fileSet - {f};
        }
        pending := pending - {f};
      }
      assert fileSet == original * existing;
      slots := slots[s := fileSet];
    }

    /** The existence filter over all four slots. */
    method RemoveMissing(existing: set<Path>)
      requires Valid()
      modifies this
      ensures Valid() && Contents() == KeepExisting(old(Contents()), existing)
    {
      var i := 0;
      while i < |AllSlots|
        invariant 0 <= i <= |AllSlots| && Valid()
        invariant forall s :: s in AllSlots[..i] ==> slots[s] == old(slots)[s] * existing
        invariant forall s :: s !in AllSlots[..i] ==> slots[s] == old(slots)[s]
      {
        assert AllSlots[..i + 1] == AllSlots[..i] + [AllSlots[i]];
        RemoveMissingFrom(AllSlots[i], existing);
        i := i + 1;
      }
      assert AllSlots[..i] == AllSlots;
    }
  }

  /** `update_dict(d1, d2)`, in place on `d1`; correct also when `d1` and `d2` are the same object. */
  method UpdateDict(d1: Files, d2: Files)
    requires d1.Valid() && d2.Valid()
    modifies d1
    ensures d1.Valid() && d1.Contents() == Merge(old(d1.Contents()), old(d2.Contents()))
  {
    var i := 0;
    while i < |AllSlots|
      invariant 0 <= i <= |AllSlots| && d1.Valid() && d2.Valid()
      invariant forall s :: s in AllSlots[..i] ==>
        d1.slots[s] == if old(d1.slots)[s] == {} then old(d2.slots)[s] else old(d1.slots)[s]
      invariant forall s :: s !in AllSlots[..i] ==>
        d1.slots[s] == old(d1.slots)[s] && d2.slots[s] == old(d2.slots)[s]
    {
      var s := AllSlots[i];
      assert AllSlots[..i + 1] == AllSlots[..i] + [s];
      if d1.slots[s] == {} {
        d1.slots := d1.slots[s := d1.slots[s] + d2.slots[s]];
      }
      i := i + 1;
    }
    assert AllSlots[..i] == AllSlots;
  }

  /** Once an output raises, the rest of the loop does not run: the exception is the result. */
  lemma {:induction false} CollectErrorPersists(root: Path, job: JobId, policy: Policy, outs: seq<Output>,
                                                sets: Option<set<int>>, i: nat)
    requires i <= |outs| && Collect(root, job, policy, outs[..i], sets).Err?
    ensures Collect(root, job, policy, outs, sets) == Collect(root, job, policy, outs[..i], sets)
    decreases |outs| - i
  {
    if i < |outs| {
      assert outs[..i + 1][..i] == outs[..i];
      CollectErrorPersists(root, job, policy, outs, sets, i + 1);
    } else {
      assert outs[..i] == outs;
    }
  }

  /** The loop over `output_results` of one job, adding into `files` (empty on entry). */
  method CollectOutputs(files: Files, root: Path, job: JobId, policy: Policy, outs: seq<Output>,
                        sets: Option<set<int>>) returns (err: Option<ResolveError>)
    requires files.Valid() && files.Contents() == EmptyIndex
    modifies files
    ensures files.Valid()
    ensures Collect(root, job, policy, outs, sets)
            == if err.None? then Ok(files.Contents()) else Err(err.value)
  {
    var i := 0;
    while i < |outs|
      invariant 0 <= i <= |outs| && files.Valid()
      invariant Collect(root, job, policy, outs[..i], sets) == Ok(files.Contents())
    {
      assert outs[..i + 1][..i] == outs[..i] && outs[..i + 1][i] == outs[i];
      ghost var acc := files.Contents();
      assert Collect(root, job, policy, outs[..i + 1], sets) == CollectOne(root, job, policy, acc, outs[i], sets);
      err := CollectOutput(files, root, job, policy, outs[i], sets);
      if err.Some? {
        CollectErrorPersists(root, job, policy, outs, sets, i + 1);
        return err;
      }
      i := i + 1;
    }
    assert outs[..i] == outs;
    return None;
  }

  /** The body of the loop over `output_results`: what one output adds under the job's policy. */
  method CollectOutput(files: Files, root: Path, job: JobId, policy: Policy, o: Output,
                       sets: Option<set<int>>) returns (err: Option<ResolveError>)
    requires files.Valid()
    modifies files
    ensures files.Valid()
    ensures CollectOne(root, job, policy, old(files.Contents()), o, sets)
            == if err.None? then Ok(files.Contents()) else Err(err.value)
  {
    var k := KindOf(o);
    match policy {
      case HeteroRefine =>
        // the "good" output of a heterogeneous refinement is split into one file per class
        if HeteroSelected(o) {
          if |o.metafiles| == 0 {
            return Some(IndexError(job, o.groupName));
          }
          files.Add(Slot(Particles, k), InProject(root, o.metafiles[|o.metafiles| - 1]));
        }
      case ParticleSets =>
        var matched := SplitId(o.groupName);
        if matched.Some? && (sets.None? || matched.value in sets.value) {
          if |o.metafiles| == 0 {
            return Some(IndexError(job, o.groupName));
          }
          files.Add(Slot(Particles, k), InProject(root, o.metafiles[|o.metafiles| - 1]));
        }
      case Generic =>
        AddGenericMetafiles(files, root, k, o.metafiles);
        files.CollapseSlots();
    }
    return None;
  }

  /** The generic policy's loop over one output's metafiles: skip, classify, add. */
  method AddGenericMetafiles(files: Files, root: Path, k: Kind, metafiles: seq<string>)
    requires files.Valid()
    modifies files
    ensures files.Valid() && files.Contents() == AddMetafiles(old(files.Contents()), root, k, metafiles)
  {
    var j := 0;
    while j < |metafiles|
      invariant 0 <= j <= |metafiles| && files.Valid()
      invariant files.Contents() == AddMetafiles(old(files.Contents()), root, k, metafiles[..j])
    {
      var file := metafiles[j];
      assert metafiles[..j + 1][..j] == metafiles[..j];
      if !Blacklisted(file) {
        var category := CategoryOf(file);
        if category.Some? {
          files.Add(Slot(category.value, k), InProject(root, file));
        }
      }
      j := j + 1;
    }
    assert metafiles[..j] == metafiles;
  }

  /**
   * `find_cs_files(job_dir, sets)`. Returns the filled `files` object, or the exception raised;
   * `visited` lists the jobs whose descriptor it tried to open, in order.
   */
  method FindCsFiles(proj: Project, ghost rank: map<JobId, nat>, job: JobId, sets: Option<set<int>>)
    returns (r: Result<Files, ResolveError>, ghost visited: seq<JobId>)
    requires Ranked(proj, rank)
    ensures r.Ok? ==> fresh(r.value) && r.value.Valid()
    ensures Resolve(proj, rank, job, sets) == if r.Ok? then Ok(r.value.Contents()) else Err(r.error)
    ensures visited == Trace(proj, rank, job, sets)
    decreases Depth(proj, rank, job), 1
  {
    var files := new Files();
    if job !in proj.jobs {
      // the source warns that the job is missing and returns the empty index
      return Ok(files), [job];
    }
    var d := proj.jobs[job];
    var err := CollectOutputs(files, proj.root, job, PolicyOf(d.jobType), d.outputs, sets);
    if err.Some? {
      return Err(err.value), [job];
    }
    files.RemoveMissing(proj.existing);
    ParentsShallower(proj, rank, job);
    var failed, seen := WalkParents(proj, rank, Depth(proj, rank, job), files, d.parents);
    visited := [job] + seen;
    if failed.Some? {
      return Err(failed.value), visited;
    }
    return Ok(files), visited;
  }

  /** The loop over `parents` of `find_cs_files`, merging each parent's index into `files`. */
  method WalkParents(proj: Project, ghost rank: map<JobId, nat>, ghost bound: nat, files: Files,
                     ps: seq<JobId>) returns (err: Option<ResolveError>, ghost visited: seq<JobId>)
    requires Ranked(proj, rank) && files.Valid()
    requires forall p :: p in ps ==> Depth(proj, rank, p) < bound
    modifies files
    ensures files.Valid()
    ensures Walk(proj, rank, bound, old(files.Contents()), ps)
            == if err.None? then Ok(files.Contents()) else Err(err.value)
    ensures visited == WalkTrace(proj, rank, bound, old(files.Contents()), ps)
    decreases bound, 0
  {
    visited := [];
    var i := 0;
    while i < |ps|
      invariant 0 <= i <= |ps| && files.Valid()
      invariant Walk(proj, rank, bound, old(files.Contents()), ps) == Walk(proj, rank, bound, files.Contents(), ps[i..])
      invariant WalkTrace(proj, rank, bound, old(files.Contents()), ps)
                == visited + WalkTrace(proj, rank, bound, files.Contents(), ps[i..])
    {
      var parent := ps[i];
      assert ps[i..][0] == parent && ps[i..][1..] == ps[i + 1..];
      ghost var current, before := files.Contents(), visited;
      var found, seen := FindCsFiles(proj, rank, parent, None);
      visited := visited + seen;
      if found.Err? {
        WalkStepFails(proj, rank, bound, current, ps[i..], found.error);
        return Some(found.error), visited;
      }
      ghost var merged := Merge(current, found.value.Contents());
      WalkStepMerges(proj, rank, bound, current, ps[i..], found.value.Contents());
      UpdateDict(files, found.value);
      assert files.Contents() == merged;
      if files.Full() {
        // found everything we need
        return None, visited;
      }
      assert before + (seen + WalkTrace(proj, rank, bound, merged, ps[i + 1..]))
             == visited + WalkTrace(proj, rank, bound, merged, ps[i + 1..]);
      i := i + 1;
    }
    return None, visited;
  }
}
