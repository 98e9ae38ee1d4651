/**
 * Properties of the job-lineage resolver (module JobParser): the merge's precedence and
 * algebra, what each selection policy puts in the node-local index, the existence guarantee,
 * and the order and early stop of the parent walk.
 */
module JobParserProperties {
  import opened Wrappers
  import opened Strings
  import opened Sorting
  import opened Patterns
  import opened JobParser

  // ---------------------------------------------------------------- the merge (update_dict)

  /** Merging the same ancestor index twice changes nothing more than merging it once. */
  lemma MergeIdempotent(d1: Index, d2: Index)
    ensures Merge(Merge(d1, d2), d2) == Merge(d1, d2)
  {
    IndexExtensionality(Merge(Merge(d1, d2), d2), Merge(d1, d2));
  }

  /** An all-empty index is neutral on either side of the merge. */
  lemma MergeEmptyNeutral(d: Index)
    ensures Merge(d, EmptyIndex) == d && Merge(EmptyIndex, d) == d
  {
    IndexExtensionality(Merge(d, EmptyIndex), d);
    IndexExtensionality(Merge(EmptyIndex, d), d);
  }

  /** Merging parents one after the other equals merging their merge: the earliest writer of a slot wins. */
  lemma MergeAssociative(a: Index, b: Index, c: Index)
    ensures Merge(Merge(a, b), c) == Merge(a, Merge(b, c))
  {
    IndexExtensionality(Merge(Merge(a, b), c), Merge(a, Merge(b, c)));
  }

  // ---------------------------------------------------------------- a job without job.json

  /** A missing `job.json` gives the empty index, and no other descriptor is opened. */
  lemma MissingDescriptor(proj: Project, rank: map<JobId, nat>, job: JobId, sets: Option<set<int>>)
    requires Ranked(proj, rank) && job !in proj.jobs
    ensures Resolve(proj, rank, job, sets) == Ok(EmptyIndex)
    ensures Trace(proj, rank, job, sets) == [job]
  {
  }

  // ---------------------------------------------------------------- the two "last metafile" policies

  /** Whether an output is taken under the heterogeneous-refinement or the particle-sets policy. */
  predicate TakesLast(policy: Policy, o: Output, sets: Option<set<int>>)
  {
    match policy
    case HeteroRefine => HeteroSelected(o)
    case ParticleSets => SplitSelected(o, sets)
    case Generic => false
  }

  /** `p` is the last metafile of `o`, which the policy takes and which is of kind `k`. */
  predicate LastFileFrom(root: Path, o: Output, policy: Policy, sets: Option<set<int>>, k: Kind, p: Path)
  {
    TakesLast(policy, o, sets) && KindOf(o) == k && |o.metafiles| > 0
    && p == InProject(root, o.metafiles[|o.metafiles| - 1])
  }

  /** `p` is the last metafile of a taken output of kind `k`. */
  ghost predicate LastFileOf(root: Path, outs: seq<Output>, policy: Policy, sets: Option<set<int>>, k: Kind, p: Path)
  {
    exists i :: 0 <= i < |outs| && LastFileFrom(root, outs[i], policy, sets, k, p)
  }

  /** One output under a policy that keeps last metafiles. */
  lemma LastFileStep(root: Path, job: JobId, policy: Policy, acc: Index, o: Output, sets: Option<set<int>>)
    requires policy != Generic
    ensures CollectOne(root, job, policy, acc, o, sets).Ok? <==> !(TakesLast(policy, o, sets) && |o.metafiles| == 0)
    ensures CollectOne(root, job, policy, acc, o, sets).Ok? ==>
      var r := CollectOne(root, job, policy, acc, o, sets).value;
      r.micrographsCs == acc.micrographsCs && r.micrographsPassthrough == acc.micrographsPassthrough
      && forall k, p :: p in r.Get(Slot(Particles, k)) <==>
           (p in acc.Get(Slot(Particles, k)) || LastFileFrom(root, o, policy, sets, k, p))
  {
  }

  /** Some element of `xs` satisfies `P` iff some element of its prefix `init` does or its last one does. */
  lemma ExistsSnoc<T>(xs: seq<T>, init: seq<T>, P: T -> bool)
    requires xs != [] && init == xs[..|xs| - 1]
    ensures (exists i :: 0 <= i < |xs| && P(xs[i])) <==>
      ((exists i :: 0 <= i < |init| && P(init[i])) || P(xs[|xs| - 1]))
  {
    if exists i :: 0 <= i < |xs| && P(xs[i]) {
      var i :| 0 <= i < |xs| && P(xs[i]);
      if i < |init| { assert init[i] == xs[i]; }
    }
    if exists i :: 0 <= i < |init| && P(init[i]) {
      var i :| 0 <= i < |init| && P(init[i]);
      assert init[i] == xs[i];
    }
  }

  lemma LastFileOfSnoc(root: Path, outs: seq<Output>, policy: Policy, sets: Option<set<int>>, k: Kind, p: Path)
    requires outs != []
    ensures LastFileOf(root, outs, policy, sets, k, p) <==>
        (LastFileOf(root, outs[..|outs| - 1], policy, sets, k, p)
         || LastFileFrom(root, outs[|outs| - 1], policy, sets, k, p))
  {
    ExistsSnoc(outs, outs[..|outs| - 1], o => LastFileFrom(root, o, policy, sets, k, p));
  }

  /** Under either policy that keeps last metafiles: it raises iff a taken output has no metafile; otherwise
      the particle slot of each kind holds exactly the last metafiles of the taken outputs of that kind,
      and the micrograph slots stay empty. */
  lemma {:induction false} LastFilePolicies(root: Path, job: JobId, policy: Policy, outs: seq<Output>, sets: Option<set<int>>)
    requires policy != Generic
    ensures Collect(root, job, policy, outs, sets).Ok?
            <==> forall i :: 0 <= i < |outs| && TakesLast(policy, outs[i], sets) ==> |outs[i].metafiles| > 0
    ensures Collect(root, job, policy, outs, sets).Ok? ==>
      var idx := Collect(root, job, policy, outs, sets).value;
      idx.micrographsCs == {} && idx.micrographsPassthrough == {}
      && forall k, p :: p in idx.Get(Slot(Particles, k)) <==> LastFileOf(root, outs, policy, sets, k, p)
    decreases |outs|
  {
    if outs != [] {
      var prefix := outs[..|outs| - 1];
      var o := outs[|outs| - 1];
      LastFilePolicies(root, job, policy, prefix, sets);
      var c := Collect(root, job, policy, prefix, sets);
      assert forall i :: 0 <= i < |prefix| ==> outs[i] == prefix[i];
      if c.Ok? {
        LastFileStep(root, job, policy, c.value, o, sets);
        forall k, p ensures LastFileOf(root, outs, policy, sets, k, p) <==>
          (LastFileOf(root, prefix, policy, sets, k, p) || LastFileFrom(root, o, policy, sets, k, p))
        {
          LastFileOfSnoc(root, outs, policy, sets, k, p);
        }
      } else {
        var i :| 0 <= i < |prefix| && TakesLast(policy, prefix[i], sets) && |prefix[i].metafiles| == 0;
        assert outs[i] == prefix[i];
      }
    }
  }

  /** A heterogeneous refinement contributes, at its own level, the last metafile of every primary output
      of a `particles_class_` group and of the passthrough output named `particles_all_classes`, and no micrographs. */
  lemma HeteroRefineNode(root: Path, job: JobId, outs: seq<Output>, sets: Option<set<int>>)
    requires forall i :: 0 <= i < |outs| && HeteroSelected(outs[i]) ==> |outs[i].metafiles| > 0
    ensures Collect(root, job, HeteroRefine, outs, sets).Ok?
    ensures var idx := Collect(root, job, HeteroRefine, outs, sets).value;
      idx.micrographsCs == {} && idx.micrographsPassthrough == {}
      && (forall p :: p in idx.particlesCs <==>
            (exists i :: 0 <= i < |outs| && !outs[i].passthrough
               && Contains(outs[i].groupName, "particles_class_") && |outs[i].metafiles| > 0
               && p == InProject(root, outs[i].metafiles[|outs[i].metafiles| - 1])))
      && (forall p :: p in idx.particlesPassthrough <==>
            (exists i :: 0 <= i < |outs| && outs[i].passthrough
               && outs[i].groupName == "particles_all_classes" && |outs[i].metafiles| > 0
               && p == InProject(root, outs[i].metafiles[|outs[i].metafiles| - 1])))
  {
    LastFilePolicies(root, job, HeteroRefine, outs, sets);
    var idx := Collect(root, job, HeteroRefine, outs, sets).value;
    assert idx.particlesCs == idx.Get(Slot(Particles, Cs));
    assert idx.particlesPassthrough == idx.Get(Slot(Particles, Passthrough));
  }

  /** A particle-sets job contributes the last metafile of exactly the `split_<n>` outputs whose `n`
      the filter admits (all of them without a filter), each under its own passthrough flag. */
  lemma ParticleSetsNode(root: Path, job: JobId, outs: seq<Output>, sets: Option<set<int>>, k: Kind, p: Path)
    requires forall i :: 0 <= i < |outs| && SplitSelected(outs[i], sets) ==> |outs[i].metafiles| > 0
    ensures Collect(root, job, ParticleSets, outs, sets).Ok?
    ensures var idx := Collect(root, job, ParticleSets, outs, sets).value;
      idx.micrographsCs == {} && idx.micrographsPassthrough == {}
      && (p in idx.Get(Slot(Particles, k)) <==>
            (exists i :: 0 <= i < |outs|
               && SplitId(outs[i].groupName).Some?
               && (sets.None? || SplitId(outs[i].groupName).value in sets.value)
               && KindOf(outs[i]) == k && |outs[i].metafiles| > 0
               && p == InProject(root, outs[i].metafiles[|outs[i].metafiles| - 1])))
  {
    LastFilePolicies(root, job, ParticleSets, outs, sets);
    var idx := Collect(root, job, ParticleSets, outs, sets).value;
    if p in idx.Get(Slot(Particles, k)) {
      var i :| 0 <= i < |outs| && LastFileFrom(root, outs[i], ParticleSets, sets, k, p);
      assert SplitSelected(outs[i], sets);
    }
    if exists i :: 0 <= i < |outs|
         && SplitId(outs[i].groupName).Some?
         && (sets.None? || SplitId(outs[i].groupName).value in sets.value)
         && KindOf(outs[i]) == k && |outs[i].metafiles| > 0
         && p == InProject(root, outs[i].metafiles[|outs[i].metafiles| - 1])
    {
      var i :| 0 <= i < |outs|
         && SplitId(outs[i].groupName).Some?
         && (sets.None? || SplitId(outs[i].groupName).value in sets.value)
         && KindOf(outs[i]) == k && |outs[i].metafiles| > 0
         && p == InProject(root, outs[i].metafiles[|outs[i].metafiles| - 1]);
      assert LastFileFrom(root, outs[i], ParticleSets, sets, k, p);
    }
  }

  lemma ScenarioSplitIds()
    ensures SplitId("split_0") == Some(0) && SplitId("split_1") == Some(1) && SplitId("split_2") == Some(2)
  {
    SplitIdOfLabel(0);
    SplitIdOfLabel(1);
    SplitIdOfLabel(2);
    assert SplitMarker + DecimalDigits(0) == "split_0";
    assert SplitMarker + DecimalDigits(1) == "split_1";
    assert SplitMarker + DecimalDigits(2) == "split_2";
  }

  /** The subset-filter scenario: splits 0, 1 and 2 with filter {0, 2} yield the files of splits 0 and 2 only. */
  lemma SubsetFilterScenario(root: Path, job: JobId, m0: string, m1: string, m2: string)
    ensures var outs := [Output("split_0", [m0], false), Output("split_1", [m1], false), Output("split_2", [m2], false)];
      Collect(root, job, ParticleSets, outs, Some({0, 2}))
      == Ok(Index({InProject(root, m0), InProject(root, m2)}, {}, {}, {}))
  {
    var o0, o1, o2 := Output("split_0", [m0], false), Output("split_1", [m1], false), Output("split_2", [m2], false);
    var only := Some({0, 2});
    ScenarioSplitIds();
    var c1 := Index({InProject(root, m0)}, {}, {}, {});
    var c3 := Index({InProject(root, m0), InProject(root, m2)}, {}, {}, {});
    assert SplitSelected(o0, only) && !SplitSelected(o1, only) && SplitSelected(o2, only);
    assert KindOf(o0) == Cs && KindOf(o2) == Cs;
    assert [o0][..0] == [];
    assert EmptyIndex.Add(Slot(Particles, Cs), InProject(root, m0)) == c1;
    assert Collect(root, job, ParticleSets, [o0], only) == Ok(c1);
    assert [o0, o1][..1] == [o0];
    assert Collect(root, job, ParticleSets, [o0, o1], only) == Ok(c1);
    assert [o0, o1, o2][..2] == [o0, o1];
    assert c1.Add(Slot(Particles, Cs), InProject(root, m2)) == c3;
  }

  // ---------------------------------------------------------------- the generic policy

  /** The generic candidates for slot `s` among some metafiles of an output of kind `k`. */
  ghost function FileCandidates(root: Path, files: seq<string>, k: Kind, s: Slot): set<Path>
  {
    set f | f in files && k == s.kind && !Blacklisted(f) && CategoryOf(f) == Some(s.category) :: InProject(root, f)
  }

  /** Every candidate the generic policy sees for slot `s` across all outputs. */
  ghost function Candidates(root: Path, outs: seq<Output>, s: Slot): set<Path>
  {
    set i, f | 0 <= i < |outs| && f in outs[i].metafiles && KindOf(outs[i]) == s.kind
                && !Blacklisted(f) && CategoryOf(f) == Some(s.category) :: InProject(root, f)
  }

  lemma {:induction false} AddMetafilesAdds(acc: Index, root: Path, k: Kind, files: seq<string>, s: Slot)
    ensures AddMetafiles(acc, root, k, files).Get(s) == acc.Get(s) + FileCandidates(root, files, k, s)
    decreases |files|
  {
    if files != [] {
      var prefix := files[..|files| - 1];
      var f := files[|files| - 1];
      AddMetafilesAdds(acc, root, k, prefix, s);
      assert files == prefix + [f];
      assert FileCandidates(root, files, k, s)
             == FileCandidates(root, prefix, k, s) + FileCandidates(root, [f], k, s);
    }
  }

  lemma CandidatesSnoc(root: Path, outs: seq<Output>, s: Slot)
    requires outs != []
    ensures Candidates(root, outs, s) == Candidates(root, outs[..|outs| - 1], s)
      + FileCandidates(root, outs[|outs| - 1].metafiles, KindOf(outs[|outs| - 1]), s)
  {
    var prefix := outs[..|outs| - 1];
    var o := outs[|outs| - 1];
    forall p | p in Candidates(root, outs, s)
      ensures p in Candidates(root, prefix, s) + FileCandidates(root, o.metafiles, KindOf(o), s)
    {
      var i, f :| 0 <= i < |outs| && f in outs[i].metafiles && KindOf(outs[i]) == s.kind
                  && !Blacklisted(f) && CategoryOf(f) == Some(s.category) && p == InProject(root, f);
      if i < |prefix| { assert prefix[i] == outs[i]; }
    }
    forall p | p in Candidates(root, prefix, s) ensures p in Candidates(root, outs, s) {
      var i, f :| 0 <= i < |prefix| && f in prefix[i].metafiles && KindOf(prefix[i]) == s.kind
                  && !Blacklisted(f) && CategoryOf(f) == Some(s.category) && p == InProject(root, f);
      assert outs[i] == prefix[i];
    }
    forall p | p in FileCandidates(root, o.metafiles, KindOf(o), s) ensures p in Candidates(root, outs, s) {
      var f :| f in o.metafiles && KindOf(o) == s.kind && !Blacklisted(f)
               && CategoryOf(f) == Some(s.category) && p == InProject(root, f);
      assert outs[|outs| - 1] == o;
    }
  }

  /** One more generic output: if each slot held the greatest candidate of the earlier outputs, it now holds
      the greatest candidate of all of them. */
  lemma GenericStep(root: Path, outs: seq<Output>, acc: Index, s: Slot)
    requires outs != []
    requires acc.Get(s) == Collapse(Candidates(root, outs[..|outs| - 1], s))
    ensures var o := outs[|outs| - 1];
      CollapseAll(AddMetafiles(acc, root, KindOf(o), o.metafiles)).Get(s) == Collapse(Candidates(root, outs, s))
  {
    var o := outs[|outs| - 1];
    var added := AddMetafiles(acc, root, KindOf(o), o.metafiles);
    AddMetafilesAdds(acc, root, KindOf(o), o.metafiles, s);
    CandidatesSnoc(root, outs, s);
    CollapseAbsorbs(Candidates(root, outs[..|outs| - 1], s), FileCandidates(root, o.metafiles, KindOf(o), s));
    assert CollapseAll(added).Get(s) == Collapse(added.Get(s));
  }

  /** The generic policy never raises, and each slot ends as the greatest of all its candidates:
      collapsing after every output is the same as collapsing once at the end. */
  lemma {:induction false} GenericNode(root: Path, job: JobId, outs: seq<Output>, sets: Option<set<int>>)
    ensures Collect(root, job, Generic, outs, sets).Ok?
    ensures forall s :: Collect(root, job, Generic, outs, sets).value.Get(s) == Collapse(Candidates(root, outs, s))
    decreases |outs|
  {
    if outs == [] {
      forall s ensures EmptyIndex.Get(s) == Collapse(Candidates(root, outs, s)) {
        assert Candidates(root, outs, s) == {};
      }
    } else {
      var prefix := outs[..|outs| - 1];
      var o := outs[|outs| - 1];
      GenericNode(root, job, prefix, sets);
      var acc := Collect(root, job, Generic, prefix, sets).value;
      var r := CollapseAll(AddMetafiles(acc, root, KindOf(o), o.metafiles));
      assert Collect(root, job, Generic, outs, sets) == Ok(r);
      forall s ensures r.Get(s) == Collapse(Candidates(root, outs, s)) {
        GenericStep(root, outs, acc, s);
      }
    }
  }

  /** Consequences for one generic job: at most one path per slot, the greatest candidate, never a
      blacklisted metafile, and a metafile naming both "particles" and "micrographs" counts as particles. */
  lemma GenericNodeSelection(root: Path, job: JobId, outs: seq<Output>, sets: Option<set<int>>, s: Slot, i: int, f: string)
    requires 0 <= i < |outs| && f in outs[i].metafiles
    ensures Collect(root, job, Generic, outs, sets).Ok?
    ensures var idx := Collect(root, job, Generic, outs, sets).value;
      |idx.Get(s)| <= 1
      && (forall p :: p in idx.Get(s) ==> IsMaxOf(p, Candidates(root, outs, s)))
      && (Blacklisted(f) ==> forall p :: p in idx.Get(s) ==> p != InProject(root, f))
      && (Contains(f, "particles") && s.category == Micrographs ==> InProject(root, f) !in idx.Get(s))
      && (!Blacklisted(f) && CategoryOf(f).Some? && s == Slot(CategoryOf(f).value, KindOf(outs[i])) ==> idx.Get(s) != {})
  {
    GenericNode(root, job, outs, sets);
    var idx := Collect(root, job, Generic, outs, sets).value;
    forall p | p in idx.Get(s) && p == InProject(root, f) ensures !Blacklisted(f) && !(Contains(f, "particles") && s.category == Micrographs) {
      var j, g :| 0 <= j < |outs| && g in outs[j].metafiles && KindOf(outs[j]) == s.kind
                  && !Blacklisted(g) && CategoryOf(g) == Some(s.category) && p == InProject(root, g);
      assert g == f by { assert InProject(root, g)[|root| + 1..] == g && InProject(root, f)[|root| + 1..] == f; }
    }
    if !Blacklisted(f) && CategoryOf(f).Some? && s == Slot(CategoryOf(f).value, KindOf(outs[i])) {
      assert InProject(root, f) in Candidates(root, outs, s);
    }
  }

  // ---------------------------------------------------------------- existence

  /** Every path the resolver returns, from the job or any ancestor, exists in the project. */
  lemma {:induction false} ResolvedPathsExist(proj: Project, rank: map<JobId, nat>, job: JobId, sets: Option<set<int>>)
    requires Ranked(proj, rank) && Resolve(proj, rank, job, sets).Ok?
    ensures forall s :: Resolve(proj, rank, job, sets).value.Get(s) <= proj.existing
    decreases Depth(proj, rank, job), 1
  {
    if job in proj.jobs {
      var d := proj.jobs[job];
      var local := Collect(proj.root, job, PolicyOf(d.jobType), d.outputs, sets).value;
      ParentsShallower(proj, rank, job);
      WalkedPathsExist(proj, rank, Depth(proj, rank, job), KeepExisting(local, proj.existing), d.parents);
    }
  }

  lemma {:induction false} WalkedPathsExist(proj: Project, rank: map<JobId, nat>, bound: nat, files: Index, ps: seq<JobId>)
    requires Ranked(proj, rank)
    requires forall p :: p in ps ==> Depth(proj, rank, p) < bound
    requires forall s :: files.Get(s) <= proj.existing
    requires Walk(proj, rank, bound, files, ps).Ok?
    ensures forall s :: Walk(proj, rank, bound, files, ps).value.Get(s) <= proj.existing
    decreases bound, 0, |ps|
  {
    if ps != [] {
      ResolvedPathsExist(proj, rank, ps[0], None);
      var found := Resolve(proj, rank, ps[0], None).value;
      var merged := Merge(files, found);
      if !merged.Full() {
        WalkedPathsExist(proj, rank, bound, merged, ps[1..]);
      }
    }
  }

  // ---------------------------------------------------------------- precedence

  /** A slot filled before the walk comes out of it unchanged. */
  lemma {:induction false} WalkKeepsFilledSlot(proj: Project, rank: map<JobId, nat>, bound: nat, files: Index,
                                               ps: seq<JobId>, s: Slot)
    requires Ranked(proj, rank)
    requires forall p :: p in ps ==> Depth(proj, rank, p) < bound
    requires files.Get(s) != {} && Walk(proj, rank, bound, files, ps).Ok?
    ensures Walk(proj, rank, bound, files, ps).value.Get(s) == files.Get(s)
    decreases |ps|
  {
    if ps != [] {
      var found := Resolve(proj, rank, ps[0], None).value;
      if !Merge(files, found).Full() {
        WalkKeepsFilledSlot(proj, rank, bound, Merge(files, found), ps[1..], s);
      }
    }
  }

  /** Descendant data wins: a slot the job fills itself (after the existence filter) is the resolved slot,
      whatever its ancestors hold. */
  lemma DescendantPrecedence(proj: Project, rank: map<JobId, nat>, job: JobId, sets: Option<set<int>>, s: Slot)
    requires Ranked(proj, rank) && job in proj.jobs
    requires var d := proj.jobs[job];
      Collect(proj.root, job, PolicyOf(d.jobType), d.outputs, sets).Ok?
      && KeepExisting(Collect(proj.root, job, PolicyOf(d.jobType), d.outputs, sets).value, proj.existing).Get(s) != {}
    requires Resolve(proj, rank, job, sets).Ok?
    ensures var d := proj.jobs[job];
      Resolve(proj, rank, job, sets).value.Get(s)
      == KeepExisting(Collect(proj.root, job, PolicyOf(d.jobType), d.outputs, sets).value, proj.existing).Get(s)
  {
    var d := proj.jobs[job];
    var local := KeepExisting(Collect(proj.root, job, PolicyOf(d.jobType), d.outputs, sets).value, proj.existing);
    ParentsShallower(proj, rank, job);
    WalkKeepsFilledSlot(proj, rank, Depth(proj, rank, job), local, d.parents, s);
  }

  // ---------------------------------------------------------------- order and early stop of the walk

  /** Resolving and merging the given parents one after another, without stopping early. */
  ghost function MergeParents(proj: Project, rank: map<JobId, nat>, files: Index, qs: seq<JobId>): Result<Index, ResolveError>
    requires Ranked(proj, rank)
    decreases |qs|
  {
    if qs == [] then Ok(files)
    else
      match Resolve(proj, rank, qs[0], None)
      case Err(e) => Err(e)
      case Ok(found) => MergeParents(proj, rank, Merge(files, found), qs[1..])
  }

  /** The descriptors opened by resolving the given parents, one after another. */
  ghost function TraceOfParents(proj: Project, rank: map<JobId, nat>, qs: seq<JobId>): seq<JobId>
    requires Ranked(proj, rank)
    decreases |qs|
  {
    if qs == [] then [] else Trace(proj, rank, qs[0], None) + TraceOfParents(proj, rank, qs[1..])
  }

  /** The walk with parents `ps` is the resolution of the prefix `ps[..n]`, merged in declared order:
      no earlier prefix completes the index, and `ps[..n]` fails or completes it unless it is all of `ps`. */
  ghost predicate StopsAfter(proj: Project, rank: map<JobId, nat>, bound: nat, files: Index, ps: seq<JobId>, n: int)
    requires Ranked(proj, rank)
    requires forall p :: p in ps ==> Depth(proj, rank, p) < bound
  {
    && 0 <= n <= |ps| && (ps != [] ==> n >= 1)
    && Walk(proj, rank, bound, files, ps) == MergeParents(proj, rank, files, ps[..n])
    && WalkTrace(proj, rank, bound, files, ps) == TraceOfParents(proj, rank, ps[..n])
    && (forall k :: 1 <= k < n ==> MergeParents(proj, rank, files, ps[..k]).Ok?
                                   && !MergeParents(proj, rank, files, ps[..k]).value.Full())
    && (n < |ps| ==> MergeParents(proj, rank, files, ps[..n]).Err? || MergeParents(proj, rank, files, ps[..n]).value.Full())
  }

  /** Resolving the first parent and then the prefix `qs[1..][..m]` from the merged index is resolving `qs[..m + 1]`. */
  lemma PrefixStep(proj: Project, rank: map<JobId, nat>, files: Index, qs: seq<JobId>, found: Index, m: nat)
    requires Ranked(proj, rank) && qs != [] && m < |qs|
    requires Resolve(proj, rank, qs[0], None) == Ok(found)
    ensures MergeParents(proj, rank, files, qs[..m + 1]) == MergeParents(proj, rank, Merge(files, found), qs[1..][..m])
    ensures TraceOfParents(proj, rank, qs[..m + 1]) == Trace(proj, rank, qs[0], None) + TraceOfParents(proj, rank, qs[1..][..m])
  {
    assert qs[..m + 1][0] == qs[0] && qs[..m + 1][1..] == qs[1..][..m];
  }

  /** When the first parent resolves and does not complete the index, a stop after `m` of the remaining
      parents is a stop after `m + 1` of all of them. */
  lemma StopsAfterStep(proj: Project, rank: map<JobId, nat>, bound: nat, files: Index, ps: seq<JobId>, found: Index, m: nat)
    requires Ranked(proj, rank) && ps != []
    requires forall p :: p in ps ==> Depth(proj, rank, p) < bound
    requires Resolve(proj, rank, ps[0], None) == Ok(found) && !Merge(files, found).Full()
    requires StopsAfter(proj, rank, bound, Merge(files, found), ps[1..], m)
    ensures StopsAfter(proj, rank, bound, files, ps, m + 1)
  {
    var merged := Merge(files, found);
    WalkStepMerges(proj, rank, bound, files, ps, found);
    PrefixStep(proj, rank, files, ps, found, m);
    forall k | 1 <= k < m + 1
      ensures MergeParents(proj, rank, files, ps[..k]).Ok? && !MergeParents(proj, rank, files, ps[..k]).value.Full()
    {
      PrefixStep(proj, rank, files, ps, found, k - 1);
      assert ps[1..][..0] == [];
    }
  }

  /** The walk resolves a prefix `ps[..n]` of the parents, in declared order and without the subset filter:
      always the first parent, then each next one only while the merged index still has an empty slot. */
  lemma {:induction false} WalkStopsAtFirstFull(proj: Project, rank: map<JobId, nat>, bound: nat, files: Index, ps: seq<JobId>)
    requires Ranked(proj, rank)
    requires forall p :: p in ps ==> Depth(proj, rank, p) < bound
    ensures exists n :: StopsAfter(proj, rank, bound, files, ps, n)
    decreases |ps|
  {
    if ps == [] {
      assert ps[..0] == [];
      assert StopsAfter(proj, rank, bound, files, ps, 0);
    } else {
      assert ps[..1] == [ps[0]] && [ps[0]][1..] == [];
      assert TraceOfParents(proj, rank, ps[..1]) == Trace(proj, rank, ps[0], None) + [];
      match Resolve(proj, rank, ps[0], None)
      case Err(e) => {
        WalkStepFails(proj, rank, bound, files, ps, e);
        assert StopsAfter(proj, rank, bound, files, ps, 1);
      }
      case Ok(found) => {
        WalkStepMerges(proj, rank, bound, files, ps, found);
        if Merge(files, found).Full() {
          assert StopsAfter(proj, rank, bound, files, ps, 1);
        } else {
          WalkStopsAtFirstFull(proj, rank, bound, Merge(files, found), ps[1..]);
          var m :| StopsAfter(proj, rank, bound, Merge(files, found), ps[1..], m);
          StopsAfterStep(proj, rank, bound, files, ps, found, m);
        }
      }
    }
  }

  /** Early termination: when the first parent completes the index, the second parent's descriptor is never opened. */
  lemma FirstParentCompletes(proj: Project, rank: map<JobId, nat>, job: JobId, sets: Option<set<int>>, found: Index)
    requires Ranked(proj, rank) && job in proj.jobs
    requires var d := proj.jobs[job];
      Collect(proj.root, job, PolicyOf(d.jobType), d.outputs, sets).Ok?
      && |d.parents| >= 1 && Resolve(proj, rank, d.parents[0], None) == Ok(found)
      && Merge(KeepExisting(Collect(proj.root, job, PolicyOf(d.jobType), d.outputs, sets).value, proj.existing), found).Full()
    ensures Trace(proj, rank, job, sets) == [job] + Trace(proj, rank, proj.jobs[job].parents[0], None)
    ensures Resolve(proj, rank, job, sets).Ok? && Resolve(proj, rank, job, sets).value.Full()
  {
  }

  /** The walk opens the first parent's descriptors before any other. */
  lemma WalkTraceStartsWithFirst(proj: Project, rank: map<JobId, nat>, bound: nat, files: Index, ps: seq<JobId>)
    requires Ranked(proj, rank) && ps != []
    requires forall p :: p in ps ==> Depth(proj, rank, p) < bound
    ensures var t := Trace(proj, rank, ps[0], None);
      |WalkTrace(proj, rank, bound, files, ps)| >= |t| && WalkTrace(proj, rank, bound, files, ps)[..|t|] == t
  {
    match Resolve(proj, rank, ps[0], None)
    case Err(e) => WalkStepFails(proj, rank, bound, files, ps, e);
    case Ok(found) => WalkStepMerges(proj, rank, bound, files, ps, found);
  }

  /** The first parent is always resolved, even when the job fills every slot by itself. */
  lemma FirstParentAlwaysResolved(proj: Project, rank: map<JobId, nat>, job: JobId, sets: Option<set<int>>)
    requires Ranked(proj, rank) && job in proj.jobs
    requires var d := proj.jobs[job];
      Collect(proj.root, job, PolicyOf(d.jobType), d.outputs, sets).Ok? && |d.parents| >= 1
    ensures var t := Trace(proj, rank, proj.jobs[job].parents[0], None);
      |Trace(proj, rank, job, sets)| >= 1 + |t| && Trace(proj, rank, job, sets)[1..1 + |t|] == t
  {
    var d := proj.jobs[job];
    var local := Collect(proj.root, job, PolicyOf(d.jobType), d.outputs, sets).value;
    ParentsShallower(proj, rank, job);
    var files := KeepExisting(local, proj.existing);
    var w := WalkTrace(proj, rank, Depth(proj, rank, job), files, d.parents);
    assert Trace(proj, rank, job, sets) == [job] + w;
    WalkTraceStartsWithFirst(proj, rank, Depth(proj, rank, job), files, d.parents);
  }

  // ---------------------------------------------------------------- the subset filter

  /** Only the particle-sets policy reads the subset filter. */
  lemma {:induction false} CollectIgnoresSets(root: Path, job: JobId, policy: Policy, outs: seq<Output>, sets: Option<set<int>>)
    requires policy != ParticleSets
    ensures Collect(root, job, policy, outs, sets) == Collect(root, job, policy, outs, None)
    decreases |outs|
  {
    if outs != [] {
      CollectIgnoresSets(root, job, policy, outs[..|outs| - 1], sets);
    }
  }

  /** The filter given for a job that is not a particle-sets job changes nothing: parents never receive it. */
  lemma SetsOnlyReachParticleSets(proj: Project, rank: map<JobId, nat>, job: JobId, sets: Option<set<int>>)
    requires Ranked(proj, rank)
    requires job in proj.jobs ==> PolicyOf(proj.jobs[job].jobType) != ParticleSets
    ensures Resolve(proj, rank, job, sets) == Resolve(proj, rank, job, None)
    ensures Trace(proj, rank, job, sets) == Trace(proj, rank, job, None)
  {
    if job in proj.jobs {
      var d := proj.jobs[job];
      CollectIgnoresSets(proj.root, job, PolicyOf(d.jobType), d.outputs, sets);
    }
  }
}
