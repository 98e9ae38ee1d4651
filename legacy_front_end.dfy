/**
 * The legacy `cs2star` script (cs2star/cs2star.py): it scans one job directory, keeps the
 * requested particle sets of a split job (or only the last consolidated file), hands each
 * particle file its passthrough files, and rewrites image paths with `fix_path`.
 */
module LegacyFrontEnd {
  import opened Wrappers
  import opened Strings
  import opened Sorting
  import opened Patterns
  import opened PathNames
  import opened Loading
  import opened DirectoryScan

  /** Why the script stops: no particle file (exit status 1), or a particle path without `split_<n>`,
      on which `re.search(...).group(1)` raises `AttributeError`. */
  datatype LegacyError = NoUsableParticles | NoSplitId(path: Path)

  /** The scan of the job directory, stopping with status 1 when no particle file is found. */
  method Scan(dir: Path, entries: seq<string>) returns (r: Result<Listing, LegacyError>)
    ensures r.Err? <==> Picked(dir, entries, LegacyBlacklist, false) == []
    ensures r.Err? ==> r.error == NoUsableParticles
    ensures r.Ok? ==> Sorted(r.value.particles)
                      && multiset(r.value.particles) == multiset(Picked(dir, entries, LegacyBlacklist, false))
    ensures r.Ok? ==> Sorted(r.value.passthroughs)
                      && multiset(r.value.passthroughs) == multiset(Picked(dir, entries, LegacyBlacklist, true))
  {
    var listing := ScanJobDir(dir, entries, LegacyBlacklist);
    if |listing.particles| == 0 {
      return Err(NoUsableParticles);
    }
    r := Ok(listing);
  }

  /** The loop over `zip(particles, passthroughs)` of the split filter: the pairs whose particle split id
      is in `sets`, or the error of the first particle path with no split id. */
  function KeepSplits(pairs: seq<(Path, Path)>, sets: set<int>): Result<seq<(Path, Path)>, LegacyError>
    decreases |pairs|
  {
    if pairs == [] then Ok([])
    else
      match KeepSplits(pairs[..|pairs| - 1], sets)
      case Err(e) => Err(e)
      case Ok(kept) =>
        var pair := pairs[|pairs| - 1];
        match SplitId(pair.0)
        case None => Err(NoSplitId(pair.0))
        case Some(n) => if n in sets then Ok(kept + [pair]) else Ok(kept)
  }

  /** Whether the pair at position `i` is one the filter keeps. */
  predicate Wanted(pairs: seq<(Path, Path)>, sets: set<int>, i: int)
    requires 0 <= i < |pairs|
  {
    SplitId(pairs[i].0).Some? && SplitId(pairs[i].0).value in sets
  }

  /** The positions of the wanted pairs, in increasing order. */
  function WantedPositions(pairs: seq<(Path, Path)>, sets: set<int>): (r: seq<int>)
    ensures forall j :: 0 <= j < |r| ==> 0 <= r[j] < |pairs|
    decreases |pairs|
  {
    if pairs == [] then []
    else
      var init := WantedPositions(pairs[..|pairs| - 1], sets);
      if Wanted(pairs, sets, |pairs| - 1) then init + [|pairs| - 1] else init
  }

  /** The wanted positions are increasing and are exactly the positions of the wanted pairs. */
  lemma {:induction false} WantedPositionsExact(pairs: seq<(Path, Path)>, sets: set<int>)
    ensures var pos := WantedPositions(pairs, sets);
      && (forall j, k :: 0 <= j < k < |pos| ==> pos[j] < pos[k])
      && (forall i :: 0 <= i < |pairs| ==> (i in pos <==> Wanted(pairs, sets, i)))
    decreases |pairs|
  {
    if pairs != [] {
      var init := pairs[..|pairs| - 1];
      var last := |pairs| - 1;
      WantedPositionsExact(init, sets);
      var before := WantedPositions(init, sets);
      var pos := WantedPositions(pairs, sets);
      assert pos == if Wanted(pairs, sets, last) then before + [last] else before;
      forall i | 0 <= i < |init| ensures Wanted(init, sets, i) == Wanted(pairs, sets, i) {
        assert init[i] == pairs[i];
      }
      forall j, k | 0 <= j < k < |pos| ensures pos[j] < pos[k] {
        if k == |before| { assert pos[j] == before[j]; }
      }
      forall i | 0 <= i < |pairs| ensures i in pos <==> Wanted(pairs, sets, i) {
        if i == last { assert last !in before; }
      }
    }
  }

  /** Position `i` holds the first particle path without a split id. */
  ghost predicate FirstWithoutId(pairs: seq<(Path, Path)>, i: int)
  {
    0 <= i < |pairs| && SplitId(pairs[i].0).None? && forall j :: 0 <= j < i ==> SplitId(pairs[j].0).Some?
  }

  /** The filter raises iff some particle path has no split id. */
  lemma {:induction false} KeepSplitsFails(pairs: seq<(Path, Path)>, sets: set<int>)
    ensures KeepSplits(pairs, sets).Err? <==> exists i :: 0 <= i < |pairs| && SplitId(pairs[i].0).None?
    decreases |pairs|
  {
    if pairs != [] {
      var init := pairs[..|pairs| - 1];
      var last := |pairs| - 1;
      KeepSplitsFails(init, sets);
      if KeepSplits(init, sets).Err? {
        var i :| 0 <= i < |init| && SplitId(init[i].0).None?;
        assert init[i] == pairs[i];
      } else if SplitId(pairs[last].0).Some? {
        forall i | 0 <= i < |pairs| ensures SplitId(pairs[i].0).Some? {
          if i < last { assert init[i] == pairs[i]; }
        }
      }
    }
  }

  /** An error of the filter names the first particle path without a split id. */
  lemma {:induction false} KeepSplitsFirstError(pairs: seq<(Path, Path)>, sets: set<int>)
    requires KeepSplits(pairs, sets).Err?
    ensures exists i :: FirstWithoutId(pairs, i) && KeepSplits(pairs, sets).error == NoSplitId(pairs[i].0)
    decreases |pairs|
  {
    var init := pairs[..|pairs| - 1];
    var last := |pairs| - 1;
    if KeepSplits(init, sets).Err? {
      KeepSplitsFirstError(init, sets);
      var i :| FirstWithoutId(init, i) && KeepSplits(init, sets).error == NoSplitId(init[i].0);
      forall j | 0 <= j <= i ensures init[j] == pairs[j] { }
      assert FirstWithoutId(pairs, i);
    } else {
      KeepSplitsFails(init, sets);
      forall j | 0 <= j < last ensures SplitId(pairs[j].0).Some? {
        assert init[j] == pairs[j];
      }
      assert FirstWithoutId(pairs, last);
    }
  }

  /** The filter raises iff some particle path has no split id, and it reports the first such path. */
  lemma KeepSplitsErrors(pairs: seq<(Path, Path)>, sets: set<int>)
    ensures KeepSplits(pairs, sets).Err? <==> exists i :: 0 <= i < |pairs| && SplitId(pairs[i].0).None?
    ensures KeepSplits(pairs, sets).Err? ==>
      exists i :: FirstWithoutId(pairs, i) && KeepSplits(pairs, sets).error == NoSplitId(pairs[i].0)
  {
    KeepSplitsFails(pairs, sets);
    if KeepSplits(pairs, sets).Err? {
      KeepSplitsFirstError(pairs, sets);
    }
  }

  /** Without an error the filter keeps exactly the wanted pairs, in their order, each particle still
      with its own passthrough. */
  lemma {:induction false} KeepSplitsKeepsWanted(pairs: seq<(Path, Path)>, sets: set<int>)
    requires KeepSplits(pairs, sets).Ok?
    ensures var kept, pos := KeepSplits(pairs, sets).value, WantedPositions(pairs, sets);
      |kept| == |pos| && forall j :: 0 <= j < |kept| ==> kept[j] == pairs[pos[j]]
    decreases |pairs|
  {
    if pairs != [] {
      var init := pairs[..|pairs| - 1];
      KeepSplitsKeepsWanted(init, sets);
      assert forall i :: 0 <= i < |init| ==> init[i] == pairs[i];
    }
  }

  /** An error found in a prefix of the pairs is the error of the whole filter. */
  lemma {:induction false} KeepSplitsErrorPersists(pairs: seq<(Path, Path)>, sets: set<int>, k: int)
    requires 0 <= k <= |pairs| && KeepSplits(pairs[..k], sets).Err?
    ensures KeepSplits(pairs, sets) == KeepSplits(pairs[..k], sets)
    decreases |pairs| - k
  {
    if k < |pairs| {
      assert pairs[..k + 1][..k] == pairs[..k];
      KeepSplitsErrorPersists(pairs, sets, k + 1);
    } else {
      assert pairs[..k] == pairs;
    }
  }

  /** What the job-type distinction leaves: the particle and passthrough lists, and whether it is a split job. */
  datatype Selection = Selection(particles: seq<Path>, passthroughs: seq<Path>, splitJob: bool)

  /** Some particle path mentions `split_`. */
  predicate AnySplit(particles: seq<Path>)
  {
    exists p :: p in particles && Contains(p, "split_")
  }

  /** Some particle path matches `cryosparc_P\d+_J\d+_\d+_particles.cs`. */
  predicate AnyConsolidated(particles: seq<Path>)
  {
    exists p :: p in particles && IsConsolidatedName(p)
  }

  /** The particle and passthrough lists are the kept pairs, unzipped. */
  predicate Unzips(sel: Selection, kept: seq<(Path, Path)>)
  {
    |sel.particles| == |kept| && |sel.passthroughs| == |kept|
    && forall j :: 0 <= j < |kept| ==> (sel.particles[j], sel.passthroughs[j]) == kept[j]
  }

  /** The job-type distinction: a split job keeps the requested sets when a filter is given; otherwise a
      consolidated particle file reduces the particle list to its last file; one particle file is left alone. */
  method SelectParticles(listing: Listing, sets: Option<set<int>>) returns (r: Result<Selection, LegacyError>)
    ensures var ps := listing.particles;
      var split := |ps| != 1 && AnySplit(ps);
      r.Err? <==> split && sets.Some? && KeepSplits(Zip(ps, listing.passthroughs), sets.value).Err?
    ensures r.Err? ==> sets.Some? && r.error == KeepSplits(Zip(listing.particles, listing.passthroughs), sets.value).error
    ensures r.Ok? ==> r.value.splitJob == (|listing.particles| != 1 && AnySplit(listing.particles))
    ensures r.Ok? && r.value.splitJob && sets.Some? ==>
      Unzips(r.value, KeepSplits(Zip(listing.particles, listing.passthroughs), sets.value).value)
    ensures r.Ok? && r.value.splitJob && sets.None? ==>
      r.value.particles == listing.particles && r.value.passthroughs == listing.passthroughs
    ensures r.Ok? && !r.value.splitJob ==>
      var ps := listing.particles;
      && r.value.passthroughs == listing.passthroughs
      && r.value.particles == if |ps| != 1 && AnyConsolidated(ps) then [ps[|ps| - 1]] else ps
  {
    var particles, passthroughs := listing.particles, listing.passthroughs;
    var splitJob := false;
    if |particles| != 1 {
      if AnySplit(particles) {
        splitJob := true;
        if sets.Some? {
          var filtered := FilterSplits(Zip(particles, passthroughs), sets.value);
          if filtered.Err? {
            return Err(filtered.error);
          }
          particles, passthroughs := filtered.value.particles, filtered.value.passthroughs;
        }
      } else if AnyConsolidated(particles) {
        particles := particles[|particles| - 1..];
      }
    }
    r := Ok(Selection(particles, passthroughs, splitJob));
  }

  /** The loop over `zip(particles, passthroughs)` that keeps the requested sets: the kept pairs, unzipped,
      or the error of the first particle path without a split id. */
  method FilterSplits(pairs: seq<(Path, Path)>, sets: set<int>) returns (r: Result<Selection, LegacyError>)
    ensures r.Err? <==> KeepSplits(pairs, sets).Err?
    ensures r.Err? ==> r.error == KeepSplits(pairs, sets).error
    ensures r.Ok? ==> r.value.splitJob && Unzips(r.value, KeepSplits(pairs, sets).value)
  {
    var filteredParticles: seq<Path> := [];
    var filteredPassthroughs: seq<Path> := [];
    var i := 0;
    while i < |pairs|
      invariant 0 <= i <= |pairs|
      invariant KeepSplits(pairs[..i], sets).Ok?
      invariant Unzips(Selection(filteredParticles, filteredPassthroughs, true), KeepSplits(pairs[..i], sets).value)
    {
      var (prt, pst) := pairs[i];
      assert pairs[..i + 1][..i] == pairs[..i] && pairs[..i + 1][i] == pairs[i];
      ghost var kept := KeepSplits(pairs[..i], sets).value;
      var setId := SplitId(prt);
      if setId.None? {
        assert KeepSplits(pairs[..i + 1], sets) == Err(NoSplitId(prt));
        KeepSplitsErrorPersists(pairs, sets, i + 1);
        return Err(NoSplitId(prt));
      }
      if setId.value in sets {
        assert KeepSplits(pairs[..i + 1], sets) == Ok(kept + [(prt, pst)]);
        filteredParticles := filteredParticles + [prt];
        filteredPassthroughs := filteredPassthroughs + [pst];
      } else {
        assert KeepSplits(pairs[..i + 1], sets) == Ok(kept);
      }
      i := i + 1;
    }
    assert pairs[..|pairs|] == pairs;
    r := Ok(Selection(filteredParticles, filteredPassthroughs, true));
  }

  /** Trimming a sorted list to its last file keeps the greatest particle path. */
  lemma ConsolidatedKeepsGreatest(ps: seq<Path>)
    requires Sorted(ps) && ps != []
    ensures forall p :: p in ps ==> LexLeq(p, ps[|ps| - 1])
  {
    forall p | p in ps ensures LexLeq(p, ps[|ps| - 1]) {
      var i :| 0 <= i < |ps| && ps[i] == p;
      if i < |ps| - 1 {
        assert LexLeq(ps[i], ps[|ps| - 1]);
      }
    }
  }

  /** `passthrough_files`: a split job gives particle i the list [passthrough i]; any other job gives every
      particle file the whole passthrough list. */
  function PassthroughFiles(sel: Selection): (r: seq<seq<Path>>)
    ensures sel.splitJob ==> |r| == |sel.passthroughs| && forall i :: 0 <= i < |r| ==> r[i] == [sel.passthroughs[i]]
    ensures !sel.splitJob ==> |r| == |sel.particles| && forall i :: 0 <= i < |r| ==> r[i] == sel.passthroughs
  {
    if sel.splitJob then seq(|sel.passthroughs|, i requires 0 <= i < |sel.passthroughs| => [sel.passthroughs[i]])
    else seq(|sel.particles|, _ => sel.passthroughs)
  }

  /** The loading loop over `zip(particles, passthrough_files)`. */
  function Loads(sel: Selection): seq<LoadRequest>
  {
    var pairs := Zip(sel.particles, PassthroughFiles(sel));
    seq(|pairs|, i requires 0 <= i < |pairs| => LoadRequest(pairs[i].0, pairs[i].1))
  }

  /** Outside split jobs every particle file is read with all passthrough files; in a split job particle i is
      read with passthrough i only, up to the shorter list. */
  lemma LoadsShape(sel: Selection)
    ensures !sel.splitJob ==>
      |Loads(sel)| == |sel.particles|
      && forall i :: 0 <= i < |sel.particles| ==> Loads(sel)[i] == LoadRequest(sel.particles[i], sel.passthroughs)
    ensures sel.splitJob ==>
      |Loads(sel)| == (if |sel.particles| <= |sel.passthroughs| then |sel.particles| else |sel.passthroughs|)
      && forall i :: 0 <= i < |Loads(sel)| ==> Loads(sel)[i] == LoadRequest(sel.particles[i], [sel.passthroughs[i]])
  {
  }

  /** After set filtering, every kept particle file is read, with the passthrough it was paired with. */
  lemma FilteredSplitLoads(sel: Selection, kept: seq<(Path, Path)>)
    requires sel.splitJob && Unzips(sel, kept)
    ensures |Loads(sel)| == |kept|
    ensures forall j :: 0 <= j < |kept| ==> Loads(sel)[j] == LoadRequest(kept[j].0, [kept[j].1])
  {
    LoadsShape(sel);
  }

  /** `fix_path`: the new parent, then the file name, then "s". */
  function FixPath(path: string, newParent: string): string
  {
    Join(newParent, Name(path)) + "s"
  }

  /** The rewritten path ends in "s"; before it come the new parent's parts and the file name. */
  lemma FixPathParts(path: string, newParent: string)
    ensures var r := FixPath(path, newParent);
      var c := Components(path);
      |r| >= 1 && r[|r| - 1] == 's'
      && Components(r[..|r| - 1]) == Components(newParent) + (if c != [] then [c[|c| - 1]] else [])
  {
    var c := Components(path);
    var n := Name(path);
    assert '/' !in n;
    assert (if IsPart(n) then [n] else []) == (if c != [] then [c[|c| - 1]] else []);
    JoinAddsPart(newParent, n);
    var r := FixPath(path, newParent);
    assert r[..|r| - 1] == Join(newParent, n);
  }

  /** A file `<dir>/<file>` moves to `<new parent>/<file>s`. */
  lemma FixPathOfFile(dir: string, file: string, newParent: string)
    requires IsPart(dir) && IsPart(file) && '/' !in dir && '/' !in file
    ensures FixPath(dir + "/" + file, newParent) == newParent + "/" + file + "s"
  {
    SegmentsOfJoin(dir, file);
    SegmentsOfPlain(dir);
    SegmentsOfPlain(file);
    var parts := [dir, file];
    assert Segments(dir + "/" + file) == parts;
    assert parts[1..] == [file] && parts[1..][1..] == [];
    assert KeepParts([file]) == [file];
    assert Components(dir + "/" + file) == parts;
  }
}
