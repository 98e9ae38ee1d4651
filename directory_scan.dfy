/**
 * The directory scan of the two older command-line scripts: the entries of a job directory
 * are filtered by name and split into particle files and passthrough files, both sorted.
 */
module DirectoryScan {
  import opened Strings
  import opened Sorting

  type Path = string

  /** `job_dir / name` for an entry `name` of the job directory. */
  function InDir(dir: Path, name: string): Path
  {
    dir + "/" + name
  }

  /** The names `cs2star/cs2star.py` skips. */
  const LegacyBlacklist: seq<string> := ["excluded", "remainder", "rejected", "uncategorized"]

  /** The names the top-level `cs2star.py` skips. */
  const ScriptBlacklist: seq<string> := ["excluded", "remainder"]

  /** The name filter: a `.cs` file about particles or a split, with none of the blacklisted markers. */
  predicate Accepted(name: string, blacklist: seq<string>)
  {
    EndsWith(name, ".cs")
    && (Contains(name, "particles") || Contains(name, "split_"))
    && forall bad :: bad in blacklist ==> !Contains(name, bad)
  }

  /** The classification reads the whole path, job directory included. */
  predicate IsPassthroughPath(path: Path)
  {
    Contains(path, "passthrough")
  }

  /** The accepted entries of one class (passthrough or not), as paths, in directory order. */
  function Picked(dir: Path, names: seq<string>, blacklist: seq<string>, passthrough: bool): seq<Path>
    decreases |names|
  {
    if names == [] then []
    else
      var rest := Picked(dir, names[..|names| - 1], blacklist, passthrough);
      var name := names[|names| - 1];
      if Accepted(name, blacklist) && IsPassthroughPath(InDir(dir, name)) == passthrough
      then rest + [InDir(dir, name)]
      else rest
  }

  /** A path is picked for a class iff it is the path of an accepted entry of that class. */
  lemma {:induction false} PickedMembers(dir: Path, names: seq<string>, blacklist: seq<string>, passthrough: bool, p: Path)
    ensures p in Picked(dir, names, blacklist, passthrough) <==>
      (exists i :: 0 <= i < |names| && Accepted(names[i], blacklist)
                   && IsPassthroughPath(InDir(dir, names[i])) == passthrough && p == InDir(dir, names[i]))
    decreases |names|
  {
    if names != [] {
      var init := names[..|names| - 1];
      PickedMembers(dir, init, blacklist, passthrough, p);
      assert forall i :: 0 <= i < |init| ==> init[i] == names[i];
      if exists i :: 0 <= i < |names| && Accepted(names[i], blacklist)
                     && IsPassthroughPath(InDir(dir, names[i])) == passthrough && p == InDir(dir, names[i]) {
        var i :| 0 <= i < |names| && Accepted(names[i], blacklist)
                 && IsPassthroughPath(InDir(dir, names[i])) == passthrough && p == InDir(dir, names[i]);
        if i < |init| {
          assert init[i] == names[i];
        }
      }
    }
  }

  /** Every accepted entry lands in exactly one of the two lists; a rejected entry in neither. */
  lemma ScanPartition(dir: Path, names: seq<string>, blacklist: seq<string>, i: int)
    requires 0 <= i < |names|
    ensures var p := InDir(dir, names[i]);
      (p in Picked(dir, names, blacklist, false) || p in Picked(dir, names, blacklist, true))
        <==> Accepted(names[i], blacklist)
    ensures !(InDir(dir, names[i]) in Picked(dir, names, blacklist, false)
              && InDir(dir, names[i]) in Picked(dir, names, blacklist, true))
  {
    var p := InDir(dir, names[i]);
    PickedMembers(dir, names, blacklist, false, p);
    PickedMembers(dir, names, blacklist, true, p);
    forall j | 0 <= j < |names| && p == InDir(dir, names[j]) ensures names[j] == names[i] {
      assert p[|dir| + 1..] == names[j] && p[|dir| + 1..] == names[i];
    }
  }

  /** The two lists of a scan: particle files and passthrough files. */
  datatype Listing = Listing(particles: seq<Path>, passthroughs: seq<Path>)

  /** The `iterdir` loop, followed by the two in-place sorts: each list is the sorted picked entries of its class. */
  method ScanJobDir(dir: Path, entries: seq<string>, blacklist: seq<string>) returns (r: Listing)
    ensures Sorted(r.particles) && multiset(r.particles) == multiset(Picked(dir, entries, blacklist, false))
    ensures Sorted(r.passthroughs) && multiset(r.passthroughs) == multiset(Picked(dir, entries, blacklist, true))
  {
    var particles: seq<Path> := [];
    var passthroughs: seq<Path> := [];
    var i := 0;
    while i < |entries|
      invariant 0 <= i <= |entries|
      invariant particles == Picked(dir, entries[..i], blacklist, false)
      invariant passthroughs == Picked(dir, entries[..i], blacklist, true)
    {
      var name := entries[i];
      assert entries[..i + 1][..i] == entries[..i] && entries[..i + 1][i] == name;
      if Accepted(name, blacklist) {
        var f := InDir(dir, name);
        if IsPassthroughPath(f) {
          passthroughs := passthroughs + [f];
        } else {
          particles := particles + [f];
        }
      }
      i := i + 1;
    }
    assert entries[..|entries|] == entries;
    particles := Sort(particles);
    passthroughs := Sort(passthroughs);
    r := Listing(particles, passthroughs);
  }
}
