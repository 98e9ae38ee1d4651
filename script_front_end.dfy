/**
 * The first `cs2star.py` script: it scans one job directory, reads every particle file with
 * the whole passthrough list, and points the micrograph and patch columns at the copied files.
 */
module ScriptFrontEnd {
  import opened Wrappers
  import opened Strings
  import opened Sorting
  import opened PathNames
  import opened Loading
  import opened DirectoryScan
  import LegacyFrontEnd

  /** The usage error meant for a job directory without particle files. */
  datatype ScriptError = NoUsableParticles

  /** The loading loop: every particle file is read with the whole passthrough list. */
  function Loads(listing: Listing): (r: seq<LoadRequest>)
    ensures |r| == |listing.particles|
    ensures forall i :: 0 <= i < |r| ==> r[i].file == listing.particles[i]
    ensures forall i :: 0 <= i < |r| ==> r[i].passthroughs == listing.passthroughs
  {
    seq(|listing.particles|, i requires 0 <= i < |listing.particles| =>
      LoadRequest(listing.particles[i], listing.passthroughs))
  }

  /** The script reads a directory the way the legacy script reads a job that is not a split job. */
  lemma LoadsLikeLegacyUnsplit(listing: Listing)
    ensures Loads(listing) == LegacyFrontEnd.Loads(LegacyFrontEnd.Selection(listing.particles, listing.passthroughs, false))
  {
    LegacyFrontEnd.LoadsShape(LegacyFrontEnd.Selection(listing.particles, listing.passthroughs, false));
  }

  /** The script as written: the usage error for "no particle file" is built but never raised, so the
      conversion goes on. */
  method ConvertAsWritten(dir: Path, entries: seq<string>) returns (loads: seq<LoadRequest>, listing: Listing)
    ensures Sorted(listing.particles)
            && multiset(listing.particles) == multiset(Picked(dir, entries, ScriptBlacklist, false))
    ensures Sorted(listing.passthroughs)
            && multiset(listing.passthroughs) == multiset(Picked(dir, entries, ScriptBlacklist, true))
    ensures loads == Loads(listing)
  {
    listing := ScanJobDir(dir, entries, ScriptBlacklist);
    loads := Loads(listing);
  }

  /** A directory without accepted particle files is converted into nothing instead of being refused:
      every listing the scan can give for it has no particle file, so it gives no read, while the
      intended check fails. An empty directory, whose pick is `[]`, is one such directory. */
  lemma NoParticleFileGoesOn(dir: Path, entries: seq<string>)
    requires Picked(dir, entries, ScriptBlacklist, false) == []
    ensures forall listing: Listing :: multiset(listing.particles) == multiset(Picked(dir, entries, ScriptBlacklist, false))
              ==> Loads(listing) == [] && Checked(listing) == Err(NoUsableParticles)
  {
    forall listing: Listing | multiset(listing.particles) == multiset(Picked(dir, entries, ScriptBlacklist, false))
      ensures Loads(listing) == [] && Checked(listing) == Err(NoUsableParticles)
    {
      assert |listing.particles| == |multiset(listing.particles)| == 0;
    }
  }

  /** The check as evidently intended: no particle file is a usage error. */
  function Checked(listing: Listing): (r: Result<Listing, ScriptError>)
    ensures r.Err? <==> listing.particles == []
    ensures r.Ok? ==> r.value == listing
  {
    if listing.particles == [] then Err(NoUsableParticles) else Ok(listing)
  }

  /** The script with the usage error raised: it stops iff no particle file was found, and otherwise reads
      the sorted particle files, each with the whole sorted passthrough list. */
  method Convert(dir: Path, entries: seq<string>) returns (r: Result<seq<LoadRequest>, ScriptError>, listing: Listing)
    ensures Sorted(listing.particles)
            && multiset(listing.particles) == multiset(Picked(dir, entries, ScriptBlacklist, false))
    ensures Sorted(listing.passthroughs)
            && multiset(listing.passthroughs) == multiset(Picked(dir, entries, ScriptBlacklist, true))
    ensures r.Err? <==> Picked(dir, entries, ScriptBlacklist, false) == []
    ensures r.Ok? ==> r.value == Loads(listing)
    ensures r.Ok? ==> |r.value| == |Picked(dir, entries, ScriptBlacklist, false)|
    ensures r.Ok? ==> multiset(seq(|r.value|, i requires 0 <= i < |r.value| => r.value[i].file))
                      == multiset(Picked(dir, entries, ScriptBlacklist, false))
  {
    listing := ScanJobDir(dir, entries, ScriptBlacklist);
    var checked := Checked(listing);
    if checked.Err? {
      return Err(checked.error), listing;
    }
    var loads := Loads(listing);
    assert |listing.particles| == |multiset(listing.particles)|
           == |multiset(Picked(dir, entries, ScriptBlacklist, false))| == |Picked(dir, entries, ScriptBlacklist, false)|;
    assert seq(|loads|, i requires 0 <= i < |loads| => loads[i].file) == listing.particles;
    r := Ok(loads);
  }

  /** `'./' + dirName + '/' + value.split('/')[-1] + 's'`: the column rewrite. */
  function Relocated(dirName: string, value: string): string
  {
    "./" + dirName + "/" + (LastSegment(value) + "s")
  }

  /** The micrograph column rewrite. */
  function MicrographName(value: string): string
  {
    Relocated("micrographs", value)
  }

  /** The patch column rewrite. */
  function PatchName(value: string): string
  {
    Relocated("patches", value)
  }

  /** The rewritten value has three pieces: ".", the target directory, and the value's last piece plus "s". */
  lemma RelocatedPieces(dirName: string, value: string)
    requires '/' !in dirName
    ensures var pieces := Segments(value);
      Segments(Relocated(dirName, value)) == [".", dirName, pieces[|pieces| - 1] + "s"]
  {
    var base := LastSegment(value) + "s";
    var tail := dirName + "/" + base;
    assert Relocated(dirName, value) == "." + "/" + tail;
    assert '/' !in base;
    assert Segments(tail) == [dirName, base] by {
      SegmentsOfJoin(dirName, base);
      SegmentsOfPlain(dirName);
      SegmentsOfPlain(base);
    }
    assert Segments("." + "/" + tail) == ["."] + [dirName, base] by {
      SegmentsOfJoin(".", tail);
      SegmentsOfPlain(".");
    }
    LastSegmentIsLastPiece(value);
  }

  /** Micrograph names land in `./micrographs/`, patch names in `./patches/`, keeping the last piece plus "s". */
  lemma ColumnRewrites(value: string)
    ensures var pieces := Segments(value);
      Segments(MicrographName(value)) == [".", "micrographs", pieces[|pieces| - 1] + "s"]
      && Segments(PatchName(value)) == [".", "patches", pieces[|pieces| - 1] + "s"]
  {
    assert '/' !in "micrographs" && '/' !in "patches";
    RelocatedPieces("micrographs", value);
    RelocatedPieces("patches", value);
  }
}
