/**
 * Path names as the scripts take them apart: `s.split('/')`, the parts of a `pathlib.Path`
 * (empty and "." parts dropped, the root not kept), `.name`, `.parent.parent.name`, and `/`.
 */
module PathNames {
  import opened Strings

  /** Python's `s.split('/')`: the pieces between slashes, empty pieces included. */
  function Segments(s: string): (r: seq<string>)
    ensures |r| >= 1
    ensures forall i :: 0 <= i < |r| ==> '/' !in r[i]
    decreases |s|
  {
    if s == [] then [""]
    else
      var rest := Segments(s[1..]);
      if s[0] == '/' then [""] + rest
      else [[s[0]] + rest[0]] + rest[1..]
  }

  /** Python's `'/'.join(parts)`. */
  function JoinSegments(parts: seq<string>): string
    requires |parts| >= 1
    decreases |parts|
  {
    if |parts| == 1 then parts[0] else parts[0] + "/" + JoinSegments(parts[1..])
  }

  /** Splitting then joining gives back the string. */
  lemma {:induction false} SplitJoinRoundTrip(s: string)
    ensures JoinSegments(Segments(s)) == s
    decreases |s|
  {
    if s != [] {
      SplitJoinRoundTrip(s[1..]);
      var rest := Segments(s[1..]);
      if s[0] == '/' {
        assert s == "/" + s[1..];
      } else if |rest| == 1 {
        assert s == [s[0]] + s[1..];
      } else {
        assert JoinSegments(rest) == rest[0] + "/" + JoinSegments(rest[1..]);
        assert s == [s[0]] + s[1..];
      }
    }
  }

  /** A slash in the middle splits the pieces of each side apart. */
  lemma {:induction false} SegmentsOfJoin(a: string, b: string)
    ensures Segments(a + "/" + b) == Segments(a) + Segments(b)
    decreases |a|
  {
    if a == [] {
      assert (a + "/" + b)[1..] == b;
    } else {
      var s := a + "/" + b;
      SegmentsOfJoin(a[1..], b);
      assert s[0] == a[0] && s[1..] == a[1..] + "/" + b;
      var r1, r2 := Segments(a[1..]), Segments(b);
      var r := Segments(s[1..]);
      assert r == r1 + r2;
      if a[0] == '/' {
        assert Segments(s) == [""] + r && Segments(a) == [""] + r1;
      } else {
        assert Segments(s) == [[a[0]] + r[0]] + r[1..];
        assert Segments(a) == [[a[0]] + r1[0]] + r1[1..];
        assert r[0] == r1[0] && r[1..] == r1[1..] + r2;
      }
    }
  }

  lemma {:induction false} SegmentsOfPlain(s: string)
    requires '/' !in s
    ensures Segments(s) == [s]
    decreases |s|
  {
    if s != [] {
      SegmentsOfPlain(s[1..]);
      assert s == [s[0]] + s[1..];
    }
  }

  /** `s.split('/')[-1]` is the segment after the last slash. */
  lemma {:induction false} LastSegmentIsLastPiece(s: string)
    ensures LastSegment(s) == Segments(s)[|Segments(s)| - 1]
    decreases |s|
  {
    if s != [] {
      var init := s[..|s| - 1];
      var c := s[|s| - 1];
      if c == '/' {
        assert s == init + "/" + "";
        SegmentsOfJoin(init, "");
      } else {
        var j := |s| - |LastSegment(s)|;
        if j == 0 {
          SegmentsOfPlain(s);
        } else {
          assert s[j - 1] == '/';
          assert s == s[..j - 1] + "/" + LastSegment(s);
          SegmentsOfJoin(s[..j - 1], LastSegment(s));
          SegmentsOfPlain(LastSegment(s));
        }
      }
    }
  }

  /** A part of a path: not empty and not ".". */
  predicate IsPart(p: string)
  {
    p != "" && p != "."
  }

  /** The pieces that remain parts of a path, in order. */
  function KeepParts(pieces: seq<string>): (r: seq<string>)
    ensures forall i :: 0 <= i < |r| ==> IsPart(r[i]) && r[i] in pieces
    decreases |pieces|
  {
    if pieces == [] then []
    else if IsPart(pieces[0]) then [pieces[0]] + KeepParts(pieces[1..])
    else KeepParts(pieces[1..])
  }

  lemma {:induction false} KeepPartsAppend(a: seq<string>, b: seq<string>)
    ensures KeepParts(a + b) == KeepParts(a) + KeepParts(b)
    decreases |a|
  {
    if a != [] {
      KeepPartsAppend(a[1..], b);
      assert (a + b)[0] == a[0] && (a + b)[1..] == a[1..] + b;
      if IsPart(a[0]) {
        assert KeepParts(a + b) == [a[0]] + (KeepParts(a[1..]) + KeepParts(b));
        assert KeepParts(a) == [a[0]] + KeepParts(a[1..]);
      } else {
        assert KeepParts(a + b) == KeepParts(a[1..]) + KeepParts(b);
      }
    } else {
      assert a + b == b;
    }
  }

  /** The named parts of `Path(s)`, root left out. */
  function Components(s: string): (r: seq<string>)
    ensures forall i :: 0 <= i < |r| ==> IsPart(r[i]) && '/' !in r[i]
  {
    KeepParts(Segments(s))
  }

  /** `Path(s).name`: the last part, or "" when there is none. */
  function Name(s: string): string
  {
    var c := Components(s);
    if c == [] then "" else c[|c| - 1]
  }

  /** `Path(s).parent.parent.name`: the part two levels up, or "" when there is none. */
  function GrandparentName(s: string): string
  {
    var c := Components(s);
    if |c| >= 3 then c[|c| - 3] else ""
  }

  /** `Path(base) / name` as a string, for a single part `name` ("" adds nothing). */
  function Join(base: string, name: string): string
  {
    if name == "" then base else base + "/" + name
  }

  /** Joining one part adds exactly that part to the path. */
  lemma JoinAddsPart(base: string, name: string)
    requires '/' !in name
    ensures Components(Join(base, name)) == Components(base) + (if IsPart(name) then [name] else [])
  {
    if name != "" {
      SegmentsOfJoin(base, name);
      SegmentsOfPlain(name);
      KeepPartsAppend(Segments(base), [name]);
      assert KeepParts([name]) == (if IsPart(name) then [name] else []);
    }
  }
}
