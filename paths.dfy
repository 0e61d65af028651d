/**
 * The part of pathlib's `Path` the file tools depend on: turning a string
 * into a path (`Path(path)`), back into a string (`str(p)`), and `p.parent`.
 * A path is absolute or relative and a list of names; `Path` drops empty
 * names (repeated or trailing slashes) and `.` names, and keeps `..`.
 */
module Paths {

  datatype Path = Path(absolute: bool, parts: seq<string>)

  /** A name as it can appear in a normalised path. */
  predicate ValidPart(s: string) {
    s != [] && s != "." && '/' !in s
  }

  predicate ValidPath(p: Path) {
    forall i :: 0 <= i < |p.parts| ==> ValidPart(p.parts[i])
  }

  /** `s.split('/')` */
  function Segments(s: string): (r: seq<string>)
    ensures |r| >= 1
    ensures forall i :: 0 <= i < |r| ==> '/' !in r[i]
  {
    if s == [] then [""]
    else if s[0] == '/' then [""] + Segments(s[1..])
    else
      var t := Segments(s[1..]);
      [[s[0]] + t[0]] + t[1..]
  }

  /** Drops the empty and `.` names. */
  function Clean(segs: seq<string>): (r: seq<string>)
    ensures forall i :: 0 <= i < |r| ==> r[i] != [] && r[i] != "." && r[i] in segs
  {
    if segs == [] then []
    else if segs[0] == "" || segs[0] == "." then Clean(segs[1..])
    else [segs[0]] + Clean(segs[1..])
  }

  /** `Path(s)`; two leading slashes are read as one. */
  function Parse(s: string): (p: Path)
    ensures ValidPath(p)
  {
    Path(s != [] && s[0] == '/', Clean(Segments(s)))
  }

  /** `"/".join(parts)` */
  function Join(parts: seq<string>): string {
    if parts == [] then []
    else if |parts| == 1 then parts[0]
    else parts[0] + "/" + Join(parts[1..])
  }

  /** `str(p)` */
  function Render(p: Path): string {
    if p.absolute then "/" + Join(p.parts)
    else if p.parts == [] then "."
    else Join(p.parts)
  }

  /** `p.parent`: the path without its last name; `.` and `/` are their own parent. */
  function Parent(p: Path): (q: Path)
    ensures q.absolute == p.absolute
    ensures p.parts != [] ==> |q.parts| == |p.parts| - 1
    ensures p.parts == [] ==> q == p
  {
    if p.parts == [] then p else Path(p.absolute, p.parts[..|p.parts| - 1])
  }

  /** The current directory and the file-system root, which always exist. */
  function Top(absolute: bool): Path {
    Path(absolute, [])
  }

  /** Every directory that contains `p`, from the top down to `p.parent`. */
  function Ancestors(p: Path): (r: set<Path>)
    ensures forall a :: a in r ==> a.absolute == p.absolute && |a.parts| < |p.parts|
  {
    set k | 0 <= k < |p.parts| :: Path(p.absolute, p.parts[..k])
  }

  // ---------------------------------------------------------------------

  lemma {:induction false} SegmentsOfName(a: string)
    requires '/' !in a
    ensures Segments(a) == [a]
    decreases |a|
  {
    if a != [] {
      SegmentsOfName(a[1..]);
      assert [a[0]] + a[1..] == a;
    }
  }

  lemma {:induction false} SegmentsAfterName(a: string, rest: string)
    requires '/' !in a
    ensures Segments(a + "/" + rest) == [a] + Segments(rest)
    decreases |a|
  {
    if a == [] {
      assert (a + "/" + rest)[1..] == rest;
    } else {
      assert (a + "/" + rest)[1..] == a[1..] + "/" + rest;
      SegmentsAfterName(a[1..], rest);
      assert [a[0]] + a[1..] == a;
    }
  }

  /** Splitting on `/` undoes joining with `/`. */
  lemma {:induction false} SegmentsJoin(parts: seq<string>)
    requires parts != []
    requires forall i :: 0 <= i < |parts| ==> '/' !in parts[i]
    ensures Segments(Join(parts)) == parts
    decreases |parts|
  {
    if |parts| == 1 {
      SegmentsOfName(parts[0]);
    } else {
      SegmentsAfterName(parts[0], Join(parts[1..]));
      SegmentsJoin(parts[1..]);
      assert [parts[0]] + parts[1..] == parts;
    }
  }

  lemma {:induction false} CleanValid(parts: seq<string>)
    requires forall i :: 0 <= i < |parts| ==> ValidPart(parts[i])
    ensures Clean(parts) == parts
    decreases |parts|
  {
    if parts != [] {
      CleanValid(parts[1..]);
      assert [parts[0]] + parts[1..] == parts;
    }
  }

  /** Cleaning works name by name: it keeps the order of the names and
      drops exactly the empty ones and `.`. */
  lemma {:induction false} CleanAppend(a: seq<string>, b: seq<string>)
    ensures Clean(a + b) == Clean(a) + Clean(b)
    decreases |a|
  {
    if a != [] {
      assert (a + b)[1..] == a[1..] + b;
      CleanAppend(a[1..], b);
      if a[0] != "" && a[0] != "." {
        assert Clean(a + b) == [a[0]] + (Clean(a[1..]) + Clean(b));
      }
    } else {
      assert a + b == b;
    }
  }

  lemma CleanOne(s: string)
    ensures Clean([s]) == if s == "" || s == "." then [] else [s]
  {
    assert [s][1..] == [];
  }

  /** The rendered path names the same path: `Path(str(p)) == p`. */
  lemma RenderParse(p: Path)
    requires ValidPath(p)
    ensures Parse(Render(p)) == p
  {
    CleanValid(p.parts);
    if p.absolute {
      var s := Render(p);
      assert s[1..] == Join(p.parts);
      if p.parts == [] {
        assert s == "/" && s[1..] == [];
        assert Segments(s) == [""] + [""];
        assert Clean([""]) == Clean([]) == [];
        assert ([""] + [""])[1..] == [""];
      } else {
        SegmentsJoin(p.parts);
        assert Segments(s) == [""] + p.parts;
      }
    } else if p.parts == [] {
      assert "."[1..] == [];
      assert Segments([]) == [""];
      assert ['.'] + "" == ".";
      assert Segments(".") == ["."];
      assert ["."][1..] == [];
    } else {
      SegmentsJoin(p.parts);
      assert Join(p.parts)[0] == p.parts[0][0];
    }
  }

  /** Writing a path out and reading it back is a normalisation that settles at once. */
  lemma ParseRenderParse(s: string)
    ensures Parse(Render(Parse(s))) == Parse(s)
  {
    RenderParse(Parse(s));
  }

  /** What `mkdir(parents=True)` on `p.parent` creates: the parent and the parent's ancestors. */
  lemma AncestorsOfParent(p: Path)
    requires p.parts != []
    ensures Ancestors(p) == {Parent(p)} + Ancestors(Parent(p))
  {
    var q := Parent(p);
    forall a | a in Ancestors(p) ensures a in {q} + Ancestors(q) {
      var k :| 0 <= k < |p.parts| && a == Path(p.absolute, p.parts[..k]);
      if k < |q.parts| {
        assert q.parts[..k] == p.parts[..k];
      }
    }
    forall a | a in Ancestors(q) ensures a in Ancestors(p) {
      var k :| 0 <= k < |q.parts| && a == Path(q.absolute, q.parts[..k]);
      assert q.parts[..k] == p.parts[..k];
    }
  }

  /** A path is never its own ancestor. */
  lemma NotOwnAncestor(p: Path)
    ensures p !in Ancestors(p)
  {
  }

  /** An ancestor of an ancestor is an ancestor. */
  lemma AncestorsTransitive(p: Path, a: Path)
    requires a in Ancestors(p)
    ensures Ancestors(a) <= Ancestors(p)
  {
    var k :| 0 <= k < |p.parts| && a == Path(p.absolute, p.parts[..k]);
    forall b | b in Ancestors(a) ensures b in Ancestors(p) {
      var j :| 0 <= j < |a.parts| && b == Path(a.absolute, a.parts[..j]);
      assert a.parts[..j] == p.parts[..j];
    }
  }

  /** The top directories have no ancestors, and everything else has its top one. */
  lemma TopIsAncestor(p: Path)
    ensures p.parts == [] <==> Ancestors(p) == {}
    ensures p == Top(p.absolute) || Top(p.absolute) in Ancestors(p)
  {
    if p.parts != [] {
      assert Path(p.absolute, p.parts[..0]) in Ancestors(p);
    }
  }
}
