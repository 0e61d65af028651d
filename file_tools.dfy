/**
 * `write_text` and `read_text` over a file system reduced to what they
 * touch: the content of each file and the set of directories, both keyed
 * by normalised paths. The operations are first given as functions on a
 * snapshot (`Fs`); the class `FileSystem` holds the live state and its
 * methods update it as the source does, proved against those functions.
 */
module FileTools {
  import opened Results
  import opened PyText
  import opened Paths

  /** What the two tools can raise: four OSErrors, with their Linux errno
      values, and the ValueError of a path holding a NUL character. */
  datatype IoError = FileNotFound | FileExists | NotADirectory | IsADirectory | EmbeddedNullByte

  function Errno(e: IoError): nat
    requires e != EmbeddedNullByte
  {
    match e
    case FileNotFound => 2
    case FileExists => 17
    case NotADirectory => 20
    case IsADirectory => 21
  }

  function Strerror(e: IoError): string
    requires e != EmbeddedNullByte
  {
    match e
    case FileNotFound => "No such file or directory"
    case FileExists => "File exists"
    case NotADirectory => "Not a directory"
    case IsADirectory => "Is a directory"
  }

  /** `str(e)`, without the file name Python appends to an OSError. */
  function Describe(e: IoError): string {
    if e == EmbeddedNullByte then "embedded null byte"
    else "[Errno " + NatToString(Errno(e)) + "] " + Strerror(e)
  }

  datatype Fs = Fs(files: map<Path, string>, dirs: set<Path>)

  /** What holds of any real file system: `.` and `/` are directories, nothing is
      both a file and a directory, and everything that exists lies in directories. */
  ghost predicate WellFormed(fs: Fs) {
    && Top(false) in fs.dirs && Top(true) in fs.dirs
    && (forall p :: p in fs.files ==> p !in fs.dirs)
    && (forall p :: p in fs.files ==> Ancestors(p) <= fs.dirs)
    && (forall d :: d in fs.dirs ==> Ancestors(d) <= fs.dirs)
  }

  /** Some name of `p` holds a NUL, which every system call refuses before
      it looks at the file system. */
  predicate HasNul(p: Path) {
    exists i :: 0 <= i < |p.parts| && '\0' in p.parts[i]
  }

  /** Some directory on the way to `p` is a file. */
  predicate ThroughFile(fs: Fs, p: Path) {
    exists a :: a in Ancestors(p) && a in fs.files
  }

  /** `d.mkdir(parents=True, exist_ok=True)`. */
  function Mkdirs(fs: Fs, d: Path): (r: Result<Fs, IoError>)
    ensures r.Ok? ==> r.value.files == fs.files && fs.dirs + {d} + Ancestors(d) <= r.value.dirs
  {
    if HasNul(d) then Err(EmbeddedNullByte)
    else if d in fs.files then Err(FileExists)
    else if ThroughFile(fs, d) then Err(NotADirectory)
    else Ok(Fs(fs.files, fs.dirs + {d} + Ancestors(d)))
  }

  /** Opening `p` for writing and writing `c`: the file is created or truncated.
      Writing in text mode on POSIX stores the characters unchanged. */
  function WriteFile(fs: Fs, p: Path, c: string): (r: Result<Fs, IoError>)
    ensures r.Ok? ==> Parent(p) in fs.dirs && r.value.dirs == fs.dirs
    ensures r.Ok? ==> p in r.value.files && r.value.files[p] == c
  {
    if HasNul(p) then Err(EmbeddedNullByte)
    else if p in fs.dirs then Err(IsADirectory)
    else if ThroughFile(fs, p) then Err(NotADirectory)
    else if Parent(p) !in fs.dirs then Err(FileNotFound)
    else Ok(Fs(fs.files[p := c], fs.dirs))
  }

  /** Lines 27-29 of `write_text`: make the parent directories, then write.
      `Err` is what the call raises; `WriteState` is the state it leaves. */
  function Write(fs: Fs, p: Path, c: string): Result<Fs, IoError> {
    match Mkdirs(fs, Parent(p))
    case Err(e) => Err(e)
    case Ok(fs1) => WriteFile(fs1, p, c)
  }

  /** The state after `write_text`, whether or not it raised: directories made
      before opening the file fails are still there. */
  function WriteState(fs: Fs, p: Path, c: string): Fs {
    match Mkdirs(fs, Parent(p))
    case Err(_) => fs
    case Ok(fs1) =>
      match WriteFile(fs1, p, c)
      case Err(_) => fs1
      case Ok(fs2) => fs2
  }

  /** Universal-newline decoding, which text-mode reading applies:
      `\r\n` and a lone `\r` each become `\n`. */
  function Universal(s: string): (r: string)
    ensures '\r' !in r
    ensures |r| <= |s|
  {
    if s == [] then []
    else if s[0] == '\r' then
      if |s| > 1 && s[1] == '\n' then "\n" + Universal(s[2..]) else "\n" + Universal(s[1..])
    else [s[0]] + Universal(s[1..])
  }

  /** Opening `p` and reading its stored characters, with no newline translation. */
  function ReadExact(fs: Fs, p: Path): (r: Result<string, IoError>)
    ensures r.Ok? <==> p in fs.files && !HasNul(p)
    ensures r.Ok? ==> r.value == fs.files[p]
  {
    if HasNul(p) then Err(EmbeddedNullByte)
    else if p in fs.files then Ok(fs.files[p])
    else if p in fs.dirs then Err(IsADirectory)
    else if ThroughFile(fs, p) then Err(NotADirectory)
    else Err(FileNotFound)
  }

  /** `p.read_text(encoding="utf-8")`: the file read in text mode, so with
      universal newlines. */
  function Read(fs: Fs, p: Path): (r: Result<string, IoError>)
    ensures r.Ok? <==> p in fs.files && !HasNul(p)
    ensures r.Ok? ==> r.value == Universal(fs.files[p]) && '\r' !in r.value
    ensures r.Err? ==> r == ReadExact(fs, p)
  {
    match ReadExact(fs, p)
    case Ok(text) => Ok(Universal(text))
    case Err(e) => Err(e)
  }

  /** Text without a carriage return reads back unchanged. */
  lemma {:induction false} UniversalIdentity(s: string)
    requires '\r' !in s
    ensures Universal(s) == s
  {
    if s != [] {
      assert '\r' !in s[1..] by {
        forall k | 0 <= k < |s[1..]| ensures s[1..][k] != '\r' {
          assert s[1..][k] == s[k + 1];
        }
      }
      UniversalIdentity(s[1..]);
      assert s == [s[0]] + s[1..];
    }
  }

  /** The confirmation `write_text` returns; its count is `len(content)`, in characters. */
  function WroteMessage(c: string, p: Path): string {
    "Wrote " + NatToString(|c|) + " bytes to " + Render(p)
  }

  function ReadErrorPrefix(path: string): string {
    "Error reading " + path + ": "
  }

  /** What `read_text` returns when reading raised. */
  function ReadErrorText(path: string, e: IoError): (r: string)
    ensures |r| > |ReadErrorPrefix(path)| && r[..|ReadErrorPrefix(path)|] == ReadErrorPrefix(path)
  {
    ReadErrorPrefix(path) + Describe(e)
  }

  /** The three line ends and every other character, one at a time:
      `\r\n` and `\r` become `\n`, anything else stays. */
  lemma UniversalLineEnds(c: char)
    ensures Universal("\r\n") == "\n"
    ensures Universal("\r") == "\n"
    ensures c != '\r' ==> Universal([c]) == [c]
  {
    assert "\r\n"[2..] == [];
    assert "\r"[1..] == [];
    assert [c][1..] == [];
  }

  /** Decoding works piece by piece, as long as the cut does not separate
      a `\r` from the `\n` after it. */
  lemma {:induction false} UniversalAppend(a: string, b: string)
    requires a == [] || a[|a| - 1] != '\r' || b == [] || b[0] != '\n'
    ensures Universal(a + b) == Universal(a) + Universal(b)
    decreases |a|
  {
    if a == [] {
      assert a + b == b;
    } else if a[0] != '\r' {
      assert (a + b)[1..] == a[1..] + b;
      UniversalAppend(a[1..], b);
    } else if |a| == 1 {
      assert (a + b)[1..] == b;
      assert a[1..] == [];
    } else if a[1] == '\n' {
      assert (a + b)[2..] == a[2..] + b;
      UniversalAppend(a[2..], b);
    } else {
      assert (a + b)[1..] == a[1..] + b;
      UniversalAppend(a[1..], b);
    }
  }

  // ---------------------------------------------------------------------
  // What a write does

  lemma ThroughFileParent(fs: Fs, p: Path)
    requires p.parts != []
    ensures ThroughFile(fs, p) <==> Parent(p) in fs.files || ThroughFile(fs, Parent(p))
  {
    AncestorsOfParent(p);
  }

  /** A NUL in a directory name is also a NUL in every path below it. */
  lemma NulInParent(p: Path)
    requires p.parts != [] && HasNul(Parent(p))
    ensures HasNul(p)
  {
    var i :| 0 <= i < |Parent(p).parts| && '\0' in Parent(p).parts[i];
    assert p.parts[i] == Parent(p).parts[i];
  }

  /** A write succeeds exactly when the path holds no NUL, no directory on
      the way is a file, and the path is not itself a directory. */
  lemma WriteOkIff(fs: Fs, p: Path, c: string)
    requires WellFormed(fs)
    ensures Write(fs, p, c).Ok? <==> !HasNul(p) && !ThroughFile(fs, p) && p !in fs.dirs
  {
    if p.parts == [] {
      assert Parent(p) == p;
      TopIsAncestor(p);
      assert p == Top(p.absolute);
    } else if HasNul(Parent(p)) {
      NulInParent(p);
    } else {
      ThroughFileParent(fs, p);
      if Mkdirs(fs, Parent(p)).Ok? {
        var fs1 := Mkdirs(fs, Parent(p)).value;
        AncestorsOfParent(p);
        NotOwnAncestor(p);
        if p in fs.dirs {
          assert p in fs1.dirs;
        }
        if p in fs1.dirs {
          assert p in fs.dirs;
        }
        assert Parent(p) in fs1.dirs;
        assert !ThroughFile(fs1, p);
      }
    }
  }

  /** A successful write creates every missing ancestor and sets the file to
      exactly `c`; nothing else changes. */
  lemma WriteEffect(fs: Fs, p: Path, c: string)
    requires WellFormed(fs) && Write(fs, p, c).Ok?
    ensures Write(fs, p, c).value == Fs(fs.files[p := c], fs.dirs + Ancestors(p))
    ensures WriteState(fs, p, c) == Write(fs, p, c).value
  {
    assert p.parts != [] by {
      if p.parts == [] {
        assert false;
      }
    }
    AncestorsOfParent(p);
    assert fs.dirs + {Parent(p)} + Ancestors(Parent(p)) == fs.dirs + Ancestors(p);
  }

  /** A write that raises an OSError leaves the file system as it was, even
      though the directories are made before the file is opened. */
  lemma WriteFailsCleanly(fs: Fs, p: Path, c: string)
    requires WellFormed(fs) && Write(fs, p, c).Err?
    requires Write(fs, p, c).error != EmbeddedNullByte
    ensures WriteState(fs, p, c) == fs
  {
    if Mkdirs(fs, Parent(p)).Ok? {
      var fs1 := Mkdirs(fs, Parent(p)).value;
      if p.parts == [] {
        assert Parent(p) == p;
        TopIsAncestor(p);
        assert p == Top(p.absolute);
      } else {
        AncestorsOfParent(p);
        NotOwnAncestor(p);
        assert Parent(p) in fs1.dirs;
        assert !ThroughFile(fs1, p);
        assert p in fs1.dirs;
        assert p in fs.dirs;
      }
    }
  }

  lemma MkdirsPreservesWellFormed(fs: Fs, d: Path)
    requires WellFormed(fs) && Mkdirs(fs, d).Ok?
    ensures WellFormed(Mkdirs(fs, d).value)
  {
    var fs' := Mkdirs(fs, d).value;
    forall e | e in fs'.dirs ensures Ancestors(e) <= fs'.dirs {
      if e in Ancestors(d) {
        AncestorsTransitive(d, e);
      }
    }
  }

  /** A write keeps the file system consistent, whether or not it raises. */
  lemma WritePreservesWellFormed(fs: Fs, p: Path, c: string)
    requires WellFormed(fs)
    ensures WellFormed(WriteState(fs, p, c))
  {
    if Write(fs, p, c).Ok? {
      WriteEffect(fs, p, c);
      WriteOkIff(fs, p, c);
      NotOwnAncestor(p);
      var fs' := Write(fs, p, c).value;
      forall d | d in fs'.dirs ensures Ancestors(d) <= fs'.dirs {
        if d in Ancestors(p) {
          AncestorsTransitive(p, d);
        }
      }
      forall q | q in fs'.files ensures q !in fs'.dirs {
        if q != p {
          assert q in fs.files;
          assert q !in Ancestors(p);
        }
      }
    } else if Mkdirs(fs, Parent(p)).Ok? {
      MkdirsPreservesWellFormed(fs, Parent(p));
    }
  }

  /** Reading right after a write gives back the content with its line ends
      translated, which is exactly the content when it holds no `\r`. */
  lemma ReadAfterWrite(fs: Fs, p: Path, c: string)
    requires WellFormed(fs) && Write(fs, p, c).Ok?
    ensures Read(Write(fs, p, c).value, p) == Ok(Universal(c))
    ensures '\r' !in c ==> Read(Write(fs, p, c).value, p) == Ok(c)
  {
    WriteEffect(fs, p, c);
    WriteOkIff(fs, p, c);
    if '\r' !in c {
      UniversalIdentity(c);
    }
  }

  /** Reading without newline translation gives back exactly what was written. */
  lemma ReadExactAfterWrite(fs: Fs, p: Path, c: string)
    requires WellFormed(fs) && Write(fs, p, c).Ok?
    ensures ReadExact(Write(fs, p, c).value, p) == Ok(c)
  {
    WriteEffect(fs, p, c);
    WriteOkIff(fs, p, c);
  }

  /** Writing the same content twice leaves the state of writing it once. */
  lemma WriteIdempotent(fs: Fs, p: Path, c: string)
    requires WellFormed(fs) && Write(fs, p, c).Ok?
    ensures Write(Write(fs, p, c).value, p, c) == Write(fs, p, c)
  {
    var fs' := Write(fs, p, c).value;
    WriteEffect(fs, p, c);
    WritePreservesWellFormed(fs, p, c);
    assert WellFormed(fs');
    WriteOkIff(fs, p, c);
    WriteOkIff(fs', p, c);
    WriteEffect(fs', p, c);
    assert fs'.files[p := c] == fs'.files;
    assert fs'.dirs + Ancestors(p) == fs'.dirs;
  }

  /** Every other file reads as before, content and all. */
  lemma WriteLeavesOtherFiles(fs: Fs, p: Path, c: string, q: Path)
    requires WellFormed(fs) && Write(fs, p, c).Ok? && q != p
    ensures Read(Write(fs, p, c).value, q).Ok? == Read(fs, q).Ok?
    ensures Read(fs, q).Ok? ==> Read(Write(fs, p, c).value, q) == Read(fs, q)
  {
    WriteEffect(fs, p, c);
  }

  /** The confirmation reports the length of the content and a path that
      names the file written. */
  lemma WroteMessageReports(c: string, path: string)
    ensures var count := NatToString(|c|);
            var shown := Render(Parse(path));
            && WroteMessage(c, Parse(path)) == "Wrote " + count + " bytes to " + shown
            && DecimalValue(count) == |c|
            && Parse(shown) == Parse(path)
  {
    DecimalRoundTrip(|c|);
    ParseRenderParse(path);
  }

  /** The empty working directory. */
  function Fresh(): (fs: Fs)
    ensures WellFormed(fs)
  {
    TopIsAncestor(Top(false));
    TopIsAncestor(Top(true));
    Fs(map[], {Top(false), Top(true)})
  }

  lemma NestedPathParses(path: string)
    requires path == "a/b/c.txt"
    ensures Parse(path) == Path(false, ["a", "b", "c.txt"])
  {
    var p := Path(false, ["a", "b", "c.txt"]);
    assert ["a", "b", "c.txt"][1..] == ["b", "c.txt"];
    assert ["b", "c.txt"][1..] == ["c.txt"];
    assert Join(p.parts) == "a" + "/" + ("b" + "/" + "c.txt");
    assert Render(p) == path;
    RenderParse(p);
  }

  /** Writing `hello` to `a/b/c.txt` in an empty directory creates `a` and
      `a/b` and the file, which then reads back as `hello`. */
  lemma NestedWriteScenario(path: string)
    requires path == "a/b/c.txt"
    ensures var p := Parse(path);
            && Write(Fresh(), p, "hello") ==
                 Ok(Fs(map[p := "hello"], Fresh().dirs + {Path(false, ["a"]), Path(false, ["a", "b"])}))
            && Read(Write(Fresh(), p, "hello").value, p) == Ok("hello")
  {
    NestedPathParses(path);
    var p := Path(false, ["a", "b", "c.txt"]);
    var fs := Fresh();
    assert Ancestors(p) == {Top(false), Path(false, ["a"]), Path(false, ["a", "b"])} by {
      assert p.parts[..0] == [] && p.parts[..1] == ["a"] && p.parts[..2] == ["a", "b"];
    }
    assert !HasNul(p);
    assert !ThroughFile(fs, p) && p !in fs.dirs;
    WriteOkIff(fs, p, "hello");
    WriteEffect(fs, p, "hello");
    assert fs.files[p := "hello"] == map[p := "hello"];
    assert fs.dirs + Ancestors(p) == fs.dirs + {Path(false, ["a"]), Path(false, ["a", "b"])};
    ReadAfterWrite(fs, p, "hello");
  }

  /** Writing `a\r\nb` or `a\rb` to `f` succeeds, but reading `f` back
      gives `a\nb` in both cases. */
  lemma CarriageReturnReadBack(path: string, c: string)
    requires path == "f"
    requires c == "a\r\nb" || c == "a\rb"
    ensures var p := Parse(path);
            && Write(Fresh(), p, c).Ok?
            && Read(Write(Fresh(), p, c).value, p) == Ok("a\nb")
            && ReadExact(Write(Fresh(), p, c).value, p) == Ok(c)
  {
    var p := Path(false, ["f"]);
    assert Render(p) == path;
    RenderParse(p);
    var fs := Fresh();
    assert Ancestors(p) == {Top(false)} by {
      assert p.parts[..0] == [];
    }
    assert !HasNul(p);
    assert !ThroughFile(fs, p) && p !in fs.dirs;
    WriteOkIff(fs, p, c);
    ReadAfterWrite(fs, p, c);
    ReadExactAfterWrite(fs, p, c);
    var b := c[|c| - 1..];
    assert b == "b" && b[1..] == [];
    assert Universal(b) == "b";
    if c == "a\r\nb" {
      assert c[1..][2..] == b;
    } else {
      assert c[1..][1..] == b;
    }
    assert Universal(c[1..]) == "\n" + "b";
    assert Universal(c) == "a" + "\nb";
    assert "a" + "\nb" == "a\nb";
  }

  /** A NUL in the file name raises only when the file is opened, after
      `mkdir` has already made the parent directory `d`. */
  lemma NulNameAfterMkdir(path: string, c: string)
    requires path == "d/x\0"
    ensures var p := Parse(path);
            && Write(Fresh(), p, c) == Err(EmbeddedNullByte)
            && WriteState(Fresh(), p, c) == Fs(map[], Fresh().dirs + {Path(false, ["d"])})
  {
    var p := Path(false, ["d", "x\0"]);
    assert ["d", "x\0"][1..] == ["x\0"];
    assert Join(p.parts) == "d" + "/" + "x\0";
    assert Render(p) == path;
    RenderParse(p);
    var d := Parent(p);
    assert d == Path(false, ["d"]);
    assert Ancestors(d) == {Top(false)} by {
      assert d.parts[..0] == [];
    }
    assert !HasNul(d);
    assert HasNul(p) by {
      assert '\0' in p.parts[1];
    }
  }

  // ---------------------------------------------------------------------

  /** The live file system the tools act on. */
  class FileSystem {
    var files: map<Path, string>
    var dirs: set<Path>

    ghost predicate Valid()
      reads this
    {
      WellFormed(Fs(files, dirs))
    }

    function State(): Fs
      reads this
    {
      Fs(files, dirs)
    }

    /** An empty working directory. */
    constructor ()
      ensures Valid() && State() == Fresh()
    {
      files := map[];
      dirs := {Top(false), Top(true)};
      new;
      assert State() == Fresh();
    }

    /** `write_text(path, content)`; `Err` stands for the exception it raises.
        The directories are made first, so they stay made when opening the
        file raises. */
    method WriteText(path: string, content: string) returns (r: Result<string, IoError>)
      requires Valid()
      modifies this
      ensures Valid()
      ensures State() == WriteState(old(State()), Parse(path), content)
      ensures Write(old(State()), Parse(path), content).Ok? ==>
                r == Ok(WroteMessage(content, Parse(path)))
      ensures Write(old(State()), Parse(path), content).Err? ==>
                r == Err(Write(old(State()), Parse(path), content).error)
    {
      var p := Parse(path);
      ghost var fs := State();
      WritePreservesWellFormed(fs, p, content);
      // Make the parent directories.
      var parent := Parent(p);
      if HasNul(parent) {
        return Err(EmbeddedNullByte);
      }
      if parent in files {
        return Err(FileExists);
      }
      if exists a :: a in Ancestors(parent) && a in files {
        return Err(NotADirectory);
      }
      dirs := dirs + {parent} + Ancestors(parent);
      assert State() == Mkdirs(fs, parent).value;
      // Open the file for writing and store the content.
      if HasNul(p) {
        return Err(EmbeddedNullByte);
      }
      if p in dirs {
        WriteFailsCleanly(fs, p, content);
        return Err(IsADirectory);
      }
      assert p != parent;
      ThroughFileParent(fs, p);
      WriteOkIff(fs, p, content);
      WriteEffect(fs, p, content);
      files := files[p := content];
      r := Ok(WroteMessage(content, p));
    }

    /** `read_text(path)`: the content as text mode decodes it, or the error
        text; it never raises and changes nothing. */
    method ReadText(path: string) returns (s: string)
      ensures Parse(path) in files && !HasNul(Parse(path)) ==> s == Universal(files[Parse(path)])
      ensures !(Parse(path) in files && !HasNul(Parse(path))) ==>
                Read(State(), Parse(path)).Err? &&
                s == ReadErrorText(path, Read(State(), Parse(path)).error)
    {
      var p := Parse(path);
      match Read(State(), p)
      case Ok(text) => s := text;
      case Err(e) => s := ReadErrorText(path, e);
    }
  }
}
