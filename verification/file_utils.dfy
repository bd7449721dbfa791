/** File helpers of the plugin (src/utils/file.ts): unique names, path
    construction, reading and merging frontmatter, and the backlink test for
    generated files. */
module FileUtils {
  import opened Optional
  import opened Strings
  import opened Frontmatter
  import opened Vault
  import Seqs

  const BaseFolderPath := "_learnie"
  const NoteFolderPath := BaseFolderPath + "/Note Revisions"
  const QuestionFolderPath := BaseFolderPath + "/Questions"

  // ---------------------------------------------------------------------------
  // getUniqueFileName

  /** The name tried after `k` collisions: `base.ext`, then `base_k.ext`. */
  function Candidate(base: string, ext: string, k: nat): string {
    if k == 0 then base + "." + ext else base + "_" + NatToString(k) + "." + ext
  }

  /** Different collision counts try different names, so the search never
      revisits a name. */
  lemma CandidateInjective(base: string, ext: string, j: nat, k: nat)
    requires Candidate(base, ext, j) == Candidate(base, ext, k)
    ensures j == k
  {
    var cj, ck := Candidate(base, ext, j), Candidate(base, ext, k);
    assert cj[|base|] == (if j == 0 then '.' else '_');
    assert ck[|base|] == (if k == 0 then '.' else '_');
    if j != 0 {
      var nj, nk := NatToString(j), NatToString(k);
      var tj, tk := nj + "." + ext, nk + "." + ext;
      assert cj == (base + "_") + tj && ck == (base + "_") + tk;
      assert tj == cj[|base| + 1..] && tk == ck[|base| + 1..];
      assert tj == tk;
      assert tj == nj + ("." + ext) && tk == nk + ("." + ext);
      DigitsBeforeDot(nj, nk, "." + ext, "." + ext);
      NatToStringInjective(j, k);
    }
  }

  /** Digit runs followed by a `.` can be told apart at the `.`. */
  lemma {:induction false} DigitsBeforeDot(a: string, b: string, x: string, y: string)
    requires forall i :: 0 <= i < |a| ==> '0' <= a[i] <= '9'
    requires forall i :: 0 <= i < |b| ==> '0' <= b[i] <= '9'
    requires |x| > 0 && x[0] == '.' && |y| > 0 && y[0] == '.'
    requires a + x == b + y
    ensures a == b
    decreases |a|
  {
    if |a| > 0 {
      assert (a + x)[0] == a[0];
      assert (b + y)[0] == (a + x)[0];
      assert (a + x)[1..] == a[1..] + x;
      assert (b + y)[1..] == b[1..] + y;
      DigitsBeforeDot(a[1..], b[1..], x, y);
      assert a == [a[0]] + a[1..] && b == [b[0]] + b[1..];
    } else {
      assert (b + y)[0] == (a + x)[0];
    }
  }

  /** Candidates for the first `n` collision counts are `n` distinct names. */
  lemma CandidatesFresh(base: string, ext: string, n: nat, seen: set<string>)
    requires seen == set j | 0 <= j < n :: Candidate(base, ext, j)
    ensures Candidate(base, ext, n) !in seen
  {
    if Candidate(base, ext, n) in seen {
      var j :| 0 <= j < n && Candidate(base, ext, j) == Candidate(base, ext, n);
      CandidateInjective(base, ext, j, n);
    }
  }

  /** `getUniqueFileName(baseName, extension)` against a fixed, finite set of
      existing paths: tries `base.ext`, `base_1.ext`, `base_2.ext`, ... and
      returns the first free candidate without its last `.`-segment. `k` is the
      number of collisions met on the way. */
  method GetUniqueFileName(base: string, ext: string, existing: set<string>)
    returns (name: string, k: nat)
    ensures Candidate(base, ext, k) !in existing
    ensures forall j :: 0 <= j < k ==> Candidate(base, ext, j) in existing
    ensures k <= |existing|
    ensures name == DropLastSegment(Candidate(base, ext, k), '.')
    ensures '.' !in ext ==> name == (if k == 0 then base else base + "_" + NatToString(k))
  {
    var increment := 0;
    var fileName := base + "." + ext;
    ghost var seen: set<string> := {};
    while fileName in existing
      invariant fileName == Candidate(base, ext, increment)
      invariant seen == set j | 0 <= j < increment :: Candidate(base, ext, j)
      invariant |seen| == increment
      invariant seen <= existing
      invariant forall j :: 0 <= j < increment ==> Candidate(base, ext, j) in existing
      decreases |existing| - |seen|
    {
      CandidatesFresh(base, ext, increment, seen);
      seen := seen + {fileName};
      increment := increment + 1;
      fileName := base + "_" + (if increment > 0 then NatToString(increment) else "") + "." + ext;
      assert seen == set j | 0 <= j < increment :: Candidate(base, ext, j) by {
        forall x | x in seen ensures exists j :: 0 <= j < increment && x == Candidate(base, ext, j) {
          if x == Candidate(base, ext, increment - 1) {
          } else {
            var j :| 0 <= j < increment - 1 && x == Candidate(base, ext, j);
          }
        }
      }
      SubsetCardinality(seen, existing);
    }
    SubsetCardinality(seen, existing);
    name := DropLastSegment(fileName, '.');
    k := increment;
    if '.' !in ext {
      var stem := if k == 0 then base else base + "_" + NatToString(k);
      assert fileName == stem + ['.'] + ext;
      DropLastSegmentAppend(stem, ext, '.');
    }
  }

  lemma SubsetCardinality(a: set<string>, b: set<string>)
    requires a <= b
    ensures |a| <= |b|
  {
    assert b == a + (b - a);
  }

  // ---------------------------------------------------------------------------
  // getFile / createNewFile

  /** The path both `getFile` and `createNewFile` address. */
  function FilePath(folder: string, filename: string): string {
    folder + "/" + filename + ".md"
  }

  /** A file name without `/` names the file at the end of its path. */
  lemma FilePathName(folder: string, filename: string)
    requires '/' !in filename
    ensures Name(FilePath(folder, filename)) == filename + ".md"
  {
    assert FilePath(folder, filename) == folder + "/" + (filename + ".md");
    NameOfPath(folder, filename + ".md");
  }

  /** `getFile(folderPath, filename)`: the file at `folder/filename.md`, if any. */
  function GetFile(v: Vault, folder: string, filename: string): (r: Option<File>)
    ensures r.Some? ==> r.value in v && r.value.path == FilePath(folder, filename)
    ensures r.None? <==> !HasPath(v, FilePath(folder, filename))
  {
    GetFileByPath(v, FilePath(folder, filename))
  }

  /** `createNewFile(vault, folderPath, filename, content)`: creates
      `folder/filename.md`; the host's failure is caught and reported as no file. */
  function CreateNewFile(v: Vault, folder: string, filename: string, content: string, hostOk: bool): (r: Created)
    ensures r.file.Some? <==> hostOk && !HasPath(v, FilePath(folder, filename))
    ensures r.file.Some? ==> r.file.value.path == FilePath(folder, filename)
    ensures r.file.Some? ==> r.file.value.content == content && r.vault == v + [r.file.value]
    ensures r.file.None? ==> r.vault == v
    ensures UniquePaths(v) ==> UniquePaths(r.vault)
  {
    Create(v, FilePath(folder, filename), content, hostOk)
  }

  // ---------------------------------------------------------------------------
  // frontmatter

  /** `readFrontmatter(file)`: the cached frontmatter, `{}` when there is none. */
  function ReadFrontmatter(f: File): (fm: Frontmatter)
    ensures f.frontmatter.Some? ==> fm == f.frontmatter.value
    ensures f.frontmatter.None? ==> fm == map[]
  {
    f.frontmatter.GetOr(map[])
  }

  /** Where `/^---\n([\s\S]*?)\n---/` stops matching: the text must open with
      `---` and a newline, and the match closes at the first `\n---` found at or
      after index 4 (so the opening marker's own newline cannot close it). */
  function FrontmatterBlockEnd(s: string): (e: Option<nat>)
    ensures e.Some? ==> StartsWith(s, "---\n") && 8 <= e.value <= |s|
    ensures e.Some? ==> OccursAt(s, "\n---", e.value - 4)
    ensures e.Some? ==> forall j: nat :: 4 <= j < e.value - 4 ==> !OccursAt(s, "\n---", j)
    ensures e.None? <==> !StartsWith(s, "---\n") || forall j: nat :: 4 <= j ==> !OccursAt(s, "\n---", j)
  {
    if !StartsWith(s, "---\n") then None
    else
      match IndexOfFrom(s, "\n---", 4)
      case None => None
      case Some(j) => Some(j + 4)
  }

  /** `readContentWithoutFrontmatter(content)`: when a leading frontmatter block
      matches, the text after it with surrounding white space trimmed; otherwise
      the text unchanged. */
  function ReadContentWithoutFrontmatter(s: string): (r: string)
    ensures FrontmatterBlockEnd(s).None? ==> r == s
    ensures FrontmatterBlockEnd(s).Some? ==> r == Trim(s[FrontmatterBlockEnd(s).value..])
  {
    match FrontmatterBlockEnd(s)
    case None => s
    case Some(e) => Trim(s[e..])
  }

  /** A block whose YAML text holds no earlier closing marker is removed whole,
      and only the white space around the body goes with it. */
  lemma StripBuiltBlock(yaml: string, body: string)
    requires forall j: nat :: j < |yaml| ==> !OccursAt(yaml + "\n---", "\n---", j)
    ensures ReadContentWithoutFrontmatter("---\n" + yaml + "\n---" + body) == Trim(body)
  {
    var s := "---\n" + yaml + "\n---" + body;
    var t := yaml + "\n---";
    assert s[..4] == "---\n";
    assert s == "---\n" + t + body;
    forall j: nat | 4 <= j < 4 + |yaml|
      ensures !OccursAt(s, "\n---", j)
    {
      assert s[j..j + 4] == t[j - 4..j];
      assert !OccursAt(t, "\n---", j - 4);
    }
    assert s[4 + |yaml|..8 + |yaml|] == "\n---";
    assert OccursAt(s, "\n---", 4 + |yaml|);
    assert IndexOfFrom(s, "\n---", 4) == Some(4 + |yaml|);
    assert s[8 + |yaml|..] == body;
  }

  /** `modifyFrontmatter(file, update)`: a shallow merge into the frontmatter
      of the file at that path. */
  function ModifyFrontmatter(v: Vault, path: string, update: Frontmatter): (r: Vault)
    ensures |r| == |v|
    ensures forall i :: 0 <= i < |v| && v[i].path != path ==> r[i] == v[i]
    ensures forall i :: 0 <= i < |v| && v[i].path == path && UniquePaths(v) ==>
      r[i] == v[i].(frontmatter := Some(Merge(ReadFrontmatter(v[i]), update)))
    ensures forall i :: 0 <= i < |v| && v[i].path == path ==>
      r[i].path == v[i].path && r[i].content == v[i].content && r[i].backlinks == v[i].backlinks
  {
    match GetFileByPath(v, path)
    case None => v
    case Some(f) => SetFrontmatter(v, path, Merge(ReadFrontmatter(f), update))
  }

  /** `createNewFile` followed, when it succeeded, by `modifyFrontmatter` on the
      new file: the pattern both revisions and question files are made with. */
  function CreateWithFrontmatter(v: Vault, folder: string, filename: string, content: string,
                                 update: Frontmatter, hostOk: bool): (r: Created)
    ensures r.file.Some? <==> hostOk && !HasPath(v, FilePath(folder, filename))
    ensures r.file.None? ==> r.vault == v
    ensures r.file.Some? ==> r.vault == v + [r.file.value]
    ensures r.file.Some? ==> r.file.value == File(FilePath(folder, filename), content, Some(update), {}, 0)
    ensures UniquePaths(v) ==> UniquePaths(r.vault)
  {
    var created := CreateNewFile(v, folder, filename, content, hostOk);
    match created.file
    case None => created
    case Some(f) =>
      var v2 := ModifyFrontmatter(created.vault, f.path, update);
      var g := f.(frontmatter := Some(update));
      GetFileByPathAppend(v, f);
      assert Merge(ReadFrontmatter(f), update) == update;
      assert forall i :: 0 <= i < |v| ==> v[i].path != f.path;
      assert v2 == v + [g];
      AppendFresh(v, g);
      Created(v2, Some(g))
  }

  // ---------------------------------------------------------------------------
  // generated files

  /** `checkIfDerivativeFileIsValid(file)`: a generated file is still in use
      while some file links to it. */
  predicate CheckIfDerivativeFileIsValid(f: File) {
    |f.backlinks| > 0
  }

  /** The files of `files` that no file links to. */
  function UnusedFiles(files: seq<File>): (r: seq<File>)
    ensures forall i :: 0 <= i < |r| ==> r[i] in files && !CheckIfDerivativeFileIsValid(r[i])
    ensures forall i :: 0 <= i < |files| && !CheckIfDerivativeFileIsValid(files[i]) ==> files[i] in r
  {
    Seqs.Filter(files, (f: File) => !CheckIfDerivativeFileIsValid(f))
  }

  /** The garbage collection of generated files: each file of `files` without
      backlinks is trashed, and nothing else. */
  function DeleteUnused(v: Vault, files: seq<File>): (r: Vault)
    ensures UniquePaths(v) && (forall i :: 0 <= i < |files| ==> files[i] in v) ==>
      forall f :: f in r <==> f in v && !(f in files && !CheckIfDerivativeFileIsValid(f))
  {
    var unused := UnusedFiles(files);
    UnusedPathsAreUnusedFiles(v, files, unused);
    TrashAll(v, unused)
  }

  lemma UnusedPathsAreUnusedFiles(v: Vault, files: seq<File>, unused: seq<File>)
    requires unused == UnusedFiles(files)
    ensures UniquePaths(v) && (forall i :: 0 <= i < |files| ==> files[i] in v) ==>
      forall f :: f in v ==>
        ((forall g :: g in unused ==> f.path != g.path) <==> !(f in files && !CheckIfDerivativeFileIsValid(f)))
  {
    if UniquePaths(v) && (forall i :: 0 <= i < |files| ==> files[i] in v) {
      forall f, g | f in v && g in unused && f.path == g.path ensures f == g {
        var i :| 0 <= i < |v| && v[i] == f;
        var j :| 0 <= j < |files| && files[j] == g;
        var k :| 0 <= k < |v| && v[k] == g;
      }
    }
  }
}
