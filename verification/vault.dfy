/** The host's file store as the plugin sees it: an ordered list of files
    (`vault.getFiles()` order), each with its path, raw text, the frontmatter
    the metadata cache parsed from it, the paths of the files linking to it
    (its backlinks) and its modification time in milliseconds. */
module Vault {
  import opened Optional
  import opened Strings
  import opened Frontmatter

  datatype File = File(
    path: string,
    content: string,
    frontmatter: Option<Frontmatter>,
    backlinks: set<string>,
    mtime: int)

  type Vault = seq<File>

  /** `TFile.name`: the last `/`-segment of the path. */
  function Name(path: string): string {
    var parts := Split(path, '/');
    parts[|parts| - 1]
  }

  lemma NameOfPath(folder: string, name: string)
    requires '/' !in name
    ensures Name(folder + "/" + name) == name
  {
    assert folder + "/" + name == folder + ['/'] + name;
    SplitAppend(folder, name, '/');
    SplitNoSeparator(name, '/');
  }

  predicate HasPath(v: Vault, path: string) {
    exists i :: 0 <= i < |v| && v[i].path == path
  }

  /** A file of the vault is not at a path the vault does not have. */
  lemma MemberPath(v: Vault, f: File, path: string)
    requires f in v && !HasPath(v, path)
    ensures f.path != path
  {
    var i :| 0 <= i < |v| && v[i] == f;
  }

  predicate UniquePaths(v: Vault) {
    forall i, j :: 0 <= i < |v| && 0 <= j < |v| && v[i].path == v[j].path ==> i == j
  }

  /** `vault.getFileByPath(path)`. */
  function GetFileByPath(v: Vault, path: string): (r: Option<File>)
    ensures r.Some? ==> r.value in v && r.value.path == path
    ensures r.None? <==> !HasPath(v, path)
    decreases |v|
  {
    if |v| == 0 then None
    else if v[0].path == path then Some(v[0])
    else
      var r := GetFileByPath(v[1..], path);
      assert HasPath(v[1..], path) ==> HasPath(v, path) by {
        if HasPath(v[1..], path) {
          var i :| 0 <= i < |v[1..]| && v[1..][i].path == path;
          assert v[i + 1].path == path;
        }
      }
      r
  }

  /** A file appended under a fresh path is the one found at that path. */
  lemma {:induction false} GetFileByPathAppend(v: Vault, f: File)
    requires !HasPath(v, f.path)
    ensures GetFileByPath(v + [f], f.path) == Some(f)
    decreases |v|
  {
    if |v| > 0 {
      assert v[0].path != f.path;
      assert (v + [f])[1..] == v[1..] + [f];
      assert forall i :: 0 <= i < |v[1..]| ==> v[1..][i] == v[i + 1];
      GetFileByPathAppend(v[1..], f);
    }
  }

  /** Adding a file under a fresh path keeps paths unique. */
  lemma AppendFresh(v: Vault, f: File)
    ensures UniquePaths(v) && !HasPath(v, f.path) ==> UniquePaths(v + [f])
  {
    var w := v + [f];
    assert forall i :: 0 <= i < |v| ==> w[i] == v[i];
    assert w[|v|] == f;
  }

  datatype Created = Created(vault: Vault, file: Option<File>)

  /** `vault.create(path, content)`: throws when a file already has that path,
      or when the host fails for a reason of its own (`hostOk` false); on
      success the new file, with no frontmatter and no backlinks yet, is added. */
  function Create(v: Vault, path: string, content: string, hostOk: bool): (r: Created)
    ensures r.file.Some? <==> hostOk && !HasPath(v, path)
    ensures r.file.Some? ==> r.file.value.path == path && r.file.value.content == content
    ensures r.file.Some? ==> r.file.value.frontmatter.None? && r.vault == v + [r.file.value]
    ensures r.file.None? ==> r.vault == v
    ensures UniquePaths(v) ==> UniquePaths(r.vault)
  {
    if hostOk && !HasPath(v, path) then
      var f := File(path, content, None, {}, 0);
      Created(v + [f], Some(f))
    else Created(v, None)
  }

  /** `vault.trash(file)`: the file at that path disappears, nothing else changes. */
  function Trash(v: Vault, path: string): (r: Vault)
    ensures forall f :: f in r <==> f in v && f.path != path
    ensures UniquePaths(v) ==> UniquePaths(r)
    decreases |v|
  {
    if |v| == 0 then []
    else if v[0].path == path then Trash(v[1..], path)
    else [v[0]] + Trash(v[1..], path)
  }

  /** Trashing another path right after adding `g` keeps `g`. */
  lemma TrashAfterAppend(v: Vault, g: File, path: string)
    requires g.path != path
    ensures forall f :: f in Trash(v + [g], path) <==> (f in v && f.path != path) || f == g
  {
    var w := v + [g];
    assert forall f :: f in w <==> f in v || f == g;
  }

  /** Trashes every file of `files`, in order. */
  function TrashAll(v: Vault, files: seq<File>): (r: Vault)
    ensures forall f :: f in r <==> f in v && forall g :: g in files ==> f.path != g.path
    decreases |files|
  {
    if |files| == 0 then v else TrashAll(Trash(v, files[0].path), files[1..])
  }

  /** The host writing a whole frontmatter map into the file at `path`. */
  function SetFrontmatter(v: Vault, path: string, fm: Frontmatter): (r: Vault)
    ensures |r| == |v|
    ensures forall i :: 0 <= i < |v| && v[i].path == path ==> r[i] == v[i].(frontmatter := Some(fm))
    ensures forall i :: 0 <= i < |v| && v[i].path != path ==> r[i] == v[i]
  {
    seq(|v|, i requires 0 <= i < |v| => if v[i].path == path then v[i].(frontmatter := Some(fm)) else v[i])
  }
}
