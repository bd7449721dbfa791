/** The earlier note helpers of utils/note.ts: a note is text that starts with
    a `---` front-matter fence, and converting a file into a note prepends a
    header carrying a fresh id. The id generator is a parameter. */
module LegacyNote {
  import opened Optional
  import opened Strings
  import opened Vault

  const Fence := "---"

  /** `checkIfNote(vault, file)` on the file's content. */
  predicate CheckIfNote(content: string) {
    StartsWith(content, Fence)
  }

  /** The header `addUniqueIdToNote` prepends. */
  function IdHeader(uuid: string): string {
    Fence + "\n id:" + uuid + "\n" + Fence + "\n"
  }

  /** `addUniqueIdToNote(vault, file)` on the file's content: content that
      already starts with the fence is kept, anything else gets the header. */
  function AddUniqueIdToNote(content: string, uuid: string): (r: string)
    ensures CheckIfNote(content) ==> r == content
    ensures !CheckIfNote(content) ==> r == IdHeader(uuid) + content
    ensures CheckIfNote(r)
    ensures EndsWith(r, content)
  {
    if CheckIfNote(content) then content
    else
      var h := IdHeader(uuid);
      var r := h + content;
      assert r[..3] == Fence;
      assert r[|r| - |content|..] == content;
      r
  }

  /** `convertToNote(vault, file)`: only the id header is added. */
  function ConvertToNote(content: string, uuid: string): (r: string)
    ensures CheckIfNote(r) && EndsWith(r, content)
  {
    AddUniqueIdToNote(content, uuid)
  }

  /** A second conversion, with whatever id, changes nothing. */
  lemma AddUniqueIdIdempotent(content: string, uuid: string, uuid2: string)
    ensures AddUniqueIdToNote(AddUniqueIdToNote(content, uuid), uuid2) == AddUniqueIdToNote(content, uuid)
  {
  }

  /** The header's lines: the fence, ` id:` followed by the id, the fence
      again, and then the original content's lines. */
  lemma IdHeaderLines(content: string, uuid: string)
    requires !CheckIfNote(content) && '\n' !in uuid
    ensures Split(AddUniqueIdToNote(content, uuid), '\n')
      == [Fence, " id:" + uuid, Fence] + Split(content, '\n')
  {
    var idLine := " id:" + uuid;
    assert '\n' !in idLine by {
      forall i | 0 <= i < |idLine| ensures idLine[i] != '\n' {
        if i >= 4 { assert idLine[i] == uuid[i - 4]; }
      }
    }
    var t3 := Fence + ['\n'] + content;
    var t2 := idLine + ['\n'] + t3;
    IdHeaderShape(content, uuid);
    SplitLine(Fence, content, '\n');
    SplitLine(idLine, t3, '\n');
    SplitLine(Fence, t2, '\n');
    var x := Split(content, '\n');
    assert [Fence] + ([idLine] + ([Fence] + x)) == [Fence, idLine, Fence] + x;
  }

  /** The header followed by the content, one line at a time. */
  lemma IdHeaderShape(content: string, uuid: string)
    ensures IdHeader(uuid) + content
      == Fence + ['\n'] + ((" id:" + uuid) + ['\n'] + (Fence + ['\n'] + content))
  {
  }

  /** `handleNoteChange(vault, file)` of utils/note.ts: without a file it
      returns at once; otherwise it reads the file and logs whether it is a
      note, which is its only output. The vault is never changed. */
  function LegacyHandleNoteChange(v: Vault, file: Option<File>): (r: (Vault, Option<bool>))
    ensures r.0 == v
    ensures file.None? ==> r.1.None?
    ensures file.Some? ==> r.1 == Some(CheckIfNote(file.value.content))
  {
    match file
    case None => (v, None)
    case Some(f) => (v, Some(CheckIfNote(f.content)))
  }
}
