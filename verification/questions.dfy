/** The question bank (src/utils/questions.ts): one file per note, named
    `<id>_question.md` in `_Learnie_Questions`, whose `questions` frontmatter
    key holds the list of question/answer pairs. */
module Questions {
  import opened Optional
  import opened Strings
  import opened Seqs
  import opened Frontmatter
  import opened Vault
  import opened FileUtils

  const QuestionFolder := "_Learnie_Questions"

  /** `formatQuestionFilename(noteId)`. */
  function FormatQuestionFilename(noteId: string): string {
    noteId + "_question"
  }

  function QuestionFilePath(noteId: string): string {
    FilePath(QuestionFolder, FormatQuestionFilename(noteId))
  }

  /** Different notes get different question files. */
  lemma QuestionFilePathInjective(a: string, b: string)
    requires QuestionFilePath(a) == QuestionFilePath(b)
    ensures a == b
  {
    var pa, pb := QuestionFilePath(a), QuestionFilePath(b);
    var n := |QuestionFolder| + 1;
    assert |a| == |b|;
    assert pa[n..n + |a|] == a && pb[n..n + |b|] == b;
  }

  /** The file name of a note's question file carries the note id. */
  lemma QuestionFileName(noteId: string)
    requires '/' !in noteId
    ensures Name(QuestionFilePath(noteId)) == noteId + "_question.md"
  {
    var name := FormatQuestionFilename(noteId);
    assert '/' !in name by {
      forall i | 0 <= i < |name| ensures name[i] != '/' {
        if i < |noteId| { assert name[i] == noteId[i]; }
      }
    }
    FilePathName(QuestionFolder, name);
  }

  predicate IsQuestionFile(f: File) {
    StartsWith(f.path, QuestionFolder)
  }

  /** `getAllQuestionFiles()`: the files under the question folder, in vault
      order. */
  function GetAllQuestionFiles(v: Vault): (r: seq<File>)
    ensures forall i :: 0 <= i < |r| ==> r[i] in v && IsQuestionFile(r[i])
    ensures forall i :: 0 <= i < |v| && IsQuestionFile(v[i]) ==> v[i] in r
    ensures IsSubsequence(r, v)
  {
    Filter(v, IsQuestionFile)
  }

  /** The value stored under a key, `undefined` as `None`. */
  function Lookup(fm: Frontmatter, key: string): (r: Option<Value>)
    ensures r.Some? <==> key in fm
    ensures r.Some? ==> r.value == fm[key]
  {
    if key in fm then Some(fm[key]) else None
  }

  datatype QuestionsResult = NoQuestionFile | Stored(value: Option<Value>)

  /** `getQuestions(noteId)`: `null` without a question file, otherwise whatever
      is stored under `questions`. */
  function GetQuestions(v: Vault, noteId: string): (r: QuestionsResult)
    ensures r.NoQuestionFile? <==> !HasPath(v, QuestionFilePath(noteId))
    ensures forall i :: 0 <= i < |v| && v[i].path == QuestionFilePath(noteId) && UniquePaths(v) ==>
      r == Stored(Lookup(ReadFrontmatter(v[i]), "questions"))
  {
    match GetFile(v, QuestionFolder, FormatQuestionFilename(noteId))
    case None => NoQuestionFile
    case Some(f) => Stored(Lookup(ReadFrontmatter(f), "questions"))
  }

  /** The list a new question file starts with. */
  function InitialQuestions(question: string, answer: string): (qs: seq<QuestionAnswerPair>)
    ensures qs == [QuestionAnswerPair(question, answer)] <==> question != "" && answer != ""
    ensures qs == [] <==> question == "" || answer == ""
  {
    if question != "" && answer != "" then [QuestionAnswerPair(question, answer)] else []
  }

  /** `createQuestion(noteId, notePath, question, answer)`: creates the empty
      question file and stores the initial list in it. `notePath` is unused, as
      in the source. */
  function CreateQuestion(v: Vault, noteId: string, notePath: string, question: string, answer: string,
                          hostOk: bool): (r: Created)
    ensures r.file.Some? <==> hostOk && !HasPath(v, QuestionFilePath(noteId))
    ensures r.file.None? ==> r.vault == v
    ensures UniquePaths(v) ==> UniquePaths(r.vault)
    ensures r.file.Some? ==> r.vault == v + [r.file.value]
    ensures r.file.Some? ==> r.file.value.path == QuestionFilePath(noteId) && r.file.value.content == ""
    ensures r.file.Some? ==>
      r.file.value.frontmatter == Some(map["questions" := QuestionList(InitialQuestions(question, answer))])
  {
    CreateWithFrontmatter(v, QuestionFolder, FormatQuestionFilename(noteId), "",
                          map["questions" := QuestionList(InitialQuestions(question, answer))], hostOk)
  }

  /** `frontmatter["questions"] ?? []` followed by `push`: the pair is appended
      to a stored list; a missing or empty value counts as an empty list; any
      other stored value has no `push`, the call throws and nothing is written. */
  function AppendedQuestions(stored: Option<Value>, question: string, answer: string): (r: Option<seq<QuestionAnswerPair>>)
    ensures (stored.None? || stored == Some(Null)) ==> r == Some([QuestionAnswerPair(question, answer)])
    ensures (stored.Some? && stored.value.QuestionList?) ==>
      r == Some(stored.value.items + [QuestionAnswerPair(question, answer)])
    ensures r.None? <==> stored.Some? && !stored.value.Null? && !stored.value.QuestionList?
  {
    var pair := QuestionAnswerPair(question, answer);
    match stored
    case None => Some([pair])
    case Some(Null) => Some([pair])
    case Some(QuestionList(items)) => Some(items + [pair])
    case Some(_) => None
  }

  /** `addQuestion(noteId, file, question, answer)`. `validNotePath` is the
      answer of `isValidNotePath(file.path)`, which is not part of this model. */
  function AddQuestion(v: Vault, noteId: string, notePath: string, question: string, answer: string,
                       validNotePath: bool, hostOk: bool): (r: Vault)
    ensures !validNotePath ==> r == v
    ensures validNotePath && !HasPath(v, QuestionFilePath(noteId)) ==>
      r == CreateQuestion(v, noteId, notePath, question, answer, hostOk).vault
    ensures |r| >= |v|
    ensures HasPath(v, QuestionFilePath(noteId)) ==> |r| == |v|
    ensures forall i :: 0 <= i < |v| && v[i].path != QuestionFilePath(noteId) ==> r[i] == v[i]
    ensures forall i :: 0 <= i < |v| && v[i].path == QuestionFilePath(noteId) && UniquePaths(v) && validNotePath ==>
      var appended := AppendedQuestions(Lookup(ReadFrontmatter(v[i]), "questions"), question, answer);
      (appended.None? ==> r == v)
      && (appended.Some? ==> r[i] == v[i].(frontmatter := Some(ReadFrontmatter(v[i])["questions" := QuestionList(appended.value)])))
  {
    if !validNotePath then v
    else
      match GetFile(v, QuestionFolder, FormatQuestionFilename(noteId))
      case None => CreateQuestion(v, noteId, notePath, question, answer, hostOk).vault
      case Some(qf) =>
        match AppendedQuestions(Lookup(ReadFrontmatter(qf), "questions"), question, answer)
        case None => v
        case Some(items) =>
          var r := ModifyFrontmatter(v, qf.path, map["questions" := QuestionList(items)]);
          assert forall i :: 0 <= i < |v| && v[i].path == qf.path && UniquePaths(v) ==> v[i] == qf;
          assert Merge(ReadFrontmatter(qf), map["questions" := QuestionList(items)])
            == ReadFrontmatter(qf)["questions" := QuestionList(items)];
          r
  }

  /** After adding to an existing list, reading the questions gives the old
      list with the new pair at the end. */
  lemma AddThenGetQuestions(v: Vault, noteId: string, notePath: string, question: string, answer: string,
                            hostOk: bool, i: nat, items: seq<QuestionAnswerPair>)
    requires UniquePaths(v) && i < |v| && v[i].path == QuestionFilePath(noteId)
    requires Lookup(ReadFrontmatter(v[i]), "questions") == Some(QuestionList(items))
    ensures GetQuestions(AddQuestion(v, noteId, notePath, question, answer, true, hostOk), noteId)
      == Stored(Some(QuestionList(items + [QuestionAnswerPair(question, answer)])))
  {
    var r := AddQuestion(v, noteId, notePath, question, answer, true, hostOk);
    assert UniquePaths(r) by {
      forall a, b | 0 <= a < |r| && 0 <= b < |r| && r[a].path == r[b].path ensures a == b {
        assert r[a].path == v[a].path && r[b].path == v[b].path;
      }
    }
  }

  /** Adding to a note that has no question file yet, when the host creates
      it, leaves exactly the initial list in the new file. */
  lemma AddFirstThenGetQuestions(v: Vault, noteId: string, notePath: string, question: string, answer: string)
    requires UniquePaths(v) && !HasPath(v, QuestionFilePath(noteId))
    ensures GetQuestions(AddQuestion(v, noteId, notePath, question, answer, true, true), noteId)
      == Stored(Some(QuestionList(InitialQuestions(question, answer))))
  {
    var c := CreateQuestion(v, noteId, notePath, question, answer, true);
    var r := c.vault;
    assert r[|v|] == c.file.value;
    assert forall a :: 0 <= a < |v| ==> r[a] == v[a] && r[a].path != QuestionFilePath(noteId);
    assert UniquePaths(r) by {
      forall a, b | 0 <= a < |r| && 0 <= b < |r| && r[a].path == r[b].path ensures a == b {
      }
    }
  }

  /** `deleteAllUnusedQuestionFiles()`: every question file without backlinks
      is trashed, and no other file. */
  function DeleteAllUnusedQuestionFiles(v: Vault): (r: Vault)
    ensures UniquePaths(v) ==>
      forall f :: f in r <==> f in v && !(IsQuestionFile(f) && !CheckIfDerivativeFileIsValid(f))
  {
    DeleteUnused(v, GetAllQuestionFiles(v))
  }
}
