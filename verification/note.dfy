/** Notes (src/utils/note.ts): reacting to a change of a tracked note by
    keeping one revision per day, turning a plain file into a tracked note,
    the "changed today" test, and garbage collection of revisions. */
module Note {
  import opened Optional
  import opened Strings
  import opened Frontmatter
  import opened Vault
  import opened FileUtils
  import opened Dates
  import opened NoteRevisions
  import opened Questions
  import opened Uri

  /** `readNoteId(vault, file)`: the id stored in the note's frontmatter. Only a
      non-empty string passes the caller's `if (!noteId)` test as an id. */
  function ReadNoteId(f: File): (r: Option<string>)
    ensures r.Some? ==> "id" in ReadFrontmatter(f) && ReadFrontmatter(f)["id"] == Str(r.value) && r.value != ""
    ensures r.None? <==> "id" !in ReadFrontmatter(f) || !ReadFrontmatter(f)["id"].Str? || ReadFrontmatter(f)["id"].s == ""
  {
    match Lookup(ReadFrontmatter(f), "id")
    case Some(Str(s)) => if s != "" then Some(s) else None
    case _ => None
  }

  /** `checkIfReviewed(content)`: `frontmatter["reviewed"] ?? false`. */
  function CheckIfReviewed(fm: Frontmatter): (r: Value)
    ensures "reviewed" in fm && !fm["reviewed"].Null? ==> r == fm["reviewed"]
    ensures "reviewed" !in fm || fm["reviewed"].Null? ==> r == Bool(false)
    ensures Truthy(r) <==> "reviewed" in fm && Truthy(fm["reviewed"])
  {
    match Lookup(fm, "reviewed")
    case None => Bool(false)
    case Some(Null) => Bool(false)
    case Some(x) => x
  }

  // ---------------------------------------------------------------------------
  // handleNoteChange

  /** A note `handleNoteChange` acts on: present, with an id, not a revision. */
  predicate Tracked(file: Option<File>) {
    file.Some? && ReadNoteId(file.value).Some? && !CheckIfNoteRevision(file.value)
  }

  /** The day written into a revision's file name, when it reads as one. */
  function RevisionDay(f: File): Option<Date> {
    match GetNoteRevisionDate(Name(f.path))
    case None => None
    case Some(ds) => ParseDatePart(ds)
  }

  datatype ChangeAction =
    | Ignore                      // returned early: no file, no id, or a revision
    | CreateFirstRevision         // no revision yet: create one with empty content
    | KeepRevision                // the latest revision is from today (or undated)
    | RollRevision(stale: File)   // create today's revision, then trash `stale`
    | RevisionNameUnreadable      // the latest name has no `_`: the date lookup throws

  datatype ChangeDecision = ChangeDecision(action: ChangeAction, reviewedNotice: bool)

  /** The decision `handleNoteChange(vault, file)` takes on day `today`, and
      whether it shows the "Note is reviewed" notice. */
  function DecideNoteChange(v: Vault, file: Option<File>, today: Date): (r: ChangeDecision)
    ensures !Tracked(file) <==> r == ChangeDecision(Ignore, false)
    ensures Tracked(file) ==>
      var latest := GetLatestNoteRevision(v, ReadNoteId(file.value).value);
      && (r.action == CreateFirstRevision <==> latest.None?)
      && (r.action == RevisionNameUnreadable <==> latest.Some? && GetNoteRevisionDate(Name(latest.value.path)).None?)
      && (r.action.RollRevision? <==>
            latest.Some? && RevisionDay(latest.value).Some? && Before(RevisionDay(latest.value).value, today))
      && (r.action.RollRevision? ==> r.action.stale == latest.value)
      && (r.reviewedNotice <==> latest.Some? && Truthy(CheckIfReviewed(ReadFrontmatter(latest.value))))
  {
    if file.None? then ChangeDecision(Ignore, false)
    else match ReadNoteId(file.value)
      case None => ChangeDecision(Ignore, false)
      case Some(noteId) =>
        if CheckIfNoteRevision(file.value) then ChangeDecision(Ignore, false)
        else match GetLatestNoteRevision(v, noteId)
          case None => ChangeDecision(CreateFirstRevision, false)
          case Some(latest) =>
            var notice := Truthy(CheckIfReviewed(ReadFrontmatter(latest)));
            match GetNoteRevisionDate(Name(latest.path))
            case None => ChangeDecision(RevisionNameUnreadable, notice)
            case Some(ds) =>
              match ParseDatePart(ds)
              case Some(d) =>
                if Before(d, today) then ChangeDecision(RollRevision(latest), notice)
                else ChangeDecision(KeepRevision, notice)
              case None => ChangeDecision(KeepRevision, notice)
  }

  /** The revision `handleNoteChange` creates for a tracked note: empty content
      for the first one, the note's text when rolling over. */
  function NewRevision(v: Vault, file: Option<File>, today: Date, first: bool, hostOk: bool): Created
    requires Tracked(file)
  {
    CreateNoteRevision(v, ReadNoteId(file.value).value, if first then "" else file.value.content,
                       true, FormatDatePart(today), hostOk)
  }

  /** The effect of `handleNoteChange` as written: the stale revision is trashed
      after the create, whether or not the create succeeded. */
  function ApplyNoteChangeAsWritten(v: Vault, file: Option<File>, today: Date, hostOk: bool): (r: Vault)
    ensures var a := DecideNoteChange(v, file, today).action;
      (a == Ignore || a == KeepRevision || a == RevisionNameUnreadable) ==> r == v
    ensures var a := DecideNoteChange(v, file, today).action;
      a == CreateFirstRevision || a.RollRevision? ==>
        var c := NewRevision(v, file, today, a == CreateFirstRevision, hostOk);
        && (c.file.Some? ==> c.file.value in r)
        && (forall f :: f in r ==> f in v || Some(f) == c.file)
    ensures var a := DecideNoteChange(v, file, today).action;
      a == CreateFirstRevision && NewRevision(v, file, today, true, hostOk).file.None? ==> r == v
    ensures var a := DecideNoteChange(v, file, today).action;
      a.RollRevision? ==> forall f :: f in r ==> f.path != a.stale.path
    ensures var a := DecideNoteChange(v, file, today).action;
      forall f :: f in v && !(a.RollRevision? && f.path == a.stale.path) ==> f in r
  {
    match DecideNoteChange(v, file, today).action
    case CreateFirstRevision => NewRevision(v, file, today, true, hostOk).vault
    case RollRevision(stale) =>
      var c := NewRevision(v, file, today, false, hostOk);
      if c.file.None? then Trash(c.vault, stale.path)
      else
        assert c.vault == v + [c.file.value];
        assert c.file.value.path != stale.path;
        TrashAfterAppend(v, c.file.value, stale.path);
        Trash(c.vault, stale.path)
    case _ => v
  }

  /** When the roll-over's create succeeds, the as-written effect is the
      intended one: the two differ only in what a failed create leaves. */
  lemma AsWrittenAgreesWhenCreated(v: Vault, file: Option<File>, today: Date, hostOk: bool)
    requires DecideNoteChange(v, file, today).action.RollRevision? ==>
      NewRevision(v, file, today, false, hostOk).file.Some?
    ensures ApplyNoteChangeAsWritten(v, file, today, hostOk) == ApplyNoteChange(v, file, today, hostOk)
  {
  }

  /** The effect of `handleNoteChange` as intended: the stale revision is only
      trashed once its replacement exists. */
  function ApplyNoteChange(v: Vault, file: Option<File>, today: Date, hostOk: bool): (r: Vault)
    ensures var a := DecideNoteChange(v, file, today).action;
      (a == Ignore || a == KeepRevision || a == RevisionNameUnreadable) ==> r == v
    ensures var a := DecideNoteChange(v, file, today).action;
      a == CreateFirstRevision || a.RollRevision? ==>
        var c := NewRevision(v, file, today, a == CreateFirstRevision, hostOk);
        (c.file.None? ==> r == v)
        && (c.file.Some? ==> c.file.value in r && forall f :: f in r ==> f in v || f == c.file.value)
    ensures var a := DecideNoteChange(v, file, today).action;
      a.RollRevision? && NewRevision(v, file, today, false, hostOk).file.Some? ==> a.stale !in r
    ensures var a := DecideNoteChange(v, file, today).action;
      forall f :: f in v && !(a.RollRevision? && f.path == a.stale.path) ==> f in r
    ensures UniquePaths(v) ==> UniquePaths(r)
  {
    match DecideNoteChange(v, file, today).action
    case CreateFirstRevision => NewRevision(v, file, today, true, hostOk).vault
    case RollRevision(stale) => RollOver(v, file, today, stale, hostOk)
    case _ => v
  }

  /** Rolling over to today's revision: create it, and trash `stale` only when
      the create succeeded. */
  function RollOver(v: Vault, file: Option<File>, today: Date, stale: File, hostOk: bool): (r: Vault)
    requires Tracked(file) && stale in v
    ensures var c := NewRevision(v, file, today, false, hostOk);
      && (c.file.None? ==> r == v)
      && (c.file.Some? ==> c.file.value in r && stale !in r)
      && (c.file.Some? ==> forall f :: f in r ==> f in v || f == c.file.value)
      && (forall f :: f in v && f.path != stale.path ==> f in r)
    ensures UniquePaths(v) ==> UniquePaths(r)
  {
    var c := NewRevision(v, file, today, false, hostOk);
    if c.file.None? then v
    else
      assert c.vault == v + [c.file.value];
      assert c.file.value.path != stale.path;
      TrashAfterAppend(v, c.file.value, stale.path);
      Trash(c.vault, stale.path)
  }

  // ---------------------------------------------------------------------------
  // properties of handleNoteChange

  /** Two actions that do the same thing to the vault's paths. */
  predicate SameAction(a: ChangeAction, b: ChangeAction) {
    if a.RollRevision? then b.RollRevision? && a.stale.path == b.stale.path else a == b
  }

  /** The decision reads the vault's paths only. */
  lemma DecisionReadsPathsOnly(v: Vault, w: Vault, file: Option<File>, today: Date)
    requires SamePaths(v, w)
    ensures SameAction(DecideNoteChange(v, file, today).action, DecideNoteChange(w, file, today).action)
  {
    if Tracked(file) {
      LatestSamePaths(v, w, ReadNoteId(file.value).value);
    }
  }

  /** Marking any file reviewed or unreviewed never changes what
      `handleNoteChange` does to the vault; the flag only shows a notice. */
  lemma ReviewedFlagNeverDecides(v: Vault, i: nat, b: bool, file: Option<File>, today: Date)
    requires i < |v|
    ensures var w := v[i := v[i].(frontmatter := Some(ReadFrontmatter(v[i])["reviewed" := Bool(b)]))];
      SameAction(DecideNoteChange(v, file, today).action, DecideNoteChange(w, file, today).action)
  {
    var w := v[i := v[i].(frontmatter := Some(ReadFrontmatter(v[i])["reviewed" := Bool(b)]))];
    assert SamePaths(v, w);
    DecisionReadsPathsOnly(v, w, file, today);
  }

  /** Once the first revision of a note is created, a second change on the
      same day keeps it. */
  lemma SameDayAfterFirstRevision(v: Vault, file: Option<File>, today: Date)
    requires Tracked(file) && Valid(today)
    requires '_' !in ReadNoteId(file.value).value && '/' !in ReadNoteId(file.value).value
    requires DecideNoteChange(v, file, today).action == CreateFirstRevision
    ensures DecideNoteChange(ApplyNoteChange(v, file, today, true), file, today).action == KeepRevision
  {
    var noteId := ReadNoteId(file.value).value;
    var g := FirstRevisionIsLatest(v, file, today);
    NewRevisionDay(noteId, today, g);
  }

  /** The first revision is created, and is then the note's latest. */
  lemma FirstRevisionIsLatest(v: Vault, file: Option<File>, today: Date) returns (g: File)
    requires Tracked(file) && Valid(today)
    requires '/' !in ReadNoteId(file.value).value
    requires DecideNoteChange(v, file, today).action == CreateFirstRevision
    ensures g.path == RevisionPath(ReadNoteId(file.value).value, FormatDatePart(today))
    ensures GetLatestNoteRevision(ApplyNoteChange(v, file, today, true), ReadNoteId(file.value).value) == Some(g)
  {
    var noteId := ReadNoteId(file.value).value;
    g := FirstRevisionCreated(v, file, today);
    assert ApplyNoteChange(v, file, today, true) == v + [g];
    AppendedSoleRevision(v, noteId, g);
  }

  /** The create succeeds, since no file of the note's revisions exists yet. */
  lemma FirstRevisionCreated(v: Vault, file: Option<File>, today: Date) returns (g: File)
    requires Tracked(file) && Valid(today)
    requires '/' !in ReadNoteId(file.value).value
    requires DecideNoteChange(v, file, today).action == CreateFirstRevision
    ensures NewRevision(v, file, today, true, true).file == Some(g)
    ensures g.path == RevisionPath(ReadNoteId(file.value).value, FormatDatePart(today))
    ensures IsRevisionOf(g, ReadNoteId(file.value).value)
    ensures forall i :: 0 <= i < |v| ==> !IsRevisionOf(v[i], ReadNoteId(file.value).value)
  {
    var noteId := ReadNoteId(file.value).value;
    var dp := FormatDatePart(today);
    FormatShape(today);
    RevisionPathIsRevisionOf(noteId, dp);
    assert !HasPath(v, RevisionPath(noteId, dp));
    g := NewRevision(v, file, today, true, true).file.value;
  }

  /** Today's revision reads as dated today. */
  lemma NewRevisionDay(noteId: string, today: Date, g: File)
    requires Valid(today) && '_' !in noteId && '/' !in noteId
    requires g.path == RevisionPath(noteId, FormatDatePart(today))
    ensures RevisionDay(g) == Some(today)
  {
    var dp := FormatDatePart(today);
    var name := GenerateNoteRevisionName(noteId, dp);
    FormatShape(today);
    RevisionDayRoundTrip(noteId, today);
    RevisionNameOfPath(noteId, dp);
  }

  /** As written, a failed create during a roll-over still trashes the stale
      revision: a note whose only revision was the stale one is left with
      none, and its next change starts again from an empty revision. */
  lemma AsWrittenRollOverLosesRevision(v: Vault, file: Option<File>, today: Date)
    requires Tracked(file) && DecideNoteChange(v, file, today).action.RollRevision?
    requires forall i :: 0 <= i < |v| && IsRevisionOf(v[i], ReadNoteId(file.value).value) ==>
      v[i].path == DecideNoteChange(v, file, today).action.stale.path
    ensures GetLatestNoteRevision(ApplyNoteChangeAsWritten(v, file, today, false), ReadNoteId(file.value).value).None?
  {
    var noteId := ReadNoteId(file.value).value;
    var stale := DecideNoteChange(v, file, today).action.stale;
    var r := ApplyNoteChangeAsWritten(v, file, today, false);
    assert r == Trash(v, stale.path);
    forall i | 0 <= i < |r| ensures !IsRevisionOf(r[i], noteId) {
      assert r[i] in r;
    }
  }

  /** With the correction, a note that had a revision keeps one through a
      roll-over, whether or not the host manages to create the new one. */
  lemma RollOverKeepsRevision(v: Vault, file: Option<File>, today: Date, hostOk: bool)
    requires Tracked(file) && DecideNoteChange(v, file, today).action.RollRevision?
    requires '/' !in ReadNoteId(file.value).value && Valid(today)
    ensures GetLatestNoteRevision(ApplyNoteChange(v, file, today, hostOk), ReadNoteId(file.value).value).Some?
  {
    var noteId := ReadNoteId(file.value).value;
    var stale := DecideNoteChange(v, file, today).action.stale;
    var r := ApplyNoteChange(v, file, today, hostOk);
    var c := NewRevision(v, file, today, false, hostOk);
    FormatShape(today);
    RevisionPathIsRevisionOf(noteId, FormatDatePart(today));
    var f := if c.file.Some? then c.file.value else stale;
    assert f in r && IsRevisionOf(f, noteId);
    var i :| 0 <= i < |r| && r[i] == f;
  }

  // ---------------------------------------------------------------------------
  // noteIsChanged

  const DayMs := 86400000

  /** `Math.trunc(a / b)`: division rounding toward zero. */
  function TruncDiv(a: int, b: nat): (q: int)
    requires b > 0
    ensures a >= 0 ==> q * b <= a < q * b + b
    ensures a < 0 ==> q * b - b < a <= q * b
  {
    if a >= 0 then a / b else -((-a) / b)
  }

  /** `differenceInDays(later, earlier)` over days of 24 hours: whole days
      between the two instants, the fraction dropped toward zero. */
  function DifferenceInDays(later: int, earlier: int): int {
    TruncDiv(later - earlier, DayMs)
  }

  /** The frontmatter `reviewed` value is truthy (missing reads as
      `undefined`). */
  predicate IsReviewed(f: File) {
    "reviewed" in ReadFrontmatter(f) && Truthy(ReadFrontmatter(f)["reviewed"])
  }

  /** `noteIsChanged(file)` as written, with `startOfToday` the start of the
      current day in milliseconds. */
  predicate NoteIsChangedAsWritten(f: File, startOfToday: int) {
    DifferenceInDays(f.mtime, startOfToday) >= 0 && !IsReviewed(f)
  }

  /** What the as-written test accepts: any change less than a whole day
      before the start of today counts. */
  lemma NoteIsChangedAsWrittenWindow(f: File, startOfToday: int)
    ensures NoteIsChangedAsWritten(f, startOfToday) <==> f.mtime > startOfToday - DayMs && !IsReviewed(f)
  {
    var x := f.mtime - startOfToday;
    if x < 0 {
      assert (-x) / DayMs == 0 <==> -x < DayMs;
    }
  }

  /** A note last changed at 23:00 yesterday is reported as changed today. */
  lemma NoteIsChangedAsWrittenYesterday(startOfToday: int)
    ensures var f := File("note.md", "", None, {}, startOfToday - 3600000);
      NoteIsChangedAsWritten(f, startOfToday) && f.mtime < startOfToday
  {
    NoteIsChangedAsWrittenWindow(File("note.md", "", None, {}, startOfToday - 3600000), startOfToday);
  }

  /** `noteIsChanged(file)` as intended: changed since the start of today and
      not yet reviewed. */
  predicate NoteIsChanged(f: File, startOfToday: int) {
    f.mtime >= startOfToday && !IsReviewed(f)
  }

  /** The intended test holds exactly for unreviewed notes modified at or
      after the start of today. It is the day-difference test with the
      difference rounded down rather than toward zero, and it agrees with the
      as-written one except on the day before today. */
  lemma NoteIsChangedMeansToday(f: File, startOfToday: int)
    ensures NoteIsChanged(f, startOfToday) <==> f.mtime >= startOfToday && !IsReviewed(f)
    ensures NoteIsChanged(f, startOfToday) <==> (f.mtime - startOfToday) / DayMs >= 0 && !IsReviewed(f)
    ensures NoteIsChanged(f, startOfToday) ==> NoteIsChangedAsWritten(f, startOfToday)
    ensures NoteIsChangedAsWritten(f, startOfToday) && !NoteIsChanged(f, startOfToday) ==>
      startOfToday - DayMs < f.mtime < startOfToday
    ensures IsReviewed(f) ==> !NoteIsChanged(f, startOfToday) && !NoteIsChangedAsWritten(f, startOfToday)
  {
    NoteIsChangedAsWrittenWindow(f, startOfToday);
  }

  // ---------------------------------------------------------------------------
  // extractContentFromNote

  /** `extractContentFromNote(content)`: the lines after the third, joined back. */
  function ExtractContentFromNote(content: string): string {
    var lines := Split(content, '\n');
    Join(lines[if |lines| < 3 then |lines| else 3..], '\n')
  }

  /** The text after the third newline is kept exactly. */
  lemma ExtractAfterThreeLines(a: string, b: string, c: string, rest: string)
    requires '\n' !in a && '\n' !in b && '\n' !in c
    ensures ExtractContentFromNote(a + "\n" + b + "\n" + c + "\n" + rest) == rest
  {
    var s := a + "\n" + b + "\n" + c + "\n" + rest;
    assert s == a + ['\n'] + (b + ['\n'] + (c + ['\n'] + rest));
    SplitAppend(a, b + ['\n'] + (c + ['\n'] + rest), '\n');
    SplitAppend(b, c + ['\n'] + rest, '\n');
    SplitAppend(c, rest, '\n');
    SplitNoSeparator(a, '\n');
    SplitNoSeparator(b, '\n');
    SplitNoSeparator(c, '\n');
    var lines := Split(s, '\n');
    assert lines == [a] + ([b] + ([c] + Split(rest, '\n')));
    assert lines[3..] == Split(rest, '\n');
    JoinSplit(rest, '\n');
  }

  /** Text with fewer than three newlines extracts to nothing. */
  lemma ExtractShortNote(content: string)
    requires CountChar(content, '\n') < 3
    ensures ExtractContentFromNote(content) == ""
  {
    SplitCount(content, '\n');
  }

  // ---------------------------------------------------------------------------
  // convertToNote

  /** The `questionsLink` written into a converted note. */
  function QuestionsLink(questionPath: string): string {
    "[[obsidian://view-questions?path=" + EncodeUriComponent(questionPath) + "]]"
  }

  /** The link closes only at its end, whatever the question file's path:
      the encoded path cannot contain `]`. */
  lemma QuestionsLinkCloses(questionPath: string)
    ensures IndexOfFrom(QuestionsLink(questionPath), "]]", 0) == Some(|QuestionsLink(questionPath)| - 2)
  {
    ViewLinkCloses(EncodeUriComponent(questionPath));
  }

  lemma ViewLinkCloses(e: string)
    requires ']' !in e
    ensures var s := "[[obsidian://view-questions?path=" + e + "]]";
      IndexOfFrom(s, "]]", 0) == Some(|s| - 2)
  {
    var head := "[[obsidian://view-questions?path=" + e;
    assert ']' !in head by {
      forall i | 0 <= i < |head| ensures head[i] != ']' {
        if i >= 33 { assert head[i] == e[i - 33]; }
      }
    }
    assert head + "]]" == head + "]]" + "";
    IndexAfterFree(head, "]]", "");
  }

  function NoteMetadata(noteId: string, questionPath: string): Frontmatter {
    map["id" := Str(noteId), "questionsLink" := Str(QuestionsLink(questionPath))]
  }

  /** `convertToNote(vault, file)` with `noteId` the fresh uuid and `datePart`
      today's date part: creates the revision, then the question file, and
      only when both exist writes `{id, questionsLink}` into the note. */
  function ConvertToNote(v: Vault, file: File, noteId: string, datePart: string,
                         revisionOk: bool, questionOk: bool): (r: Vault)
    requires file in v
    ensures var nr := CreateNoteRevision(v, noteId, file.content, true, datePart, revisionOk);
      nr.file.None? ==> r == v
    ensures var nr := CreateNoteRevision(v, noteId, file.content, true, datePart, revisionOk);
      var qf := CreateQuestion(nr.vault, noteId, file.path, "", "", questionOk);
      nr.file.Some? && qf.file.None? ==> r == v + [nr.file.value]
    ensures var nr := CreateNoteRevision(v, noteId, file.content, true, datePart, revisionOk);
      var qf := CreateQuestion(nr.vault, noteId, file.path, "", "", questionOk);
      nr.file.Some? && qf.file.Some? ==>
        && |r| == |v| + 2
        && r[|v|] == nr.file.value && r[|v| + 1] == qf.file.value
        && (forall i :: 0 <= i < |v| && v[i].path != file.path ==> r[i] == v[i])
        && (forall i :: 0 <= i < |v| && v[i].path == file.path && UniquePaths(v) ==>
              r[i] == v[i].(frontmatter := Some(Merge(ReadFrontmatter(v[i]), NoteMetadata(noteId, qf.file.value.path)))))
  {
    var nr := CreateNoteRevision(v, noteId, file.content, true, datePart, revisionOk);
    if nr.file.None? then nr.vault
    else
      var qf := CreateQuestion(nr.vault, noteId, file.path, "", "", questionOk);
      if qf.file.None? then qf.vault
      else
        assert qf.vault == v + [nr.file.value] + [qf.file.value];
        assert UniquePaths(v) ==> UniquePaths(qf.vault);
        MemberPath(v, file, nr.file.value.path);
        MemberPath(nr.vault, file, qf.file.value.path);
        WriteAfterCreates(v, nr.file.value, qf.file.value, file.path, NoteMetadata(noteId, qf.file.value.path))
  }

  /** The frontmatter write that ends a conversion, on the vault with the two
      new files appended. */
  function WriteAfterCreates(v: Vault, nf: File, qf: File, path: string, meta: Frontmatter): (r: Vault)
    requires nf.path != path && qf.path != path
    ensures |r| == |v| + 2 && r[|v|] == nf && r[|v| + 1] == qf
    ensures forall i :: 0 <= i < |v| && v[i].path != path ==> r[i] == v[i]
    ensures forall i :: 0 <= i < |v| && v[i].path == path && UniquePaths(v + [nf] + [qf]) ==>
      r[i] == v[i].(frontmatter := Some(Merge(ReadFrontmatter(v[i]), meta)))
  {
    var w := v + [nf] + [qf];
    assert forall i :: 0 <= i < |v| ==> w[i] == v[i];
    ModifyFrontmatter(w, path, meta)
  }

  /** After a conversion in which both files were created, the note reads back
      the fresh id, so later changes to it are tracked. */
  lemma ConvertedNoteHasId(v: Vault, i: nat, noteId: string, datePart: string)
    requires UniquePaths(v) && i < |v| && noteId != ""
    requires CreateNoteRevision(v, noteId, v[i].content, true, datePart, true).file.Some?
    requires CreateQuestion(CreateNoteRevision(v, noteId, v[i].content, true, datePart, true).vault,
                            noteId, v[i].path, "", "", true).file.Some?
    ensures ReadNoteId(ConvertToNote(v, v[i], noteId, datePart, true, true)[i]) == Some(noteId)
  {
    var nr := CreateNoteRevision(v, noteId, v[i].content, true, datePart, true);
    var qf := CreateQuestion(nr.vault, noteId, v[i].path, "", "", true);
    var meta := NoteMetadata(noteId, qf.file.value.path);
    assert "id" in meta && meta["id"] == Str(noteId);
    assert ConvertToNote(v, v[i], noteId, datePart, true, true)[i]
      == v[i].(frontmatter := Some(Merge(ReadFrontmatter(v[i]), meta)));
    MergedIdReads(v[i], noteId, meta);
  }

  /** A file whose frontmatter got an update carrying a non-empty `id` reads
      back that id. */
  lemma MergedIdReads(f: File, noteId: string, update: Frontmatter)
    requires noteId != "" && "id" in update && update["id"] == Str(noteId)
    ensures ReadNoteId(f.(frontmatter := Some(Merge(ReadFrontmatter(f), update)))) == Some(noteId)
  {
  }

  // ---------------------------------------------------------------------------
  // deleteAllUnusedNoteRevisionFiles

  /** `deleteAllUnusedNoteRevisionFiles()` over the revision files the host
      lists: every one without backlinks is trashed, and nothing else. */
  function DeleteAllUnusedNoteRevisionFiles(v: Vault, revisions: seq<File>): (r: Vault)
    ensures UniquePaths(v) && (forall i :: 0 <= i < |revisions| ==> revisions[i] in v) ==>
      forall f :: f in r <==> f in v && !(f in revisions && !CheckIfDerivativeFileIsValid(f))
  {
    DeleteUnused(v, revisions)
  }
}
