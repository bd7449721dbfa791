/** Note revisions (src/utils/noteRevisions.ts): snapshots of a note's body
    stored as `<id>_<yyyy-MM-dd>.md`, found again by id prefix and date. */
module NoteRevisions {
  import opened Optional
  import opened Strings
  import opened Seqs
  import opened Frontmatter
  import opened Vault
  import opened FileUtils
  import opened Dates

  /** `checkIfNoteRevision(file)`: revisions are the files whose frontmatter
      has a `reviewed` key. (`readFrontmatter` never yields a missing map, so
      the source's "no frontmatter" branch cannot be taken.) */
  predicate CheckIfNoteRevision(f: File) {
    "reviewed" in ReadFrontmatter(f)
  }

  lemma CheckIfNoteRevisionMeans(f: File)
    ensures CheckIfNoteRevision(f) <==> f.frontmatter.Some? && "reviewed" in f.frontmatter.value
  {
  }

  /** `generateNoteRevisionName(id)` on the day whose date part is `datePart`. */
  function GenerateNoteRevisionName(id: string, datePart: string): string {
    id + "_" + datePart
  }

  /** `getNoteRevisionFileName(id)` on the day whose date part is `datePart`. */
  function GetNoteRevisionFileName(id: string, datePart: string): string {
    GenerateNoteRevisionName(id, datePart) + ".md"
  }

  /** The string `getNoteRevisionDate(name)` hands to `new Date`:
      `name.split("_")[1].split(".")[0]`. `None` when the name has no `_`,
      where the source throws a TypeError. */
  function GetNoteRevisionDate(name: string): Option<string> {
    var parts := Split(name, '_');
    if |parts| >= 2 then Some(Split(parts[1], '.')[0]) else None
  }

  /** The date part written into a revision file name is the one read back. */
  lemma RevisionDateRoundTrip(id: string, datePart: string)
    requires '_' !in id && '_' !in datePart && '.' !in datePart
    ensures GetNoteRevisionDate(GetNoteRevisionFileName(id, datePart)) == Some(datePart)
  {
    var tail := datePart + ".md";
    assert GetNoteRevisionFileName(id, datePart) == id + ['_'] + tail;
    SplitAppend(id, tail, '_');
    SplitNoSeparator(id, '_');
    SplitNoSeparator(tail, '_');
    assert tail == datePart + ['.'] + "md";
    SplitAppend(datePart, "md", '.');
    SplitNoSeparator(datePart, '.');
  }

  /** ... and for a name written on day `d`, reading it gives back `d`. */
  lemma RevisionDayRoundTrip(id: string, d: Date)
    requires '_' !in id && Valid(d)
    ensures GetNoteRevisionDate(GetNoteRevisionFileName(id, FormatDatePart(d))) == Some(FormatDatePart(d))
    ensures ParseDatePart(FormatDatePart(d)) == Some(d)
  {
    FormatShape(d);
    RevisionDateRoundTrip(id, FormatDatePart(d));
    ParseFormat(d);
  }

  // ---------------------------------------------------------------------------
  // createNoteRevision

  function RevisionMetadata(noteId: string): Frontmatter {
    map["id" := Str(noteId), "reviewed" := Bool(false)]
  }

  /** Where a revision for `noteId` written on `datePart` lives. */
  function RevisionPath(noteId: string, datePart: string): string {
    FilePath(NoteFolderPath, GenerateNoteRevisionName(noteId, datePart))
  }

  /** `createNoteRevision(vault, noteId, originalContent, isNew)` on the day
      whose date part is `datePart`: creates the revision file holding
      `originalContent` without its frontmatter block; a new revision then gets
      `{id, reviewed: false}` and is returned, otherwise nothing is returned. A
      failed create returns at once. */
  function CreateNoteRevision(v: Vault, noteId: string, originalContent: string, isNew: bool,
                              datePart: string, hostOk: bool): (r: Created)
    ensures r.file.Some? <==> isNew && hostOk && !HasPath(v, RevisionPath(noteId, datePart))
    ensures !hostOk || HasPath(v, RevisionPath(noteId, datePart)) ==> r.vault == v
    ensures r.file.Some? ==> r.vault == v + [r.file.value]
    ensures UniquePaths(v) ==> UniquePaths(r.vault)
    ensures r.file.Some? ==> r.file.value.path == RevisionPath(noteId, datePart)
    ensures r.file.Some? ==> r.file.value.content == ReadContentWithoutFrontmatter(originalContent)
    ensures r.file.Some? ==> r.file.value.frontmatter == Some(RevisionMetadata(noteId))
    ensures !isNew && hostOk && !HasPath(v, RevisionPath(noteId, datePart)) ==>
      r.vault == v + [File(RevisionPath(noteId, datePart), ReadContentWithoutFrontmatter(originalContent), None, {}, 0)]
  {
    var name := GenerateNoteRevisionName(noteId, datePart);
    var body := ReadContentWithoutFrontmatter(originalContent);
    if isNew then CreateWithFrontmatter(v, NoteFolderPath, name, body, RevisionMetadata(noteId), hostOk)
    else Created(CreateNewFile(v, NoteFolderPath, name, body, hostOk).vault, None)
  }

  // ---------------------------------------------------------------------------
  // getLatestNoteRevision

  /** Kept by both filters of `getLatestNoteRevision`: under the base folder,
      and named with the note id as prefix. */
  predicate IsRevisionOf(f: File, noteId: string) {
    StartsWith(f.path, BaseFolderPath) && StartsWith(Name(f.path), noteId)
  }

  /** The files both filters of `getLatestNoteRevision` keep, in vault order. */
  function MatchingRevisions(v: Vault, noteId: string): (m: seq<File>)
    ensures forall i :: 0 <= i < |m| ==> m[i] in v && IsRevisionOf(m[i], noteId)
    ensures forall i :: 0 <= i < |v| && IsRevisionOf(v[i], noteId) ==> v[i] in m
    ensures IsSubsequence(m, v)
    decreases |v|
  {
    if |v| == 0 then []
    else if IsRevisionOf(v[0], noteId) then [v[0]] + MatchingRevisions(v[1..], noteId)
    else MatchingRevisions(v[1..], noteId)
  }

  /** The second `_`-segment of a file name (`name.split("_")[1]`). */
  function DateSegment(f: File): Option<string> {
    var parts := Split(Name(f.path), '_');
    if |parts| >= 2 then Some(parts[1]) else None
  }

  /** `currentDate > latestDate` in JavaScript: an undefined side is never greater
      nor smaller. */
  predicate Later(current: Option<string>, latest: Option<string>) {
    current.Some? && latest.Some? && LexLess(latest.value, current.value)
  }

  /** Position kept by `m.slice(0, n).reduce(...)`: the running choice is
      replaced only by a strictly later date segment. */
  function LatestIndex(m: seq<File>, n: nat): (i: nat)
    requires 1 <= n <= |m|
    ensures i < n
    decreases n
  {
    if n == 1 then 0
    else
      var prev := LatestIndex(m, n - 1);
      if Later(DateSegment(m[n - 1]), DateSegment(m[prev])) then n - 1 else prev
  }

  /** `getLatestNoteRevision(vault, noteId)`. */
  function GetLatestNoteRevision(v: Vault, noteId: string): (r: Option<File>)
    ensures r.None? <==> forall i :: 0 <= i < |v| ==> !IsRevisionOf(v[i], noteId)
    ensures r.Some? ==> r.value in v && IsRevisionOf(r.value, noteId)
  {
    var m := MatchingRevisions(v, noteId);
    if |m| == 0 then None else Some(m[LatestIndex(m, |m|)])
  }

  /** A note with a single revision file: that file is its latest. */
  lemma SoleRevisionIsLatest(v: Vault, noteId: string, g: File)
    requires g in v && IsRevisionOf(g, noteId)
    requires forall i :: 0 <= i < |v| && IsRevisionOf(v[i], noteId) ==> v[i] == g
    ensures GetLatestNoteRevision(v, noteId) == Some(g)
  {
    var r := GetLatestNoteRevision(v, noteId);
    assert r.Some?;
    var i :| 0 <= i < |v| && v[i] == r.value;
  }

  /** The first revision file of a note is its latest. */
  lemma AppendedSoleRevision(v: Vault, noteId: string, g: File)
    requires IsRevisionOf(g, noteId)
    requires forall i :: 0 <= i < |v| ==> !IsRevisionOf(v[i], noteId)
    ensures GetLatestNoteRevision(v + [g], noteId) == Some(g)
  {
    var r := v + [g];
    assert r[|v|] == g;
    assert forall i :: 0 <= i < |v| ==> r[i] == v[i];
    SoleRevisionIsLatest(r, noteId, g);
  }

  /** A strictly later segment than the running maximum is later than every
      segment the maximum was not below. */
  lemma NewMaximum(sj: string, sp: string, sn: string)
    requires !LexLess(sp, sj) && LexLess(sp, sn)
    ensures LexLess(sj, sn) && !LexLess(sn, sj)
  {
    LexLessTotal(sj, sp);
    if sj != sp { LexLessTransitive(sj, sp, sn); }
    LexLessAsymmetric(sj, sn);
  }

  /** The reduce of `getLatestNoteRevision` over the date segments alone. */
  function LatestSegmentIndex(ds: seq<Option<string>>, n: nat): (i: nat)
    requires 1 <= n <= |ds|
    ensures i < n
    decreases n
  {
    if n == 1 then 0
    else
      var prev := LatestSegmentIndex(ds, n - 1);
      if Later(ds[n - 1], ds[prev]) then n - 1 else prev
  }

  function Segments(m: seq<File>): (ds: seq<Option<string>>)
    ensures |ds| == |m| && forall j :: 0 <= j < |m| ==> ds[j] == DateSegment(m[j])
  {
    seq(|m|, j requires 0 <= j < |m| => DateSegment(m[j]))
  }

  /** The reduce only looks at the date segments. */
  lemma {:induction false} LatestIndexBySegments(m: seq<File>, n: nat)
    requires 1 <= n <= |m|
    ensures LatestIndex(m, n) == LatestSegmentIndex(Segments(m), n)
    decreases n
  {
    if n > 1 {
      LatestIndexBySegments(m, n - 1);
    }
  }

  /** When the first segment is defined, the reduce finds the first maximum
      among the defined segments: undefined ones are never later than the
      running choice, so they are passed over. */
  lemma {:induction false} LatestSegmentIsFirstMaximum(ds: seq<Option<string>>, n: nat)
    requires 1 <= n <= |ds| && ds[0].Some?
    ensures ds[LatestSegmentIndex(ds, n)].Some?
    ensures var i := LatestSegmentIndex(ds, n);
      forall j :: 0 <= j < n && ds[j].Some? ==> !LexLess(ds[i].value, ds[j].value)
    ensures var i := LatestSegmentIndex(ds, n);
      forall j :: 0 <= j < i && ds[j].Some? ==> LexLess(ds[j].value, ds[i].value)
    decreases n
  {
    if n == 1 {
      LexLessIrreflexive(ds[0].value);
    } else {
      LatestSegmentIsFirstMaximum(ds, n - 1);
      var p := LatestSegmentIndex(ds, n - 1);
      if Later(ds[n - 1], ds[p]) {
        var sp, sn := ds[p].value, ds[n - 1].value;
        forall j | 0 <= j < n - 1 && ds[j].Some?
          ensures LexLess(ds[j].value, sn) && !LexLess(sn, ds[j].value)
        {
          NewMaximum(ds[j].value, sp, sn);
        }
        LexLessIrreflexive(sn);
      }
    }
  }

  /** When the first candidate has a date segment, the reduce picks a dated
      one whose segment no other dated candidate exceeds, and the first such
      in list order. */
  lemma LatestIndexIsFirstMaximum(m: seq<File>, n: nat)
    requires 1 <= n <= |m| && DateSegment(m[0]).Some?
    ensures DateSegment(m[LatestIndex(m, n)]).Some?
    ensures var i := LatestIndex(m, n);
      forall j :: 0 <= j < n && DateSegment(m[j]).Some? ==>
        !LexLess(DateSegment(m[i]).value, DateSegment(m[j]).value)
    ensures var i := LatestIndex(m, n);
      forall j :: 0 <= j < i && DateSegment(m[j]).Some? ==>
        LexLess(DateSegment(m[j]).value, DateSegment(m[i]).value)
  {
    LatestIndexBySegments(m, n);
    LatestSegmentIsFirstMaximum(Segments(m), n);
  }

  /** `m[i]` is dated, its date segment is at least every other dated one in
      `m`, and strictly greater than every dated one before it. */
  predicate FirstMaximum(m: seq<File>, i: nat)
    requires i < |m|
  {
    && DateSegment(m[i]).Some?
    && (forall j :: 0 <= j < |m| && DateSegment(m[j]).Some? ==>
          !LexLess(DateSegment(m[i]).value, DateSegment(m[j]).value))
    && (forall j :: 0 <= j < i && DateSegment(m[j]).Some? ==>
          LexLess(DateSegment(m[j]).value, DateSegment(m[i]).value))
  }

  /** `f` sits at a first maximum of `m`. */
  predicate IsFirstMaximumOf(m: seq<File>, f: File) {
    exists i: nat :: i < |m| && m[i] == f && FirstMaximum(m, i)
  }

  /** The latest revision: when the first match has a date segment, the dated
      match whose segment is at least every other dated match's, the earliest
      in vault order among equal ones; matches without a segment are passed
      over. When the first match has none, it is never replaced. */
  lemma LatestRevisionIsMaximal(v: Vault, noteId: string)
    ensures var m := MatchingRevisions(v, noteId);
      |m| > 0 && DateSegment(m[0]).Some? ==>
        IsFirstMaximumOf(m, GetLatestNoteRevision(v, noteId).value)
    ensures var m := MatchingRevisions(v, noteId);
      |m| > 0 && DateSegment(m[0]).None? ==> GetLatestNoteRevision(v, noteId) == Some(m[0])
  {
    var m := MatchingRevisions(v, noteId);
    if |m| > 0 {
      if DateSegment(m[0]).Some? {
        LatestIndexIsFirstMaximum(m, |m|);
        var i := LatestIndex(m, |m|);
        assert FirstMaximum(m, i);
      } else {
        UndatedFirstWins(m, |m|);
      }
    }
  }

  /** A first candidate without a date segment is never replaced. */
  lemma {:induction false} UndatedFirstWins(m: seq<File>, n: nat)
    requires 1 <= n <= |m| && DateSegment(m[0]).None?
    ensures LatestIndex(m, n) == 0
    decreases n
  {
    if n > 1 {
      UndatedFirstWins(m, n - 1);
    }
  }

  /** For revision files written by the plugin, the string comparison of date
      segments is the comparison of the days they were written on. */
  lemma RevisionSegmentOrder(id: string, a: Date, b: Date)
    requires '_' !in id && '/' !in id && Valid(a) && Valid(b)
    ensures var fa := File(RevisionPath(id, FormatDatePart(a)), "", None, {}, 0);
      var fb := File(RevisionPath(id, FormatDatePart(b)), "", None, {}, 0);
      Later(DateSegment(fb), DateSegment(fa)) <==> Before(a, b)
  {
    SegmentOfRevisionName(id, a);
    SegmentOfRevisionName(id, b);
    LexLessAppend(FormatDatePart(a), ".md", FormatDatePart(b), ".md");
    LexLessIrreflexive(".md");
    FormatShape(a);
    FormatShape(b);
    FormatOrder(a, b);
  }

  lemma SegmentOfRevisionName(id: string, d: Date)
    requires '_' !in id && '/' !in id && Valid(d)
    ensures DateSegment(File(RevisionPath(id, FormatDatePart(d)), "", None, {}, 0)) == Some(FormatDatePart(d) + ".md")
  {
    var dp := FormatDatePart(d);
    FormatShape(d);
    var name := GenerateNoteRevisionName(id, dp);
    RevisionNameOfPath(id, dp);
    var tail := dp + ".md";
    assert name + ".md" == id + ['_'] + tail;
    SplitAppend(id, tail, '_');
    SplitNoSeparator(id, '_');
    assert '_' !in tail by {
      forall i | 0 <= i < |tail| ensures tail[i] != '_' {
        if i < |dp| { assert tail[i] == dp[i]; }
      }
    }
    SplitNoSeparator(tail, '_');
  }

  /** Without `/` in the id or the date part, the file name at the end of a
      revision's path is the revision file name. */
  lemma RevisionNameOfPath(noteId: string, datePart: string)
    requires '/' !in noteId && '/' !in datePart
    ensures Name(RevisionPath(noteId, datePart)) == GetNoteRevisionFileName(noteId, datePart)
  {
    var name := GenerateNoteRevisionName(noteId, datePart);
    assert '/' !in name by {
      forall i | 0 <= i < |name| ensures name[i] != '/' {
        if i < |noteId| { assert name[i] == noteId[i]; }
        else if i > |noteId| { assert name[i] == datePart[i - |noteId| - 1]; }
      }
    }
    FilePathName(NoteFolderPath, name);
  }

  /** Today's revision of a note is one of that note's revisions. */
  lemma RevisionPathIsRevisionOf(noteId: string, datePart: string)
    requires '/' !in noteId && '/' !in datePart
    ensures forall f: File :: f.path == RevisionPath(noteId, datePart) ==> IsRevisionOf(f, noteId)
  {
    var name := GenerateNoteRevisionName(noteId, datePart);
    var p := RevisionPath(noteId, datePart);
    RevisionNameOfPath(noteId, datePart);
    assert p[..|BaseFolderPath|] == BaseFolderPath;
    assert (name + ".md")[..|noteId|] == noteId;
  }

  // ---------------------------------------------------------------------------
  // the lookup reads paths only

  /** Two vaults listing files at the same paths, in the same order. */
  predicate SamePaths(v: seq<File>, w: seq<File>) {
    |v| == |w| && forall i :: 0 <= i < |v| ==> v[i].path == w[i].path
  }

  lemma {:induction false} MatchingSamePaths(v: Vault, w: Vault, noteId: string)
    requires SamePaths(v, w)
    ensures SamePaths(MatchingRevisions(v, noteId), MatchingRevisions(w, noteId))
    decreases |v|
  {
    if |v| > 0 {
      assert SamePaths(v[1..], w[1..]) by {
        forall i | 0 <= i < |v[1..]| ensures v[1..][i].path == w[1..][i].path {
          assert v[1..][i] == v[i + 1] && w[1..][i] == w[i + 1];
        }
      }
      MatchingSamePaths(v[1..], w[1..], noteId);
    }
  }

  lemma {:induction false} LatestIndexSamePaths(m: seq<File>, k: seq<File>, n: nat)
    requires SamePaths(m, k) && 1 <= n <= |m|
    ensures LatestIndex(m, n) == LatestIndex(k, n)
    decreases n
  {
    if n > 1 {
      LatestIndexSamePaths(m, k, n - 1);
    }
  }

  /** `getLatestNoteRevision` looks at paths only: frontmatter, content,
      backlinks and times of the files never change which one it picks. */
  lemma LatestSamePaths(v: Vault, w: Vault, noteId: string)
    requires SamePaths(v, w)
    ensures GetLatestNoteRevision(v, noteId).None? <==> GetLatestNoteRevision(w, noteId).None?
    ensures GetLatestNoteRevision(v, noteId).Some? ==>
      GetLatestNoteRevision(v, noteId).value.path == GetLatestNoteRevision(w, noteId).value.path
  {
    var m, k := MatchingRevisions(v, noteId), MatchingRevisions(w, noteId);
    MatchingSamePaths(v, w, noteId);
    if |m| > 0 {
      LatestIndexSamePaths(m, k, |m|);
    }
  }
}
