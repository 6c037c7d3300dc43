/**
  Parsing of `hg log --template` output describing the files a revision touched,
  and the argument list for `hg cat`.

  Running `hg` is not modelled; `path.join` is an uninterpreted function passed in.
*/
module HgRevisionState {
  import opened Results
  import opened JsStrings
  import JsCollections

  const AllFilesLabel: string := "files:"
  const FileAddsLabel: string := "file-adds:"
  const FileDeletesLabel: string := "file-dels:"
  const FileCopiesLabel: string := "file-copies:"
  const FileModsLabel: string := "file-mods:"

  /** The `--template` argument: one labelled line per field. */
  const RevisionFileChangesTemplate: string :=
    (AllFilesLabel + " {files}") + "\n" + (FileAddsLabel + " {file_adds}") + "\n" + (FileDeletesLabel + " {file_dels}")
    + "\n" + (FileCopiesLabel + " {file_copies}") + "\n" + (FileModsLabel + " {file_mods}")

  /** A copied file: `to` was created as a copy of `from`. */
  datatype FileCopy = FileCopy(from: string, to: string)

  datatype RevisionFileChanges = RevisionFileChanges(
    all: seq<string>,
    added: seq<string>,
    deleted: seq<string>,
    copied: seq<FileCopy>,
    modified: seq<string>)

  /**
    Why parsing throws: a line that is missing (reading `.slice` of `undefined`),
    or a copy entry the pair regular expression does not match (the `assert`).
  */
  datatype ParseError = MissingLine(index: nat) | CopyPairMismatch(piece: string)

  /** `path.join(a, b)`, left uninterpreted. */
  type PathJoin = (string, string) -> string

  /** `absolutize(filePath, workingDirectory)` is `path.join(workingDirectory, filePath)`. */
  function Absolutize(filePath: string, workingDirectory: string, join: PathJoin): (r: string)
    ensures r == join(workingDirectory, filePath)
  {
    join(workingDirectory, filePath)
  }

  /** `absolutizeAll`: absolutizes every path, one to one and in order. */
  function AbsolutizeAll(filePaths: seq<string>, workingDirectory: string, join: PathJoin): (r: seq<string>)
    ensures |r| == |filePaths|
    ensures forall i :: 0 <= i < |r| ==> r[i] == join(workingDirectory, filePaths[i])
  {
    seq(|filePaths|, i requires 0 <= i < |filePaths| => Absolutize(filePaths[i], workingDirectory, join))
  }

  /**
    The arguments of `fetchFileContentAtRevision`: `['cat', filePath]`, with
    `'--rev', revision` spliced in after `'cat'` when the revision is truthy.
  */
  function CatArgs(filePath: string, revision: Option<string>): (args: seq<string>)
    ensures !Truthy(revision) ==> args == ["cat", filePath]
    ensures Truthy(revision) ==> args == ["cat", "--rev", revision.value, filePath]
  {
    var args := ["cat", filePath];
    if Truthy(revision) then JsCollections.Insert(args, 1, ["--rev", revision.value]) else args
  }

  /**
    The arguments of `fetchFilesChangedAtRevision`: `hg log` for one revision,
    with a template printing five lines, each starting with the label (and a
    space) that the parser expects on that line.
  */
  function LogArgs(revision: string): (r: seq<string>)
    ensures |r| == 5 && r[0] == "log" && r[1] == "--template" && r[3] == "--rev" && r[4] == revision
    ensures var lines := Split(r[2], '\n');
            && |lines| == 5
            && AllFilesLabel + " " <= lines[0]
            && FileAddsLabel + " " <= lines[1]
            && FileDeletesLabel + " " <= lines[2]
            && FileCopiesLabel + " " <= lines[3]
            && FileModsLabel + " " <= lines[4]
  {
    TemplateLines();
    ["log", "--template", RevisionFileChangesTemplate, "--rev", revision]
  }

  /** The template's lines, one per field, in the order the parser reads them. */
  lemma TemplateLines()
    ensures Split(RevisionFileChangesTemplate, '\n')
              == [AllFilesLabel + " {files}", FileAddsLabel + " {file_adds}", FileDeletesLabel + " {file_dels}",
                  FileCopiesLabel + " {file_copies}", FileModsLabel + " {file_mods}"]
  {
    var lines := [AllFilesLabel + " {files}", FileAddsLabel + " {file_adds}", FileDeletesLabel + " {file_dels}",
                  FileCopiesLabel + " {file_copies}", FileModsLabel + " {file_mods}"];
    Join5(lines[0], lines[1], lines[2], lines[3], lines[4], "\n");
    assert forall i :: 0 <= i < 5 ==> '\n' !in lines[i];
    SplitJoin(lines, '\n');
  }

  /**
    The text of a labelled line: drop the label and one more character, then
    trim. The result is a piece of the line past the label that neither starts
    nor ends with whitespace; a line no longer than the label and one character
    gives "".
  */
  function FieldText(line: string, fieldLabel: string): (r: string)
    ensures |line| <= |fieldLabel| + 1 ==> r == ""
    ensures |r| == 0 || (!IsJsWhitespace(r[0]) && !IsJsWhitespace(r[|r| - 1]))
    ensures |line| > |fieldLabel| + 1 ==> exists k :: |fieldLabel| + 1 <= k <= |line| && r <= line[k..]
  {
    var rest := JsCollections.SliceFrom(line, |fieldLabel| + 1);
    if |line| > |fieldLabel| + 1 then
      TrimmedSuffixInLine(line, |fieldLabel| + 1);
      Trim(rest)
    else
      Trim(rest)
  }

  /** Trimming what follows position `start` of a line keeps a piece of the line at or after `start`. */
  lemma TrimmedSuffixInLine(line: string, start: nat)
    requires start < |line|
    ensures exists k :: start <= k <= |line| && Trim(JsCollections.SliceFrom(line, start)) <= line[k..]
  {
    var rest := JsCollections.SliceFrom(line, start);
    TrimCutsOnlyWhitespace(rest);
    var a := LeadingWhitespace(rest);
    assert rest == line[start..];
    assert rest[a..] == line[start + a..];
    assert Trim(rest) <= line[start + a..];
  }

  /**
    The field text is exactly the trimmed middle of what follows the label and
    its one separator character: it starts at the first non-whitespace
    character there, and everything around it is whitespace.
  */
  lemma FieldTextCutsOnlyWhitespace(line: string, fieldLabel: string)
    ensures var s := JsCollections.SliceFrom(line, |fieldLabel| + 1);
            var a, r := LeadingWhitespace(s), FieldText(line, fieldLabel);
            && a + |r| <= |s| && r == s[a..a + |r|]
            && (a < |s| ==> !IsJsWhitespace(s[a]))
            && forall i :: 0 <= i < |s| && (i < a || a + |r| <= i) ==> IsJsWhitespace(s[i])
  {
    FieldTextIsTrimmedRest(line, fieldLabel);
    TrimCutsOnlyWhitespace(JsCollections.SliceFrom(line, |fieldLabel| + 1));
  }

  /** The field text is the trimmed rest of the line past the label and its separator. */
  lemma FieldTextIsTrimmedRest(line: string, fieldLabel: string)
    ensures FieldText(line, fieldLabel) == Trim(JsCollections.SliceFrom(line, |fieldLabel| + 1))
  {
  }

  /**
    A space-separated file list: empty text gives no files, otherwise the text
    is split on single spaces, so joining the pieces gives the text back.
  */
  function FieldFiles(line: string, fieldLabel: string): (r: seq<string>)
    ensures |FieldText(line, fieldLabel)| == 0 <==> r == []
    ensures Join(r, " ") == FieldText(line, fieldLabel)
    ensures forall i :: 0 <= i < |r| ==> ' ' !in r[i]
  {
    var text := FieldText(line, fieldLabel);
    if |text| == 0 then [] else Split(text, ' ')
  }

  /** `run[j..j + 2]` is " (". */
  predicate SeparatorAt(run: string, j: int) {
    0 <= j && j + 1 < |run| && run[j] == ' ' && run[j + 1] == '('
  }

  /** The last " (" at an index between 1 and `k`, searching down from `k`. */
  function LastSeparator(run: string, k: int): (r: Option<nat>)
    requires k <= |run| - 3
    ensures r.Some? ==> 1 <= r.value <= k && SeparatorAt(run, r.value)
    ensures r.Some? ==> forall j :: r.value < j <= k ==> !SeparatorAt(run, j)
    ensures r.None? ==> forall j :: 1 <= j <= k ==> !SeparatorAt(run, j)
    decreases k
  {
    if k < 1 then None
    else if SeparatorAt(run, k) then Some(k)
    else LastSeparator(run, k - 1)
  }

  /**
    `(.+) \((.+)` matched from the start of a run with no line terminator: the
    greedy first group ends at the last " (" that leaves at least one character
    for the second group, which takes the rest of the run.
  */
  function MatchRun(run: string): (r: Option<(string, string)>)
    ensures r.Some? ==> |r.value.0| > 0 && |r.value.1| > 0 && run == r.value.0 + " (" + r.value.1
    ensures r.Some? ==> forall j :: |r.value.0| < j <= |run| - 3 ==> !SeparatorAt(run, j)
    ensures r.None? <==> forall j :: 1 <= j <= |run| - 3 ==> !SeparatorAt(run, j)
  {
    match LastSeparator(run, |run| - 3)
    case None => None
    case Some(k) =>
      assert run == run[..k] + " (" + run[k + 2..];
      Some((run[..k], run[k + 2..]))
  }

  /** The length of the longest prefix without a line terminator. */
  function RunLength(s: string): (n: nat)
    ensures n <= |s|
    ensures forall i :: 0 <= i < n ==> !IsLineTerminator(s[i])
    ensures n < |s| ==> IsLineTerminator(s[n])
  {
    if |s| == 0 || IsLineTerminator(s[0]) then 0 else 1 + RunLength(s[1..])
  }

  /**
    `piece.match(/(.+) \((.+)/)`: `.` matches no line terminator, so the leftmost
    match lies in the first terminator-free run that admits one, and starts at
    that run's beginning. The groups are (to, from).
  */
  function MatchCopyPair(piece: string): (r: Option<(string, string)>)
    ensures r.Some? ==> |r.value.0| > 0 && |r.value.1| > 0
    ensures r.Some? ==> forall i :: 0 <= i < |r.value.0| ==> !IsLineTerminator(r.value.0[i])
    ensures r.Some? ==> forall i :: 0 <= i < |r.value.1| ==> !IsLineTerminator(r.value.1[i])
    decreases |piece|
  {
    var n := RunLength(piece);
    var run := piece[..n];
    match MatchRun(run)
    case Some(groups) =>
      assert forall i :: 0 <= i < |groups.0| ==> groups.0[i] == run[i];
      assert forall i :: 0 <= i < |groups.1| ==> groups.1[i] == run[|groups.0| + 2 + i];
      Some(groups)
    case None => if n == |piece| then None else MatchCopyPair(piece[n + 1..])
  }

  /** On a piece without line terminators the match is the single-run match. */
  lemma MatchCopyPairOfRun(piece: string)
    requires forall i :: 0 <= i < |piece| ==> !IsLineTerminator(piece[i])
    ensures MatchCopyPair(piece) == MatchRun(piece)
  {
    assert piece[..RunLength(piece)] == piece;
  }

  /** A match's text, `group1 (group2`, occurs in the piece. */
  lemma {:induction false} MatchCopyPairOccurs(piece: string)
    requires MatchCopyPair(piece).Some?
    ensures var g := MatchCopyPair(piece).value;
            exists k :: 0 <= k <= |piece| && g.0 + " (" + g.1 <= piece[k..]
    decreases |piece|
  {
    var n := RunLength(piece);
    var g := MatchCopyPair(piece).value;
    if MatchRun(piece[..n]).Some? {
      assert g.0 + " (" + g.1 <= piece[0..];
    } else {
      var rest := piece[n + 1..];
      MatchCopyPairOccurs(rest);
      var k :| 0 <= k <= |rest| && g.0 + " (" + g.1 <= rest[k..];
      assert rest[k..] == piece[n + 1 + k..];
    }
  }

  /** Each copy piece becomes `{from: group 2, to: group 1}`, absolutized; the first piece that does not match throws. */
  function ParseCopies(pieces: seq<string>, workingDirectory: string, join: PathJoin): (r: Result<seq<FileCopy>, ParseError>)
    ensures r.Ok? <==> forall i :: 0 <= i < |pieces| ==> MatchCopyPair(pieces[i]).Some?
    ensures r.Ok? ==> |r.value| == |pieces|
    ensures r.Ok? ==> forall i :: 0 <= i < |pieces| ==>
              r.value[i] == FileCopy(Absolutize(MatchCopyPair(pieces[i]).value.1, workingDirectory, join),
                                     Absolutize(MatchCopyPair(pieces[i]).value.0, workingDirectory, join))
    ensures r.Err? ==> r.error.CopyPairMismatch? && r.error.piece in pieces && MatchCopyPair(r.error.piece).None?
  {
    if |pieces| == 0 then Ok([])
    else
      match MatchCopyPair(pieces[0])
      case None => Err(CopyPairMismatch(pieces[0]))
      case Some(groups) =>
        var copy := FileCopy(Absolutize(groups.1, workingDirectory, join), Absolutize(groups.0, workingDirectory, join));
        match ParseCopies(pieces[1..], workingDirectory, join)
        case Err(e) => Err(e)
        case Ok(rest) =>
          assert forall i :: 1 <= i < |pieces| ==> pieces[i] == pieces[1..][i - 1];
          Ok([copy] + rest)
  }

  /**
    The copy entries of the copies line: the text is split on ')' and the last
    piece, expected to be the empty one after the final ')', is dropped.
  */
  function CopyPieces(line: string): (r: seq<string>)
    ensures var text := FieldText(line, FileCopiesLabel);
            |text| == 0 ==> r == []
    ensures var text := FieldText(line, FileCopiesLabel);
            |text| > 0 ==> exists last :: ')' !in last && Join(r + [last], ")") == text
    ensures forall i :: 0 <= i < |r| ==> ')' !in r[i]
  {
    var text := FieldText(line, FileCopiesLabel);
    var pieces := if |text| == 0 then [] else Split(text, ')');
    var r := JsCollections.DropLast(pieces);
    assert |text| > 0 ==> pieces == r + [pieces[|pieces| - 1]];
    r
  }

  /**
    `parseRevisionFileChangeOutput`: the trimmed output is split into lines and
    lines 0 to 4 give the all, added, deleted, copied and modified fields, in
    that order of evaluation.
  */
  function ParseRevisionFileChangeOutput(output: string, workingDirectory: string, join: PathJoin)
    : (r: Result<RevisionFileChanges, ParseError>)
    ensures var lines := Split(Trim(output), '\n');
            r.Ok? ==> && |lines| >= 5
                      && |r.value.all| == |FieldFiles(lines[0], AllFilesLabel)|
                      && |r.value.added| == |FieldFiles(lines[1], FileAddsLabel)|
                      && |r.value.deleted| == |FieldFiles(lines[2], FileDeletesLabel)|
                      && |r.value.copied| == |CopyPieces(lines[3])|
                      && |r.value.modified| == |FieldFiles(lines[4], FileModsLabel)|
    ensures var lines := Split(Trim(output), '\n');
            r.Err? && r.error.MissingLine? ==> r.error.index == |lines| < 5
    ensures var lines := Split(Trim(output), '\n');
            |lines| >= 5 ==> (r.Ok? <==> ParseCopies(CopyPieces(lines[3]), workingDirectory, join).Ok?)
    ensures var lines := Split(Trim(output), '\n');
            |lines| < 4 ==> r == Err(MissingLine(|lines|))
    ensures var lines := Split(Trim(output), '\n');
            |lines| >= 4 && ParseCopies(CopyPieces(lines[3]), workingDirectory, join).Err? ==>
              r == Err(ParseCopies(CopyPieces(lines[3]), workingDirectory, join).error)
    ensures var lines := Split(Trim(output), '\n');
            r.Ok? ==> r.value == RevisionFileChanges(
                          AbsolutizeAll(FieldFiles(lines[0], AllFilesLabel), workingDirectory, join),
                          AbsolutizeAll(FieldFiles(lines[1], FileAddsLabel), workingDirectory, join),
                          AbsolutizeAll(FieldFiles(lines[2], FileDeletesLabel), workingDirectory, join),
                          ParseCopies(CopyPieces(lines[3]), workingDirectory, join).value,
                          AbsolutizeAll(FieldFiles(lines[4], FileModsLabel), workingDirectory, join))
  {
    var lines := Split(Trim(output), '\n');
    if |lines| < 4 then Err(MissingLine(|lines|))
    else
      var copied := ParseCopies(CopyPieces(lines[3]), workingDirectory, join);
      if copied.Err? then Err(copied.error)
      else if |lines| < 5 then Err(MissingLine(|lines|))
      else
        Ok(RevisionFileChanges(
          AbsolutizeAll(FieldFiles(lines[0], AllFilesLabel), workingDirectory, join),
          AbsolutizeAll(FieldFiles(lines[1], FileAddsLabel), workingDirectory, join),
          AbsolutizeAll(FieldFiles(lines[2], FileDeletesLabel), workingDirectory, join),
          copied.value,
          AbsolutizeAll(FieldFiles(lines[4], FileModsLabel), workingDirectory, join)))
  }

  /**
    `fetchFilesChangedAtRevision` after `hg` has run: a falsy output (`null` on
    failure, or "") is passed through unparsed, shown here as `None`.
  */
  function FilesChangedFromOutput(output: Option<string>, workingDirectory: string, join: PathJoin)
    : (r: Option<Result<RevisionFileChanges, ParseError>>)
    ensures r.None? <==> !Truthy(output)
    ensures Truthy(output) ==> r == Some(ParseRevisionFileChangeOutput(output.value, workingDirectory, join))
  {
    if Truthy(output) then Some(ParseRevisionFileChangeOutput(output.value, workingDirectory, join)) else None
  }

  // Round trip: what the template prints for plain file names parses back.

  /** A file name the template prints unambiguously: non-empty, no whitespace, no ')'. */
  predicate PlainName(n: string) {
    |n| > 0 && NoWhitespace(n) && ')' !in n
  }

  predicate PlainNames(ns: seq<string>) {
    forall i :: 0 <= i < |ns| ==> PlainName(ns[i])
  }

  predicate PlainChanges(c: RevisionFileChanges) {
    && PlainNames(c.all) && PlainNames(c.added) && PlainNames(c.deleted) && PlainNames(c.modified)
    && forall i :: 0 <= i < |c.copied| ==> PlainName(c.copied[i].from) && PlainName(c.copied[i].to)
  }

  /** How the template prints one copy: `to (from)`. */
  function CopyEntry(c: FileCopy): string {
    c.to + " (" + c.from + ")"
  }

  /** `{file_copies}`: the entries back to back, with no separator. */
  function RenderCopies(cs: seq<FileCopy>): string {
    if |cs| == 0 then "" else CopyEntry(cs[0]) + RenderCopies(cs[1..])
  }

  /** What `hg log --template` prints for changes with the given (relative) names. */
  function Render(c: RevisionFileChanges): string {
    Join([AllFilesLabel + " " + Join(c.all, " "),
          FileAddsLabel + " " + Join(c.added, " "),
          FileDeletesLabel + " " + Join(c.deleted, " "),
          FileCopiesLabel + " " + RenderCopies(c.copied),
          FileModsLabel + " " + Join(c.modified, " ")], "\n")
  }

  function AbsolutizeCopies(cs: seq<FileCopy>, workingDirectory: string, join: PathJoin): (r: seq<FileCopy>)
    ensures |r| == |cs|
  {
    seq(|cs|, i requires 0 <= i < |cs| =>
      FileCopy(Absolutize(cs[i].from, workingDirectory, join), Absolutize(cs[i].to, workingDirectory, join)))
  }

  function AbsolutizeChanges(c: RevisionFileChanges, workingDirectory: string, join: PathJoin): RevisionFileChanges {
    RevisionFileChanges(
      AbsolutizeAll(c.all, workingDirectory, join),
      AbsolutizeAll(c.added, workingDirectory, join),
      AbsolutizeAll(c.deleted, workingDirectory, join),
      AbsolutizeCopies(c.copied, workingDirectory, join),
      AbsolutizeAll(c.modified, workingDirectory, join))
  }

  lemma Join5(a: string, b: string, c: string, d: string, e: string, sep: string)
    ensures Join([a, b, c, d, e], sep) == a + sep + b + sep + c + sep + d + sep + e
  {
    assert [a, b, c, d, e][1..] == [b, c, d, e];
    assert [b, c, d, e][1..] == [c, d, e];
    assert [c, d, e][1..] == [d, e];
    assert [d, e][1..] == [e];
    assert Join([d, e], sep) == d + sep + e;
    assert Join([c, d, e], sep) == c + sep + (d + sep + e);
    assert Join([b, c, d, e], sep) == b + sep + (c + sep + (d + sep + e));
  }

  /** The printed list of plain names holds no newline. */
  lemma PlainJoinNoNewline(ns: seq<string>)
    requires PlainNames(ns)
    ensures '\n' !in Join(ns, " ")
  {
    forall i | 0 <= i < |ns| ensures '\n' !in ns[i] {
      assert PlainName(ns[i]);
    }
    if '\n' in Join(ns, " ") {
      JoinChars(ns, " ", '\n');
    }
  }

  /** The printed list of plain names is empty only for no names, is already trimmed, and splits back into the names. */
  lemma PlainJoin(ns: seq<string>)
    requires PlainNames(ns)
    ensures var j := Join(ns, " ");
            && (|j| == 0 <==> ns == [])
            && Trim(j) == j
            && (ns != [] ==> Split(j, ' ') == ns)
  {
    var j := Join(ns, " ");
    if ns != [] {
      assert ns[0] <= j && j[0] == ns[0][0];
      JoinLastChar(ns, " ");
      assert PlainName(ns[0]) && PlainName(ns[|ns| - 1]);
      TrimOfTrimmed(j);
      forall i | 0 <= i < |ns| ensures ' ' !in ns[i] {
        assert PlainName(ns[i]);
      }
      SplitJoin(ns, ' ');
    }
  }

  /** A printed file-list line parses back into its names. */
  lemma PlainFieldLine(fieldLabel: string, ns: seq<string>)
    requires PlainNames(ns)
    ensures FieldFiles(fieldLabel + " " + Join(ns, " "), fieldLabel) == ns
  {
    var line := fieldLabel + " " + Join(ns, " ");
    assert JsCollections.SliceFrom(line, |fieldLabel| + 1) == Join(ns, " ");
    PlainJoin(ns);
  }

  /** The copy entries the template prints are the pieces between the ')' characters. */
  lemma {:induction false} RenderCopiesSplit(cs: seq<FileCopy>)
    requires |cs| > 0
    ensures RenderCopies(cs) == Join(CopyPiecesOf(cs) + [""], ")")
    decreases |cs|
  {
    var p := CopyPiecesOf(cs);
    if |cs| == 1 {
      assert p + [""] == [p[0], ""];
      assert [p[0], ""][1..] == [""];
    } else {
      RenderCopiesSplit(cs[1..]);
      assert CopyPiecesOf(cs[1..]) == p[1..];
      assert (p + [""])[1..] == p[1..] + [""];
    }
  }

  /** The copy pieces as the parser sees them after splitting on ')': `to (from`. */
  function CopyPiecesOf(cs: seq<FileCopy>): (r: seq<string>)
    ensures |r| == |cs|
  {
    seq(|cs|, i requires 0 <= i < |cs| => cs[i].to + " (" + cs[i].from)
  }

  /** The pair expression splits a printed copy piece back into its two names. */
  lemma MatchPlainPiece(c: FileCopy)
    requires PlainName(c.from) && PlainName(c.to)
    ensures MatchCopyPair(c.to + " (" + c.from) == Some((c.to, c.from))
  {
    var piece := c.to + " (" + c.from;
    assert forall i :: 0 <= i < |piece| ==> !IsLineTerminator(piece[i]) by {
      forall i | 0 <= i < |piece| ensures !IsLineTerminator(piece[i]) {
        if i < |c.to| {
          assert piece[i] == c.to[i];
        } else if i >= |c.to| + 2 {
          assert piece[i] == c.from[i - |c.to| - 2];
        }
      }
    }
    assert piece[..|piece|] == piece;
    assert SeparatorAt(piece, |c.to|);
    forall j | |c.to| < j <= |piece| - 3 ensures !SeparatorAt(piece, j) {
      if j > |c.to| + 1 {
        assert piece[j] == c.from[j - |c.to| - 2];
        assert !IsJsWhitespace(c.from[j - |c.to| - 2]);
      }
    }
    var m := MatchRun(piece);
    assert m.Some?;
    assert |m.value.0| == |c.to|;
    assert m.value.0 == piece[..|c.to|] == c.to;
  }

  /** A printed piece `to (from` holds neither ')' nor a newline. */
  lemma NoCharInPiece(c: FileCopy, ch: char)
    requires PlainName(c.from) && PlainName(c.to)
    requires ch == ')' || ch == '\n'
    ensures ch !in c.to + " (" + c.from
  {
    var piece := c.to + " (" + c.from;
    forall k | 0 <= k < |piece| ensures piece[k] != ch {
      if k < |c.to| {
        assert piece[k] == c.to[k];
      } else if k >= |c.to| + 2 {
        assert piece[k] == c.from[k - |c.to| - 2];
      }
    }
  }

  /** No printed piece holds ')' or a newline. */
  lemma PiecesFree(cs: seq<FileCopy>, ch: char)
    requires forall i :: 0 <= i < |cs| ==> PlainName(cs[i].from) && PlainName(cs[i].to)
    requires ch == ')' || ch == '\n'
    ensures forall i :: 0 <= i < |CopyPiecesOf(cs) + [""]| ==> ch !in (CopyPiecesOf(cs) + [""])[i]
  {
    var pieces := CopyPiecesOf(cs) + [""];
    forall i | 0 <= i < |pieces| ensures ch !in pieces[i] {
      if i < |cs| {
        NoCharInPiece(cs[i], ch);
      }
    }
  }

  /** The printed copies text holds no newline. */
  lemma CopiesTextNoNewline(cs: seq<FileCopy>)
    requires forall i :: 0 <= i < |cs| ==> PlainName(cs[i].from) && PlainName(cs[i].to)
    ensures '\n' !in RenderCopies(cs)
  {
    if |cs| > 0 {
      RenderCopiesSplit(cs);
      PiecesFree(cs, '\n');
      if '\n' in RenderCopies(cs) {
        JoinChars(CopyPiecesOf(cs) + [""], ")", '\n');
      }
    }
  }

  /** The printed copies text starts with a name and ends with ')', so trimming keeps it. */
  lemma CopiesTextTrimmed(cs: seq<FileCopy>)
    requires |cs| > 0 && PlainName(cs[0].to)
    ensures Trim(RenderCopies(cs)) == RenderCopies(cs)
  {
    var text := RenderCopies(cs);
    FirstCharOfCopies(cs);
    RenderCopiesLastChar(cs);
    TrimOfTrimmed(text);
  }

  lemma FirstCharOfCopies(cs: seq<FileCopy>)
    requires |cs| > 0
    requires PlainName(cs[0].to)
    ensures |RenderCopies(cs)| > 0 && !IsJsWhitespace(RenderCopies(cs)[0])
  {
    assert RenderCopies(cs)[0] == cs[0].to[0];
  }

  /** The printed copies text ends with ')'. */
  lemma {:induction false} RenderCopiesLastChar(cs: seq<FileCopy>)
    requires |cs| > 0
    ensures var text := RenderCopies(cs); |text| > 0 && text[|text| - 1] == ')'
    decreases |cs|
  {
    if |cs| > 1 {
      RenderCopiesLastChar(cs[1..]);
    }
  }

  /** The printed copies text splits on ')' into the pieces and a final empty one. */
  lemma CopiesTextSplit(cs: seq<FileCopy>)
    requires |cs| > 0
    requires forall i :: 0 <= i < |cs| ==> PlainName(cs[i].from) && PlainName(cs[i].to)
    ensures Split(RenderCopies(cs), ')') == CopyPiecesOf(cs) + [""]
  {
    RenderCopiesSplit(cs);
    PiecesFree(cs, ')');
    SplitJoin(CopyPiecesOf(cs) + [""], ')');
  }

  /** Matching each printed piece gives back the absolutized copies. */
  lemma ParsePlainPieces(cs: seq<FileCopy>, workingDirectory: string, join: PathJoin)
    requires forall i :: 0 <= i < |cs| ==> PlainName(cs[i].from) && PlainName(cs[i].to)
    ensures ParseCopies(CopyPiecesOf(cs), workingDirectory, join) == Ok(AbsolutizeCopies(cs, workingDirectory, join))
  {
    var p := CopyPiecesOf(cs);
    forall i | 0 <= i < |cs| ensures MatchCopyPair(p[i]) == Some((cs[i].to, cs[i].from)) {
      MatchPlainPiece(cs[i]);
    }
    var r := ParseCopies(p, workingDirectory, join);
    assert r.Ok?;
    assert r.value == AbsolutizeCopies(cs, workingDirectory, join);
  }

  /** The printed copies line parses back into the absolutized copies. */
  lemma PlainCopiesLine(cs: seq<FileCopy>, workingDirectory: string, join: PathJoin)
    requires forall i :: 0 <= i < |cs| ==> PlainName(cs[i].from) && PlainName(cs[i].to)
    ensures '\n' !in RenderCopies(cs)
    ensures ParseCopies(CopyPieces(FileCopiesLabel + " " + RenderCopies(cs)), workingDirectory, join)
              == Ok(AbsolutizeCopies(cs, workingDirectory, join))
  {
    var text := RenderCopies(cs);
    var line := FileCopiesLabel + " " + text;
    assert JsCollections.SliceFrom(line, |FileCopiesLabel| + 1) == text;
    ParsePlainPieces(cs, workingDirectory, join);
    CopiesTextNoNewline(cs);
    if |cs| > 0 {
      CopiesTextTrimmed(cs);
      CopiesTextSplit(cs);
      assert CopyPieces(line) == CopyPiecesOf(cs);
    }
  }

  /** Joining non-empty pieces followed by an empty one ends with the separator. */
  lemma {:induction false} JoinLastCharSep(xs: seq<string>, sep: string)
    requires |xs| > 0 && |sep| > 0
    ensures var j := Join(xs + [""], sep); |j| > 0 && j[|j| - 1] == sep[|sep| - 1]
    decreases |xs|
  {
    if |xs| > 1 {
      assert (xs + [""])[1..] == xs[1..] + [""];
      JoinLastCharSep(xs[1..], sep);
    } else {
      assert xs + [""] == [xs[0], ""];
      assert [xs[0], ""][1..] == [""];
    }
  }

  /** The lines of the rendered output; an empty last list leaves only its label. */
  function RenderedLines(c: RevisionFileChanges): seq<string> {
    [AllFilesLabel + " " + Join(c.all, " "),
     FileAddsLabel + " " + Join(c.added, " "),
     FileDeletesLabel + " " + Join(c.deleted, " "),
     FileCopiesLabel + " " + RenderCopies(c.copied),
     if c.modified == [] then FileModsLabel else FileModsLabel + " " + Join(c.modified, " ")]
  }

  /** No rendered line holds a newline. */
  lemma RenderedLinesNoNewline(c: RevisionFileChanges)
    requires PlainChanges(c)
    ensures forall i :: 0 <= i < |RenderedLines(c)| ==> '\n' !in RenderedLines(c)[i]
  {
    PlainJoinNoNewline(c.all);
    PlainJoinNoNewline(c.added);
    PlainJoinNoNewline(c.deleted);
    PlainJoinNoNewline(c.modified);
    CopiesTextNoNewline(c.copied);
  }

  /** Trimming and splitting the rendered output gives its five lines. */
  lemma SplitRender(c: RevisionFileChanges)
    requires PlainChanges(c)
    ensures Split(Trim(Render(c)), '\n') == RenderedLines(c)
  {
    TrimmedRender(c);
    RenderedLinesNoNewline(c);
    SplitJoin(RenderedLines(c), '\n');
  }

  /** Output whose five trimmed lines hold the fields of `c` parses into `c`, absolutized. */
  lemma ParseFields(output: string, c: RevisionFileChanges, workingDirectory: string, join: PathJoin)
    requires var lines := Split(Trim(output), '\n');
             && |lines| == 5
             && FieldFiles(lines[0], AllFilesLabel) == c.all
             && FieldFiles(lines[1], FileAddsLabel) == c.added
             && FieldFiles(lines[2], FileDeletesLabel) == c.deleted
             && ParseCopies(CopyPieces(lines[3]), workingDirectory, join)
                  == Ok(AbsolutizeCopies(c.copied, workingDirectory, join))
             && FieldFiles(lines[4], FileModsLabel) == c.modified
    ensures ParseRevisionFileChangeOutput(output, workingDirectory, join)
              == Ok(AbsolutizeChanges(c, workingDirectory, join))
  {
  }

  /** The first rendered line parses back into all the files. */
  lemma AllLineFields(c: RevisionFileChanges)
    requires PlainNames(c.all)
    ensures FieldFiles(RenderedLines(c)[0], AllFilesLabel) == c.all
  {
    PlainFieldLine(AllFilesLabel, c.all);
  }

  /** The second rendered line parses back into the added files. */
  lemma AddsLineFields(c: RevisionFileChanges)
    requires PlainNames(c.added)
    ensures FieldFiles(RenderedLines(c)[1], FileAddsLabel) == c.added
  {
    PlainFieldLine(FileAddsLabel, c.added);
  }

  /** The third rendered line parses back into the deleted files. */
  lemma DeletesLineFields(c: RevisionFileChanges)
    requires PlainNames(c.deleted)
    ensures FieldFiles(RenderedLines(c)[2], FileDeletesLabel) == c.deleted
  {
    PlainFieldLine(FileDeletesLabel, c.deleted);
  }

  /** The copies line parses back into the copies. */
  lemma CopiesLineFields(c: RevisionFileChanges, workingDirectory: string, join: PathJoin)
    requires PlainChanges(c)
    ensures ParseCopies(CopyPieces(RenderedLines(c)[3]), workingDirectory, join)
              == Ok(AbsolutizeCopies(c.copied, workingDirectory, join))
  {
    PlainCopiesLine(c.copied, workingDirectory, join);
  }

  /** The last rendered line parses back into the modified files, with or without its trailing list. */
  lemma ModsLineFields(c: RevisionFileChanges)
    requires PlainNames(c.modified)
    ensures FieldFiles(RenderedLines(c)[4], FileModsLabel) == c.modified
  {
    if c.modified == [] {
      assert JsCollections.SliceFrom(FileModsLabel, |FileModsLabel| + 1) == "";
    } else {
      PlainFieldLine(FileModsLabel, c.modified);
    }
  }

  /**
    Round trip: the template's output for changes with plain relative names
    parses into exactly those changes, absolutized against the working directory.
  */
  lemma ParseRenderedChanges(c: RevisionFileChanges, workingDirectory: string, join: PathJoin)
    requires PlainChanges(c)
    ensures ParseRevisionFileChangeOutput(Render(c), workingDirectory, join)
              == Ok(AbsolutizeChanges(c, workingDirectory, join))
  {
    SplitRender(c);
    AllLineFields(c);
    AddsLineFields(c);
    DeletesLineFields(c);
    CopiesLineFields(c, workingDirectory, join);
    ModsLineFields(c);
    ParseFields(Render(c), c, workingDirectory, join);
  }

  /** Trimming the rendered output only drops the space after an empty last label. */
  lemma TrimmedRender(c: RevisionFileChanges)
    requires PlainNames(c.modified)
    ensures Trim(Render(c)) == Join(RenderedLines(c), "\n")
  {
    var l0 := AllFilesLabel + " " + Join(c.all, " ");
    var l1 := FileAddsLabel + " " + Join(c.added, " ");
    var l2 := FileDeletesLabel + " " + Join(c.deleted, " ");
    var l3 := FileCopiesLabel + " " + RenderCopies(c.copied);
    var l4 := FileModsLabel + " " + Join(c.modified, " ");
    var lastLine := if c.modified == [] then FileModsLabel else l4;
    Join5(l0, l1, l2, l3, l4, "\n");
    Join5(l0, l1, l2, l3, lastLine, "\n");
    var body := l0 + "\n" + l1 + "\n" + l2 + "\n" + l3 + "\n" + lastLine;
    assert body[0] == 'f';
    if c.modified == [] {
      assert Render(c) == body + " ";
      assert body[|body| - 1] == ':';
      TrimTrailingSpace(body, ' ');
    } else {
      JoinLastChar(c.modified, " ");
      assert PlainName(c.modified[|c.modified| - 1]);
      TrimOfTrimmed(Render(c));
    }
  }
}
