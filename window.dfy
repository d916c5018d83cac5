/**
 * The main window's document bookkeeping (src/UI/MainWindow.cpp): the recent-files list kept
 * in the configuration when a file is opened, the window title and Save action that follow
 * the file manager's state, and the pre-save processing that hands the editor's text to the
 * file manager.
 */
module Window {

  import opened Wrappers
  import opened Values
  import opened Configuration
  import opened Document
  import opened LineText
  import opened Editing

  /** The recent-files list never grows past this length when a path is added. */
  const MaxRecentFiles: nat := 10

  const RecentFilesKey: string := "recentFiles"

  const TitleSuffix: string := " - RSTPad"

  const NewFileName: string := "New file"

  /** No entry occurs twice. */
  predicate NoDuplicates(xs: seq<string>)
  {
    forall i, j :: 0 <= i < j < |xs| ==> xs[i] != xs[j]
  }

  /** The list fileChanged stores after opening path: kept as it is when path is listed, otherwise path in front of the first nine entries. */
  function RecentFilesAfterOpen(recent: seq<string>, path: string): (r: seq<string>)
  {
    if path in recent then recent else [path] + recent[..Min(|recent|, MaxRecentFiles - 1)]
  }

  /**
   * The list is unchanged exactly when the path was already listed; otherwise the path comes
   * first, the list holds at most ten entries, and the old entries that survive are a prefix of
   * the old list in their old order (only the oldest are dropped). The path is listed afterwards,
   * no duplicate is introduced, and opening the same path again changes nothing.
   */
  lemma {:induction false} RecentFilesProperties(recent: seq<string>, path: string)
    ensures var r := RecentFilesAfterOpen(recent, path);
      && path in r
      && (r == recent <==> path in recent)
      && (path !in recent ==>
            && r[0] == path
            && |r| == Min(|recent| + 1, MaxRecentFiles)
            && r[1..] == recent[..|r| - 1])
      && (NoDuplicates(recent) ==> NoDuplicates(r))
      && RecentFilesAfterOpen(r, path) == r
  {
    var r := RecentFilesAfterOpen(recent, path);
    if path !in recent {
      var kept := recent[..Min(|recent|, MaxRecentFiles - 1)];
      assert r[0] == path;
      assert r[1..] == kept;
      assert path in r;
      assert r != recent;
      if NoDuplicates(recent) {
        forall i, j | 0 <= i < j < |r|
          ensures r[i] != r[j]
        {
          if i == 0 {
            assert r[j] == kept[j - 1] == recent[j - 1];
          } else {
            assert r[i] == recent[i - 1] && r[j] == recent[j - 1];
          }
        }
      }
    }
  }

  /**
   * The list update of fileChanged: when path is not listed, drop the last entry while ten or
   * more remain, then put path in front. `store` says whether the list is written back.
   */
  method UpdateRecentFiles(recentFiles: seq<string>, filePath: string) returns (updated: seq<string>, store: bool)
    ensures store <==> filePath !in recentFiles
    ensures updated == RecentFilesAfterOpen(recentFiles, filePath)
  {
    updated := recentFiles;
    store := filePath !in updated;
    if store {
      while |updated| >= MaxRecentFiles
        invariant |updated| <= |recentFiles| && updated == recentFiles[..|updated|]
        invariant |updated| == |recentFiles| || |updated| >= MaxRecentFiles - 1
        decreases |updated|
      {
        updated := updated[..|updated| - 1];
      }
      updated := [filePath] + updated;
    }
  }

  /** The recent-files list the configuration holds in a map of values (an invalid variant when absent). */
  function StoredRecentFiles(values: map<string, Variant>): seq<string>
  {
    VariantToStringList(if RecentFilesKey in values then values[RecentFilesKey] else Invalid)
  }

  /**
   * The recent-files part of fileChanged for an opened file at absolutePath: read the list from
   * the configuration, and store the updated list only when the path was not listed.
   * A configuration that cannot initialise makes get throw; the store is then as the failed initialisation left it.
   */
  method RecordRecentFile(config: Config, absolutePath: string) returns (r: Outcome<()>)
    modifies config
    ensures var e := EnsureStep(old(config.State()), config.env, true);
      && (e.outcome.LogicError? ==> r == e.outcome && config.State() == e.state)
      && (e.outcome.Done? ==>
            var recent := StoredRecentFiles(e.state.values);
            && r == Done(())
            && (absolutePath in recent ==> config.State() == e.state)
            && (absolutePath !in recent ==>
                  config.State() == e.state.(values := e.state.values[RecentFilesKey := VStringList(RecentFilesAfterOpen(recent, absolutePath))],
                                             modified := true, updates := e.state.updates + 1)))
  {
    ghost var e := EnsureStep(config.State(), config.env, true);
    var got := config.Get(RecentFilesKey);
    if got.LogicError? {
      return LogicError(got.message);
    }
    var updated, store := UpdateRecentFiles(VariantToStringList(got.value), absolutePath);
    if store {
      EnsureRunsOnce(e.state, config.env, true, true);
      var written := config.Set(RecentFilesKey, VStringList(updated));
    }
    r := Done(());
  }

  /** QFileInfo::fileName: what follows the last '/' of the path. */
  function FileName(path: string): (r: string)
    ensures |r| <= |path| && r == path[|path| - |r|..]
    ensures '/' !in r
    ensures |r| < |path| ==> path[|path| - |r| - 1] == '/'
  {
    if path == [] || path[|path| - 1] == '/' then [] else FileName(path[..|path| - 1]) + [path[|path| - 1]]
  }

  /** What FileManager knows about the open document: its path ("" for a new file) and whether it is dirty. */
  datatype FileState = FileState(filePath: string, dirty: bool)
  {
    predicate IsFileOpen() { filePath != [] }

    /** presentableFileName(): the file name, or "New file" when no file is open. */
    function PresentableFileName(): string
    {
      if IsFileOpen() then FileName(filePath) else NewFileName
    }

    /** The status bar text: the path, or "New file". */
    function StatusText(): string
    {
      if IsFileOpen() then filePath else NewFileName
    }
  }

  /** The title rule: the presentable name, a "*" when dirty, then " - RSTPad". */
  function Title(name: string, dirty: bool): string
  {
    name + (if dirty then "*" else "") + TitleSuffix
  }

  /** The name a title shows, given whether it marks a dirty file; None for a string of another shape. */
  function TitleName(title: string, dirty: bool): (r: Option<string>)
  {
    var n := |TitleSuffix| + (if dirty then 1 else 0);
    if |title| < n || title[|title| - |TitleSuffix|..] != TitleSuffix then None
    else if dirty && title[|title| - n] != '*' then None
    else Some(title[..|title| - n])
  }

  /**
   * The title ends in " - RSTPad", the name can be read back from it, and the same name gives
   * different titles for a clean and a dirty file, so the title always shows the dirty state.
   */
  lemma {:induction false} TitleProperties(name: string, dirty: bool)
    ensures var t := Title(name, dirty);
      && t[|t| - |TitleSuffix|..] == TitleSuffix
      && t[..|name|] == name
      && TitleName(t, dirty) == Some(name)
      && Title(name, true) != Title(name, false)
  {
    var t := Title(name, dirty);
    var star := if dirty then "*" else "";
    assert t == name + (star + TitleSuffix);
    assert t[|t| - |TitleSuffix|..] == TitleSuffix;
    if dirty {
      assert t[|t| - |TitleSuffix| - 1] == '*';
    }
    assert t[..|t| - |TitleSuffix| - |star|] == name;
    assert |Title(name, true)| != |Title(name, false)|;
  }

  /** The window's file-dependent widgets. */
  class MainWindow {
    var windowTitle: string
    var statusBarText: string
    var saveEnabled: bool

    constructor()
      ensures windowTitle == [] && statusBarText == [] && !saveEnabled
    {
      windowTitle, statusBarText, saveEnabled := [], [], false;
    }

    /** updateFileUi: the title built by appends, the status bar text, and Save enabled exactly when dirty. */
    method UpdateFileUi(file: FileState)
      modifies this
      ensures windowTitle == Title(file.PresentableFileName(), file.dirty)
      ensures statusBarText == file.StatusText()
      ensures saveEnabled == file.dirty
    {
      var dirty := file.dirty;
      var name := file.PresentableFileName();
      var title: string := [];
      title := title + name;
      assert title == name;
      if dirty {
        title := title + "*";
      }
      assert title == name + (if dirty then "*" else "");
      title := title + TitleSuffix;
      windowTitle := title;
      statusBarText := file.StatusText();
      saveEnabled := dirty;
    }
  }

  const LineSeparator: char := '\U{2028}'
  const NoBreakSpace: char := '\U{00A0}'

  /** What toPlainText writes for a character of a block: U+2028 becomes '\n', U+00A0 a space. */
  function PlainChar(c: char): char
  {
    if c == LineSeparator then '\n' else if c == NoBreakSpace then ' ' else c
  }

  function PlainBlock(b: string): (r: string)
    ensures |r| == |b|
  {
    seq(|b|, i requires 0 <= i < |b| => PlainChar(b[i]))
  }

  /** QPlainTextEdit::toPlainText: the blocks, each in plain characters, with '\n' between them. */
  function PlainText(bs: seq<string>): (r: string)
    requires |bs| >= 1
    ensures |r| == Length(bs)
    decreases |bs|
  {
    if |bs| == 1 then PlainBlock(bs[0]) else PlainBlock(bs[0]) + "\n" + PlainText(bs[1..])
  }

  /** A block with neither U+2028 nor U+00A0 is written as it is. */
  predicate PlainOnly(b: string)
  {
    forall i :: 0 <= i < |b| ==> b[i] != LineSeparator && b[i] != NoBreakSpace
  }

  lemma PlainBlockUnchanged(b: string)
    requires PlainOnly(b)
    ensures PlainBlock(b) == b
  {
  }

  /**
   * Reading the saved text back gives the same blocks, for blocks without U+2028 or U+00A0:
   * what fileChanged loads is then what was saved.
   */
  lemma {:induction false} PlainTextRoundTrip(bs: seq<string>)
    requires WellFormed(bs)
    requires forall i :: 0 <= i < |bs| ==> PlainOnly(bs[i])
    ensures Lines(PlainText(bs)) == bs
    decreases |bs|
  {
    PlainBlockUnchanged(bs[0]);
    LinesOfFree(bs[0]);
    if |bs| > 1 {
      PlainTextRoundTrip(bs[1..]);
      LinesAtBreak(bs[0], '\n', PlainText(bs[1..]));
      assert [bs[0]] + bs[1..] == bs;
    }
  }

  /**
   * The two characters toPlainText rewrites do not survive a save: a line separator comes back
   * as a block break and a no-break space as a plain space.
   */
  lemma PlainTextRewrites()
    ensures Lines(PlainText(["a\U{2028}b"])) == ["a", "b"]
    ensures Lines(PlainText(["a\U{00A0}"])) == ["a "]
  {
    assert PlainText(["a\U{2028}b"]) == "a" + ['\n'] + "b";
    LinesAtBreak("a", '\n', "b");
    LinesOfFree("a");
    LinesOfFree("b");
    assert PlainText(["a\U{00A0}"]) == "a ";
    LinesOfFree("a ");
  }

  /** The blocks after the pre-save processing: blank-line normalisation first, then trimming. */
  function PreSaveBlocks(bs: seq<string>, ensureSingleEmptyLineAtEnd: bool, trimTrailingWhitespace: bool): seq<string>
  {
    var normalised := if ensureSingleEmptyLineAtEnd then SingleBlankLineAtEnd(bs) else bs;
    if trimTrailingWhitespace then TrimmedBlocks(normalised) else normalised
  }

  /** Trimming a line does not change whether it is blank. */
  lemma {:induction false} TrimKeepsBlankness(s: string)
    ensures IsBlank(TrimRight(s)) <==> IsBlank(s)
  {
    if !IsBlank(s) {
      TrimKeepsNonBlank(s);
    } else {
      TrimRightRemovesSpacesOnly(s);
      BlankIsAllSpace(s);
      BlankIsAllSpace(TrimRight(s));
      assert forall i :: 0 <= i < |TrimRight(s)| ==> TrimRight(s)[i] == s[i];
    }
  }

  /** Trimming every block keeps the blank tail's length. */
  lemma {:induction false} TrimKeepsBlankTail(bs: seq<string>)
    ensures BlankTail(TrimmedBlocks(bs)) == BlankTail(bs)
  {
    var t := TrimmedBlocks(bs);
    var m := BlankTail(bs);
    forall k | 0 <= k < |bs|
      ensures IsBlank(t[k]) <==> IsBlank(bs[k])
    {
      TrimKeepsBlankness(bs[k]);
    }
    BlankTailIs(t, m);
  }

  /**
   * With both options on, the saved document ends in one empty block after a non-blank one and
   * no block ends in a space; the two steps give the same blocks in either order.
   */
  lemma {:induction false} PreSaveBoth(bs: seq<string>)
    ensures var r := PreSaveBlocks(bs, true, true);
      && r[|r| - 1] == ""
      && (|r| >= 2 ==> !IsBlank(r[|r| - 2]))
      && (forall i :: 0 <= i < |r| ==> TrailingSpaces(r[i]) == 0)
      && r == SingleBlankLineAtEnd(TrimmedBlocks(bs))
  {
    NormaliseThenTrim(bs);
    TrimKeepsBlankTail(bs);
    var r := PreSaveBlocks(bs, true, true);
    var o := SingleBlankLineAtEnd(TrimmedBlocks(bs));
    assert |r| == |o|;
    forall i | 0 <= i < |r|
      ensures r[i] == o[i]
    {
      if i == |r| - 1 {
        assert TrailingSpaces("") == 0;
      }
    }
  }

  /**
   * fileSaveRequested: with either option on, run ensureSingleBlankLineAtEnd and then
   * trimTrailingWhitespace as one edit, and hand over the editor's plain text. The two options
   * are the values the configuration holds for them.
   */
  method FileSaveRequested(editor: EditManipulator, ensureSingleEmptyLineAtEnd: bool, trimTrailingWhitespace: bool)
    returns (data: string)
    requires editor.Valid()
    modifies editor
    ensures editor.Valid() && editor.indentSize == old(editor.indentSize)
    ensures editor.blocks == PreSaveBlocks(old(editor.blocks), ensureSingleEmptyLineAtEnd, trimTrailingWhitespace)
    ensures data == PlainText(editor.blocks)
  {
    if ensureSingleEmptyLineAtEnd || trimTrailingWhitespace {
      if ensureSingleEmptyLineAtEnd {
        editor.EnsureSingleBlankLineAtEnd();
      }
      if trimTrailingWhitespace {
        editor.TrimTrailingWhitespace();
      }
    }
    data := PlainText(editor.blocks);
  }
}
