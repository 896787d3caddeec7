/** The previews of the refactor executor, read by the diff executor: they name the files that
the operations touch. */
module PreviewFiles {
  import opened Sequences
  import opened Text
  import opened RenamePreview
  import opened RefactorPipeline
  import DiffFiles

  function Move(a: string, b: string): Operation {
    Operation(MoveFile, Some(a), Some(b), None)
  }

  ghost predicate Plain(path: string) {
    DiffFiles.PlainPath(path)
  }

  lemma MoveLinesPaths(a: string, b: string)
    requires Plain(a) && Plain(b)
    ensures forall i :: 0 <= i < 5 ==>
      DiffFiles.PathOn(MoveLines(a, b)[i]) == if i == 3 then Some(a) else if i == 4 then Some(b) else None
  {
    var lines := MoveLines(a, b);
    assert lines[0][0] == 'd' && lines[1][0] == 'r' && lines[2][0] == 'r';
    DiffFiles.PathOnOther(lines[0]);
    DiffFiles.PathOnOther(lines[1]);
    DiffFiles.PathOnOther(lines[2]);
    DiffFiles.PathOnOldHeader(a);
    DiffFiles.PathOnHeader(b);
  }

  lemma MoveLinesFree(a: string, b: string)
    requires Free(a, NL) && Free(b, NL)
    ensures AllFree(MoveLines(a, b), NL)
  {}

  /** The preview of a move names exactly its source and its destination. */
  lemma MovePreviewNames(tree: Tree, a: string, b: string)
    requires Plain(a) && Plain(b) && a in tree
    ensures PreviewOp(tree, Move(a, b)).Some?
    ensures DiffFiles.FilesOn(Lines(PreviewOp(tree, Move(a, b)).value)) == {a, b}
  {
    var lines := MoveLines(a, b);
    MoveLinesFree(a, b);
    SplitJoin(lines, NL);
    MoveLinesPaths(a, b);
    forall f ensures f in DiffFiles.FilesOn(lines) <==> f in {a, b} {
      DiffFiles.FilesMember(lines, f);
      assert DiffFiles.PathOn(lines[3]) == Some(a) && DiffFiles.PathOn(lines[4]) == Some(b);
    }
  }

  /** The printed line names no file, or this one. */
  predicate NamesOnly(line: string, path: string) {
    DiffFiles.PathOn(line) == None || DiffFiles.PathOn(line) == Some(path)
  }

  ghost predicate ChangeNamesOnly(oldLine: string, newLine: string, path: string) {
    oldLine != newLine ==> NamesOnly("-" + oldLine, path) && NamesOnly("+" + newLine, path)
  }

  /** No line that the rename changes, printed with its sign, names another file. */
  ghost predicate ChangesNameOnly(olds: seq<string>, news: seq<string>, k: nat, path: string)
    requires k <= |olds| == |news|
  {
    forall i :: 0 <= i < k ==> ChangeNamesOnly(olds[i], news[i], path)
  }

  lemma ChangesNext(olds: seq<string>, news: seq<string>, k: nat, path: string)
    requires 1 <= k <= |olds| == |news|
    ensures ChangesNameOnly(olds, news, k, path)
      <==> ChangesNameOnly(olds, news, k - 1, path) && ChangeNamesOnly(olds[k - 1], news[k - 1], path)
  {}

  lemma {:induction false} HunksName(olds: seq<string>, news: seq<string>, k: nat, path: string)
    requires k <= |olds| == |news|
    ensures DiffFiles.FilesOn(Hunks(olds, news, k)) <= {path} <==> ChangesNameOnly(olds, news, k, path)
  {
    if k > 0 {
      HunksName(olds, news, k - 1, path);
      DiffFiles.FilesConcat(Hunks(olds, news, k - 1), HunkFor(k, olds[k - 1], news[k - 1]));
      HunkNames(k, olds[k - 1], news[k - 1], path);
      ChangesNext(olds, news, k, path);
    }
  }

  lemma HunkNames(k: nat, oldLine: string, newLine: string, path: string)
    ensures DiffFiles.FilesOn(HunkFor(k, oldLine, newLine)) <= {path}
      <==> ChangeNamesOnly(oldLine, newLine, path)
  {
    if oldLine != newLine {
      assert HunkHeader(k)[0] == '@';
      DiffFiles.PathOnOther(HunkHeader(k));
      ThreeLines(HunkHeader(k), "-" + oldLine, "+" + newLine, path);
    }
  }

  lemma ThreeLines(a: string, b: string, c: string, path: string)
    requires DiffFiles.PathOn(a) == None
    ensures DiffFiles.FilesOn([a, b, c]) <= {path} <==> NamesOnly(b, path) && NamesOnly(c, path)
  {
    var h := [a, b, c];
    forall f ensures f in DiffFiles.FilesOn(h) <==> DiffFiles.PathOn(b) == Some(f) || DiffFiles.PathOn(c) == Some(f) {
      DiffFiles.FilesMember(h, f);
      assert h[0] == a && h[1] == b && h[2] == c;
    }
  }

  lemma FileHeaderNames(path: string)
    requires Plain(path)
    ensures DiffFiles.FilesOn(FileHeader(path)) == {path} && AllFree(FileHeader(path), NL)
  {
    var head := FileHeader(path);
    assert head[0][0] == 'd';
    DiffFiles.PathOnOther(head[0]);
    DiffFiles.PathOnOldHeader(path);
    DiffFiles.PathOnHeader(path);
    forall f ensures f in DiffFiles.FilesOn(head) <==> f == path {
      DiffFiles.FilesMember(head, f);
      assert DiffFiles.PathOn(head[1]) == Some(path);
    }
  }

  /** The preview of a rename names exactly its file if and only if no changed line, printed,
  names another; lines that stay, header-like or not, do not matter. */
  lemma RenamePreviewNames(path: string, s: string, oldName: string, newName: string)
    requires Plain(path) && oldName != "" && Pairable(s, oldName, newName)
    ensures var olds, news := Lines(s), Lines(Replace(s, oldName, newName));
      && path in DiffFiles.FilesOn(Lines(PreviewText(path, s, oldName, newName).value))
      && (DiffFiles.FilesOn(Lines(PreviewText(path, s, oldName, newName).value)) == {path}
      <==> ChangesNameOnly(olds, news, |news|, path))
  {
    var olds, news := Lines(s), Lines(Replace(s, oldName, newName));
    var hunks := Hunks(olds, news, |news|);
    PreviewLines(path, s, oldName, newName);
    FileHeaderNames(path);
    DiffFiles.FilesConcat(FileHeader(path), hunks);
    HunksName(olds, news, |news|, path);
    assert {path} + DiffFiles.FilesOn(hunks) == {path} <==> DiffFiles.FilesOn(hunks) <= {path};
  }

  /** Renaming a word of an SQL comment: the reader takes the word for a second file. */
  lemma CommentNamesFile(path: string)
    requires Plain(path) && path != "u"
    ensures Replace("-- u", "u", "p") == "-- p" && Pairable("-- u", "u", "p")
    ensures DiffFiles.FilesOn(Lines(PreviewText(path, "-- u", "u", "p").value)) != {path}
    ensures DiffFiles.PathOn("-" + "-- u") == Some("u")
  {
    CommentRenamed();
    SplitWhole("-- u", NL);
    SplitWhole("-- p", NL);
    assert Lines("-- u")[0] != Lines("-- p")[0];
    RenamePreviewNames(path, "-- u", "u", "p");
  }

  lemma CommentRenamed()
    ensures Replace("-- u", "u", "p") == "-- p" && DiffFiles.PathOn("-" + "-- u") == Some("u")
  {
    assert "-- u"[1..] == "- u" && "- u"[1..] == " u" && " u"[1..] == "u" && "u"[1..] == "";
    assert Replace("u", "u", "p") == "p" && Replace(" u", "u", "p") == " p" && Replace("- u", "u", "p") == "- p";
    var line := "-" + "-- u";
    assert line[4..] == "u" && Strip("u") == "u";
  }
}
