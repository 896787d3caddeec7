/** Stored texts and the texts that programs see. The refactor executor reads files in text mode,
where every carriage return, with the newline behind it or alone, is read as one newline, and on
POSIX systems writes them back as they are (rice_factor/adapters/executors/
refactor_executor_adapter.py). The other modules speak of texts as read; this one says for which
stored files that makes no difference. */
module LineEndings {
  import opened Sequences
  import opened Text
  import opened RenamePreview
  import opened StalePreviews

  const CR := '\r'

  /** What reading in text mode makes of a stored text. */
  function Read(s: string): string {
    if s == "" then ""
    else if s[0] != CR then [s[0]] + Read(s[1..])
    else if |s| > 1 && s[1] == NL then [NL] + Read(s[2..])
    else [NL] + Read(s[1..])
  }

  lemma {:induction false} ReadFree(s: string)
    ensures Free(Read(s), CR)
  {
    if s == "" {
    } else if s[0] == CR && |s| > 1 && s[1] == NL {
      ReadFree(s[2..]);
    } else {
      ReadFree(s[1..]);
    }
  }

  /** Reading and writing back keeps a file exactly when it has no carriage return. */
  lemma {:induction false} KeptExactly(s: string)
    ensures Read(s) == s <==> Free(s, CR)
  {
    ReadFree(s);
    if Free(s, CR) && s != "" {
      assert Free(s[1..], CR);
      KeptExactly(s[1..]);
      assert [s[0]] + s[1..] == s;
    }
  }

  /** Up to the first carriage return nothing changes. */
  lemma {:induction false} ReadOver(a: string, b: string)
    requires Free(a, CR)
    ensures Read(a + b) == a + Read(b)
  {
    if a == "" {
      assert a + b == b && a + Read(b) == Read(b);
    } else {
      var rest := a[1..];
      assert (a + b)[1..] == rest + b && [a[0]] + rest == a;
      ReadOver(rest, b);
      Prefixed(a[0], rest, Read(b));
    }
  }

  /** A carriage return is one newline, with the newline behind it or alone. */
  lemma LineEndsRead(a: string, b: string)
    requires Free(a, CR)
    ensures Read(a + ([CR, NL] + b)) == a + ([NL] + Read(b))
    ensures b == "" || b[0] != NL ==> Read(a + ([CR] + b)) == a + ([NL] + Read(b))
  {
    ReadOver(a, [CR, NL] + b);
    ReadOver(a, [CR] + b);
    assert ([CR, NL] + b)[2..] == b && ([CR] + b)[1..] == b;
  }

  lemma Prefixed(c: char, rest: string, more: string)
    ensures [c] + (rest + more) == ([c] + rest) + more
  {}

  /** The stored text after a rename. */
  function StoredAfter(s: string, oldName: string, newName: string): string
    requires oldName != ""
  {
    Replace(Read(s), oldName, newName)
  }

  lemma {:induction false} ReplaceAbsent(s: string, oldName: string, newName: string)
    requires oldName != "" && Occurrences(s, oldName) == 0
    ensures Replace(s, oldName, newName) == s
  {
    if |s| >= |oldName| {
      ReplaceAbsent(s[1..], oldName, newName);
      assert [s[0]] + s[1..] == s;
    }
  }

  /** A rename of a symbol that does not occur leaves the file alone exactly when it has no carriage
  return; otherwise it rewrites the line ends. */
  lemma AbsentSymbolKeepsFile(s: string, oldName: string, newName: string)
    requires oldName != "" && Occurrences(Read(s), oldName) == 0
    ensures StoredAfter(s, oldName, newName) == s <==> Free(s, CR)
  {
    ReplaceAbsent(Read(s), oldName, newName);
    KeptExactly(s);
  }

  lemma {:induction false} FreeByLines(s: string)
    ensures Free(s, CR) <==> AllFree(Lines(s), CR)
  {
    if s != "" {
      FreeByLines(s[1..]);
      var rest := Lines(s[1..]);
      assert s == [s[0]] + s[1..];
      if s[0] == NL {
        assert Lines(s) == [""] + rest && forall i :: 0 <= i < |rest| ==> Lines(s)[i + 1] == rest[i];
      } else {
        assert Lines(s) == [[s[0]] + rest[0]] + rest[1..];
        assert forall i :: 1 <= i < |rest| ==> Lines(s)[i] == rest[i];
        assert Lines(s)[0][0] == s[0] && Lines(s)[0][1..] == rest[0];
      }
    }
  }

  /** The stored file is patched, by the preview of what was read, to what is stored afterwards
  exactly when it has no carriage return. */
  lemma StoredPreviewExactly(path: string, s: string, oldName: string, newName: string)
    requires oldName != "" && Free(path, NL) && Pairable(Read(s), oldName, newName)
    ensures Patch(s, PreviewText(path, Read(s), oldName, newName).value) == Some(StoredAfter(s, oldName, newName))
      <==> Free(s, CR)
  {
    var read, after := Read(s), StoredAfter(s, oldName, newName);
    KeptExactly(s);
    ReadFree(s);
    if Free(s, CR) {
      PreviewIsApplication(path, s, oldName, newName);
    } else {
      PreviewOnOther(path, read, s, oldName, newName);
      PatchedDiffers(s, read, after);
    }
  }

  lemma PatchedDiffers(s: string, read: string, after: string)
    requires !Free(s, CR) && Free(read, CR) && |Lines(read)| == |Lines(after)|
    ensures var news := Lines(after);
      !(Fits(Lines(s), Lines(read), news, |news|) && Join(Patched(Lines(s), Lines(read), news, |news|), NL) == after)
  {
    FreeByLines(s);
    FreeByLines(read);
    CarriageReturnStays(Lines(s), Lines(read), Lines(after));
    SplitFree(s, NL);
    SplitFree(after, NL);
    JoinedAlike(Patched(Lines(s), Lines(read), Lines(after), |Lines(after)|), after);
  }

  /** A line with a carriage return is none of those read, so the hunks leave it where it is. */
  lemma CarriageReturnStays(base: seq<string>, olds: seq<string>, news: seq<string>)
    requires |olds| == |news| && AllFree(olds, CR) && !AllFree(base, CR)
    ensures !(Fits(base, olds, news, |news|) && Patched(base, olds, news, |news|) == news)
  {
    var i :| 0 <= i < |base| && !Free(base[i], CR);
    var patched := Patched(base, olds, news, |news|);
    assert i < |olds| && Fits(base, olds, news, |news|) ==> olds[i] == news[i] && patched[i] == base[i];
  }

  /** A rename that finds nothing turns the line end of the other systems into a newline. */
  lemma LineEndRewritten()
    ensures Occurrences(Read("\r\n"), "x") == 0 && StoredAfter("\r\n", "x", "y") == "\n"
  {
    assert "\r\n"[2..] == "" && Read("\r\n") == [NL] + "" == "\n" && "\n"[..1] == "\n" && "\n"[1..] == "";
  }
}
