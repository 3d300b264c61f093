/** The three passes of `main`. Pass 1 collects the ids of the zh-CN lines
    that contain the search text; pass 2 collects the translated texts of
    the English `<translation` pieces that mention one of those ids; pass 3
    reports the `<message` pieces of the resource-definition files that
    mention one of those texts. File contents come from a map from path to
    text instead of the disk. */
module Search {
  import opened Text
  import opened Extract
  import opened Classify

  /** The files that exist, with their contents. A path that is not a key
      is a file the `exists` check skips. */
  type FileSystem = map<string, string>

  const TranslationTag: string := "<translation"
  const MessageTag: string := "<message"

  // ---------------------------------------------------------------------
  // Pass 1: ids of the zh-CN lines that contain the search text

  /** What one zh-CN line contributes: its id, when the line contains the
      search text and has one. */
  function IdOfLine(search: string, line: string): Option<string> {
    if Contains(line, search) then ExtractId(line) else None
  }

  /** The ids contributed by `lines`, in line order. */
  function IdsOfLines(search: string, lines: seq<string>): seq<string> {
    if |lines| == 0 then []
    else
      IdsOfLines(search, lines[..|lines| - 1]) +
        match IdOfLine(search, lines[|lines| - 1])
        case Some(id) => [id]
        case None => []
  }

  /** The ids contributed by one zh-CN file; nothing when it is missing. */
  function IdsOfFile(search: string, fs: FileSystem, file: string): seq<string> {
    if file in fs then IdsOfLines(search, Lines(fs[file])) else []
  }

  /** The ids contributed by `files`, file by file. */
  function IdsOfFiles(search: string, fs: FileSystem, files: seq<string>): seq<string> {
    if |files| == 0 then []
    else IdsOfFiles(search, fs, files[..|files| - 1]) + IdsOfFile(search, fs, files[|files| - 1])
  }

  /** Pass 1 (the loop over `zh_cn_files`). */
  method FindIds(search: string, fs: FileSystem, files: seq<string>) returns (ids: seq<string>)
    ensures ids == IdsOfFiles(search, fs, files)
  {
    ids := [];
    var i := 0;
    while i < |files|
      invariant 0 <= i <= |files|
      invariant ids == IdsOfFiles(search, fs, files[..i])
    {
      assert files[..i + 1][..i] == files[..i];
      var file := files[i];
      if file in fs {
        ids := AppendIds(search, ids, Lines(fs[file]));
      }
      i := i + 1;
    }
    assert files[..i] == files;
  }

  /** The inner loop of pass 1 over the lines of one file: push the id of
      each line that contains the search text and has one. */
  method AppendIds(search: string, ids: seq<string>, lines: seq<string>) returns (out: seq<string>)
    ensures out == ids + IdsOfLines(search, lines)
  {
    out := ids;
    var j := 0;
    while j < |lines|
      invariant 0 <= j <= |lines|
      invariant out == ids + IdsOfLines(search, lines[..j])
    {
      var line := lines[j];
      assert lines[..j + 1] == lines[..j] + [line];
      IdsOfLinesSnoc(search, lines[..j], line);
      if Contains(line, search) {
        match ExtractId(line) {
          case Some(id) => out := out + [id];
          case None =>
        }
      }
      j := j + 1;
    }
    assert lines[..j] == lines;
  }

  /** Appending one line appends its id, if it contributes one. */
  lemma IdsOfLinesSnoc(search: string, lines: seq<string>, line: string)
    ensures IdsOfLines(search, lines + [line]) == IdsOfLines(search, lines) +
      match IdOfLine(search, line)
      case Some(id) => [id]
      case None => []
  {
    assert (lines + [line])[..|lines|] == lines;
  }

  /** An id is collected from a list of lines exactly when one of them
      contains the search text and yields that id. */
  lemma {:induction false} IdsOfLinesMember(search: string, lines: seq<string>, id: string)
    ensures id in IdsOfLines(search, lines) <==>
      exists line :: line in lines && Contains(line, search) && ExtractId(line) == Some(id)
  {
    if |lines| > 0 {
      var n := |lines| - 1;
      IdsOfLinesMember(search, lines[..n], id);
      assert lines == lines[..n] + [lines[n]];
    }
  }

  /** An id is collected from a list of files exactly when one of them
      exists and one of its lines yields that id. */
  lemma {:induction false} IdsOfFilesMember(search: string, fs: FileSystem, files: seq<string>, id: string)
    ensures id in IdsOfFiles(search, fs, files) <==>
      exists file :: file in files && file in fs && id in IdsOfLines(search, Lines(fs[file]))
  {
    if |files| > 0 {
      var n := |files| - 1;
      IdsOfFilesMember(search, fs, files[..n], id);
      assert files == files[..n] + [files[n]];
    }
  }

  /** Every collected id is the value of an id attribute, so it holds no
      `"`. */
  lemma IdsAreQuoteFree(search: string, fs: FileSystem, files: seq<string>)
    ensures forall id :: id in IdsOfFiles(search, fs, files) ==> '"' !in id
  {
    forall id | id in IdsOfFiles(search, fs, files) ensures '"' !in id {
      IdsOfFilesMember(search, fs, files, id);
      var file :| file in files && file in fs && id in IdsOfLines(search, Lines(fs[file]));
      IdsOfLinesMember(search, Lines(fs[file]), id);
      var line :| line in Lines(fs[file]) && Contains(line, search) && ExtractId(line) == Some(id);
      ExtractIdSpec(line);
    }
  }

  // ---------------------------------------------------------------------
  // The filter shared by passes 2 and 3

  /** `split(..).filter(|item| needles.iter().any(|n| item.contains(n)))`:
      the pieces that contain at least one needle, in order. */
  function Kept(pieces: seq<string>, needles: seq<string>): seq<string> {
    if |pieces| == 0 then []
    else
      var last := pieces[|pieces| - 1];
      Kept(pieces[..|pieces| - 1], needles) + (if ContainsAny(last, needles) then [last] else [])
  }

  /** A piece is kept exactly when it is one of the pieces and contains one
      of the needles. */
  lemma {:induction false} KeptMember(pieces: seq<string>, needles: seq<string>, p: string)
    ensures p in Kept(pieces, needles) <==> p in pieces && ContainsAny(p, needles)
  {
    if |pieces| > 0 {
      var n := |pieces| - 1;
      KeptMember(pieces[..n], needles, p);
      assert pieces == pieces[..n] + [pieces[n]];
    }
  }

  /** With no needles, nothing is kept. */
  lemma {:induction false} KeptNothing(pieces: seq<string>)
    ensures Kept(pieces, []) == []
  {
    if |pieces| > 0 {
      KeptNothing(pieces[..|pieces| - 1]);
    }
  }

  /** An empty needle is contained in every piece, so every piece is kept. */
  lemma {:induction false} KeptEverything(pieces: seq<string>, needles: seq<string>)
    requires [] in needles
    ensures Kept(pieces, needles) == pieces
  {
    if |pieces| > 0 {
      var n := |pieces| - 1;
      KeptEverything(pieces[..n], needles);
      assert OccursAt(pieces[n], [], 0);
      ContainsSpec(pieces[n], []);
      ContainsAnySpec(pieces[n], needles);
      assert pieces == pieces[..n] + [pieces[n]];
    }
  }

  // ---------------------------------------------------------------------
  // Pass 2: translated texts of the English pieces that mention an id

  /** The message extracted from each piece that has one, in order. */
  function MessagesOfPieces(pieces: seq<string>): seq<string> {
    if |pieces| == 0 then []
    else
      MessagesOfPieces(pieces[..|pieces| - 1]) +
        match ExtractMessage(pieces[|pieces| - 1])
        case Some(m) => [m]
        case None => []
  }

  /** The `<translation` pieces of one English file that mention an id. */
  function TranslationsOfFile(ids: seq<string>, fs: FileSystem, file: string): seq<string> {
    if file in fs then Kept(Split(fs[file], TranslationTag), ids) else []
  }

  /** The messages contributed by `files`, file by file. */
  function MessagesOfFiles(ids: seq<string>, fs: FileSystem, files: seq<string>): seq<string> {
    if |files| == 0 then []
    else
      MessagesOfFiles(ids, fs, files[..|files| - 1]) +
        MessagesOfPieces(TranslationsOfFile(ids, fs, files[|files| - 1]))
  }

  /** Pass 2 (the loop over the en-US files followed by the en-GB files). */
  method FindMessages(ids: seq<string>, fs: FileSystem, files: seq<string>) returns (messages: seq<string>)
    ensures messages == MessagesOfFiles(ids, fs, files)
  {
    messages := [];
    var i := 0;
    while i < |files|
      invariant 0 <= i <= |files|
      invariant messages == MessagesOfFiles(ids, fs, files[..i])
    {
      assert files[..i + 1][..i] == files[..i];
      var file := files[i];
      if file in fs {
        var filtered := Kept(Split(fs[file], TranslationTag), ids);
        messages := AppendMessages(messages, filtered);
      }
      i := i + 1;
    }
    assert files[..i] == files;
  }

  /** The inner loop of pass 2 over the kept pieces of one file: push the
      message of each piece that has one. */
  method AppendMessages(messages: seq<string>, filtered: seq<string>) returns (out: seq<string>)
    ensures out == messages + MessagesOfPieces(filtered)
  {
    out := messages;
    var j := 0;
    while j < |filtered|
      invariant 0 <= j <= |filtered|
      invariant out == messages + MessagesOfPieces(filtered[..j])
    {
      var item := filtered[j];
      assert filtered[..j + 1] == filtered[..j] + [item];
      MessagesOfPiecesSnoc(filtered[..j], item);
      match ExtractMessage(item) {
        case Some(m) => out := out + [m];
        case None =>
      }
      j := j + 1;
    }
    assert filtered[..j] == filtered;
  }

  /** Appending one piece appends its message, if it has one. */
  lemma MessagesOfPiecesSnoc(pieces: seq<string>, piece: string)
    ensures MessagesOfPieces(pieces + [piece]) == MessagesOfPieces(pieces) +
      match ExtractMessage(piece)
      case Some(m) => [m]
      case None => []
  {
    assert (pieces + [piece])[..|pieces|] == pieces;
  }

  /** A message is collected from a list of pieces exactly when one of them
      yields it. */
  lemma {:induction false} MessagesOfPiecesMember(pieces: seq<string>, m: string)
    ensures m in MessagesOfPieces(pieces) <==> exists p :: p in pieces && ExtractMessage(p) == Some(m)
  {
    if |pieces| > 0 {
      var n := |pieces| - 1;
      MessagesOfPiecesMember(pieces[..n], m);
      assert pieces == pieces[..n] + [pieces[n]];
    }
  }

  /** Processing one list of files after another yields the messages of
      the first followed by those of the second: all en-US messages come
      before all en-GB messages. */
  lemma {:induction false} MessagesOfFilesAppend(ids: seq<string>, fs: FileSystem, a: seq<string>, b: seq<string>)
    ensures MessagesOfFiles(ids, fs, a + b) == MessagesOfFiles(ids, fs, a) + MessagesOfFiles(ids, fs, b)
    decreases |b|
  {
    if |b| > 0 {
      var b' := b[..|b| - 1];
      assert (a + b)[..|a + b| - 1] == a + b';
      MessagesOfFilesAppend(ids, fs, a, b');
    } else {
      assert a + b == a;
    }
  }

  /** Without ids, pass 2 finds no message. */
  lemma {:induction false} NoIdsNoMessages(fs: FileSystem, files: seq<string>)
    ensures MessagesOfFiles([], fs, files) == []
  {
    if |files| > 0 {
      var file := files[|files| - 1];
      NoIdsNoMessages(fs, files[..|files| - 1]);
      if file in fs {
        KeptNothing(Split(fs[file], TranslationTag));
      }
    }
  }

  /** A message is collected exactly when some existing file has a
      `<translation` piece that mentions an id and yields that message. */
  lemma {:induction false} MessagesOfFilesMember(ids: seq<string>, fs: FileSystem, files: seq<string>, m: string)
    ensures m in MessagesOfFiles(ids, fs, files) <==>
      exists file, p :: file in files && file in fs && p in Split(fs[file], TranslationTag)
        && ContainsAny(p, ids) && ExtractMessage(p) == Some(m)
  {
    if |files| > 0 {
      var n := |files| - 1;
      var file := files[n];
      MessagesOfFilesMember(ids, fs, files[..n], m);
      assert files == files[..n] + [file];
      var own := TranslationsOfFile(ids, fs, file);
      MessagesOfPiecesMember(own, m);
      if file in fs {
        forall p ensures p in own <==> p in Split(fs[file], TranslationTag) && ContainsAny(p, ids) {
          KeptMember(Split(fs[file], TranslationTag), ids, p);
        }
      }
    }
  }

  /** Every collected message is the text between a `>` and the next `<`,
      so it holds no `<`. */
  lemma MessagesHaveNoTag(ids: seq<string>, fs: FileSystem, files: seq<string>)
    ensures forall m :: m in MessagesOfFiles(ids, fs, files) ==> '<' !in m
  {
    forall m | m in MessagesOfFiles(ids, fs, files) ensures '<' !in m {
      MessagesOfFilesMember(ids, fs, files, m);
      var file, p :| file in files && file in fs && p in Split(fs[file], TranslationTag)
        && ContainsAny(p, ids) && ExtractMessage(p) == Some(m);
      ExtractMessageSpec(p);
    }
  }

  // ---------------------------------------------------------------------
  // Pass 3: `<message` pieces of the .grd/.grdp files that mention a message

  /** The `<message` pieces of one resource-definition file that mention a
      message. */
  function DefinitionsOfFile(messages: seq<string>, fs: FileSystem, file: string): seq<string> {
    if file in fs then Kept(Split(fs[file], MessageTag), messages) else []
  }

  /** The pieces reported for `files`, file by file. */
  function DefinitionsOfFiles(messages: seq<string>, fs: FileSystem, files: seq<string>): seq<string> {
    if |files| == 0 then []
    else
      DefinitionsOfFiles(messages, fs, files[..|files| - 1]) +
        DefinitionsOfFile(messages, fs, files[|files| - 1])
  }

  /** Pass 3 (the loop over the .grd files followed by the .grdp files);
      the pieces it prints are returned in print order. */
  method FindDefinitions(messages: seq<string>, fs: FileSystem, files: seq<string>) returns (reported: seq<string>)
    ensures reported == DefinitionsOfFiles(messages, fs, files)
  {
    reported := [];
    var i := 0;
    while i < |files|
      invariant 0 <= i <= |files|
      invariant reported == DefinitionsOfFiles(messages, fs, files[..i])
    {
      assert files[..i + 1][..i] == files[..i];
      var file := files[i];
      if file in fs {
        var filtered := Kept(Split(fs[file], MessageTag), messages);
        reported := Report(reported, filtered);
      }
      i := i + 1;
    }
    assert files[..i] == files;
  }

  /** The inner loop of pass 3: every kept piece is printed, in order. */
  method Report(reported: seq<string>, filtered: seq<string>) returns (out: seq<string>)
    ensures out == reported + filtered
  {
    out := reported;
    var j := 0;
    while j < |filtered|
      invariant 0 <= j <= |filtered|
      invariant out == reported + filtered[..j]
    {
      assert filtered[..j + 1] == filtered[..j] + [filtered[j]];
      out := out + [filtered[j]];
      j := j + 1;
    }
    assert filtered[..j] == filtered;
  }

  /** Processing one list of files after another reports the pieces of the
      first followed by those of the second: all .grd pieces come before
      all .grdp pieces. */
  lemma {:induction false} DefinitionsOfFilesAppend(messages: seq<string>, fs: FileSystem, a: seq<string>, b: seq<string>)
    ensures DefinitionsOfFiles(messages, fs, a + b) == DefinitionsOfFiles(messages, fs, a) + DefinitionsOfFiles(messages, fs, b)
    decreases |b|
  {
    if |b| > 0 {
      var b' := b[..|b| - 1];
      assert (a + b)[..|a + b| - 1] == a + b';
      DefinitionsOfFilesAppend(messages, fs, a, b');
    } else {
      assert a + b == a;
    }
  }

  /** Without messages, pass 3 reports nothing. */
  lemma {:induction false} NoMessagesNoDefinitions(fs: FileSystem, files: seq<string>)
    ensures DefinitionsOfFiles([], fs, files) == []
  {
    if |files| > 0 {
      var file := files[|files| - 1];
      NoMessagesNoDefinitions(fs, files[..|files| - 1]);
      if file in fs {
        KeptNothing(Split(fs[file], MessageTag));
      }
    }
  }

  /** A piece is reported exactly when it is a `<message` piece of an
      existing file and mentions one of the messages. */
  lemma {:induction false} DefinitionsOfFilesMember(messages: seq<string>, fs: FileSystem, files: seq<string>, p: string)
    ensures p in DefinitionsOfFiles(messages, fs, files) <==>
      exists file :: file in files && file in fs && p in Split(fs[file], MessageTag)
        && ContainsAny(p, messages)
  {
    if |files| > 0 {
      var n := |files| - 1;
      var file := files[n];
      DefinitionsOfFilesMember(messages, fs, files[..n], p);
      assert files == files[..n] + [file];
      if file in fs {
        KeptMember(Split(fs[file], MessageTag), messages, p);
      }
    }
  }

  // ---------------------------------------------------------------------
  // The whole search

  /** The three passes of `main`, run on given file lists. */
  method Run(search: string, categories: FileCategories, fs: FileSystem)
    returns (ids: seq<string>, messages: seq<string>, reported: seq<string>)
    ensures ids == IdsOfFiles(search, fs, categories.zhCnFiles)
    ensures messages == MessagesOfFiles(ids, fs, categories.enUsFiles) + MessagesOfFiles(ids, fs, categories.enGbFiles)
    ensures reported == DefinitionsOfFiles(messages, fs, categories.grdFiles)
                      + DefinitionsOfFiles(messages, fs, categories.grdpFiles)
    ensures ids == [] ==> messages == []
    ensures messages == [] ==> reported == []
  {
    ids := FindIds(search, fs, categories.zhCnFiles);
    var combinedFiles := categories.enUsFiles + categories.enGbFiles;
    messages := FindMessages(ids, fs, combinedFiles);
    MessagesOfFilesAppend(ids, fs, categories.enUsFiles, categories.enGbFiles);
    var combinedGrdFiles := categories.grdFiles + categories.grdpFiles;
    reported := FindDefinitions(messages, fs, combinedGrdFiles);
    DefinitionsOfFilesAppend(messages, fs, categories.grdFiles, categories.grdpFiles);
    if ids == [] {
      NoIdsNoMessages(fs, combinedFiles);
    }
    if messages == [] {
      NoMessagesNoDefinitions(fs, combinedGrdFiles);
    }
  }
}
