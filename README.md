# cn2id_chromium string core in Dafny

`findId` is a small command-line tool for Chromium-style resource trees. Given
a search text, it does three things:

- it finds the ids of the zh-CN translations (`*zh-CN.xtb`) whose line
  contains the text;
- it looks those ids up in the en-US and en-GB bundles and collects the
  English texts;
- it reports the `<message` definitions in the `.grd`/`.grdp` files that
  mention any of those texts.

Before the search it sorts every file in the tree into five lists by file-name
suffix.

This project models that logic on plain sequences. It has four modules:

- `Text` (`text.dfy`) models the string primitives the tool calls:
  `str::find`, `contains`, `ends_with`, `split` with a string pattern, and
  `BufRead::lines`. Each is stated over `seq<char>`. The functions only
  compute; lemmas beside them state what they mean.
- `Extract` (`extract.dfy`) holds `extract_id` and `extract_message`, the
  tag-attribute extractors. They are pure functions with `Option` results,
  both instances of one shape, `Between`: find an opening pattern, then take
  the text up to the next closing character.
  Lemmas state which occurrence they use, what the result may contain, and
  when they fail, in both directions. Two worked examples on a catalogue line
  go with them.
- `Classify` (`classify.dfy`) holds the suffix `match` of `visit_dirs` and
  the loop that pushes each path onto one of the five lists (`VisitEntries`).
  The lists the caller passes in are threaded through as a `FileCategories`
  value.
- `Search` (`search.dfy`) holds the three passes of `main`. Each pass is a
  method with loops, proved equal to a specification function. Lemmas about
  those functions cover membership, ordering and the empty cases. `Run`
  chains the three passes in the order `main` does.

The disk is a `FileSystem`, a map from path to file contents. The `exists`
check that skips missing files is membership in that map. Pass 3 only prints
the pieces it finds; the model returns them, in print order, as `reported`.

## Model

The functions that model the source functions are `Extract.ExtractId`
(src/main.rs:24-29), `Extract.ExtractMessage` (src/main.rs:30-35),
`Classify.Classify` (src/main.rs:53-59), `Text.Find` (`str::find`,
src/main.rs:25), `Text.Contains` (src/main.rs:121), `Text.Split`
(src/main.rs:138, 160), `Text.Lines` (src/main.rs:119) and `Search.Kept`
(src/main.rs:139-141, 161-163). They only compute; the rows below name the
lemmas and methods whose contracts state what they mean.

| member | source | states |
|---|---|---|
| `Text.FindSpec` | src/main.rs:25-27 | `find` returns the index of the first occurrence of the pattern, and nothing exactly when the pattern occurs nowhere |
| `Text.ContainsSpec` | src/main.rs:121 | true exactly when the pattern occurs at some index; the empty pattern occurs in every string |
| `Text.ContainsAnySpec` | src/main.rs:140 | true exactly when at least one of the needles is contained in the text |
| `Text.SplitJoin` | src/main.rs:138 | joining the pieces of `split` with the separator gives back the original content |
| `Text.SplitPiecesFree` | src/main.rs:160 | no piece produced by `split` contains the separator |
| `Text.LinesEmpty` | src/main.rs:119 | the content yields no lines exactly when it is empty |
| `Text.LinesHaveNoNewline` | src/main.rs:119-120 | no line handed to the search contains a newline |
| `Text.LinesFromSplit` | src/main.rs:118-120 | on any content, the lines are the split at '\n' with one trailing '\r' removed from every piece a '\n' ended, and with the piece after the last '\n' kept unchanged unless it is empty (no empty line after a final newline) |
| `Text.CrlfSample` | src/main.rs:118-120 | `ab\r\ncd\r\n` reads as the two lines `ab` and `cd` |
| `Text.LinesAsSplit` | src/main.rs:119 | on content without carriage returns that does not end in a newline, the lines are exactly the split at '\n' |
| `Extract.BetweenSpec` | src/main.rs:24-35 | the shared shape of both extractors succeeds exactly when the opening pattern occurs and the closing character follows its first occurrence; the result holds no closing character and sits, framed by the opening pattern and the closing character, at that first occurrence |
| `Extract.BetweenExactly` | src/main.rs:24-35 | conversely, a text free of the closing character that sits between the first opening pattern and a closing character is the result |
| `Extract.ExtractIdSpec` | src/main.rs:24-29 | extract_id succeeds exactly when the line has an `id="` and a `"` follows the first one; the id holds no `"`, and `id="`, the id and `"` occur contiguously at that first occurrence |
| `Extract.ExtractIdExactly` | src/main.rs:24-29 | conversely, a quote-free text sitting between the first `id="` and a `"` is the value extract_id returns |
| `Extract.ExtractMessageSpec` | src/main.rs:30-35 | extract_message succeeds exactly when the line has a `>` and a `<` follows the first one; the message holds no `<`, and `>`, the message and `<` occur contiguously at that first `>` |
| `Extract.ExtractMessageExactly` | src/main.rs:30-35 | conversely, a `<`-free text sitting between the first `>` and a `<` is the value extract_message returns |
| `Extract.SampleLineId` | src/main.rs:24-29 | on `<translation id="42">Hi</translation>` extract_id gives `42` |
| `Extract.SampleLineMessage` | src/main.rs:30-35 | on the same line extract_message gives `Hi` |
| `Classify.ClassifyFirstMatch` | src/main.rs:53-59 | a name goes to the first arm, in the order zh-CN.xtb, en-US.xtb, en-GB.xtb, .grd, .grdp, whose suffix it ends with; it is dropped exactly when it ends with none |
| `Classify.SuffixesExclusive` | src/main.rs:54-58 | no name ends with two of the five suffixes, so the arms never compete |
| `Classify.ClassifyExactly` | src/main.rs:53-59 | a name is put in category c exactly when it ends with c's suffix |
| `Classify.PathsInMember` | src/main.rs:53-59 | a path is in category c's list exactly when some entry with that path has a name of category c |
| `Classify.EveryEntryOnce` | src/main.rs:53-59 | every entry lands in exactly one place: each path occurs in the five lists and among the dropped entries, all together, exactly as often as the walk met it |
| `Classify.PathsInAppend` | src/main.rs:46-50 | visiting two batches of entries one after the other fills each list with the first batch's paths followed by the second's, so the lists keep the walk's order |
| `Classify.VisitEntries` | src/main.rs:46-61 | each of the five lists ends as the list passed in followed by the paths of that category, in visit order |
| `Search.FindIds` | src/main.rs:112-128 | pass 1 yields exactly the ids of the lines that contain the search text and have an id, file by file, then line by line; missing files contribute nothing |
| `Search.AppendIds` | src/main.rs:119-127 | the loop over one file's lines appends exactly the ids of the lines that contain the search text and have an id, in line order |
| `Search.IdsOfLinesSnoc` | src/main.rs:119-126 | one more line adds its id at the end when it contains the search text and has an id, and adds nothing otherwise |
| `Search.IdsOfLinesMember` | src/main.rs:119-125 | an id is collected from a file's lines exactly when one of those lines contains the search text and extract_id returns that id for it |
| `Search.IdsOfFilesMember` | src/main.rs:112-128 | an id is collected exactly when some listed zh-CN file exists and one of its lines yields it |
| `Search.IdsAreQuoteFree` | src/main.rs:122-124 | no collected id contains `"` |
| `Search.KeptMember` | src/main.rs:139-141 | a piece survives the filter exactly when it contains at least one element of the previous pass's list |
| `Search.KeptNothing` | src/main.rs:139-141 | with an empty list of needles no piece survives |
| `Search.KeptEverything` | src/main.rs:139-141 | when the list of needles holds the empty string, every piece survives |
| `Search.FindMessages` | src/main.rs:130-149 | pass 2 yields exactly the extract_message results of the kept `<translation` pieces, file by file and piece by piece |
| `Search.AppendMessages` | src/main.rs:143-148 | the loop over the kept pieces appends exactly the extract_message results of those pieces, in order, skipping pieces without one |
| `Search.MessagesOfPiecesSnoc` | src/main.rs:143-147 | one more piece adds its message at the end when extract_message finds one, and adds nothing otherwise |
| `Search.MessagesOfPiecesMember` | src/main.rs:143-148 | a message is collected from a file's kept pieces exactly when one of them yields it |
| `Search.MessagesOfFilesMember` | src/main.rs:132-148 | a message is collected exactly when some existing English file has a `<translation` piece that contains an id and yields that message |
| `Search.MessagesHaveNoTag` | src/main.rs:144-146 | no collected message contains `<` |
| `Search.MessagesOfFilesAppend` | src/main.rs:130-132 | processing the en-US list and then the en-GB list gives all en-US messages before all en-GB messages |
| `Search.NoIdsNoMessages` | src/main.rs:139-141 | when no id was found, pass 2 collects no message |
| `Search.FindDefinitions` | src/main.rs:151-168 | pass 3 reports exactly the `<message` pieces that contain a collected message, file by file and piece by piece |
| `Search.Report` | src/main.rs:165-167 | every kept piece is reported, in order, after what was reported before |
| `Search.DefinitionsOfFilesMember` | src/main.rs:153-167 | a piece is reported exactly when it is a `<message` piece of an existing .grd/.grdp file and contains one of the messages |
| `Search.DefinitionsOfFilesAppend` | src/main.rs:151-153 | all .grd pieces are reported before all .grdp pieces |
| `Search.NoMessagesNoDefinitions` | src/main.rs:161-163 | when no message was found, pass 3 reports nothing |
| `Search.Run` | src/main.rs:112-168 | the three passes chained: ids from the zh-CN files, then messages from en-US followed by en-GB, then pieces from .grd followed by .grdp; no ids means no messages, and no messages means nothing reported |

## Left out

- The recursive directory walk (`fs::read_dir`, `is_dir`, `file_name`) is not modelled. `VisitEntries` takes the files of one walk as a list of entries, each with a path and a file name, in visit order, with subdirectories flattened in place. `PathsInAppend` shows that walking batches one after another concatenates their results. The link between a path and its file name is not modelled.
- The JSON cache file (`serde_json` reading and writing `find-id-data.json`) and the hard-coded root directory are not modelled. `Run` takes the five file lists as given, whether they came from the cache or from a walk.
- Argument parsing with `clap` is not modelled, and neither is the unused `--make` flag. `Run` receives the search text directly. The panic of `args.search.unwrap()` when `--search` is missing is left out.
- The `println!` output is left out, except that the pieces pass 3 prints are returned as `reported`.
- The `unwrap` panics on I/O errors and invalid UTF-8 are left out. The file system is a map from path to contents, and a path outside the map is a file the `exists` check skips.
- Byte offsets are not modelled: `str::find` returns byte offsets, the model uses character indices. Every delimiter searched for is ASCII, so the same slices are taken.
- `Text.Split` covers only non-empty separators. The tool splits only on the literals `<translation` and `<message`.
- `Text.Lines` follows the documented behaviour of `BufRead::lines`. That code is not part of this model.
