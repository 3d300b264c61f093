/** The file-name classification of `visit_dirs`: every file met during the
    walk goes to one of five lists by the suffix of its name, or nowhere. */
module Classify {
  import opened Text

  /** The five kinds of resource file the tool collects. */
  datatype Category = ZhCN | EnUS | EnGB | Grd | Grdp

  /** The name suffix that selects each category. */
  function Suffix(c: Category): string {
    match c
    case ZhCN => "zh-CN.xtb"
    case EnUS => "en-US.xtb"
    case EnGB => "en-GB.xtb"
    case Grd => ".grd"
    case Grdp => ".grdp"
  }

  /** The position of each category's arm in the `match`. */
  function Rank(c: Category): nat {
    match c
    case ZhCN => 0
    case EnUS => 1
    case EnGB => 2
    case Grd => 3
    case Grdp => 4
  }

  /** A file found by the walk: its full path, which is what gets
      recorded, and its bare file name, which is what gets matched. */
  datatype Entry = Entry(path: string, name: string)

  /** The `FileCategories` record: one list of paths per category. */
  datatype FileCategories = FileCategories(
    zhCnFiles: seq<string>,
    enUsFiles: seq<string>,
    enGbFiles: seq<string>,
    grdFiles: seq<string>,
    grdpFiles: seq<string>)
  {
    /** The list that holds category `c`. */
    function Files(c: Category): seq<string> {
      match c
      case ZhCN => zhCnFiles
      case EnUS => enUsFiles
      case EnGB => enGbFiles
      case Grd => grdFiles
      case Grdp => grdpFiles
    }
  }

  /** The `match` on the file name: the first arm, in source order, whose
      suffix the name ends with; no category when none does. */
  function Classify(name: string): Option<Category> {
    if EndsWith(name, "zh-CN.xtb") then Some(ZhCN)
    else if EndsWith(name, "en-US.xtb") then Some(EnUS)
    else if EndsWith(name, "en-GB.xtb") then Some(EnGB)
    else if EndsWith(name, ".grd") then Some(Grd)
    else if EndsWith(name, ".grdp") then Some(Grdp)
    else None
  }

  /** Classify picks the first arm, in source order, whose suffix ends the
      name, and drops the name when no suffix does. */
  lemma ClassifyFirstMatch(name: string)
    ensures Classify(name).Some? ==> EndsWith(name, Suffix(Classify(name).value))
    ensures Classify(name).Some? ==>
      forall c :: Rank(c) < Rank(Classify(name).value) ==> !EndsWith(name, Suffix(c))
    ensures Classify(name).None? <==> forall c :: !EndsWith(name, Suffix(c))
  {
    // each category's suffix test is the test of its arm
    forall c ensures EndsWith(name, Suffix(c)) <==> match c
      case ZhCN => EndsWith(name, "zh-CN.xtb")
      case EnUS => EndsWith(name, "en-US.xtb")
      case EnGB => EndsWith(name, "en-GB.xtb")
      case Grd => EndsWith(name, ".grd")
      case Grdp => EndsWith(name, ".grdp")
    {
    }
  }

  /** No file name ends with two of the five suffixes, so the order of the
      arms never changes the outcome. */
  lemma SuffixesExclusive(name: string, c: Category, d: Category)
    requires EndsWith(name, Suffix(c)) && EndsWith(name, Suffix(d))
    ensures c == d
  {
    var n := |name|;
    assert name[n - 1] == Suffix(c)[|Suffix(c)| - 1];
    assert name[n - 1] == Suffix(d)[|Suffix(d)| - 1];
    if |Suffix(c)| == 9 && |Suffix(d)| == 9 {
      assert Suffix(c) == name[n - 9..] == Suffix(d);
    }
  }

  /** A name is put in category `c` exactly when it ends with `c`'s suffix. */
  lemma ClassifyExactly(name: string, c: Category)
    ensures Classify(name) == Some(c) <==> EndsWith(name, Suffix(c))
  {
    ClassifyFirstMatch(name);
    if EndsWith(name, Suffix(c)) {
      var r := Classify(name);
      assert r.Some?;
      SuffixesExclusive(name, c, r.value);
    }
  }

  /** The paths of the entries whose names fall in category `c`, in the
      order the walk met them. */
  function PathsIn(entries: seq<Entry>, c: Category): seq<string> {
    if |entries| == 0 then []
    else
      var last := entries[|entries| - 1];
      PathsIn(entries[..|entries| - 1], c) + (if Classify(last.name) == Some(c) then [last.path] else [])
  }

  /** The entries that the `_ => ()` arm drops. */
  function Dropped(entries: seq<Entry>): seq<Entry> {
    if |entries| == 0 then []
    else
      var last := entries[|entries| - 1];
      Dropped(entries[..|entries| - 1]) + (if Classify(last.name).None? then [last] else [])
  }

  /** Visiting one batch of entries after another fills each list as
      visiting their concatenation does; a recursive walk therefore lists
      files in the order it meets them, across directories. */
  lemma {:induction false} PathsInAppend(a: seq<Entry>, b: seq<Entry>, c: Category)
    ensures PathsIn(a + b, c) == PathsIn(a, c) + PathsIn(b, c)
    decreases |b|
  {
    if |b| > 0 {
      var b' := b[..|b| - 1];
      assert (a + b)[..|a + b| - 1] == a + b';
      PathsInAppend(a, b', c);
    } else {
      assert a + b == a;
    }
  }

  /** A path is listed under `c` exactly when some entry with that path has
      a name in category `c`. */
  lemma {:induction false} PathsInMember(entries: seq<Entry>, c: Category, p: string)
    ensures p in PathsIn(entries, c) <==>
      exists e :: e in entries && e.path == p && Classify(e.name) == Some(c)
  {
    if |entries| > 0 {
      var n := |entries| - 1;
      PathsInMember(entries[..n], c, p);
      assert entries == entries[..n] + [entries[n]];
    }
  }

  /** The paths of a list of entries, in order. */
  function PathsOf(entries: seq<Entry>): seq<string> {
    if |entries| == 0 then []
    else PathsOf(entries[..|entries| - 1]) + [entries[|entries| - 1].path]
  }

  /** How often path `p` occurs in the five lists and among the dropped
      entries, all together. */
  function Placed(entries: seq<Entry>, p: string): nat {
    multiset(PathsIn(entries, ZhCN))[p] + multiset(PathsIn(entries, EnUS))[p] + multiset(PathsIn(entries, EnGB))[p]
      + multiset(PathsIn(entries, Grd))[p] + multiset(PathsIn(entries, Grdp))[p] + multiset(PathsOf(Dropped(entries)))[p]
  }

  /** The last entry adds its path to category `c`'s list exactly when its
      name is in category `c`. */
  lemma PathsInLast(entries: seq<Entry>, c: Category, p: string)
    requires |entries| > 0
    ensures var e := entries[|entries| - 1];
      multiset(PathsIn(entries, c))[p]
      == multiset(PathsIn(entries[..|entries| - 1], c))[p] + (if Classify(e.name) == Some(c) && e.path == p then 1 else 0)
  {
  }

  /** The last entry adds its path to the dropped ones exactly when its
      name is in no category. */
  lemma DroppedLast(entries: seq<Entry>, p: string)
    requires |entries| > 0
    ensures var e := entries[|entries| - 1];
      multiset(PathsOf(Dropped(entries)))[p]
      == multiset(PathsOf(Dropped(entries[..|entries| - 1])))[p] + (if Classify(e.name).None? && e.path == p then 1 else 0)
  {
    var e := entries[|entries| - 1];
    var d := Dropped(entries[..|entries| - 1]);
    if Classify(e.name).None? {
      assert Dropped(entries) == d + [e];
      assert (d + [e])[..|d|] == d;
      assert PathsOf(d + [e]) == PathsOf(d) + [e.path];
    } else {
      assert Dropped(entries) == d;
    }
  }

  /** The last entry adds its path to exactly one of the six places. */
  lemma PlacedLast(entries: seq<Entry>, p: string)
    requires |entries| > 0
    ensures Placed(entries, p) == Placed(entries[..|entries| - 1], p) + if entries[|entries| - 1].path == p then 1 else 0
  {
    PathsInLast(entries, ZhCN, p);
    PathsInLast(entries, EnUS, p);
    PathsInLast(entries, EnGB, p);
    PathsInLast(entries, Grd, p);
    PathsInLast(entries, Grdp, p);
    DroppedLast(entries, p);
  }

  /** Every entry lands in exactly one place: each path occurs in the five
      lists and among the dropped entries, all together, exactly as often
      as the walk met it. */
  lemma {:induction false} EveryEntryOnce(entries: seq<Entry>, p: string)
    ensures Placed(entries, p) == multiset(PathsOf(entries))[p]
  {
    if |entries| > 0 {
      EveryEntryOnce(entries[..|entries| - 1], p);
      PlacedLast(entries, p);
    }
  }

  /** The pushes of `visit_dirs` over the files of one walk, in the order
      the walk meets them (subdirectories flattened in place, which
      PathsInAppend justifies): each file's path is pushed onto the list
      its name selects. The lists passed in keep what they already held. */
  method VisitEntries(entries: seq<Entry>, acc: FileCategories) returns (out: FileCategories)
    ensures forall c :: out.Files(c) == acc.Files(c) + PathsIn(entries, c)
  {
    var zhCnFiles, enUsFiles, enGbFiles := acc.zhCnFiles, acc.enUsFiles, acc.enGbFiles;
    var grdFiles, grdpFiles := acc.grdFiles, acc.grdpFiles;
    var i := 0;
    while i < |entries|
      invariant 0 <= i <= |entries|
      invariant zhCnFiles == acc.zhCnFiles + PathsIn(entries[..i], ZhCN)
      invariant enUsFiles == acc.enUsFiles + PathsIn(entries[..i], EnUS)
      invariant enGbFiles == acc.enGbFiles + PathsIn(entries[..i], EnGB)
      invariant grdFiles == acc.grdFiles + PathsIn(entries[..i], Grd)
      invariant grdpFiles == acc.grdpFiles + PathsIn(entries[..i], Grdp)
    {
      var entry := entries[i];
      assert entries[..i + 1][..i] == entries[..i];
      match Classify(entry.name) {
        case Some(ZhCN) => zhCnFiles := zhCnFiles + [entry.path];
        case Some(EnUS) => enUsFiles := enUsFiles + [entry.path];
        case Some(EnGB) => enGbFiles := enGbFiles + [entry.path];
        case Some(Grd) => grdFiles := grdFiles + [entry.path];
        case Some(Grdp) => grdpFiles := grdpFiles + [entry.path];
        case None =>
      }
      i := i + 1;
    }
    assert entries[..i] == entries;
    out := FileCategories(zhCnFiles, enUsFiles, enGbFiles, grdFiles, grdpFiles);
  }
}
