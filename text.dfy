/** String primitives the tool relies on: `str::find`, `str::contains`,
    `str::ends_with`, `str::split` and `BufRead::lines`, over `seq<char>`.
    Every delimiter the tool searches for is ASCII, so character indices
    stand in for the byte offsets Rust returns.

    The functions here only compute; what they mean is stated by the
    lemmas beside them, which callers invoke where they need it. */
module Text {

  datatype Option<T> = None | Some(value: T)

  /** `p` occurs in `s` starting at index `i`. */
  predicate OccursAt(s: string, p: string, i: int) {
    0 <= i && i + |p| <= |s| && s[i..i + |p|] == p
  }

  /** `i` is the first index at which `p` occurs in `s`. */
  predicate IsFirst(s: string, p: string, i: int) {
    OccursAt(s, p, i) && forall j :: 0 <= j < i ==> !OccursAt(s, p, j)
  }

  /** Leftmost occurrence of `p` in `s` at or after index `k`. */
  function FindFrom(s: string, p: string, k: nat): (r: Option<nat>)
    requires k <= |s|
    ensures r.Some? ==> k <= r.value && r.value + |p| <= |s|
    decreases |s| - k
  {
    if k + |p| > |s| then None
    else if s[k..k + |p|] == p then Some(k)
    else FindFrom(s, p, k + 1)
  }

  /** `str::find`: the index of the first occurrence of `p`, if any. */
  function Find(s: string, p: string): (r: Option<nat>)
    ensures r.Some? ==> r.value + |p| <= |s|
  {
    FindFrom(s, p, 0)
  }

  /** `str::contains`; the empty pattern is contained in every string. */
  function Contains(s: string, p: string): bool {
    Find(s, p).Some?
  }

  /** `needles.iter().any(|n| s.contains(n))`. */
  function ContainsAny(s: string, needles: seq<string>): bool {
    if |needles| == 0 then false
    else Contains(s, needles[0]) || ContainsAny(s, needles[1..])
  }

  /** `str::ends_with`. */
  predicate EndsWith(s: string, suffix: string) {
    |suffix| <= |s| && s[|s| - |suffix|..] == suffix
  }

  /** Glues `pieces` back together with `sep` between neighbours. */
  function Join(pieces: seq<string>, sep: string): string {
    if |pieces| == 0 then []
    else if |pieces| == 1 then pieces[0]
    else pieces[0] + sep + Join(pieces[1..], sep)
  }

  /** `str::split` with a non-empty string pattern: the pieces between
      the non-overlapping occurrences of `sep`, found left to right. */
  function Split(s: string, sep: string): seq<string>
    requires |sep| > 0
    decreases |s|
  {
    match Find(s, sep)
    case None => [s]
    case Some(i) => [s[..i]] + Split(s[i + |sep|..], sep)
  }

  /** Drops one trailing carriage return. */
  function StripCR(line: string): string {
    if |line| > 0 && line[|line| - 1] == '\r' then line[..|line| - 1] else line
  }

  /** `BufRead::lines`: split at each '\n', drop a '\r' that stood right
      before a removed '\n', and produce no empty line after a final '\n'. */
  function Lines(s: string): seq<string>
    decreases |s|
  {
    if |s| == 0 then []
    else
      match Find(s, "\n")
      case None => [s]
      case Some(i) => [StripCR(s[..i])] + Lines(s[i + 1..])
  }

  // ---------------------------------------------------------------------
  // What the primitives mean

  /** FindFrom returns the leftmost occurrence at or after `k`, and nothing
      only when there is none. */
  lemma {:induction false} FindFromSpec(s: string, p: string, k: nat)
    requires k <= |s|
    ensures FindFrom(s, p, k).Some? ==>
      k <= FindFrom(s, p, k).value && OccursAt(s, p, FindFrom(s, p, k).value)
    ensures FindFrom(s, p, k).Some? ==>
      forall j :: k <= j < FindFrom(s, p, k).value ==> !OccursAt(s, p, j)
    ensures FindFrom(s, p, k).None? ==> forall j :: k <= j ==> !OccursAt(s, p, j)
    decreases |s| - k
  {
    if k + |p| <= |s| && s[k..k + |p|] != p {
      FindFromSpec(s, p, k + 1);
    }
  }

  /** Find returns the first occurrence, and nothing exactly when the
      pattern occurs nowhere. */
  lemma FindSpec(s: string, p: string)
    ensures Find(s, p).Some? ==> IsFirst(s, p, Find(s, p).value)
    ensures Find(s, p).None? <==> forall j :: !OccursAt(s, p, j)
  {
    FindFromSpec(s, p, 0);
  }

  /** Contains holds exactly when the pattern occurs somewhere. */
  lemma ContainsSpec(s: string, p: string)
    ensures Contains(s, p) <==> exists i :: OccursAt(s, p, i)
  {
    FindSpec(s, p);
  }

  /** ContainsAny holds exactly when one of the needles is contained. */
  lemma {:induction false} ContainsAnySpec(s: string, needles: seq<string>)
    ensures ContainsAny(s, needles) <==> exists n :: n in needles && Contains(s, n)
  {
    if |needles| > 0 {
      ContainsAnySpec(s, needles[1..]);
      assert needles == [needles[0]] + needles[1..];
    }
  }

  /** There is only one first occurrence. */
  lemma FirstIsUnique(s: string, p: string, i: int, i': int)
    requires IsFirst(s, p, i) && IsFirst(s, p, i')
    ensures i == i'
  {
  }

  /** A one-character pattern found at `j` is the first `c` in `s`. */
  lemma CharAt(s: string, c: char, j: nat)
    requires IsFirst(s, [c], j)
    ensures j < |s| && s[j] == c && c !in s[..j]
  {
    assert s[j..j + 1] == [c];
    forall k | 0 <= k < j ensures s[k] != c {
      assert !OccursAt(s, [c], k);
      assert s[k..k + 1] == [s[k]];
    }
  }

  /** A one-character pattern that occurs nowhere is a character that is
      not in the string. */
  lemma CharAbsent(s: string, c: char)
    requires forall j :: !OccursAt(s, [c], j)
    ensures c !in s
  {
    forall k | 0 <= k < |s| ensures s[k] != c {
      assert !OccursAt(s, [c], k);
      assert s[k..k + 1] == [s[k]];
    }
  }

  /** If `c` first appears in `s` at index `n`, Find locates `[c]` there. */
  lemma FirstCharAt(s: string, c: char, n: nat)
    requires n < |s| && s[n] == c && c !in s[..n]
    ensures Find(s, [c]) == Some(n)
  {
    FindSpec(s, [c]);
    assert s[n..n + 1] == [c];
    assert OccursAt(s, [c], n);
    forall k | 0 <= k < n ensures !OccursAt(s, [c], k) {
      assert s[..n][k] == s[k];
    }
    match Find(s, [c])
    case None =>
    case Some(m) => FirstIsUnique(s, [c], m, n);
  }

  /** An occurrence of `a + v + b` holds `v` right after `a`, and `b` right
      after `v`. */
  lemma FramedParts(s: string, i: nat, a: string, v: string, b: string)
    requires OccursAt(s, a + v + b, i)
    ensures s[i + |a|..i + |a| + |v|] == v
    ensures s[i + |a| + |v|..i + |a| + |v| + |b|] == b
  {
    var framed := a + v + b;
    assert s[i..i + |framed|] == framed;
    forall k | 0 <= k < |v| ensures s[i + |a| + k] == v[k] {
      assert s[i + |a| + k] == s[i..i + |framed|][|a| + k];
    }
    forall k | 0 <= k < |b| ensures s[i + |a| + |v| + k] == b[k] {
      assert s[i + |a| + |v| + k] == s[i..i + |framed|][|a| + |v| + k];
    }
  }

  /** Three adjacent occurrences make one occurrence of their
      concatenation. */
  lemma AdjacentOccurrences(s: string, i: nat, a: string, v: string, b: string)
    requires OccursAt(s, a, i) && OccursAt(s, v, i + |a|) && OccursAt(s, b, i + |a| + |v|)
    ensures OccursAt(s, a + v + b, i)
  {
    var n := |a| + |v| + |b|;
    assert s[i..i + n] == s[i..i + |a|] + s[i + |a|..i + |a| + |v|] + s[i + |a| + |v|..i + n];
  }

  /** Any occurrence inside a prefix of `s` is an occurrence in `s`. */
  lemma OccursInPrefix(s: string, p: string, n: nat, j: int)
    requires n <= |s| && OccursAt(s[..n], p, j)
    ensures OccursAt(s, p, j)
  {
    assert s[..n][j..j + |p|] == s[j..j + |p|];
  }

  // ---------------------------------------------------------------------
  // Split and Lines

  /** A split always yields at least one piece. */
  lemma SplitNonEmpty(s: string, sep: string)
    requires |sep| > 0
    ensures |Split(s, sep)| >= 1
  {
  }

  /** Joining a piece in front of a non-empty list puts a separator
      between them. */
  lemma JoinCons(piece: string, pieces: seq<string>, sep: string)
    requires |pieces| >= 1
    ensures Join([piece] + pieces, sep) == piece + sep + Join(pieces, sep)
  {
    assert ([piece] + pieces)[1..] == pieces;
  }

  /** Joining the pieces of a split with its separator gives back the
      original string. */
  lemma {:induction false} SplitJoin(s: string, sep: string)
    requires |sep| > 0
    ensures Join(Split(s, sep), sep) == s
    decreases |s|
  {
    FindSpec(s, sep);
    match Find(s, sep)
    case None =>
    case Some(i) =>
      var rest := s[i + |sep|..];
      var tail := Split(rest, sep);
      SplitNonEmpty(rest, sep);
      assert Split(s, sep) == [s[..i]] + tail;
      JoinCons(s[..i], tail, sep);
      SplitJoin(rest, sep);
      assert s == s[..i] + s[i..i + |sep|] + rest;
  }

  /** No piece of a split contains the separator. */
  lemma {:induction false} SplitPiecesFree(s: string, sep: string)
    requires |sep| > 0
    ensures forall piece :: piece in Split(s, sep) ==> !Contains(piece, sep)
    decreases |s|
  {
    FindSpec(s, sep);
    match Find(s, sep)
    case None =>
    case Some(i) =>
      var rest := s[i + |sep|..];
      SplitPiecesFree(rest, sep);
      FindSpec(s[..i], sep);
      forall j | OccursAt(s[..i], sep, j) ensures false {
        OccursInPrefix(s, sep, i, j);
      }
  }

  /** Text yields no lines exactly when it is empty. */
  lemma LinesEmpty(s: string)
    ensures Lines(s) == [] <==> s == []
  {
  }

  /** No line produced by `Lines` contains a newline. */
  lemma {:induction false} LinesHaveNoNewline(s: string)
    ensures forall line :: line in Lines(s) ==> '\n' !in line
    decreases |s|
  {
    if |s| > 0 {
      FindSpec(s, "\n");
      match Find(s, "\n")
      case None =>
        CharAbsent(s, '\n');
      case Some(i) =>
        CharAt(s, '\n', i);
        LinesHaveNoNewline(s[i + 1..]);
        assert Lines(s) == [StripCR(s[..i])] + Lines(s[i + 1..]);
    }
  }

  /** Drops one trailing carriage return from each line. */
  function MapStrip(pieces: seq<string>): seq<string> {
    if |pieces| == 0 then [] else [StripCR(pieces[0])] + MapStrip(pieces[1..])
  }

  /** The lines read from the pieces of a split at '\n': every piece that a
      '\n' ended loses one trailing '\r'; the piece after the last '\n' is
      kept as it is, and only when it is not empty. */
  function LinesOfPieces(pieces: seq<string>): seq<string>
    requires |pieces| >= 1
  {
    var last := pieces[|pieces| - 1];
    MapStrip(pieces[..|pieces| - 1]) + if last == [] then [] else [last]
  }

  /** A piece in front that a '\n' ended becomes a stripped line in front. */
  lemma LinesOfPiecesCons(piece: string, pieces: seq<string>)
    requires |pieces| >= 1
    ensures LinesOfPieces([piece] + pieces) == [StripCR(piece)] + LinesOfPieces(pieces)
  {
    var all := [piece] + pieces;
    assert all[..|all| - 1] == [piece] + pieces[..|pieces| - 1];
    assert ([piece] + pieces[..|pieces| - 1])[1..] == pieces[..|pieces| - 1];
  }

  /** `Lines` on any text, CRLF endings and a final '\n' included, is the
      split at '\n' read as lines. */
  lemma {:induction false} LinesFromSplit(s: string)
    ensures |Split(s, "\n")| >= 1 && Lines(s) == LinesOfPieces(Split(s, "\n"))
    decreases |s|
  {
    SplitNonEmpty(s, "\n");
    match Find(s, "\n")
    case None =>
    case Some(i) =>
      var rest := s[i + 1..];
      SplitNonEmpty(rest, "\n");
      LinesFromSplit(rest);
      LinesOfPiecesCons(s[..i], Split(rest, "\n"));
  }

  /** CRLF text with a final newline: the carriage returns go, and no empty
      line follows the last newline. */
  lemma CrlfSample()
    ensures Lines("ab\r\ncd\r\n") == ["ab", "cd"]
  {
    var s := "ab\r\ncd\r\n";
    var rest := s[4..];
    assert s[..3] == "ab\r" && rest == "cd\r\n" && rest[..3] == "cd\r";
    FirstCharAt(s, '\n', 3);
    FirstCharAt(rest, '\n', 3);
    assert rest[4..] == [];
    assert Lines(s) == [StripCR("ab\r")] + Lines(rest);
    assert Lines(rest) == [StripCR("cd\r")] + Lines([]);
    assert StripCR("ab\r") == "ab" && StripCR("cd\r") == "cd";
  }

  /** On text without carriage returns that does not end in a newline,
      `Lines` is exactly a split at '\n'. */
  lemma {:induction false} LinesAsSplit(s: string)
    requires |s| > 0 && s[|s| - 1] != '\n' && '\r' !in s
    ensures Lines(s) == Split(s, "\n")
    decreases |s|
  {
    FindSpec(s, "\n");
    match Find(s, "\n")
    case None =>
    case Some(i) =>
      CharAt(s, '\n', i);
      var rest := s[i + 1..];
      assert |rest| > 0 && rest[|rest| - 1] == s[|s| - 1];
      assert '\r' !in rest by {
        forall j | 0 <= j < |rest| ensures rest[j] != '\r' {
          assert rest[j] == s[i + 1 + j];
        }
      }
      assert StripCR(s[..i]) == s[..i] by {
        if i > 0 {
          assert s[..i][i - 1] == s[i - 1];
        }
      }
      LinesAsSplit(rest);
  }
}
