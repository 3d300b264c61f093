/** The two tag-attribute extractors: `extract_id` pulls the value of the
    first `id="…"` attribute out of a line, `extract_message` the text
    between the first `>` and the `<` after it. Both have the same shape:
    find an opening pattern, then take everything up to the next closing
    character. */
module Extract {
  import opened Text

  /** The opening of an id attribute: `id="`. */
  const IdOpen: string := "id=\""
  /** The end of an opening tag. */
  const TagClose: string := ">"

  /** The text after the first `open` up to the next `close`; nothing when
      `open` is absent or no `close` follows its first occurrence. */
  function Between(line: string, open: string, close: char): Option<string> {
    match Find(line, open)
    case None => None
    case Some(i) =>
      var start := i + |open|;
      match Find(line[start..], [close])
      case None => None
      case Some(j) => Some(line[start..start + j])
  }

  /** `extract_id`: the text after the first `id="` up to the next `"`. */
  function ExtractId(line: string): Option<string> {
    Between(line, IdOpen, '"')
  }

  /** `extract_message`: the text after the first `>` up to the next `<`. */
  function ExtractMessage(line: string): Option<string> {
    Between(line, TagClose, '<')
  }

  /** Between succeeds exactly when `open` occurs and `close` follows its
      first occurrence; a later `open` is never tried. On success the
      result holds no `close` and sits between the first `open` and a
      `close`. */
  lemma BetweenSpec(line: string, open: string, close: char)
    ensures Between(line, open, close).Some? <==>
      exists i :: IsFirst(line, open, i) && close in line[i + |open|..]
    ensures Between(line, open, close).Some? ==> close !in Between(line, open, close).value
    ensures Between(line, open, close).Some? ==>
      exists i :: IsFirst(line, open, i) && OccursAt(line, open + Between(line, open, close).value + [close], i)
  {
    FindSpec(line, open);
    match Find(line, open)
    case None =>
      assert forall i :: !IsFirst(line, open, i);
    case Some(i) =>
      var start := i + |open|;
      var rest := line[start..];
      forall i' | IsFirst(line, open, i') ensures i' == i {
        FirstIsUnique(line, open, i, i');
      }
      FindSpec(rest, [close]);
      match Find(rest, [close])
      case None =>
        CharAbsent(rest, close);
      case Some(j) =>
        CharAt(rest, close, j);
        assert close in rest;
        var v := line[start..start + j];
        assert rest[..j] == v;
        assert OccursAt(line, v, start);
        assert OccursAt(line, [close], start + j) by {
          assert line[start + j..start + j + 1] == [rest[j]];
        }
        AdjacentOccurrences(line, i, open, v, [close]);
        assert Between(line, open, close) == Some(v);
  }

  /** Converse of BetweenSpec: a `close`-free `v` enclosed by the first
      `open` and a `close` is exactly what Between returns. */
  lemma BetweenExactly(line: string, open: string, close: char, i: nat, v: string)
    requires IsFirst(line, open, i) && OccursAt(line, open + v + [close], i) && close !in v
    ensures Between(line, open, close) == Some(v)
  {
    var start := i + |open|;
    FramedParts(line, i, open, v, [close]);
    var rest := line[start..];
    assert rest[..|v|] == v;
    assert rest[|v|] == line[start + |v|..start + |v| + 1][0] == close;
    FirstCharAt(rest, close, |v|);
    FindSpec(line, open);
    match Find(line, open)
    case None =>
    case Some(m) => FirstIsUnique(line, open, m, i);
  }

  /** ExtractId fails exactly when the line has no `id="`, or when no `"`
      follows the first one. On success the id holds no `"`, and `id="`,
      the id and `"` stand together at that first `id="`. */
  lemma ExtractIdSpec(line: string)
    ensures ExtractId(line).Some? <==>
      exists i :: IsFirst(line, IdOpen, i) && '"' in line[i + |IdOpen|..]
    ensures ExtractId(line).Some? ==> '"' !in ExtractId(line).value
    ensures ExtractId(line).Some? ==>
      exists i :: IsFirst(line, IdOpen, i) && OccursAt(line, IdOpen + ExtractId(line).value + "\"", i)
  {
    BetweenSpec(line, IdOpen, '"');
  }

  /** Converse of ExtractIdSpec: a quote-free `id` enclosed by the first
      `id="` and a `"` is exactly what ExtractId returns. */
  lemma ExtractIdExactly(line: string, i: nat, id: string)
    requires IsFirst(line, IdOpen, i) && OccursAt(line, IdOpen + id + "\"", i) && '"' !in id
    ensures ExtractId(line) == Some(id)
  {
    BetweenExactly(line, IdOpen, '"', i, id);
  }

  /** ExtractMessage fails exactly when the line has no `>`, or when no `<`
      follows the first one. On success the message holds no `<`, and `>`,
      the message and `<` stand together at that first `>`. */
  lemma ExtractMessageSpec(line: string)
    ensures ExtractMessage(line).Some? <==>
      exists i :: IsFirst(line, TagClose, i) && '<' in line[i + |TagClose|..]
    ensures ExtractMessage(line).Some? ==> '<' !in ExtractMessage(line).value
    ensures ExtractMessage(line).Some? ==>
      exists i :: IsFirst(line, TagClose, i) && OccursAt(line, TagClose + ExtractMessage(line).value + "<", i)
  {
    BetweenSpec(line, TagClose, '<');
  }

  /** Converse of ExtractMessageSpec: a `<`-free `message` enclosed by the
      first `>` and a `<` is exactly what ExtractMessage returns. */
  lemma ExtractMessageExactly(line: string, i: nat, message: string)
    requires IsFirst(line, TagClose, i) && OccursAt(line, TagClose + message + "<", i) && '<' !in message
    ensures ExtractMessage(line) == Some(message)
  {
    BetweenExactly(line, TagClose, '<', i, message);
  }

  /** A typical catalogue line. */
  const SampleLine: string := "<translation id=\"42\">Hi</translation>"

  /** On a typical catalogue line, ExtractId picks out the id. */
  lemma SampleLineId()
    ensures ExtractId(SampleLine) == Some("42")
  {
    var line := SampleLine;
    assert line[13] == 'i' && line[14] == 'd' && line[15] == '=' && line[16] == '"';
    assert line[17] == '4' && line[18] == '2' && line[19] == '"';
    assert line[13..20] == IdOpen + "42" + "\"";
    assert line[..14] == "<translation i";
    assert 'd' !in line[..14];
    forall j | 0 <= j < 13 ensures !OccursAt(line, IdOpen, j) {
      assert line[j + 1] == line[..14][j + 1];
    }
    ExtractIdExactly(line, 13, "42");
  }

  /** On the same line, ExtractMessage picks out the translated text. */
  lemma SampleLineMessage()
    ensures ExtractMessage(SampleLine) == Some("Hi")
  {
    var line := SampleLine;
    assert line[20] == '>' && line[21] == 'H' && line[22] == 'i' && line[23] == '<';
    assert line[20..24] == TagClose + "Hi" + "<";
    assert line[..20] == "<translation id=\"42\"";
    assert '>' !in line[..20];
    forall j | 0 <= j < 20 ensures !OccursAt(line, TagClose, j) {
      assert line[j] == line[..20][j];
    }
    ExtractMessageExactly(line, 20, "Hi");
  }
}
