/** The journal object itself: a file that is only ever extended, and its reader. */
module JournalOnDisk {
  import opened Text
  import opened Journal
  import opened JournalRoundTrip

  class JournalFile {
    /** The file's text, or None while there is no file. */
    var text: Option<string>

    /** What load answers for the present text. */
    ghost function Content(): Loaded
      reads this
    {
      if text.None? then Records([]) else LoadText(text.value)
    }

    /** No line is left unfinished. */
    predicate EndsLine()
      reads this
    {
      text.None? || text.value == "" || text.value[|text.value| - 1] == '\n'
    }

    constructor ()
      ensures text == None && EndsLine() && Content() == Records([])
    {
      text := None;
    }

    /** Append-only: the old text stays a prefix. On a file that ends its last line
        the record joins the records read so far, and an error load reported before
        is still the one it reports. */
    method Append(r: Record)
      requires WellFormedRecord(r)
      modifies this
      ensures text == Some((if old(text).None? then "" else old(text).value) + Line(r))
      ensures old(EndsLine()) ==> EndsLine() && Content() == Followed(old(Content()), r)
    {
      ghost var loaded := Content();
      var before := if text.None? then "" else text.value;
      text := Some(before + Line(r));
      if before == "" || before[|before| - 1] == '\n' {
        AppendOne(before, r);
        EmptyLoads();
        assert Line(r)[|Line(r)| - 1] == '\n';
      }
    }

    /** load, with its loop over the numbered lines. */
    method Load() returns (r: Loaded)
      ensures r == Content()
    {
      if text.None? {
        return Records([]);
      }
      var lines := SplitLines(text.value);
      var out: seq<Record> := [];
      ghost var rest := lines;
      PrefixedNothing(LoadLines(lines, 1));
      hide SplitLines, Loads, RecordOf, IsBlank;
      for i := 0 to |lines|
        invariant rest == lines[i..]
        invariant LoadLines(lines, 1) == Prefixed(out, LoadLines(rest, i + 1))
      {
        assert rest[0] == lines[i] && rest[1..] == lines[i + 1..];
        rest := rest[1..];
        if IsBlank(lines[i]) {
          continue;
        }
        var raw := Loads(lines[i]);
        if raw.None? {
          return Corrupt(i + 1);
        }
        var rec := RecordOf(raw.value);
        if rec.None? {
          return NotARecord(i + 1);
        }
        PrefixedTwice(out, rec.value, LoadLines(rest, i + 2));
        out := out + [rec.value];
      }
      assert out + [] == out;
      return Records(out);
    }
  }

  /** A load outcome after one more record. */
  function Followed(l: Loaded, r: Record): Loaded {
    if l.Records? then Records(l.records + [RestoredRecord(r)]) else l
  }

  lemma AppendOne(before: string, r: Record)
    requires WellFormedRecord(r) && (before == "" || before[|before| - 1] == '\n')
    ensures LoadText(before + Line(r)) == Followed(LoadText(before), r)
  {
    hide LoadText, Line, WellFormedRecord, RestoredRecord;
    var rs := [r];
    assert rs[1..] == [];
    assert Lines(rs) == Line(r) + "" == Line(r);
    LoadAfterAppends(before, rs);
    assert RestoredAll(rs) == [RestoredRecord(r)];
  }

  lemma EmptyLoads()
    ensures LoadText("") == Records([])
  {
  }
}
