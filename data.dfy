/** parse_capacities_export_zip and export_notes_to_markdown: turning the
    Markdown documents of an export into records, and records back into one
    Markdown text. The archive itself is given as its (entry name, content)
    pairs in archive order; the YAML loader and pd.to_datetime are
    parameters. */
module CapacitiesExport {
  import opened Values
  import opened Strings
  import opened Collections

  const Delimiter: string := "---"

  /** What yaml.safe_load makes of a header: a value, or an exception. */
  datatype Header = Loaded(doc: Value) | Unparsable

  /** One entry of the records list. `date` is None until the dating pass and
      stays None for a missing or unparseable date (NaT). */
  datatype Record = Record(
    objectType: Value,
    title: Value,
    properties: map<string, Value>,
    textContent: string,
    fileName: string,
    date: Option<Timestamp>)

  /** What one document gives: nothing (fewer than three parts), a record, or
      the exception `.get` raises on a header that is not a mapping. */
  datatype Extraction = NotADocument | Extracted(record: Record) | HeaderNotMapping

  /** The parser's outcome: the records, or an exception that aborts it. */
  datatype Outcome = Parsed(records: seq<Record>) | Raised

  /** `content.split("---", 2)` when it has three parts: the text before the
      first delimiter, the text between it and the next one, and the rest. */
  function Split3(s: string): (r: Option<(string, string, string)>)
    ensures r.Some? <==> exists i, j :: OccursAt(s, Delimiter, i) && i + 3 <= j && OccursAt(s, Delimiter, j)
    ensures r.Some? ==> s == r.value.0 + Delimiter + r.value.1 + Delimiter + r.value.2
    ensures r.Some? ==> forall k :: 0 <= k < |r.value.0| ==> !OccursAt(s, Delimiter, k)
    ensures r.Some? ==> forall k :: |r.value.0| + 3 <= k < |r.value.0| + 3 + |r.value.1| ==> !OccursAt(s, Delimiter, k)
  {
    match Find(s, Delimiter, 0)
    case None => None
    case Some(i) =>
      match Find(s, Delimiter, i + 3)
      case None => None
      case Some(j) =>
        var parts := (s[..i], s[i + 3..j], s[j + 3..]);
        assert |parts.0| == i && |parts.1| == j - i - 3;
        SplitAround(s, i, j);
        Some(parts)
  }

  /** The record one document yields (lines 39-55 of the parser), without its
      date. A header that fails to load counts as an empty mapping. */
  function ExtractRecord(name: string, content: string, load: string -> Header): (e: Extraction)
    ensures e.NotADocument? <==> Split3(content).None?
    ensures e.HeaderNotMapping? <==>
              Split3(content).Some? && load(Split3(content).value.1).Loaded? &&
              !load(Split3(content).value.1).doc.Dict?
    ensures e.Extracted? ==> e.record.date.None?
  {
    match Split3(content)
    case None => NotADocument
    case Some(parts) =>
      var properties := match load(parts.1) case Loaded(doc) => doc case Unparsable => Dict(map[]);
      if !properties.Dict? then HeaderNotMapping
      else
        var props := properties.entries;
        var fileName := PathName(name);
        Extracted(Record(
          Get(props, "type", Str("")),
          Get(props, "title", Str(Stem(fileName))),
          props,
          Strip(parts.2),
          fileName,
          None))
  }

  /** The record a document yields, field by field: the base name of its
      entry, the stripped text after the second delimiter, the header's
      mapping (empty when it does not load), and the header's `title` and
      `type` with their fallbacks. */
  lemma ExtractedFields(name: string, content: string, load: string -> Header)
    requires ExtractRecord(name, content, load).Extracted?
    ensures var rec := ExtractRecord(name, content, load).record;
            var parts := Split3(content).value;
            && rec.fileName == PathName(name)
            && '/' !in rec.fileName
            && rec.textContent == Strip(parts.2)
            && (load(parts.1).Unparsable? ==> rec.properties == map[])
            && (load(parts.1).Loaded? ==> load(parts.1).doc == Dict(rec.properties))
            && ("title" in rec.properties ==> rec.title == rec.properties["title"])
            && ("title" !in rec.properties ==> rec.title == Str(Stem(rec.fileName)))
            && ("type" in rec.properties ==> rec.objectType == rec.properties["type"])
            && ("type" !in rec.properties ==> rec.objectType == Str(""))
  {
  }

  /** What the first loop makes of one archive entry: only names ending in
      `.md`, matched case-sensitively, are read. */
  function Classify(entry: (string, string), load: string -> Header): Extraction
  {
    if EndsWith(entry.0, ".md") then ExtractRecord(entry.0, entry.1, load) else NotADocument
  }

  /** A record read from an archive entry is named by the entry's base name,
      which ends in ".md". */
  lemma RecordFileName(entry: (string, string), load: string -> Header)
    requires Classify(entry, load).Extracted?
    ensures Classify(entry, load).record.fileName == PathName(entry.0)
    ensures EndsWith(Classify(entry, load).record.fileName, ".md")
  {
    MarkdownBaseName(entry.0);
  }

  /** The records a loop collects from `entries` when `classify` says what
      each entry gives, in order; the first exception aborts it. */
  function Collect(entries: seq<(string, string)>, classify: ((string, string)) -> Extraction): Outcome
  {
    if entries == [] then Parsed([])
    else
      match Collect(entries[..|entries| - 1], classify)
      case Raised => Raised
      case Parsed(rs) =>
        match classify(entries[|entries| - 1])
        case NotADocument => Parsed(rs)
        case Extracted(rec) => Parsed(rs + [rec])
        case HeaderNotMapping => Raised
  }

  /** The records the first loop of the parser collects. */
  function Documents(entries: seq<(string, string)>, load: string -> Header): Outcome
  {
    Collect(entries, entry => Classify(entry, load))
  }

  /** The date of a record: none when the header has no `date` (to_datetime
      of None), otherwise what `toDatetime` makes of it, NaT and failures
      both being None. */
  function DateOf(props: map<string, Value>, toDatetime: Value -> Option<Timestamp>): Option<Timestamp>
  {
    var v := Get(props, "date", Null);
    if v.Null? then None else toDatetime(v)
  }

  /** The second loop: every record gets its date and nothing else changes. */
  function WithDates(rs: seq<Record>, toDatetime: Value -> Option<Timestamp>): (dated: seq<Record>)
    ensures |dated| == |rs|
    ensures forall i :: 0 <= i < |rs| ==>
              dated[i] == rs[i].(date := DateOf(rs[i].properties, toDatetime))
  {
    seq(|rs|, i requires 0 <= i < |rs| => rs[i].(date := DateOf(rs[i].properties, toDatetime)))
  }

  function Dated(out: Outcome, toDatetime: Value -> Option<Timestamp>): Outcome
  {
    match out
    case Raised => Raised
    case Parsed(rs) => Parsed(WithDates(rs, toDatetime))
  }

  /** Once the loop has raised, later entries cannot undo it. */
  lemma {:induction false} RaisedIsFinal(entries: seq<(string, string)>, classify: ((string, string)) -> Extraction, n: nat)
    requires n <= |entries| && Collect(entries[..n], classify) == Raised
    ensures Collect(entries, classify) == Raised
    decreases |entries| - n
  {
    if n == |entries| {
      assert entries[..n] == entries;
    } else {
      var init := entries[..|entries| - 1];
      assert init[..n] == entries[..n];
      RaisedIsFinal(init, classify, n);
    }
  }

  /** parse_capacities_export_zip over the archive's entries. */
  method ParseCapacitiesExport(entries: seq<(string, string)>, load: string -> Header,
                               toDatetime: Value -> Option<Timestamp>)
    returns (out: Outcome)
    ensures out == Dated(Documents(entries, load), toDatetime)
  {
    var data: seq<Record> := [];
    for k := 0 to |entries|
      invariant Documents(entries[..k], load) == Parsed(data)
    {
      assert entries[..k + 1][..k] == entries[..k];
      var (name, content) := entries[k];
      if EndsWith(name, ".md") {
        match ExtractRecord(name, content, load)
        case NotADocument =>
        case Extracted(rec) =>
          data := data + [rec];
        case HeaderNotMapping =>
          RaisedIsFinal(entries, entry => Classify(entry, load), k + 1);
          return Raised;
      } else {
        assert Classify(entries[k], load) == NotADocument;
      }
    }
    assert entries[..|entries|] == entries;

    // Add the date of every entry.
    ghost var records := data;
    for k := 0 to |data|
      invariant |data| == |records|
      invariant forall i :: 0 <= i < k ==>
                  data[i] == records[i].(date := DateOf(records[i].properties, toDatetime))
      invariant forall i :: k <= i < |data| ==> data[i] == records[i]
    {
      data := data[k := data[k].(date := DateOf(data[k].properties, toDatetime))];
    }
    out := Parsed(data);
  }

  lemma {:induction false} CollectRaisedIff(entries: seq<(string, string)>, classify: ((string, string)) -> Extraction)
    ensures Collect(entries, classify) == Raised <==>
              exists i :: 0 <= i < |entries| && classify(entries[i]).HeaderNotMapping?
    decreases |entries|
  {
    if entries != [] {
      var last := |entries| - 1;
      var init := entries[..last];
      CollectRaisedIff(init, classify);
      if Collect(init, classify) == Raised {
        var i :| 0 <= i < |init| && classify(init[i]).HeaderNotMapping?;
        assert entries[i] == init[i];
      } else if Collect(entries, classify) != Raised {
        forall i | 0 <= i < |entries|
          ensures !classify(entries[i]).HeaderNotMapping?
        {
          if i < last {
            assert entries[i] == init[i];
          }
        }
      }
    }
  }

  /** The parser raises exactly when some `.md` document splits into three
      parts and its header loads as something other than a mapping. */
  lemma RaisedIffHeaderNotMapping(entries: seq<(string, string)>, load: string -> Header)
    ensures Documents(entries, load) == Raised <==>
              exists i :: 0 <= i < |entries| && Classify(entries[i], load).HeaderNotMapping?
  {
    CollectRaisedIff(entries, entry => Classify(entry, load));
  }

  lemma {:induction false} CollectRecords(entries: seq<(string, string)>, classify: ((string, string)) -> Extraction)
    requires Collect(entries, classify).Parsed?
    ensures |Collect(entries, classify).records| <= |entries|
    ensures forall r :: r in Collect(entries, classify).records ==>
              exists i :: 0 <= i < |entries| && classify(entries[i]) == Extracted(r)
    ensures forall i :: 0 <= i < |entries| && classify(entries[i]).Extracted? ==>
              classify(entries[i]).record in Collect(entries, classify).records
    decreases |entries|
  {
    if entries != [] {
      var last := |entries| - 1;
      var init := entries[..last];
      CollectRecords(init, classify);
      var rs0 := Collect(init, classify).records;
      var rs := Collect(entries, classify).records;
      var e := classify(entries[last]);
      assert e.Extracted? ==> rs == rs0 + [e.record];
      assert !e.Extracted? ==> rs == rs0;
      forall r | r in rs
        ensures exists i :: 0 <= i < |entries| && classify(entries[i]) == Extracted(r)
      {
        if r in rs0 {
          var i :| 0 <= i < |init| && classify(init[i]) == Extracted(r);
          assert entries[i] == init[i];
        } else {
          assert e == Extracted(r);
        }
      }
      forall i | 0 <= i < last && classify(entries[i]).Extracted?
        ensures classify(entries[i]).record in rs
      {
        assert entries[i] == init[i];
      }
    }
  }

  /** Without an exception, the records are exactly those of the `.md`
      documents that split into three parts: each comes from such an entry,
      and each such entry gives one. */
  lemma RecordsAreTheDocuments(entries: seq<(string, string)>, load: string -> Header)
    requires Documents(entries, load).Parsed?
    ensures |Documents(entries, load).records| <= |entries|
    ensures forall r :: r in Documents(entries, load).records ==>
              exists i :: 0 <= i < |entries| && Classify(entries[i], load) == Extracted(r)
    ensures forall i :: 0 <= i < |entries| && Classify(entries[i], load).Extracted? ==>
              Classify(entries[i], load).record in Documents(entries, load).records
  {
    CollectRecords(entries, entry => Classify(entry, load));
  }

  /** Entry names are matched case-sensitively: an upper-case `.MD` entry is
      never read. */
  lemma UpperCaseExtensionIsSkipped(entries: seq<(string, string)>, name: string, content: string,
                                    load: string -> Header)
    requires EndsWith(name, ".MD")
    ensures Documents(entries + [(name, content)], load) == Documents(entries, load)
  {
    var all := entries + [(name, content)];
    assert all[..|all| - 1] == entries;
    assert !EndsWith(name, ".md") by {
      assert name[|name| - 1] == 'D';
    }
  }

  /** A header without a `date` leaves the record undated, and the dating
      pass keeps every other field. */
  lemma DatingKeepsRecords(rs: seq<Record>, toDatetime: Value -> Option<Timestamp>, i: nat)
    requires i < |rs|
    ensures var d := WithDates(rs, toDatetime)[i];
            && d.(date := None) == rs[i].(date := None)
            && ("date" !in rs[i].properties ==> d.date.None?)
            && ("date" in rs[i].properties && rs[i].properties["date"].Null? ==> d.date.None?)
  {
  }

  // ---------------------------------------------------------------------
  // export_notes_to_markdown

  /** How an f-string shows a title: a string as itself, anything else as
      `show` (Python's str()) gives it. */
  function TitleText(title: Value, show: Value -> string): string
  {
    if title.Str? then title.s else show(title)
  }

  /** The Markdown block of one note. */
  function Block(title: string, content: string): (b: string)
    ensures |b| == |title| + |content| + 11
  {
    "# " + title + "\n\n" + content + "\n\n---\n\n"
  }

  function NoteBlock(note: Record, show: Value -> string): string
  {
    Block(TitleText(note.title, show), note.textContent)
  }

  /** "".join of the blocks of the notes, in the given order. */
  function Render(notes: seq<Record>, show: Value -> string): string
  {
    if notes == [] then ""
    else Render(notes[..|notes| - 1], show) + NoteBlock(notes[|notes| - 1], show)
  }

  /** "".join(parts). */
  function Join(parts: seq<string>): string
  {
    if parts == [] then "" else Join(parts[..|parts| - 1]) + parts[|parts| - 1]
  }

  /** The block loop and join of export_notes_to_markdown, over notes that
      are already in their final order. */
  method ExportNotesToMarkdown(notes: seq<Record>, show: Value -> string) returns (markdown: string)
    ensures markdown == Render(notes, show)
  {
    var markdownContent: seq<string> := [];
    for k := 0 to |notes|
      invariant |markdownContent| == k
      invariant Join(markdownContent) == Render(notes[..k], show)
    {
      assert notes[..k + 1][..k] == notes[..k];
      var title := TitleText(notes[k].title, show);
      var content := notes[k].textContent;
      var before := markdownContent;
      markdownContent := markdownContent + [Block(title, content)];
      assert markdownContent[..k] == before;
    }
    assert notes[..|notes|] == notes;
    markdown := Join(markdownContent);
  }

  /** Rendering is a homomorphism from concatenation of note lists to
      concatenation of texts. */
  lemma {:induction false} RenderAppend(a: seq<Record>, b: seq<Record>, show: Value -> string)
    ensures Render(a + b, show) == Render(a, show) + Render(b, show)
    decreases |b|
  {
    if b == [] {
      AppendEmpty(a);
      AppendEmpty(Render(a, show));
    } else {
      var init := b[..|b| - 1];
      RenderAppend(a, init, show);
      DropLast(a, b);
      AppendAssoc(Render(a, show), Render(init, show), NoteBlock(b[|b| - 1], show));
    }
  }

  /** Each note's block sits in the output right after the blocks of the
      notes before it. */
  lemma BlockOfEachNote(notes: seq<Record>, show: Value -> string, k: nat)
    requires k < |notes|
    ensures Render(notes, show) ==
              Render(notes[..k], show) + NoteBlock(notes[k], show) + Render(notes[k + 1..], show)
  {
    SplitAt(notes, k);
    SplitAt(notes, k + 1);
    assert Render(notes[..k + 1], show) == Render(notes[..k], show) + NoteBlock(notes[k], show);
    RenderAppend(notes[..k + 1], notes[k + 1..], show);
  }

  /** Sum of the title and text lengths of the notes. */
  function TextLength(notes: seq<Record>, show: Value -> string): nat
  {
    if notes == [] then 0
    else TextLength(notes[..|notes| - 1], show) + |TitleText(notes[|notes| - 1].title, show)| + |notes[|notes| - 1].textContent|
  }

  /** The output is the titles and texts plus eleven characters of framing per
      note: nothing is added or dropped. */
  lemma {:induction false} RenderLength(notes: seq<Record>, show: Value -> string)
    ensures |Render(notes, show)| == TextLength(notes, show) + 11 * |notes|
  {
    if notes != [] {
      RenderLength(notes[..|notes| - 1], show);
    }
  }
}
