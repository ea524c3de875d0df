/** How the parser's records feed the graph builder: each record becomes a
    row of the export table, and the graph's nodes are the base names of the
    archive's Markdown documents. */
module Pipeline {
  import opened Values
  import opened Strings
  import CapacitiesExport
  import ObjectGraph

  /** The table row of a parsed record. */
  function ToRow(rec: CapacitiesExport.Record): ObjectGraph.Row
  {
    ObjectGraph.Row(Str(rec.fileName), rec.title, rec.objectType, Dict(rec.properties), rec.textContent, rec.date)
  }

  function Rows(records: seq<CapacitiesExport.Record>): (rows: seq<ObjectGraph.Row>)
    ensures |rows| == |records|
    ensures forall i :: 0 <= i < |records| ==> rows[i] == ToRow(records[i])
  {
    seq(|records|, i requires 0 <= i < |records| => ToRow(records[i]))
  }

  /** The base names of the `.md` entries that the parser turns into
      records. */
  function DocumentNames(entries: seq<(string, string)>, load: string -> CapacitiesExport.Header): set<string>
  {
    set i | 0 <= i < |entries| && CapacitiesExport.Classify(entries[i], load).Extracted? :: PathName(entries[i].0)
  }

  /** The rows of the records have as names the records' non-empty file
      names. */
  lemma RowNamesAreFileNames(records: seq<CapacitiesExport.Record>, n: string)
    ensures n in ObjectGraph.Names(Rows(records)) <==>
              n != "" && exists j :: 0 <= j < |records| && records[j].fileName == n
  {
    var rows := Rows(records);
    ObjectGraph.NamesAreFileNames(rows, n);
    if n in ObjectGraph.Names(rows) {
      var j :| 0 <= j < |rows| && ObjectGraph.SourceName(rows[j]) == Some(n);
      assert records[j].fileName == n;
    }
    if n != "" && exists j :: 0 <= j < |records| && records[j].fileName == n {
      var j :| 0 <= j < |records| && records[j].fileName == n;
      assert ObjectGraph.SourceName(rows[j]) == Some(n);
    }
  }

  /** When the parser does not raise, the graph built from its records has
      one node per Markdown document, keyed by the document's base name. */
  lemma GraphNodesAreDocumentNames(entries: seq<(string, string)>, load: string -> CapacitiesExport.Header,
                                   toDatetime: Value -> Option<Timestamp>, normalize: bool, dumps: Value -> string)
    requires CapacitiesExport.Documents(entries, load).Parsed?
    ensures var records := CapacitiesExport.Dated(CapacitiesExport.Documents(entries, load), toDatetime).records;
            ObjectGraph.Nodes(Rows(records), normalize, dumps).Keys == DocumentNames(entries, load)
  {
    var records := CapacitiesExport.WithDates(CapacitiesExport.Documents(entries, load).records, toDatetime);
    ObjectGraph.NodeKeysAreNames(Rows(records), normalize, dumps);
    forall n ensures n in ObjectGraph.Names(Rows(records)) <==> n in DocumentNames(entries, load) {
      if n in ObjectGraph.Names(Rows(records)) {
        NamedRowIsDocument(entries, load, toDatetime, n);
      }
      if n in DocumentNames(entries, load) {
        DocumentIsNamedRow(entries, load, toDatetime, n);
      }
    }
  }

  /** A name among the rows comes from a Markdown document of the archive. */
  lemma NamedRowIsDocument(entries: seq<(string, string)>, load: string -> CapacitiesExport.Header,
                           toDatetime: Value -> Option<Timestamp>, n: string)
    requires CapacitiesExport.Documents(entries, load).Parsed?
    requires n in ObjectGraph.Names(Rows(CapacitiesExport.WithDates(CapacitiesExport.Documents(entries, load).records, toDatetime)))
    ensures n in DocumentNames(entries, load)
  {
    var found := CapacitiesExport.Documents(entries, load).records;
    var records := CapacitiesExport.WithDates(found, toDatetime);
    CapacitiesExport.RecordsAreTheDocuments(entries, load);
    RowNamesAreFileNames(records, n);
    var j :| 0 <= j < |records| && records[j].fileName == n;
    assert found[j] in found;
    var i :| 0 <= i < |entries| && CapacitiesExport.Classify(entries[i], load) == CapacitiesExport.Extracted(found[j]);
    CapacitiesExport.RecordFileName(entries[i], load);
  }

  /** Every Markdown document of the archive names one of the rows. */
  lemma DocumentIsNamedRow(entries: seq<(string, string)>, load: string -> CapacitiesExport.Header,
                           toDatetime: Value -> Option<Timestamp>, n: string)
    requires CapacitiesExport.Documents(entries, load).Parsed?
    requires n in DocumentNames(entries, load)
    ensures n in ObjectGraph.Names(Rows(CapacitiesExport.WithDates(CapacitiesExport.Documents(entries, load).records, toDatetime)))
  {
    var found := CapacitiesExport.Documents(entries, load).records;
    var records := CapacitiesExport.WithDates(found, toDatetime);
    CapacitiesExport.RecordsAreTheDocuments(entries, load);
    var i :| 0 <= i < |entries| && CapacitiesExport.Classify(entries[i], load).Extracted? && PathName(entries[i].0) == n;
    var rec := CapacitiesExport.Classify(entries[i], load).record;
    CapacitiesExport.RecordFileName(entries[i], load);
    assert rec.fileName == n && n != "";
    assert rec in found;
    var j :| 0 <= j < |found| && found[j] == rec;
    assert records[j].fileName == found[j].fileName;
    RowNamesAreFileNames(records, n);
  }
}
