/**
 * app/utils/storage.ts: the browser store of mapping templates (one per PDF
 * file name) and of the history of filled forms, newest first and capped at
 * a hundred entries.
 *
 * The two lists the source keeps under `pdf_filler_mappings` and
 * `pdf_filler_history` are the two fields of a `MappingStore`. Clock
 * readings and generated ids are parameters, and `JSON.parse` of an
 * imported template is its parsed value, or `None` when the text does not
 * parse.
 */
module Storage {
  import opened Wrappers
  import opened Records

  datatype SavedMapping = SavedMapping(
    pdfFileName: string,
    pdfFields: seq<string>,
    mappings: Record,
    createdAt: string,
    lastUsed: string)

  datatype FilledFormHistory = FilledFormHistory(
    id: string,
    providerName: string,
    pdfFileName: string,
    filledAt: string,
    mappings: Record)

  /** How many history entries are kept. */
  const HistoryLimit: nat := 100

  // ---------------------------------------------------------------------------
  // The lists, as values

  /** `findIndex(t => t.pdfFileName === name)`: the first template with that name, or -1. */
  function FindIndex(templates: seq<SavedMapping>, name: string): (r: int)
    ensures -1 <= r < |templates|
    ensures r >= 0 ==> templates[r].pdfFileName == name
    ensures r >= 0 ==> forall k :: 0 <= k < r ==> templates[k].pdfFileName != name
    ensures r == -1 <==> forall k :: 0 <= k < |templates| ==> templates[k].pdfFileName != name
  {
    if templates == [] then -1
    else if templates[0].pdfFileName == name then 0
    else
      var r := FindIndex(templates[1..], name);
      if r < 0 then -1 else r + 1
  }

  /** `getMappingForPDF`: the mappings of the first template with that name, or `null`. */
  function MappingFor(templates: seq<SavedMapping>, name: string): (r: Option<Record>)
    ensures r.None? <==> forall k :: 0 <= k < |templates| ==> templates[k].pdfFileName != name
  {
    var index := FindIndex(templates, name);
    if index >= 0 then Some(templates[index].mappings) else None
  }

  /** No two templates share a file name. */
  predicate UniqueNames(templates: seq<SavedMapping>) {
    forall i, j :: 0 <= i < j < |templates| ==> templates[i].pdfFileName != templates[j].pdfFileName
  }

  /**
   * The template list after `saveMappingTemplate`. The source reads the clock
   * twice, once for `createdAt` and once for `lastUsed`; the readings are
   * `created` and `used`.
   */
  function SavedTemplates(templates: seq<SavedMapping>, pdfFileName: string, pdfFields: seq<string>,
                          mappings: Record, created: string, used: string): seq<SavedMapping>
  {
    var index := FindIndex(templates, pdfFileName);
    if index >= 0 then templates[index := templates[index].(mappings := mappings, lastUsed := used)]
    else templates + [SavedMapping(pdfFileName, pdfFields, mappings, created, used)]
  }

  /** The template list after importing `template`. */
  function ImportedTemplates(templates: seq<SavedMapping>, template: SavedMapping): seq<SavedMapping> {
    var index := FindIndex(templates, template.pdfFileName);
    if index >= 0 then templates[index := template] else templates + [template]
  }

  /** The history after `unshift(entry)` and `slice(0, 100)`. */
  function PrependedHistory(history: seq<FilledFormHistory>, entry: FilledFormHistory): seq<FilledFormHistory> {
    var longer := [entry] + history;
    if |longer| <= HistoryLimit then longer else longer[..HistoryLimit]
  }

  // ---------------------------------------------------------------------------
  // The store

  class MappingStore {
    var templates: seq<SavedMapping>
    var history: seq<FilledFormHistory>

    /** An empty store: nothing saved under either key. */
    constructor ()
      ensures templates == [] && history == []
    {
      templates := [];
      history := [];
    }

    /**
     * `saveMappingTemplate`: an existing template of that file name gets the
     * new mappings and `lastUsed`; otherwise a new template is appended.
     */
    method SaveMappingTemplate(pdfFileName: string, pdfFields: seq<string>, mappings: Record, created: string, used: string)
      modifies this
      ensures templates == SavedTemplates(old(templates), pdfFileName, pdfFields, mappings, created, used)
      ensures history == old(history)
    {
      var template := SavedMapping(pdfFileName, pdfFields, mappings, created, used);
      var index := FindIndex(templates, pdfFileName);
      if index >= 0 {
        templates := templates[index := templates[index].(mappings := mappings, lastUsed := template.lastUsed)];
      } else {
        templates := templates + [template];
      }
    }

    /** `getMappingForPDF`. */
    method GetMappingForPDF(pdfFileName: string) returns (r: Option<Record>)
      ensures r == MappingFor(templates, pdfFileName)
    {
      var index := FindIndex(templates, pdfFileName);
      if index >= 0 {
        r := Some(templates[index].mappings);
      } else {
        r := None;
      }
    }

    /** `saveToHistory`, with the generated id and the clock reading passed in. */
    method SaveToHistory(id: string, providerName: string, pdfFileName: string, filledAt: string, mappings: Record)
      modifies this
      ensures history == PrependedHistory(old(history), FilledFormHistory(id, providerName, pdfFileName, filledAt, mappings))
      ensures templates == old(templates)
    {
      var entry := FilledFormHistory(id, providerName, pdfFileName, filledAt, mappings);
      var longer := [entry] + history;
      if |longer| > HistoryLimit {
        longer := longer[..HistoryLimit];
      }
      history := longer;
    }

    /** `clearHistory`. */
    method ClearHistory()
      modifies this
      ensures history == [] && templates == old(templates)
    {
      history := [];
    }

    /**
     * `importMappings`, given what `JSON.parse` made of the text: a parsed
     * template replaces the first one of its name or is appended, and the
     * import succeeds; text that does not parse changes nothing and fails.
     */
    method ImportMappings(parsed: Option<SavedMapping>) returns (ok: bool)
      modifies this
      ensures ok <==> parsed.Some?
      ensures ok ==> templates == ImportedTemplates(old(templates), parsed.value)
      ensures !ok ==> templates == old(templates)
      ensures history == old(history)
    {
      match parsed {
        case None =>
          ok := false;
        case Some(template) =>
          var index := FindIndex(templates, template.pdfFileName);
          if index >= 0 {
            templates := templates[index := template];
          } else {
            templates := templates + [template];
          }
          ok := true;
      }
    }
  }

  // ---------------------------------------------------------------------------
  // What saving, importing and recording promise

  /** The first template with the name is the one `findIndex` finds. */
  lemma {:induction false} FindFirst(templates: seq<SavedMapping>, name: string, i: nat)
    requires i < |templates| && templates[i].pdfFileName == name
    requires forall k :: 0 <= k < i ==> templates[k].pdfFileName != name
    ensures FindIndex(templates, name) == i
  {
    if i > 0 {
      FindFirst(templates[1..], name, i - 1);
    }
  }

  /** Saving under a known name changes only the first such template's mappings and `lastUsed`. */
  lemma SaveExisting(templates: seq<SavedMapping>, pdfFileName: string, pdfFields: seq<string>, mappings: Record, created: string, used: string, i: nat)
    requires i < |templates| && templates[i].pdfFileName == pdfFileName
    requires forall k :: 0 <= k < i ==> templates[k].pdfFileName != pdfFileName
    ensures var saved := SavedTemplates(templates, pdfFileName, pdfFields, mappings, created, used);
      && |saved| == |templates|
      && saved[i] == SavedMapping(pdfFileName, templates[i].pdfFields, mappings, templates[i].createdAt, used)
      && forall k :: 0 <= k < |templates| && k != i ==> saved[k] == templates[k]
  {
    FindFirst(templates, pdfFileName, i);
  }

  /** Saving under a new name appends exactly one template, stamped with the two clock readings. */
  lemma SaveNew(templates: seq<SavedMapping>, pdfFileName: string, pdfFields: seq<string>, mappings: Record, created: string, used: string)
    requires forall k :: 0 <= k < |templates| ==> templates[k].pdfFileName != pdfFileName
    ensures SavedTemplates(templates, pdfFileName, pdfFields, mappings, created, used)
         == templates + [SavedMapping(pdfFileName, pdfFields, mappings, created, used)]
  {
  }

  /** After a save, the name's mappings are the saved ones, and every other name's are unchanged. */
  lemma MappingAfterSave(templates: seq<SavedMapping>, pdfFileName: string, pdfFields: seq<string>,
                         mappings: Record, created: string, used: string, other: string)
    ensures MappingFor(SavedTemplates(templates, pdfFileName, pdfFields, mappings, created, used), pdfFileName) == Some(mappings)
    ensures other != pdfFileName ==>
      MappingFor(SavedTemplates(templates, pdfFileName, pdfFields, mappings, created, used), other) == MappingFor(templates, other)
  {
    var saved := SavedTemplates(templates, pdfFileName, pdfFields, mappings, created, used);
    var index := FindIndex(templates, pdfFileName);
    if index < 0 {
      FindFirst(saved, pdfFileName, |templates|);
    } else {
      FindFirst(saved, pdfFileName, index);
    }
    if other != pdfFileName {
      var j := FindIndex(templates, other);
      assert forall k :: 0 <= k < |saved| ==>
        saved[k].pdfFileName == (if k < |templates| then templates[k].pdfFileName else pdfFileName);
      if j >= 0 {
        FindFirst(saved, other, j);
      }
    }
  }

  /** After an import, the template's name has the imported mappings, and every other name's are unchanged. */
  lemma MappingAfterImport(templates: seq<SavedMapping>, template: SavedMapping, other: string)
    ensures MappingFor(ImportedTemplates(templates, template), template.pdfFileName) == Some(template.mappings)
    ensures |ImportedTemplates(templates, template)| == |templates| + (if FindIndex(templates, template.pdfFileName) >= 0 then 0 else 1)
    ensures other != template.pdfFileName ==>
      MappingFor(ImportedTemplates(templates, template), other) == MappingFor(templates, other)
  {
    var imported := ImportedTemplates(templates, template);
    var index := FindIndex(templates, template.pdfFileName);
    if index < 0 {
      FindFirst(imported, template.pdfFileName, |templates|);
    } else {
      FindFirst(imported, template.pdfFileName, index);
    }
    if other != template.pdfFileName {
      OtherUnchanged(templates, imported, template.pdfFileName, other);
    }
  }

  /**
   * A list that keeps every name in place, changes only templates named
   * `name` and appends only such templates gives every other name the same mappings.
   */
  lemma OtherUnchanged(before: seq<SavedMapping>, after: seq<SavedMapping>, name: string, other: string)
    requires other != name && |before| <= |after|
    requires forall k :: 0 <= k < |before| ==> after[k].pdfFileName == before[k].pdfFileName
    requires forall k :: 0 <= k < |before| && before[k].pdfFileName != name ==> after[k] == before[k]
    requires forall k :: |before| <= k < |after| ==> after[k].pdfFileName == name
    ensures MappingFor(after, other) == MappingFor(before, other)
  {
    var j := FindIndex(before, other);
    if j >= 0 {
      FindFirst(after, other, j);
    }
  }

  /** The template appended when no name matches keeps the names unique. */
  lemma AppendUnique(templates: seq<SavedMapping>, template: SavedMapping)
    requires UniqueNames(templates)
    requires forall k :: 0 <= k < |templates| ==> templates[k].pdfFileName != template.pdfFileName
    ensures UniqueNames(templates + [template])
  {
  }

  /** Saving keeps the file names unique. */
  lemma SaveUnique(templates: seq<SavedMapping>, pdfFileName: string, pdfFields: seq<string>, mappings: Record, created: string, used: string)
    requires UniqueNames(templates)
    ensures UniqueNames(SavedTemplates(templates, pdfFileName, pdfFields, mappings, created, used))
  {
    if FindIndex(templates, pdfFileName) < 0 {
      AppendUnique(templates, SavedMapping(pdfFileName, pdfFields, mappings, created, used));
    }
  }

  /** Importing keeps the file names unique. */
  lemma ImportUnique(templates: seq<SavedMapping>, template: SavedMapping)
    requires UniqueNames(templates)
    ensures UniqueNames(ImportedTemplates(templates, template))
  {
    if FindIndex(templates, template.pdfFileName) < 0 {
      AppendUnique(templates, template);
    }
  }

  /** The new entry comes first, the old ones follow in order, and at most a hundred are kept. */
  lemma HistoryPrepend(history: seq<FilledFormHistory>, entry: FilledFormHistory)
    ensures var h := PrependedHistory(history, entry);
      && |h| == (if |history| + 1 <= HistoryLimit then |history| + 1 else HistoryLimit)
      && h[0] == entry
      && h[1..] == history[..|h| - 1]
  {
  }
}
