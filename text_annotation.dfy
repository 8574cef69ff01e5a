/** The NER routes of app/routes/text_annotation.py over an in-memory
    `ner_annotations` collection: one record per project, written by
    `annotate_ner` and read back by the label aggregation and the full-text
    listing. */
module TextAnnotation {
  import opened Wrappers
  import opened Errors
  import opened NerAnnotation

  type RecordId = nat
  type ProjectId = nat

  /** One document of the NER collection. `entities` is the "Entities" key
      every write sets; `lowerEntities` is the lower-case "entities" key that
      the update comparison reads and that no route of this module writes. */
  datatype NerRecord = NerRecord(
    text: string,
    entities: seq<Span>,
    project: ProjectId,
    lowerEntities: Option<seq<Span>>)

  /** A label as aggregated by `get_ner_labels`:
      (Entity, Label, Color, bColor, TextColor) with the read-side defaults. */
  type LabelEntry = (string, string, string, string, string)

  /** A span as listed by `get_ner_full_text`, defaults applied. */
  datatype LabelledSpan = LabelledSpan(
    entity: string,
    entityLabel: string,
    startPos: nat,
    endPos: nat,
    color: string,
    bColor: string,
    textColor: string)

  datatype FullTextEntry = FullTextEntry(
    id: RecordId,
    text: string,
    entities: seq<LabelledSpan>,
    project: ProjectId)

  /** `entity.get("Label", "UNKNOWN")` and `entity.get("bColor", "#ffffff")`
      applied to the five label fields of a stored span. The offsets are not
      part of the tuple, so spans that differ only in where they sit give one
      label entry. */
  function LabelEntryOf(s: Span): (e: LabelEntry)
    ensures e.0 == s.entity && e.2 == s.color && e.4 == s.textColor
    ensures e.1 == (if s.entityLabel.Some? then s.entityLabel.value else DefaultLabel)
    ensures e.3 == (if s.bColor.Some? then s.bColor.value else DefaultBColor)
  {
    (s.entity, s.entityLabel.GetOr(DefaultLabel), s.color, s.bColor.GetOr(DefaultBColor), s.textColor)
  }

  /** A stored span with the same read-side defaults, offsets kept. */
  function WithDefaults(s: Span): (l: LabelledSpan)
    ensures (l.entity, l.entityLabel, l.color, l.bColor, l.textColor) == LabelEntryOf(s)
    ensures l.startPos == s.startPos && l.endPos == s.endPos
  {
    LabelledSpan(s.entity, s.entityLabel.GetOr(DefaultLabel), s.startPos, s.endPos,
      s.color, s.bColor.GetOr(DefaultBColor), s.textColor)
  }

  /** At most one record per project. */
  ghost predicate OneRecordPerProject(records: map<RecordId, NerRecord>) {
    forall a, b :: a in records && b in records && a != b ==> records[a].project != records[b].project
  }

  ghost predicate IdsBelow(records: map<RecordId, NerRecord>, nextId: RecordId) {
    forall id :: id in records ==> id < nextId
  }

  /** The record of project `pid`, if any (`find_one({"Project": ...})`). */
  ghost function FindByProject(records: map<RecordId, NerRecord>, pid: ProjectId): (o: Option<RecordId>)
    ensures o.Some? ==> o.value in records && records[o.value].project == pid
    ensures o.None? ==> forall id :: id in records ==> records[id].project != pid
  {
    if exists id :: id in records && records[id].project == pid then
      Some(var id :| id in records && records[id].project == pid; id)
    else None
  }

  /** The label tuples of every span of every record of project `pid`. */
  ghost function ProjectLabels(records: map<RecordId, NerRecord>, pid: ProjectId): set<LabelEntry> {
    set id, k | id in records && records[id].project == pid && 0 <= k < |records[id].entities|
      :: LabelEntryOf(records[id].entities[k])
  }

  /** The full-text entry of one record: its entities in order, defaults applied. */
  ghost predicate IsFullTextOf(e: FullTextEntry, r: NerRecord) {
    e.text == r.text && e.project == r.project && |e.entities| == |r.entities|
    && forall k :: 0 <= k < |r.entities| ==> e.entities[k] == WithDefaults(r.entities[k])
  }

  datatype NerOutcome = NerOutcome(
    result: Result<seq<Span>, Error>,
    records: map<RecordId, NerRecord>,
    nextId: RecordId)

  /** `annotate_ner` as a transition of the NER collection. `entities == None`
      is the omitted "Entities" field, which the matcher cannot iterate. */
  ghost function AnnotateNerStep(
    records: map<RecordId, NerRecord>, nextId: RecordId,
    projects: map<string, ProjectId>, projectName: string,
    text: string, entities: Option<seq<EntityDef>>): NerOutcome
  {
    if projectName !in projects then NerOutcome(Failure(ProjectNotFound), records, nextId)
    else if entities.None? then NerOutcome(Failure(MissingEntities), records, nextId)
    else
      var pid := projects[projectName];
      var spans := Annotation(text, entities.value);
      match FindByProject(records, pid)
      case Some(id) =>
        if records[id].lowerEntities.GetOr([]) != spans then
          NerOutcome(Success(spans), records[id := records[id].(text := text, entities := spans, project := pid)], nextId)
        else NerOutcome(Success(spans), records, nextId)
      case None =>
        NerOutcome(Success(spans), records[nextId := NerRecord(text, spans, pid, None)], nextId + 1)
  }

  class NerStore {
    var records: map<RecordId, NerRecord>
    var nextId: RecordId

    ghost predicate Valid()
      reads this
    {
      IdsBelow(records, nextId) && OneRecordPerProject(records)
    }

    constructor ()
      ensures Valid() && records == map[]
    {
      records := map[];
      nextId := 0;
    }

    /** `annotate_ner`: run the matcher, then insert the project's record or
        overwrite it when the compared list differs; the spans are returned. */
    method AnnotateNer(
      projects: map<string, ProjectId>, projectName: string,
      text: string, entities: Option<seq<EntityDef>>)
      returns (r: Result<seq<Span>, Error>)
      requires Valid()
      modifies this
      ensures Valid()
      ensures NerOutcome(r, records, nextId)
        == AnnotateNerStep(old(records), old(nextId), projects, projectName, text, entities)
    {
      if projectName !in projects {
        return Failure(ProjectNotFound);
      }
      var pid := projects[projectName];
      if entities.None? {
        return Failure(MissingEntities);
      }
      var spans := Annotate(text, entities.value);
      AnnotateNerPreserves(records, nextId, projects, projectName, text, entities);
      if exists id :: id in records && records[id].project == pid {
        var id :| id in records && records[id].project == pid;
        assert FindByProject(records, pid) == Some(id);
        var existing := records[id].lowerEntities.GetOr([]);
        if existing != spans {
          records := records[id := records[id].(text := text, entities := spans, project := pid)];
        }
      } else {
        records := records[nextId := NerRecord(text, spans, pid, None)];
        nextId := nextId + 1;
      }
      r := Success(spans);
    }

    /** `find({"Project": ...}).to_list()`: the ids of the project's records, each once. */
    method ProjectRecords(pid: ProjectId) returns (ids: seq<RecordId>)
      ensures forall k :: 0 <= k < |ids| ==> ids[k] in records && records[ids[k]].project == pid
      ensures forall id :: id in records && records[id].project == pid ==> id in ids
      ensures forall k1, k2 :: 0 <= k1 < k2 < |ids| ==> ids[k1] != ids[k2]
    {
      var pending := set id | id in records && records[id].project == pid;
      ids := [];
      while pending != {}
        invariant pending <= records.Keys
        invariant forall id :: id in pending ==> records[id].project == pid
        invariant forall k :: 0 <= k < |ids| ==> ids[k] in records && records[ids[k]].project == pid && ids[k] !in pending
        invariant forall id :: id in records && records[id].project == pid ==> id in pending || id in ids
        invariant forall k1, k2 :: 0 <= k1 < k2 < |ids| ==> ids[k1] != ids[k2]
        decreases pending
      {
        var id :| id in pending;
        ids := ids + [id];
        pending := pending - {id};
      }
    }

    /** `get_ner_labels`: every label tuple of the project's spans, each once. */
    method Labels(projects: map<string, ProjectId>, projectName: string)
      returns (r: Result<seq<LabelEntry>, Error>)
      ensures projectName !in projects <==> r.Failure?
      ensures r.Failure? ==> r.error == ProjectNotFound
      ensures r.Success? ==> forall e :: e in r.value <==> e in ProjectLabels(records, projects[projectName])
      ensures r.Success? ==> forall k1, k2 :: 0 <= k1 < k2 < |r.value| ==> r.value[k1] != r.value[k2]
    {
      if projectName !in projects {
        return Failure(ProjectNotFound);
      }
      var pid := projects[projectName];
      var ids := ProjectRecords(pid);
      var unique: set<LabelEntry> := {};
      for i := 0 to |ids|
        invariant unique <= ProjectLabels(records, pid)
        invariant forall j, k :: 0 <= j < i && 0 <= k < |records[ids[j]].entities| ==>
          LabelEntryOf(records[ids[j]].entities[k]) in unique
      {
        var entities := records[ids[i]].entities;
        for n := 0 to |entities|
          invariant unique <= ProjectLabels(records, pid)
          invariant forall k :: 0 <= k < n ==> LabelEntryOf(entities[k]) in unique
          invariant forall j, k :: 0 <= j < i && 0 <= k < |records[ids[j]].entities| ==>
            LabelEntryOf(records[ids[j]].entities[k]) in unique
        {
          ProjectLabelAt(records, pid, ids[i], n);
          unique := unique + {LabelEntryOf(entities[n])};
        }
      }
      LabelsCovered(records, pid, ids, unique);
      var labels := Enumerate(unique);
      r := Success(labels);
    }

    /** `get_ner_full_text`: one entry per record of the project, its entities
        mapped in order; a project with no record is an error. */
    method FullText(projects: map<string, ProjectId>, projectName: string)
      returns (r: Result<seq<FullTextEntry>, Error>)
      ensures projectName !in projects ==> r == Failure(ProjectNotFound)
      ensures projectName in projects ==>
        (r == Failure(NoAnnotations) <==> forall id :: id in records ==> records[id].project != projects[projectName])
      ensures r.Failure? ==> r.error == ProjectNotFound || r.error == NoAnnotations
      ensures r.Success? ==> forall k :: 0 <= k < |r.value| ==>
        r.value[k].id in records && records[r.value[k].id].project == projects[projectName]
        && IsFullTextOf(r.value[k], records[r.value[k].id])
      ensures r.Success? ==> forall id :: id in records && records[id].project == projects[projectName] ==>
        exists k :: 0 <= k < |r.value| && r.value[k].id == id
      ensures r.Success? ==> forall k1, k2 :: 0 <= k1 < k2 < |r.value| ==> r.value[k1].id != r.value[k2].id
    {
      if projectName !in projects {
        return Failure(ProjectNotFound);
      }
      var pid := projects[projectName];
      var ids := ProjectRecords(pid);
      if ids == [] {
        return Failure(NoAnnotations);
      }
      var results: seq<FullTextEntry> := [];
      for i := 0 to |ids|
        invariant |results| == i
        invariant forall k :: 0 <= k < i ==> results[k].id == ids[k] && IsFullTextOf(results[k], records[ids[k]])
      {
        var stored := records[ids[i]].entities;
        var labels: seq<LabelledSpan> := [];
        for n := 0 to |stored|
          invariant |labels| == n
          invariant forall k :: 0 <= k < n ==> labels[k] == WithDefaults(stored[k])
        {
          labels := labels + [WithDefaults(stored[n])];
        }
        results := results + [FullTextEntry(ids[i], records[ids[i]].text, labels, records[ids[i]].project)];
      }
      assert ids[0] in records && records[ids[0]].project == pid;
      forall id | id in records && records[id].project == pid
        ensures exists k :: 0 <= k < |results| && results[k].id == id
      {
        var k :| 0 <= k < |ids| && ids[k] == id;
        assert results[k].id == id;
      }
      r := Success(results);
    }
  }

  /** The distinct elements of a set, in some order. */
  method Enumerate<T>(s: set<T>) returns (xs: seq<T>)
    ensures forall x :: x in xs <==> x in s
    ensures forall k1, k2 :: 0 <= k1 < k2 < |xs| ==> xs[k1] != xs[k2]
  {
    xs := [];
    var rest := s;
    while rest != {}
      invariant rest <= s
      invariant forall x :: x in xs <==> x in s && x !in rest
      invariant forall k1, k2 :: 0 <= k1 < k2 < |xs| ==> xs[k1] != xs[k2]
      decreases rest
    {
      var x :| x in rest;
      xs := xs + [x];
      rest := rest - {x};
    }
  }

  /** `annotate_ner` keeps one record per project and ids below the next id. */
  lemma AnnotateNerPreserves(
    records: map<RecordId, NerRecord>, nextId: RecordId,
    projects: map<string, ProjectId>, projectName: string,
    text: string, entities: Option<seq<EntityDef>>)
    requires IdsBelow(records, nextId) && OneRecordPerProject(records)
    ensures var o := AnnotateNerStep(records, nextId, projects, projectName, text, entities);
      IdsBelow(o.records, o.nextId) && OneRecordPerProject(o.records)
  {
  }

  /** The label of any span of any record of the project is a project label. */
  lemma ProjectLabelAt(records: map<RecordId, NerRecord>, pid: ProjectId, id: RecordId, k: nat)
    requires id in records && records[id].project == pid && k < |records[id].entities|
    ensures LabelEntryOf(records[id].entities[k]) in ProjectLabels(records, pid)
  {
  }

  /** Collecting the labels of every listed record collects every project label. */
  lemma LabelsCovered(records: map<RecordId, NerRecord>, pid: ProjectId, ids: seq<RecordId>, unique: set<LabelEntry>)
    requires forall k :: 0 <= k < |ids| ==> ids[k] in records
    requires forall id :: id in records && records[id].project == pid ==> id in ids
    requires forall j, k :: 0 <= j < |ids| && 0 <= k < |records[ids[j]].entities| ==>
      LabelEntryOf(records[ids[j]].entities[k]) in unique
    ensures ProjectLabels(records, pid) <= unique
  {
    forall e | e in ProjectLabels(records, pid)
      ensures e in unique
    {
      var id, k :| id in records && records[id].project == pid
        && 0 <= k < |records[id].entities| && LabelEntryOf(records[id].entities[k]) == e;
      var j :| 0 <= j < |ids| && ids[j] == id;
    }
  }

  /** Two records of the same project are the same record. */
  lemma RecordForProjectUnique(records: map<RecordId, NerRecord>, a: RecordId, b: RecordId)
    requires OneRecordPerProject(records)
    requires a in records && b in records && records[a].project == records[b].project
    ensures a == b
  {
  }

  /** An unknown project fails first, an omitted entity list next; a failed
      call writes nothing, and a successful one answers the matcher's spans. */
  lemma AnnotateNerErrors(
    records: map<RecordId, NerRecord>, nextId: RecordId,
    projects: map<string, ProjectId>, projectName: string,
    text: string, entities: Option<seq<EntityDef>>)
    ensures var o := AnnotateNerStep(records, nextId, projects, projectName, text, entities);
      (o.result == Failure(ProjectNotFound) <==> projectName !in projects)
      && (o.result == Failure(MissingEntities) <==> projectName in projects && entities.None?)
      && (o.result.Failure? ==> o.records == records && o.nextId == nextId)
      && (o.result.Success? ==> entities.Some? && o.result.value == Annotation(text, entities.value))
  {
  }

  /** The first call for a project inserts exactly one record holding the
      text, the spans and the project, under a fresh id. */
  lemma AnnotateNerFirst(
    records: map<RecordId, NerRecord>, nextId: RecordId,
    projects: map<string, ProjectId>, projectName: string,
    text: string, defs: seq<EntityDef>)
    requires IdsBelow(records, nextId)
    requires projectName in projects
    requires forall id :: id in records ==> records[id].project != projects[projectName]
    ensures var o := AnnotateNerStep(records, nextId, projects, projectName, text, Some(defs));
      nextId !in records && o.records.Keys == records.Keys + {nextId} && o.nextId == nextId + 1
      && o.records[nextId] == NerRecord(text, Annotation(text, defs), projects[projectName], None)
      && forall id :: id in records ==> o.records[id] == records[id]
  {
  }

  /** A later call never adds a record: it overwrites text and entities of the
      project's record exactly when the compared list differs from the new
      spans, and leaves every other record alone. */
  lemma AnnotateNerExisting(
    records: map<RecordId, NerRecord>, nextId: RecordId,
    projects: map<string, ProjectId>, projectName: string,
    text: string, defs: seq<EntityDef>, id: RecordId)
    requires OneRecordPerProject(records)
    requires projectName in projects && id in records && records[id].project == projects[projectName]
    ensures var o := AnnotateNerStep(records, nextId, projects, projectName, text, Some(defs));
      var spans := Annotation(text, defs);
      o.records.Keys == records.Keys && o.nextId == nextId
      && (forall other :: other in records && other != id ==> o.records[other] == records[other])
      && (records[id].lowerEntities.GetOr([]) != spans ==>
            o.records[id] == NerRecord(text, spans, records[id].project, records[id].lowerEntities))
      && (records[id].lowerEntities.GetOr([]) == spans ==> o.records == records)
  {
    var found := FindByProject(records, projects[projectName]);
    RecordForProjectUnique(records, found.value, id);
  }

  /** No record has the lower-case "entities" key. */
  ghost predicate NoLowerEntities(records: map<RecordId, NerRecord>) {
    forall id :: id in records ==> records[id].lowerEntities.None?
  }

  /** No call of `annotate_ner` adds the lower-case "entities" key. */
  lemma AnnotateNerKeepsNoLowerEntities(
    records: map<RecordId, NerRecord>, nextId: RecordId,
    projects: map<string, ProjectId>, projectName: string,
    text: string, entities: Option<seq<EntityDef>>)
    requires NoLowerEntities(records)
    ensures NoLowerEntities(AnnotateNerStep(records, nextId, projects, projectName, text, entities).records)
  {
  }

  /** With the comparison reading a key no write sets, the stored list always
      compares as []: a repeated call overwrites the record whenever it finds
      at least one span, and leaves the old text and spans in place when it
      finds none. */
  lemma AnnotateNerOverwritesIffSpans(
    records: map<RecordId, NerRecord>, nextId: RecordId,
    projects: map<string, ProjectId>, projectName: string,
    text: string, defs: seq<EntityDef>, id: RecordId)
    requires OneRecordPerProject(records) && NoLowerEntities(records)
    requires projectName in projects && id in records && records[id].project == projects[projectName]
    ensures var o := AnnotateNerStep(records, nextId, projects, projectName, text, Some(defs));
      var spans := Annotation(text, defs);
      (spans != [] ==> o.records == records[id := NerRecord(text, spans, projects[projectName], None)])
      && (spans == [] ==> o.records == records && o.records[id].text == records[id].text
                          && o.records[id].entities == records[id].entities)
  {
    AnnotateNerExisting(records, nextId, projects, projectName, text, defs, id);
  }

  /** After a successful call the project has a record that either holds the
      call's text and spans or compares equal to those spans. */
  lemma AnnotateNerSettles(
    records: map<RecordId, NerRecord>, nextId: RecordId,
    projects: map<string, ProjectId>, projectName: string,
    text: string, defs: seq<EntityDef>)
    returns (id: RecordId)
    requires IdsBelow(records, nextId) && OneRecordPerProject(records)
    requires projectName in projects
    ensures var o := AnnotateNerStep(records, nextId, projects, projectName, text, Some(defs));
      var spans := Annotation(text, defs);
      id in o.records && o.records[id].project == projects[projectName]
      && (o.records[id].lowerEntities.GetOr([]) == spans
          || o.records[id] == NerRecord(text, spans, projects[projectName], o.records[id].lowerEntities))
  {
    var pid := projects[projectName];
    if exists x :: x in records && records[x].project == pid {
      id :| id in records && records[id].project == pid;
      AnnotateNerExisting(records, nextId, projects, projectName, text, defs, id);
    } else {
      AnnotateNerFirst(records, nextId, projects, projectName, text, defs);
      id := nextId;
    }
  }

  /** Repeating a call with the same arguments answers the same spans and
      leaves the collection as the first call left it. */
  lemma AnnotateNerTwice(
    records: map<RecordId, NerRecord>, nextId: RecordId,
    projects: map<string, ProjectId>, projectName: string,
    text: string, entities: Option<seq<EntityDef>>)
    requires IdsBelow(records, nextId) && OneRecordPerProject(records)
    ensures var o1 := AnnotateNerStep(records, nextId, projects, projectName, text, entities);
      var o2 := AnnotateNerStep(o1.records, o1.nextId, projects, projectName, text, entities);
      o2 == o1
  {
    if projectName in projects && entities.Some? {
      var o1 := AnnotateNerStep(records, nextId, projects, projectName, text, entities);
      AnnotateNerPreserves(records, nextId, projects, projectName, text, entities);
      var id := AnnotateNerSettles(records, nextId, projects, projectName, text, entities.value);
      AnnotateNerExisting(o1.records, o1.nextId, projects, projectName, text, entities.value, id);
    }
  }

  /** A span the matcher stored carries the label tuple of the first
      definition of its entity string, defaults already applied. */
  lemma AnnotationLabel(text: string, defs: seq<EntityDef>, s: Span)
    requires s in Annotation(text, defs)
    ensures s.entityLabel.Some? && s.bColor.Some?
    ensures exists i :: (0 <= i < |defs| && s.entity !in Entities(defs[..i])
      && LabelEntryOf(s) == (defs[i].entity, LabelOf(defs[i]), defs[i].color, BColorOf(defs[i]), defs[i].textColor))
  {
    AnnotationSound(text, defs, s);
  }

  /** Two stored spans that differ only in bColor give two label entries. */
  lemma LabelsSeparateBColor(
    records: map<RecordId, NerRecord>, pid: ProjectId, id1: RecordId, k1: nat, id2: RecordId, k2: nat)
    requires id1 in records && records[id1].project == pid && k1 < |records[id1].entities|
    requires id2 in records && records[id2].project == pid && k2 < |records[id2].entities|
    requires var s1 := records[id1].entities[k1]; var s2 := records[id2].entities[k2];
      s1.entity == s2.entity && s1.entityLabel == s2.entityLabel && s1.color == s2.color
      && s1.textColor == s2.textColor && s1.bColor.Some? && s2.bColor.Some? && s1.bColor != s2.bColor
    ensures var e1 := LabelEntryOf(records[id1].entities[k1]); var e2 := LabelEntryOf(records[id2].entities[k2]);
      e1 != e2 && e1 in ProjectLabels(records, pid) && e2 in ProjectLabels(records, pid)
  {
  }
}
