/** The image routes of app/routes/images.py over an in-memory images
    collection: content-keyed upsert on upload, delete, get, and the listing
    of a project's images. */
module Images {
  import opened Wrappers
  import opened Errors
  import opened Models

  type ImageId = nat
  type ProjectId = nat

  const DefaultMimeType: string := "application/octet-stream"

  /** One document of the images collection. The three lists and `mimeType`
      are `None` only in a document that lacks those keys; uploads always
      write them. `content` is the decoded file content, the dedup key. */
  datatype ImageRecord = ImageRecord(
    projectId: ProjectId,
    filename: string,
    content: seq<byte>,
    rectangles: Option<seq<Rectangle>>,
    polygons: Option<seq<PointShape>>,
    segmentations: Option<seq<PointShape>>,
    mimeType: Option<string>)

  /** The response of `get_image`. `contentRef` stands for the content URL built from the id. */
  datatype ImageView = ImageView(
    filename: string,
    rectangles: seq<Rectangle>,
    polygons: seq<PointShape>,
    segmentations: seq<PointShape>,
    contentRef: ImageId)

  /** One element of the `get_project_images` response. */
  datatype ListedImage = ListedImage(
    id: ImageId,
    filename: string,
    rectangles: seq<Rectangle>,
    polygons: seq<PointShape>,
    segmentations: seq<PointShape>,
    src: seq<byte>,
    mimeType: string)

  /** `data.mime_type or "application/octet-stream"`: absent and empty both fall back. */
  function MimeTypeOr(m: Option<string>): (t: string)
    ensures m.Some? && m.value != "" ==> t == m.value
    ensures m.None? || m.value == "" ==> t == DefaultMimeType
  {
    if m.Some? && m.value != "" then m.value else DefaultMimeType
  }

  /** The record belongs to project `pid` and holds exactly `content`. */
  predicate HoldsContent(r: ImageRecord, pid: ProjectId, content: seq<byte>) {
    r.projectId == pid && r.content == content
  }

  /** At most one record per (project, content) pair. */
  ghost predicate OneRecordPerContent(images: map<ImageId, ImageRecord>) {
    forall a, b :: a in images && b in images && a != b ==>
      !HoldsContent(images[a], images[b].projectId, images[b].content)
  }

  /** Every id in use is below the next fresh id. */
  ghost predicate IdsBelow(images: map<ImageId, ImageRecord>, nextId: ImageId) {
    forall id :: id in images ==> id < nextId
  }

  /** The `find_one` on (content, project_id). */
  ghost function FindByContent(images: map<ImageId, ImageRecord>, pid: ProjectId, content: seq<byte>)
    : (o: Option<ImageId>)
    ensures o.Some? ==> o.value in images && HoldsContent(images[o.value], pid, content)
    ensures o.None? ==> forall id :: id in images ==> !HoldsContent(images[id], pid, content)
  {
    if exists id :: id in images && HoldsContent(images[id], pid, content) then
      Some(var id :| id in images && HoldsContent(images[id], pid, content); id)
    else None
  }

  /** The document a first upload inserts; an absent list is stored as []. */
  function NewRecord(pid: ProjectId, u: UploadData): ImageRecord {
    ImageRecord(pid, u.fileName, u.fileContent, Some(u.rectangles.GetOr([])),
      Some(u.polygons.GetOr([])), Some(u.segmentations.GetOr([])), Some(MimeTypeOr(u.mimeType)))
  }

  /** The `$set` of a repeated upload: the three lists and the mime type only. */
  function Reannotated(r: ImageRecord, u: UploadData): ImageRecord {
    r.(rectangles := Some(u.rectangles.GetOr([])), polygons := Some(u.polygons.GetOr([])),
       segmentations := Some(u.segmentations.GetOr([])), mimeType := Some(MimeTypeOr(u.mimeType)))
  }

  datatype UploadOutcome = UploadOutcome(
    result: Result<ImageId, Error>,
    images: map<ImageId, ImageRecord>,
    nextId: ImageId)

  /** `upload_image` as a transition of the images collection. */
  ghost function UploadStep(
    images: map<ImageId, ImageRecord>, nextId: ImageId,
    projects: map<string, ProjectId>, projectName: string, data: RawUpload): UploadOutcome
  {
    match ValidateUpload(data)
    case Failure(e) => UploadOutcome(Failure(InvalidAnnotation(e)), images, nextId)
    case Success(u) =>
      if projectName !in projects then UploadOutcome(Failure(ProjectNotFound), images, nextId)
      else
        var pid := projects[projectName];
        match FindByContent(images, pid, u.fileContent)
        case Some(id) => UploadOutcome(Success(id), images[id := Reannotated(images[id], u)], nextId)
        case None => UploadOutcome(Success(nextId), images[nextId := NewRecord(pid, u)], nextId + 1)
  }

  /** The `get_image` response of a record; a missing list reads as []. */
  function View(id: ImageId, r: ImageRecord): ImageView {
    ImageView(r.filename, r.rectangles.GetOr([]), r.polygons.GetOr([]), r.segmentations.GetOr([]), id)
  }

  /** One `get_project_images` element; a missing list reads as [], a missing mime type as the default. */
  function Listed(id: ImageId, r: ImageRecord): ListedImage {
    ListedImage(id, r.filename, r.rectangles.GetOr([]), r.polygons.GetOr([]),
      r.segmentations.GetOr([]), r.content, r.mimeType.GetOr(DefaultMimeType))
  }

  class ImageStore {
    var images: map<ImageId, ImageRecord>
    var nextId: ImageId

    ghost predicate Valid()
      reads this
    {
      IdsBelow(images, nextId) && OneRecordPerContent(images)
    }

    constructor ()
      ensures Valid() && images == map[]
    {
      images := map[];
      nextId := 0;
    }

    /** `upload_image`: validate, resolve the project, then update the record
        holding the same content in that project or insert a new one. */
    method Upload(projects: map<string, ProjectId>, projectName: string, data: RawUpload)
      returns (r: Result<ImageId, Error>)
      requires Valid()
      modifies this
      ensures Valid()
      ensures UploadOutcome(r, images, nextId) == UploadStep(old(images), old(nextId), projects, projectName, data)
    {
      var validated := ValidateUpload(data);
      if validated.Failure? {
        return Failure(InvalidAnnotation(validated.error));
      }
      if projectName !in projects {
        return Failure(ProjectNotFound);
      }
      var pid := projects[projectName];
      var u := validated.value;
      var rectangles := u.rectangles.GetOr([]);
      var polygons := u.polygons.GetOr([]);
      var segmentations := u.segmentations.GetOr([]);
      var mimeType := MimeTypeOr(u.mimeType);
      UploadStepPreserves(images, nextId, projects, projectName, data);
      if exists id :: id in images && HoldsContent(images[id], pid, u.fileContent) {
        var id :| id in images && HoldsContent(images[id], pid, u.fileContent);
        assert FindByContent(images, pid, u.fileContent) == Some(id);
        images := images[id := images[id].(rectangles := Some(rectangles), polygons := Some(polygons),
          segmentations := Some(segmentations), mimeType := Some(mimeType))];
        r := Success(id);
      } else {
        var id := nextId;
        images := images[id := ImageRecord(pid, u.fileName, u.fileContent, Some(rectangles),
          Some(polygons), Some(segmentations), Some(mimeType))];
        nextId := nextId + 1;
        r := Success(id);
      }
    }

    /** `delete_image`: removes exactly that record, or fails when there is none. */
    method Delete(id: ImageId) returns (r: Result<(), Error>)
      requires Valid()
      modifies this
      ensures Valid()
      ensures r.Success? <==> id in old(images)
      ensures r.Failure? ==> r.error == ImageNotFound
      ensures images == old(images) - {id} && nextId == old(nextId)
    {
      if id in images {
        images := images - {id};
        r := Success(());
      } else {
        r := Failure(ImageNotFound);
      }
    }

    /** `get_image`. */
    function Get(id: ImageId): (r: Result<ImageView, Error>)
      reads this
      ensures r.Success? <==> id in images
      ensures r.Failure? ==> r.error == ImageNotFound
      ensures r.Success? ==> r.value == View(id, images[id])
    {
      if id in images then Success(View(id, images[id])) else Failure(ImageNotFound)
    }

    /** `find({"project_id": ...})`: the ids of the project's images, each once. */
    method ProjectImages(pid: ProjectId) returns (ids: seq<ImageId>)
      ensures forall k :: 0 <= k < |ids| ==> ids[k] in images && images[ids[k]].projectId == pid
      ensures forall id :: id in images && images[id].projectId == pid ==> id in ids
      ensures forall k1, k2 :: 0 <= k1 < k2 < |ids| ==> ids[k1] != ids[k2]
    {
      var pending := set id | id in images && images[id].projectId == pid;
      ids := [];
      while pending != {}
        invariant pending <= images.Keys
        invariant forall id :: id in pending ==> images[id].projectId == pid
        invariant forall k :: 0 <= k < |ids| ==> ids[k] in images && images[ids[k]].projectId == pid && ids[k] !in pending
        invariant forall id :: id in images && images[id].projectId == pid ==> id in pending || id in ids
        invariant forall k1, k2 :: 0 <= k1 < k2 < |ids| ==> ids[k1] != ids[k2]
        decreases pending
      {
        var id :| id in pending;
        ids := ids + [id];
        pending := pending - {id};
      }
    }

    /** `get_project_images`: every record of the project, each exactly once. */
    method ListForProject(projects: map<string, ProjectId>, projectName: string)
      returns (r: Result<seq<ListedImage>, Error>)
      ensures projectName !in projects <==> r.Failure?
      ensures r.Failure? ==> r.error == ProjectNotFound
      ensures r.Success? ==> forall k :: 0 <= k < |r.value| ==>
        r.value[k].id in images && images[r.value[k].id].projectId == projects[projectName]
        && r.value[k] == Listed(r.value[k].id, images[r.value[k].id])
      ensures r.Success? ==> forall id :: id in images && images[id].projectId == projects[projectName] ==>
        exists k :: 0 <= k < |r.value| && r.value[k].id == id
      ensures r.Success? ==> forall k1, k2 :: 0 <= k1 < k2 < |r.value| ==> r.value[k1].id != r.value[k2].id
    {
      if projectName !in projects {
        return Failure(ProjectNotFound);
      }
      var pid := projects[projectName];
      var ids := ProjectImages(pid);
      var response: seq<ListedImage> := [];
      for i := 0 to |ids|
        invariant |response| == i
        invariant forall k :: 0 <= k < i ==> response[k] == Listed(ids[k], images[ids[k]])
      {
        response := response + [Listed(ids[i], images[ids[i]])];
      }
      forall id | id in images && images[id].projectId == pid
        ensures exists k :: 0 <= k < |response| && response[k].id == id
      {
        var k :| 0 <= k < |ids| && ids[k] == id;
        assert response[k].id == id;
      }
      r := Success(response);
    }
  }

  /** An upload keeps the ids below the next fresh id and one record per
      (project, content). */
  lemma UploadStepPreserves(
    images: map<ImageId, ImageRecord>, nextId: ImageId,
    projects: map<string, ProjectId>, projectName: string, data: RawUpload)
    requires IdsBelow(images, nextId) && OneRecordPerContent(images)
    ensures var o := UploadStep(images, nextId, projects, projectName, data);
      IdsBelow(o.images, o.nextId) && OneRecordPerContent(o.images)
  {
    var v := ValidateUpload(data);
    if v.Success? && projectName in projects {
      var pid := projects[projectName];
      match FindByContent(images, pid, v.value.fileContent)
      case Some(id) =>
        ReplaceKeepsOneRecord(images, id, Reannotated(images[id], v.value));
      case None =>
        InsertKeepsOneRecord(images, nextId, NewRecord(pid, v.value));
    }
  }

  /** Replacing a record by one with the same project and content keeps one
      record per content. */
  lemma ReplaceKeepsOneRecord(images: map<ImageId, ImageRecord>, id: ImageId, r: ImageRecord)
    requires OneRecordPerContent(images) && id in images
    requires r.projectId == images[id].projectId && r.content == images[id].content
    ensures OneRecordPerContent(images[id := r])
  {
  }

  /** Inserting a record whose content its project does not hold yet keeps
      one record per content. */
  lemma InsertKeepsOneRecord(images: map<ImageId, ImageRecord>, id: ImageId, r: ImageRecord)
    requires OneRecordPerContent(images) && id !in images
    requires forall other :: other in images ==> !HoldsContent(images[other], r.projectId, r.content)
    ensures OneRecordPerContent(images[id := r])
  {
  }

  /** Two records holding the same content in the same project are the same record. */
  lemma RecordForContentUnique(
    images: map<ImageId, ImageRecord>, a: ImageId, b: ImageId, pid: ProjectId, content: seq<byte>)
    requires OneRecordPerContent(images)
    requires a in images && HoldsContent(images[a], pid, content)
    requires b in images && HoldsContent(images[b], pid, content)
    ensures a == b
  {
  }

  /** Upload fails with InvalidAnnotation exactly when the payload does not
      validate, with ProjectNotFound exactly when it validates but the project
      is unknown, and a failed upload writes nothing. */
  lemma UploadErrors(
    images: map<ImageId, ImageRecord>, nextId: ImageId,
    projects: map<string, ProjectId>, projectName: string, data: RawUpload)
    ensures var o := UploadStep(images, nextId, projects, projectName, data);
      (o.result.Failure? && o.result.error.InvalidAnnotation? <==> ValidateUpload(data).Failure?)
      && (o.result == Failure(ProjectNotFound) <==> ValidateUpload(data).Success? && projectName !in projects)
      && (o.result.Failure? ==> o.images == images && o.nextId == nextId)
  {
  }

  /** Uploading content the project already holds answers that record's id,
      replaces only its lists and mime type, and leaves every other record,
      the set of ids and the next id alone. */
  lemma UploadExisting(
    images: map<ImageId, ImageRecord>, nextId: ImageId,
    projects: map<string, ProjectId>, projectName: string, data: RawUpload, id: ImageId)
    requires OneRecordPerContent(images)
    requires ValidateUpload(data).Success? && projectName in projects
    requires id in images && HoldsContent(images[id], projects[projectName], data.fileContent)
    ensures var o := UploadStep(images, nextId, projects, projectName, data);
      var u := ValidateUpload(data).value;
      o.result == Success(id) && o.nextId == nextId && o.images.Keys == images.Keys
      && o.images[id].projectId == images[id].projectId
      && o.images[id].filename == images[id].filename
      && o.images[id].content == images[id].content
      && o.images[id].rectangles == Some(u.rectangles.GetOr([]))
      && o.images[id].polygons == Some(u.polygons.GetOr([]))
      && o.images[id].segmentations == Some(u.segmentations.GetOr([]))
      && o.images[id].mimeType == Some(MimeTypeOr(u.mimeType))
      && forall other :: other in images && other != id ==> o.images[other] == images[other]
  {
    var found := FindByContent(images, projects[projectName], data.fileContent);
    RecordForContentUnique(images, found.value, id, projects[projectName], data.fileContent);
  }

  /** Uploading content the project does not hold inserts one record under a
      fresh id, holding the upload, and leaves every existing record alone. */
  lemma UploadNew(
    images: map<ImageId, ImageRecord>, nextId: ImageId,
    projects: map<string, ProjectId>, projectName: string, data: RawUpload)
    requires IdsBelow(images, nextId)
    requires ValidateUpload(data).Success? && projectName in projects
    requires forall id :: id in images ==> !HoldsContent(images[id], projects[projectName], data.fileContent)
    ensures var o := UploadStep(images, nextId, projects, projectName, data);
      var u := ValidateUpload(data).value;
      o.result == Success(nextId) && nextId !in images
      && o.images.Keys == images.Keys + {nextId} && o.nextId == nextId + 1
      && o.images[nextId].projectId == projects[projectName]
      && o.images[nextId].filename == data.fileName
      && o.images[nextId].content == data.fileContent
      && o.images[nextId].rectangles == Some(u.rectangles.GetOr([]))
      && o.images[nextId].polygons == Some(u.polygons.GetOr([]))
      && o.images[nextId].segmentations == Some(u.segmentations.GetOr([]))
      && o.images[nextId].mimeType == Some(MimeTypeOr(data.mimeType))
      && forall other :: other in images ==> o.images[other] == images[other]
  {
  }

  /** Uploading the same content to the same project twice yields the same id
      both times and leaves exactly one record for that content, carrying the
      second upload's lists. */
  lemma UploadTwice(
    images: map<ImageId, ImageRecord>, nextId: ImageId,
    projects: map<string, ProjectId>, projectName: string, first: RawUpload, second: RawUpload)
    requires IdsBelow(images, nextId) && OneRecordPerContent(images)
    requires ValidateUpload(first).Success? && ValidateUpload(second).Success? && projectName in projects
    requires first.fileContent == second.fileContent
    ensures var o1 := UploadStep(images, nextId, projects, projectName, first);
      var o2 := UploadStep(o1.images, o1.nextId, projects, projectName, second);
      var u := ValidateUpload(second).value;
      o1.result.Success? && o2.result == o1.result
      && o2.images[o1.result.value].rectangles == Some(u.rectangles.GetOr([]))
      && o2.images[o1.result.value].polygons == Some(u.polygons.GetOr([]))
      && o2.images[o1.result.value].segmentations == Some(u.segmentations.GetOr([]))
      && forall id :: id in o2.images && HoldsContent(o2.images[id], projects[projectName], first.fileContent)
           ==> id == o1.result.value
  {
    var pid := projects[projectName];
    var o1 := UploadStep(images, nextId, projects, projectName, first);
    UploadStepPreserves(images, nextId, projects, projectName, first);
    var id := o1.result.value;
    assert id in o1.images && HoldsContent(o1.images[id], pid, first.fileContent);
    UploadExisting(o1.images, o1.nextId, projects, projectName, second, id);
    var o2 := UploadStep(o1.images, o1.nextId, projects, projectName, second);
    UploadStepPreserves(o1.images, o1.nextId, projects, projectName, second);
    forall other | other in o2.images && HoldsContent(o2.images[other], pid, first.fileContent)
      ensures other == id
    {
      RecordForContentUnique(o2.images, other, id, pid, first.fileContent);
    }
  }

  /** After a successful upload, getting the answered id returns the uploaded
      file name's record with the uploaded lists (an omitted list reads as []). */
  lemma UploadThenView(
    images: map<ImageId, ImageRecord>, nextId: ImageId,
    projects: map<string, ProjectId>, projectName: string, data: RawUpload)
    requires OneRecordPerContent(images)
    ensures var o := UploadStep(images, nextId, projects, projectName, data);
      o.result.Success? ==>
        var u := ValidateUpload(data).value;
        var v := View(o.result.value, o.images[o.result.value]);
        o.result.value in o.images
        && v.rectangles == u.rectangles.GetOr([])
        && v.polygons == u.polygons.GetOr([])
        && v.segmentations == u.segmentations.GetOr([])
        && v.contentRef == o.result.value
  {
  }
}
