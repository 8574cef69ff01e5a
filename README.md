# DataScribe annotation engine in Dafny

This project models the annotation engine of the DataScribe backend, a
FastAPI/MongoDB service for annotating images and text inside named projects.
The engine has six parts:

- the entity matcher `NERAnnotation.annotate`, which turns caller-supplied
  entity definitions into de-duplicated spans over a text;
- the pydantic shape models (rectangle, polygon, segmentation) and the upload
  payload, with their validators and defaults;
- the image routes, which upsert images keyed by (project, content) and
  delete, get and list them;
- the NER routes, which keep one NER record per project, aggregate the
  distinct label tuples and list the records with their defaults;
- the keyword classifier `ClassificationAnnotation.classify`;
- `BaseAnnotation.preprocess` (`str.strip`) and the base `annotate`, which
  always raises.

Layout, one module per source file:

| file | module | models |
|---|---|---|
| `wrappers.dfy`, `errors.dfy` | `Wrappers`, `Errors` | `Option`/`Result` and the error kinds the routes raise |
| `chars.dfy` | `Chars` | ASCII case folding (`str.lower`) and whitespace (`str.isspace`) |
| `base_annotation.dfy` | `BaseAnnotation` | app/services/base_annotation.py |
| `ner_annotation.dfy` | `NerAnnotation` | app/services/ner_annotation.py, with the `EntitySchema` defaults of app/schemas.py |
| `models.dfy` | `Models` | app/models.py |
| `images.dfy` | `Images` | app/routes/images.py |
| `text_annotation.dfy` | `TextAnnotation` | the NER routes of app/routes/text_annotation.py |
| `classification.dfy` | `Classification` | app/services/classification_annotation.py |

The Python code mutates state, and the model keeps that shape:

- The matcher, the classifier's tally and the route loops are methods with
  loops. Each is proved equal to a specification function: `Annotation`,
  `Tallied`/`Classification`, `ProjectLabels` and `IsFullTextOf`.
- The two Mongo collections are classes, `Images.ImageStore` and
  `TextAnnotation.NerStore`. Each holds a `map` from record id to record, and
  each has a `Valid()` invariant:
  - one image per (project, content);
  - one NER record per project.
- Each state-changing method is tied to a ghost transition function,
  `UploadStep` or `AnnotateNerStep`. The lemmas about the routes are stated
  about those functions.
- A project lookup (`find_one({"name": ...})`) is modelled as a parameter
  `projects: map<string, ProjectId>`.
- In `upload_image`, payload validation comes before the project lookup.
  FastAPI parses and validates `UploadData`, nested shapes included, before
  the handler body runs. So an invalid payload is reported even for an
  unknown project.

Behaviour of the code worth knowing:

- **Empty entity string.** `re.finditer` on an escaped empty pattern matches,
  with zero width, at every offset `0..|text|`. So an empty entity string
  yields one span per offset (`NerAnnotation.EmptyEntityMatchesEverywhere`).
- **Shape `type`.** Each shape's `type` is a field with a default, which a
  caller may set to any string (app/models.py:14-44).
- **Segmentation message.** The segmentation validator rejects fewer than 3
  points, and its message says "at least 1 point".
- **Which NER list is compared.** `annotate_ner` reads the lower-case key
  "entities" from the stored record (app/routes/text_annotation.py:51). Every
  write uses "Entities". A record written by this code therefore always
  compares as `[]`.
  - A later call overwrites the record whenever the new spans are non-empty.
  - It keeps the old text and spans when the new spans are empty
    (`TextAnnotation.AnnotateNerOverwritesIffSpans`).
- **Fields of `get_image`.** `get_image` answers the file name, the three
  lists and a content URL, and nothing else (app/routes/images.py:89-95).

## Model

| member | source | states |
|---|---|---|
| BaseAnnotation.Preprocess | app/services/base_annotation.py:6-8 | the result is the input with a whitespace-only prefix and suffix removed, and it neither starts nor ends with whitespace |
| BaseAnnotation.StripUnique | app/services/base_annotation.py:8 | that characterisation of `strip` admits exactly one result |
| BaseAnnotation.PreprocessIdempotent | app/services/base_annotation.py:8 | stripping twice equals stripping once |
| BaseAnnotation.PreprocessTrimmedUnchanged | app/services/base_annotation.py:8 | text that neither starts nor ends with whitespace comes back unchanged |
| BaseAnnotation.PreprocessAllSpace | app/services/base_annotation.py:8 | all-whitespace text becomes the empty string |
| BaseAnnotation.PreprocessIsSlice | app/services/base_annotation.py:8 | the result is a contiguous slice of the input, so interior whitespace survives |
| BaseAnnotation.Annotate | app/services/base_annotation.py:2-4 | the base annotator always fails with NotImplemented |
| NerAnnotation.BColorOf | app/services/ner_annotation.py:23 | a span's bColor is the definition's when it is present and non-empty, otherwise "#ffffff" |
| NerAnnotation.DefSpans | app/services/ner_annotation.py:19-45 | one definition yields one span per match, in match order, each carrying the definition's entity string, label and colours |
| NerAnnotation.MatchesFromSound | app/services/ner_annotation.py:27-28 | every reported offset is an occurrence of the entity string, ignoring case |
| NerAnnotation.MatchesFromOrdered | app/services/ner_annotation.py:28 | the matches of one string ascend and do not overlap: each starts at or after the previous one's end |
| NerAnnotation.MatchesFromLeftmost | app/services/ner_annotation.py:28 | an occurrence that is not reported lies inside a reported match (leftmost, non-overlapping scan) |
| NerAnnotation.NoOccurrenceNoMatches | app/services/ner_annotation.py:28-30 | a string that never occurs yields no matches |
| NerAnnotation.EmptyEntityMatchesEverywhere | app/services/ner_annotation.py:27-28 | the empty string matches at every offset 0..\|text\| |
| NerAnnotation.Annotate | app/services/ner_annotation.py:10-48 | the nested loop with its seen-set returns the definitions' spans in discovery order, keeping a span exactly when its (entity, start, end) key has not been produced before |
| NerAnnotation.DedupKeys | app/services/ner_annotation.py:35-46 | de-duplication loses no key: the result has the same keys as all candidate spans |
| NerAnnotation.DedupKeysDistinct | app/services/ner_annotation.py:16-46 | de-duplication leaves no two spans with one key |
| NerAnnotation.AnnotationAppend | app/services/ner_annotation.py:19-46 | one more definition adds nothing when its entity string was already defined, and otherwise appends all its spans after the earlier ones |
| NerAnnotation.AnnotationOfFirstDefinitions | app/services/ner_annotation.py:35-36 | the result is the spans of each definition whose entity string appears there first, in definition order, so the first definition's label and colours win |
| NerAnnotation.AnnotationSound | app/services/ner_annotation.py:19-45 | every span is built from the first definition of its entity string and a real match of that string |
| NerAnnotation.AnnotationInText | app/services/ner_annotation.py:28-32 | every span satisfies start <= end <= \|text\| and covers the entity string up to case |
| NerAnnotation.AnnotationComplete | app/services/ner_annotation.py:28-46 | every match of every definition is represented by a span with its key, so different strings at the same offsets are all kept |
| NerAnnotation.AnnotationKeysDistinct | app/services/ner_annotation.py:16-46 | no two spans share an (entity, start, end) key |
| NerAnnotation.AnnotationSameEntityOrdered | app/services/ner_annotation.py:19-37 | spans of one entity string appear left to right without overlapping; the result is not re-sorted across strings |
| NerAnnotation.AnnotationNeverOccurring | app/services/ner_annotation.py:28-30 | a definition whose string never occurs leaves the result unchanged |
| Models.ValidateRectangle | app/models.py:37-47 | a rectangle validates exactly when every required field is present; there is no geometric check; every field of the result is the caller's value, with `type` defaulting to 'rectangle' |
| Models.ValidatePolygonPoints | app/models.py:17-21 | fewer than 3 points is rejected with "Polygon must have at least 3 points"; otherwise the points come back unchanged |
| Models.ValidateSegmentationPoints | app/models.py:31-35 | fewer than 3 points is rejected with "Segmentation must have at least 1 point"; otherwise the points come back unchanged |
| Models.ValidatePolygon | app/models.py:9-21 | a polygon validates exactly when its fields are present and it has at least 3 points; every field of the result, points included, is the caller's value, with `type` defaulting to 'polygon' |
| Models.ValidateSegmentation | app/models.py:23-35 | the same as a polygon, with the segmentation message and `type` defaulting to 'segmentation' |
| Models.ValidateAll | app/models.py:55-58 | a list validates exactly when every element does, keeping the order; a failure reports the error of some invalid element |
| Models.ValidateOptional | app/models.py:56-58 | an absent list stays absent; a present list is validated element by element |
| Models.ValidateUpload | app/models.py:55-62 | an accepted payload has every polygon and segmentation with at least 3 points, keeps the file fields and the absence of each list |
| Models.ValidateUploadAccepts | app/models.py:55-58 | a payload is accepted exactly when every element of every present list validates |
| Models.ValidateUploadElements | app/models.py:55-58 | an accepted payload holds the validated elements position by position |
| Models.RevalidatePolygon | app/routes/images.py:21 | rebuilding a validated polygon from its dict gives the same polygon back |
| Models.RevalidateSegmentation | app/routes/images.py:22 | rebuilding a validated segmentation from its dict gives the same segmentation back |
| Models.RevalidateRectangle | app/routes/images.py:20 | rebuilding a validated rectangle from its dict gives the same rectangle back |
| Images.MimeTypeOr | app/routes/images.py:41-56 | an absent or empty mime type is stored as "application/octet-stream" |
| Images.FindByContent | app/routes/images.py:28-31 | the lookup finds a record of that project with that content, or there is none |
| Images.ImageStore.Upload | app/routes/images.py:13-59 | the upload performs exactly the `UploadStep` transition and keeps one record per (project, content) |
| Images.UploadStepPreserves | app/routes/images.py:28-58 | an upload keeps ids below the next fresh id and at most one record per (project, content) |
| Images.UploadErrors | app/routes/images.py:14-22 | an invalid payload fails with InvalidAnnotation and an unknown project with ProjectNotFound; a failed upload writes nothing |
| Images.UploadExisting | app/routes/images.py:33-47 | re-uploading content the project holds answers that record's id and replaces only its three lists and mime type; filename, content, project and every other record are unchanged |
| Images.UploadNew | app/routes/images.py:48-59 | new content inserts exactly one record under a fresh id with the given file name, content, lists (absent as []) and mime type; every other record is unchanged |
| Images.UploadTwice | app/routes/images.py:28-47 | two uploads of the same content to one project answer the same id and leave one record, holding the second upload's lists |
| Images.UploadThenView | app/routes/images.py:85-95 | getting the id an upload answered returns that upload's lists |
| Images.ImageStore.Delete | app/routes/images.py:98-105 | delete removes exactly that record, or fails with ImageNotFound when there is none |
| Images.ImageStore.Get | app/routes/images.py:85-96 | get succeeds exactly for a stored id and answers its file name and lists (absent as []) |
| Images.ImageStore.ProjectImages | app/routes/images.py:68 | the query answers each image of the project exactly once |
| Images.ImageStore.ListForProject | app/routes/images.py:61-83 | the listing has exactly the project's images, each once, with lists defaulting to [] and the mime type to "application/octet-stream" |
| TextAnnotation.LabelEntryOf | app/routes/text_annotation.py:92 | a label tuple is (Entity, Label or "UNKNOWN", Color, bColor or "#ffffff", TextColor) |
| TextAnnotation.WithDefaults | app/routes/text_annotation.py:122-130 | a listed span has the same defaults and keeps its offsets |
| TextAnnotation.FindByProject | app/routes/text_annotation.py:39 | the lookup finds the project's record, or there is none |
| TextAnnotation.NerStore.AnnotateNer | app/routes/text_annotation.py:20-75 | the route performs exactly the `AnnotateNerStep` transition and keeps one record per project |
| TextAnnotation.AnnotateNerPreserves | app/routes/text_annotation.py:39-70 | a call keeps one record per project and ids below the next id |
| TextAnnotation.AnnotateNerErrors | app/routes/text_annotation.py:26-36 | an unknown project fails first and omitted entities next; a failure writes nothing; a success answers the matcher's spans |
| TextAnnotation.AnnotateNerFirst | app/routes/text_annotation.py:59-70 | the first call for a project inserts exactly one record {text, spans, project} under a fresh id |
| TextAnnotation.AnnotateNerExisting | app/routes/text_annotation.py:39-57 | a later call never adds a record; it overwrites text and spans exactly when the compared list differs from the new spans |
| TextAnnotation.AnnotateNerKeepsNoLowerEntities | app/routes/text_annotation.py:44-65 | no call writes the lower-case "entities" key |
| TextAnnotation.AnnotateNerOverwritesIffSpans | app/routes/text_annotation.py:46-52 | as written, a later call overwrites the record when it finds spans and keeps the old text and spans when it finds none |
| TextAnnotation.AnnotateNerSettles | app/routes/text_annotation.py:39-70 | after a call, the project's record holds the call's text and spans or compares equal to them |
| TextAnnotation.AnnotateNerTwice | app/routes/text_annotation.py:20-75 | repeating a call answers the same spans and leaves the collection as the first call left it |
| TextAnnotation.AnnotationLabel | app/services/ner_annotation.py:20-45 | a span the matcher produced carries the label tuple of the first definition of its entity string |
| TextAnnotation.NerStore.ProjectRecords | app/routes/text_annotation.py:86 | the query answers each record of the project exactly once |
| TextAnnotation.NerStore.Labels | app/routes/text_annotation.py:77-98 | the labels are exactly the label tuples of the project's spans, each once, in no particular order; an unknown project fails |
| TextAnnotation.ProjectLabelAt | app/routes/text_annotation.py:90-92 | every span of every record of the project contributes its label tuple |
| TextAnnotation.LabelsCovered | app/routes/text_annotation.py:89-95 | collecting over all the project's records collects every label tuple |
| TextAnnotation.Enumerate | app/routes/text_annotation.py:95 | converting the set to a list keeps every tuple exactly once |
| TextAnnotation.LabelsSeparateBColor | app/routes/text_annotation.py:92 | two spans that differ only in bColor give two label entries |
| TextAnnotation.NerStore.FullText | app/routes/text_annotation.py:104-139 | one entry per record of the project, each once, its spans mapped in order with the defaults; no record gives NoAnnotations; an unknown project gives ProjectNotFound |
| Classification.Count | app/services/classification_annotation.py:17-20 | a category's count is at most its number of keywords |
| Classification.Classify | app/services/classification_annotation.py:13-26 | `classify` returns exactly `Classification(text)`: the tally of the lower-cased text, normalised |
| Classification.Tally | app/services/classification_annotation.py:14-20 | the nested loop leaves every category's count at the number of its keywords occurring in the text |
| Classification.SumOfTally | app/services/classification_annotation.py:22 | summing the tally gives the total of the counts |
| Classification.CountPresenceOnly | app/services/classification_annotation.py:18-20 | a count depends only on which keywords occur, not on how often |
| Classification.CountExtremes | app/services/classification_annotation.py:17-20 | all keywords present gives the number of keywords; none present gives 0 |
| Classification.CountAtMostSum | app/services/classification_annotation.py:17-22 | each category's count is at most the total |
| Classification.ClassifyUnknown | app/services/classification_annotation.py:22-24 | the answer is {"unknown": 1.0} exactly when no keyword occurs |
| Classification.ScoresInUnitInterval | app/services/classification_annotation.py:26 | otherwise the answer has exactly the three category keys, zero counts included, with every score in [0, 1] |
| Classification.NormaliseInUnitInterval | app/services/classification_annotation.py:26 | counts that do not exceed a positive total normalise into [0, 1] with the same keys |
| Classification.ScoresSumToOne | app/services/classification_annotation.py:22-26 | otherwise the scores sum to 1 |

## Left out

- The MongoDB collections, the Motor client and async/await. The collections
  are in-memory maps in the two store classes, and their methods run one
  after another, so the duplicate-create race between concurrent uploads of
  the same content is not modelled.
- Images.ImageStore.Upload: the 404 raised when the update matches no
  document (app/routes/images.py:45-46) cannot happen in a sequential model,
  where the record was found just before the update.
- HTTP status codes. Errors are kinds of `Errors.Error`; the catch-alls that
  turn them into 400 or 500 responses are not modelled.
- Base64 decoding and re-encoding of the file content. The dedup key is the
  decoded byte sequence itself.
- The image metadata (`image`: width, height and multipliers), which the
  routes never store.
- `spacy.load` in the matcher's constructor, which `annotate` never uses.
- The sentiment service (a TextBlob call with float polarity), the projects
  CRUD routes, app/main.py, the root main.py prototype and the commented-out
  classifier block.
- Unicode case folding and whitespace. `str.lower`, `re.IGNORECASE` and
  `str.strip` are modelled for ASCII only (`Chars.Fold`, `Chars.IsSpace`).
- Floating point. Classifier scores, coordinates and class ids are exact
  `real`s.
- Field-name mismatches that would crash at run time. The service reads
  `.entity`, `.label` and so on, while the schema declares `Entity`, `Label`
  and so on; the routes read keys the service does not write. One abstract
  span record is modelled instead.
- An explicit JSON `null` Label is not distinguished from an omitted one.
  Both read as "UNKNOWN".
- The unused `text_with_newlines` (app/routes/text_annotation.py:33).
- Models.ValidateUpload: reports the first failing list's error rather than
  pydantic's full error list. A field of the wrong type is modelled as that
  field being absent.
- TextAnnotation.NerStore.AnnotateNer: omitted entities, which make the
  matcher raise while iterating `None`, are modelled as the MissingEntities
  error.
- Record ids are natural numbers drawn from a counter, not ObjectIds. An id
  string that is not a valid ObjectId is not modelled.
