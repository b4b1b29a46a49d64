/** The request and response bodies of the task endpoints: the length bounds
    that `TaskCreate` and `TaskUpdate` enforce on their fields, and the field
    set of `TaskResponse`. Lengths are counted in characters (code points),
    titles are not trimmed. */
module TaskSchemas {
  import opened Wrappers
  import opened Text
  import TaskModel

  const TitleMinLength := 1
  const TitleMaxLength := 200
  const DescriptionMaxLength := 2000

  /** Body of `POST /api/tasks`: a required title and an optional description. */
  datatype TaskCreate = TaskCreate(title: string, description: Option<string>)

  /** Body of `PUT /api/tasks/{id}`: both fields optional. */
  datatype TaskUpdate = TaskUpdate(title: Option<string>, description: Option<string>)

  /** The fields a task response exposes; the owner's id is not among them. */
  datatype TaskResponse = TaskResponse(
    id: int,
    title: string,
    description: Option<string>,
    isCompleted: bool,
    createdAt: nat,
    updatedAt: nat)

  /** The length rule of a present title. */
  predicate TitleValid(title: string)
  {
    TitleMinLength <= |title| <= TitleMaxLength
  }

  /** The length rule of an optional description. */
  predicate DescriptionValid(description: Option<string>)
  {
    description.Some? ==> |description.value| <= DescriptionMaxLength
  }

  predicate TaskCreateValid(body: TaskCreate)
  {
    TitleValid(body.title) && DescriptionValid(body.description)
  }

  predicate TaskUpdateValid(body: TaskUpdate)
  {
    (body.title.Some? ==> TitleValid(body.title.value)) && DescriptionValid(body.description)
  }

  /** A field-level validation failure, one per violated constraint. */
  datatype FieldError =
    | TitleMissing
    | TitleTooShort
    | TitleTooLong
    | DescriptionTooLong

  /** `e` names a constraint that the given fields really violate. */
  predicate Violated(e: FieldError, title: Option<string>, description: Option<string>)
  {
    match e
    case TitleMissing => title.None?
    case TitleTooShort => title.Some? && |title.value| < TitleMinLength
    case TitleTooLong => title.Some? && |title.value| > TitleMaxLength
    case DescriptionTooLong => !DescriptionValid(description)
  }

  /** No error is reported twice. */
  predicate NoRepeats(errs: seq<FieldError>)
  {
    forall i, j :: 0 <= i < j < |errs| ==> errs[i] != errs[j]
  }

  /** The constraint violations of an optional description. */
  function DescriptionErrors(description: Option<string>): (errs: seq<FieldError>)
    ensures errs == [] <==> DescriptionValid(description)
    ensures errs == [] || errs == [DescriptionTooLong]
  {
    if description.Some? && |description.value| > DescriptionMaxLength then [DescriptionTooLong] else []
  }

  /** The constraint violations of a present title. */
  function TitleErrors(title: string): (errs: seq<FieldError>)
    ensures errs == [] <==> TitleValid(title)
    ensures errs == [] || errs == [TitleTooShort] || errs == [TitleTooLong]
    ensures errs == [TitleTooShort] <==> |title| < TitleMinLength
    ensures errs == [TitleTooLong] <==> |title| > TitleMaxLength
  {
    if |title| < TitleMinLength then [TitleTooShort]
    else if |title| > TitleMaxLength then [TitleTooLong]
    else []
  }

  /** Validation of a create body whose fields may be missing from the JSON:
      the title is required, every violated constraint is reported, and an
      accepted body keeps its fields exactly as sent. */
  function ParseTaskCreate(title: Option<string>, description: Option<string>)
    : (r: Result<TaskCreate, seq<FieldError>>)
    ensures r.Success? <==> title.Some? && TitleValid(title.value) && DescriptionValid(description)
    ensures r.Success? ==> r.value == TaskCreate(title.value, description) && TaskCreateValid(r.value)
    ensures r.Failure? ==> r.error != []
    ensures r.Failure? ==> (TitleMissing in r.error <==> title.None?)
    ensures r.Failure? && title.Some? ==> forall e :: e in TitleErrors(title.value) ==> e in r.error
    ensures r.Failure? ==> (DescriptionTooLong in r.error <==> !DescriptionValid(description))
    ensures r.Failure? ==> forall e :: e in r.error ==> Violated(e, title, description)
    ensures r.Failure? ==> NoRepeats(r.error)
  {
    var errs := (if title.None? then [TitleMissing] else TitleErrors(title.value))
                + DescriptionErrors(description);
    if errs == [] then Success(TaskCreate(title.value, description)) else Failure(errs)
  }

  /** Validation of an update body: absent fields are always acceptable. */
  function ParseTaskUpdate(title: Option<string>, description: Option<string>)
    : (r: Result<TaskUpdate, seq<FieldError>>)
    ensures r.Success? <==> TaskUpdateValid(TaskUpdate(title, description))
    ensures r.Success? ==> r.value == TaskUpdate(title, description)
    ensures r.Failure? ==> r.error != [] && TitleMissing !in r.error
    ensures r.Failure? && title.Some? ==> forall e :: e in TitleErrors(title.value) ==> e in r.error
    ensures r.Failure? ==> (DescriptionTooLong in r.error <==> !DescriptionValid(description))
    ensures r.Failure? ==> forall e :: e in r.error ==> Violated(e, title, description)
    ensures r.Failure? ==> NoRepeats(r.error)
  {
    var errs := (if title.None? then [] else TitleErrors(title.value))
                + DescriptionErrors(description);
    if errs == [] then Success(TaskUpdate(title, description)) else Failure(errs)
  }

  /** Titles are not trimmed: a whitespace-only title of an allowed length
      passes both schemas, although it is blank once stripped. */
  lemma BlankTitleAccepted(title: string)
    requires 1 <= |title| <= 200 && IsBlank(title)
    ensures ParseTaskCreate(Some(title), None) == Success(TaskCreate(title, None))
    ensures ParseTaskUpdate(Some(title), None).Success?
    ensures Strip(title) == []
  {
  }

  /** Every body accepted for creation is also acceptable as an update. */
  lemma CreateBodyIsUpdateBody(body: TaskCreate)
    requires TaskCreateValid(body)
    ensures TaskUpdateValid(TaskUpdate(Some(body.title), body.description))
  {
  }

  /** `TaskResponse.model_validate(task)`: copies every field except the owner. */
  function ToResponse(t: TaskModel.Task): (r: TaskResponse)
    ensures r.id == t.id && r.title == t.title && r.description == t.description
    ensures r.isCompleted == t.isCompleted && r.createdAt == t.createdAt && r.updatedAt == t.updatedAt
  {
    TaskResponse(t.id, t.title, t.description, t.isCompleted, t.createdAt, t.updatedAt)
  }

  /** A response reveals nothing about who owns the task: two tasks that
      differ only in their owner give the same response. */
  lemma ResponseHidesOwner(a: TaskModel.Task, b: TaskModel.Task)
    requires a.(userId := b.userId) == b
    ensures ToResponse(a) == ToResponse(b)
  {
  }
}
