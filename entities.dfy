/** The records of the notes backend: the Note and Project entities, the
    request payloads that carry notes, and the HTTP errors the handlers raise. */
module Entities {

  /** A value that may be absent; in the source, `undefined` (or `null`). */
  datatype Option<+T> = None | Some(value: T) {

    /** `this ?? default`: the value if present, otherwise the default. */
    function GetOr(default: T): T {
      match this
      case Some(v) => v
      case None => default
    }
  }

  /** JavaScript truthiness of an optional string: present and not empty. */
  predicate Truthy(s: Option<string>) {
    s.Some? && s.value != ""
  }

  /** A row of the notes table. `id` is assigned by the store on insert. */
  datatype Note = Note(id: int, title: string, content: string, projectId: int)

  /** A row of the projects table. */
  datatype Project = Project(id: int, name: string)

  /** The body of a create request: a note before the store assigns its id. */
  datatype NoteDraft = NoteDraft(title: string, content: string, projectId: int)

  /** The body of an update request: each field may be absent or null. */
  datatype NotePatch = NotePatch(title: Option<string>, content: Option<string>, projectId: Option<int>)

  /** An `HttpException` with its message; the kind is the HTTP status: 400, 404 and 409. */
  datatype HttpError = BadRequest(message: string) | NotFound(message: string) | Conflict(message: string)

  /** What a handler produces: a value, or the exception it throws. */
  datatype Result<+T> = Ok(value: T) | Err(error: HttpError)
}
