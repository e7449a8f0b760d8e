/** The notes controller: the HTTP layer in front of the notes service. Each
    handler turns the request's strings into the service's arguments and
    either throws BadRequest or makes one service call; the result here is
    that decision, with the call and its arguments. */
module NotesController {
  import opened Entities
  import opened JsNumbers

  /** The call a handler makes on the notes service, with its arguments. */
  datatype ServiceCall =
    | FindAllCall(projectId: int, cursor: Option<Num>, limit: Num, search: Option<string>)
    | CreateCall(note: NoteDraft, idempotencyKey: string)
    | UpdateCall(id: int, noteData: NotePatch)
    | DeleteCall(id: int)

  /** `String(v)` of a query value: a missing one converts to "undefined". */
  function QueryText(v: Option<string>): string {
    if v.Some? then v.value else "undefined"
  }

  /** The header that create requires; Node.js stores header names in lower case. */
  const IdempotencyKeyHeader: string := "idempotency-key"

  /** GET /notes?projectId&cursor&limit&search */
  function FindAll(projectId: Option<string>, cursor: Option<string>, limit: Option<string>, search: Option<string>): (r: Result<ServiceCall>)
    ensures r.Err? <==> ParseInt(QueryText(projectId)) == NaN
    ensures r.Err? ==> r.error == BadRequest("Invalid projectId")
    ensures r.Ok? ==> r.value.FindAllCall? && ParseInt(QueryText(projectId)) == Int(r.value.projectId)
    ensures r.Ok? && !Truthy(cursor) ==> r.value.cursor == None
    ensures r.Ok? && Truthy(cursor) ==> r.value.cursor == Some(ParseInt(cursor.value))
    ensures r.Ok? && !Truthy(limit) ==> r.value.limit == Int(10)
    ensures r.Ok? && Truthy(limit) ==> r.value.limit == ParseInt(limit.value)
    ensures r.Ok? ==> r.value.search == search
  {
    var parsedProjectId := ParseInt(QueryText(projectId));
    if parsedProjectId.NaN? then Err(BadRequest("Invalid projectId"))
    else
      var parsedCursor := if Truthy(cursor) then Some(ParseInt(cursor.value)) else None;
      var parsedLimit := if Truthy(limit) then ParseInt(limit.value) else Int(10);
      Ok(FindAllCall(parsedProjectId.value, parsedCursor, parsedLimit, search))
  }

  /** POST /notes, with the request body and the request headers. */
  function Create(note: NoteDraft, headers: map<string, string>): (r: Result<ServiceCall>)
    ensures r.Err? <==> IdempotencyKeyHeader !in headers || headers[IdempotencyKeyHeader] == ""
    ensures r.Err? ==> r.error == BadRequest("Idempotency-Key header required")
    ensures r.Ok? ==> r.value == CreateCall(note, headers[IdempotencyKeyHeader]) && r.value.idempotencyKey != ""
  {
    var idempotencyKey := if IdempotencyKeyHeader in headers then Some(headers[IdempotencyKeyHeader]) else None;
    if !Truthy(idempotencyKey) then Err(BadRequest("Idempotency-Key header required"))
    else Ok(CreateCall(note, idempotencyKey.value))
  }

  /** PUT /notes/:id, with the request body. */
  function Update(id: string, note: NotePatch): (r: Result<ServiceCall>)
    ensures r.Err? <==> ParseInt(id) == NaN
    ensures r.Err? ==> r.error == BadRequest("Invalid note ID")
    ensures r.Ok? ==> r.value.UpdateCall? && ParseInt(id) == Int(r.value.id) && r.value.noteData == note
  {
    var parsedId := ParseInt(id);
    if parsedId.NaN? then Err(BadRequest("Invalid note ID"))
    else Ok(UpdateCall(parsedId.value, note))
  }

  /** DELETE /notes/:id */
  function Delete(id: string): (r: Result<ServiceCall>)
    ensures r.Err? <==> ParseInt(id) == NaN
    ensures r.Err? ==> r.error == BadRequest("Invalid note ID")
    ensures r.Ok? ==> r.value.DeleteCall? && ParseInt(id) == Int(r.value.id)
  {
    var parsedId := ParseInt(id);
    if parsedId.NaN? then Err(BadRequest("Invalid note ID"))
    else Ok(DeleteCall(parsedId.value))
  }

  /** A projectId that starts, after white space and a sign, with digits is
      accepted with the value of those digits, whatever follows them. */
  lemma FindAllAcceptsNumeralPrefix(w: string, sign: string, d: string, rest: string,
                                    cursor: Option<string>, limit: Option<string>, search: Option<string>)
    requires AllWhiteSpace(w)
    requires sign == "" || sign == "+" || sign == "-"
    requires d != [] && AllDigits(d)
    requires rest == [] || !IsDigit(rest[0])
    ensures var r := FindAll(Some(w + sign + d + rest), cursor, limit, search);
            r.Ok? && r.value.projectId == if sign == "-" then -(DigitsValue(d) as int) else DigitsValue(d)
  {
    ParseIntOfNumeral(w, sign, d, rest);
  }

  /** A projectId with no digit after the white space and the sign, or no
      projectId at all, is a BadRequest and no service call. */
  lemma FindAllRejectsNonNumeral(w: string, sign: string, rest: string,
                                 cursor: Option<string>, limit: Option<string>, search: Option<string>)
    requires AllWhiteSpace(w)
    requires sign == "" || sign == "+" || sign == "-"
    requires rest == [] || !IsDigit(rest[0])
    requires sign == "" && rest != [] ==> !IsWhiteSpace(rest[0]) && rest[0] != '+' && rest[0] != '-'
    ensures FindAll(Some(w + sign + rest), cursor, limit, search) == Err(BadRequest("Invalid projectId"))
    ensures FindAll(None, cursor, limit, search) == Err(BadRequest("Invalid projectId"))
  {
    ParseIntOfNonNumeral(w, sign, rest);
    RejectedWhenNaN(Some(w + sign + rest), cursor, limit, search);
    ParseIntOfNonNumeral("", "", "undefined");
    assert "" + "" + "undefined" == QueryText(None);
    RejectedWhenNaN(None, cursor, limit, search);
  }

  lemma RejectedWhenNaN(projectId: Option<string>, cursor: Option<string>, limit: Option<string>, search: Option<string>)
    requires ParseInt(QueryText(projectId)) == NaN
    ensures FindAll(projectId, cursor, limit, search) == Err(BadRequest("Invalid projectId"))
  {
  }

  /** "12abc" is accepted as project 12; without cursor and limit, the
      service gets no cursor and the limit 10. */
  lemma FindAllExample()
    ensures FindAll(Some("12abc"), None, None, None) == Ok(FindAllCall(12, None, Int(10), None))
  {
    var d := "12";
    assert AllDigits(d);
    assert DigitsValue(d) == 12 by {
      assert d[..1] == "1";
    }
    assert "12abc" == "" + "" + d + "abc";
    FindAllAcceptsNumeralPrefix("", "", d, "abc", None, None, None);
  }

  /** A note id written in the path as its decimal text reaches the service
      unchanged, for update and for delete. */
  lemma PathIdRoundTrip(id: int, note: NotePatch)
    ensures Update(IntToString(id), note) == Ok(UpdateCall(id, note))
    ensures Delete(IntToString(id)) == Ok(DeleteCall(id))
  {
    ParseIntOfIntToString(id);
  }
}
