/**
 * The appointment handlers (healthQue-backend/controllers/appointmentController.js):
 * `list` scopes the query by the caller's role and normalises paging before
 * it reaches the appointments table; `create` books an appointment for the
 * signed-in patient with a doctor that exists.
 *
 * `req.user` (the access token's claims), `req.query` and `req.body` are
 * JavaScript values.  The table itself is not part of this module: a handler
 * either answers with an error or produces the call it makes on the table,
 * and the doctor lookup is the parameter `doctorExists`.
 */
module AppointmentController {
  import opened Wrappers
  import opened JsText
  import opened JsValue
  import RequireRole

  /** The arguments `listAppointments` is called with. */
  datatype ListCall = ListCall(tenantId: Value, doctorId: Option<Num>, patientId: Option<Num>, page: int, limit: int)

  datatype ListReply = ListRefused(code: int, error: string) | Listed(call: ListCall)

  /** The roles allowed to list appointments. */
  const ListRoles: seq<Value> := [Str("admin"), Str("doctor"), Str("patient")]

  /** `v ? Number(v) : undefined`. */
  function IdFilter(v: Value): (r: Option<Num>)
    ensures r.Some? <==> Truthy(v)
  {
    if Truthy(v) then Some(ToNumber(v)) else None
  }

  /** `let { page = 1 } = q`: the default applies only to a missing value. */
  function Defaulted(v: Value, d: int): Value {
    if v.Undefined? then Num(d) else v
  }

  /** list: 400 without a tenant, 403 for a role other than admin, doctor
      and patient; a doctor sees only their own appointments and a patient
      only theirs, whatever the query says; page and limit that are missing,
      zero or not numbers become 1 and 50.  The route's validators on page
      and limit are not consulted by this handler. */
  function List(user: Value, q: Value): (r: ListReply)
    ensures r == ListRefused(400, "Missing tenant context") <==> !Truthy(Get(user, "tenantId"))
    ensures r == ListRefused(403, "Forbidden") <==> Truthy(Get(user, "tenantId")) && Get(user, "role") !in ListRoles
    ensures r.ListRefused? || r.Listed?
    ensures r.Listed? ==> r.call.tenantId == Get(user, "tenantId") && r.call.page != 0 && r.call.limit != 0
  {
    var tenantId := Get(user, "tenantId");
    if !Truthy(tenantId) then ListRefused(400, "Missing tenant context")
    else
      var role := Get(user, "role");
      var userId := Get(user, "userId");
      if role !in ListRoles then ListRefused(403, "Forbidden")
      else
        var doctorId := if role == Str("doctor") then userId else Get(q, "doctorId");
        var patientId := if role == Str("doctor") then Get(q, "patientId")
                         else if role == Str("patient") then userId
                         else Get(q, "patientId");
        var p := NumberOr(Defaulted(Get(q, "page"), 1), 1);
        var l := NumberOr(Defaulted(Get(q, "limit"), 50), 50);
        Listed(ListCall(tenantId, IdFilter(doctorId), IdFilter(patientId), p, l))
  }

  /** The scoping by role: a doctor's query is pinned to their own id as
      doctor, a patient's to their own id as patient, and an admin's takes
      both filters from the query. */
  lemma ListScopesByRole(user: Value, q: Value)
    requires Truthy(Get(user, "tenantId"))
    ensures var r := List(user, q);
            var userId := Get(user, "userId");
            (Get(user, "role") == Str("doctor") ==>
               r.Listed? && r.call.doctorId == IdFilter(userId) && r.call.patientId == IdFilter(Get(q, "patientId")))
            && (Get(user, "role") == Str("patient") ==>
               r.Listed? && r.call.patientId == IdFilter(userId) && r.call.doctorId == IdFilter(Get(q, "doctorId")))
            && (Get(user, "role") == Str("admin") ==>
               r.Listed? && r.call.doctorId == IdFilter(Get(q, "doctorId")) && r.call.patientId == IdFilter(Get(q, "patientId")))
  {
  }

  /** What a doctor asks for as `doctorId`, and a patient as `patientId`,
      makes no difference to the call. */
  lemma ListIgnoresOwnIdInQuery(user: Value, q1: Value, q2: Value)
    requires Get(user, "role") == Str("doctor") ==> Get(q1, "patientId") == Get(q2, "patientId")
    requires Get(user, "role") == Str("patient") ==> Get(q1, "doctorId") == Get(q2, "doctorId")
    requires Get(user, "role") == Str("doctor") || Get(user, "role") == Str("patient")
    requires Get(q1, "page") == Get(q2, "page") && Get(q1, "limit") == Get(q2, "limit")
    ensures List(user, q1) == List(user, q2)
  {
  }

  /** Page and limit: missing, zero or not a number give 1 and 50; a
      number other than zero is kept as given. */
  lemma PagingDefaults(user: Value, q: Value)
    requires List(user, q).Listed?
    ensures var c := List(user, q).call;
            var pg, lm := Get(q, "page"), Get(q, "limit");
            (pg.Undefined? || ToNumber(pg) == NaN || ToNumber(pg) == Val(0) ==> c.page == 1)
            && (lm.Undefined? || ToNumber(lm) == NaN || ToNumber(lm) == Val(0) ==> c.limit == 50)
            && (ToNumber(pg).Val? && ToNumber(pg).v != 0 ==> c.page == ToNumber(pg).v)
            && (ToNumber(lm).Val? && ToNumber(lm).v != 0 ==> c.limit == ToNumber(lm).v)
  {
  }

  /** A query string that is not a number falls back as well. */
  lemma TextPageFallsBack(user: Value, q: Value)
    requires List(user, q).Listed? && Get(q, "page") == Str("abc") && Get(q, "limit") == Str("0")
    ensures List(user, q).call.page == 1 && List(user, q).call.limit == 50
  {
    TextNumbers();
    PagingDefaults(user, q);
  }

  lemma TextNumbers()
    ensures ToNumber(Str("abc")) == NaN && ToNumber(Str("0")) == Val(0)
  {
    TrimNoSpace("abc");
    TrimNoSpace("0");
    assert !AllDigits("abc") by { assert !IsDigit("abc"[0]); }
  }

  /** The arguments `createAppointment` is called with. */
  datatype CreateCall = CreateCall(tenantId: Value, patientId: Value, doctorId: Value, scheduledAt: Value, notes: Value)

  datatype CreateReply = CreateRefused(code: int, error: string) | Created(call: CreateCall)

  /** create: 400 when the body fails the route's checks (`valid` is false),
      when there is no tenant or no user id; 404 when the doctor does not
      exist; otherwise the appointment is booked for the signed-in user, with
      the doctor, time and notes from the body. */
  function Create(valid: bool, user: Value, body: Value, doctorExists: Value -> bool): (r: CreateReply)
    ensures r.Created? <==>
              valid && Truthy(Get(user, "tenantId")) && Truthy(Get(user, "userId")) && doctorExists(Get(body, "doctor_id"))
    ensures r == CreateRefused(404, "Doctor not found") <==>
              valid && Truthy(Get(user, "tenantId")) && Truthy(Get(user, "userId")) && !doctorExists(Get(body, "doctor_id"))
    ensures r.CreateRefused? ==> r.code == 400 || r.code == 404
    ensures r.Created? ==> r.call.patientId == Get(user, "userId") && r.call.tenantId == Get(user, "tenantId")
                           && r.call.doctorId == Get(body, "doctor_id")
  {
    if !valid then CreateRefused(400, "Invalid request")
    else
      var tenantId := Get(user, "tenantId");
      if !Truthy(tenantId) then CreateRefused(400, "Missing tenant context")
      else
        var patientId := Get(user, "userId");
        if !Truthy(patientId) then CreateRefused(400, "Missing patient context")
        else
          var doctorId := Get(body, "doctor_id");
          if !doctorExists(doctorId) then CreateRefused(404, "Doctor not found")
          else Created(CreateCall(tenantId, patientId, doctorId, Get(body, "scheduled_at"), Get(body, "notes")))
  }

  /** The patient comes from the token only: two bodies that differ only
      in anything but the doctor, time and notes (a `patient_id`, say) book
      the same appointment. */
  lemma CreateIgnoresBodyPatient(valid: bool, user: Value, b1: Value, b2: Value, doctorExists: Value -> bool)
    requires Get(b1, "doctor_id") == Get(b2, "doctor_id")
    requires Get(b1, "scheduled_at") == Get(b2, "scheduled_at") && Get(b1, "notes") == Get(b2, "notes")
    ensures Create(valid, user, b1, doctorExists) == Create(valid, user, b2, doctorExists)
  {
  }

  /** Booking through the route: the role guard `requireRole('patient')`
      runs first, so an appointment is only ever booked by a patient, for
      that patient. */
  lemma OnlyPatientsBook(valid: bool, user: Value, body: Value, doctorExists: Value -> bool)
    requires RequireRole.Check(Str("patient"), user) == RequireRole.Next
    requires Create(valid, user, body, doctorExists).Created?
    ensures Get(user, "role") == Str("patient")
    ensures Create(valid, user, body, doctorExists).call.patientId == Get(user, "userId")
  {
  }
}
