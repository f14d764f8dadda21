/**
 The status-changing endpoints of the regulation service (main.py), each a
 pure function from the stored tables to a response and the new tables.
 HTTP transport, authentication, logging and the notification's message text
 are left out; how the communication service answers is a parameter. An
 `HTTPException` becomes an `HttpError` carrying its status code, and an error
 leaves the tables as they were unless the handler had already committed
 before failing.
 */
module Endpoints {
  import opened Wrappers
  import opened Models
  import opened Agent
  import opened Crud

  const BAD_REQUEST := 400
  const NOT_FOUND := 404
  /** An unhandled exception (or a response that fails validation) in the handler. */
  const SERVER_ERROR := 500

  /**
   How the communication service answers a patient notification. An
   unreachable service is caught and logged; a reply with an error status is
   not caught (communication_client.py:24-28), so the handler fails with 500
   after its writes were committed.
   */
  datatype Delivery = Delivered | Unreachable | Refused

  /** What a handler answers: the request as stored afterwards, or an error code. */
  datatype Response = Ok(solicitacao: Solicitacao) | HttpError(code: int)

  /** A handler's response together with the tables after it ran. */
  datatype Reply = Reply(response: Response, db: Db)

  /** Statuses that may only be set with a non-empty justification. */
  predicate NeedsJustificativa(status: string) {
    status == NEGADA || status == CANCELADA
  }

  /** Every request other than `id` is stored as before. */
  predicate OthersUnchanged(db: Db, db': Db, id: int) {
    && db'.solicitacoes.Keys == db.solicitacoes.Keys
    && forall k :: k in db.solicitacoes && k != id ==> db'.solicitacoes[k] == db.solicitacoes[k]
  }

  /** Request `id` keeps its patient, facility and procedure. */
  predicate SameIdentity(db: Db, db': Db, id: int)
    requires id in db.solicitacoes && id in db'.solicitacoes
  {
    && db'.solicitacoes[id].pacienteId == db.solicitacoes[id].pacienteId
    && db'.solicitacoes[id].unidadeSolicitanteCnes == db.solicitacoes[id].unidadeSolicitanteCnes
    && db'.solicitacoes[id].procedimentoId == db.solicitacoes[id].procedimentoId
  }

  /** Reference data and counters are untouched. */
  predicate ReferenceUnchanged(db: Db, db': Db) {
    && db'.unidades == db.unidades
    && db'.procedimentos == db.procedimentos
    && db'.nextSolicitacaoId == db.nextSolicitacaoId
  }

  /**
   PUT /solicitacoes/{id}/status. NEGADA and CANCELADA need a justification;
   ACEITA runs the agent and either books the best slot (AGENDADA) or parks
   the request (EM FILA); any other status is written as given. A booking is
   announced to the patient, and `delivery` is how that notification fares.
   */
  function UpdateStatusSolicitacao(db: Db, id: int, status: string, justificativa: Option<string>,
                                   today: int, distance: Distance, delivery: Delivery): (r: Reply)
    // validation comes first, before the request is looked up
    ensures NeedsJustificativa(status) && !Truthy(justificativa) ==>
      r == Reply(HttpError(BAD_REQUEST), db)
    ensures !(NeedsJustificativa(status) && !Truthy(justificativa)) && id !in db.solicitacoes ==>
      r == Reply(HttpError(NOT_FOUND), db)
    ensures r.response.HttpError? && r.response.code != SERVER_ERROR ==> r.db == db
    // the only 500: a refused notification after a booking was committed
    ensures r.response == HttpError(SERVER_ERROR) <==>
      && status == ACEITA && id in db.solicitacoes
      && FindBestSlot(db, db.solicitacoes[id], today, distance).Some?
      && delivery == Refused
    ensures !(NeedsJustificativa(status) && !Truthy(justificativa)) && id in db.solicitacoes ==>
      && id in r.db.solicitacoes
      && OthersUnchanged(db, r.db, id)
      && SameIdentity(db, r.db, id)
      && ReferenceUnchanged(db, r.db)
    ensures r.response.Ok? ==>
      && id in db.solicitacoes && id in r.db.solicitacoes
      && r.response.solicitacao == r.db.solicitacoes[id]
    ensures r.response.Ok? ==> r.response.solicitacao.status in {status, AGENDADA, EM_FILA}
    // ACEITA with a slot: booked, one new booking, one place taken
    ensures status == ACEITA && id in db.solicitacoes &&
            FindBestSlot(db, db.solicitacoes[id], today, distance).Some? ==>
      var k := FindBestSlot(db, db.solicitacoes[id], today, distance).value;
      && k < |db.ofertas|
      && (r.response.Ok? <==> delivery != Refused)
      && r.db.solicitacoes[id].status == AGENDADA
      && r.db.solicitacoes[id].justificativa == db.solicitacoes[id].justificativa
      && r.db.marcacoes.Keys == db.marcacoes.Keys + {db.nextMarcacaoId}
      && r.db.marcacoes[db.nextMarcacaoId] == NewMarcacao(id, db.ofertas[k].id)
      && (forall m :: m in db.marcacoes && m != db.nextMarcacaoId ==> r.db.marcacoes[m] == db.marcacoes[m])
      && |r.db.ofertas| == |db.ofertas|
      && r.db.ofertas[k].vagasDisponiveis == db.ofertas[k].vagasDisponiveis - 1
      && (forall i :: 0 <= i < |db.ofertas| && i != k ==> r.db.ofertas[i] == db.ofertas[i])
    // ACEITA without a slot: queued, nothing booked, no capacity touched
    ensures status == ACEITA && id in db.solicitacoes &&
            FindBestSlot(db, db.solicitacoes[id], today, distance).None? ==>
      && r.response.Ok?
      && r.db.solicitacoes[id].status == EM_FILA
      && r.db.solicitacoes[id].justificativa == justificativa
      && r.db.marcacoes == db.marcacoes && r.db.ofertas == db.ofertas
      && r.db.nextMarcacaoId == db.nextMarcacaoId
    // any other status: written verbatim, whatever the current status is
    ensures status != ACEITA && !(NeedsJustificativa(status) && !Truthy(justificativa)) &&
            id in db.solicitacoes ==>
      && r.response.Ok?
      && r.db.solicitacoes[id].status == status
      && r.db.solicitacoes[id].justificativa == justificativa
      && r.db.marcacoes == db.marcacoes && r.db.ofertas == db.ofertas
      && r.db.nextMarcacaoId == db.nextMarcacaoId
  {
    if NeedsJustificativa(status) && !Truthy(justificativa) then
      Reply(HttpError(BAD_REQUEST), db)
    else
      match GetSolicitacao(db, id)
      case None => Reply(HttpError(NOT_FOUND), db)
      case Some(s) =>
        var slot := if status == ACEITA then FindBestSlot(db, s, today, distance) else None;
        if slot.Some? then
          var w := CreateMarcacao(db, id, slot.value);
          if delivery == Refused then Reply(HttpError(SERVER_ERROR), w.db) else Reply(Ok(w.value), w.db)
        else
          var w := UpdateSolicitacaoStatus(db, id, if status == ACEITA then EM_FILA else status, justificativa);
          Reply(Ok(w.value.value), w.db)
  }

  /** POST /marcacoes/{id}/confirmar: the patient accepts the booking. */
  function ConfirmMarcacao(db: Db, mid: int): (r: Reply)
    ensures mid !in db.marcacoes ==> r == Reply(HttpError(NOT_FOUND), db)
    ensures mid in db.marcacoes ==>
      && r.db.marcacoes.Keys == db.marcacoes.Keys
      && r.db.marcacoes[mid] == db.marcacoes[mid].(statusConfirmacaoPaciente := CONFIRMADO)
      && (forall m :: m in db.marcacoes && m != mid ==> r.db.marcacoes[m] == db.marcacoes[m])
      && r.db.solicitacoes == db.solicitacoes && r.db.ofertas == db.ofertas
      && ReferenceUnchanged(db, r.db) && r.db.nextMarcacaoId == db.nextMarcacaoId
    ensures mid in db.marcacoes && db.marcacoes[mid].solicitacaoId in db.solicitacoes ==>
      r.response == Ok(db.solicitacoes[db.marcacoes[mid].solicitacaoId])
    // the write is committed before the missing request makes the response invalid
    ensures mid in db.marcacoes && db.marcacoes[mid].solicitacaoId !in db.solicitacoes ==>
      r.response == HttpError(SERVER_ERROR)
  {
    match GetMarcacao(db, mid)
    case None => Reply(HttpError(NOT_FOUND), db)
    case Some(m) =>
      var w := UpdateMarcacaoStatusPaciente(db, mid, CONFIRMADO);
      match GetSolicitacao(w.db, m.solicitacaoId)
      case None => Reply(HttpError(SERVER_ERROR), w.db)
      case Some(s) => Reply(Ok(s), w.db)
  }

  /**
   Shared shape of the deny and complete handlers: find the booking, then
   overwrite its request's status and justification.
   */
  function CloseBookedRequest(db: Db, mid: int, status: string, justificativa: Option<string>): (r: Reply)
    ensures mid !in db.marcacoes ==> r == Reply(HttpError(NOT_FOUND), db)
    ensures mid in db.marcacoes && db.marcacoes[mid].solicitacaoId !in db.solicitacoes ==>
      r == Reply(HttpError(SERVER_ERROR), db)
    ensures r.response.HttpError? ==> r.db == db
    ensures r.response.Ok? ==>
      && mid in db.marcacoes
      && var sid := db.marcacoes[mid].solicitacaoId;
      && sid in db.solicitacoes && sid in r.db.solicitacoes
      && r.response.solicitacao == r.db.solicitacoes[sid]
      && r.db.solicitacoes[sid].status == status
      && r.db.solicitacoes[sid].justificativa == justificativa
      && SameIdentity(db, r.db, sid)
      && OthersUnchanged(db, r.db, sid)
    ensures mid in db.marcacoes && db.marcacoes[mid].solicitacaoId in db.solicitacoes ==> r.response.Ok?
    ensures r.db.marcacoes == db.marcacoes && r.db.ofertas == db.ofertas
    ensures ReferenceUnchanged(db, r.db) && r.db.nextMarcacaoId == db.nextMarcacaoId
  {
    match GetMarcacao(db, mid)
    case None => Reply(HttpError(NOT_FOUND), db)
    case Some(m) =>
      if m.solicitacaoId !in db.solicitacoes then Reply(HttpError(SERVER_ERROR), db)
      else
        var w := UpdateSolicitacaoStatus(db, m.solicitacaoId, status, justificativa);
        Reply(Ok(w.value.value), w.db)
  }

  /**
   POST /marcacoes/{id}/negar: the patient declines. The request is cancelled
   with a fixed justification; the booking itself and the offer's capacity
   are left as they are.
   */
  function DenyMarcacao(db: Db, mid: int): (r: Reply)
    ensures mid !in db.marcacoes ==> r == Reply(HttpError(NOT_FOUND), db)
    ensures mid in db.marcacoes && db.marcacoes[mid].solicitacaoId !in db.solicitacoes ==>
      r == Reply(HttpError(SERVER_ERROR), db)
    ensures r.response.HttpError? ==> r.db == db
    ensures mid in db.marcacoes && db.marcacoes[mid].solicitacaoId in db.solicitacoes ==>
      var sid := db.marcacoes[mid].solicitacaoId;
      && r.response.Ok? && sid in r.db.solicitacoes
      && r.db.solicitacoes[sid].status == CANCELADA
      && r.db.solicitacoes[sid].justificativa == Some(RECUSADO_PELO_PACIENTE)
      && r.response.solicitacao == r.db.solicitacoes[sid]
      && SameIdentity(db, r.db, sid)
      && OthersUnchanged(db, r.db, sid)
    ensures r.db.marcacoes == db.marcacoes && r.db.ofertas == db.ofertas
    ensures ReferenceUnchanged(db, r.db) && r.db.nextMarcacaoId == db.nextMarcacaoId
  {
    CloseBookedRequest(db, mid, CANCELADA, Some(RECUSADO_PELO_PACIENTE))
  }

  /**
   POST /marcacoes/{id}/concluir: the procedure took place; the justification
   is cleared and the patient is asked for a review, with `delivery` as how
   that notification fares.
   */
  function CompleteMarcacao(db: Db, mid: int, delivery: Delivery): (r: Reply)
    ensures mid !in db.marcacoes ==> r == Reply(HttpError(NOT_FOUND), db)
    ensures mid in db.marcacoes && db.marcacoes[mid].solicitacaoId !in db.solicitacoes ==>
      r == Reply(HttpError(SERVER_ERROR), db)
    ensures mid in db.marcacoes && db.marcacoes[mid].solicitacaoId in db.solicitacoes ==>
      var sid := db.marcacoes[mid].solicitacaoId;
      && sid in r.db.solicitacoes
      && r.db.solicitacoes[sid].status == CONCLUIDA
      && r.db.solicitacoes[sid].justificativa == None
      && SameIdentity(db, r.db, sid)
      && OthersUnchanged(db, r.db, sid)
      // the write is committed before a refused notification fails the handler
      && (r.response.Ok? <==> delivery != Refused)
      && (r.response.Ok? ==> r.response.solicitacao == r.db.solicitacoes[sid])
      && (r.response.HttpError? ==> r.response.code == SERVER_ERROR)
    ensures r.db.marcacoes == db.marcacoes && r.db.ofertas == db.ofertas
    ensures ReferenceUnchanged(db, r.db) && r.db.nextMarcacaoId == db.nextMarcacaoId
  {
    var c := CloseBookedRequest(db, mid, CONCLUIDA, None);
    if c.response.Ok? && delivery == Refused then Reply(HttpError(SERVER_ERROR), c.db) else c
  }
}
