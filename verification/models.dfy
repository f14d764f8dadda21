/**
 Record shapes of the regulation service's tables (models.py) and the
 storage state the engine works on.

 Requests ("solicitações") and bookings ("marcações") are kept as maps from
 their primary key to the record. Facilities ("unidades"), procedures and
 scheduled offers ("ofertas programadas") are kept as sequences in the order
 the database returns their rows, because the engine looks them up with
 `.first()` and ranks offers in query order.
 */
module Models {
  import opened Wrappers

  /** Request statuses, as the literal strings the service stores. */
  const PENDENTE := "PENDENTE"
  const ACEITA := "ACEITA"
  const NEGADA := "NEGADA"
  const CANCELADA := "CANCELADA"
  const EM_FILA := "EM FILA"
  const AGENDADA := "AGENDADA"
  const CONCLUIDA := "CONCLUIDA"

  /** Patient-confirmation value written when the patient confirms a booking. */
  const CONFIRMADO := "CONFIRMADO"

  /** Justification stored when the patient declines a booking. */
  const RECUSADO_PELO_PACIENTE := "Agendamento recusado pelo paciente."

  /** A referral request. Its id is the key under which it is stored. */
  datatype Solicitacao = Solicitacao(
    pacienteId: string,
    unidadeSolicitanteCnes: string,
    procedimentoId: string,
    status: string,
    justificativa: Option<string>)

  /** A health facility: internal key, public CNES code, name, coordinates. */
  datatype Unidade = Unidade(
    id: int,
    cnesId: string,
    nome: string,
    latitude: real,
    longitude: real)

  /** A procedure: internal key, public procedure code, name. */
  datatype Procedimento = Procedimento(id: int, procedimentoId: string, nome: string)

  /** A scheduled offer of capacity. Dates are day numbers. */
  datatype Oferta = Oferta(
    id: int,
    unidadeId: int,
    procedimentoId: int,
    dataAgendamento: int,
    vagasDisponiveis: int,
    horario: Option<string>)

  /** A booking: links one request to one offer. Its id is its storage key. */
  datatype Marcacao = Marcacao(
    solicitacaoId: int,
    ofertaId: int,
    statusConfirmacaoPaciente: string)

  /** The stored tables, plus the next key each autoincrementing table hands out. */
  datatype Db = Db(
    solicitacoes: map<int, Solicitacao>,
    unidades: seq<Unidade>,
    procedimentos: seq<Procedimento>,
    ofertas: seq<Oferta>,
    marcacoes: map<int, Marcacao>,
    nextSolicitacaoId: int,
    nextMarcacaoId: int)

  /** Justification given, in Python's truthiness sense: present and non-empty. */
  predicate Truthy(j: Option<string>) {
    j.Some? && j.value != ""
  }

  /** A new request as the table's column defaults make it. */
  function NewSolicitacao(pacienteId: string, cnes: string, procedimentoId: string): (s: Solicitacao)
    ensures s.status == PENDENTE && s.justificativa == None
    ensures s.pacienteId == pacienteId && s.unidadeSolicitanteCnes == cnes
    ensures s.procedimentoId == procedimentoId
  {
    Solicitacao(pacienteId, cnes, procedimentoId, PENDENTE, None)
  }

  /** A new offer; a capacity left unspecified defaults to one place. */
  function NewOferta(id: int, unidadeId: int, procedimentoId: int, data: int,
                     vagas: Option<int>, horario: Option<string>): (o: Oferta)
    ensures vagas.None? ==> o.vagasDisponiveis == 1
    ensures vagas.Some? ==> o.vagasDisponiveis == vagas.value
    ensures o.id == id && o.unidadeId == unidadeId && o.procedimentoId == procedimentoId
    ensures o.dataAgendamento == data && o.horario == horario
  {
    Oferta(id, unidadeId, procedimentoId, data,
           match vagas case Some(v) => v case None => 1, horario)
  }

  /** A new booking: it always names a request and an offer, and awaits the patient. */
  function NewMarcacao(solicitacaoId: int, ofertaId: int): (m: Marcacao)
    ensures m.solicitacaoId == solicitacaoId && m.ofertaId == ofertaId
    ensures m.statusConfirmacaoPaciente == PENDENTE
  {
    Marcacao(solicitacaoId, ofertaId, PENDENTE)
  }

  /** Some offer row carries this id. */
  predicate HasOferta(db: Db, ofertaId: int) {
    exists i :: 0 <= i < |db.ofertas| && db.ofertas[i].id == ofertaId
  }

  /** No two facility rows share a primary key (models.py:29). */
  predicate DistinctUnidadeIds(us: seq<Unidade>) {
    forall i, j :: 0 <= i < j < |us| ==> us[i].id != us[j].id
  }

  /** No two procedure rows share a primary key (models.py:37). */
  predicate DistinctProcedimentoIds(ps: seq<Procedimento>) {
    forall i, j :: 0 <= i < j < |ps| ==> ps[i].id != ps[j].id
  }

  /** No two offer rows share a primary key (models.py:43), so a booking's offer id names one row. */
  predicate DistinctOfertaIds(os: seq<Oferta>) {
    forall i, j :: 0 <= i < j < |os| ==> os[i].id != os[j].id
  }

  /** No two facility rows share a CNES code (the unique column of models.py:30). */
  predicate DistinctCnes(us: seq<Unidade>) {
    forall i, j :: 0 <= i < j < |us| ==> us[i].cnesId != us[j].cnesId
  }

  /** No two procedure rows share a public code (the unique column of models.py:38). */
  predicate DistinctCodes(ps: seq<Procedimento>) {
    forall i, j :: 0 <= i < j < |ps| ==> ps[i].procedimentoId != ps[j].procedimentoId
  }

  /**
   The storage invariant: the unique columns of the reference tables hold,
   keys are below the next autoincrement value, and every booking refers to
   a stored request and to an existing offer row.
   */
  predicate Valid(db: Db) {
    && DistinctUnidadeIds(db.unidades)
    && DistinctCnes(db.unidades)
    && DistinctProcedimentoIds(db.procedimentos)
    && DistinctCodes(db.procedimentos)
    && DistinctOfertaIds(db.ofertas)
    && (forall k :: k in db.solicitacoes ==> k < db.nextSolicitacaoId)
    && (forall k :: k in db.marcacoes ==> k < db.nextMarcacaoId)
    && (forall k :: k in db.marcacoes ==> db.marcacoes[k].solicitacaoId in db.solicitacoes)
    && (forall k :: k in db.marcacoes ==> HasOferta(db, db.marcacoes[k].ofertaId))
  }

  /** Every denied or cancelled request carries a non-empty justification. */
  predicate ClosuresJustified(db: Db) {
    forall k :: k in db.solicitacoes && db.solicitacoes[k].status in {NEGADA, CANCELADA} ==>
      Truthy(db.solicitacoes[k].justificativa)
  }

  /** No offer has a negative remaining capacity. */
  predicate CapacityNonNegative(db: Db) {
    forall i :: 0 <= i < |db.ofertas| ==> db.ofertas[i].vagasDisponiveis >= 0
  }
}
