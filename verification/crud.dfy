/**
 Storage operations of the regulation service (crud.py), as pure functions
 from the stored tables to a result and the new tables. A session commit is
 the returned state; `refresh` has no counterpart.
 */
module Crud {
  import opened Wrappers
  import opened Models

  /** A write that reports a value and the tables after the commit. */
  datatype Write<T> = Write(value: T, db: Db)

  /** Inserts a new request under the next free key. */
  function CreateSolicitacao(db: Db, pacienteId: string, cnes: string, procedimentoId: string)
    : (w: Write<int>)
    ensures w.value in w.db.solicitacoes
    ensures w.db.solicitacoes[w.value].status == PENDENTE
    ensures w.db.solicitacoes[w.value].justificativa == None
    ensures w.db.solicitacoes[w.value].pacienteId == pacienteId
    ensures w.db.solicitacoes[w.value].unidadeSolicitanteCnes == cnes
    ensures w.db.solicitacoes[w.value].procedimentoId == procedimentoId
    ensures Valid(db) ==> w.value !in db.solicitacoes && Valid(w.db)
    ensures Valid(db) ==> |w.db.solicitacoes| == |db.solicitacoes| + 1
    ensures forall k :: k in db.solicitacoes && k != w.value ==>
      k in w.db.solicitacoes && w.db.solicitacoes[k] == db.solicitacoes[k]
    ensures w.db.ofertas == db.ofertas && w.db.marcacoes == db.marcacoes
    ensures w.db.unidades == db.unidades && w.db.procedimentos == db.procedimentos
    ensures w.db.nextMarcacaoId == db.nextMarcacaoId
  {
    var id := db.nextSolicitacaoId;
    Write(id, db.(solicitacoes := db.solicitacoes[id := NewSolicitacao(pacienteId, cnes, procedimentoId)],
                  nextSolicitacaoId := id + 1))
  }

  /** The request stored under `id`, if any. */
  function GetSolicitacao(db: Db, id: int): (r: Option<Solicitacao>)
    ensures r.Some? <==> id in db.solicitacoes
    ensures r.Some? ==> r.value == db.solicitacoes[id]
  {
    if id in db.solicitacoes then Some(db.solicitacoes[id]) else None
  }

  /** Overwrites status and justification of a stored request; None when there is none. */
  function UpdateSolicitacaoStatus(db: Db, id: int, status: string, justificativa: Option<string>)
    : (w: Write<Option<Solicitacao>>)
    ensures id !in db.solicitacoes ==> w.value.None? && w.db == db
    ensures id in db.solicitacoes ==> w.value.Some? && w.db.solicitacoes.Keys == db.solicitacoes.Keys
    ensures id in db.solicitacoes ==> w.value.value == w.db.solicitacoes[id]
    ensures id in db.solicitacoes ==>
      && w.db.solicitacoes[id].status == status
      && w.db.solicitacoes[id].justificativa == justificativa
      && w.db.solicitacoes[id].pacienteId == db.solicitacoes[id].pacienteId
      && w.db.solicitacoes[id].unidadeSolicitanteCnes == db.solicitacoes[id].unidadeSolicitanteCnes
      && w.db.solicitacoes[id].procedimentoId == db.solicitacoes[id].procedimentoId
    ensures forall k :: k in db.solicitacoes && k != id ==>
      k in w.db.solicitacoes && w.db.solicitacoes[k] == db.solicitacoes[k]
    ensures w.db.ofertas == db.ofertas && w.db.marcacoes == db.marcacoes
    ensures w.db.unidades == db.unidades && w.db.procedimentos == db.procedimentos
    ensures w.db.nextSolicitacaoId == db.nextSolicitacaoId && w.db.nextMarcacaoId == db.nextMarcacaoId
  {
    match GetSolicitacao(db, id)
    case None => Write(None, db)
    case Some(s) =>
      var s' := s.(status := status, justificativa := justificativa);
      Write(Some(s'), db.(solicitacoes := db.solicitacoes[id := s']))
  }

  /** Takes one place from row `k` unless none is left. */
  function TakePlace(ofertas: seq<Oferta>, k: nat): (r: seq<Oferta>)
    requires k < |ofertas|
    ensures |r| == |ofertas|
    ensures ofertas[k].vagasDisponiveis > 0 ==>
      r[k].vagasDisponiveis == ofertas[k].vagasDisponiveis - 1
    ensures ofertas[k].vagasDisponiveis <= 0 ==> r[k] == ofertas[k]
    ensures r[k].vagasDisponiveis >= 0 <==> ofertas[k].vagasDisponiveis >= 0
    ensures r[k] == ofertas[k].(vagasDisponiveis := r[k].vagasDisponiveis)
    ensures forall i :: 0 <= i < |ofertas| && i != k ==> r[i] == ofertas[i]
  {
    var o := ofertas[k];
    if o.vagasDisponiveis > 0 then ofertas[k := o.(vagasDisponiveis := o.vagasDisponiveis - 1)]
    else ofertas
  }

  /**
   Books request `sid` into offer row `k`: adds one booking linking them,
   marks the request AGENDADA and takes one place from the offer.
   */
  function CreateMarcacao(db: Db, sid: int, k: nat): (w: Write<Solicitacao>)
    requires sid in db.solicitacoes && k < |db.ofertas|
    ensures db.nextMarcacaoId in w.db.marcacoes
    ensures w.db.marcacoes[db.nextMarcacaoId] == NewMarcacao(sid, db.ofertas[k].id)
    ensures forall m :: m in db.marcacoes && m != db.nextMarcacaoId ==>
      m in w.db.marcacoes && w.db.marcacoes[m] == db.marcacoes[m]
    ensures w.db.marcacoes.Keys == db.marcacoes.Keys + {db.nextMarcacaoId}
    ensures Valid(db) ==> db.nextMarcacaoId !in db.marcacoes && |w.db.marcacoes| == |db.marcacoes| + 1
    ensures w.db.nextMarcacaoId > db.nextMarcacaoId
    ensures w.db.solicitacoes.Keys == db.solicitacoes.Keys
    ensures w.value == w.db.solicitacoes[sid] && w.value.status == AGENDADA
    ensures w.value == db.solicitacoes[sid].(status := AGENDADA)
    ensures forall k' :: k' in db.solicitacoes && k' != sid ==> w.db.solicitacoes[k'] == db.solicitacoes[k']
    ensures |w.db.ofertas| == |db.ofertas|
    ensures db.ofertas[k].vagasDisponiveis > 0 ==>
      w.db.ofertas[k].vagasDisponiveis == db.ofertas[k].vagasDisponiveis - 1
    ensures db.ofertas[k].vagasDisponiveis <= 0 ==> w.db.ofertas[k] == db.ofertas[k]
    ensures w.db.ofertas[k] == db.ofertas[k].(vagasDisponiveis := w.db.ofertas[k].vagasDisponiveis)
    ensures forall i :: 0 <= i < |db.ofertas| && i != k ==> w.db.ofertas[i] == db.ofertas[i]
    ensures w.db.unidades == db.unidades && w.db.procedimentos == db.procedimentos
    ensures w.db.nextSolicitacaoId == db.nextSolicitacaoId
  {
    var mid := db.nextMarcacaoId;
    var s := db.solicitacoes[sid].(status := AGENDADA);
    Write(s, db.(marcacoes := db.marcacoes[mid := NewMarcacao(sid, db.ofertas[k].id)],
                 nextMarcacaoId := mid + 1,
                 solicitacoes := db.solicitacoes[sid := s],
                 ofertas := TakePlace(db.ofertas, k)))
  }

  /** The booking stored under `id`, if any. */
  function GetMarcacao(db: Db, id: int): (r: Option<Marcacao>)
    ensures r.Some? <==> id in db.marcacoes
    ensures r.Some? ==> r.value == db.marcacoes[id]
  {
    if id in db.marcacoes then Some(db.marcacoes[id]) else None
  }

  /** Sets the patient-confirmation field of a stored booking. */
  function UpdateMarcacaoStatusPaciente(db: Db, id: int, status: string): (w: Write<Marcacao>)
    requires id in db.marcacoes
    ensures w.db.marcacoes.Keys == db.marcacoes.Keys
    ensures w.value == w.db.marcacoes[id]
    ensures w.value.statusConfirmacaoPaciente == status
    ensures w.value.solicitacaoId == db.marcacoes[id].solicitacaoId
    ensures w.value.ofertaId == db.marcacoes[id].ofertaId
    ensures forall m :: m in db.marcacoes && m != id ==> w.db.marcacoes[m] == db.marcacoes[m]
    ensures w.db.solicitacoes == db.solicitacoes && w.db.ofertas == db.ofertas
    ensures w.db.unidades == db.unidades && w.db.procedimentos == db.procedimentos
    ensures w.db.nextSolicitacaoId == db.nextSolicitacaoId && w.db.nextMarcacaoId == db.nextMarcacaoId
  {
    var m := db.marcacoes[id].(statusConfirmacaoPaciente := status);
    Write(m, db.(marcacoes := db.marcacoes[id := m]))
  }

  /** Writing the same confirmation value twice leaves the same tables as writing it once. */
  lemma UpdateMarcacaoStatusPacienteIdempotent(db: Db, id: int, status: string)
    requires id in db.marcacoes
    ensures var once := UpdateMarcacaoStatusPaciente(db, id, status);
      UpdateMarcacaoStatusPaciente(once.db, id, status) == once
  {
  }

  /** A created request reads back as the default record built from the inputs. */
  lemma ReadAfterCreate(db: Db, pacienteId: string, cnes: string, procedimentoId: string)
    ensures var w := CreateSolicitacao(db, pacienteId, cnes, procedimentoId);
      GetSolicitacao(w.db, w.value) == Some(NewSolicitacao(pacienteId, cnes, procedimentoId))
  {
  }

  /** An updated request reads back as the record the update returned. */
  lemma ReadAfterUpdate(db: Db, id: int, status: string, justificativa: Option<string>)
    ensures var w := UpdateSolicitacaoStatus(db, id, status, justificativa);
      GetSolicitacao(w.db, id) == w.value
  {
  }

  /** A booking reads back with the confirmation value just written. */
  lemma ReadAfterConfirmationUpdate(db: Db, id: int, status: string)
    requires id in db.marcacoes
    ensures var w := UpdateMarcacaoStatusPaciente(db, id, status);
      GetMarcacao(w.db, id) == Some(w.value) && w.value.statusConfirmacaoPaciente == status
  {
  }
}
