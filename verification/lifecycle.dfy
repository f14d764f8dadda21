/**
 The request lifecycle as a whole: every call on requests and bookings, the
 storage invariant they all keep, and properties that relate several calls.
 Offer creation is not among these calls; offers come from the initial tables.
 */
module Lifecycle {
  import opened Wrappers
  import opened Models
  import opened Agent
  import opened Crud
  import opened Endpoints

  /**
   One call against the service; `today` is the date the call runs on and
   `delivery` how the patient notification it may send fares.
   */
  datatype Action =
    | Create(pacienteId: string, cnes: string, procedimentoId: string)
    | SetStatus(id: int, status: string, justificativa: Option<string>, today: int, delivery: Delivery)
    | Confirm(mid: int)
    | Deny(mid: int)
    | Complete(mid: int, delivery: Delivery)

  /** The tables after one call. */
  function Step(db: Db, a: Action, distance: Distance): Db {
    match a
    case Create(p, c, proc) => CreateSolicitacao(db, p, c, proc).db
    case SetStatus(id, st, j, today, d) => UpdateStatusSolicitacao(db, id, st, j, today, distance, d).db
    case Confirm(mid) => ConfirmMarcacao(db, mid).db
    case Deny(mid) => DenyMarcacao(db, mid).db
    case Complete(mid, d) => CompleteMarcacao(db, mid, d).db
  }

  /** The tables after a sequence of calls, first call first. */
  function Run(db: Db, actions: seq<Action>, distance: Distance): Db
    decreases |actions|
  {
    if |actions| == 0 then db else Run(Step(db, actions[0], distance), actions[1..], distance)
  }

  /** Offer rows keep their ids, facilities, procedures and dates; capacity only goes down. */
  predicate OffersOnlyConsumed(db: Db, db': Db) {
    && |db'.ofertas| == |db.ofertas|
    && forall i :: 0 <= i < |db.ofertas| ==>
         && db'.ofertas[i] == db.ofertas[i].(vagasDisponiveis := db'.ofertas[i].vagasDisponiveis)
         && db'.ofertas[i].vagasDisponiveis <= db.ofertas[i].vagasDisponiveis
  }

  /** Every existing offer id survives a change that only consumes capacity. */
  lemma OfferIdsKept(db: Db, db': Db, oid: int)
    requires OffersOnlyConsumed(db, db')
    requires HasOferta(db, oid)
    ensures HasOferta(db', oid)
  {
  }

  /** No call gives capacity back or edits an offer in any other way. */
  lemma StepOnlyConsumesOffers(db: Db, a: Action, distance: Distance)
    ensures OffersOnlyConsumed(db, Step(db, a, distance))
  {
  }

  /** Booking a stored request into an offer row keeps the storage invariant. */
  lemma CreateMarcacaoPreservesValid(db: Db, sid: int, k: nat)
    requires Valid(db) && sid in db.solicitacoes && k < |db.ofertas|
    ensures Valid(CreateMarcacao(db, sid, k).db)
  {
    var db' := CreateMarcacao(db, sid, k).db;
    var mid := db.nextMarcacaoId;
    assert OffersOnlyConsumed(db, db');
    assert db'.solicitacoes.Keys == db.solicitacoes.Keys;
    assert db'.marcacoes.Keys == db.marcacoes.Keys + {mid};
    forall m | m in db'.marcacoes
      ensures m < db'.nextMarcacaoId
      ensures db'.marcacoes[m].solicitacaoId in db'.solicitacoes
      ensures HasOferta(db', db'.marcacoes[m].ofertaId)
    {
      if m == mid {
        assert db'.marcacoes[m] == NewMarcacao(sid, db.ofertas[k].id);
        assert db'.ofertas[k].id == db.ofertas[k].id;
      } else {
        assert db'.marcacoes[m] == db.marcacoes[m];
        OfferIdsKept(db, db', db.marcacoes[m].ofertaId);
      }
    }
  }

  /** The status endpoint keeps the storage invariant. */
  lemma UpdateStatusPreservesValid(db: Db, id: int, status: string, justificativa: Option<string>,
                                   today: int, distance: Distance, delivery: Delivery)
    requires Valid(db)
    ensures Valid(UpdateStatusSolicitacao(db, id, status, justificativa, today, distance, delivery).db)
  {
    var r := UpdateStatusSolicitacao(db, id, status, justificativa, today, distance, delivery);
    if (NeedsJustificativa(status) && !Truthy(justificativa)) || id !in db.solicitacoes {
      assert r.db == db;
    } else {
      var s := db.solicitacoes[id];
      var slot := if status == ACEITA then FindBestSlot(db, s, today, distance) else None;
      if slot.Some? {
        assert r.db == CreateMarcacao(db, id, slot.value).db;
        CreateMarcacaoPreservesValid(db, id, slot.value);
      } else {
        var w := UpdateSolicitacaoStatus(db, id, if status == ACEITA then EM_FILA else status, justificativa);
        assert r.db == w.db;
        assert w.db.solicitacoes.Keys == db.solicitacoes.Keys;
      }
    }
  }

  /** Every call keeps the storage invariant. */
  lemma StepPreservesValid(db: Db, a: Action, distance: Distance)
    requires Valid(db)
    ensures Valid(Step(db, a, distance))
  {
    match a
    case SetStatus(id, st, j, today, d) => UpdateStatusPreservesValid(db, id, st, j, today, distance, d);
    case Confirm(mid) =>
      var db' := ConfirmMarcacao(db, mid).db;
      if mid in db.marcacoes {
        assert forall m :: m in db'.marcacoes ==> db'.marcacoes[m].ofertaId == db.marcacoes[m].ofertaId;
      }
    case _ =>
  }

  /** No call makes a capacity negative. */
  lemma StepKeepsCapacityNonNegative(db: Db, a: Action, distance: Distance)
    requires CapacityNonNegative(db)
    ensures CapacityNonNegative(Step(db, a, distance))
  {
  }

  /**
   No call leaves a denied or cancelled request without a justification: the
   status endpoint refuses one, declining writes a fixed text, and every other
   write stores a different status.
   */
  lemma StepKeepsClosuresJustified(db: Db, a: Action, distance: Distance)
    requires ClosuresJustified(db)
    ensures ClosuresJustified(Step(db, a, distance))
  {
    match a
    case SetStatus(id, st, j, today, d) =>
      var r := UpdateStatusSolicitacao(db, id, st, j, today, distance, d);
      if r.db != db {
        assert r.db.solicitacoes[id].status in {st, AGENDADA, EM_FILA};
      }
    case _ =>
  }

  /**
   Any sequence of calls on requests and bookings keeps the storage invariant,
   non-negative capacities and justified closures.
   */
  lemma {:induction false} RunPreservesInvariants(db: Db, actions: seq<Action>, distance: Distance)
    requires Valid(db) && CapacityNonNegative(db) && ClosuresJustified(db)
    ensures Valid(Run(db, actions, distance)) && CapacityNonNegative(Run(db, actions, distance))
    ensures ClosuresJustified(Run(db, actions, distance))
    decreases |actions|
  {
    if |actions| > 0 {
      StepPreservesValid(db, actions[0], distance);
      StepKeepsCapacityNonNegative(db, actions[0], distance);
      StepKeepsClosuresJustified(db, actions[0], distance);
      RunPreservesInvariants(Step(db, actions[0], distance), actions[1..], distance);
    }
  }

  /**
   Under the storage invariant a handler fails with an internal error only
   when the communication service refuses a notification.
   */
  lemma ValidMeansNoServerError(db: Db, a: Action, distance: Distance)
    requires Valid(db)
    ensures a.SetStatus? ==>
      var r := UpdateStatusSolicitacao(db, a.id, a.status, a.justificativa, a.today, distance, a.delivery);
      r.response == HttpError(SERVER_ERROR) ==> a.delivery == Refused
    ensures a.Confirm? ==> ConfirmMarcacao(db, a.mid).response != HttpError(SERVER_ERROR)
    ensures a.Deny? ==> DenyMarcacao(db, a.mid).response != HttpError(SERVER_ERROR)
    ensures a.Complete? ==>
      (CompleteMarcacao(db, a.mid, a.delivery).response == HttpError(SERVER_ERROR) <==>
       a.mid in db.marcacoes && a.delivery == Refused)
  {
  }

  /** How a notification fares never changes what the handler stored. */
  lemma DeliveryKeepsWrites(db: Db, id: int, status: string, justificativa: Option<string>,
                            today: int, distance: Distance, mid: int, d: Delivery, d': Delivery)
    ensures UpdateStatusSolicitacao(db, id, status, justificativa, today, distance, d).db
         == UpdateStatusSolicitacao(db, id, status, justificativa, today, distance, d').db
    ensures CompleteMarcacao(db, mid, d).db == CompleteMarcacao(db, mid, d').db
  {
  }

  /** Confirming twice answers and stores the same as confirming once. */
  lemma ConfirmIdempotent(db: Db, mid: int)
    ensures var once := ConfirmMarcacao(db, mid);
      ConfirmMarcacao(once.db, mid) == once
  {
  }

  /**
   Nothing stops ACEITA on a request that already has a booking: when the
   agent finds a slot, the request ends up with a second booking.
   */
  lemma AcceptAgainBooksAgain(db: Db, id: int, mid: int, j: Option<string>,
                              today: int, distance: Distance, delivery: Delivery)
    requires Valid(db) && id in db.solicitacoes
    requires mid in db.marcacoes && db.marcacoes[mid].solicitacaoId == id
    requires FindBestSlot(db, db.solicitacoes[id], today, distance).Some?
    ensures var db' := UpdateStatusSolicitacao(db, id, ACEITA, j, today, distance, delivery).db;
      && mid in db'.marcacoes && db.nextMarcacaoId in db'.marcacoes
      && mid != db.nextMarcacaoId
      && db'.marcacoes[mid].solicitacaoId == id
      && db'.marcacoes[db.nextMarcacaoId].solicitacaoId == id
  {
  }

  /** Declining after a booking: the booking stays, the place stays taken. */
  lemma DeclineKeepsBookingAndCapacity(db: Db, mid: int)
    ensures DenyMarcacao(db, mid).db.marcacoes == db.marcacoes
    ensures DenyMarcacao(db, mid).db.ofertas == db.ofertas
    ensures mid in db.marcacoes ==>
      DenyMarcacao(db, mid).db.marcacoes[mid].statusConfirmacaoPaciente
        == db.marcacoes[mid].statusConfirmacaoPaciente
  {
  }

  /** An empty justification is refused for NEGADA; a real one is stored with the status. */
  lemma DenialNeedsJustification(db: Db, id: int, today: int, distance: Distance, delivery: Delivery)
    ensures UpdateStatusSolicitacao(db, id, NEGADA, Some(""), today, distance, delivery).response
      == HttpError(BAD_REQUEST)
    ensures UpdateStatusSolicitacao(db, id, NEGADA, None, today, distance, delivery).response
      == HttpError(BAD_REQUEST)
    ensures id in db.solicitacoes ==>
      var r := UpdateStatusSolicitacao(db, id, NEGADA, Some("incomplete data"), today, distance, delivery);
      && r.response.Ok?
      && r.response.solicitacao.status == NEGADA
      && r.response.solicitacao.justificativa == Some("incomplete data")
  {
  }

  /** There is no transition guard: a completed request can be put back to PENDENTE. */
  lemma NoTransitionGuard(db: Db, id: int, today: int, distance: Distance, delivery: Delivery)
    requires id in db.solicitacoes && db.solicitacoes[id].status == CONCLUIDA
    ensures var r := UpdateStatusSolicitacao(db, id, PENDENTE, None, today, distance, delivery);
      r.response.Ok? && r.response.solicitacao.status == PENDENTE
  {
  }
}
