/**
 The allocation agent (agent.py, `find_best_slot`): picks the offer a request
 should be booked into. Great-circle distance is not modelled; it enters as an
 arbitrary function from two coordinate pairs to kilometres, and the reference
 date ("today") is a parameter.
 */
module Agent {
  import opened Wrappers
  import opened Models
  import opened Ranking

  /** Distance from (lat1, lon1) to (lat2, lon2). */
  type Distance = (real, real, real, real) -> real

  /** The first facility row with this CNES code, found by filtering on the code and taking the first row. */
  function UnidadeByCnes(us: seq<Unidade>, cnes: string): (r: Option<Unidade>)
    ensures r.None? <==> forall i :: 0 <= i < |us| ==> us[i].cnesId != cnes
    ensures r.Some? ==> r.value.cnesId == cnes && r.value in us
  {
    if |us| == 0 then None
    else if us[0].cnesId == cnes then Some(us[0])
    else UnidadeByCnes(us[1..], cnes)
  }

  /** The facility row with this primary key, found by a primary-key lookup. */
  function UnidadeById(us: seq<Unidade>, id: int): (r: Option<Unidade>)
    ensures r.None? <==> forall i :: 0 <= i < |us| ==> us[i].id != id
    ensures r.Some? ==> r.value.id == id && r.value in us
  {
    if |us| == 0 then None
    else if us[0].id == id then Some(us[0])
    else UnidadeById(us[1..], id)
  }

  /** First procedure with this public code. */
  function ProcedimentoByCode(ps: seq<Procedimento>, code: string): (r: Option<Procedimento>)
    ensures r.None? <==> forall i :: 0 <= i < |ps| ==> ps[i].procedimentoId != code
    ensures r.Some? ==> r.value.procedimentoId == code && r.value in ps
  {
    if |ps| == 0 then None
    else if ps[0].procedimentoId == code then Some(ps[0])
    else ProcedimentoByCode(ps[1..], code)
  }

  /** With distinct CNES codes, the lookup finds the one facility row carrying the code. */
  lemma UnidadeByCnesIsTheRow(us: seq<Unidade>, cnes: string, i: nat)
    requires DistinctCnes(us) && i < |us| && us[i].cnesId == cnes
    ensures UnidadeByCnes(us, cnes) == Some(us[i])
  {
  }

  /** With distinct primary keys, the lookup finds the one facility row carrying the key. */
  lemma UnidadeByIdIsTheRow(us: seq<Unidade>, id: int, i: nat)
    requires DistinctUnidadeIds(us) && i < |us| && us[i].id == id
    ensures UnidadeById(us, id) == Some(us[i])
  {
  }

  /** With distinct public codes, the lookup finds the one procedure row carrying the code. */
  lemma ProcedimentoByCodeIsTheRow(ps: seq<Procedimento>, code: string, i: nat)
    requires DistinctCodes(ps) && i < |ps| && ps[i].procedimentoId == code
    ensures ProcedimentoByCode(ps, code) == Some(ps[i])
  {
  }

  /** What the search is relative to: the requesting facility (the patient's
      stand-in location), the procedure looked up, and the reference date. */
  datatype SlotQuery = SlotQuery(origin: Unidade, procedimento: Procedimento, today: int)

  /** The query for a request, or None when its facility or procedure is unknown. */
  function QueryFor(db: Db, s: Solicitacao, today: int): (r: Option<SlotQuery>)
    ensures r.None? <==>
      UnidadeByCnes(db.unidades, s.unidadeSolicitanteCnes).None? ||
      ProcedimentoByCode(db.procedimentos, s.procedimentoId).None?
    ensures r.Some? ==> r.value.origin.cnesId == s.unidadeSolicitanteCnes
    ensures r.Some? ==> r.value.procedimento.procedimentoId == s.procedimentoId
    ensures r.Some? ==> r.value.today == today
  {
    match UnidadeByCnes(db.unidades, s.unidadeSolicitanteCnes)
    case None => None
    case Some(u) =>
      match ProcedimentoByCode(db.procedimentos, s.procedimentoId)
      case None => None
      case Some(p) => Some(SlotQuery(u, p, today))
  }

  /** The offer-table filter: the procedure's key, dated on or after the reference
      date, a place left, and (inner join) a facility row that exists. */
  predicate Eligible(db: Db, q: SlotQuery, o: Oferta) {
    && o.procedimentoId == q.procedimento.id
    && o.dataAgendamento >= q.today
    && o.vagasDisponiveis > 0
    && UnidadeById(db.unidades, o.unidadeId).Some?
  }

  /** Distance from the requesting facility to the offer's facility. */
  function DistanceTo(db: Db, q: SlotQuery, distance: Distance, o: Oferta): real
    requires UnidadeById(db.unidades, o.unidadeId).Some?
  {
    var u := UnidadeById(db.unidades, o.unidadeId).value;
    distance(q.origin.latitude, q.origin.longitude, u.latitude, u.longitude)
  }

  /** The ranking record built for an eligible offer row. */
  function CandidateAt(db: Db, q: SlotQuery, distance: Distance, i: nat): Candidate
    requires i < |db.ofertas| && Eligible(db, q, db.ofertas[i])
  {
    Candidate(i, db.ofertas[i].dataAgendamento, DistanceTo(db, q, distance, db.ofertas[i]))
  }

  /** Candidates among the first `n` offer rows, in row order. */
  function Candidates(db: Db, q: SlotQuery, distance: Distance, n: nat): (cs: seq<Candidate>)
    requires n <= |db.ofertas|
    ensures forall j :: 0 <= j < |cs| ==>
      cs[j].row < n && Eligible(db, q, db.ofertas[cs[j].row]) &&
      cs[j] == CandidateAt(db, q, distance, cs[j].row)
    ensures forall j, j' :: 0 <= j < j' < |cs| ==> cs[j].row < cs[j'].row
    decreases n
  {
    if n == 0 then []
    else
      var prev := Candidates(db, q, distance, n - 1);
      if Eligible(db, q, db.ofertas[n - 1]) then prev + [CandidateAt(db, q, distance, n - 1)]
      else prev
  }

  /** Every eligible row among the first `n` appears in the candidate list. */
  lemma {:induction false} CandidateIndex(db: Db, q: SlotQuery, distance: Distance, n: nat, i: nat)
    returns (j: nat)
    requires i < n <= |db.ofertas| && Eligible(db, q, db.ofertas[i])
    ensures j < |Candidates(db, q, distance, n)|
    ensures Candidates(db, q, distance, n)[j].row == i
    decreases n
  {
    var prev := Candidates(db, q, distance, n - 1);
    if i == n - 1 {
      j := |prev|;
    } else {
      j := CandidateIndex(db, q, distance, n - 1, i);
      if Eligible(db, q, db.ofertas[n - 1]) {
        assert (prev + [CandidateAt(db, q, distance, n - 1)])[j] == prev[j];
      }
    }
  }

  /**
   Row `k` is the right answer: an eligible offer with the earliest date; among
   eligible offers of that date, the nearest; and no earlier row ties it on both.
   */
  predicate IsBestSlot(db: Db, q: SlotQuery, distance: Distance, k: int) {
    && 0 <= k < |db.ofertas|
    && Eligible(db, q, db.ofertas[k])
    && (forall i :: 0 <= i < |db.ofertas| && Eligible(db, q, db.ofertas[i]) ==>
          db.ofertas[k].dataAgendamento <= db.ofertas[i].dataAgendamento)
    && (forall i :: 0 <= i < |db.ofertas| && Eligible(db, q, db.ofertas[i]) ==>
          (db.ofertas[i].dataAgendamento == db.ofertas[k].dataAgendamento ==>
           DistanceTo(db, q, distance, db.ofertas[k]) <= DistanceTo(db, q, distance, db.ofertas[i])))
    && (forall i :: 0 <= i < k && Eligible(db, q, db.ofertas[i]) ==>
          (db.ofertas[i].dataAgendamento == db.ofertas[k].dataAgendamento ==>
           DistanceTo(db, q, distance, db.ofertas[k]) < DistanceTo(db, q, distance, db.ofertas[i])))
  }

  /** Some offer row passes the filter. */
  predicate AnyEligible(db: Db, q: SlotQuery) {
    exists i :: 0 <= i < |db.ofertas| && Eligible(db, q, db.ofertas[i])
  }

  /** The offer row the request should be booked into, or None. */
  function FindBestSlot(db: Db, s: Solicitacao, today: int, distance: Distance): (r: Option<nat>)
    ensures QueryFor(db, s, today).None? ==> r.None?
    ensures QueryFor(db, s, today).Some? && !AnyEligible(db, QueryFor(db, s, today).value) ==> r.None?
    ensures r.Some? ==>
      (QueryFor(db, s, today).Some? && IsBestSlot(db, QueryFor(db, s, today).value, distance, r.value))
    ensures r.None? ==> QueryFor(db, s, today).None? || !AnyEligible(db, QueryFor(db, s, today).value)
  {
    match QueryFor(db, s, today)
    case None => None
    case Some(q) =>
      var cs := Candidates(db, q, distance, |db.ofertas|);
      EligibleMeansCandidates(db, q, distance);
      if |cs| == 0 then None
      else
        var k := FirstMin(cs);
        BestCandidateIsBestSlot(db, q, distance, cs, k);
        Some(cs[k].row)
  }

  /**
   In a valid store the query is pinned down by the rows alone: it names the
   one facility with the request's CNES code and the one procedure with its
   code, whatever the row order.
   */
  lemma QueryForIsTheRows(db: Db, s: Solicitacao, today: int, i: nat, p: nat)
    requires Valid(db)
    requires i < |db.unidades| && db.unidades[i].cnesId == s.unidadeSolicitanteCnes
    requires p < |db.procedimentos| && db.procedimentos[p].procedimentoId == s.procedimentoId
    ensures QueryFor(db, s, today) == Some(SlotQuery(db.unidades[i], db.procedimentos[p], today))
  {
    UnidadeByCnesIsTheRow(db.unidades, s.unidadeSolicitanteCnes, i);
    ProcedimentoByCodeIsTheRow(db.procedimentos, s.procedimentoId, p);
  }

  /** When some row passes the filter, the candidate list is not empty. */
  lemma EligibleMeansCandidates(db: Db, q: SlotQuery, distance: Distance)
    ensures AnyEligible(db, q) ==> |Candidates(db, q, distance, |db.ofertas|)| > 0
  {
    if AnyEligible(db, q) {
      var i :| 0 <= i < |db.ofertas| && Eligible(db, q, db.ofertas[i]);
      var j := CandidateIndex(db, q, distance, |db.ofertas|, i);
    }
  }

  /** No eligible row beats the leftmost minimum candidate, and earlier rows lose to it. */
  lemma RowAgainstBest(db: Db, q: SlotQuery, distance: Distance, cs: seq<Candidate>, k: nat, i: nat)
    requires cs == Candidates(db, q, distance, |db.ofertas|)
    requires |cs| > 0 && k == FirstMin(cs)
    requires i < |db.ofertas| && Eligible(db, q, db.ofertas[i])
    ensures !Less(CandidateAt(db, q, distance, i), cs[k])
    ensures i < cs[k].row ==> Less(cs[k], CandidateAt(db, q, distance, i))
  {
    var j := CandidateIndex(db, q, distance, |db.ofertas|, i);
    assert cs[j] == CandidateAt(db, q, distance, i);
    if i < cs[k].row {
      assert j < k;
    }
  }

  /** The leftmost minimum of the full candidate list is the best slot. */
  lemma BestCandidateIsBestSlot(db: Db, q: SlotQuery, distance: Distance, cs: seq<Candidate>, k: nat)
    requires cs == Candidates(db, q, distance, |db.ofertas|)
    requires |cs| > 0 && k == FirstMin(cs)
    ensures IsBestSlot(db, q, distance, cs[k].row)
  {
    var r := cs[k].row;
    var best := cs[k];
    assert best == CandidateAt(db, q, distance, r);
    forall i | 0 <= i < |db.ofertas| && Eligible(db, q, db.ofertas[i])
      ensures best.date <= db.ofertas[i].dataAgendamento
      ensures db.ofertas[i].dataAgendamento == best.date ==>
        best.dist <= DistanceTo(db, q, distance, db.ofertas[i])
      ensures i < r && db.ofertas[i].dataAgendamento == best.date ==>
        best.dist < DistanceTo(db, q, distance, db.ofertas[i])
    {
      RowAgainstBest(db, q, distance, cs, k, i);
    }
  }

  /** At most one row is the best slot. */
  lemma BestSlotUnique(db: Db, q: SlotQuery, distance: Distance, k: int, k': int)
    requires IsBestSlot(db, q, distance, k) && IsBestSlot(db, q, distance, k')
    ensures k == k'
  {
  }

  /** The agent's answer is the offer at the head of the stably sorted candidate list. */
  lemma FindBestSlotIsSortedHead(db: Db, s: Solicitacao, today: int, distance: Distance)
    requires QueryFor(db, s, today).Some?
    ensures var cs := Candidates(db, QueryFor(db, s, today).value, distance, |db.ofertas|);
      && (|cs| == 0 <==> FindBestSlot(db, s, today, distance).None?)
      && (|cs| > 0 ==> FindBestSlot(db, s, today, distance) == Some(Sort(cs)[0].row))
  {
    var cs := Candidates(db, QueryFor(db, s, today).value, distance, |db.ofertas|);
    if |cs| > 0 {
      SortHeadIsFirstMin(cs);
    }
  }
}
