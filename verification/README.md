# Regulation service: slot allocation and request lifecycle

A Dafny model of the decision core of the regulation service. A referral
request ("solicitação") for a procedure moves through its statuses. When a
regulator accepts it (ACEITA), an agent picks the best scheduled offer
("oferta programada"). The request is then booked into that offer with a
booking ("marcação"), or parked as EM FILA when nothing fits. The patient
can then confirm the booking, decline it, or have it completed.

Layout, one module per source file:

- `wrappers.dfy` (`Wrappers`): `Option`, the model of Python's `None`.
- `models.dfy` (`Models`): the records of models.py, their column defaults,
  the status strings, and the storage state `Db`. Requests and bookings are
  maps from primary key to record. Facilities, procedures and offers are
  sequences in the order the database returns their rows. `Valid` is the
  storage invariant: unique columns are unique, keys are below the next
  autoincrement value, and bookings refer to stored requests and offers.
- `ranking.dfy` (`Ranking`): the `(date, distance)` ordering. `FirstMin` is
  the leftmost minimum. `Sort` is a reference stable insertion sort, proved
  to give a sorted permutation whose head is `FirstMin`'s pick.
- `agent.dfy` (`Agent`): `find_best_slot`. It looks up the facility and
  procedure, filters the offer rows, builds candidates in row order, and
  selects one.
- `crud.dfy` (`Crud`): the storage operations of crud.py, as pure functions
  from tables to a value plus the new tables.
- `endpoints.dfy` (`Endpoints`): the four status-changing handlers of
  main.py. Each returns a response (`Ok` or `HttpError` with 400, 404 or 500)
  and the new tables.
- `lifecycle.dfy` (`Lifecycle`): every call on requests and bookings as an
  `Action`. It proves that these calls keep the storage invariant,
  non-negative capacities and justified closures. It also holds properties
  that relate several calls.
- `scenarios.dfy` (`Scenarios`): a worked example on concrete tables.

Distance and "today" are parameters. Distance is any function from two
coordinate pairs to a real number; the haversine formula is not modelled.
Dates are day numbers.

Behaviour of the service worth knowing before reading the contracts:

- A missing facility or procedure is not an error. The agent returns
  nothing and the request is stored as EM FILA.
- If the chosen offer has no place left when the booking is written, the
  booking is still created and the capacity stays as it is; nothing is
  retried. There is also no check that a request has at most one booking; `AcceptAgainBooksAgain` shows that ACEITA
  on an already booked request books it again.
- Declining a booking cancels the request. It does not set the booking's
  confirmation field to a denied value (`DeclineKeepsBookingAndCapacity`).
- Statuses are the Portuguese strings the code stores: PENDENTE, ACEITA,
  NEGADA, CANCELADA, EM FILA, AGENDADA, CONCLUIDA, and CONFIRMADO for a
  booking.
- Any status other than ACEITA is written as given, with no transition
  check (`NoTransitionGuard`).
- A booking (ACEITA with a slot) and a completion notify the patient through
  the communication service. A reply with an error status from that service
  escapes the handler, which then answers 500 although its writes are already
  committed. An unreachable service is only logged. `Delivery` is the
  parameter that says which of these happens.
- Primary keys of facilities, procedures and offers, CNES codes and
  procedure codes are unique columns.
  `Valid` records this, so the lookups name one row whatever the row order
  (`QueryForIsTheRows`).

## Model

| member | source | states |
|---|---|---|
| Models.NewSolicitacao | services/regulation_service/src/models.py:17-19 | a new request starts PENDENTE with no justification and keeps the given patient, facility and procedure codes |
| Models.NewOferta | services/regulation_service/src/models.py:47 | an offer whose capacity is not given gets one place |
| Models.NewMarcacao | services/regulation_service/src/models.py:53-57 | a booking names its request and offer and starts with patient confirmation PENDENTE |
| Ranking.FirstMin | services/regulation_service/src/agent.py:77-80 | the chosen candidate is beaten by no candidate on (date, distance), and every earlier candidate is strictly worse |
| Ranking.FirstMinCharacterised | services/regulation_service/src/agent.py:77-80 | the leftmost minimum is unique: an index has the leftmost-minimum property exactly when it is `FirstMin`'s answer |
| Ranking.Insert | services/regulation_service/src/agent.py:78 | stable insertion adds exactly one element, keeps the multiset, and puts the new element first only when it strictly precedes the old head |
| Ranking.Sort | services/regulation_service/src/agent.py:78 | the reference sort returns a permutation of its input |
| Ranking.SortSorted | services/regulation_service/src/agent.py:78 | the reference sort's output is ordered by (date, distance) |
| Ranking.SortHeadIsFirstMin | services/regulation_service/src/agent.py:78-80 | the head of the stably sorted candidates is the candidate `FirstMin` selects |
| Agent.UnidadeByCnes | services/regulation_service/src/agent.py:34-40 | finds a facility with the CNES code exactly when one exists |
| Agent.UnidadeById | services/regulation_service/src/agent.py:69 | finds the facility with the primary key exactly when one exists |
| Agent.ProcedimentoByCode | services/regulation_service/src/agent.py:46-52 | finds a procedure with the code exactly when one exists |
| Agent.UnidadeByCnesIsTheRow | services/regulation_service/src/agent.py:34-40 | with unique CNES codes the lookup returns exactly the facility row carrying the code |
| Agent.UnidadeByIdIsTheRow | services/regulation_service/src/agent.py:69 | with unique primary keys the lookup returns exactly the facility row carrying the key |
| Agent.ProcedimentoByCodeIsTheRow | services/regulation_service/src/agent.py:46-52 | with unique procedure codes the lookup returns exactly the procedure row carrying the code |
| Agent.QueryForIsTheRows | services/regulation_service/src/agent.py:34-55 | in a valid store the search is set up from the one facility with the request's CNES code and the one procedure with its code |
| Agent.QueryFor | services/regulation_service/src/agent.py:34-55 | the search is set up exactly when both the requesting facility and the procedure exist, and it uses them and the reference date |
| Agent.Candidates | services/regulation_service/src/agent.py:56-75 | candidates are eligible offer rows (procedure, date on or after today, capacity > 0, facility exists) in row order, with their date and distance |
| Agent.CandidateIndex | services/regulation_service/src/agent.py:56-75 | every eligible offer row is among the candidates |
| Agent.EligibleMeansCandidates | services/regulation_service/src/agent.py:62-64 | the candidate list is empty only when no offer row is eligible |
| Agent.FindBestSlot | services/regulation_service/src/agent.py:22-83 | None when the facility or procedure is missing or no offer is eligible; otherwise an eligible offer with the earliest date, nearest among that date, first in row order among full ties |
| Agent.RowAgainstBest | services/regulation_service/src/agent.py:77-80 | no eligible offer row precedes the selected candidate on (date, distance), and every earlier eligible row is strictly behind it |
| Agent.BestCandidateIsBestSlot | services/regulation_service/src/agent.py:77-80 | the leftmost minimum candidate satisfies the earliest-date, nearest, first-in-order characterisation |
| Agent.BestSlotUnique | services/regulation_service/src/agent.py:77-80 | only one offer row satisfies that characterisation, so the choice is deterministic |
| Agent.FindBestSlotIsSortedHead | services/regulation_service/src/agent.py:78-80 | the agent's answer is the offer at the head of the stably sorted candidate list, and None exactly when that list is empty |
| Crud.CreateSolicitacao | services/regulation_service/src/crud.py:6-23 | adds exactly one request under a fresh key, with status PENDENTE, no justification and the three input codes; nothing else changes |
| Crud.GetSolicitacao | services/regulation_service/src/crud.py:25-29 | returns the stored request for the key, or None when there is none |
| Crud.UpdateSolicitacaoStatus | services/regulation_service/src/crud.py:32-49 | unknown key: None and no change; otherwise status and justification become exactly the inputs, None included, and nothing else changes |
| Crud.TakePlace | services/regulation_service/src/crud.py:62-63 | capacity drops by exactly one when positive and is untouched otherwise, so it never becomes negative; other rows are unchanged |
| Crud.CreateMarcacao | services/regulation_service/src/crud.py:51-68 | adds exactly one booking linking the request and the offer, sets the request to AGENDADA, takes one place from the offer, and changes nothing else |
| Crud.GetMarcacao | services/regulation_service/src/crud.py:78-80 | returns the stored booking for the key, or None when there is none |
| Crud.UpdateMarcacaoStatusPaciente | services/regulation_service/src/crud.py:82-87 | only the booking's confirmation field changes, to the given value |
| Crud.UpdateMarcacaoStatusPacienteIdempotent | services/regulation_service/src/crud.py:82-87 | writing the same confirmation value twice gives the same result as writing it once |
| Crud.ReadAfterCreate | services/regulation_service/src/crud.py:6-29 | a created request reads back as PENDENTE with the three input codes and no justification |
| Crud.ReadAfterUpdate | services/regulation_service/src/crud.py:25-49 | after a status update, reading the request returns exactly what the update returned (None for an unknown key) |
| Crud.ReadAfterConfirmationUpdate | services/regulation_service/src/crud.py:78-87 | after a confirmation update, the booking reads back with the value written |
| Endpoints.UpdateStatusSolicitacao | services/regulation_service/src/main.py:67-117 | 400 for NEGADA or CANCELADA without a non-empty justification, checked before the lookup; 404 for an unknown request; both without change. ACEITA with a slot gives AGENDADA, one new booking and one place taken, and answers 500 exactly when the notification is refused, with the booking kept. ACEITA without a slot gives EM FILA with no booking and no capacity change. Other statuses are written verbatim |
| Endpoints.ConfirmMarcacao | services/regulation_service/src/main.py:129-145 | 404 for an unknown booking; otherwise the booking becomes CONFIRMADO and the request, offers and other bookings are unchanged |
| Endpoints.CloseBookedRequest | services/regulation_service/src/main.py:156-185 | 404 for an unknown booking; otherwise the booking's request gets the given status and justification; bookings and offers are unchanged |
| Endpoints.DenyMarcacao | services/regulation_service/src/main.py:147-167 | 404 for an unknown booking; 500 with no change when its request is missing; otherwise the owning request becomes CANCELADA with the fixed patient-declined justification and keeps its patient, facility and procedure, other requests are unchanged, and the booking and the capacity are not touched |
| Endpoints.CompleteMarcacao | services/regulation_service/src/main.py:169-197 | 404 for an unknown booking; otherwise the owning request becomes CONCLUIDA and its justification is cleared, and the answer is 500 exactly when the notification is refused, with that write kept |
| Lifecycle.OfferIdsKept | services/regulation_service/src/crud.py:62-63 | an offer id that exists still exists after capacity is consumed |
| Lifecycle.StepOnlyConsumesOffers | services/regulation_service/src/main.py:67-197 | no call edits an offer other than to lower its capacity; capacity is never given back |
| Lifecycle.CreateMarcacaoPreservesValid | services/regulation_service/src/crud.py:51-68 | booking keeps keys fresh and every booking pointing at a stored request and an existing offer |
| Lifecycle.UpdateStatusPreservesValid | services/regulation_service/src/main.py:67-117 | the status endpoint keeps the storage invariant |
| Lifecycle.StepPreservesValid | services/regulation_service/src/main.py:67-197 | every call keeps the storage invariant |
| Lifecycle.StepKeepsCapacityNonNegative | services/regulation_service/src/crud.py:62-63 | no call makes an offer's capacity negative |
| Lifecycle.RunPreservesInvariants | services/regulation_service/src/main.py:67-197 | any sequence of calls on requests and bookings keeps the storage invariant, non-negative capacities, and a justification on every denied or cancelled request |
| Lifecycle.StepKeepsClosuresJustified | services/regulation_service/src/main.py:78-79 | no call leaves a NEGADA or CANCELADA request without a non-empty justification |
| Lifecycle.ValidMeansNoServerError | services/regulation_service/src/main.py:85-197 | when every booking's request is stored, confirm and deny never answer 500, and the status and complete handlers answer 500 only when the communication service refuses the notification |
| Lifecycle.DeliveryKeepsWrites | services/regulation_service/src/communication_client.py:12-30 | how the notification fares never changes the tables the status and complete handlers leave behind |
| Lifecycle.ConfirmIdempotent | services/regulation_service/src/main.py:138-145 | confirming a booking twice answers and stores the same as confirming it once |
| Lifecycle.AcceptAgainBooksAgain | services/regulation_service/src/main.py:85-90 | ACEITA on a request that already has a booking adds a second booking for it whenever a slot is found |
| Lifecycle.DeclineKeepsBookingAndCapacity | services/regulation_service/src/main.py:156-167 | declining leaves the bookings, their confirmation field and all capacities as they were |
| Lifecycle.DenialNeedsJustification | services/regulation_service/src/main.py:78-79 | NEGADA with an empty or missing justification gives 400; with a real one it is stored with the status |
| Lifecycle.NoTransitionGuard | services/regulation_service/src/main.py:113-117 | a CONCLUIDA request can be set back to PENDENTE |
| Scenarios.NearerOfferWins | services/regulation_service/src/agent.py:66-83 | two offers for the procedure on the same day: the agent picks the one whose facility is nearer to the requesting facility |

## Left out

- Haversine distance (agent.py:8-20): floating-point trigonometry. Distance is an arbitrary function parameter, so the ranking results hold for any distance function. Symmetry and zero self-distance are not stated.
- `date.today()`: the reference date is a parameter of the status endpoint.
- Timestamps (`data_criacao`, `data_atualizacao`): they are set by the database clock and the engine never reads them.
- SQLAlchemy sessions, `commit` and `refresh`: each handler returns the tables as they stand after its writes. Keys come from a counter per table, which stands in for the database's autoincrement.
- FastAPI routing, authentication and JWT handling: the acting user is only logged. Errors are `HttpError` values.
- Patient notification (main.py:93-106, 188-195): the message text and the HTTP call are not modelled. Only how the call ends is, as the `Delivery` parameter. Building the message looks up the booking's offer, facility and procedure. The database's foreign keys (models.py:44-45 and 54) guarantee these rows exist, and the model assumes those lookups succeed.
- `create_new_solicitacao` (main.py:57-65) only calls `create_solicitacao`, which is modelled. `create_oferta` and its endpoint (main.py:119-127) are not part of this model; offers come from the initial tables.
- Lifecycle.RunPreservesInvariants: offer creation (POST /ofertas) is not an `Action`. It stores any integer capacity, negative included, so non-negative capacities are assumed of the initial offers only.
- Concurrency: the code takes no locks, so two approvals racing for one place are not modelled.
- Data seeding, the load simulator, the review and communication services and the web front end are outside the allocation core.
- Row order: the offer query has no ORDER BY, so the database's row order decides ties. The model assumes the row order of `Db.ofertas`.
