/**
 Worked examples on concrete tables.
 */
module Scenarios {
  import opened Wrappers
  import opened Models
  import opened Agent

  /** Two offers for the same procedure on the same day: the nearer facility wins. */
  lemma NearerOfferWins()
    ensures
      var origem := Unidade(1, "0001", "Origem", 0.0, 0.0);
      var longe := Unidade(2, "0002", "Longe", 0.0, 1.0);
      var perto := Unidade(3, "0003", "Perto", 0.0, 0.1);
      var proc := Procedimento(7, "P7", "Consulta");
      var db := Db(map[], [origem, longe, perto], [proc],
                   [NewOferta(10, 2, 7, 100, None, None), NewOferta(11, 3, 7, 100, None, None)], map[], 1, 1);
      var s := NewSolicitacao("pac", "0001", "P7");
      var distance := (la1: real, lo1: real, la2: real, lo2: real) => (lo2 - lo1) * 111.0;
      FindBestSlot(db, s, 90, distance) == Some(1)
  {
    var origem := Unidade(1, "0001", "Origem", 0.0, 0.0);
    var longe := Unidade(2, "0002", "Longe", 0.0, 1.0);
    var perto := Unidade(3, "0003", "Perto", 0.0, 0.1);
    var proc := Procedimento(7, "P7", "Consulta");
    var db := Db(map[], [origem, longe, perto], [proc],
                 [NewOferta(10, 2, 7, 100, None, None), NewOferta(11, 3, 7, 100, None, None)], map[], 1, 1);
    var s := NewSolicitacao("pac", "0001", "P7");
    var distance := (la1: real, lo1: real, la2: real, lo2: real) => (lo2 - lo1) * 111.0;
    assert UnidadeByCnes(db.unidades, "0001") == Some(origem);
    assert ProcedimentoByCode(db.procedimentos, "P7") == Some(proc);
    var q := SlotQuery(origem, proc, 90);
    assert QueryFor(db, s, 90) == Some(q);
    assert UnidadeById(db.unidades, 2) == Some(longe);
    assert db.unidades[1..][1..] == [perto];
    assert UnidadeById([perto], 3) == Some(perto);
    assert UnidadeById(db.unidades[1..], 3) == Some(perto);
    assert UnidadeById(db.unidades, 3) == Some(perto);
    assert Eligible(db, q, db.ofertas[0]) && Eligible(db, q, db.ofertas[1]);
    assert DistanceTo(db, q, distance, db.ofertas[0]) == 111.0;
    assert DistanceTo(db, q, distance, db.ofertas[1]) == 0.1 * 111.0;
    assert IsBestSlot(db, q, distance, 1);
    var r := FindBestSlot(db, s, 90, distance);
    assert AnyEligible(db, q);
    BestSlotUnique(db, q, distance, r.value, 1);
  }
}
