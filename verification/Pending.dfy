/** In-flight kick bookkeeping: BTM requests awaiting a roam or a fallback, and kicks awaiting
    their post-kick roam check. */
module Pending {
  import opened Config
  import L = Ledger

  datatype PendingBtm = PendingBtm(group: L.Group, apId: Ap)

  datatype Outcome = Outcome(apId: Ap, mechanism: L.RowMechanism, attemptGroup: L.Group)

  datatype InFlight = InFlight(btm: map<Mac, PendingBtm>, outcome: map<Mac, Outcome>)

  function GetBtm(f: InFlight, mac: Mac): Option<PendingBtm> {
    if mac in f.btm then Some(f.btm[mac]) else None
  }

  function GetOutcome(f: InFlight, mac: Mac): Option<Outcome> {
    if mac in f.outcome then Some(f.outcome[mac]) else None
  }

  class PendingKicks {
    var btm: map<Mac, PendingBtm>
    var outcome: map<Mac, Outcome>

    function Model(): InFlight reads this { InFlight(btm, outcome) }

    constructor ()
      ensures Model() == InFlight(map[], map[])
    {
      btm, outcome := map[], map[];
    }

    method SetBtm(mac: Mac, group: L.Group, apId: Ap)
      modifies this`btm
      ensures btm == old(btm)[mac := PendingBtm(group, apId)]
    {
      btm := btm[mac := PendingBtm(group, apId)];
    }

    method ReadBtm(mac: Mac) returns (r: Option<PendingBtm>)
      ensures r == GetBtm(Model(), mac)
    {
      if mac in btm { return Some(btm[mac]); }
      return None;
    }

    method ClearBtm(mac: Mac)
      modifies this`btm
      ensures btm == old(btm) - {mac}
    {
      btm := btm - {mac};
    }

    method SetOutcome(mac: Mac, apId: Ap, mechanism: L.RowMechanism, attemptGroup: L.Group)
      modifies this`outcome
      ensures outcome == old(outcome)[mac := Outcome(apId, mechanism, attemptGroup)]
    {
      outcome := outcome[mac := Outcome(apId, mechanism, attemptGroup)];
    }

    method PopOutcome(mac: Mac) returns (r: Option<Outcome>)
      modifies this`outcome
      ensures outcome == old(outcome) - {mac}
      ensures r == GetOutcome(old(Model()), mac)
    {
      r := None;
      if mac in outcome { r := Some(outcome[mac]); }
      outcome := outcome - {mac};
    }
  }
}
