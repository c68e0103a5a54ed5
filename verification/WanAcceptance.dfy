/**
 * Which documents the WAN validator accepts, said of the document and the ports alone although the walk rewrites
 * ports as it goes; and where and why it refuses the others; gateway/sbegw/schema.py.
 */
module WanAcceptance {
  import opened Wrappers
  import opened WanPorts

  /** The uplink is enabled and its port has lost the WAN role. */
  predicate Displaced(w: Wan, ports: Ports) {
    On(w) && w.port.Some? && w.port.value in ports && ports[w.port.value].role != WanRole
  }

  predicate UsableWanPort(p: string, ports: Ports) {
    p in ports && ports[p].role == WanRole && ports[p].enabled
  }

  /** The port belongs to a WAN before place d, or to another enabled one. */
  ghost predicate TakenFrom(doc: seq<Wan>, d: nat, p: string) {
    exists j :: 0 <= j < |doc| && j != d && doc[j].port == Some(p) && (j < d || On(doc[j]))
  }

  /** The ports the displaced uplink at place d could follow to. */
  ghost predicate Vacant(doc: seq<Wan>, d: nat, ports: Ports, p: string) {
    UsableWanPort(p, ports) && !TakenFrom(doc, d, p)
  }

  /** There is exactly one such port. */
  ghost predicate OneVacant(doc: seq<Wan>, d: nat, ports: Ports) {
    (exists p :: Vacant(doc, d, ports, p))
    && forall p, q | Vacant(doc, d, ports, p) && Vacant(doc, d, ports, q) :: p == q
  }

  /** The port is that of an earlier uplink, or the one an earlier displaced uplink follows to. */
  ghost predicate SettledBefore(doc: seq<Wan>, i: nat, ports: Ports, p: string)
    requires i <= |doc|
  {
    exists j :: 0 <= j < i && if Displaced(doc[j], ports) then Vacant(doc, j, ports, p) else doc[j].port == Some(p)
  }

  ghost predicate DisplacedBefore(doc: seq<Wan>, i: nat, ports: Ports)
    requires i <= |doc|
  {
    exists j :: 0 <= j < i && Displaced(doc[j], ports)
  }

  /** What speaks against the uplink at place i, if anything does. */
  ghost function Objection(doc: seq<Wan>, i: nat, ports: Ports): Option<Reason>
    requires i < |doc|
  {
    var w := doc[i];
    if !w.headOk then Some(BadField)
    else if w.port.None? || w.port.value !in ports then Some(UnknownPort)
    else if SettledBefore(doc, i, ports, w.port.value) then Some(PortTaken)
    else if Displaced(w, ports) && (DisplacedBefore(doc, i, ports) || !OneVacant(doc, i, ports)) then Some(NotAWanPort)
    else if !w.restOk then Some(BadField)
    else None
  }

  ghost predicate NoObjectionBefore(doc: seq<Wan>, i: nat, ports: Ports)
    requires i <= |doc|
  {
    forall j | 0 <= j < i :: Objection(doc, j, ports).None?
  }

  // ------------------------------------------------------ what the walk has made

  /** What an uplink without objection becomes. */
  ghost predicate SettledAs(doc: seq<Wan>, j: nat, ports: Ports, w: Wan)
    requires j < |doc|
  {
    && w.port.Some? && On(w) == On(doc[j])
    && if Displaced(doc[j], ports) then Vacant(doc, j, ports, w.port.value) else w.port == doc[j].port
  }

  /** The walk has come to place i: the rest is as given, and the ports used are those of the part settled. */
  ghost predicate WalkedTo(doc: seq<Wan>, wans: seq<Wan>, i: nat, used: set<string>, ports: Ports) {
    && i <= |wans| == |doc|
    && (forall j | i <= j < |doc| :: wans[j] == doc[j])
    && (forall j | 0 <= j < i :: SettledAs(doc, j, ports, wans[j]) && wans[j].port.value in used)
    && UsedOnly(wans, i, used)
    && NoObjectionBefore(doc, i, ports)
  }

  lemma UsedIffSettledBefore(doc: seq<Wan>, wans: seq<Wan>, i: nat, used: set<string>, ports: Ports, p: string)
    requires WalkedTo(doc, wans, i, used, ports)
    ensures p in used <==> SettledBefore(doc, i, ports, p)
  {
    if p in used {
      var j :| 0 <= j < i && wans[j].port == Some(p);
      assert SettledAs(doc, j, ports, wans[j]);
    }
    if SettledBefore(doc, i, ports, p) {
      var j :| 0 <= j < i && if Displaced(doc[j], ports) then Vacant(doc, j, ports, p) else doc[j].port == Some(p);
      assert SettledAs(doc, j, ports, wans[j]) && Objection(doc, j, ports).None?;
      if Displaced(doc[j], ports) {
        assert OneVacant(doc, j, ports);
      }
    }
  }

  /** While nobody was displaced, the ports free in the walk are those vacant in the document. */
  lemma FreeIsVacant(doc: seq<Wan>, wans: seq<Wan>, i: nat, used: set<string>, ports: Ports, p: string)
    requires WalkedTo(doc, wans, i, used, ports) && i < |doc| && !DisplacedBefore(doc, i, ports)
    ensures p in Free(wans, i, used, ports) <==> Vacant(doc, i, ports, p)
  {
    if TakenFrom(doc, i, p) {
      var j :| 0 <= j < |doc| && j != i && doc[j].port == Some(p) && (j < i || On(doc[j]));
      assert j < i ==> SettledAs(doc, j, ports, wans[j]) && wans[j].port == Some(p);
      assert p in Claimed(wans, i, used);
    }
    if p in Claimed(wans, i, used) {
      if p in used {
        var j :| 0 <= j < i && wans[j].port == Some(p);
        assert SettledAs(doc, j, ports, wans[j]);
        assert doc[j].port == Some(p);
      } else {
        var j :| 0 <= j < |wans| && j != i && On(wans[j]) && wans[j].port.Some? && wans[j].port.value == p;
        assert doc[j].port == Some(p) && On(doc[j]);
      }
    }
  }

  /** Once somebody was, nothing is free for anybody else displaced. */
  lemma NothingFreeAfterMove(doc: seq<Wan>, wans: seq<Wan>, i: nat, used: set<string>, ports: Ports, d: nat)
    requires WalkedTo(doc, wans, i, used, ports) && i < |doc| && Displaced(doc[i], ports)
    requires d < i && Displaced(doc[d], ports)
    ensures Free(wans, i, used, ports) == {}
  {
    assert Objection(doc, d, ports).None? && OneVacant(doc, d, ports) && SettledAs(doc, d, ports, wans[d]);
    forall p | UsableWanPort(p, ports) ensures p in Claimed(wans, i, used) {
      if TakenFrom(doc, d, p) {
        var j :| 0 <= j < |doc| && j != d && doc[j].port == Some(p) && (j < d || On(doc[j]));
        assert !Displaced(doc[j], ports) && j != i;
        if j < i {
          assert SettledAs(doc, j, ports, wans[j]);
        }
      } else {
        assert Vacant(doc, d, ports, p) && Vacant(doc, d, ports, wans[d].port.value);
      }
    }
  }

  lemma SingletonIff(s: set<string>)
    ensures |s| == 1 <==> (exists p :: p in s) && forall p, q | p in s && q in s :: p == q
  {
    if |s| == 1 {
      SingletonElement(s);
    }
    if (exists p :: p in s) && forall p, q | p in s && q in s :: p == q {
      var p :| p in s;
      assert s == {p};
    }
  }

  lemma OneFreeIff(doc: seq<Wan>, wans: seq<Wan>, i: nat, used: set<string>, ports: Ports)
    requires WalkedTo(doc, wans, i, used, ports) && i < |doc| && Displaced(doc[i], ports)
    ensures |Free(wans, i, used, ports)| == 1 <==> !DisplacedBefore(doc, i, ports) && OneVacant(doc, i, ports)
    ensures |Free(wans, i, used, ports)| == 1 ==> Vacant(doc, i, ports, Only(Free(wans, i, used, ports)))
  {
    var free := Free(wans, i, used, ports);
    if DisplacedBefore(doc, i, ports) {
      var d :| 0 <= d < i && Displaced(doc[d], ports);
      NothingFreeAfterMove(doc, wans, i, used, ports, d);
    } else {
      forall p ensures p in free <==> Vacant(doc, i, ports, p) {
        FreeIsVacant(doc, wans, i, used, ports, p);
      }
      SingletonIff(free);
      if |free| == 1 {
        assert Only(free) in free;
      }
    }
  }

  /** Settling the uplink in the walk fails exactly for the objection read off the document. */
  lemma SettlesIff(doc: seq<Wan>, wans: seq<Wan>, i: nat, used: set<string>, ports: Ports)
    requires WalkedTo(doc, wans, i, used, ports) && i < |doc|
    ensures match Settle(wans, i, used, ports)
            case Err(reason) => Objection(doc, i, ports) == Some(reason)
            case Ok(w) => Objection(doc, i, ports).None? && SettledAs(doc, i, ports, w)
  {
    var w := doc[i];
    if w.headOk && w.port.Some? && w.port.value in ports {
      UsedIffSettledBefore(doc, wans, i, used, ports, w.port.value);
      if Displaced(w, ports) {
        OneFreeIff(doc, wans, i, used, ports);
      }
    }
  }

  lemma WalkedToNext(doc: seq<Wan>, wans: seq<Wan>, i: nat, used: set<string>, ports: Ports, w: Wan)
    requires WalkedTo(doc, wans, i, used, ports) && i < |doc|
    requires Objection(doc, i, ports).None? && SettledAs(doc, i, ports, w)
    ensures WalkedTo(doc, wans[i := w], i + 1, used + {w.port.value}, ports)
  {
    UsedOnlyNext(wans, i, used, w);
  }

  /** The walk ends well if nothing speaks against any uplink, and else at the first something speaks against. */
  ghost predicate DecidedBy(doc: seq<Wan>, ports: Ports, r: Result<Settled, Refusal>) {
    match r
    case Ok(_) => NoObjectionBefore(doc, |doc|, ports)
    case Err(refusal) =>
      && refusal.index < |doc| && NoObjectionBefore(doc, refusal.index, ports)
      && Objection(doc, refusal.index, ports) == Some(refusal.reason)
  }

  type Invariant = (seq<Wan>, nat, set<string>) -> bool

  /** Settling the next uplink keeps the invariant, or fails for a reason that decides. */
  ghost predicate StepDecides(wans: seq<Wan>, i: nat, used: set<string>, ports: Ports, inv: Invariant,
                              decides: Result<Settled, Refusal> -> bool)
    requires i < |wans|
  {
    match Settle(wans, i, used, ports)
    case Err(reason) => decides(Err(Refusal(i, reason)))
    case Ok(w) => w.port.Some? && inv(wans[i := w], i + 1, used + {w.port.value})
  }

  /** What is decided at the end and at each failing step is decided of the whole walk. */
  lemma {:induction false} WalkDecides(i: nat, wans: seq<Wan>, used: set<string>, moves: seq<Move>, ports: Ports,
                                       inv: Invariant, decides: Result<Settled, Refusal> -> bool)
    requires i <= |wans| && inv(wans, i, used)
    requires forall ws: seq<Wan>, k: nat, us: set<string> | inv(ws, k, us) && k < |ws| ::
               StepDecides(ws, k, us, ports, inv, decides)
    requires forall ws: seq<Wan>, us: set<string>, ms: seq<Move> | inv(ws, |ws|, us) :: decides(Ok(Settled(ws, ms)))
    ensures decides(WalkFrom(i, wans, used, moves, ports))
    decreases |wans| - i
  {
    if i < |wans| {
      assert StepDecides(wans, i, used, ports, inv, decides);
      var r := Settle(wans, i, used, ports);
      if r.Ok? {
        var w := r.value;
        WalkDecides(i + 1, wans[i := w], used + {w.port.value}, moves + MovesOf(wans[i], w), ports, inv, decides);
      }
    }
  }

  lemma DocumentDecidesStep(doc: seq<Wan>, wans: seq<Wan>, i: nat, used: set<string>, ports: Ports, inv: Invariant,
                            decides: Result<Settled, Refusal> -> bool)
    requires WalkedTo(doc, wans, i, used, ports) && i < |doc|
    requires forall ws: seq<Wan>, k: nat, us: set<string> :: inv(ws, k, us) <==> WalkedTo(doc, ws, k, us, ports)
    requires forall r :: decides(r) <==> DecidedBy(doc, ports, r)
    ensures StepDecides(wans, i, used, ports, inv, decides)
  {
    SettlesIff(doc, wans, i, used, ports);
    var r := Settle(wans, i, used, ports);
    if r.Ok? {
      WalkedToNext(doc, wans, i, used, ports, r.value);
    }
  }

  /**
   * A document is accepted exactly when nothing speaks against any of its uplinks; otherwise the first one that
   * something speaks against is named, with what that is.
   */
  lemma WalkDecidedOnDocument(doc: seq<Wan>, ports: Ports)
    ensures DecidedBy(doc, ports, Walk(doc, ports))
    ensures Walk(doc, ports).Ok? <==> NoObjectionBefore(doc, |doc|, ports)
  {
    ghost var inv: Invariant := (ws: seq<Wan>, k: nat, us: set<string>) => WalkedTo(doc, ws, k, us, ports);
    ghost var decides: Result<Settled, Refusal> -> bool := r => DecidedBy(doc, ports, r);
    DocumentDecides(doc, ports, inv, decides);
  }

  lemma DocumentDecides(doc: seq<Wan>, ports: Ports, inv: Invariant, decides: Result<Settled, Refusal> -> bool)
    requires forall ws: seq<Wan>, k: nat, us: set<string> :: inv(ws, k, us) <==> WalkedTo(doc, ws, k, us, ports)
    requires forall r :: decides(r) <==> DecidedBy(doc, ports, r)
    ensures decides(Walk(doc, ports))
  {
    forall ws: seq<Wan>, k: nat, us: set<string> | inv(ws, k, us) && k < |ws|
      ensures StepDecides(ws, k, us, ports, inv, decides)
    {
      DocumentDecidesStep(doc, ws, k, us, ports, inv, decides);
    }
    assert WalkedTo(doc, doc, 0, {}, ports);
    WalkDecides(0, doc, {}, [], ports, inv, decides);
  }

  // ---------------------------------------------------- the whole document at once

  ghost predicate FieldsSound(doc: seq<Wan>, ports: Ports) {
    forall i | 0 <= i < |doc| ::
      doc[i].headOk && doc[i].restOk && doc[i].port.Some? && doc[i].port.value in ports
  }

  ghost predicate OneDisplaced(doc: seq<Wan>, ports: Ports) {
    forall i, j | 0 <= i < j < |doc| :: !(Displaced(doc[i], ports) && Displaced(doc[j], ports))
  }

  /** A displaced uplink has exactly one port to follow to, and no later uplink sits on that. */
  ghost predicate CanFollow(doc: seq<Wan>, ports: Ports) {
    forall d | 0 <= d < |doc| && Displaced(doc[d], ports) ::
      OneVacant(doc, d, ports)
      && forall k | d < k < |doc| && doc[k].port.Some? :: !Vacant(doc, d, ports, doc[k].port.value)
  }

  /** Ports are distinct, but a disabled uplink may sit on the port that an earlier displaced one leaves. */
  ghost predicate PortsDistinct(doc: seq<Wan>, ports: Ports) {
    forall i, j | 0 <= i < j < |doc| && doc[i].port == doc[j].port :: Displaced(doc[i], ports) && !On(doc[j])
  }

  /**
   * The accepted documents: fields sound and ports known, at most one enabled uplink on a port without the WAN role,
   * that one with a single port to follow to, and ports distinct but for the one it leaves.
   */
  lemma AcceptedIff(doc: seq<Wan>, ports: Ports)
    ensures Walk(doc, ports).Ok? <==>
            FieldsSound(doc, ports) && OneDisplaced(doc, ports) && CanFollow(doc, ports) && PortsDistinct(doc, ports)
  {
    WalkDecidedOnDocument(doc, ports);
    if NoObjectionBefore(doc, |doc|, ports) {
      NoObjectionMeans(doc, ports);
    }
    if FieldsSound(doc, ports) && OneDisplaced(doc, ports) && CanFollow(doc, ports) && PortsDistinct(doc, ports) {
      forall i | 0 <= i < |doc| ensures Objection(doc, i, ports).None? {
        NothingSpeaksAgainst(doc, i, ports);
      }
    }
  }

  lemma NothingSpeaksAgainst(doc: seq<Wan>, i: nat, ports: Ports)
    requires FieldsSound(doc, ports) && OneDisplaced(doc, ports) && CanFollow(doc, ports) && PortsDistinct(doc, ports)
    requires i < |doc|
    ensures Objection(doc, i, ports).None?
  {
    var p := doc[i].port.value;
    forall j | 0 <= j < i
      ensures !(if Displaced(doc[j], ports) then Vacant(doc, j, ports, p) else doc[j].port == Some(p))
    {
      assert doc[i].port == Some(p);
    }
  }

  lemma NoObjectionMeans(doc: seq<Wan>, ports: Ports)
    requires NoObjectionBefore(doc, |doc|, ports)
    ensures FieldsSound(doc, ports) && OneDisplaced(doc, ports) && CanFollow(doc, ports) && PortsDistinct(doc, ports)
  {
    forall i | 0 <= i < |doc|
      ensures doc[i].headOk && doc[i].restOk && doc[i].port.Some? && doc[i].port.value in ports
      ensures Displaced(doc[i], ports) ==> !DisplacedBefore(doc, i, ports) && OneVacant(doc, i, ports)
      ensures !SettledBefore(doc, i, ports, doc[i].port.value)
    {
      assert Objection(doc, i, ports).None?;
    }
    assert OneDisplaced(doc, ports);
    forall i, j | 0 <= i < j < |doc| && doc[i].port == doc[j].port
      ensures Displaced(doc[i], ports) && !On(doc[j])
    {
      assert !SettledBefore(doc, j, ports, doc[j].port.value);
      assert Displaced(doc[i], ports);
    }
    forall d, k | 0 <= d < k < |doc| && Displaced(doc[d], ports) ensures !Vacant(doc, d, ports, doc[k].port.value) {
      assert !SettledBefore(doc, k, ports, doc[k].port.value);
    }
  }
}
