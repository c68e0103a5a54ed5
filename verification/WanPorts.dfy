/**
 * `_validate_wans` of gateway/sbegw/schema.py: WAN uplinks bound to ports, and the rule that moves an
 * uplink from a demoted port to the one free WAN port while the document is being walked.
 */
module WanPorts {
  import opened Wrappers

  datatype Role = Lan | WanRole | Disabled

  datatype Port = Port(role: Role, enabled: bool)

  type Ports = map<string, Port>

  /** `headOk` and `restOk` stand for the plain field checks before and after the port is settled. */
  datatype Wan = Wan(id: string, headOk: bool, enabled: Option<bool>, port: Option<string>, restOk: bool)

  datatype Move = Move(id: string, from: string, to: string)

  datatype Reason = BadField | UnknownPort | PortTaken | NotAWanPort

  datatype Refusal = Refusal(index: nat, reason: Reason)

  /** A missing flag means enabled. */
  predicate On(w: Wan) {
    w.enabled != Some(false)
  }

  predicate WanPort(p: string, ports: Ports) {
    p in ports && ports[p].role == WanRole
  }

  /** Ports already used, and those other enabled WANs sit on. */
  function Claimed(wans: seq<Wan>, i: nat, used: set<string>): set<string> {
    used + set j | 0 <= j < |wans| && j != i && On(wans[j]) && wans[j].port.Some? :: wans[j].port.value
  }

  function Free(wans: seq<Wan>, i: nat, used: set<string>, ports: Ports): set<string> {
    set p | p in ports && ports[p].role == WanRole && ports[p].enabled && p !in Claimed(wans, i, used)
  }

  /** The one element of a singleton. */
  function Only(s: set<string>): (p: string)
    requires |s| == 1
    ensures s == {p}
  {
    SingletonElement(s);
    var p :| p in s;
    p
  }

  lemma SingletonElement(s: set<string>)
    requires |s| == 1
    ensures s != {} && forall p, q | p in s && q in s :: p == q
  {
    var p :| p in s;
    assert |s - {p}| == 0;
    assert s - {p} == {};
  }

  /** The WAN at index i, settled: its enabled flag filled in and its port kept or moved. */
  function Settle(wans: seq<Wan>, i: nat, used: set<string>, ports: Ports): Result<Wan, Reason>
    requires i < |wans|
  {
    var w := wans[i];
    if !w.headOk then Err(BadField)
    else if w.port.None? || w.port.value !in ports then Err(UnknownPort)
    else if w.port.value in used then Err(PortTaken)
    else
      var filled := w.(enabled := Some(On(w)));
      if On(w) && ports[w.port.value].role != WanRole then
        var free := Free(wans, i, used, ports);
        if |free| != 1 then Err(NotAWanPort)
        else if !w.restOk then Err(BadField)
        else Ok(filled.(port := Some(Only(free))))
      else if !w.restOk then Err(BadField)
      else Ok(filled)
  }

  datatype Settled = Settled(wans: seq<Wan>, moves: seq<Move>)

  function MovesOf(before: Wan, after: Wan): seq<Move> {
    if before.port.Some? && after.port.Some? && before.port != after.port then
      [Move(before.id, before.port.value, after.port.value)]
    else []
  }

  /** Walk the document from index i on, with the ports used so far. */
  function WalkFrom(i: nat, wans: seq<Wan>, used: set<string>, moves: seq<Move>, ports: Ports): Result<Settled, Refusal>
    requires i <= |wans|
    decreases |wans| - i
  {
    if i == |wans| then Ok(Settled(wans, moves))
    else
      var r := Settle(wans, i, used, ports);
      if r.Err? then Err(Refusal(i, r.error))
      else
        var used' := if r.value.port.Some? then used + {r.value.port.value} else used;
        WalkFrom(i + 1, wans[i := r.value], used', moves + MovesOf(wans[i], r.value), ports)
  }

  function Walk(wans: seq<Wan>, ports: Ports): Result<Settled, Refusal> {
    WalkFrom(0, wans, {}, [], ports)
  }

  /** The validator's loop, settling the WANs in place. */
  method ValidateWans(doc: seq<Wan>, ports: Ports) returns (r: Result<Settled, Refusal>)
    ensures r == Walk(doc, ports)
  {
    var wans, moves, used := doc, [], {};
    for i := 0 to |doc|
      invariant |wans| == |doc|
      invariant WalkFrom(i, wans, used, moves, ports) == Walk(doc, ports)
    {
      var w := wans[i];
      if !w.headOk {
        return Err(Refusal(i, BadField));
      }
      w := w.(enabled := Some(On(w)));
      if w.port.None? || w.port.value !in ports {
        return Err(Refusal(i, UnknownPort));
      }
      var port := w.port.value;
      if port in used {
        return Err(Refusal(i, PortTaken));
      }
      ghost var settled := Settle(wans, i, used, ports);
      var moved: seq<Move> := [];
      if w.enabled == Some(true) && ports[port].role != WanRole {
        var free := Free(wans, i, used, ports);
        if |free| != 1 {
          return Err(Refusal(i, NotAWanPort));
        }
        port := Only(free);
        moved := [Move(w.id, w.port.value, port)];
        assert port in free;
        w := w.(port := Some(port));
      }
      if !w.restOk {
        return Err(Refusal(i, BadField));
      }
      assert settled == Ok(w) && moved == MovesOf(wans[i], w);
      wans := wans[i := w];
      used := used + {port};
      moves := moves + moved;
    }
    return Ok(Settled(wans, moves));
  }

  // ------------------------------------------------------ what is accepted

  /** The part already walked: each port exists and is used once, and enabled WANs are on WAN ports. */
  predicate Walked(wans: seq<Wan>, i: nat, used: set<string>, ports: Ports)
    requires i <= |wans|
  {
    && (forall j | 0 <= j < i ::
          && wans[j].headOk && wans[j].restOk && wans[j].enabled.Some?
          && wans[j].port.Some? && wans[j].port.value in ports && wans[j].port.value in used
          && (On(wans[j]) ==> WanPort(wans[j].port.value, ports)))
    && (forall j, k | 0 <= j < k < i :: wans[j].port != wans[k].port)
  }

  /** No port counts as used that the part already walked does not use. */
  ghost predicate UsedOnly(wans: seq<Wan>, i: nat, used: set<string>)
    requires i <= |wans|
  {
    forall p | p in used :: exists j :: 0 <= j < i && wans[j].port == Some(p)
  }

  /** What settling may change of a WAN: the flag's default, and the port of one enabled on a demoted port. */
  predicate Follows(before: Wan, after: Wan, ports: Ports) {
    && after == before.(enabled := Some(On(before)), port := after.port)
    && before.port.Some? && after.port.Some? && before.port.value in ports
    && (after.port != before.port <==> On(before) && !WanPort(before.port.value, ports))
  }

  lemma SettleFollows(wans: seq<Wan>, i: nat, used: set<string>, ports: Ports)
    requires i < |wans| && Settle(wans, i, used, ports).Ok?
    ensures var w := Settle(wans, i, used, ports).value;
            && Follows(wans[i], w, ports) && w.headOk && w.restOk
            && w.port.value in ports && (On(w) ==> WanPort(w.port.value, ports))
            && (w.port == wans[i].port ==> w.port.value !in used)
            && (w.port != wans[i].port ==> Free(wans, i, used, ports) == {w.port.value} && w.port.value !in used)
  {
    if On(wans[i]) && ports[wans[i].port.value].role != WanRole {
      var free := Free(wans, i, used, ports);
      assert Only(free) in free;
    }
  }

  lemma WalkedNext(wans: seq<Wan>, i: nat, used: set<string>, w: Wan, ports: Ports)
    requires i < |wans| && Walked(wans, i, used, ports)
    requires w.headOk && w.restOk && w.enabled.Some? && w.port.Some? && w.port.value in ports && w.port.value !in used
    requires On(w) ==> WanPort(w.port.value, ports)
    ensures Walked(wans[i := w], i + 1, used + {w.port.value}, ports)
  {
  }

  lemma UsedOnlyNext(wans: seq<Wan>, i: nat, used: set<string>, w: Wan)
    requires i < |wans| && UsedOnly(wans, i, used) && w.port.Some?
    ensures UsedOnly(wans[i := w], i + 1, used + {w.port.value})
  {
    var next := wans[i := w];
    forall p | p in used + {w.port.value} ensures exists j :: 0 <= j < i + 1 && next[j].port == Some(p) {
      if p in used {
        var j :| 0 <= j < i && wans[j].port == Some(p);
        assert next[j].port == Some(p);
      } else {
        assert next[i].port == Some(p);
      }
    }
  }

  /** One step of the walk, as the lemmas below use it. */
  lemma WalkStep(i: nat, wans: seq<Wan>, used: set<string>, moves: seq<Move>, ports: Ports)
    requires i < |wans| && Walked(wans, i, used, ports)
    requires WalkFrom(i, wans, used, moves, ports).Ok?
    ensures Settle(wans, i, used, ports).Ok?
    ensures var w := Settle(wans, i, used, ports).value;
            && Follows(wans[i], w, ports)
            && Walked(wans[i := w], i + 1, used + {w.port.value}, ports)
            && WalkFrom(i, wans, used, moves, ports) ==
               WalkFrom(i + 1, wans[i := w], used + {w.port.value}, moves + MovesOf(wans[i], w), ports)
  {
    SettleFollows(wans, i, used, ports);
    WalkedNext(wans, i, used, Settle(wans, i, used, ports).value, ports);
  }

  function UsedBy(wans: seq<Wan>): set<string> {
    set j | 0 <= j < |wans| && wans[j].port.Some? :: wans[j].port.value
  }

  lemma {:induction false} WalkFromResult(i: nat, wans: seq<Wan>, used: set<string>, moves: seq<Move>, ports: Ports)
    requires i <= |wans| && Walked(wans, i, used, ports)
    requires WalkFrom(i, wans, used, moves, ports).Ok?
    ensures var out := WalkFrom(i, wans, used, moves, ports).value.wans;
            && |out| == |wans|
            && (forall j | 0 <= j < i :: out[j] == wans[j])
            && (forall j | i <= j < |wans| :: Follows(wans[j], out[j], ports))
            && Walked(out, |out|, UsedBy(out), ports)
    decreases |wans| - i
  {
    if i < |wans| {
      WalkStep(i, wans, used, moves, ports);
      var w := Settle(wans, i, used, ports).value;
      WalkFromResult(i + 1, wans[i := w], used + {w.port.value}, moves + MovesOf(wans[i], w), ports);
    } else {
      assert forall j | 0 <= j < |wans| :: wans[j].port.value in UsedBy(wans);
    }
  }

  /**
   * An accepted document has pairwise distinct ports, every enabled WAN on a WAN port, and differs from
   * the one given only in filled-in flags and in the ports of enabled WANs that sat on a demoted port.
   */
  lemma AcceptedWans(doc: seq<Wan>, ports: Ports)
    requires Walk(doc, ports).Ok?
    ensures var out := Walk(doc, ports).value.wans;
            && |out| == |doc|
            && (forall j | 0 <= j < |out| :: out[j].port.Some? && out[j].port.value in ports)
            && (forall j, k | 0 <= j < k < |out| :: out[j].port != out[k].port)
            && (forall j | 0 <= j < |out| && On(out[j]) :: WanPort(out[j].port.value, ports))
            && (forall j | 0 <= j < |out| :: Follows(doc[j], out[j], ports))
  {
    WalkFromResult(0, doc, {}, [], ports);
  }

  // -------------------------------------------------------- running it again

  lemma SettledSettles(wans: seq<Wan>, i: nat, used: set<string>, ports: Ports)
    requires i < |wans|
    requires Walked(wans, |wans|, UsedBy(wans), ports) && UsedOnly(wans, i, used)
    ensures Settle(wans, i, used, ports) == Ok(wans[i]) && wans[i].port.Some? && wans[i].port.value !in used
  {
    var w := wans[i];
    assert forall j | 0 <= j < i :: wans[j].port != w.port;
    var flag := w.enabled.value;
    assert w.enabled == Some(flag) && (flag == true || flag == false);
    assert On(w) == flag;
  }

  /** A settled document walks through unchanged. */
  lemma {:induction false} SettledWalks(i: nat, wans: seq<Wan>, used: set<string>, ports: Ports)
    requires i <= |wans|
    requires Walked(wans, |wans|, UsedBy(wans), ports) && UsedOnly(wans, i, used)
    ensures WalkFrom(i, wans, used, [], ports) == Ok(Settled(wans, []))
    decreases |wans| - i
  {
    if i < |wans| {
      var w := wans[i];
      SettledSettles(wans, i, used, ports);
      UsedOnlyNext(wans, i, used, w);
      assert wans[i := w] == wans;
      assert [] + MovesOf(w, w) == [];
      SettledWalks(i + 1, wans, used + {w.port.value}, ports);
    }
  }

  /** Validating the accepted document again accepts it, changes nothing and reports no move. */
  lemma SecondWalkIsQuiet(doc: seq<Wan>, ports: Ports)
    requires Walk(doc, ports).Ok?
    ensures Walk(Walk(doc, ports).value.wans, ports) == Ok(Settled(Walk(doc, ports).value.wans, []))
  {
    WalkFromResult(0, doc, {}, [], ports);
    SettledWalks(0, Walk(doc, ports).value.wans, {}, ports);
  }

  // ------------------------------------------------------ at most one move

  /** Every usable WAN port is used, or held by an enabled WAN still to be walked. */
  ghost predicate NoneSpare(wans: seq<Wan>, i: nat, used: set<string>, ports: Ports) {
    forall p | p in ports && ports[p].role == WanRole && ports[p].enabled ::
      p in used || exists j :: i <= j < |wans| && On(wans[j]) && wans[j].port == Some(p)
  }

  lemma MoveUsesTheLast(wans: seq<Wan>, i: nat, used: set<string>, ports: Ports)
    requires i < |wans| && Walked(wans, i, used, ports)
    requires Settle(wans, i, used, ports).Ok? && Settle(wans, i, used, ports).value.port != wans[i].port
    requires Settle(wans, i, used, ports).value.port.Some?
    ensures var w := Settle(wans, i, used, ports).value;
            NoneSpare(wans[i := w], i + 1, used + {w.port.value}, ports)
  {
    SettleFollows(wans, i, used, ports);
    var w := Settle(wans, i, used, ports).value;
    var next := wans[i := w];
    var free := Free(wans, i, used, ports);
    forall p | p in ports && ports[p].role == WanRole && ports[p].enabled
      ensures p in used + {w.port.value} || exists j :: i + 1 <= j < |next| && On(next[j]) && next[j].port == Some(p)
    {
      if p != w.port.value && p !in used {
        assert p !in free && p in Claimed(wans, i, used);
        var j :| 0 <= j < |wans| && j != i && On(wans[j]) && wans[j].port.Some? && wans[j].port.value == p;
        assert next[j].port == Some(p);
      }
    }
  }

  lemma NoneSpareNoMove(wans: seq<Wan>, i: nat, used: set<string>, ports: Ports)
    requires i < |wans| && Walked(wans, i, used, ports) && NoneSpare(wans, i, used, ports)
    requires Settle(wans, i, used, ports).Ok? && Settle(wans, i, used, ports).value.port.Some?
    ensures var w := Settle(wans, i, used, ports).value;
            w.port == wans[i].port && NoneSpare(wans[i := w], i + 1, used + {w.port.value}, ports)
  {
    var w := Settle(wans, i, used, ports).value;
    if On(wans[i]) && ports[wans[i].port.value].role != WanRole {
      NoneSpareNoneFree(wans, i, used, ports);
    }
    var next := wans[i := w];
    forall p | p in ports && ports[p].role == WanRole && ports[p].enabled && p !in used + {w.port.value}
      ensures exists j :: i + 1 <= j < |next| && On(next[j]) && next[j].port == Some(p)
    {
      var j :| i <= j < |wans| && On(wans[j]) && wans[j].port == Some(p);
      assert next[j].port == Some(p);
    }
  }

  lemma NoneSpareNoneFree(wans: seq<Wan>, i: nat, used: set<string>, ports: Ports)
    requires i < |wans| && NoneSpare(wans, i, used, ports)
    requires wans[i].port.Some? && wans[i].port.value in ports && ports[wans[i].port.value].role != WanRole
    ensures Free(wans, i, used, ports) == {}
  {
    forall p | p in ports && ports[p].role == WanRole && ports[p].enabled ensures p in Claimed(wans, i, used) {
      if p !in used {
        var j :| i <= j < |wans| && On(wans[j]) && wans[j].port == Some(p);
        assert j != i;
      }
    }
  }

  /** No move so far, or one that took the last usable port. */
  ghost predicate OneAtMost(moves: seq<Move>, wans: seq<Wan>, i: nat, used: set<string>, ports: Ports) {
    |moves| <= 1 && (moves != [] ==> NoneSpare(wans, i, used, ports))
  }

  lemma OneMoveStep(i: nat, wans: seq<Wan>, used: set<string>, moves: seq<Move>, ports: Ports)
    requires i < |wans| && Walked(wans, i, used, ports)
    requires Settle(wans, i, used, ports).Ok? && Settle(wans, i, used, ports).value.port.Some?
    requires OneAtMost(moves, wans, i, used, ports)
    ensures var w := Settle(wans, i, used, ports).value;
            OneAtMost(moves + MovesOf(wans[i], w), wans[i := w], i + 1, used + {w.port.value}, ports)
  {
    if moves != [] {
      NoneSpareNoMove(wans, i, used, ports);
    } else if Settle(wans, i, used, ports).value.port != wans[i].port {
      MoveUsesTheLast(wans, i, used, ports);
    }
  }

  lemma {:induction false} WalkMovesAtMostOnce(i: nat, wans: seq<Wan>, used: set<string>, moves: seq<Move>,
                                               ports: Ports)
    requires i <= |wans| && Walked(wans, i, used, ports)
    requires OneAtMost(moves, wans, i, used, ports)
    requires WalkFrom(i, wans, used, moves, ports).Ok?
    ensures |WalkFrom(i, wans, used, moves, ports).value.moves| <= 1
    decreases |wans| - i
  {
    if i < |wans| {
      WalkStep(i, wans, used, moves, ports);
      var w := Settle(wans, i, used, ports).value;
      OneMoveStep(i, wans, used, moves, ports);
      var next, more, used' := wans[i := w], moves + MovesOf(wans[i], w), used + {w.port.value};
      WalkMovesAtMostOnce(i + 1, next, used', more, ports);
    }
  }

  /** No accepted document moves more than one uplink: the first move takes the only free WAN port there is. */
  lemma AtMostOneMove(doc: seq<Wan>, ports: Ports)
    requires Walk(doc, ports).Ok?
    ensures |Walk(doc, ports).value.moves| <= 1
  {
    WalkMovesAtMostOnce(0, doc, {}, [], ports);
  }

  // ------------------------------------------------- the moves are reported

  ghost predicate Reports(moves: seq<Move>, before: seq<Wan>, after: seq<Wan>) {
    && |before| == |after|
    && forall m :: m in moves <==> exists j :: 0 <= j < |before| && m in MovesOf(before[j], after[j])
  }

  lemma {:induction false} WalkReports(i: nat, doc: seq<Wan>, wans: seq<Wan>, used: set<string>, moves: seq<Move>,
                                       ports: Ports)
    requires i <= |wans| == |doc| && doc[i..] == wans[i..] && Walked(wans, i, used, ports)
    requires forall m :: m in moves <==> exists j :: 0 <= j < i && m in MovesOf(doc[j], wans[j])
    requires WalkFrom(i, wans, used, moves, ports).Ok?
    ensures var out := WalkFrom(i, wans, used, moves, ports).value; Reports(out.moves, doc, out.wans)
    decreases |wans| - i
  {
    if i < |wans| {
      WalkStep(i, wans, used, moves, ports);
      var w := Settle(wans, i, used, ports).value;
      var next := wans[i := w];
      var moved := MovesOf(wans[i], w);
      assert doc[i] == doc[i..][0] == wans[i..][0] == wans[i];
      assert next[i + 1..] == wans[i..][1..] == doc[i + 1..];
      forall m ensures m in moves + moved <==> exists j :: 0 <= j < i + 1 && m in MovesOf(doc[j], next[j]) {
        if m in moves {
          var j :| 0 <= j < i && m in MovesOf(doc[j], wans[j]);
          assert m in MovesOf(doc[j], next[j]);
        }
        if m in moved { assert m in MovesOf(doc[i], next[i]); }
        if j :| 0 <= j < i + 1 && m in MovesOf(doc[j], next[j]) {
          if j < i { assert m in MovesOf(doc[j], wans[j]); }
        }
      }
      WalkReports(i + 1, doc, next, used + {w.port.value}, moves + moved, ports);
    }
  }

  /** The reported moves are exactly the port changes made; each is away from a demoted port. */
  lemma MovesAreReported(doc: seq<Wan>, ports: Ports)
    requires Walk(doc, ports).Ok?
    ensures Reports(Walk(doc, ports).value.moves, doc, Walk(doc, ports).value.wans)
    ensures forall m | m in Walk(doc, ports).value.moves :: !WanPort(m.from, ports) && WanPort(m.to, ports)
  {
    WalkReports(0, doc, doc, {}, [], ports);
    AcceptedWans(doc, ports);
    var out := Walk(doc, ports).value;
    forall m | m in out.moves ensures !WanPort(m.from, ports) && WanPort(m.to, ports) {
      var j :| 0 <= j < |doc| && m in MovesOf(doc[j], out.wans[j]);
      assert Follows(doc[j], out.wans[j], ports);
    }
  }
}
