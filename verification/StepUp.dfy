/** Step-up tickets (packages/stepup/store.go, ticket.go): minting, verification and the
    single-use store. Instants are integers in nanoseconds since the Unix epoch. The token
    codec and its signature are parameters: a token is given by what it parses to. */
module StepUp {
  import opened Wrappers

  const SECOND: int := 1_000_000_000
  const TTL: int := 5 * 60 * SECOND

  /** Go's Time.Unix: whole seconds, rounding down. */
  function Unix(instant: int): int { instant / SECOND }

  datatype Ticket = Ticket(jti: string, actor: string, action: string, payload: string, exp: int)

  datatype Token = MalformedToken | BadSignature | Signed(ticket: Ticket)

  datatype Outcome = Accepted(ticket: Ticket) | Malformed | Signature | Expired | Binding | Replay

  function Mint(jti: string, actor: string, action: string, payload: string, now: int): Ticket {
    Ticket(jti, actor, action, payload, Unix(now + TTL))
  }

  // ---------------------------------------------------------------------------
  // The store
  // ---------------------------------------------------------------------------

  type Tickets = map<string, int>

  /** What the sweep leaves: entries not strictly past. */
  function Swept(m: Tickets, now: int): Tickets { map k | k in m && now <= m[k] :: m[k] }

  /** The new store, and whether the ticket is accepted. */
  function Consume(m: Tickets, jti: string, exp: int, now: int): (Tickets, bool) {
    var swept := Swept(m, now);
    if jti in swept && now < swept[jti] then (swept, false) else (swept[jti := exp], true)
  }

  class MemStore {
    /** jti -> the instant until which it is spent. */
    var tickets: Tickets

    constructor ()
      ensures tickets == map[]
    {
      tickets := map[];
    }

    /** Runs under the mutex; now is the clock read inside. */
    method ConsumeTicket(jti: string, exp: int, now: int) returns (ok: bool)
      modifies this
      ensures (tickets, ok) == Consume(old(tickets), jti, exp, now)
    {
      var keys := tickets.Keys;
      while keys != {}
        invariant keys <= tickets.Keys <= old(tickets).Keys
        invariant forall k <- tickets :: tickets[k] == old(tickets)[k]
        invariant forall k <- old(tickets) :: (k !in keys ==> (k in tickets <==> now <= old(tickets)[k])) && (k in keys ==> k in tickets)
        decreases |keys|
      {
        var k :| k in keys;
        keys := keys - {k};
        if now > tickets[k] { tickets := tickets - {k}; }
      }
      assert tickets == Swept(old(tickets), now);
      if jti in tickets && now < tickets[jti] { return false; }
      tickets := tickets[jti := exp];
      ok := true;
    }
  }

  // ---------------------------------------------------------------------------
  // Verification
  // ---------------------------------------------------------------------------

  /** One call: what it is given, the clock it is given, and the clock the store reads. */
  datatype Call = Call(token: Token, actor: string, action: string, payload: string, now: int, storeNow: int)

  /** The checks before the store is asked. */
  function Checks(v: Call): Outcome {
    match v.token
    case MalformedToken => Malformed
    case BadSignature => Signature
    case Signed(t) =>
      if Unix(v.now) > t.exp || t.exp > Unix(v.now + TTL) + 30 then Expired
      else if t.actor != v.actor || t.action != v.action || t.payload != v.payload then Binding
      else Accepted(t)
  }

  predicate Passes(v: Call) { Checks(v).Accepted? }

  function Verify(m: Tickets, v: Call): (Tickets, Outcome) {
    if !Passes(v) then (m, Checks(v))
    else
      var t := v.token.ticket;
      var (m1, ok) := Consume(m, t.jti, t.exp * SECOND, v.storeNow);
      (m1, if ok then Accepted(t) else Replay)
  }

  method VerifyTicket(store: MemStore, v: Call) returns (r: Outcome)
    modifies store
    ensures (store.tickets, r) == Verify(old(store.tickets), v)
  {
    match v.token {
      case MalformedToken => return Malformed;
      case BadSignature => return Signature;
      case Signed(t) =>
        if Unix(v.now) > t.exp || t.exp > Unix(v.now + TTL) + 30 { return Expired; }
        if t.actor != v.actor || t.action != v.action || t.payload != v.payload { return Binding; }
        var ok := store.ConsumeTicket(t.jti, t.exp * SECOND, v.storeNow);
        if !ok { return Replay; }
        r := Accepted(t);
    }
  }

  // ---------------------------------------------------------------------------
  // What a call is answered
  // ---------------------------------------------------------------------------

  /** The call is not after the ticket's expiry second, nor more than five and a half minutes
      before it. */
  predicate InWindow(t: Ticket, now: int) { now / 1_000_000_000 <= t.exp <= now / 1_000_000_000 + 330 }

  /** The ticket is for this actor, this action and this payload. */
  predicate IsFor(t: Ticket, v: Call) { t.actor == v.actor && t.action == v.action && t.payload == v.payload }

  /** A signed ticket, for just this call, in time. */
  predicate Fits(v: Call) { v.token.Signed? && InWindow(v.token.ticket, v.now) && IsFor(v.token.ticket, v) }

  lemma PassesExactly(v: Call)
    ensures Passes(v) <==> Fits(v)
  {
    assert Unix(v.now + TTL) == Unix(v.now) + 300;
  }

  // ---------------------------------------------------------------------------
  // Whole histories
  // ---------------------------------------------------------------------------

  /** The store after the first n calls, from empty. */
  function StoreAfter(vs: seq<Call>, n: nat): Tickets
    requires n <= |vs|
  {
    if n == 0 then map[] else Verify(StoreAfter(vs, n - 1), vs[n - 1]).0
  }

  function OutcomeAt(vs: seq<Call>, i: nat): Outcome
    requires i < |vs|
  {
    Verify(StoreAfter(vs, i), vs[i]).1
  }

  /** The store's clock does not run backwards (calls in the order they take the mutex). */
  ghost predicate Clocked(vs: seq<Call>) { forall i, j :: 0 <= i < j < |vs| ==> vs[i].storeNow <= vs[j].storeNow }

  /** A ticket id belongs to one minted ticket. */
  ghost predicate Minted(vs: seq<Call>) {
    forall i, j :: 0 <= i < j < |vs| && vs[i].token.Signed? && vs[j].token.Signed? && vs[i].token.ticket.jti == vs[j].token.ticket.jti
      ==> vs[i].token.ticket == vs[j].token.ticket
  }

  predicate Asks(v: Call, jti: string) { Passes(v) && v.token.ticket.jti == jti }

  predicate AskedBefore(vs: seq<Call>, n: nat, jti: string)
    requires n <= |vs|
  {
    exists j :: 0 <= j < n && Asks(vs[j], jti)
  }

  /** What the store holds about an id after n calls: its expiry if it was asked about and
      the clock has not passed it; never anything else. */
  lemma {:induction false} StoreHolds(vs: seq<Call>, n: nat, i: nat)
    requires n <= i < |vs| && Clocked(vs) && Minted(vs) && vs[i].token.Signed?
    ensures var m, t := StoreAfter(vs, n), vs[i].token.ticket;
            && (t.jti in m ==> AskedBefore(vs, n, t.jti) && m[t.jti] == t.exp * SECOND)
            && (AskedBefore(vs, n, t.jti) && vs[i].storeNow <= t.exp * SECOND ==> t.jti in m)
  {
    if n > 0 {
      StoreHolds(vs, n - 1, i);
      var v, t := vs[n - 1], vs[i].token.ticket;
      assert Asks(v, t.jti) ==> v.token.ticket == t;
      assert AskedBefore(vs, n, t.jti) <==> AskedBefore(vs, n - 1, t.jti) || Asks(v, t.jti);
      assert v.storeNow <= vs[i].storeNow;
    }
  }

  /** Exactly when a call that passes the checks succeeds: the ticket was never presented
      with success before, or the store's clock has reached its expiry. */
  lemma OutcomeExactly(vs: seq<Call>, i: nat)
    requires i < |vs| && Clocked(vs) && Minted(vs) && Passes(vs[i])
    ensures var t := vs[i].token.ticket;
            OutcomeAt(vs, i) == if AskedBefore(vs, i, t.jti) && vs[i].storeNow < t.exp * SECOND then Replay else Accepted(t)
  {
    StoreHolds(vs, i, i);
    hide StoreAfter, Clocked, Minted, Checks, AskedBefore;
  }

  /** Each refusal has its own cause, and only a call that fits reaches the store. */
  lemma AnswersExactly(vs: seq<Call>, i: nat)
    requires i < |vs|
    ensures var v, r := vs[i], OutcomeAt(vs, i);
            && (r.Malformed? <==> v.token.MalformedToken?)
            && (r.Signature? <==> v.token.BadSignature?)
            && (r.Expired? <==> v.token.Signed? && !InWindow(v.token.ticket, v.now))
            && (r.Binding? <==> v.token.Signed? && InWindow(v.token.ticket, v.now) && !IsFor(v.token.ticket, v))
            && (r.Replay? || r.Accepted? <==> Fits(v))
            && (r.Accepted? ==> r.ticket == v.token.ticket)
            && (!Fits(v) ==> StoreAfter(vs, i + 1) == StoreAfter(vs, i))
  {
    hide Consume;
    assert Unix(vs[i].now + TTL) == Unix(vs[i].now) + 300;
  }

  /** Exactly which calls are accepted: those with a signed ticket for their actor, action and
      payload, in time, that no earlier such call presented, or with the store's clock at
      the expiry instant or past it. */
  lemma AcceptedExactly(vs: seq<Call>, i: nat)
    requires i < |vs| && Clocked(vs) && Minted(vs)
    ensures OutcomeAt(vs, i).Accepted? <==>
            && Fits(vs[i])
            && (vs[i].storeNow >= vs[i].token.ticket.exp * 1_000_000_000
                || !exists j :: 0 <= j < i && Fits(vs[j]) && vs[j].token == vs[i].token)
  {
    AnswersExactly(vs, i);
    PassesExactly(vs[i]);
    if Fits(vs[i]) {
      OutcomeExactly(vs, i);
      forall j | 0 <= j < i ensures Asks(vs[j], vs[i].token.ticket.jti) <==> Fits(vs[j]) && vs[j].token == vs[i].token {
        PassesExactly(vs[j]);
      }
      hide Clocked, Minted, StoreAfter, OutcomeAt, Fits, Asks;
    }
  }

  /** Single use strictly before expiry: of the calls on one ticket that reach the store
      before its expiry instant at most one succeeds, and the first one does. */
  lemma SingleUse(vs: seq<Call>, i: nat, j: nat)
    requires i < j < |vs| && Clocked(vs) && Minted(vs)
    requires Passes(vs[i]) && Passes(vs[j]) && vs[i].token == vs[j].token
    requires OutcomeAt(vs, j).Accepted?
    ensures vs[j].storeNow >= vs[j].token.ticket.exp * SECOND
  {
    OutcomeExactly(vs, j);
    assert Asks(vs[i], vs[j].token.ticket.jti);
  }

  /** When both clocks of a call are the same reading, a second success falls in the very
      second of expiry, which the checks still admit. */
  lemma SecondUseOnlyInLastSecond(vs: seq<Call>, i: nat, j: nat)
    requires i < j < |vs| && Clocked(vs) && Minted(vs)
    requires Passes(vs[i]) && Passes(vs[j]) && vs[i].token == vs[j].token
    requires vs[j].now == vs[j].storeNow
    ensures OutcomeAt(vs, j).Accepted? <==> Unix(vs[j].now) == vs[j].token.ticket.exp
  {
    hide Clocked, Minted, StoreAfter;
    OutcomeExactly(vs, j);
    assert Asks(vs[i], vs[j].token.ticket.jti);
    assert Unix(vs[j].now) <= vs[j].token.ticket.exp;
  }

  /** That second exists: a ticket minted at 0 is accepted twice at its expiry. */
  lemma UsedTwiceAtExpiry()
    ensures var t := Mint("j", "a", "pay", "h", 0);
            var first := Call(Signed(t), "a", "pay", "h", 300 * SECOND, 300 * SECOND);
            var vs := [first, first.(now := 300 * SECOND + 1, storeNow := 300 * SECOND + 1)];
            && Clocked(vs) && Minted(vs) && OutcomeAt(vs, 0) == OutcomeAt(vs, 1) == Accepted(t)
  {
    var t := Mint("j", "a", "pay", "h", 0);
    var first := Call(Signed(t), "a", "pay", "h", 300 * SECOND, 300 * SECOND);
    var vs := [first, first.(now := 300 * SECOND + 1, storeNow := 300 * SECOND + 1)];
    assert t.exp == 300;
    OutcomeExactly(vs, 0);
    OutcomeExactly(vs, 1);
  }

  /** A minted ticket passes the checks exactly when it is presented for the actor, action and
      payload it was minted for, from 30 seconds of clock skew before minting to the end of
      its expiry second. */
  lemma MintedPasses(jti: string, actor: string, action: string, payload: string, mintedAt: int, v: Call)
    requires v.token == Signed(Mint(jti, actor, action, payload, mintedAt))
    ensures Passes(v) <==>
            && v.actor == actor && v.action == action && v.payload == payload
            && Unix(mintedAt) - 30 <= Unix(v.now) <= Unix(mintedAt) + 300
  {
    assert Unix(mintedAt + TTL) == Unix(mintedAt) + 300 && Unix(v.now + TTL) == Unix(v.now) + 300;
  }
}
