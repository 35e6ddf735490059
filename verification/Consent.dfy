/** The consent service (services/consent/main.go, check.go, dsr.go): the life of consent
    records under create, check, list, revoke, renew and erasure. One operation is one
    atomic step; every store write may fail. Times are RFC 3339 texts compared as text. */
module Consents {
  import opened GoString
  import opened Wrappers

  datatype Status = Active | Revoked | Expired

  datatype Consent = Consent(
    id: string, subject: string, purpose: string, lawfulBasis: string, granted: bool,
    channel: string, metadata: Option<string>,
    grantedAt: string, expiresAt: string, revokedAt: string, status: Status)

  datatype Action = Granted | Denied | Withdrawn | Renewed

  /** A receipt holds the record as it was hashed; the digest and the seal are left out. */
  datatype Receipt = Receipt(action: Action, record: Consent, time: string, actor: string)

  datatype Claims = Claims(sub: string, roles: set<string>)

  datatype LegalHold = LegalHold(subject: string, active: bool)

  datatype LogEntry = LogEntry(subject: string, action: string, actor: string)

  const BASES: set<string> :=
    {"consent", "contract", "legal_obligation", "vital_interest", "public_task", "legitimate_interest"}

  predicate Owns(claims: Claims, c: Consent) { claims.sub == c.subject || "admin" in claims.roles }

  predicate DsrAuthorized(claims: Claims, subject: string) {
    claims.sub == subject || "admin" in claims.roles || "privacy:officer" in claims.roles
  }

  // ---------------------------------------------------------------------------
  // Time
  // ---------------------------------------------------------------------------

  predicate Due(c: Consent, now: string) { c.status.Active? && c.expiresAt != "" && Less(c.expiresAt, now) }

  /** A record as read at a moment: an overdue active one counts as expired. */
  function Seen(c: Consent, now: string): Consent { if Due(c, now) then c.(status := Expired) else c }

  /** What a processor may rely on. */
  predicate Valid(c: Consent, subject: string, purpose: string, now: string) {
    && c.subject == subject && c.purpose == purpose
    && c.status.Active? && c.granted && (c.expiresAt == "" || !Less(c.expiresAt, now))
  }

  // ---------------------------------------------------------------------------
  // The loops
  // ---------------------------------------------------------------------------

  type Store = map<string, Consent>

  /** What ListInto returns: every record once, in some order. */
  ghost predicate Lists(m: Store, all: seq<Consent>) {
    Snapshot(m, all) && forall id <- m :: m[id] in all
  }

  ghost predicate Snapshot(m: Store, all: seq<Consent>) {
    && (forall i :: 0 <= i < |all| ==> all[i].id in m && m[all[i].id] == all[i])
    && (forall i, j :: 0 <= i < j < |all| ==> all[i].id != all[j].id)
  }

  /** Writes a record, if the store accepts it. */
  function Write(m: Store, c: Consent, puts: string -> bool): Store { if puts(c.id) then m[c.id := c] else m }

  function Touch(m: Store, c: Consent, now: string, puts: string -> bool): Store {
    if Due(c, now) then Write(m, Seen(c, now), puts) else m
  }

  /** findValidConsent: the first valid record, expiring what it passes. */
  function Find(m: Store, all: seq<Consent>, subject: string, purpose: string, now: string, puts: string -> bool): (Store, Option<Consent>)
    decreases |all|
  {
    if all == [] then (m, None)
    else
      var c := all[0];
      if c.subject != subject || c.purpose != purpose then Find(m, all[1..], subject, purpose, now, puts)
      else
        var m1, seen := Touch(m, c, now, puts), Seen(c, now);
        if seen.status.Active? && seen.granted then (m1, Some(seen))
        else Find(m1, all[1..], subject, purpose, now, puts)
  }

  /** listBySubject: every record of the subject, expiring the overdue ones. */
  function Sweep(m: Store, all: seq<Consent>, subject: string, now: string, puts: string -> bool): (Store, seq<Consent>)
    decreases |all|
  {
    if all == [] then (m, [])
    else if all[0].subject != subject then Sweep(m, all[1..], subject, now, puts)
    else
      var rest := Sweep(Touch(m, all[0], now, puts), all[1..], subject, now, puts);
      (rest.0, [Seen(all[0], now)] + rest.1)
  }

  function Anonymised(c: Consent, anon: string, now: string): Consent {
    var d := c.(subject := anon, metadata := None, channel := "");
    if d.status.Active? then d.(status := Revoked, granted := false, revokedAt := now) else d
  }

  datatype Erasing = Erasing(store: Store, count: nat, complete: bool)

  /** dsrErasure's loop: stops at the first failing write. */
  function Erase(m: Store, all: seq<Consent>, subject: string, anon: string, now: string, puts: string -> bool): Erasing
    decreases |all|
  {
    if all == [] then Erasing(m, 0, true)
    else if all[0].subject != subject then Erase(m, all[1..], subject, anon, now, puts)
    else if !puts(all[0].id) then Erasing(m, 0, false)
    else
      var r := Erase(m[all[0].id := Anonymised(all[0], anon, now)], all[1..], subject, anon, now, puts);
      r.(count := r.count + 1)
  }

  predicate HoldOnFile(holds: seq<LegalHold>, subject: string) {
    exists h <- holds :: h.subject == subject && h.active
  }

  /** A hold counts only if the holds can be listed. */
  predicate UnderLegalHold(o: Op)
    requires o.Erasure?
  {
    o.holdsListed && HoldOnFile(o.holds, o.subject)
  }

  // ---------------------------------------------------------------------------
  // Operations on the whole state
  // ---------------------------------------------------------------------------

  /** receipts: those issued, oldest first (persisting one may fail without consequence). */
  datatype State = State(consents: Store, receipts: seq<Receipt>, log: seq<LogEntry>)

  datatype Response =
    | BadRequest | Forbidden | NotFound | Conflict | Internal
    | Written(consent: Consent, receipt: Receipt)
    | Listed(consents: seq<Consent>)
    | Allowed(consent: Consent) | NoConsent | BasisMismatch
    | Erased(anon: string, count: nat)

  /** The requests, with what the outside supplies: a fresh id, the clock, the listing the
      store gives (None when it fails), the legal holds on file and whether listing them
      succeeds, which writes succeed. */
  datatype Op =
    | Create(id: string, subject: string, purpose: string, lawfulBasis: string, granted: Option<bool>,
             channel: string, metadata: Option<string>, expiresAt: string)
    | Check(all: Option<seq<Consent>>, subject: string, purpose: string, lawfulBasis: string)
    | ListBySubject(all: Option<seq<Consent>>, subject: string)
    | Revoke(id: string)
    | Renew(id: string, expiresAt: string)
    | Erasure(all: Option<seq<Consent>>, subject: string, holds: seq<LegalHold>, holdsListed: bool, audited: bool)

  datatype Request = Request(op: Op, claims: Claims, now: string, puts: string -> bool)

  function Issue(s: State, m: Store, c: Consent, action: Action, q: Request): (State, Response) {
    var receipt := Receipt(action, c, q.now, q.claims.sub);
    (s.(consents := m, receipts := s.receipts + [receipt]), Written(c, receipt))
  }

  /** The record a create request asks for. */
  function NewRecord(o: Op, now: string): Consent
    requires o.Create?
  {
    var granted := o.granted.None? || o.granted.value;
    Consent(o.id, o.subject, o.purpose, if o.lawfulBasis == "" then "consent" else o.lawfulBasis, granted,
            o.channel, o.metadata, now, o.expiresAt,
            if granted then "" else now, if granted then Active else Revoked)
  }

  function Next(s: State, q: Request, anon: string -> string): (State, Response) {
    var m := s.consents;
    match q.op
    case Create(id, subject, purpose, basis, _, _, _, _) =>
      var c := NewRecord(q.op, q.now);
      if subject == "" || purpose == "" || (basis != "" && basis !in BASES) then (s, BadRequest)
      else if subject != q.claims.sub && "admin" !in q.claims.roles then (s, Forbidden)
      else if !q.puts(id) then (s, Internal)
      else Issue(s, m[id := c], c, if c.granted then Granted else Denied, q)
    case Check(all, subject, purpose, basis) =>
      if subject == "" || purpose == "" || (basis != "" && basis !in BASES) then (s, BadRequest)
      else if all.None? then (s, NoConsent)
      else
        var (m1, found) := Find(m, all.value, subject, purpose, q.now, q.puts);
        (s.(consents := m1),
         if found.None? then NoConsent
         else if basis != "" && found.value.lawfulBasis != basis then BasisMismatch
         else Allowed(found.value))
    case ListBySubject(all, subject) =>
      if subject != q.claims.sub && "admin" !in q.claims.roles then (s, Forbidden)
      else if all.None? then (s, Internal)
      else var (m1, out) := Sweep(m, all.value, subject, q.now, q.puts); (s.(consents := m1), Listed(out))
    case Revoke(id) =>
      if id !in m then (s, NotFound)
      else if m[id].status.Revoked? then (s, Conflict)
      else if !Owns(q.claims, m[id]) then (s, Forbidden)
      else if !q.puts(id) then (s, Internal)
      else var c := m[id].(status := Revoked, granted := false, revokedAt := q.now); Issue(s, m[id := c], c, Withdrawn, q)
    case Renew(id, expiresAt) =>
      if id !in m then (s, NotFound)
      else if !Owns(q.claims, m[id]) then (s, Forbidden)
      else if m[id].status.Revoked? then (s, Conflict)
      else if !q.puts(id) then (s, Internal)
      else
        var c := m[id].(status := Active, granted := true, revokedAt := "", expiresAt := expiresAt);
        Issue(s, m[id := c], c, Renewed, q)
    case Erasure(all, subject, _, _, audited) =>
      if !DsrAuthorized(q.claims, subject) then (s, Forbidden)
      else if UnderLegalHold(q.op) then
        (s.(log := s.log + [LogEntry(subject, "erasure_refused_legal_hold", q.claims.sub)]), Conflict)
      else if all.None? then (s, Internal)
      else
        var e := Erase(m, all.value, subject, anon(subject), q.now, q.puts);
        if !e.complete || !audited then (s.(consents := e.store), Internal)
        else (s.(consents := e.store, log := s.log + [LogEntry(subject, "erasure", q.claims.sub)]), Erased(anon(subject), e.count))
  }

  // ---------------------------------------------------------------------------
  // The service
  // ---------------------------------------------------------------------------

  class Server {
    var consents: Store
    var receipts: seq<Receipt>
    var log: seq<LogEntry>
    const anon: string -> string

    function Contents(): State reads this { State(consents, receipts, log) }

    constructor (anon0: string -> string)
      ensures anon == anon0 && Contents() == State(map[], [], [])
    {
      anon := anon0;
      consents, receipts, log := map[], [], [];
    }

    method IssueReceipt(c: Consent, action: Action, q: Request) returns (r: Receipt)
      modifies this`receipts
      ensures r == Receipt(action, c, q.now, q.claims.sub) && receipts == old(receipts) + [r]
    {
      r := Receipt(action, c, q.now, q.claims.sub);
      receipts := receipts + [r];
    }

    method Create(q: Request) returns (r: Response)
      requires q.op.Create?
      modifies this
      ensures (Contents(), r) == Next(old(Contents()), q, anon)
    {
      var o := q.op;
      if o.subject == "" || o.purpose == "" { return BadRequest; }
      var basis := if o.lawfulBasis == "" then "consent" else o.lawfulBasis;
      if basis !in BASES { return BadRequest; }
      var granted := true;
      if o.granted.Some? { granted := o.granted.value; }
      if o.subject != q.claims.sub && "admin" !in q.claims.roles { return Forbidden; }
      var c := Consent(o.id, o.subject, o.purpose, basis, granted, o.channel, o.metadata, q.now, o.expiresAt, "", Active);
      if !granted { c := c.(status := Revoked, revokedAt := c.grantedAt); }
      if !q.puts(c.id) { return Internal; }
      consents := consents[c.id := c];
      var receipt := IssueReceipt(c, if granted then Granted else Denied, q);
      r := Written(c, receipt);
    }

    method FindValidConsent(all: seq<Consent>, subject: string, purpose: string, now: string, puts: string -> bool)
      returns (found: Option<Consent>)
      modifies this`consents
      ensures (consents, found) == Find(old(consents), all, subject, purpose, now, puts)
    {
      assert all[0..] == all;
      for i := 0 to |all|
        invariant Find(consents, all[i..], subject, purpose, now, puts) == Find(old(consents), all, subject, purpose, now, puts)
      {
        assert all[i..][0] == all[i] && all[i..][1..] == all[i + 1..];
        var c := all[i];
        if c.subject != subject || c.purpose != purpose { continue; }
        if c.status.Active? && c.expiresAt != "" && Less(c.expiresAt, now) {
          c := c.(status := Expired);
          if puts(c.id) { consents := consents[c.id := c]; }
        }
        if c.status.Active? && c.granted { return Some(c); }
      }
      found := None;
    }

    method Check(q: Request) returns (r: Response)
      requires q.op.Check?
      modifies this`consents
      ensures (Contents(), r) == Next(old(Contents()), q, anon)
    {
      var o := q.op;
      if o.subject == "" || o.purpose == "" { return BadRequest; }
      if o.lawfulBasis != "" && o.lawfulBasis !in BASES { return BadRequest; }
      if o.all.None? { return NoConsent; }
      var found := FindValidConsent(o.all.value, o.subject, o.purpose, q.now, q.puts);
      if found.None? { return NoConsent; }
      if o.lawfulBasis != "" && found.value.lawfulBasis != o.lawfulBasis { return BasisMismatch; }
      r := Allowed(found.value);
    }

    method ListBySubject(q: Request) returns (r: Response)
      requires q.op.ListBySubject?
      modifies this`consents
      ensures (Contents(), r) == Next(old(Contents()), q, anon)
    {
      var o := q.op;
      if o.subject != q.claims.sub && "admin" !in q.claims.roles { return Forbidden; }
      if o.all.None? { return Internal; }
      var all, out := o.all.value, [];
      assert all[0..] == all;
      for i := 0 to |all|
        invariant var s, t := Sweep(consents, all[i..], o.subject, q.now, q.puts), Sweep(old(consents), all, o.subject, q.now, q.puts);
                  s.0 == t.0 && out + s.1 == t.1
        invariant receipts == old(receipts) && log == old(log)
      {
        assert all[i..][0] == all[i] && all[i..][1..] == all[i + 1..];
        var c := all[i];
        if c.subject != o.subject { continue; }
        if c.status.Active? && c.expiresAt != "" && Less(c.expiresAt, q.now) {
          c := c.(status := Expired);
          if q.puts(c.id) { consents := consents[c.id := c]; }
        }
        ghost var tail := Sweep(consents, all[i + 1..], o.subject, q.now, q.puts).1;
        assert out + ([c] + tail) == (out + [c]) + tail;
        out := out + [c];
      }
      assert out + [] == out;
      r := Listed(out);
    }

    method Revoke(q: Request) returns (r: Response)
      requires q.op.Revoke?
      modifies this
      ensures (Contents(), r) == Next(old(Contents()), q, anon)
    {
      var id := q.op.id;
      if id !in consents { return NotFound; }
      var c := consents[id];
      if c.status.Revoked? { return Conflict; }
      if !Owns(q.claims, c) { return Forbidden; }
      c := c.(status := Revoked, granted := false, revokedAt := q.now);
      if !q.puts(id) { return Internal; }
      consents := consents[id := c];
      var receipt := IssueReceipt(c, Withdrawn, q);
      r := Written(c, receipt);
    }

    method Renew(q: Request) returns (r: Response)
      requires q.op.Renew?
      modifies this
      ensures (Contents(), r) == Next(old(Contents()), q, anon)
    {
      var id := q.op.id;
      if id !in consents { return NotFound; }
      var c := consents[id];
      if !Owns(q.claims, c) { return Forbidden; }
      if c.status.Revoked? { return Conflict; }
      c := c.(status := Active, granted := true, revokedAt := "", expiresAt := q.op.expiresAt);
      if !q.puts(id) { return Internal; }
      consents := consents[id := c];
      var receipt := IssueReceipt(c, Renewed, q);
      r := Written(c, receipt);
    }

    method DsrErasure(q: Request) returns (r: Response)
      requires q.op.Erasure?
      modifies this
      ensures (Contents(), r) == Next(old(Contents()), q, anon)
    {
      var o := q.op;
      if !DsrAuthorized(q.claims, o.subject) { return Forbidden; }
      if UnderLegalHold(o) {
        log := log + [LogEntry(o.subject, "erasure_refused_legal_hold", q.claims.sub)];
        return Conflict;
      }
      if o.all.None? { return Internal; }
      var all, a, n := o.all.value, anon(o.subject), 0;
      assert all[0..] == all;
      for i := 0 to |all|
        invariant var e := Erase(consents, all[i..], o.subject, a, q.now, q.puts);
                  Erase(old(consents), all, o.subject, a, q.now, q.puts) == e.(count := n + e.count)
        invariant receipts == old(receipts) && log == old(log)
      {
        assert all[i..][0] == all[i] && all[i..][1..] == all[i + 1..];
        var c := all[i];
        if c.subject != o.subject { continue; }
        c := c.(subject := a, metadata := None, channel := "");
        if c.status.Active? { c := c.(status := Revoked, granted := false, revokedAt := q.now); }
        if !q.puts(c.id) { return Internal; }
        consents := consents[c.id := c];
        n := n + 1;
      }
      if !o.audited { return Internal; }
      log := log + [LogEntry(o.subject, "erasure", q.claims.sub)];
      r := Erased(a, n);
    }
  }

  // ---------------------------------------------------------------------------
  // Reading changes nothing but overdue records
  // ---------------------------------------------------------------------------

  ghost predicate OnlyExpires(m: Store, m1: Store, now: string) {
    m1.Keys == m.Keys && forall id <- m :: m1[id] == m[id] || (Due(m[id], now) && m1[id] == m[id].(status := Expired))
  }

  lemma TouchExpires(m: Store, all: seq<Consent>, now: string, puts: string -> bool)
    requires Snapshot(m, all) && all != []
    ensures OnlyExpires(m, Touch(m, all[0], now, puts), now) && Snapshot(Touch(m, all[0], now, puts), all[1..])
  {
    assert forall i :: 0 <= i < |all| - 1 ==> all[1..][i] == all[i + 1] && all[i + 1].id != all[0].id;
  }

  lemma {:induction false} FindExpires(m: Store, all: seq<Consent>, subject: string, purpose: string, now: string, puts: string -> bool)
    requires Snapshot(m, all)
    ensures OnlyExpires(m, Find(m, all, subject, purpose, now, puts).0, now)
    decreases |all|
  {
    if all != [] {
      var c := all[0];
      if c.subject != subject || c.purpose != purpose {
        FindExpires(m, all[1..], subject, purpose, now, puts);
      } else {
        TouchExpires(m, all, now, puts);
        FindExpires(Touch(m, c, now, puts), all[1..], subject, purpose, now, puts);
      }
    }
  }

  lemma {:induction false} SweepExpires(m: Store, all: seq<Consent>, subject: string, now: string, puts: string -> bool)
    requires Snapshot(m, all)
    ensures OnlyExpires(m, Sweep(m, all, subject, now, puts).0, now)
    decreases |all|
  {
    if all != [] {
      if all[0].subject != subject {
        SweepExpires(m, all[1..], subject, now, puts);
      } else {
        TouchExpires(m, all, now, puts);
        SweepExpires(Touch(m, all[0], now, puts), all[1..], subject, now, puts);
      }
    }
  }

  // ---------------------------------------------------------------------------
  // What a check answers
  // ---------------------------------------------------------------------------

  /** findValidConsent finds the first valid record of the listing, if there is one. */
  lemma {:induction false} FindsFirstValid(m: Store, all: seq<Consent>, subject: string, purpose: string, now: string, puts: string -> bool)
    ensures var found := Find(m, all, subject, purpose, now, puts).1;
            if found.None? then forall c <- all :: !Valid(c, subject, purpose, now)
            else exists i :: FirstValid(all, i, subject, purpose, now) && found.value == all[i]
    decreases |all|
  {
    if all != [] {
      var c := all[0];
      var found := Find(m, all, subject, purpose, now, puts).1;
      if Valid(c, subject, purpose, now) {
        assert FirstValid(all, 0, subject, purpose, now);
      } else {
        var m1 := if c.subject != subject || c.purpose != purpose then m else Touch(m, c, now, puts);
        FindsFirstValid(m1, all[1..], subject, purpose, now, puts);
        if found.Some? {
          var i :| FirstValid(all[1..], i, subject, purpose, now) && found.value == all[1..][i];
          assert FirstValid(all, i + 1, subject, purpose, now) by {
            assert forall j :: 1 <= j < i + 1 ==> all[j] == all[1..][j - 1];
          }
        }
      }
    }
  }

  ghost predicate FirstValid(all: seq<Consent>, i: int, subject: string, purpose: string, now: string) {
    0 <= i < |all| && Valid(all[i], subject, purpose, now) && forall j :: 0 <= j < i ==> !Valid(all[j], subject, purpose, now)
  }

  lemma FirstIsUnique(all: seq<Consent>, i: int, j: int, subject: string, purpose: string, now: string)
    requires FirstValid(all, i, subject, purpose, now) && FirstValid(all, j, subject, purpose, now)
    ensures i == j
  {
    assert !(i < j) && !(j < i);
  }

  ghost predicate HasValid(m: Store, subject: string, purpose: string, now: string) {
    exists id <- m :: Valid(m[id], subject, purpose, now)
  }

  /** A well-formed check on a full listing: refused for want of consent exactly when no
      stored record is valid; allowed only on a stored valid record of the asserted basis. */
  lemma CheckExactly(s: State, q: Request, anon: string -> string)
    requires q.op.Check? && q.op.subject != "" && q.op.purpose != "" && (q.op.lawfulBasis == "" || q.op.lawfulBasis in BASES)
    requires q.op.all.Some? && Lists(s.consents, q.op.all.value)
    ensures var m, o, r := s.consents, q.op, Next(s, q, anon).1;
            && (r == NoConsent <==> !HasValid(m, o.subject, o.purpose, q.now))
            && (r.Allowed? ==>
                  && r.consent.id in m && m[r.consent.id] == r.consent && Valid(r.consent, o.subject, o.purpose, q.now)
                  && (o.lawfulBasis == "" || o.lawfulBasis == r.consent.lawfulBasis))
            && (o.lawfulBasis == "" ==> (r.Allowed? <==> HasValid(m, o.subject, o.purpose, q.now)))
  {
    var m, o, all := s.consents, q.op, q.op.all.value;
    hide Find, Less;
    FindsFirstValid(m, all, o.subject, o.purpose, q.now, q.puts);
    var found := Find(m, all, o.subject, o.purpose, q.now, q.puts).1;
    if found.Some? {
      assert HasValid(m, o.subject, o.purpose, q.now) by { assert Valid(m[found.value.id], o.subject, o.purpose, q.now); }
    } else {
      assert forall id <- m :: m[id] in all;
    }
  }

  /** With an asserted basis the answer looks only at the first valid record: it is exact
      when that record has the basis or no valid record has it. */
  lemma BasisExactly(s: State, q: Request, anon: string -> string, i: int)
    requires q.op.Check? && q.op.subject != "" && q.op.purpose != "" && q.op.lawfulBasis in BASES
    requires q.op.all.Some? && Lists(s.consents, q.op.all.value)
    requires FirstValid(q.op.all.value, i, q.op.subject, q.op.purpose, q.now)
    ensures Next(s, q, anon).1.Allowed? <==> q.op.all.value[i].lawfulBasis == q.op.lawfulBasis
  {
    var o, all := q.op, q.op.all.value;
    hide Find, Less;
    FindsFirstValid(s.consents, all, o.subject, o.purpose, q.now, q.puts);
    assert Valid(all[i], o.subject, o.purpose, q.now) && all[i] in all;
    var k :| FirstValid(all, k, o.subject, o.purpose, q.now) && Find(s.consents, all, o.subject, o.purpose, q.now, q.puts).1.value == all[k];
    FirstIsUnique(all, i, k, o.subject, o.purpose, q.now);
  }

  // ---------------------------------------------------------------------------
  // What every step keeps
  // ---------------------------------------------------------------------------

  /** What the outside guarantees: a fresh id for a create, listings of what is stored. */
  ghost predicate Legal(s: State, q: Request) {
    match q.op
    case Create(id, _, _, _, _, _, _, _) => id !in s.consents
    case Check(all, _, _, _) => all.Some? ==> Lists(s.consents, all.value)
    case ListBySubject(all, _) => all.Some? ==> Lists(s.consents, all.value)
    case Erasure(all, _, _, _, _) => all.Some? ==> Lists(s.consents, all.value)
    case _ => true
  }

  /** The last receipt issued for a record. */
  function Last(receipts: seq<Receipt>, id: string): Option<Action> {
    if receipts == [] then None
    else
      var r := receipts[|receipts| - 1];
      if r.record.id == id then Some(r.action) else Last(receipts[..|receipts| - 1], id)
  }

  /** Records are stored under their id and are granted exactly until revoked; a record not
      revoked, an active one in particular, was last granted or renewed. */
  ghost predicate Good(s: State) {
    forall id <- s.consents ::
      && s.consents[id].id == id
      && (s.consents[id].granted <==> !s.consents[id].status.Revoked?)
      && (!s.consents[id].status.Revoked? ==> Last(s.receipts, id) in {Some(Granted), Some(Renewed)})
  }

  /** What no step undoes: identity, purpose and basis of a record, and its revocation. */
  ghost predicate Kept(c: Consent, d: Consent) {
    && d.id == c.id && d.purpose == c.purpose && d.lawfulBasis == c.lawfulBasis && d.grantedAt == c.grantedAt
    && (c.status.Revoked? ==>
          d.status.Revoked? && d.granted == c.granted && d.revokedAt == c.revokedAt && d.expiresAt == c.expiresAt)
  }

  ghost predicate Evolves(m: Store, m1: Store) {
    forall id <- m :: id in m1 && Kept(m[id], m1[id])
  }

  /** The loop of an erasure: each record is as before or anonymised, and if the loop
      completes nothing listed is left under the subject. */
  ghost predicate Erases(m: Store, m1: Store, subject: string, anon: string, now: string) {
    m1.Keys == m.Keys
    && forall id <- m :: m1[id] == m[id] || (m[id].subject == subject && m1[id] == Anonymised(m[id], anon, now))
  }

  lemma {:induction false} EraseDoes(m: Store, all: seq<Consent>, subject: string, anon: string, now: string, puts: string -> bool)
    requires Snapshot(m, all)
    ensures var e := Erase(m, all, subject, anon, now, puts);
            && Erases(m, e.store, subject, anon, now)
            && (forall id <- m :: m[id] !in all ==> e.store[id] == m[id])
            && (e.complete ==> forall c <- all :: c.subject == subject ==> e.store[c.id] == Anonymised(c, anon, now))
    decreases |all|
  {
    if all != [] {
      var c, rest := all[0], all[1..];
      assert forall i :: 0 <= i < |rest| ==> rest[i] == all[i + 1] && rest[i].id != c.id;
      if c.subject != subject {
        EraseDoes(m, rest, subject, anon, now, puts);
      } else if puts(c.id) {
        var m1 := m[c.id := Anonymised(c, anon, now)];
        EraseDoes(m1, rest, subject, anon, now, puts);
        var e := Erase(m1, rest, subject, anon, now, puts);
        assert e.store[c.id] == m1[c.id] by { assert m1[c.id].id == c.id; assert m1[c.id] !in rest; }
      }
    }
  }

  lemma IssueKeeps(s: State, c: Consent, action: Action, q: Request)
    requires Good(s) && (c.granted <==> !c.status.Revoked?) && (!c.status.Revoked? ==> action.Granted? || action.Renewed?)
    ensures Good(Issue(s, s.consents[c.id := c], c, action, q).0)
  {
    var t := Issue(s, s.consents[c.id := c], c, action, q).0;
    assert t.receipts[..|t.receipts| - 1] == s.receipts;
    forall id <- t.consents
      ensures t.consents[id].id == id && (t.consents[id].granted <==> !t.consents[id].status.Revoked?)
      ensures !t.consents[id].status.Revoked? ==> Last(t.receipts, id) in {Some(Granted), Some(Renewed)}
    {
      assert id != c.id ==> Last(t.receipts, id) == Last(s.receipts, id);
    }
  }

  lemma ExpiringKeeps(s: State, m1: Store, now: string)
    requires Good(s) && OnlyExpires(s.consents, m1, now)
    ensures Good(s.(consents := m1)) && Evolves(s.consents, m1)
  {
    hide Last, Less;
  }

  lemma ErasingKeeps(s: State, m1: Store, log: seq<LogEntry>, subject: string, anon: string, now: string)
    requires Good(s) && Erases(s.consents, m1, subject, anon, now)
    ensures Good(State(m1, s.receipts, log)) && Evolves(s.consents, m1)
  {
    hide Last;
  }

  lemma ReadKeeps(s: State, q: Request, anon: string -> string)
    requires Good(s) && Legal(s, q) && (q.op.Check? || q.op.ListBySubject?)
    ensures Good(Next(s, q, anon).0) && Evolves(s.consents, Next(s, q, anon).0.consents)
  {
    hide Find, Sweep, Less, Good, Evolves;
    ExpiringKeeps(s, s.consents, q.now);
    if q.op.all.Some? {
      var o, all := q.op, q.op.all.value;
      if o.Check? {
        FindExpires(s.consents, all, o.subject, o.purpose, q.now, q.puts);
        ExpiringKeeps(s, Find(s.consents, all, o.subject, o.purpose, q.now, q.puts).0, q.now);
      } else {
        SweepExpires(s.consents, all, o.subject, q.now, q.puts);
        ExpiringKeeps(s, Sweep(s.consents, all, o.subject, q.now, q.puts).0, q.now);
      }
    }
  }

  lemma WriteKeeps(s: State, q: Request, anon: string -> string)
    requires Good(s) && Legal(s, q) && (q.op.Create? || q.op.Revoke? || q.op.Renew?)
    ensures Good(Next(s, q, anon).0) && Evolves(s.consents, Next(s, q, anon).0.consents)
  {
    hide Last;
    match q.op
    case Create(id, _, _, _, _, _, _, _) =>
      var c := NewRecord(q.op, q.now);
      IssueKeeps(s, c, if c.granted then Granted else Denied, q);
    case Revoke(id) =>
      if id in s.consents {
        IssueKeeps(s, s.consents[id].(status := Revoked, granted := false, revokedAt := q.now), Withdrawn, q);
      }
    case Renew(id, expiresAt) =>
      if id in s.consents {
        IssueKeeps(s, s.consents[id].(status := Active, granted := true, revokedAt := "", expiresAt := expiresAt), Renewed, q);
      }
  }

  lemma ErasureKeeps(s: State, q: Request, anon: string -> string)
    requires Good(s) && Legal(s, q) && q.op.Erasure?
    ensures Good(Next(s, q, anon).0) && Evolves(s.consents, Next(s, q, anon).0.consents)
  {
    hide Erase, Good, Evolves, Anonymised;
    var m, o, t := s.consents, q.op, Next(s, q, anon).0;
    ErasingKeeps(s, m, t.log, o.subject, anon(o.subject), q.now);
    if o.all.Some? {
      EraseDoes(m, o.all.value, o.subject, anon(o.subject), q.now, q.puts);
      ErasingKeeps(s, Erase(m, o.all.value, o.subject, anon(o.subject), q.now, q.puts).store, t.log, o.subject, anon(o.subject), q.now);
    }
  }

  /** Every operation keeps the invariant and the records' histories. */
  lemma StepKeeps(s: State, q: Request, anon: string -> string)
    requires Good(s) && Legal(s, q)
    ensures Good(Next(s, q, anon).0) && Evolves(s.consents, Next(s, q, anon).0.consents)
  {
    hide Next, Good, Evolves, Legal;
    if q.op.Check? || q.op.ListBySubject? {
      ReadKeeps(s, q, anon);
    } else if q.op.Erasure? {
      ErasureKeeps(s, q, anon);
    } else {
      WriteKeeps(s, q, anon);
    }
  }

  /** Who may change a status: activation only by renewal by the subject or an admin;
      revocation only by them, or by an erasure of the subject by someone entitled to it. */
  lemma Authority(s: State, q: Request, anon: string -> string, id: string)
    requires Good(s) && Legal(s, q) && id in s.consents && id in Next(s, q, anon).0.consents
    ensures var c, d := s.consents[id], Next(s, q, anon).0.consents[id];
            && (d.status.Active? && !c.status.Active? ==> q.op == Renew(id, d.expiresAt) && Owns(q.claims, c) && c.status.Expired?)
            && (d.status.Revoked? && !c.status.Revoked? ==>
                  || (q.op == Revoke(id) && Owns(q.claims, c))
                  || (q.op.Erasure? && q.op.subject == c.subject && DsrAuthorized(q.claims, c.subject) && !UnderLegalHold(q.op)))
            && (d.status.Expired? && !c.status.Expired? ==> Due(c, q.now))
            && (d.subject != c.subject ==> q.op.Erasure? && q.op.subject == c.subject && d.subject == anon(c.subject))
  {
    hide Find, Sweep, Erase, Less, Last, Snapshot;
    match q.op
    case Check(all, subject, purpose, _) =>
      if all.Some? { FindExpires(s.consents, all.value, subject, purpose, q.now, q.puts); }
    case ListBySubject(all, subject) =>
      if all.Some? { SweepExpires(s.consents, all.value, subject, q.now, q.puts); }
    case Erasure(all, subject, _, _, _) =>
      if all.Some? { EraseDoes(s.consents, all.value, subject, anon(subject), q.now, q.puts); }
    case _ =>
  }

  // ---------------------------------------------------------------------------
  // Whole runs
  // ---------------------------------------------------------------------------

  function Run(s: State, qs: seq<Request>, anon: string -> string): State
    decreases |qs|
  {
    if qs == [] then s else Run(Next(s, qs[0], anon).0, qs[1..], anon)
  }

  ghost predicate LegalRun(s: State, qs: seq<Request>, anon: string -> string)
    decreases |qs|
  {
    qs == [] || (Legal(s, qs[0]) && LegalRun(Next(s, qs[0], anon).0, qs[1..], anon))
  }

  /** Over any run: the invariant holds, and no revoked record changes status again. */
  lemma {:induction false} RunKeeps(s: State, qs: seq<Request>, anon: string -> string)
    requires Good(s) && LegalRun(s, qs, anon)
    ensures Good(Run(s, qs, anon)) && Evolves(s.consents, Run(s, qs, anon).consents)
    decreases |qs|
  {
    if qs != [] {
      hide Good, Next, Legal;
      StepKeeps(s, qs[0], anon);
      RunKeeps(Next(s, qs[0], anon).0, qs[1..], anon);
    }
  }

  /** A revocation takes effect at once and for good: no later check is allowed on the
      record. */
  lemma RevokedNeverAllowed(s: State, qs: seq<Request>, q: Request, anon: string -> string, id: string)
    requires Good(s) && id in s.consents && s.consents[id].status.Revoked?
    requires LegalRun(s, qs, anon) && Legal(Run(s, qs, anon), q) && q.op.Check?
    ensures var r := Next(Run(s, qs, anon), q, anon).1; r.Allowed? ==> r.consent.id != id
  {
    hide Run, LegalRun, Good, Next, Valid, Lists, Legal;
    RunKeeps(s, qs, anon);
    var t := Run(s, qs, anon);
    assert Kept(s.consents[id], t.consents[id]);
    if Next(t, q, anon).1.Allowed? { AllowedIsActive(t, q, anon); }
  }

  lemma AllowedIsActive(s: State, q: Request, anon: string -> string)
    requires Legal(s, q) && q.op.Check? && Next(s, q, anon).1.Allowed?
    ensures var c := Next(s, q, anon).1.consent;
            c.id in s.consents && s.consents[c.id] == c && c.status.Active? && c.subject == q.op.subject
  {
    CheckExactly(s, q, anon);
  }

  // ---------------------------------------------------------------------------
  // Erasure
  // ---------------------------------------------------------------------------

  /** Nothing of the subject's can be relied on. */
  ghost predicate Forgotten(m: Store, subject: string) {
    forall id <- m :: m[id].subject == subject ==> m[id].status.Revoked?
  }

  /** A create that would grant something to the subject. */
  predicate GrantsTo(q: Request, subject: string) {
    q.op.Create? && q.op.subject == subject && q.op.granted != Some(false)
  }

  /** An authorised erasure of a subject with a hold on file is refused exactly if the holds
      can be listed; if not, it goes through as if there were none. */
  lemma HoldRefusesExactly(s: State, q: Request, anon: string -> string)
    requires q.op.Erasure? && DsrAuthorized(q.claims, q.op.subject) && HoldOnFile(q.op.holds, q.op.subject)
    ensures Next(s, q, anon).1 == Conflict <==> q.op.holdsListed
    ensures q.op.holdsListed ==> Next(s, q, anon).0.consents == s.consents
    ensures !q.op.holdsListed ==> Next(s, q, anon) == Next(s, q.(op := q.op.(holds := [], holdsListed := true)), anon)
  {
    hide Erase, HoldOnFile;
    assert !HoldOnFile([], q.op.subject) by { NoHolds(q.op.subject); }
  }

  lemma NoHolds(subject: string)
    ensures !HoldOnFile([], subject)
  {
  }

  lemma ErasureForgets(s: State, q: Request, anon: string -> string)
    requires Good(s) && Legal(s, q) && q.op.Erasure? && Next(s, q, anon).1.Erased? && anon(q.op.subject) != q.op.subject
    ensures forall id <- Next(s, q, anon).0.consents :: Next(s, q, anon).0.consents[id].subject != q.op.subject
  {
    hide Erase;
    var m, all, subject := s.consents, q.op.all.value, q.op.subject;
    var e := Erase(m, all, subject, anon(subject), q.now, q.puts);
    assert Next(s, q, anon).0.consents == e.store && e.complete && Lists(m, all);
    hide Next, Legal;
    EraseDoes(m, all, subject, anon(subject), q.now, q.puts);
    forall id <- e.store ensures e.store[id].subject != subject {
      assert m[id] in all && m[id].id == id;
    }
  }

  lemma ForgottenStays(s: State, q: Request, anon: string -> string, subject: string)
    requires Good(s) && Legal(s, q) && Forgotten(s.consents, subject)
    requires !GrantsTo(q, subject) && (forall x :: anon(x) != subject)
    ensures Forgotten(Next(s, q, anon).0.consents, subject)
  {
    StepKeeps(s, q, anon);
    var m, m1 := s.consents, Next(s, q, anon).0.consents;
    forall id <- m1 ensures m1[id].subject == subject ==> m1[id].status.Revoked? {
      if id in m {
        Authority(s, q, anon, id);
      } else if !(q.op.Create?) {
        NothingNew(s, q, anon);
      }
    }
  }

  /** Only a create adds a record. */
  lemma NothingNew(s: State, q: Request, anon: string -> string)
    requires Legal(s, q) && !q.op.Create?
    ensures Next(s, q, anon).0.consents.Keys == s.consents.Keys
  {
    hide Find, Sweep, Erase, Less, Snapshot;
    match q.op
    case Check(all, subject, purpose, _) =>
      if all.Some? { FindExpires(s.consents, all.value, subject, purpose, q.now, q.puts); }
    case ListBySubject(all, subject) =>
      if all.Some? { SweepExpires(s.consents, all.value, subject, q.now, q.puts); }
    case Erasure(all, subject, _, _, _) =>
      if all.Some? { EraseDoes(s.consents, all.value, subject, anon(subject), q.now, q.puts); }
    case _ =>
  }

  lemma {:induction false} ForgottenThroughRun(s: State, qs: seq<Request>, anon: string -> string, subject: string)
    requires Good(s) && LegalRun(s, qs, anon) && Forgotten(s.consents, subject)
    requires (forall q <- qs :: !GrantsTo(q, subject)) && (forall x :: anon(x) != subject)
    ensures Forgotten(Run(s, qs, anon).consents, subject)
    decreases |qs|
  {
    if qs != [] {
      hide Good, Next, Legal, Forgotten, GrantsTo;
      assert qs[0] in qs;
      StepKeeps(s, qs[0], anon);
      ForgottenStays(s, qs[0], anon, subject);
      ForgottenThroughRun(Next(s, qs[0], anon).0, qs[1..], anon, subject);
    }
  }

  /** After a successful erasure no check for the subject is allowed, whatever follows,
      until something is granted to the subject afresh. */
  lemma ErasedUntilGranted(s: State, erasure: Request, qs: seq<Request>, q: Request, anon: string -> string)
    requires Good(s) && Legal(s, erasure) && erasure.op.Erasure? && Next(s, erasure, anon).1.Erased?
    requires forall x :: anon(x) != erasure.op.subject
    requires var t := Next(s, erasure, anon).0; LegalRun(t, qs, anon) && Legal(Run(t, qs, anon), q)
    requires (forall p <- qs :: !GrantsTo(p, erasure.op.subject)) && q.op.Check? && q.op.subject == erasure.op.subject
    ensures !Next(Run(Next(s, erasure, anon).0, qs, anon), q, anon).1.Allowed?
  {
    var t, subject := Next(s, erasure, anon).0, erasure.op.subject;
    StepKeeps(s, erasure, anon);
    ErasureForgets(s, erasure, anon);
    ForgottenThroughRun(t, qs, anon, subject);
    var u := Run(t, qs, anon);
    assert Forgotten(u.consents, subject);
    hide Run, LegalRun, Good, Next, Lists, Legal, GrantsTo;
    if Next(u, q, anon).1.Allowed? {
      AllowedIsActive(u, q, anon);
      assert false;
    }
  }

  /** Exactly which records an erasure leaves renewable: those it did not find active. */
  lemma ErasedForGood(s: State, q: Request, anon: string -> string, id: string)
    requires Good(s) && Legal(s, q) && q.op.Erasure? && Next(s, q, anon).1.Erased?
    requires id in s.consents && s.consents[id].subject == q.op.subject
    ensures var t := Next(s, q, anon).0.consents;
            id in t && t[id].subject == anon(q.op.subject) && (t[id].status.Revoked? <==> !s.consents[id].status.Expired?)
  {
    hide Erase;
    var m, all, subject := s.consents, q.op.all.value, q.op.subject;
    assert Next(s, q, anon).0.consents == Erase(m, all, subject, anon(subject), q.now, q.puts).store && Lists(m, all);
    hide Next, Legal;
    EraseDoes(m, all, subject, anon(subject), q.now, q.puts);
    assert m[id] in all && m[id].id == id;
  }

  /** Erasure withdraws active records only: every one already marked expired stays expired
      under the anonymous subject, and an admin can make it active again. */
  lemma ErasedExpiredIsRenewable(s: State, erasure: Request, renewal: Request, anon: string -> string, id: string)
    requires Good(s) && Legal(s, erasure) && erasure.op.Erasure? && Next(s, erasure, anon).1.Erased?
    requires id in s.consents && s.consents[id].subject == erasure.op.subject && s.consents[id].status.Expired?
    requires renewal.op.Renew? && renewal.op.id == id && "admin" in renewal.claims.roles && renewal.puts(id)
    ensures var t := Next(Next(s, erasure, anon).0, renewal, anon).0.consents;
            id in t && t[id].status.Active? && t[id].granted && t[id].subject == anon(erasure.op.subject)
  {
    ErasedForGood(s, erasure, anon, id);
    var t := Next(s, erasure, anon).0;
    assert id in t.consents && !t.consents[id].status.Revoked? && Owns(renewal.claims, t.consents[id]);
    hide Erase, Good, Legal;
  }

  /** It happens: a grant, an expiry, an erasure and a renewal by an admin. */
  lemma ErasedExpiredIsRenewed(anon: string -> string)
    requires anon("tin-1") != "tin-1"
    ensures var c := Consent("con-1", "tin-1", "nin_verification", "consent", true, "", None, "2025-01-01", "2025-02-01", "", Expired);
            var s, admin := State(map["con-1" := c], [Receipt(Granted, c, "2025-01-01", "tin-1")], []), Claims("ops", {"admin"});
            var erase := Request(Erasure(Some([c]), "tin-1", [], true, true), admin, "2025-03-01", (id: string) => true);
            var renew := Request(Renew("con-1", ""), admin, "2025-03-02", (id: string) => true);
            var qs := [erase, renew];
            && Good(s) && LegalRun(s, qs, anon)
            && Next(s, erase, anon).1 == Erased(anon("tin-1"), 1)
            && "con-1" in Run(s, qs, anon).consents && Run(s, qs, anon).consents["con-1"].status == Active
  {
    var c := Consent("con-1", "tin-1", "nin_verification", "consent", true, "", None, "2025-01-01", "2025-02-01", "", Expired);
    var s, admin := State(map["con-1" := c], [Receipt(Granted, c, "2025-01-01", "tin-1")], []), Claims("ops", {"admin"});
    var erase := Request(Erasure(Some([c]), "tin-1", [], true, true), admin, "2025-03-01", (id: string) => true);
    var renew := Request(Renew("con-1", ""), admin, "2025-03-02", (id: string) => true);
    assert Lists(s.consents, [c]);
    var d := Anonymised(c, anon("tin-1"), "2025-03-01");
    assert [c][1..] == [];
    assert Erase(s.consents, [c], "tin-1", anon("tin-1"), "2025-03-01", erase.puts) == Erasing(map["con-1" := d], 1, true);
    var t := Next(s, erase, anon).0;
    assert t.consents == map["con-1" := d];
    assert [erase, renew][1..] == [renew] && [renew][1..] == [];
    assert Run(s, [erase, renew], anon) == Run(t, [renew], anon) == Next(t, renew, anon).0;
  }

  // ---------------------------------------------------------------------------
  // What each request is answered, and what it leaves
  // ---------------------------------------------------------------------------

  predicate IsLawfulBasis(basis: string) {
    basis in {"consent", "contract", "legal_obligation", "vital_interest", "public_task", "legitimate_interest"}
  }

  /** A new record: everything as asked for, with the basis "consent" if none is named; active
      unless the grant is refused, and then revoked at once. */
  predicate IsNewRecord(c: Consent, o: Op, now: string)
    requires o.Create?
  {
    && c.id == o.id && c.subject == o.subject && c.purpose == o.purpose
    && (c.lawfulBasis == o.lawfulBasis || (o.lawfulBasis == "" && c.lawfulBasis == "consent")) && IsLawfulBasis(c.lawfulBasis)
    && c.channel == o.channel && c.metadata == o.metadata && c.grantedAt == now && c.expiresAt == o.expiresAt
    && if o.granted == Some(false) then !c.granted && c.status == Revoked && c.revokedAt == now
       else c.granted && c.status == Active && c.revokedAt == ""
  }

  /** Exactly one record was written, and exactly one receipt issued for it. */
  predicate WritesOne(s: State, t: State, r: Response, action: Action, q: Request) {
    && r.Written?
    && t.consents == s.consents[r.consent.id := r.consent]
    && r.receipt == Receipt(action, r.consent, q.now, q.claims.sub)
    && t.receipts == s.receipts + [r.receipt] && t.log == s.log
  }

  /** A create request: malformed; or for another subject by someone who is not an admin; or
      the write fails; or the record asked for is stored. */
  lemma CreateExactly(s: State, q: Request, anon: string -> string)
    requires q.op.Create?
    ensures var o, t, r := q.op, Next(s, q, anon).0, Next(s, q, anon).1;
      var wellFormed := o.subject != "" && o.purpose != "" && (o.lawfulBasis == "" || IsLawfulBasis(o.lawfulBasis));
      var entitled := o.subject == q.claims.sub || "admin" in q.claims.roles;
      && (r == BadRequest <==> !wellFormed)
      && (r == Forbidden <==> wellFormed && !entitled)
      && (r == Internal <==> wellFormed && entitled && !q.puts(o.id))
      && (r.Written? <==> wellFormed && entitled && q.puts(o.id))
      && if r.Written? then
           WritesOne(s, t, r, if o.granted == Some(false) then Denied else Granted, q) && IsNewRecord(r.consent, o, q.now)
         else t == s
  {
  }

  /** A revocation: of no record, of one already revoked, by someone else than the subject or
      an admin, or with a failing write; or the record is revoked. */
  lemma RevokeExactly(s: State, q: Request, anon: string -> string)
    requires Good(s) && q.op.Revoke?
    ensures var id, m, t, r := q.op.id, s.consents, Next(s, q, anon).0, Next(s, q, anon).1;
      && (r == NotFound <==> id !in m)
      && (r == Conflict <==> id in m && m[id].status == Revoked)
      && (r == Forbidden <==> id in m && m[id].status != Revoked && m[id].subject != q.claims.sub && "admin" !in q.claims.roles)
      && (r == Internal <==> id in m && m[id].status != Revoked && (m[id].subject == q.claims.sub || "admin" in q.claims.roles) && !q.puts(id))
      && (r.Written? || r in {NotFound, Conflict, Forbidden, Internal})
      && if r.Written? then
           WritesOne(s, t, r, Withdrawn, q) && r.consent == m[id].(status := Revoked, granted := false, revokedAt := q.now)
         else t == s
  {
    hide Last;
  }

  /** A renewal, in the same way: a revoked record stays revoked, any other is active again
      with the new expiry. */
  lemma RenewExactly(s: State, q: Request, anon: string -> string)
    requires Good(s) && q.op.Renew?
    ensures var id, m, t, r := q.op.id, s.consents, Next(s, q, anon).0, Next(s, q, anon).1;
      && (r == NotFound <==> id !in m)
      && (r == Forbidden <==> id in m && m[id].subject != q.claims.sub && "admin" !in q.claims.roles)
      && (r == Conflict <==> id in m && (m[id].subject == q.claims.sub || "admin" in q.claims.roles) && m[id].status == Revoked)
      && (r == Internal <==> id in m && (m[id].subject == q.claims.sub || "admin" in q.claims.roles) && m[id].status != Revoked && !q.puts(id))
      && (r.Written? || r in {NotFound, Conflict, Forbidden, Internal})
      && if r.Written? then
           WritesOne(s, t, r, Renewed, q) && r.consent == m[id].(status := Active, granted := true, revokedAt := "", expiresAt := q.op.expiresAt)
         else t == s
  {
    hide Last;
  }

  predicate Overdue(c: Consent, now: string) { c.status == Active && c.expiresAt != "" && Less(c.expiresAt, now) }

  /** A record is shown as it is, an overdue one as expired. */
  predicate ShownAs(d: Consent, c: Consent, now: string) { d == if Overdue(c, now) then c.(status := Expired) else c }

  /** The expiry of an overdue record that a check passes over is stored if the write
      succeeds. */
  function Passed(c: Consent, subject: string, purpose: string, now: string, puts: string -> bool): Consent {
    if c.subject == subject && c.purpose == purpose && Overdue(c, now) && puts(c.id) then c.(status := Expired) else c
  }

  /** The search passes over everything before position i, and stops there. */
  ghost predicate StopsAt(all: seq<Consent>, i: nat, subject: string, purpose: string, now: string) {
    i <= |all| && (i < |all| ==> Valid(all[i], subject, purpose, now)) && forall j :: 0 <= j < i ==> !Valid(all[j], subject, purpose, now)
  }

  /** After a search that stops at i: what it passed over is as `Passed` says, the rest as
      it was. */
  ghost predicate PassedUpTo(m: Store, m': Store, all: seq<Consent>, i: nat, subject: string, purpose: string, now: string, puts: string -> bool) {
    && m'.Keys == m.Keys && (forall id <- m :: m[id] !in all ==> m'[id] == m[id])
    && forall j | 0 <= j < |all| :: all[j].id in m' && m'[all[j].id] == if j < i then Passed(all[j], subject, purpose, now, puts) else all[j]
  }

  lemma {:induction false} FindStores(m: Store, all: seq<Consent>, subject: string, purpose: string, now: string, puts: string -> bool) returns (i: nat)
    requires Snapshot(m, all)
    ensures StopsAt(all, i, subject, purpose, now)
    ensures PassedUpTo(m, Find(m, all, subject, purpose, now, puts).0, all, i, subject, purpose, now, puts)
    decreases |all|
  {
    i := 0;
    if all != [] && !Valid(all[0], subject, purpose, now) {
      var c, rest := all[0], all[1..];
      var m1 := if c.subject != subject || c.purpose != purpose then m else Touch(m, c, now, puts);
      OnePassed(m, all, subject, purpose, now, puts);
      assert Find(m, all, subject, purpose, now, puts).0 == Find(m1, rest, subject, purpose, now, puts).0;
      i := FindStores(m1, rest, subject, purpose, now, puts);
      hide Find, Touch, Passed, Snapshot, Valid, PassedUpTo;
      PassedStep(m, m1, Find(m1, rest, subject, purpose, now, puts).0, all, i, subject, purpose, now, puts);
      assert forall j | 0 <= j < |rest| :: rest[j] == all[j + 1];
      i := i + 1;
    }
  }

  lemma OnePassed(m: Store, all: seq<Consent>, subject: string, purpose: string, now: string, puts: string -> bool)
    requires Snapshot(m, all) && all != [] && !Valid(all[0], subject, purpose, now)
    ensures var c := all[0];
      var m1 := if c.subject != subject || c.purpose != purpose then m else Touch(m, c, now, puts);
      && m1.Keys == m.Keys && c.id in m1 && m1[c.id] == Passed(c, subject, purpose, now, puts)
      && (forall id <- m :: id != c.id ==> m1[id] == m[id])
      && Snapshot(m1, all[1..]) && m1[c.id] !in all[1..]
  {
    TouchExpires(m, all, now, puts);
    var rest := all[1..];
    assert forall j :: 0 <= j < |rest| ==> rest[j] == all[j + 1] && rest[j].id != all[0].id;
    hide Less;
  }

  lemma PassedStep(m: Store, m1: Store, m': Store, all: seq<Consent>, i: nat, subject: string, purpose: string, now: string, puts: string -> bool)
    requires all != [] && m1.Keys == m.Keys && all[0].id in m1 && m1[all[0].id] == Passed(all[0], subject, purpose, now, puts)
    requires (forall id <- m :: id != all[0].id ==> m1[id] == m[id]) && m1[all[0].id] !in all[1..]
    requires all[0].id in m && m[all[0].id] == all[0]
    requires PassedUpTo(m1, m', all[1..], i, subject, purpose, now, puts)
    ensures PassedUpTo(m, m', all, i + 1, subject, purpose, now, puts)
  {
    hide Passed;
    var rest := all[1..];
    forall id <- m | m[id] !in all ensures m'[id] == m[id] {
      assert m[id] != all[0] && m1[id] == m[id] && m1[id] !in rest;
    }
    forall j | 0 <= j < |all|
      ensures all[j].id in m' && m'[all[j].id] == if j < i + 1 then Passed(all[j], subject, purpose, now, puts) else all[j]
    {
      if j > 0 { assert all[j] == rest[j - 1]; }
    }
  }

  /** A check: malformed, or answered; it issues nothing and logs nothing, and stores only
      the expiry of what it passes over. */
  lemma CheckAnswers(s: State, q: Request, anon: string -> string) returns (i: nat)
    requires q.op.Check? && Legal(s, q)
    ensures var o, t, r := q.op, Next(s, q, anon).0, Next(s, q, anon).1;
      && (r == BadRequest <==> !(o.subject != "" && o.purpose != "" && (o.lawfulBasis == "" || IsLawfulBasis(o.lawfulBasis))))
      && (r.Allowed? || r in {BadRequest, NoConsent, BasisMismatch})
      && t == s.(consents := t.consents)
      && (o.all.None? ==> t == s && !r.Allowed?) && (r == BadRequest ==> t == s)
      && (r != BadRequest && o.all.Some? ==>
            && StopsAt(o.all.value, i, o.subject, o.purpose, q.now)
            && (r == NoConsent <==> i == |o.all.value|)
            && (r.Allowed? ==> r.consent == o.all.value[i])
            && PassedUpTo(s.consents, t.consents, o.all.value, i, o.subject, o.purpose, q.now, q.puts))
  {
    i := 0;
    if q.op.all.Some? {
      var m, all, o := s.consents, q.op.all.value, q.op;
      i := FindStores(m, all, o.subject, o.purpose, q.now, q.puts);
      FindsFirstValid(m, all, o.subject, o.purpose, q.now, q.puts);
      var found := Find(m, all, o.subject, o.purpose, q.now, q.puts).1;
      if found.Some? {
        var k :| FirstValid(all, k, o.subject, o.purpose, q.now) && found.value == all[k];
        OneStop(all, i, k, o.subject, o.purpose, q.now);
      } else {
        assert forall j | 0 <= j < |all| :: !Valid(all[j], o.subject, o.purpose, q.now);
      }
      hide Find, Passed, PassedUpTo, Less, Valid, Lists, Snapshot;
    }
  }

  lemma OneStop(all: seq<Consent>, i: nat, k: int, subject: string, purpose: string, now: string)
    requires StopsAt(all, i, subject, purpose, now) && FirstValid(all, k, subject, purpose, now)
    ensures i == k
  {
    hide Valid;
    assert !(i < k) && !(k < i);
  }

  predicate Ascending(p: seq<nat>) { forall j, k | 0 <= j < k < |p| :: p[j] < p[k] }

  /** The records of the subject, each once, in the order of the listing. */
  predicate Picks(all: seq<Consent>, subject: string, p: seq<nat>) {
    Ascending(p) && (forall i | i in p :: i < |all|) && forall i: nat | i < |all| :: i in p <==> all[i].subject == subject
  }

  predicate Shows(out: seq<Consent>, all: seq<Consent>, p: seq<nat>, now: string) {
    |out| == |p| && forall k | 0 <= k < |p| :: p[k] < |all| && ShownAs(out[k], all[p[k]], now)
  }

  lemma {:induction false} SweepLists(m: Store, all: seq<Consent>, subject: string, now: string, puts: string -> bool) returns (p: seq<nat>)
    ensures Picks(all, subject, p) && Shows(Sweep(m, all, subject, now, puts).1, all, p, now)
    decreases |all|
  {
    p := [];
    if all != [] {
      var c, rest := all[0], all[1..];
      var m1 := if c.subject == subject then Touch(m, c, now, puts) else m;
      var tail := SweepLists(m1, rest, subject, now, puts);
      p := if c.subject == subject then [0] + Shifted(tail) else Shifted(tail);
      var out := Sweep(m1, rest, subject, now, puts).1;
      assert Sweep(m, all, subject, now, puts).1 == if c.subject == subject then [Seen(c, now)] + out else out;
      hide Sweep, Touch, Seen, Picks, Shows, Shifted;
      PicksStep(all, subject, tail);
      ShowsStep(out, all, tail, now);
    }
  }

  lemma PicksStep(all: seq<Consent>, subject: string, p: seq<nat>)
    requires all != [] && Picks(all[1..], subject, p)
    ensures Picks(all, subject, if all[0].subject == subject then [0] + Shifted(p) else Shifted(p))
  {
    ShiftedMembers(p);
    assert forall i: nat | i < |all| - 1 :: all[1..][i] == all[i + 1];
  }

  lemma ShowsStep(out: seq<Consent>, all: seq<Consent>, p: seq<nat>, now: string)
    requires all != [] && Shows(out, all[1..], p, now)
    ensures Shows(out, all, Shifted(p), now) && Shows([Seen(all[0], now)] + out, all, [0] + Shifted(p), now)
  {
    assert ShownAs(Seen(all[0], now), all[0], now);
    hide Seen, ShownAs;
    assert forall i: nat | i < |all| - 1 :: all[1..][i] == all[i + 1];
  }

  function Shifted(p: seq<nat>): seq<nat> { seq(|p|, k requires 0 <= k < |p| => p[k] + 1) }

  lemma ShiftedMembers(p: seq<nat>)
    ensures forall i: nat :: i in Shifted(p) <==> i > 0 && i - 1 in p
  {
    forall i: nat | i > 0 && i - 1 in p ensures i in Shifted(p) {
      var k :| 0 <= k < |p| && p[k] == i - 1;
      assert Shifted(p)[k] == i;
    }
  }

  /** The expiry of an overdue record of the subject is stored if the write succeeds. */
  function Swept(c: Consent, subject: string, now: string, puts: string -> bool): Consent {
    if c.subject == subject && Overdue(c, now) && puts(c.id) then c.(status := Expired) else c
  }

  lemma {:induction false} SweepStores(m: Store, all: seq<Consent>, subject: string, now: string, puts: string -> bool)
    requires Snapshot(m, all)
    ensures var m' := Sweep(m, all, subject, now, puts).0;
      && m'.Keys == m.Keys
      && (forall c <- all :: m'[c.id] == Swept(c, subject, now, puts))
      && (forall id <- m :: m[id] !in all ==> m'[id] == m[id])
    decreases |all|
  {
    if all != [] {
      var c, rest := all[0], all[1..];
      var m1 := if c.subject == subject then Touch(m, c, now, puts) else m;
      TouchExpires(m, all, now, puts);
      assert m1.Keys == m.Keys && m1[c.id] == Swept(c, subject, now, puts) && forall id <- m :: id != c.id ==> m1[id] == m[id];
      assert forall i :: 0 <= i < |rest| ==> rest[i] == all[i + 1] && rest[i].id != c.id;
      assert Snapshot(m1, rest);
      SweepStores(m1, rest, subject, now, puts);
      var m' := Sweep(m1, rest, subject, now, puts).0;
      assert Sweep(m, all, subject, now, puts).0 == m';
      assert m1[c.id] !in rest by { assert m1[c.id].id == c.id; }
      hide Sweep, Touch, Swept, Snapshot;
      assert forall d <- all :: d == c || d in rest;
      forall id <- m | m[id] !in all ensures m'[id] == m[id] {
        assert id != c.id && m1[id] == m[id];
      }
    }
  }

  /** A listing of somebody else's records is refused to all but admins; the subject gets all
      of its records and nobody else's. */
  lemma ListingExactly(s: State, q: Request, anon: string -> string) returns (p: seq<nat>)
    requires Good(s) && q.op.ListBySubject? && Legal(s, q)
    ensures var o, t, r := q.op, Next(s, q, anon).0, Next(s, q, anon).1;
      var entitled := o.subject == q.claims.sub || "admin" in q.claims.roles;
      && (r == Forbidden <==> !entitled) && (r == Internal <==> entitled && o.all.None?)
      && (r.Listed? <==> entitled && o.all.Some?)
      && (!r.Listed? ==> t == s)
      && (r.Listed? ==>
            && Picks(o.all.value, o.subject, p) && Shows(r.consents, o.all.value, p, q.now)
            && t == s.(consents := t.consents) && t.consents.Keys == s.consents.Keys
            && forall id <- s.consents :: t.consents[id] == Swept(s.consents[id], o.subject, q.now, q.puts))
  {
    p := [];
    if q.op.all.Some? {
      var m, all, subject := s.consents, q.op.all.value, q.op.subject;
      p := SweepLists(m, all, subject, q.now, q.puts);
      SweepStores(m, all, subject, q.now, q.puts);
      assert forall id <- m :: m[id] in all && m[id].id == id;
      hide Sweep, Swept, Picks, Shows, Lists, Snapshot, Last, Good;
    }
  }

  /** What an erasure makes of a record: under the anonymous subject, without metadata and
      channel, revoked if it was active, and otherwise as it was. */
  predicate IsAnonymised(d: Consent, c: Consent, anon: string, now: string) {
    && d.subject == anon && d.metadata == None && d.channel == ""
    && d.id == c.id && d.purpose == c.purpose && d.lawfulBasis == c.lawfulBasis && d.grantedAt == c.grantedAt && d.expiresAt == c.expiresAt
    && if c.status == Active then d.status == Revoked && !d.granted && d.revokedAt == now
       else d.status == c.status && d.granted == c.granted && d.revokedAt == c.revokedAt
  }

  function CountOf(all: seq<Consent>, subject: string): nat {
    if all == [] then 0 else (if all[0].subject == subject then 1 else 0) + CountOf(all[1..], subject)
  }

  lemma {:induction false} EraseCounts(m: Store, all: seq<Consent>, subject: string, anon: string, now: string, puts: string -> bool)
    ensures var e := Erase(m, all, subject, anon, now, puts);
      && (e.complete ==> e.count == CountOf(all, subject))
      && (e.complete <==> forall c <- all :: c.subject == subject ==> puts(c.id))
    decreases |all|
  {
    if all != [] {
      assert forall c :: c in all <==> c == all[0] || c in all[1..];
      if all[0].subject != subject {
        EraseCounts(m, all[1..], subject, anon, now, puts);
      } else if puts(all[0].id) {
        EraseCounts(m[all[0].id := Anonymised(all[0], anon, now)], all[1..], subject, anon, now, puts);
      }
    }
  }

  /** An erasure is refused to all but the subject, an admin or a privacy officer, and under a
      hold that is found (which is logged); it is done if the records can be listed, every
      write and the audit entry succeed. It then has anonymised exactly the subject's records,
      says how many, and is logged. No receipt is issued. */
  lemma ErasureExactly(s: State, q: Request, anon: string -> string)
    requires Good(s) && q.op.Erasure? && Legal(s, q)
    ensures var o, m, t, r := q.op, s.consents, Next(s, q, anon).0, Next(s, q, anon).1;
      var entitled := o.subject == q.claims.sub || "admin" in q.claims.roles || "privacy:officer" in q.claims.roles;
      var held := o.holdsListed && exists h <- o.holds :: h.subject == o.subject && h.active;
      && (r == Forbidden <==> !entitled) && (r == Conflict <==> entitled && held)
      && (r.Erased? <==> entitled && !held && o.all.Some? && o.audited && forall c <- o.all.value :: c.subject == o.subject ==> q.puts(c.id))
      && (r.Erased? || r in {Forbidden, Conflict, Internal})
      && (r in {Forbidden, Conflict} ==> t.consents == m)
      && t.receipts == s.receipts
      && t.log == s.log + (if r.Erased? then [LogEntry(o.subject, "erasure", q.claims.sub)]
                           else if r == Conflict then [LogEntry(o.subject, "erasure_refused_legal_hold", q.claims.sub)] else [])
      && (r.Erased? ==>
            && r.anon == anon(o.subject) && r.count == CountOf(o.all.value, o.subject)
            && t.consents.Keys == m.Keys
            && forall id <- m :: if m[id].subject == o.subject then IsAnonymised(t.consents[id], m[id], r.anon, q.now) else t.consents[id] == m[id])
  {
    if q.op.all.Some? {
      var m, all, o := s.consents, q.op.all.value, q.op;
      EraseDoes(m, all, o.subject, anon(o.subject), q.now, q.puts);
      EraseCounts(m, all, o.subject, anon(o.subject), q.now, q.puts);
      assert forall id <- m :: m[id] in all && m[id].id == id;
      AnonymisedIs(o.subject, anon(o.subject), q.now);
      hide Erase, Lists, Snapshot, Last, Good, CountOf, Anonymised, IsAnonymised;
    }
  }

  lemma AnonymisedIs(subject: string, anon: string, now: string)
    ensures forall c :: IsAnonymised(Anonymised(c, anon, now), c, anon, now)
  {
  }

  // ---------------------------------------------------------------------------
  // Text order is time order
  // ---------------------------------------------------------------------------

  lemma {:induction false} LessOnPrefix(x: string, y: string, u: string, v: string)
    requires |x| == |y|
    ensures Less(x + u, y + v) <==> Less(x, y) || (x == y && Less(u, v))
  {
    if x == [] {
      assert x + u == u && y + v == v;
    } else {
      assert (x + u)[1..] == x[1..] + u && (y + v)[1..] == y[1..] + v;
      assert x == [x[0]] + x[1..] && y == [y[0]] + y[1..];
      LessOnPrefix(x[1..], y[1..], u, v);
    }
  }

  /** n in exactly w decimal digits. */
  function Digits(n: nat, w: nat): (s: string)
    ensures |s| == w
  {
    if w == 0 then "" else Digits(n / 10, w - 1) + [('0' as int + n % 10) as char]
  }

  function Pow10(w: nat): nat { if w == 0 then 1 else 10 * Pow10(w - 1) }

  lemma {:induction false} DigitsOrder(m: nat, n: nat, w: nat)
    requires m < Pow10(w) && n < Pow10(w)
    ensures (Less(Digits(m, w), Digits(n, w)) <==> m < n) && (Digits(m, w) == Digits(n, w) <==> m == n)
  {
    if w > 0 {
      DigitsOrder(m / 10, n / 10, w - 1);
      var x, y := Digits(m / 10, w - 1), Digits(n / 10, w - 1);
      var u, v := [('0' as int + m % 10) as char], [('0' as int + n % 10) as char];
      LessOnPrefix(x, y, u, v);
      assert Less(u, v) <==> m % 10 < n % 10;
      assert Digits(m, w) == x + u && Digits(n, w) == y + v;
      assert (x + u)[..w - 1] == x && (y + v)[..w - 1] == y && (x + u)[w - 1] == u[0] && (y + v)[w - 1] == v[0];
      assert m == 10 * (m / 10) + m % 10 && n == 10 * (n / 10) + n % 10;
    }
  }

  /** A UTC instant, field by field from the year down. */
  datatype Field = Field(value: nat, width: nat, mark: char)

  /** The fields one after the other, each followed by its mark ("2025-01-31T..Z"). */
  function Format(fs: seq<Field>): string {
    if fs == [] then "" else Digits(fs[0].value, fs[0].width) + [fs[0].mark] + Format(fs[1..])
  }

  ghost predicate SameShape(f: seq<Field>, g: seq<Field>) {
    |f| == |g| && forall i :: 0 <= i < |f| ==>
      f[i].width == g[i].width && f[i].mark == g[i].mark && f[i].value < Pow10(f[i].width) && g[i].value < Pow10(g[i].width)
  }

  /** f is the earlier instant: smaller at the first field that differs. */
  predicate Earlier(f: seq<Field>, g: seq<Field>)
    requires |f| == |g|
  {
    f != [] && (f[0].value < g[0].value || (f[0].value == g[0].value && Earlier(f[1..], g[1..])))
  }

  /** On instants written in one zone with one layout, comparing the texts (as the expiry
      tests do) compares the instants. */
  lemma {:induction false} TextOrderIsTimeOrder(f: seq<Field>, g: seq<Field>)
    requires SameShape(f, g)
    ensures Less(Format(f), Format(g)) <==> Earlier(f, g)
  {
    if f != [] {
      var x, y := Digits(f[0].value, f[0].width), Digits(g[0].value, g[0].width);
      DigitsOrder(f[0].value, g[0].value, f[0].width);
      LessOnPrefix(x + [f[0].mark], y + [g[0].mark], Format(f[1..]), Format(g[1..]));
      LessOnPrefix(x, y, [f[0].mark], [g[0].mark]);
      assert x + [f[0].mark] == y + [g[0].mark] <==> x == y by {
        assert (x + [f[0].mark])[..|x|] == x && (y + [g[0].mark])[..|y|] == y;
      }
      TextOrderIsTimeOrder(f[1..], g[1..]);
    }
  }
}
