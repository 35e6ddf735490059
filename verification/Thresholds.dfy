/** AML threshold tracking (services/ledger/thresholds.go): the in-place filtered window
    over a shared backing array as code, and its meaning over whole histories. Times
    are nanoseconds; amounts are kobo in an unsigned 64-bit word. */
module Thresholds {

  const CTR_THRESHOLD: nat := 1_000_000_000
  const NEAR_THRESHOLD: nat := 800_000_000
  const WINDOW: int := 24 * 3600 * 1_000_000_000
  const TWO64: nat := 0x1_0000_0000_0000_0000

  type Amount = a: nat | a < TWO64

  datatype Transfer = Transfer(account: string, amount: Amount)
  datatype Entry = Entry(at: int, amount: Amount)
  datatype Event = CtrReportable | ThresholdReview | Structuring(count: nat, total: nat, maxSingle: nat)

  // ---------------------------------------------------------------------------
  // One observation, on values
  // ---------------------------------------------------------------------------

  predicate IsRecent(e: Entry, now: int) { now - e.at <= WINDOW }

  function Recent(es: seq<Entry>, now: int): seq<Entry> {
    if es == [] then []
    else
      var last := es[|es| - 1];
      var r := Recent(es[..|es| - 1], now);
      if IsRecent(last, now) then r + [last] else r
  }

  /** The total as the code adds it up, in 64 bits. */
  function WrappedTotal(es: seq<Entry>): nat {
    if es == [] then 0 else (WrappedTotal(es[..|es| - 1]) + es[|es| - 1].amount) % TWO64
  }

  function MaxAmount(es: seq<Entry>): nat {
    if es == [] then 0
    else
      var m := MaxAmount(es[..|es| - 1]);
      if es[|es| - 1].amount > m then es[|es| - 1].amount else m
  }

  datatype World = World(windows: map<string, seq<Entry>>, flagged: map<string, int>)
  datatype Outcome = Outcome(world: World, events: seq<Event>)

  function WindowOf(w: World, account: string): seq<Entry> {
    if account in w.windows then w.windows[account] else []
  }

  function ObserveSpec(w: World, t: Transfer, now: int): Outcome {
    if t.amount >= CTR_THRESHOLD then Outcome(w, [CtrReportable])
    else
      var kept := Recent(WindowOf(w, t.account), now) + [Entry(now, t.amount)];
      var total, maxAmt := WrappedTotal(kept), MaxAmount(kept);
      var flag := |kept| >= 3 && total >= CTR_THRESHOLD && maxAmt < CTR_THRESHOLD
                  && (t.account !in w.flagged || now - w.flagged[t.account] > WINDOW);
      Outcome(
        World(w.windows[t.account := kept], if flag then w.flagged[t.account := now] else w.flagged),
        (if t.amount >= NEAR_THRESHOLD then [ThresholdReview] else [])
        + (if flag then [Structuring(|kept|, total, maxAmt)] else []))
  }

  // ---------------------------------------------------------------------------
  // The code: windows are slices, each over its own backing array
  // ---------------------------------------------------------------------------

  datatype Slice = Slice(arr: array<Entry>, len: nat)

  /** The filter writes into the array it reads, never ahead of the read position. */
  method FilterInPlace(arr: array<Entry>, len: nat, now: int) returns (k: nat)
    requires len <= arr.Length
    modifies arr
    ensures k <= len && arr[..k] == Recent(old(arr[..len]), now)
  {
    ghost var before := arr[..];
    k := 0;
    var i := 0;
    while i < len
      invariant 0 <= k <= i <= len
      invariant arr[..k] == Recent(before[..i], now)
      invariant arr[i..] == before[i..]
    {
      var e := arr[i];
      assert e == arr[i..][0] == before[i];
      assert before[..i + 1][..i] == before[..i];
      assert arr[i..][1..] == arr[i + 1..] && before[i..][1..] == before[i + 1..];
      if now - e.at <= WINDOW {
        arr[k] := e;
        k := k + 1;
      }
      i := i + 1;
    }
    assert before[..len] == old(arr[..len]);
  }

  /** The filter and then the new entry; a new array is made only when the old one is full. */
  method FilterAppend(entries: Slice, e: Entry, now: int) returns (kept: Slice)
    requires entries.len <= entries.arr.Length
    modifies entries.arr
    ensures kept.len <= kept.arr.Length && (kept.arr == entries.arr || fresh(kept.arr))
    ensures kept.arr[..kept.len] == Recent(old(entries.arr[..entries.len]), now) + [e]
  {
    hide Recent;
    var arr := entries.arr;
    var k := FilterInPlace(arr, entries.len, now);
    ghost var recent := arr[..k];
    if k == arr.Length {
      var grown := new Entry[2 * k + 1](i requires 0 <= i reads arr => if i < arr.Length then arr[i] else e);
      assert grown[..k] == recent;
      arr := grown;
    }
    arr[k] := e;
    assert arr[..k + 1] == recent + [e];
    kept := Slice(arr, k + 1);
  }

  class ThresholdTracker {
    var windows: map<string, Slice>
    var flagged: map<string, int>
    ghost var contents: map<string, seq<Entry>>
    ghost var owner: map<array<Entry>, string>

    ghost predicate Valid()
      reads this, owner.Keys
    {
      contents.Keys == windows.Keys && forall k | k in windows :: WindowOK(k)
    }

    /** The window of `k` is its own array, holding its entries. */
    ghost predicate WindowOK(k: string)
      requires k in windows
      reads this, owner.Keys
    {
      var w := windows[k];
      && w.arr in owner && owner[w.arr] == k
      && w.len <= w.arr.Length
      && k in contents && w.arr[..w.len] == contents[k]
    }

    ghost function Model(): World
      reads this
    {
      World(contents, flagged)
    }

    constructor ()
      ensures Valid() && Model() == World(map[], map[])
    {
      windows, flagged, contents, owner := map[], map[], map[], map[];
    }

    method Observe(t: Transfer, now: int) returns (out: seq<Event>)
      requires Valid()
      modifies this, owner.Keys
      ensures Valid() && fresh(owner.Keys - old(owner.Keys))
      ensures Outcome(Model(), out) == ObserveSpec(old(Model()), t, now)
    {
      hide Valid, WindowOK, Recent, WrappedTotal, MaxAmount;
      out := [];
      if t.amount >= CTR_THRESHOLD {
        return [CtrReportable];
      }
      if t.amount >= NEAR_THRESHOLD {
        out := [ThresholdReview];
      }
      var key := t.account;
      var kept := Append(key, Entry(now, t.amount), now);
      var total, maxAmt := Summarise(kept);
      var shouldFlag := kept.len >= 3 && total >= CTR_THRESHOLD && maxAmt < CTR_THRESHOLD
                        && (key !in flagged || now - flagged[key] > WINDOW);
      if shouldFlag {
        SetFlag(key, now);
        out := out + [Structuring(kept.len, total, maxAmt)];
      }
    }

    /** The account's window, filtered in place and extended, stored back. */
    method Append(key: string, e: Entry, now: int) returns (kept: Slice)
      requires Valid()
      modifies this`windows, this`contents, this`owner, owner.Keys
      ensures Valid() && fresh(owner.Keys - old(owner.Keys))
      ensures kept.len <= kept.arr.Length && key in contents && kept.arr[..kept.len] == contents[key]
      ensures contents == old(contents)[key := Recent(WindowOf(old(Model()), key), now) + [e]]
    {
      hide Recent;
      var entries: Slice;
      if key in windows {
        entries := windows[key];
      } else {
        var none := new Entry[0];
        entries := Slice(none, 0);
      }
      assert entries.arr[..entries.len] == WindowOf(Model(), key);
      kept := FilterAppend(entries, e, now);
      forall q | q in windows && q != key ensures WindowOK(q) && windows[q].arr != kept.arr {
        assert old(WindowOK(q));
      }
      Store(key, kept);
    }

    /** Remembers when the account last alerted; the windows are untouched. */
    method SetFlag(key: string, now: int)
      requires Valid()
      modifies this`flagged
      ensures Valid() && flagged == old(flagged)[key := now]
    {
      flagged := flagged[key := now];
      forall q | q in windows ensures WindowOK(q) {
        assert old(WindowOK(q));
      }
    }

    /** Makes a slice the account's window; the other accounts keep their own arrays. */
    method Store(key: string, kept: Slice)
      requires contents.Keys == windows.Keys && forall q | q in windows && q != key :: WindowOK(q)
      requires kept.len <= kept.arr.Length && (kept.arr in owner ==> owner[kept.arr] == key)
      modifies this`windows, this`contents, this`owner
      ensures Valid() && owner.Keys == old(owner.Keys) + {kept.arr}
      ensures windows == old(windows)[key := kept] && contents == old(contents)[key := kept.arr[..kept.len]]
    {
      windows, contents, owner := windows[key := kept], contents[key := kept.arr[..kept.len]], owner[kept.arr := key];
      forall q | q in windows ensures WindowOK(q) {
        assert q != key ==> old(WindowOK(q));
      }
    }

    method Summarise(s: Slice) returns (total: nat, maxAmt: nat)
      requires s.len <= s.arr.Length
      ensures total == WrappedTotal(s.arr[..s.len]) && maxAmt == MaxAmount(s.arr[..s.len])
    {
      total, maxAmt := 0, 0;
      var i := 0;
      while i < s.len
        invariant 0 <= i <= s.len
        invariant total == WrappedTotal(s.arr[..i]) && maxAmt == MaxAmount(s.arr[..i])
      {
        var e := s.arr[i];
        assert s.arr[..i + 1][..i] == s.arr[..i];
        total := (total + e.amount) % TWO64;
        if e.amount > maxAmt { maxAmt := e.amount; }
        i := i + 1;
      }
    }
  }

  // ---------------------------------------------------------------------------
  // Whole histories
  // ---------------------------------------------------------------------------

  datatype Obs = Obs(transfer: Transfer, now: int)

  predicate Monotone(h: seq<Obs>) { forall i, j | 0 <= i < j < |h| :: h[i].now <= h[j].now }

  /** The tracker after a history, from empty. */
  function After(h: seq<Obs>): World {
    if h == [] then World(map[], map[])
    else ObserveSpec(After(h[..|h| - 1]), h[|h| - 1].transfer, h[|h| - 1].now).world
  }

  function EventsAt(h: seq<Obs>, i: nat): seq<Event>
    requires i < |h|
  {
    ObserveSpec(After(h[..i]), h[i].transfer, h[i].now).events
  }

  predicate IsSub(o: Obs, account: string) {
    o.transfer.account == account && o.transfer.amount < CTR_THRESHOLD
  }

  /** The account's sub-threshold transfers, in order. */
  function SubOf(h: seq<Obs>, account: string): seq<Entry> {
    if h == [] then []
    else
      var o := h[|h| - 1];
      var s := SubOf(h[..|h| - 1], account);
      if IsSub(o, account) then s + [Entry(o.now, o.transfer.amount)] else s
  }

  predicate Alerts(h: seq<Obs>, account: string, i: nat) {
    i < |h| && IsSub(h[i], account) && HasAlert(EventsAt(h, i))
  }

  lemma {:induction false} RecentTwice(es: seq<Entry>, t: int, now: int)
    requires t <= now
    ensures Recent(Recent(es, t), now) == Recent(es, now)
  {
    if es != [] {
      var init, last := es[..|es| - 1], es[|es| - 1];
      RecentTwice(init, t, now);
      var r := Recent(init, t);
      if IsRecent(last, t) { assert (r + [last])[..|r|] == r; }
    }
  }

  lemma {:induction false} SubBefore(h: seq<Obs>, account: string, now: int)
    requires forall o | o in h :: o.now <= now
    ensures forall e | e in SubOf(h, account) :: e.at <= now && e.amount < CTR_THRESHOLD
  {
    if h != [] { SubBefore(h[..|h| - 1], account, now); }
  }

  lemma MonotonePrefix(h: seq<Obs>, i: nat)
    requires Monotone(h) && i < |h|
    ensures Monotone(h[..i]) && forall o | o in h[..i] :: o.now <= h[i].now
  {
  }

  /** An account's window is exactly its sub-threshold transfers of the 24 hours before
      the last of them, in order. */
  lemma {:induction false} WindowExact(h: seq<Obs>, account: string)
    requires Monotone(h)
    ensures WindowOf(After(h), account) == WindowAt(SubOf(h, account))
  {
    if h != [] {
      var init, o := h[..|h| - 1], h[|h| - 1];
      MonotonePrefix(h, |h| - 1);
      WindowExact(init, account);
      SubBefore(init, account, o.now);
      if IsSub(o, account) {
        WindowAtStep(SubOf(init, account), Entry(o.now, o.transfer.amount));
      }
      hide Recent, WindowAt, WrappedTotal, MaxAmount;
      assert After(h) == ObserveSpec(After(init), o.transfer, o.now).world;
    }
  }

  /** The entries of the 24 hours before the last one. */
  function WindowAt(s: seq<Entry>): seq<Entry> {
    if s == [] then [] else Recent(s, s[|s| - 1].at)
  }

  lemma WindowAtStep(s: seq<Entry>, e: Entry)
    requires forall f | f in s :: f.at <= e.at
    ensures WindowAt(s + [e]) == Recent(WindowAt(s), e.at) + [e]
  {
    assert (s + [e])[..|s|] == s;
    if s != [] {
      assert s[|s| - 1] in s;
      RecentTwice(s, s[|s| - 1].at, e.at);
    }
  }

  /** Just after a sub-threshold transfer the window is that of the last 24 hours. */
  lemma WindowAfterTransfer(h: seq<Obs>, account: string)
    requires Monotone(h) && h != [] && IsSub(h[|h| - 1], account)
    ensures WindowOf(After(h), account) == Recent(SubOf(h, account), h[|h| - 1].now)
  {
    WindowExact(h, account);
    hide Recent;
    var init := h[..|h| - 1];
    assert SubOf(h, account) == SubOf(init, account) + [Entry(h[|h| - 1].now, h[|h| - 1].transfer.amount)];
  }

  predicate HasAlert(events: seq<Event>) { exists e | e in events :: e.Structuring? }

  /** One observation sets the account's flag to now when it alerts, and no flag otherwise. */
  lemma FlagStep(w: World, t: Transfer, now: int)
    ensures var o := ObserveSpec(w, t, now);
      o.world.flagged == if HasAlert(o.events) then w.flagged[t.account := now] else w.flagged
    ensures t.amount < CTR_THRESHOLD ==>
      var kept := Recent(WindowOf(w, t.account), now) + [Entry(now, t.amount)];
      HasAlert(ObserveSpec(w, t, now).events) <==>
        |kept| >= 3 && WrappedTotal(kept) >= CTR_THRESHOLD && MaxAmount(kept) < CTR_THRESHOLD
        && (t.account !in w.flagged || now - w.flagged[t.account] > WINDOW)
    ensures t.amount >= CTR_THRESHOLD ==> !HasAlert(ObserveSpec(w, t, now).events)
  {
    hide Recent, WrappedTotal, MaxAmount;
    var events := ObserveSpec(w, t, now).events;
    assert |events| > 0 && events[|events| - 1].Structuring? ==> events[|events| - 1] in events;
    assert |events| <= 2;
    assert forall e | e in events :: e == events[0] || e == events[|events| - 1];
  }

  /** The recorded flag is the time of the account's last alert. */
  predicate LastAlert(h: seq<Obs>, account: string, i: nat) {
    && Alerts(h, account, i)
    && account in After(h).flagged && After(h).flagged[account] == h[i].now
    && forall j | i < j < |h| :: !Alerts(h, account, j)
  }

  predicate NoAlert(h: seq<Obs>, account: string) {
    account !in After(h).flagged && forall j | 0 <= j < |h| :: !Alerts(h, account, j)
  }

  lemma AlertsPrefix(h: seq<Obs>, account: string, n: nat, i: nat)
    requires i < n <= |h|
    ensures Alerts(h[..n], account, i) <==> Alerts(h, account, i)
  {
    assert h[..n][..i] == h[..i];
  }

  lemma AlertInRange(h: seq<Obs>, account: string, i: nat)
    requires Alerts(h, account, i)
    ensures i < |h|
  {
  }

  lemma AlertSetsFlag(h: seq<Obs>, account: string)
    requires h != []
    ensures var n := |h| - 1;
      var f, f' := After(h[..n]).flagged, After(h).flagged;
      if Alerts(h, account, n) then account in f' && f'[account] == h[n].now
      else (account in f' <==> account in f) && (account in f ==> f'[account] == f[account])
  {
    var n := |h| - 1;
    FlagStep(After(h[..n]), h[n].transfer, h[n].now);
    hide ObserveSpec;
    assert EventsAt(h, n) == ObserveSpec(After(h[..n]), h[n].transfer, h[n].now).events;
  }

  lemma {:induction false} FlagIsLastAlert(h: seq<Obs>, account: string) returns (i: nat)
    ensures NoAlert(h, account) || LastAlert(h, account, i)
  {
    i := 0;
    if h != [] {
      i := FlagIsLastAlert(h[..|h| - 1], account);
      LastAlertStep(h, account, i);
      if Alerts(h, account, |h| - 1) { i := |h| - 1; }
    }
  }

  lemma LastAlertStep(h: seq<Obs>, account: string, i: nat)
    requires h != []
    requires NoAlert(h[..|h| - 1], account) || LastAlert(h[..|h| - 1], account, i)
    ensures var n := |h| - 1;
      if Alerts(h, account, n) then LastAlert(h, account, n)
      else NoAlert(h, account) || LastAlert(h, account, i)
  {
    hide After, Alerts;
    var n := |h| - 1;
    AlertSetsFlag(h, account);
    forall j | 0 <= j < n ensures Alerts(h[..n], account, j) <==> Alerts(h, account, j) {
      AlertsPrefix(h, account, n, j);
    }
    assert i < n ==> h[..n][i] == h[i];
    if LastAlert(h[..n], account, i) { AlertInRange(h[..n], account, i); }
  }

  /** Structuring alerts of one account are more than 24 hours apart. */
  lemma AlertsSpaced(h: seq<Obs>, account: string, i: nat, j: nat)
    requires Monotone(h) && i < j && Alerts(h, account, i) && Alerts(h, account, j)
    ensures h[j].now - h[i].now > WINDOW
  {
    var pre := h[..j];
    var last := FlagIsLastAlert(pre, account);
    AlertsPrefix(h, account, j, i);
    FlagStep(After(pre), h[j].transfer, h[j].now);
    hide ObserveSpec, After, Recent, WrappedTotal, MaxAmount;
    assert i <= last;
    assert h[i].now <= h[last].now;
  }

  // ---------------------------------------------------------------------------
  // Totals and detection
  // ---------------------------------------------------------------------------

  function Total(es: seq<Entry>): nat {
    if es == [] then 0 else Total(es[..|es| - 1]) + es[|es| - 1].amount
  }

  /** The most sub-threshold entries whose total cannot wrap around. */
  const MAX_ENTRIES: nat := 18_446_744_092

  lemma {:induction false} SmallTotal(es: seq<Entry>)
    requires forall e | e in es :: e.amount < CTR_THRESHOLD
    ensures Total(es) <= |es| * (CTR_THRESHOLD - 1) && MaxAmount(es) < CTR_THRESHOLD
  {
    if es != [] { SmallTotal(es[..|es| - 1]); }
  }

  lemma {:induction false} NoOverflow(es: seq<Entry>)
    requires (forall e | e in es :: e.amount < CTR_THRESHOLD) && |es| <= MAX_ENTRIES
    ensures WrappedTotal(es) == Total(es) < TWO64
  {
    SmallTotal(es);
    assert MAX_ENTRIES * (CTR_THRESHOLD - 1) < TWO64;
    if es != [] { NoOverflow(es[..|es| - 1]); }
  }

  /** The code's total is the true one modulo 2^64. */
  lemma {:induction false} WrapsModulo(es: seq<Entry>)
    ensures WrappedTotal(es) == Total(es) % TWO64
  {
    if es != [] { WrapsModulo(es[..|es| - 1]); }
  }

  /** n entries of the largest sub-threshold amount. */
  function Largest(n: nat): (es: seq<Entry>)
    ensures |es| == n && Total(es) == n * (CTR_THRESHOLD - 1)
    ensures forall e | e in es :: e.amount < CTR_THRESHOLD
  {
    if n == 0 then []
    else
      var init := Largest(n - 1);
      assert (init + [Entry(0, CTR_THRESHOLD - 1)])[..n - 1] == init;
      init + [Entry(0, CTR_THRESHOLD - 1)]
  }

  /** The bound is the largest: with one entry more the total can wrap around to less than
      the threshold. */
  lemma OverflowIsPossible()
    ensures var es := Largest(MAX_ENTRIES + 1); WrappedTotal(es) < CTR_THRESHOLD <= Total(es)
  {
    hide Largest, Total, WrappedTotal;
    WrapsModulo(Largest(MAX_ENTRIES + 1));
    assert (MAX_ENTRIES + 1) * (CTR_THRESHOLD - 1) == TWO64 + 843_704_291;
  }

  predicate Below(picked: seq<nat>, n: nat) { forall k | 0 <= k < |picked| :: picked[k] < n }

  function SumAt(h: seq<Obs>, picked: seq<nat>): nat
    requires Below(picked, |h|)
  {
    if picked == [] then 0 else SumAt(h, picked[..|picked| - 1]) + h[picked[|picked| - 1]].transfer.amount
  }

  /** Positions in the history of some sub-threshold transfers of the account, each at
      most 24 hours before `now`. */
  predicate Picks(h: seq<Obs>, account: string, now: int, picked: seq<nat>) {
    && Below(picked, |h|)
    && (forall i, j | 0 <= i < j < |picked| :: picked[i] < picked[j])
    && forall k | 0 <= k < |picked| :: IsSub(h[picked[k]], account) && now - h[picked[k]].now <= WINDOW
  }

  lemma {:induction false} PickedInWindow(h: seq<Obs>, account: string, now: int, picked: seq<nat>)
    requires Picks(h, account, now, picked)
    ensures var w := Recent(SubOf(h, account), now); |picked| <= |w| && SumAt(h, picked) <= Total(w)
    decreases |h|
  {
    if h == [] {
      assert picked == [];
    } else {
      var n := |h| - 1;
      WindowGrows(h, account, now);
      hide Recent, SubOf, Total;
      if picked != [] && picked[|picked| - 1] == n {
        PickedInWindow(h[..n], account, now, picked[..|picked| - 1]);
        SumAtPrefix(h, h[..n], picked[..|picked| - 1]);
      } else {
        assert forall k | 0 <= k < |picked| :: picked[k] <= picked[|picked| - 1];
        PickedInWindow(h[..n], account, now, picked);
        SumAtPrefix(h, h[..n], picked);
      }
    }
  }

  lemma WindowGrows(h: seq<Obs>, account: string, now: int)
    requires h != []
    ensures var o, w, w' := h[|h| - 1], Recent(SubOf(h[..|h| - 1], account), now), Recent(SubOf(h, account), now);
      if IsSub(o, account) && now - o.now <= WINDOW then |w'| == |w| + 1 && Total(w') == Total(w) + o.transfer.amount
      else w' == w
  {
    var o := h[|h| - 1];
    var s, e := SubOf(h[..|h| - 1], account), Entry(o.now, o.transfer.amount);
    var w := Recent(s, now);
    assert (s + [e])[..|s|] == s && (w + [e])[..|w|] == w;
  }

  lemma {:induction false} SumAtPrefix(h: seq<Obs>, init: seq<Obs>, picked: seq<nat>)
    requires init <= h && Below(picked, |init|)
    ensures SumAt(h, picked) == SumAt(init, picked)
  {
    if picked != [] { SumAtPrefix(h, init, picked[..|picked| - 1]); }
  }

  /** The last observation of `h` raises an alert by the code's own test. */
  lemma AlertRule(h: seq<Obs>, account: string)
    requires Monotone(h) && h != [] && IsSub(h[|h| - 1], account)
    ensures var n, w := |h| - 1, Recent(SubOf(h, account), h[|h| - 1].now);
      var flagged := After(h[..n]).flagged;
      Alerts(h, account, n) <==>
        |w| >= 3 && WrappedTotal(w) >= CTR_THRESHOLD && MaxAmount(w) < CTR_THRESHOLD
        && (account !in flagged || h[n].now - flagged[account] > WINDOW)
  {
    var n := |h| - 1;
    WindowAfterTransfer(h, account);
    FlagStep(After(h[..n]), h[n].transfer, h[n].now);
    hide Recent, WrappedTotal, MaxAmount, SubOf, HasAlert;
    assert WindowOf(After(h), account) == Recent(WindowOf(After(h[..n]), account), h[n].now) + [Entry(h[n].now, h[n].transfer.amount)];
  }

  /** The flag test looks for an alert in the last 24 hours. */
  lemma FlagTest(h: seq<Obs>, account: string, now: int)
    requires Monotone(h)
    ensures (account !in After(h).flagged || now - After(h).flagged[account] > WINDOW) <==>
            !(exists j: nat :: Alerts(h, account, j) && now - h[j].now <= WINDOW)
  {
    var last := FlagIsLastAlert(h, account);
    hide After;
    forall j: nat | Alerts(h, account, j) && account in After(h).flagged ensures h[j].now <= h[last].now {
      assert j <= last;
    }
  }

  /** Exactly when a transfer raises a structuring alert (up to the entry bound): it is
      below the threshold, at least three such transfers of the account fall in its
      24 hours and total the threshold, and no alert of the account does. */
  lemma AlertExactly(h: seq<Obs>, account: string, i: nat)
    requires Monotone(h) && i < |h| && IsSub(h[i], account)
    requires |Recent(SubOf(h[..i + 1], account), h[i].now)| <= MAX_ENTRIES
    ensures var w := Recent(SubOf(h[..i + 1], account), h[i].now);
      Alerts(h, account, i) <==>
        && |w| >= 3 && Total(w) >= CTR_THRESHOLD
        && !(exists j: nat :: j < i && Alerts(h, account, j) && h[i].now - h[j].now <= WINDOW)
  {
    var pre, upTo := h[..i], h[..i + 1];
    MonotonePrefix(h, i);
    assert upTo[..i] == pre && upTo[i] == h[i] && Monotone(upTo);
    var w := Recent(SubOf(upTo, account), h[i].now);
    SubBefore(upTo, account, h[i].now);
    RecentAreMembers(SubOf(upTo, account), h[i].now);
    NoOverflow(w);
    SmallTotal(w);
    AlertRule(upTo, account);
    FlagTest(pre, account, h[i].now);
    hide Recent, WrappedTotal, MaxAmount, SubOf, Total, Alerts, After;
    AlertsPrefix(h, account, i + 1, i);
    forall j: nat | j < i ensures Alerts(pre, account, j) <==> Alerts(h, account, j) {
      AlertsPrefix(h, account, i, j);
    }
    forall j: nat | Alerts(pre, account, j) ensures j < i { AlertInRange(pre, account, j); }
  }

  lemma {:induction false} RecentAreMembers(es: seq<Entry>, now: int)
    ensures forall e | e in Recent(es, now) :: e in es
  {
    if es != [] { RecentAreMembers(es[..|es| - 1], now); }
  }

  /** No split goes unnoticed: three or more sub-threshold transfers of one account
      within 24 hours that total the threshold imply an alert at the last of them or
      in the 24 hours before it. */
  lemma SplitIsDetected(h: seq<Obs>, account: string, picked: seq<nat>)
    requires Monotone(h) && |picked| >= 3 && picked[|picked| - 1] < |h|
    requires Picks(h, account, h[picked[|picked| - 1]].now, picked)
    requires SumAt(h, picked) >= CTR_THRESHOLD
    requires var i := picked[|picked| - 1]; |Recent(SubOf(h[..i + 1], account), h[i].now)| <= MAX_ENTRIES
    ensures var i := picked[|picked| - 1];
      exists j: nat :: j <= i && Alerts(h, account, j) && h[i].now - h[j].now <= WINDOW
  {
    var i := picked[|picked| - 1];
    var upTo := h[..i + 1];
    assert forall k | 0 <= k < |picked| :: picked[k] <= i;
    PickedInWindow(upTo, account, h[i].now, picked);
    SumAtPrefix(h, upTo, picked);
    AlertExactly(h, account, i);
  }

  // ---------------------------------------------------------------------------
  // Every event, from the history alone
  // ---------------------------------------------------------------------------

  /** Position i of the history is a transfer of the account below ten million naira, not
      more than 24 hours before `now`. */
  predicate Counts(h: seq<Obs>, account: string, now: int, i: nat) {
    && i < |h| && h[i].transfer.account == account && h[i].transfer.amount < 1_000_000_000
    && now - h[i].now <= 24 * 3600 * 1_000_000_000
  }

  predicate Ascending(p: seq<nat>) { forall j, k | 0 <= j < k < |p| :: p[j] < p[k] }

  function EntryAt(o: Obs): Entry { Entry(o.now, o.transfer.amount) }

  /** A window is the entries at some positions, in order. */
  predicate IsWindow(h: seq<Obs>, w: seq<Entry>, p: seq<nat>) {
    |w| == |p| && forall k | 0 <= k < |p| :: p[k] < |h| && w[k] == EntryAt(h[p[k]])
  }

  /** What the window of an account holds: its transfers that count, each once, in the order
      in which they came. */
  lemma {:induction false} WindowPositions(h: seq<Obs>, account: string, now: int) returns (p: seq<nat>)
    ensures Ascending(p) && forall i: nat :: i in p <==> Counts(h, account, now, i)
    ensures IsWindow(h, Recent(SubOf(h, account), now), p)
  {
    p := [];
    if h != [] {
      var n := |h| - 1;
      p := WindowPositions(h[..n], account, now);
      WindowSnoc(h, account, now);
      PositionsSnoc(h, account, now, p);
      hide Recent, SubOf, Counts, Ascending, IsWindow;
      EntriesSnoc(h, Recent(SubOf(h[..n], account), now), p);
      if Counts(h, account, now, n) { p := p + [n]; }
    }
  }

  lemma PositionsSnoc(h: seq<Obs>, account: string, now: int, p: seq<nat>)
    requires h != [] && Ascending(p) && forall i: nat :: i in p <==> Counts(h[..|h| - 1], account, now, i)
    ensures var n := |h| - 1;
      var q := if Counts(h, account, now, n) then p + [n] else p;
      Ascending(q) && forall i: nat :: i in q <==> Counts(h, account, now, i)
  {
    var n := |h| - 1;
    assert forall i: nat | i < n :: Counts(h[..n], account, now, i) <==> Counts(h, account, now, i);
    assert forall i: nat :: Counts(h[..n], account, now, i) ==> i < n;
    assert forall i: nat :: Counts(h, account, now, i) ==> i <= n;
    hide Counts;
    assert forall k | 0 <= k < |p| :: p[k] in p;
  }

  lemma EntriesSnoc(h: seq<Obs>, w: seq<Entry>, p: seq<nat>)
    requires h != [] && IsWindow(h[..|h| - 1], w, p)
    ensures IsWindow(h, w, p) && IsWindow(h, w + [EntryAt(h[|h| - 1])], p + [|h| - 1])
  {
  }

  lemma WindowSnoc(h: seq<Obs>, account: string, now: int)
    requires h != []
    ensures var n := |h| - 1;
      Recent(SubOf(h, account), now) == Recent(SubOf(h[..n], account), now) + (if Counts(h, account, now, n) then [EntryAt(h[n])] else [])
  {
    var s, e := SubOf(h[..|h| - 1], account), EntryAt(h[|h| - 1]);
    assert (s + [e])[..|s|] == s;
  }

  /** `m` is the largest amount. */
  predicate IsLargest(m: nat, es: seq<Entry>) {
    (exists e | e in es :: e.amount == m) && forall e | e in es :: e.amount <= m
  }

  lemma {:induction false} MaxIsLargest(es: seq<Entry>)
    requires es != []
    ensures IsLargest(MaxAmount(es), es)
  {
    var init, last := es[..|es| - 1], es[|es| - 1];
    assert forall e :: e in es <==> e in init || e == last;
    if init == [] { assert MaxAmount(init) == 0; } else { MaxIsLargest(init); }
  }

  /** From ten million naira on a transfer is reported, and does nothing else. */
  lemma ReportExactly(h: seq<Obs>, i: nat)
    requires i < |h|
    ensures CtrReportable in EventsAt(h, i) <==> h[i].transfer.amount >= 1_000_000_000
    ensures h[i].transfer.amount >= 1_000_000_000 ==> EventsAt(h, i) == [CtrReportable] && After(h[..i + 1]) == After(h[..i])
  {
    hide Recent, WrappedTotal, MaxAmount;
    assert h[..i + 1][..i] == h[..i];
  }

  /** From eight million naira up to there it is up for review. */
  lemma ReviewExactly(h: seq<Obs>, i: nat)
    requires i < |h|
    ensures ThresholdReview in EventsAt(h, i) <==> 800_000_000 <= h[i].transfer.amount < 1_000_000_000
  {
    hide Recent, WrappedTotal, MaxAmount, After;
  }

  /** Below the threshold: the review first, if any, and then the alert, if any, which gives
      the size, the total and the largest transfer of the window (up to the entry bound). */
  lemma EventsExactly(h: seq<Obs>, account: string, i: nat)
    requires Monotone(h) && i < |h| && IsSub(h[i], account)
    requires |Recent(SubOf(h[..i + 1], account), h[i].now)| <= MAX_ENTRIES
    ensures var w, events := Recent(SubOf(h[..i + 1], account), h[i].now), EventsAt(h, i);
      exists m :: IsLargest(m, w) &&
        events == (if h[i].transfer.amount >= 800_000_000 then [ThresholdReview] else [])
                  + (if Alerts(h, account, i) then [Structuring(|w|, Total(w), m)] else [])
  {
    var pre, upTo := h[..i], h[..i + 1];
    MonotonePrefix(h, i);
    assert upTo[..i] == pre && upTo[i] == h[i] && Monotone(upTo);
    var w := Recent(SubOf(upTo, account), h[i].now);
    WindowAfterTransfer(upTo, account);
    SubBefore(upTo, account, h[i].now);
    RecentAreMembers(SubOf(upTo, account), h[i].now);
    NoOverflow(w);
    FlagStep(After(pre), h[i].transfer, h[i].now);
    hide Recent, WrappedTotal, MaxAmount, SubOf, Total, HasAlert;
    assert w == Recent(WindowOf(After(pre), account), h[i].now) + [EntryAt(h[i])];
    MaxIsLargest(w);
  }

  /** An account's transfers leave the windows and flags of the others alone. */
  lemma OthersUntouched(h: seq<Obs>, i: nat, account: string)
    requires i < |h| && h[i].transfer.account != account
    ensures var w, w' := After(h[..i]), After(h[..i + 1]);
      && WindowOf(w', account) == WindowOf(w, account)
      && (account in w'.flagged <==> account in w.flagged) && (account in w.flagged ==> w'.flagged[account] == w.flagged[account])
  {
    hide Recent, WrappedTotal, MaxAmount;
    assert h[..i + 1][..i] == h[..i];
  }
}
