/** The placement router: eligibility and order of providers from a snapshot, and how far
    its view agrees with the ledger's reservation guard. */
module Placement {
  import opened Common
  import Ledger
  import Sorting
  import Text
  import opened Timestamps

  // ---- numeric settings ------------------------------------------------

  /** What parsing a setting's text as a 64-bit integer yields. */
  datatype Setting = Absent | Malformed | AboveRange | BelowRange | Number(value: int)

  const INT64_MAX: int := 0x7FFF_FFFF_FFFF_FFFF

  predicate ValidSetting(s: Setting) {
    s.Number? ==> -INT64_MAX - 1 <= s.value <= INT64_MAX
  }

  /** The router's reader: any parse error reads as unset. */
  function RouterSetting(s: Setting): int {
    if s.Number? && s.value >= 0 then s.value else 0
  }

  /** The application's reader: it ignores the error but keeps the value the parser returns
      with it, which for a too large number is the largest one. */
  function AppSetting(s: Setting): int {
    var parsed := match s
      case Number(v) => v
      case AboveRange => INT64_MAX
      case BelowRange => -INT64_MAX - 1
      case _ => 0;
    if parsed < 0 then 0 else parsed
  }

  /** The two readers agree exactly on the settings that fit 64 bits above. */
  lemma ReadersAgree(s: Setting)
    requires ValidSetting(s)
    ensures RouterSetting(s) == AppSetting(s) <==> !s.AboveRange?
  {}

  // ---- eligibility -----------------------------------------------------

  /** The ledger row a snapshot was read from, with what the router adds to it. The outage
      end is kept as a time; the row stores its text, and none is the empty text. */
  datatype Provider = Provider(
    id: string, account: Ledger.Account, until: Option<Instant>, priority: int, cost: real,
    maxObjectSize: Setting, minFree: Setting, margin: Setting, monthlyLimit: Setting)

  predicate ValidProvider(p: Provider) {
    && p.account.until == (if p.until.None? then "" else Format(p.until.value))
    && ValidSetting(p.maxObjectSize) && ValidSetting(p.minFree) && ValidSetting(p.margin)
        && ValidSetting(p.monthlyLimit)
  }

  const UNLIMITED: int := 0x3FFF_FFFF_FFFF_FFFF

  function Remaining(a: Ledger.Account): int {
    var local := if a.capacity > 0 then a.capacity - a.used - a.reserved else UNLIMITED;
    if a.remoteCapacity > 0 then Min(local, a.remoteCapacity - a.remoteUsed - a.reserved) else local
  }

  predicate Unavailable(p: Provider, now: Instant) {
    var status := p.account.status;
    !(status == "" ||
      ((status == "throttled" || status == "unavailable") && p.until.Some? && Nanos(p.until.value) <= Nanos(now)))
  }

  predicate ViolatesPolicy(p: Provider, size: int, period: string) {
    var maxSize, minFree, limit := RouterSetting(p.maxObjectSize), RouterSetting(p.minFree),
        RouterSetting(p.monthlyLimit);
    || (maxSize > 0 && size > maxSize)
    || (minFree > 0 && Remaining(p.account) - size < minFree)
    || (limit > 0 && (if p.account.period != period then 0 else p.account.monthly) + p.account.reserved + size > limit)
  }

  predicate Eligible(p: Provider, size: int, now: Instant, period: string) {
    !Unavailable(p, now) && size <= Remaining(p.account) && !ViolatesPolicy(p, size, period)
  }

  /** The account once the bytes are stored there. */
  function Loaded(a: Ledger.Account, size: int): Ledger.Account {
    a.(used := a.used + size, remoteUsed := a.remoteUsed + size, monthly := a.monthly + size)
  }

  /** What eligibility promises: the object is no larger than the provider takes, the month's uploads
      with it stay within the limit, and with it stored the floor is still free, on both capacities
      where they are known; and those are all conditions beside an outage. */
  lemma EligibleExactly(p: Provider, size: nat, now: Instant, period: string)
    requires p.account.capacity > 0 && p.account.remoteCapacity > 0
    ensures var after := Loaded(p.account, size);
            var floor, limit := RouterSetting(p.minFree), RouterSetting(p.monthlyLimit);
            var most := RouterSetting(p.maxObjectSize);
            var uploads := if p.account.period == period then after.monthly else size;
            Eligible(p, size, now, period) <==>
            && !Unavailable(p, now)
            && (most == 0 || size <= most)
            && after.used + after.reserved + floor <= after.capacity
            && after.remoteUsed + after.reserved + floor <= after.remoteCapacity
            && (limit == 0 || uploads + after.reserved <= limit)
  {}

  /** An object above the provider's maximum is never placed there, whatever its space. */
  lemma TooLargeIsRefused(p: Provider, size: nat, excluded: set<string>, now: Instant, period: string)
    requires p.maxObjectSize.Number? && 0 < p.maxObjectSize.value < size
    ensures !Usable(p, excluded, size, now, period)
  {}

  /** Lower priority, then lower cost, then more free bytes, then the smaller id. */
  predicate Preferred(a: Provider, b: Provider) {
    if a.priority != b.priority then a.priority < b.priority
    else if a.cost != b.cost then a.cost < b.cost
    else if Remaining(a.account) != Remaining(b.account) then Remaining(a.account) > Remaining(b.account)
    else Text.Less(a.id, b.id)
  }

  lemma PreferenceIsWeakOrder()
    ensures Sorting.WeakOrder(Preferred)
  {
    forall x, y
      ensures !Preferred(x, x)
      ensures Preferred(x, y) ==> !Preferred(y, x)
    {
      Text.Trichotomy(x.id, y.id);
    }
    forall x, y, z | !Preferred(y, x) && !Preferred(z, y) ensures !Preferred(z, x) {
      Text.Trichotomy(x.id, y.id);
      Text.Trichotomy(y.id, z.id);
      Text.Trichotomy(x.id, z.id);
      if !Text.Less(y.id, x.id) && !Text.Less(z.id, y.id) {
        Text.AtMostTransitive(x.id, y.id, z.id);
      }
    }
  }

  /** What it is worth not to be beaten: no lower priority, at that priority no lower cost, at that cost no
      more free bytes, and with all of these equal no smaller id. */
  lemma UnbeatenMeans(p: Provider, q: Provider)
    requires !Preferred(q, p)
    ensures p.priority <= q.priority
    ensures p.priority == q.priority ==> p.cost <= q.cost
    ensures p.priority == q.priority && p.cost == q.cost ==> Remaining(p.account) >= Remaining(q.account)
    ensures p.priority == q.priority && p.cost == q.cost && Remaining(p.account) == Remaining(q.account)
        ==> Text.AtMost(p.id, q.id)
  {
    Text.Trichotomy(p.id, q.id);
  }

  lemma HeadIsBest(candidates: seq<Provider>)
    requires candidates != []
    ensures Sorting.Sort(candidates, Preferred)[0] in candidates
    ensures forall q :: q in candidates ==> !Preferred(q, Sorting.Sort(candidates, Preferred)[0])
  {
    var sorted := Sorting.Sort(candidates, Preferred);
    PreferenceIsWeakOrder();
    Sorting.SortSorted(candidates, Preferred);
    assert sorted[0] in multiset(candidates);
    forall q | q in candidates ensures !Preferred(q, sorted[0]) {
      assert q in multiset(sorted);
      var i :| 0 <= i < |sorted| && sorted[i] == q;
    }
  }

  predicate Usable(p: Provider, excluded: set<string>, size: int, now: Instant, period: string) {
    p.account.enabled && p.id !in excluded && Eligible(p, size, now, period)
  }

  /** The router's choice: a usable provider to which no usable one is preferred, and a
      failure exactly when none is usable. */
  method Choose(providers: seq<Provider>, excluded: set<string>, size: int, now: Instant, period: string)
    returns (r: Result<Provider>)
    ensures r.Ok? ==> r.value in providers && Usable(r.value, excluded, size, now, period)
    ensures r.Ok? ==> forall q :: q in providers && Usable(q, excluded, size, now, period) ==> !Preferred(q, r.value)
    ensures r.Err? ==> (r.error == NoProviderAvailable
        && forall q :: q in providers ==> !Usable(q, excluded, size, now, period))
  {
    var candidates := [];
    for i := 0 to |providers|
      invariant forall q :: q in candidates <==> q in providers[..i] && Usable(q, excluded, size, now, period)
    {
      var p := providers[i];
      assert providers[..i + 1] == providers[..i] + [p];
      if !p.account.enabled || p.id in excluded {
        continue;
      }
      if Unavailable(p, now) {
        continue;
      }
      if size > Remaining(p.account) {
        continue;
      }
      if ViolatesPolicy(p, size, period) {
        continue;
      }
      candidates := candidates + [p];
    }
    assert providers[..|providers|] == providers;
    if candidates == [] {
      return Err(NoProviderAvailable);
    }
    HeadIsBest(candidates);
    return Ok(Sorting.Sort(candidates, Preferred)[0]);
  }

  // ---- agreement with the reservation guard ----------------------------

  /** The margin the application asks the ledger to keep free. */
  function ReservationMargin(p: Provider): int {
    Max(AppSetting(p.margin), AppSetting(p.minFree))
  }

  /** The guard of the reservation the application would make from this snapshot. */
  predicate GuardPasses(p: Provider, size: int, now: Instant, period: string) {
    Ledger.Admits(Ledger.Rolled(p.account, period), size, ReservationMargin(p), AppSetting(p.monthlyLimit), Format(now))
  }

  /** The outage end and the clock are not told apart wrongly by their texts. */
  predicate OutageReadable(p: Provider, now: Instant) {
    p.until.Some? ==> !FractionClash(p.until.value, now)
  }

  lemma AvailabilityAgrees(p: Provider, now: Instant)
    requires ValidProvider(p) && OutageReadable(p, now)
    ensures !Unavailable(p, now) <==> Ledger.Available(p.account, Format(now))
  {
    if p.until.Some? {
      if p.until.value != now {
        TextOrderIsClockOrder(p.until.value, now);
        TextOrderIsClockOrder(now, p.until.value);
        Text.Trichotomy(Format(p.until.value), Format(now));
        SecondTextOrder(p.until.value, now);
        if Format(p.until.value) == Format(now) {
          FormatInjective(p.until.value, now);
        }
      }
    }
  }

  /** In a clash, a temporary outage that has ended on the clock still blocks the ledger:
      the two views of availability differ exactly there. */
  lemma AvailabilityDiffersInClash(p: Provider, now: Instant)
    requires ValidProvider(p) && p.until.Some? && (p.account.status == "throttled" || p.account.status == "unavailable")
    ensures (!Unavailable(p, now) <==> Ledger.Available(p.account, Format(now))) <==> OutageReadable(p, now)
  {
    if OutageReadable(p, now) {
      AvailabilityAgrees(p, now);
    } else {
      var until := p.until.value;
      assert until != now;
      TextOrderIsClockOrder(until, now);
      Text.Trichotomy(Format(until), Format(now));
      FormatSplit(until, now);
      SecondTextOrder(until, now);
      if Format(until) == Format(now) {
        FormatInjective(until, now);
      }
    }
  }

  predicate SettingsReadable(p: Provider) {
    !p.minFree.AboveRange? && !p.margin.AboveRange? && !p.monthlyLimit.AboveRange?
  }

  /** The settings under which what the router admits the ledger does too: all that the ledger keeps
      free the router keeps free, and the monthly limit is not above the 64-bit range. */
  predicate SettingsAgree(minFree: Setting, margin: Setting, monthlyLimit: Setting) {
    Max(AppSetting(margin), AppSetting(minFree)) <= RouterSetting(minFree) && !monthlyLimit.AboveRange?
  }

  /** A provider eligible for the router passes the guard under such settings. */
  lemma EligibleIsReservable(p: Provider, size: nat, now: Instant, period: string)
    requires ValidProvider(p) && OutageReadable(p, now) && SettingsAgree(p.minFree, p.margin, p.monthlyLimit)
    requires p.account.enabled && Eligible(p, size, now, period)
    ensures GuardPasses(p, size, now, period)
  {
    AvailabilityAgrees(p, now);
  }

  /** The router would choose a provider that the ledger then refuses. */
  predicate Disagree(p: Provider, size: nat, now: Instant, period: string) {
    && ValidProvider(p) && OutageReadable(p, now) && p.account.enabled && Eligible(p, size, now, period)
    && !GuardPasses(p, size, now, period)
  }

  predicate HasSettings(p: Provider, minFree: Setting, margin: Setting, monthlyLimit: Setting) {
    p.minFree == minFree && p.margin == margin && p.monthlyLimit == monthlyLimit
  }

  /** Exactly for which settings, of whatever size, that never happens to any provider state. */
  lemma MarginConditionIsExact(minFree: Setting, margin: Setting, monthlyLimit: Setting, now: Instant, period: string)
    requires ValidSetting(minFree) && ValidSetting(margin) && ValidSetting(monthlyLimit)
    ensures SettingsAgree(minFree, margin, monthlyLimit)
       <==> forall p: Provider, size: nat :: HasSettings(p, minFree, margin, monthlyLimit)
              ==> !Disagree(p, size, now, period)
  {
    if SettingsAgree(minFree, margin, monthlyLimit) {
      forall p: Provider, size: nat | HasSettings(p, minFree, margin, monthlyLimit)
        ensures !Disagree(p, size, now, period)
      {
        if Disagree(p, size, now, period) {
          EligibleIsReservable(p, size, now, period);
        }
      }
    } else {
      var full := monthlyLimit.AboveRange?;
      var account := Ledger.Account(RouterSetting(minFree) + 1, 0, 0, 0, 0,
                                    if full then INT64_MAX else 0, period, true, "", "");
      var p := Provider("p", account, None, 0, 0.0, Absent, minFree, margin, monthlyLimit);
      assert Disagree(p, 1, now, period);
    }
  }

  /** Conversely, a snapshot that passes the guard passes every router check but exclusion and
      object size, when each configured capacity is above the margin. */
  lemma ReservableIsEligible(p: Provider, size: nat, now: Instant, period: string)
    requires ValidProvider(p) && SettingsReadable(p) && OutageReadable(p, now)
    requires p.account.capacity > 0 ==> p.account.capacity > ReservationMargin(p)
    requires p.account.remoteCapacity > 0 ==> p.account.remoteCapacity > ReservationMargin(p)
    requires size + ReservationMargin(p) <= UNLIMITED
    requires GuardPasses(p, size, now, period)
    ensures p.account.enabled
    ensures (RouterSetting(p.maxObjectSize) == 0
        || size <= RouterSetting(p.maxObjectSize)) ==> Eligible(p, size, now, period)
  {
    AvailabilityAgrees(p, now);
  }
}
