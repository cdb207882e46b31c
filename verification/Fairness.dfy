/**
  Rate limiting from the sender's side (src/storage/throttler.rs): who keeps within
  the limit passes, and who does not is caught within the window of his record.
 */
module Fairness {
  import opened Wrappers
  import opened Nodes
  import opened Throttling

  // ---------- one call ----------

  /** A record is forgotten once it is older than maxTracking, and not before; it then judges nobody. */
  lemma RecordLives(rs: seq<Record>, s: Settings, call: Call)
    requires rs != [] && OneRecordEach(rs) && call.ip != LOCALHOST
    ensures var (rs', throttled) := Check(rs, s, call);
            var before, after := RecordOf(rs, call.ip), RecordOf(rs', call.ip);
            && (after.None? <==> before.Some? && call.now > before.value.creationTime + s.maxTracking)
            && (after.None? ==> !throttled)
            && (after.Some? ==>
                  after.value.creationTime == if before.Some? then before.value.creationTime else call.now)
  {
    OwnCall(rs, s, call);
  }

  /** The record forgotten is free for anyone else: no other is sadder. */
  lemma ForgottenIsFree(rs: seq<Record>, s: Settings, call: Call) returns (i: nat)
    requires rs != [] && OneRecordEach(rs) && call.ip != LOCALHOST
    requires RecordOf(rs, call.ip).Some? && RecordOf(Check(rs, s, call).0, call.ip).None?
    ensures i < |rs| && rs[i].ip == call.ip
    ensures Check(rs, s, call).0 == rs[i := Record(Ip4([127, 0, 0, 1]), 0, call.clock, call.clock)]
  {
    OwnCall(rs, s, call);
    i := FindFirst(rs, call.ip).value;
  }

  /** A call when the record has expired begins afresh: only its own packets count. */
  lemma ExpiredIsForgiven(rs: seq<Record>, s: Settings, call: Call)
    requires rs != [] && OneRecordEach(rs) && call.ip != LOCALHOST
    requires RecordOf(rs, call.ip).Some? ==> call.now >= RecordOf(rs, call.ip).value.expiration
    ensures call.count <= s.rateLimit ==> !Check(rs, s, call).1
    ensures call.count > s.rateLimit ==> (Check(rs, s, call).1 <==> RecordOf(Check(rs, s, call).0, call.ip).Some?)
  {
    OwnCall(rs, s, call);
  }

  // ---------- within the rate ----------

  /** How many packets ip sends before an instant. */
  function Load(calls: seq<Call>, ip: IpAddr, until: Instant): nat {
    if calls == [] then 0
    else (if calls[0].ip == ip && calls[0].now < until then calls[0].count else 0) + Load(calls[1..], ip, until)
  }

  /** From each of its calls on, the call included, ip sends no more than rateLimit packets in less than period. */
  predicate WithinRate(calls: seq<Call>, s: Settings, ip: IpAddr) {
    calls == [] ||
    (&& (calls[0].ip == ip ==>
           calls[0].count + Load(calls[1..], ip, calls[0].now + s.period) <= s.rateLimit)
     && WithinRate(calls[1..], s, ip))
  }

  predicate NeverThrottled(rs: seq<Record>, s: Settings, ip: IpAddr, calls: seq<Call>)
    requires rs != []
    decreases |calls|
  {
    calls == [] ||
    var (rs', throttled) := Check(rs, s, calls[0]);
    (calls[0].ip == ip ==> !throttled) && NeverThrottled(rs', s, ip, calls[1..])
  }

  /** The first call of ip is not before an instant. */
  predicate Rests(calls: seq<Call>, ip: IpAddr, until: Instant) {
    calls == [] || if calls[0].ip == ip then calls[0].now >= until else Rests(calls[1..], ip, until)
  }

  /** The record, if there is one, has room for what ip sends while it lasts, or has expired by then. */
  predicate Clean(r: Option<Record>, s: Settings, ip: IpAddr, calls: seq<Call>) {
    match r
    case None => true
    case Some(r) => r.packets + Load(calls, ip, r.expiration) <= s.rateLimit || Rests(calls, ip, r.expiration)
  }

  lemma OwnCallPasses(rs: seq<Record>, s: Settings, ip: IpAddr, calls: seq<Call>)
    requires rs != [] && OneRecordEach(rs) && ip != LOCALHOST && calls != [] && calls[0].ip == ip
    requires Clean(RecordOf(rs, ip), s, ip, calls) && WithinRate(calls, s, ip)
    ensures var (rs', throttled) := Check(rs, s, calls[0]);
            !throttled && Clean(RecordOf(rs', ip), s, ip, calls[1..])
  {
    OwnCall(rs, s, calls[0]);
  }

  lemma OthersCallKeepsClean(rs: seq<Record>, s: Settings, ip: IpAddr, calls: seq<Call>)
    requires rs != [] && OneRecordEach(rs) && ip != LOCALHOST && calls != [] && calls[0].ip != ip
    requires Clean(RecordOf(rs, ip), s, ip, calls)
    ensures Clean(RecordOf(Check(rs, s, calls[0]).0, ip), s, ip, calls[1..])
  {
    OthersCall(rs, s, calls[0], ip);
  }

  /**
    Whatever others send, an address other than the placeholder that sends at most rateLimit packets in
    every span shorter than period is never throttled, if it has no record yet, or one with room
    for them, or one that has expired when it calls next, as after a penalty.
   */
  lemma {:induction false} WithinRatePasses(rs: seq<Record>, s: Settings, ip: IpAddr, calls: seq<Call>)
    requires rs != [] && OneRecordEach(rs) && ip != LOCALHOST
    requires Clean(RecordOf(rs, ip), s, ip, calls) && WithinRate(calls, s, ip)
    ensures NeverThrottled(rs, s, ip, calls)
    decreases |calls|
  {
    if calls != [] {
      if calls[0].ip == ip {
        OwnCallPasses(rs, s, ip, calls);
      } else {
        OthersCallKeepsClean(rs, s, ip, calls);
      }
      CheckKeepsOneRecordEach(rs, s, calls[0]);
      WithinRatePasses(Check(rs, s, calls[0]).0, s, ip, calls[1..]);
    }
  }

  // ---------- the window of a record ----------

  function Total(calls: seq<Call>, ip: IpAddr): nat {
    if calls == [] then 0 else (if calls[0].ip == ip then calls[0].count else 0) + Total(calls[1..], ip)
  }

  /** All calls of ip are before an instant. */
  predicate AllBefore(calls: seq<Call>, ip: IpAddr, until: Instant) {
    calls == [] || ((calls[0].ip == ip ==> calls[0].now < until) && AllBefore(calls[1..], ip, until))
  }

  /** All calls of ip come within period of its first one. */
  predicate InOneWindow(calls: seq<Call>, ip: IpAddr, period: nat) {
    calls == [] ||
    if calls[0].ip == ip then AllBefore(calls[1..], ip, calls[0].now + period)
    else InOneWindow(calls[1..], ip, period)
  }

  /** Within the window of a record that is left in place, the packets decide: all pass or the limit is exceeded. */
  lemma {:induction false} WindowDecides(rs: seq<Record>, s: Settings, ip: IpAddr, calls: seq<Call>)
    requires rs != [] && OneRecordEach(rs) && ip != LOCALHOST && s.rateLimit < MAX_COUNT
    requires RecordOf(rs, ip).Some? && RecordOf(rs, ip).value.packets <= s.rateLimit
    requires AllBefore(calls, ip, RecordOf(rs, ip).value.expiration) && Undisturbed(rs, s, ip, calls)
    ensures NeverThrottled(rs, s, ip, calls) <==> RecordOf(rs, ip).value.packets + Total(calls, ip) <= s.rateLimit
    decreases |calls|
  {
    if calls != [] {
      var rs' := Check(rs, s, calls[0]).0;
      CheckKeepsOneRecordEach(rs, s, calls[0]);
      if calls[0].ip != ip {
        OthersCall(rs, s, calls[0], ip);
        WindowDecides(rs', s, ip, calls[1..]);
      } else {
        OwnCall(rs, s, calls[0]);
        if !Check(rs, s, calls[0]).1 {
          WindowDecides(rs', s, ip, calls[1..]);
        }
      }
    }
  }

  /**
    An address without a record whose calls all come within period of its first one, and whose record
    is left in place from then on, gets all of them through exactly if they have no more than rateLimit packets.
   */
  lemma {:induction false} FirstWindowDecides(rs: seq<Record>, s: Settings, ip: IpAddr, calls: seq<Call>)
    requires rs != [] && OneRecordEach(rs) && ip != LOCALHOST && s.rateLimit < MAX_COUNT
    requires RecordOf(rs, ip).None? && Undisturbed(rs, s, ip, calls)
    requires InOneWindow(calls, ip, s.period)
    ensures NeverThrottled(rs, s, ip, calls) <==> Total(calls, ip) <= s.rateLimit
    decreases |calls|
  {
    if calls != [] {
      if calls[0].ip == ip {
        OpenedWindowDecides(rs, s, ip, calls);
      } else {
        OthersCallFirst(rs, s, ip, calls);
        FirstWindowDecides(Check(rs, s, calls[0]).0, s, ip, calls[1..]);
      }
    }
  }

  lemma OthersCallFirst(rs: seq<Record>, s: Settings, ip: IpAddr, calls: seq<Call>)
    requires rs != [] && OneRecordEach(rs) && ip != LOCALHOST && calls != [] && calls[0].ip != ip
    requires RecordOf(rs, ip).None? && Undisturbed(rs, s, ip, calls)
    ensures var rs' := Check(rs, s, calls[0]).0;
            && OneRecordEach(rs') && RecordOf(rs', ip).None? && Undisturbed(rs', s, ip, calls[1..])
            && (NeverThrottled(rs, s, ip, calls) <==> NeverThrottled(rs', s, ip, calls[1..]))
    ensures Total(calls[1..], ip) == Total(calls, ip)
  {
    CheckKeepsOneRecordEach(rs, s, calls[0]);
    OthersCall(rs, s, calls[0], ip);
  }

  lemma OpenedWindowDecides(rs: seq<Record>, s: Settings, ip: IpAddr, calls: seq<Call>)
    requires rs != [] && OneRecordEach(rs) && ip != LOCALHOST && s.rateLimit < MAX_COUNT
    requires calls != [] && calls[0].ip == ip && RecordOf(rs, ip).None? && Undisturbed(rs, s, ip, calls)
    requires AllBefore(calls[1..], ip, calls[0].now + s.period)
    ensures NeverThrottled(rs, s, ip, calls) <==> Total(calls, ip) <= s.rateLimit
  {
    OwnCall(rs, s, calls[0]);
    if !Check(rs, s, calls[0]).1 {
      CheckKeepsOneRecordEach(rs, s, calls[0]);
      WindowDecides(Check(rs, s, calls[0]).0, s, ip, calls[1..]);
    }
  }
}
