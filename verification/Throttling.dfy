/**
  Rate limiting (src/storage/throttler.rs) as a function of the table of records,
  and what every timed run of it guarantees.
 */
module Throttling {
  import opened Wrappers
  import opened Nodes

  /** The largest packet count (usize on a 64-bit machine). */
  const MAX_COUNT: nat := 0xffff_ffff_ffff_ffff

  type PacketCount = n: nat | n <= MAX_COUNT

  const LOCALHOST: IpAddr := Ip4([127, 0, 0, 1])

  datatype Record = Record(ip: IpAddr, packets: PacketCount, expiration: Instant, creationTime: Instant)

  datatype Settings = Settings(rateLimit: PacketCount, period: nat, naughtyTimeout: nat, maxTracking: nat)

  /** One packet batch: who sent it, when, how many packets, and the clock should a record be blanked. */
  datatype Call = Call(ip: IpAddr, now: Instant, count: PacketCount, clock: Instant)

  function Blank(clock: Instant): Record {
    Record(LOCALHOST, 0, clock, clock)
  }

  // ---------- one call ----------

  /** a is a sadder record than b. */
  predicate Lamer(a: Record, b: Record) {
    a.packets < b.packets || (a.packets == b.packets && a.expiration < b.expiration)
  }

  function FindFirst(rs: seq<Record>, ip: IpAddr): (r: Option<nat>)
    ensures r.None? <==> forall i :: 0 <= i < |rs| ==> rs[i].ip != ip
    ensures r.Some? ==> r.value < |rs| && rs[r.value].ip == ip
    ensures r.Some? ==> forall i :: 0 <= i < r.value ==> rs[i].ip != ip
  {
    if rs == [] then None
    else if rs[0].ip == ip then Some(0)
    else
      match FindFirst(rs[1..], ip)
      case None => None
      case Some(i) => Some(i + 1)
  }

  /** The first of the saddest records. */
  function Lamest(rs: seq<Record>): (m: nat)
    requires rs != []
    ensures m < |rs|
    ensures forall i :: 0 <= i < |rs| ==> !Lamer(rs[i], rs[m])
    ensures forall i :: 0 <= i < m ==> Lamer(rs[m], rs[i])
  {
    var n := |rs| - 1;
    if n == 0 then 0
    else
      var m := Lamest(rs[..n]);
      if Lamer(rs[n], rs[m]) then n else m
  }

  predicate TooOld(r: Record, s: Settings, now: Instant) {
    now >= r.creationTime && now - r.creationTime > s.maxTracking
  }

  /** A record once its packets are counted: over the limit, it is pushed out by the penalty. */
  function Judged(r: Record, s: Settings, now: Instant): (Record, bool) {
    if r.packets > s.rateLimit then (r.(expiration := now + s.naughtyTimeout), true) else (r, false)
  }

  function SaturatingAdd(a: PacketCount, b: PacketCount): PacketCount {
    if a + b > MAX_COUNT then MAX_COUNT else a + b
  }

  /** What a call makes of the sender's record. */
  function Hit(r: Record, s: Settings, call: Call): (Record, bool) {
    if TooOld(r, s, call.now) then (Blank(call.clock), false)
    else if call.now < r.expiration then Judged(r.(packets := SaturatingAdd(r.packets, call.count)), s, call.now)
    else Judged(r.(packets := call.count, expiration := call.now + s.period), s, call.now)
  }

  /** What a call makes of the record it takes over. */
  function TakeOver(s: Settings, call: Call): (Record, bool) {
    Judged(Record(call.ip, call.count, call.now + s.period, call.now), s, call.now)
  }

  /** The records after a call and whether its sender is throttled. */
  function Check(rs: seq<Record>, s: Settings, call: Call): (seq<Record>, bool)
    requires rs != []
    ensures |Check(rs, s, call).0| == |rs|
  {
    match FindFirst(rs, call.ip)
    case Some(i) => var (r, throttled) := Hit(rs[i], s, call); (rs[i := r], throttled)
    case None => var (r, throttled) := TakeOver(s, call); (rs[Lamest(rs) := r], throttled)
  }

  // ---------- invariants ----------

  /** At most one record per address other than the placeholder. */
  ghost predicate OneRecordEach(rs: seq<Record>) {
    forall i, j :: 0 <= i < j < |rs| && rs[i].ip == rs[j].ip ==> rs[i].ip == LOCALHOST
  }

  lemma CheckKeepsOneRecordEach(rs: seq<Record>, s: Settings, call: Call)
    requires rs != [] && OneRecordEach(rs)
    ensures OneRecordEach(Check(rs, s, call).0)
  {
  }

  function RecordOf(rs: seq<Record>, ip: IpAddr): Option<Record> {
    match FindFirst(rs, ip)
    case Some(i) => Some(rs[i])
    case None => None
  }

  lemma RecordAt(rs: seq<Record>, ip: IpAddr, i: nat)
    requires OneRecordEach(rs) && ip != LOCALHOST && i < |rs| && rs[i].ip == ip
    ensures RecordOf(rs, ip) == Some(rs[i])
  {
    var j := FindFirst(rs, ip).value;
    if j < i {
      assert false;
    }
  }

  /** A sender's own call. */
  lemma OwnCall(rs: seq<Record>, s: Settings, call: Call)
    requires rs != [] && OneRecordEach(rs) && call.ip != LOCALHOST
    ensures var rs' := Check(rs, s, call).0;
            match RecordOf(rs, call.ip)
            case Some(r) =>
              && Check(rs, s, call).1 == Hit(r, s, call).1
              && RecordOf(rs', call.ip) == if TooOld(r, s, call.now) then None else Some(Hit(r, s, call).0)
            case None =>
              && Check(rs, s, call).1 == TakeOver(s, call).1
              && RecordOf(rs', call.ip) == Some(TakeOver(s, call).0)
  {
    CheckKeepsOneRecordEach(rs, s, call);
    var rs' := Check(rs, s, call).0;
    match FindFirst(rs, call.ip)
    case Some(i) =>
      if !TooOld(rs[i], s, call.now) {
        RecordAt(rs', call.ip, i);
      } else {
        forall j | 0 <= j < |rs'| ensures rs'[j].ip != call.ip {
          if j != i {
            assert rs'[j] == rs[j];
          }
        }
      }
    case None => RecordAt(rs', call.ip, Lamest(rs));
  }

  /** Overwriting one record by one of another address loses that record and no other. */
  lemma SlotOverwritten(rs: seq<Record>, k: nat, r: Record, ip: IpAddr)
    requires OneRecordEach(rs) && ip != LOCALHOST && k < |rs| && r.ip != ip
    ensures RecordOf(rs[k := r], ip) == if rs[k].ip == ip then None else RecordOf(rs, ip)
  {
    var rs' := rs[k := r];
    if rs[k].ip == ip {
      forall i | 0 <= i < |rs| ensures rs'[i].ip != ip {
        if i < k {
          assert rs[i].ip != rs[k].ip;
        } else if i > k {
          assert rs[k].ip != rs[i].ip;
        }
      }
    } else {
      match FindFirst(rs, ip) {
        case Some(i) =>
          assert rs'[i] == rs[i];
          var j := FindFirst(rs', ip).value;
          assert rs'[j] == rs[j];
          RecordAt(rs, ip, j);
        case None =>
          assert FindFirst(rs', ip).None?;
      }
    }
  }

  /** Somebody else's call leaves a record as it is, unless it takes it over. */
  lemma OthersCall(rs: seq<Record>, s: Settings, call: Call, ip: IpAddr)
    requires rs != [] && OneRecordEach(rs) && ip != LOCALHOST && call.ip != ip
    ensures RecordOf(Check(rs, s, call).0, ip) ==
              if FindFirst(rs, call.ip) == None && rs[Lamest(rs)].ip == ip then None else RecordOf(rs, ip)
  {
    match FindFirst(rs, call.ip)
    case Some(i) => SlotOverwritten(rs, i, Hit(rs[i], s, call).0, ip);
    case None => SlotOverwritten(rs, Lamest(rs), TakeOver(s, call).0, ip);
  }

  // ---------- runs ----------

  function After(rs: seq<Record>, s: Settings, calls: seq<Call>): (rs': seq<Record>)
    requires rs != []
    ensures |rs'| == |rs|
    decreases |calls|
  {
    if calls == [] then rs else After(Check(rs, s, calls[0]).0, s, calls[1..])
  }

  lemma {:induction false} RunKeepsOneRecordEach(rs: seq<Record>, s: Settings, calls: seq<Call>)
    requires rs != [] && OneRecordEach(rs)
    ensures OneRecordEach(After(rs, s, calls))
    decreases |calls|
  {
    if calls != [] {
      CheckKeepsOneRecordEach(rs, s, calls[0]);
      RunKeepsOneRecordEach(Check(rs, s, calls[0]).0, s, calls[1..]);
    }
  }

  /** How many of an address's calls are let through. */
  function Passed(rs: seq<Record>, s: Settings, ip: IpAddr, calls: seq<Call>): nat
    requires rs != []
    decreases |calls|
  {
    if calls == [] then 0
    else
      var (rs', throttled) := Check(rs, s, calls[0]);
      (if calls[0].ip == ip && !throttled then 1 else 0) + Passed(rs', s, ip, calls[1..])
  }

  /** The address's record, once there, is neither taken over nor blanked. */
  predicate Undisturbed(rs: seq<Record>, s: Settings, ip: IpAddr, calls: seq<Call>)
    requires rs != []
    decreases |calls|
  {
    calls == [] ||
    var rs' := Check(rs, s, calls[0]).0;
    && (RecordOf(rs, ip).Some? ==> RecordOf(rs', ip).Some?)
    && Undisturbed(rs', s, ip, calls[1..])
  }

  /** Calls made between start and end on a clock that does not go back, one packet a call for the address. */
  predicate Timed(calls: seq<Call>, ip: IpAddr, start: Instant, end: Instant) {
    calls == [] ||
    (&& start <= calls[0].now <= end
     && (calls[0].ip == ip ==> calls[0].count == 1)
     && Timed(calls[1..], ip, calls[0].now, end))
  }

  // ---------- the rate bound ----------

  /** How many windows at least m apart can begin at or after start and no later than end. */
  function Windows(start: int, end: int, m: nat): nat
    requires m > 0
  {
    if start > end then 0 else (end - start) / m + 1
  }

  lemma DivisionMonotone(a: nat, b: nat, m: nat)
    requires a <= b && m > 0
    ensures a / m <= b / m
  {
    var d := a / m - b / m;
    assert m * d == m * (a / m) - m * (b / m);
    if d > 0 {
      MultiplyMonotone(m, 1, d);
      assert false;
    }
  }

  lemma DivisionStep(a: nat, m: nat)
    requires a >= m > 0
    ensures (a - m) / m == a / m - 1
  {
    var q, r := a / m, a % m;
    assert a == m * q + r;
    assert a - m == m * (q - 1) + r by { assert m * (q - 1) == m * q - m; }
    QuotientIs(a - m, m, q - 1, r);
  }

  lemma QuotientIs(a: nat, m: nat, q: int, r: nat)
    requires m > 0 && a == m * q + r && r < m
    ensures a / m == q
  {
    var d := a / m - q;
    assert m * d == r - a % m by { assert m * d == m * (a / m) - m * q; }
    assert m * -d == -(m * d);
    if d > 0 {
      MultiplyMonotone(m, 1, d);
      assert false;
    } else if d < 0 {
      MultiplyMonotone(m, 1, -d);
      assert false;
    }
  }

  lemma MultiplyMonotone(r: nat, a: nat, b: nat)
    requires a <= b
    ensures r * a <= r * b
  {
    assert r * b == r * a + r * (b - a);
  }

  lemma WindowsMonotone(a: int, b: int, end: int, m: nat)
    requires m > 0 && a <= b
    ensures Windows(b, end, m) <= Windows(a, end, m)
  {
    if b <= end {
      DivisionMonotone(end - b, end - a, m);
    }
  }

  lemma WindowsStep(a: int, end: int, m: nat)
    requires m > 0 && a <= end
    ensures Windows(a, end, m) == 1 + Windows(a + m, end, m)
  {
    if a + m <= end {
      DivisionStep(end - a, m);
    } else {
      QuotientIs(end - a, m, 0, end - a);
    }
  }

  function Room(s: Settings, r: Option<Record>): nat {
    match r
    case None => 0
    case Some(r) => if r.packets < s.rateLimit then s.rateLimit - r.packets else 0
  }

  function Spacing(s: Settings): nat {
    if s.period <= s.naughtyTimeout then s.period else s.naughtyTimeout
  }

  /** The next window of the record begins no earlier than next. */
  predicate NoWindowBefore(s: Settings, r: Option<Record>, now: Instant, next: int) {
    && next <= now + Spacing(s)
    && (next <= now || (r.Some? && next <= r.value.expiration))
  }

  function Budget(s: Settings, r: Option<Record>, next: int, end: Instant): nat
    requires Spacing(s) > 0
  {
    Room(s, r) + s.rateLimit * Windows(next, end, Spacing(s))
  }

  /** One counted packet: it uses up room in its window or begins a window. */
  lemma OnePacket(
      s: Settings, r: Option<Record>, r': Record, throttled: bool, call: Call, next: int, now: Instant,
      end: Instant)
    returns (next': int)
    requires s.rateLimit < MAX_COUNT && Spacing(s) > 0 && now <= call.now <= end && call.count == 1
    requires NoWindowBefore(s, r, now, next)
    requires r.Some? ==> !TooOld(r.value, s, call.now) && (r', throttled) == Hit(r.value, s, call)
    requires r.None? ==> (r', throttled) == TakeOver(s, call)
    ensures NoWindowBefore(s, Some(r'), call.now, next')
    ensures (if throttled then 0 else 1) + Budget(s, Some(r'), next', end) <= Budget(s, r, next, end)
  {
    var m := Spacing(s);
    if r.Some? && call.now < r.value.expiration {
      next' := next;
    } else {
      next' := call.now + m;
      WindowsStep(call.now, end, m);
      WindowsMonotone(next, call.now, end, m);
      MultiplyMonotone(s.rateLimit, 1 + Windows(next', end, m), Windows(next, end, m));
      assert s.rateLimit * (1 + Windows(next', end, m)) == s.rateLimit + s.rateLimit * Windows(next', end, m);
    }
  }

  /** A call lets through no more than it takes off the address's budget. */
  lemma CallWithinBudget(rs: seq<Record>, s: Settings, ip: IpAddr, call: Call, next: int, now: Instant, end: Instant)
    returns (next': int)
    requires rs != [] && OneRecordEach(rs) && ip != LOCALHOST && s.rateLimit < MAX_COUNT && Spacing(s) > 0
    requires now <= call.now <= end && (call.ip == ip ==> call.count == 1)
    requires RecordOf(rs, ip).Some? ==> RecordOf(Check(rs, s, call).0, ip).Some?
    requires NoWindowBefore(s, RecordOf(rs, ip), now, next)
    ensures NoWindowBefore(s, RecordOf(Check(rs, s, call).0, ip), call.now, next')
    ensures (if call.ip == ip && !Check(rs, s, call).1 then 1 else 0)
          + Budget(s, RecordOf(Check(rs, s, call).0, ip), next', end)
         <= Budget(s, RecordOf(rs, ip), next, end)
  {
    var (rs', throttled) := Check(rs, s, call);
    if call.ip == ip {
      OwnCall(rs, s, call);
      next' := OnePacket(s, RecordOf(rs, ip), RecordOf(rs', ip).value, throttled, call, next, now, end);
    } else {
      OthersCall(rs, s, call, ip);
      next' := next;
    }
  }

  lemma {:induction false} PassedWithinBudget(
      rs: seq<Record>, s: Settings, ip: IpAddr, calls: seq<Call>, next: int, now: Instant, end: Instant)
    requires rs != [] && OneRecordEach(rs) && ip != LOCALHOST && s.rateLimit < MAX_COUNT && Spacing(s) > 0
    requires Undisturbed(rs, s, ip, calls) && Timed(calls, ip, now, end)
    requires NoWindowBefore(s, RecordOf(rs, ip), now, next)
    ensures Passed(rs, s, ip, calls) <= Budget(s, RecordOf(rs, ip), next, end)
    decreases |calls|
  {
    if calls != [] {
      CheckKeepsOneRecordEach(rs, s, calls[0]);
      var next' := CallWithinBudget(rs, s, ip, calls[0], next, now, end);
      PassedWithinBudget(Check(rs, s, calls[0]).0, s, ip, calls[1..], next', calls[0].now, end);
    }
  }

  /**
    Whatever everybody else sends, an address other than the placeholder whose
    record is left in place gets at most rateLimit * (T / min(period, naughtyTimeout) + 2)
    packets through in any span T, starting from any records a run may have led to.
   */
  lemma RateIsBounded(rs: seq<Record>, s: Settings, ip: IpAddr, calls: seq<Call>, start: Instant, span: nat)
    requires rs != [] && OneRecordEach(rs) && ip != LOCALHOST
    requires s.rateLimit < MAX_COUNT && s.period > 0 && s.naughtyTimeout > 0
    requires Timed(calls, ip, start, start + span) && Undisturbed(rs, s, ip, calls)
    ensures Passed(rs, s, ip, calls) <= s.rateLimit * (span / Spacing(s) + 2)
  {
    var m := Spacing(s);
    PassedWithinBudget(rs, s, ip, calls, start, start, start + span);
    assert s.rateLimit * (span / m + 2) == s.rateLimit * (span / m + 1) + s.rateLimit;
  }

  function CallsOf(ip: IpAddr, calls: seq<Call>): nat {
    if calls == [] then 0 else (if calls[0].ip == ip then 1 else 0) + CallsOf(ip, calls[1..])
  }

  /**
    The bound needs a limit below the largest count: counts saturate there, so
    the largest limit is never exceeded and everything passes.
   */
  lemma {:induction false} LargestLimitPassesAll(rs: seq<Record>, s: Settings, ip: IpAddr, calls: seq<Call>)
    requires rs != [] && s.rateLimit == MAX_COUNT
    ensures Passed(rs, s, ip, calls) == CallsOf(ip, calls)
    decreases |calls|
  {
    if calls != [] {
      LargestLimitPassesAll(Check(rs, s, calls[0]).0, s, ip, calls[1..]);
    }
  }

  // ---------- the bound is exceeded ----------

  /** n calls of one packet each, all at instant 0. */
  function Flood(ip: IpAddr, n: nat): (calls: seq<Call>)
    ensures |calls| == n
  {
    if n == 0 then [] else [Call(ip, 0, 1, 0)] + Flood(ip, n - 1)
  }

  lemma {:induction false} FloodCalls(ip: IpAddr, n: nat)
    ensures CallsOf(ip, Flood(ip, n)) == n && Timed(Flood(ip, n), ip, 0, 0)
  {
    if n > 0 {
      FloodCalls(ip, n - 1);
      assert Flood(ip, n)[1..] == Flood(ip, n - 1);
    }
  }

  /** A sender's record of instant 0 stays as long as no one else calls. */
  lemma {:induction false} FloodUndisturbed(rs: seq<Record>, s: Settings, ip: IpAddr, n: nat)
    requires rs != [] && OneRecordEach(rs) && ip != LOCALHOST
    requires RecordOf(rs, ip).Some? ==> RecordOf(rs, ip).value.creationTime == 0
    ensures Undisturbed(rs, s, ip, Flood(ip, n))
    decreases n
  {
    if n > 0 {
      var call := Call(ip, 0, 1, 0);
      assert Flood(ip, n)[0] == call && Flood(ip, n)[1..] == Flood(ip, n - 1);
      OwnCall(rs, s, call);
      CheckKeepsOneRecordEach(rs, s, call);
      FloodUndisturbed(Check(rs, s, call).0, s, ip, n - 1);
    }
  }

  /** Calls in a span of time that leave the record of ip, another address than the placeholder, in place. */
  ghost predicate Watched(rs: seq<Record>, s: Settings, ip: IpAddr, calls: seq<Call>, start: Instant, span: nat) {
    && rs != [] && OneRecordEach(rs) && ip != LOCALHOST
    && Timed(calls, ip, start, start + span) && Undisturbed(rs, s, ip, calls)
  }

  /** In all such calls, from any records that a run may have led to, the rate is kept. */
  ghost predicate RateHolds(s: Settings)
    requires Spacing(s) > 0
  {
    forall rs, ip, calls, start: Instant, span: nat :: Watched(rs, s, ip, calls, start, span) ==>
      Passed(rs, s, ip, calls) <= s.rateLimit * (span / Spacing(s) + 2)
  }

  /** A flood that passes although it exceeds the largest limit. */
  lemma FloodPasses(s: Settings, n: nat) returns (rs: seq<Record>, ip: IpAddr)
    requires s.rateLimit == MAX_COUNT
    ensures rs != [] && OneRecordEach(rs) && ip != LOCALHOST
    ensures Timed(Flood(ip, n), ip, 0, 0) && Undisturbed(rs, s, ip, Flood(ip, n))
    ensures Passed(rs, s, ip, Flood(ip, n)) == n
  {
    rs, ip := [Blank(0)], Ip4([10, 0, 0, 1]);
    assert ip.octets4[0] != LOCALHOST.octets4[0];
    FloodCalls(ip, n);
    FloodUndisturbed(rs, s, ip, n);
    LargestLimitPassesAll(rs, s, ip, Flood(ip, n));
  }

  /** The rate holds in all runs exactly if the limit is below the largest count. */
  lemma RateHoldsUnlessLimitIsLargest(s: Settings)
    requires s.period > 0 && s.naughtyTimeout > 0
    ensures RateHolds(s) <==> s.rateLimit < MAX_COUNT
  {
    if s.rateLimit < MAX_COUNT {
      forall rs, ip, calls, start: Instant, span: nat | Watched(rs, s, ip, calls, start, span)
        ensures Passed(rs, s, ip, calls) <= s.rateLimit * (span / Spacing(s) + 2)
      {
        RateIsBounded(rs, s, ip, calls, start, span);
      }
    } else {
      RateFails(s, 2 * MAX_COUNT + 1);
    }
  }

  lemma RateFails(s: Settings, n: nat)
    requires s.period > 0 && s.naughtyTimeout > 0 && s.rateLimit == MAX_COUNT && n > 2 * MAX_COUNT
    ensures !RateHolds(s)
  {
    var rs, ip := FloodPasses(s, n);
    assert 0 / Spacing(s) == 0;
    assert Watched(rs, s, ip, Flood(ip, n), 0, 0);
  }

  // ---------- penalty persistence ----------

  /** Some other record is sadder than r. */
  ghost predicate OthersAreLamer(rs: seq<Record>, r: Record) {
    exists i :: 0 <= i < |rs| && rs[i].ip != r.ip && rs[i].packets < r.packets
  }

  /**
    While it has a record, the penalised address keeps sending before its penalty is over and before
    tracking ends, and whoever else needs a record finds some other one with fewer packets.
   */
  ghost predicate Pestering(rs: seq<Record>, s: Settings, ip: IpAddr, last: Instant, calls: seq<Call>)
    requires rs != []
    decreases |calls|
  {
    calls == [] ||
    var call, rs' := calls[0], Check(rs, s, calls[0]).0;
    && (RecordOf(rs, ip).Some? ==>
          if call.ip == ip then
            call.now < last + s.naughtyTimeout && !TooOld(RecordOf(rs, ip).value, s, call.now)
          else
            FindFirst(rs, call.ip).Some? || OthersAreLamer(rs, RecordOf(rs, ip).value))
    && Pestering(rs', s, ip, if call.ip == ip then call.now else last, calls[1..])
  }

  predicate AllThrottled(rs: seq<Record>, s: Settings, ip: IpAddr, calls: seq<Call>)
    requires rs != []
    decreases |calls|
  {
    calls == [] ||
    var (rs', throttled) := Check(rs, s, calls[0]);
    (calls[0].ip == ip ==> throttled) && AllThrottled(rs', s, ip, calls[1..])
  }

  /**
    Once throttled, an address stays throttled as long as it sends again within
    naughtyTimeout of its previous packet, until max tracking from the creation of
    its record, provided that some other record always holds fewer packets.
   */
  lemma {:induction false} PenaltyPersists(rs: seq<Record>, s: Settings, ip: IpAddr, last: Instant, calls: seq<Call>)
    requires rs != [] && OneRecordEach(rs) && ip != LOCALHOST
    requires RecordOf(rs, ip).Some? && RecordOf(rs, ip).value.packets > s.rateLimit
    requires RecordOf(rs, ip).value.expiration == last + s.naughtyTimeout
    requires Pestering(rs, s, ip, last, calls)
    ensures AllThrottled(rs, s, ip, calls)
    decreases |calls|
  {
    if calls != [] {
      var call := calls[0];
      var rs' := Check(rs, s, call).0;
      CheckKeepsOneRecordEach(rs, s, call);
      if call.ip == ip {
        OwnCall(rs, s, call);
        PenaltyPersists(rs', s, ip, call.now, calls[1..]);
      } else {
        OthersCall(rs, s, call, ip);
        if RecordOf(rs', ip) != RecordOf(rs, ip) {
          LamestIsNotLamer(rs, ip);
        }
        PenaltyPersists(rs', s, ip, last, calls[1..]);
      }
    }
  }

  lemma LamestIsNotLamer(rs: seq<Record>, ip: IpAddr)
    requires rs != [] && OneRecordEach(rs) && ip != LOCALHOST && RecordOf(rs, ip).Some?
    requires OthersAreLamer(rs, RecordOf(rs, ip).value)
    ensures rs[Lamest(rs)].ip != ip
  {
    if rs[Lamest(rs)].ip == ip {
      RecordAt(rs, ip, Lamest(rs));
    }
  }

  /** A throttled call is where such a penalty starts. */
  lemma ThrottledStartsPenalty(rs: seq<Record>, s: Settings, call: Call)
    requires rs != [] && OneRecordEach(rs) && call.ip != LOCALHOST && Check(rs, s, call).1
    ensures var r := RecordOf(Check(rs, s, call).0, call.ip);
            r.Some? && r.value.packets > s.rateLimit && r.value.expiration == call.now + s.naughtyTimeout
  {
    OwnCall(rs, s, call);
  }
}
