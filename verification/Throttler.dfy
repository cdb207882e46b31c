/** The throttler object (src/storage/throttler.rs): a fixed array of records overwritten in place. */
module Throttler {
  import opened Wrappers
  import opened Nodes
  import opened Throttling

  class Throttler {
    const records: array<Record>
    const settings: Settings

    constructor (size: nat, settings: Settings, clock: Instant)
      requires size > 0
      ensures fresh(records) && records.Length == size && this.settings == settings
      ensures forall i :: 0 <= i < size ==> records[i] == Blank(clock)
      ensures OneRecordEach(records[..])
    {
      records := new Record[size](_ => Blank(clock));
      this.settings := settings;
    }

    /**
      Counts a batch of packets for ip and says whether it is throttled. The clock
      is read when no instant is given, and once more if a record is blanked.
     */
    method CheckThrottle(
        ip: IpAddr, now: Option<Instant>, count: Option<PacketCount>, clock: Instant, clockLater: Instant)
      returns (throttled: bool)
      requires records.Length > 0
      modifies records
      ensures var at := if now.Some? then now.value else clock;
              var packets: PacketCount := if count.Some? then count.value else 1;
              (records[..], throttled) == Check(old(records[..]), settings, Call(ip, at, packets, clockLater))
    {
      var at := if now.Some? then now.value else clock;
      var packets: PacketCount := if count.Some? then count.value else 1;
      ghost var rs := records[..];
      var found, lamest := Scan(ip);
      if found.Some? {
        var r := records[found.value];
        if at >= r.creationTime && at - r.creationTime > settings.maxTracking {
          records[found.value] := Blank(clockLater);
          assert records[..] == rs[found.value := Blank(clockLater)];
          return false;
        }
        if at < r.expiration {
          r := r.(packets := SaturatingAdd(r.packets, packets));
        } else {
          r := r.(packets := packets, expiration := at + settings.period);
        }
        throttled := r.packets > settings.rateLimit;
        if throttled {
          r := r.(expiration := at + settings.naughtyTimeout);
        }
        records[found.value] := r;
        assert records[..] == rs[found.value := r];
      } else {
        var r := Record(ip, packets, at + settings.period, at);
        throttled := r.packets > settings.rateLimit;
        if throttled {
          r := r.(expiration := at + settings.naughtyTimeout);
        }
        records[lamest] := r;
        assert records[..] == rs[lamest := r];
      }
    }

    /** The search for the sender's record, keeping track of the saddest one on the way. */
    method Scan(ip: IpAddr) returns (found: Option<nat>, lamest: nat)
      requires records.Length > 0
      ensures found == FindFirst(records[..], ip)
      ensures lamest < records.Length
      ensures found.None? ==> lamest == Lamest(records[..])
    {
      lamest := 0;
      ghost var rs := records[..];
      for i := 0 to records.Length
        invariant Scanned(rs, ip, i, lamest)
      {
        if records[i].ip == ip {
          FoundIsFirst(rs, ip, i);
          return Some(i), lamest;
        }
        ScannedNext(rs, ip, i, lamest);
        if i == 0 || Lamer(records[i], records[lamest]) {
          lamest := i;
        }
      }
      assert rs[..records.Length] == rs;
      found := None;
    }
  }

  /** Before index i no record is of this address, and lamest is the saddest. */
  ghost predicate Scanned(rs: seq<Record>, ip: IpAddr, i: nat, lamest: nat) {
    && i <= |rs| && lamest < |rs|
    && (forall j :: 0 <= j < i ==> rs[j].ip != ip)
    && (i > 0 ==> lamest == Lamest(rs[..i]))
  }

  lemma FoundIsFirst(rs: seq<Record>, ip: IpAddr, i: nat)
    requires i < |rs| && rs[i].ip == ip && forall j :: 0 <= j < i ==> rs[j].ip != ip
    ensures FindFirst(rs, ip) == Some(i)
  {
  }

  lemma ScannedNext(rs: seq<Record>, ip: IpAddr, i: nat, lamest: nat)
    requires i < |rs| && Scanned(rs, ip, i, lamest) && rs[i].ip != ip
    ensures Scanned(rs, ip, i + 1, if i == 0 || Lamer(rs[i], rs[lamest]) then i else lamest)
  {
    LamestExtends(rs, i);
  }

  lemma LamestExtends(rs: seq<Record>, i: nat)
    requires i < |rs|
    ensures Lamest(rs[..i + 1]) == if i == 0 || Lamer(rs[i], rs[Lamest(rs[..i])]) then i else Lamest(rs[..i])
  {
    assert rs[..i + 1][..i] == rs[..i];
  }
}
