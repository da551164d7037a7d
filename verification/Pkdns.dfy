/** Republishing the `_pubky` record: choosing the host, keeping the other records, retrying, and whole runs. */
module Pkdns {
  import opened Text

  datatype RData = SVCB(target: string) | HTTPS(target: string) | Other(data: string)

  datatype Record = Record(name: string, ttl: nat, rdata: RData)

  datatype Packet = Packet(timestamp: nat, records: seq<Record>)

  datatype PublishMode = Force | IfStale

  datatype PkarrError = Dns | SignPacket | Publish | Resolve | InvalidRecord(target: string)

  datatype Error = MissingKeypair | Pkarr(error: PkarrError)

  const MAX_ATTEMPTS: nat := 3
  const RECORD_TTL: nat := 3600
  const PREFIX: string := "_pubky"

  /** Public keys and their z-base-32 text, left open. */
  datatype KeyText<!K> = KeyText(z32: K -> string, parse: string -> Option<K>)

  ghost predicate IsRoundTrip<K(!new)>(keys: KeyText<K>) {
    forall k :: keys.parse(keys.z32(k)) == Some(k)
  }

  // ---- Records

  /** Names in a packet carry the packet's origin. */
  function PubkyName(origin: string): string {
    PREFIX + "." + origin
  }

  predicate IsPubky(record: Record) {
    StartsWith(record.name, PREFIX)
  }

  /** The records that a republish carries over, in order. */
  function Kept(records: seq<Record>): seq<Record> {
    if records == [] then []
    else Kept(records[..|records| - 1]) + (if IsPubky(Last(records)) then [] else [Last(records)])
  }

  function HomeRecord(origin: string, host: string): Record {
    Record(PubkyName(origin), RECORD_TTL, HTTPS(host))
  }

  function ExtractHost(origin: string, records: seq<Record>): Option<string> {
    if records == [] then None
    else if records[0].name == PubkyName(origin) && !records[0].rdata.Other? then Some(records[0].rdata.target)
    else ExtractHost(origin, records[1..])
  }

  /** The records of a rebuilt packet. */
  function Rebuilt(origin: string, host: string, records: seq<Record>): seq<Record> {
    Kept(records) + [HomeRecord(origin, host)]
  }

  function RecordsOf(packet: Option<Packet>): seq<Record> {
    if packet.Some? then packet.value.records else []
  }

  /** `build_homeserver_packet`, before signing: the builder takes the kept records, then the home record. */
  method BuildRecords(origin: string, host: string, existing: Option<Packet>) returns (records: seq<Record>)
    ensures records == Rebuilt(origin, host, RecordsOf(existing))
  {
    records := [];
    if existing.Some? {
      var all := existing.value.records;
      for i := 0 to |all|
        invariant records == Kept(all[..i])
      {
        assert all[..i + 1][..i] == all[..i];
        if !StartsWith(all[i].name, PREFIX) {
          records := records + [all[i]];
        }
      }
      assert all[..|all|] == all;
    }
    records := records + [HomeRecord(origin, host)];
  }

  // ---- Choosing what to build on, and the host

  /** The tie-breaking order of packets is left open. */
  function MostRecent(newer: (Packet, Packet) -> bool, first: Option<Packet>, second: Option<Packet>): Option<Packet> {
    if first.Some? && second.Some? then (if newer(first.value, second.value) then first else second)
    else if first.Some? then first
    else second
  }

  function DetermineHost<K>(keys: KeyText<K>, origin: string, hostOverride: Option<K>, existing: Option<Packet>)
    : Result<Option<string>, Error>
  {
    if hostOverride.Some? then Ok(Some(keys.z32(hostOverride.value)))
    else
      match ExtractHost(origin, RecordsOf(existing))
      case None => Ok(None)
      case Some(target) =>
        match keys.parse(target)
        case None => Err(Pkarr(InvalidRecord(target)))
        case Some(key) => Ok(Some(keys.z32(key)))
  }

  /** The host is the target of the first SVCB or HTTPS record named `_pubky` at the packet's origin. */
  lemma {:induction false} ExtractHostIff(origin: string, records: seq<Record>, host: string)
    ensures ExtractHost(origin, records) == Some(host) <==>
            exists i | 0 <= i < |records| :: IsFirstHost(origin, records, i, host)
  {
    if records != [] {
      var rest := records[1..];
      ExtractHostIff(origin, rest, host);
      assert forall i | 0 < i < |records| :: records[i] == rest[i - 1];
      if records[0].name == "_pubky." + origin && NamesHost(records[0].rdata) {
        assert ExtractHost(origin, records) == Some(records[0].rdata.target);
        assert IsFirstHost(origin, records, 0, records[0].rdata.target);
      } else {
        assert ExtractHost(origin, records) == ExtractHost(origin, rest);
        forall i | 0 < i < |records|
          ensures IsFirstHost(origin, records, i, host) <==> IsFirstHost(origin, rest, i - 1, host)
        {
          FirstHostInTail(origin, records, i, host);
        }
        if i :| 0 <= i < |rest| && IsFirstHost(origin, rest, i, host) {
          assert IsFirstHost(origin, records, i + 1, host);
        }
      }
    }
  }

  predicate NamesHost(rdata: RData) {
    rdata.SVCB? || rdata.HTTPS?
  }

  predicate IsFirstHost(origin: string, records: seq<Record>, i: nat, host: string)
    requires i < |records|
  {
    && records[i].name == "_pubky." + origin && NamesHost(records[i].rdata) && records[i].rdata.target == host
    && forall j | 0 <= j < i :: !(records[j].name == "_pubky." + origin && NamesHost(records[j].rdata))
  }

  lemma FirstHostInTail(origin: string, records: seq<Record>, i: nat, host: string)
    requires 0 < i < |records| && !(records[0].name == "_pubky." + origin && NamesHost(records[0].rdata))
    ensures IsFirstHost(origin, records, i, host) <==> IsFirstHost(origin, records[1..], i - 1, host)
  {
    var rest := records[1..];
    assert forall j | 0 < j < |records| :: records[j] == rest[j - 1];
    if IsFirstHost(origin, records, i, host) {
      assert forall j | 0 <= j < i - 1 :: rest[j] == records[j + 1];
    }
  }

  /** When neither packet is the more recent, the second, the cached one, is taken. */
  lemma TiesGoToSecond(newer: (Packet, Packet) -> bool, first: Option<Packet>, second: Option<Packet>)
    ensures second.Some? && (first.None? || !newer(first.value, second.value)) ==>
              MostRecent(newer, first, second) == second
    ensures first.Some? && (second.None? || newer(first.value, second.value)) ==>
              MostRecent(newer, first, second) == first
    ensures MostRecent(newer, first, second).None? <==> first.None? && second.None?
  {
  }

  // ---- Publishing with retries

  /** What the environment does in one attempt: a clock reading, and an error or success. */
  datatype Attempt = Attempt(timestamp: nat, failure: Option<PkarrError>)

  /** What would happen in each attempt, were it made. */
  type Attempts = attempts: seq<Attempt> | |attempts| == MAX_ATTEMPTS
    witness [Attempt(0, None), Attempt(0, None), Attempt(0, None)]

  predicate IsRetryable(error: PkarrError) {
    error.Publish? || error.Resolve?
  }

  predicate ShouldRetry(error: PkarrError, attempt: nat) {
    IsRetryable(error) && attempt < MAX_ATTEMPTS
  }

  /** `FellThrough` stands for the success reported after the loop. */
  datatype Outcome = Published(packet: Packet) | Failed(error: PkarrError) | FellThrough

  /** The outcome when attempts `attempt`, `attempt + 1`, ... are still to come. */
  function PublishFrom(records: seq<Record>, attempts: Attempts, attempt: nat): Outcome
    requires 1 <= attempt
    decreases MAX_ATTEMPTS + 1 - attempt
  {
    if attempt > MAX_ATTEMPTS then FellThrough
    else
      match attempts[attempt - 1].failure
      case None => Published(Packet(attempts[attempt - 1].timestamp, records))
      case Some(error) =>
        if ShouldRetry(error, attempt) then PublishFrom(records, attempts, attempt + 1) else Failed(error)
  }

  method PublishWithRetries(origin: string, host: string, existing: Option<Packet>, attempts: Attempts)
    returns (outcome: Outcome, tried: nat)
    ensures outcome == PublishFrom(Rebuilt(origin, host, RecordsOf(existing)), attempts, 1)
    ensures tried <= 3
    ensures outcome.Published? ==> 1 <= tried && attempts[tried - 1].failure.None?
  {
    ghost var expected := Rebuilt(origin, host, RecordsOf(existing));
    tried := 0;
    for attempt := 1 to MAX_ATTEMPTS + 1
      invariant tried == attempt - 1
      invariant PublishFrom(expected, attempts, 1) == PublishFrom(expected, attempts, attempt)
    {
      tried := attempt;
      var records := BuildRecords(origin, host, existing);
      var failure := attempts[attempt - 1].failure;
      if failure.None? {
        outcome := Published(Packet(attempts[attempt - 1].timestamp, records));
        return;
      }
      if !ShouldRetry(failure.value, attempt) {
        outcome := Failed(failure.value);
        return;
      }
    }
    outcome := FellThrough;
  }

  /** The success after the loop is never reported: three failures report the third. */
  lemma NeverFallsThrough(records: seq<Record>, attempts: Attempts)
    ensures !PublishFrom(records, attempts, 1).FellThrough?
  {
    assert PublishFrom(records, attempts, 3) != FellThrough;
    assert PublishFrom(records, attempts, 2) != FellThrough;
  }

  /** Some attempt succeeds, and all before it failed in a retryable way. */
  predicate Succeeds(attempts: Attempts) {
    exists i | 0 <= i < |attempts| ::
      && attempts[i].failure.None?
      && forall j | 0 <= j < i :: attempts[j].failure.Some? && IsRetryable(attempts[j].failure.value)
  }

  lemma PublishedIff(records: seq<Record>, attempts: Attempts)
    ensures PublishFrom(records, attempts, 1).Published? <==> Succeeds(attempts)
  {
    var r1, r2 := PublishFrom(records, attempts, 1), PublishFrom(records, attempts, 2);
    var r3 := PublishFrom(records, attempts, 3);
    assert r3.Published? <==> attempts[2].failure.None?;
    assert r2.Published? <==> attempts[1].failure.None? || (IsRetryable(attempts[1].failure.value) && r3.Published?);
    assert r1.Published? <==> attempts[0].failure.None? || (IsRetryable(attempts[0].failure.value) && r2.Published?);
  }

  lemma {:induction false} PublishedRecords(records: seq<Record>, attempts: Attempts, attempt: nat)
    requires 1 <= attempt
    ensures var outcome := PublishFrom(records, attempts, attempt);
            outcome.Published? ==> outcome.packet.records == records
    decreases MAX_ATTEMPTS + 1 - attempt
  {
    if attempt <= MAX_ATTEMPTS {
      PublishedRecords(records, attempts, attempt + 1);
    }
  }

  // ---- One publish call

  /** The actor: its user's name, its staleness window, and what it is built on. */
  datatype Client<!K> = Client(keys: KeyText<K>, newer: (Packet, Packet) -> bool, origin: string, staleAfter: nat)

  /** Everything one call is given: its arguments, what resolution returns, the record's age, the attempts. */
  datatype Call<K> = Call(
    hasKeypair: bool,
    hostOverride: Option<K>,
    mode: PublishMode,
    resolved: Option<Packet>,
    cached: Option<Packet>,
    age: nat,
    attempts: Attempts)

  datatype Answer = Done(published: Option<Packet>) | Refused(error: Error)

  predicate SkipsForAge(mode: PublishMode, existing: Option<Packet>, age: nat, staleAfter: nat) {
    mode.IfStale? && existing.Some? && age <= staleAfter
  }

  /** The packet a call builds on. */
  function Seen<K>(client: Client<K>, call: Call<K>): Option<Packet> {
    MostRecent(client.newer, call.resolved, call.cached)
  }

  function PublishHomeserver<K>(client: Client<K>, call: Call<K>): Answer {
    if !call.hasKeypair then Refused(MissingKeypair)
    else
      var existing := Seen(client, call);
      match DetermineHost(client.keys, client.origin, call.hostOverride, existing)
      case Err(error) => Refused(error)
      case Ok(None) => Done(None)
      case Ok(Some(host)) =>
        if SkipsForAge(call.mode, existing, call.age, client.staleAfter) then Done(None)
        else
          match PublishFrom(Rebuilt(client.origin, host, RecordsOf(existing)), call.attempts, 1)
          case Published(packet) => Done(Some(packet))
          case Failed(error) => Refused(Pkarr(error))
          case FellThrough => Done(None)
  }

  predicate Publishes<K>(client: Client<K>, call: Call<K>) {
    var answer := PublishHomeserver(client, call);
    answer.Done? && answer.published.Some?
  }

  function PublishedBy<K>(client: Client<K>, call: Call<K>): Option<Packet>
    requires Publishes(client, call)
  {
    PublishHomeserver(client, call).published
  }

  function HostIn<K>(client: Client<K>, packet: Option<Packet>): Option<string> {
    ExtractHost(client.origin, RecordsOf(packet))
  }

  /** When a call publishes: a key to sign with, a host, no fresh enough record in the way, and a good attempt. */
  lemma PublishesIff<K>(client: Client<K>, call: Call<K>)
    ensures var seen := Seen(client, call);
            var found := HostIn(client, seen);
            Publishes(client, call) <==>
            && call.hasKeypair
            && (call.hostOverride.Some? || (found.Some? && client.keys.parse(found.value).Some?))
            && (call.mode.Force? || seen.None? || client.staleAfter < call.age)
            && Succeeds(call.attempts)
  {
    var seen := Seen(client, call);
    var host := DetermineHost(client.keys, client.origin, call.hostOverride, seen);
    if host.Ok? && host.value.Some? {
      PublishedIff(Rebuilt(client.origin, host.value.value, RecordsOf(seen)), call.attempts);
    }
  }

  /** The attempt after which publishing gives up: its error is not retryable, or it is the third. */
  predicate FailsAt(attempts: Attempts, i: nat, error: PkarrError) {
    && i < 3 && attempts[i].failure == Some(error)
    && (i == 2 || !(error.Publish? || error.Resolve?))
    && forall j | 0 <= j < i ::
         attempts[j].failure.Some? && (attempts[j].failure.value.Publish? || attempts[j].failure.value.Resolve?)
  }

  lemma FailedIff(records: seq<Record>, attempts: Attempts, error: PkarrError)
    ensures PublishFrom(records, attempts, 1) == Failed(error) <==> exists i :: FailsAt(attempts, i, error)
  {
    var r1, r2 := PublishFrom(records, attempts, 1), PublishFrom(records, attempts, 2);
    var r3 := PublishFrom(records, attempts, 3);
    assert r3 == Failed(error) <==> attempts[2].failure == Some(error);
    assert r2 == Failed(error) <==> FailsAfter(attempts, 1, error, r3);
    assert r1 == Failed(error) <==> FailsAfter(attempts, 0, error, r2);
    assert FailsAt(attempts, 0, error) || FailsAt(attempts, 1, error) || FailsAt(attempts, 2, error) <==>
           exists i :: FailsAt(attempts, i, error);
  }

  predicate FailsAfter(attempts: Attempts, i: nat, error: PkarrError, rest: Outcome)
    requires i < 2
  {
    attempts[i].failure.Some? &&
    if attempts[i].failure.value.Publish? || attempts[i].failure.value.Resolve? then rest == Failed(error)
    else attempts[i].failure.value == error
  }

  /** Every answer of a call that does not publish. */
  lemma AnswerIff<K>(client: Client<K>, call: Call<K>, error: PkarrError)
    ensures var answer, seen := PublishHomeserver(client, call), Seen(client, call);
            var found := HostIn(client, seen);
            var readable := found.Some? && client.keys.parse(found.value).Some?;
            var hasHost := call.hostOverride.Some? || readable;
            var young := call.mode.IfStale? && seen.Some? && call.age <= client.staleAfter;
            && (answer == Refused(MissingKeypair) <==> !call.hasKeypair)
            && (answer == Done(None) <==>
                call.hasKeypair && ((call.hostOverride.None? && found.None?) || (hasHost && young)))
            && (answer == Refused(Pkarr(error)) <==>
                call.hasKeypair &&
                if hasHost then !young && exists i :: FailsAt(call.attempts, i, error)
                else found.Some? && error == InvalidRecord(found.value))
  {
    var seen := Seen(client, call);
    var host := DetermineHost(client.keys, client.origin, call.hostOverride, seen);
    if host.Ok? && host.value.Some? {
      var records := Rebuilt(client.origin, host.value.value, RecordsOf(seen));
      FailedIff(records, call.attempts, error);
      NeverFallsThrough(records, call.attempts);
    }
  }

  // ---- What a published packet holds

  function CountPubky(records: seq<Record>): nat {
    if records == [] then 0
    else CountPubky(records[..|records| - 1]) + (if IsPubky(Last(records)) then 1 else 0)
  }

  /** The records that the packet builder promises to keep: all that are not `_pubky.*`. */
  predicate IsOther(record: Record) {
    !StartsWith(record.name, PREFIX + ".")
  }

  function Others(records: seq<Record>): seq<Record> {
    if records == [] then []
    else Others(records[..|records| - 1]) + (if IsOther(Last(records)) then [Last(records)] else [])
  }

  /** A record that is not `_pubky.*`, but whose name begins with the same letters. */
  predicate IsLookalike(record: Record) {
    IsPubky(record) && IsOther(record)
  }

  predicate HasLookalike(records: seq<Record>) {
    exists i | 0 <= i < |records| :: IsLookalike(records[i])
  }

  lemma FrontOfSnoc<T>(front: seq<T>, last: T)
    ensures (front + [last])[..|front + [last]| - 1] == front && Last(front + [last]) == last
  {
  }

  lemma KeptSnoc(records: seq<Record>, last: Record)
    ensures Kept(records + [last]) == Kept(records) + (if IsPubky(last) then [] else [last])
    ensures CountPubky(records + [last]) == CountPubky(records) + (if IsPubky(last) then 1 else 0)
    ensures Others(records + [last]) == Others(records) + (if IsOther(last) then [last] else [])
  {
    FrontOfSnoc(records, last);
  }

  lemma PubkyNameIsPubky(origin: string, host: string)
    ensures IsPubky(HomeRecord(origin, host)) && !IsOther(HomeRecord(origin, host))
  {
  }

  lemma HomeRecordIs(origin: string, host: string)
    ensures HomeRecord(origin, host) == Record("_pubky." + origin, 3600, HTTPS(host))
  {
    assert PREFIX + "." == "_pubky.";
  }

  lemma OnlyPubkyIsOurs(record: Record)
    ensures !IsPubky(record) ==> IsOther(record)
  {
    assert StartsWith(PREFIX + ".", PREFIX);
  }

  lemma {:induction false} KeptHasNoPubky(records: seq<Record>)
    ensures CountPubky(Kept(records)) == 0
    ensures Kept(Kept(records)) == Kept(records) && Others(Kept(records)) == Kept(records)
    ensures forall i | 0 <= i < |Kept(records)| :: !IsPubky(Kept(records)[i])
  {
    if records != [] {
      var kept, last := Kept(records[..|records| - 1]), Last(records);
      KeptHasNoPubky(records[..|records| - 1]);
      if IsPubky(last) {
        AppendEmpty(kept);
      } else {
        KeptSnoc(kept, last);
        OnlyPubkyIsOurs(last);
      }
    }
  }

  lemma HasLookalikeSnoc(records: seq<Record>)
    requires records != []
    ensures HasLookalike(records) <==> HasLookalike(records[..|records| - 1]) || IsLookalike(Last(records))
  {
    var front := records[..|records| - 1];
    if i :| 0 <= i < |records| && IsLookalike(records[i]) {
      assert i < |front| ==> front[i] == records[i];
    }
    if i :| 0 <= i < |front| && IsLookalike(front[i]) {
      assert front[i] == records[i];
    }
  }

  /** What a rebuild carries over is all that is not `_pubky.*`, exactly when nothing looks alike. */
  lemma {:induction false} KeptIsOthersIff(records: seq<Record>)
    ensures |Kept(records)| <= |Others(records)|
    ensures HasLookalike(records) ==> |Kept(records)| < |Others(records)|
    ensures !HasLookalike(records) ==> Kept(records) == Others(records)
  {
    if records != [] {
      KeptIsOthersIff(records[..|records| - 1]);
      HasLookalikeSnoc(records);
      OnlyPubkyIsOurs(Last(records));
    }
  }

  lemma {:induction false} ExtractAfterKept(origin: string, kept: seq<Record>, record: Record)
    requires forall i | 0 <= i < |kept| :: !IsPubky(kept[i])
    requires record.name == PubkyName(origin) && !record.rdata.Other?
    ensures ExtractHost(origin, kept + [record]) == Some(record.rdata.target)
  {
    if kept == [] {
      assert kept + [record] == [record];
    } else {
      assert !IsPubky(kept[0]);
      assert StartsWith(PubkyName(origin), PREFIX);
      TailOfAppend(kept, [record]);
      ExtractAfterKept(origin, kept[1..], record);
    }
  }

  /**
   * A rebuilt packet keeps what the prefix test keeps, in order, holds one `_pubky` record, and names
   * the host. It keeps everything that is not `_pubky.*` exactly when no other name begins with `_pubky`.
   */
  lemma RebuiltRecords(origin: string, host: string, records: seq<Record>)
    ensures var rebuilt := Rebuilt(origin, host, records);
            && Kept(rebuilt) == Kept(records) && Others(rebuilt) == Kept(records)
            && CountPubky(rebuilt) == 1
            && ExtractHost(origin, rebuilt) == Some(host)
            && Last(rebuilt) == Record("_pubky." + origin, 3600, HTTPS(host))
            && (Others(rebuilt) == Others(records) <==> !HasLookalike(records))
  {
    var kept, home := Kept(records), HomeRecord(origin, host);
    KeptHasNoPubky(records);
    KeptSnoc(kept, home);
    PubkyNameIsPubky(origin, host);
    AppendEmpty(kept);
    ExtractAfterKept(origin, kept, home);
    KeptIsOthersIff(records);
    HomeRecordIs(origin, host);
    FrontOfSnoc(kept, home);
  }

  /** A record of that kind, which every rebuild drops. */
  lemma LookalikeIsDropped(origin: string, host: string, ttl: nat, rdata: RData)
    ensures var records := [Record("_pubkyx." + origin, ttl, rdata)];
            Others(records) == records && Others(Rebuilt(origin, host, records)) == []
  {
    var name := "_pubkyx." + origin;
    var record := Record(name, ttl, rdata);
    assert name[6] == 'x';
    assert StartsWith(name, PREFIX) && !StartsWith(name, PREFIX + ".");
    KeptSnoc([], record);
    assert [] + [record] == [record];
    RebuiltRecords(origin, host, [record]);
  }

  /** A host text as a republish without override writes it back. */
  function Reprint<K>(keys: KeyText<K>, host: Option<string>): Option<string> {
    if host.Some? && keys.parse(host.value).Some? then Some(keys.z32(keys.parse(host.value).value)) else host
  }

  lemma ReprintSettles<K(!new)>(keys: KeyText<K>, host: Option<string>, key: K)
    requires IsRoundTrip(keys)
    ensures Reprint(keys, Reprint(keys, host)) == Reprint(keys, host)
    ensures Reprint(keys, Some(keys.z32(key))) == Some(keys.z32(key))
  {
  }

  lemma DeterminedHost<K>(keys: KeyText<K>, origin: string, hostOverride: Option<K>, existing: Option<Packet>)
    ensures var host := DetermineHost(keys, origin, hostOverride, existing);
            host.Ok? && host.value.Some? ==>
              && host.value == (if hostOverride.Some? then Some(keys.z32(hostOverride.value))
                                else Reprint(keys, ExtractHost(origin, RecordsOf(existing))))
              && (hostOverride.None? ==> existing.Some?)
  {
  }

  lemma PublishedFromSeen<K>(client: Client<K>, call: Call<K>) returns (host: string)
    requires Publishes(client, call)
    ensures DetermineHost(client.keys, client.origin, call.hostOverride, Seen(client, call)) == Ok(Some(host))
    ensures RecordsOf(PublishedBy(client, call)) == Rebuilt(client.origin, host, RecordsOf(Seen(client, call)))
  {
    var seen := Seen(client, call);
    host := DetermineHost(client.keys, client.origin, call.hostOverride, seen).value.value;
    PublishedRecords(Rebuilt(client.origin, host, RecordsOf(seen)), call.attempts, 1);
  }

  /** Whatever a call sees, what it publishes is that packet rebuilt, with the override or the host seen. */
  lemma PublishedIsRebuilt<K>(client: Client<K>, call: Call<K>)
    requires Publishes(client, call)
    ensures var records, seen := RecordsOf(PublishedBy(client, call)), RecordsOf(Seen(client, call));
            && Kept(records) == Kept(seen) && Others(records) == Kept(seen)
            && (Others(records) == Others(seen) <==> !HasLookalike(seen))
            && CountPubky(records) == 1
    ensures HostIn(client, PublishedBy(client, call)) ==
            if call.hostOverride.Some? then Some(client.keys.z32(call.hostOverride.value))
            else Reprint(client.keys, HostIn(client, Seen(client, call)))
    ensures call.hostOverride.None? ==> Seen(client, call).Some?
  {
    var host := PublishedFromSeen(client, call);
    DeterminedHost(client.keys, client.origin, call.hostOverride, Seen(client, call));
    RebuiltRecords(client.origin, host, RecordsOf(Seen(client, call)));
  }

  /** A republish without override writes the key it found, in the key's own text. */
  lemma RepublishedHostIs<K>(client: Client<K>, call: Call<K>) returns (key: K)
    requires Publishes(client, call) && call.hostOverride.None?
    ensures HostIn(client, Seen(client, call)).Some?
    ensures client.keys.parse(HostIn(client, Seen(client, call)).value) == Some(key)
    ensures HostIn(client, PublishedBy(client, call)) == Some(client.keys.z32(key))
  {
    PublishesIff(client, call);
    key := client.keys.parse(HostIn(client, Seen(client, call)).value).value;
    PublishedIsRebuilt(client, call);
  }

  // ---- Runs

  /** The newest packet after the calls of a run that starts at `first`. */
  function After<K>(client: Client<K>, first: Option<Packet>, calls: seq<Call<K>>): Option<Packet> {
    if calls == [] then first
    else if Publishes(client, Last(calls)) then PublishedBy(client, Last(calls))
    else After(client, first, calls[..|calls| - 1])
  }

  /** Every packet there has been: the first one, and each that was published. */
  function History<K>(client: Client<K>, first: Option<Packet>, calls: seq<Call<K>>): seq<Option<Packet>> {
    if calls == [] then [first]
    else
      History(client, first, calls[..|calls| - 1]) +
      (if Publishes(client, Last(calls)) then [PublishedBy(client, Last(calls))] else [])
  }

  /** Network and cache may be stale or empty: a call sees some packet there has been, or none. */
  ghost predicate IsRun<K>(client: Client<K>, first: Option<Packet>, calls: seq<Call<K>>) {
    forall i | 0 <= i < |calls| ::
      Seen(client, calls[i]).None? || Seen(client, calls[i]) in History(client, first, calls[..i])
  }

  lemma FrontIsRun<K>(client: Client<K>, first: Option<Packet>, calls: seq<Call<K>>)
    requires calls != [] && IsRun(client, first, calls)
    ensures IsRun(client, first, calls[..|calls| - 1])
    ensures var seen := Seen(client, Last(calls));
            seen.None? || seen in History(client, first, calls[..|calls| - 1])
  {
    var front := calls[..|calls| - 1];
    forall i | 0 <= i < |front|
      ensures Seen(client, front[i]).None? || Seen(client, front[i]) in History(client, first, front[..i])
    {
      assert front[..i] == calls[..i] && front[i] == calls[i];
    }
  }

  // ---- Runs keep the other records

  /** If the call publishes, what it publishes still has all of `first` that is not `_pubky.*`, in order. */
  ghost predicate KeepsOthers<K>(client: Client<K>, first: Option<Packet>, call: Call<K>) {
    Publishes(client, call) ==> Others(RecordsOf(PublishedBy(client, call))) == Others(RecordsOf(first))
  }

  /** If the call publishes, nothing in `first` looks alike, and it sees a packet unless there is nothing to keep. */
  ghost predicate CanKeepOthers<K>(client: Client<K>, first: Option<Packet>, call: Call<K>) {
    Publishes(client, call) ==>
      && !HasLookalike(RecordsOf(first))
      && (Seen(client, call).Some? || Others(RecordsOf(first)) == [])
  }

  ghost predicate AllKeep(history: seq<Option<Packet>>, kept: seq<Record>) {
    forall packet | packet in history :: Kept(RecordsOf(packet)) == kept
  }

  /** One publish from the history adds a packet like the others. */
  lemma PublishKeeps<K>(client: Client<K>, first: Option<Packet>, history: seq<Option<Packet>>, call: Call<K>)
    requires AllKeep(history, Kept(RecordsOf(first))) && CanKeepOthers(client, first, call)
    requires Publishes(client, call) && (Seen(client, call).None? || Seen(client, call) in history)
    ensures Kept(RecordsOf(PublishedBy(client, call))) == Kept(RecordsOf(first))
    ensures KeepsOthers(client, first, call)
  {
    PublishedIsRebuilt(client, call);
    KeptIsOthersIff(RecordsOf(first));
  }

  lemma {:induction false} HistoryKeeps<K>(client: Client<K>, first: Option<Packet>, calls: seq<Call<K>>)
    requires IsRun(client, first, calls)
    requires forall i | 0 <= i < |calls| :: CanKeepOthers(client, first, calls[i])
    ensures AllKeep(History(client, first, calls), Kept(RecordsOf(first)))
    decreases |calls|
  {
    if calls != [] {
      var front, call := calls[..|calls| - 1], Last(calls);
      FrontIsRun(client, first, calls);
      HistoryKeeps(client, first, front);
      if Publishes(client, call) {
        PublishKeeps(client, first, History(client, first, front), call);
      }
    }
  }

  /** A call that kept the other records could: there was nothing that looks alike, and nothing it failed to see. */
  lemma KeptSoCould<K>(client: Client<K>, first: Option<Packet>, call: Call<K>)
    requires KeepsOthers(client, first, call)
    ensures CanKeepOthers(client, first, call)
  {
    if Publishes(client, call) {
      var seen := RecordsOf(Seen(client, call));
      PublishedIsRebuilt(client, call);
      KeptHasNoPubky(seen);
      OthersHaveLookalikes(RecordsOf(first));
    }
  }

  lemma {:induction false} OthersHaveLookalikes(records: seq<Record>)
    ensures HasLookalike(records) ==> HasLookalike(Others(records))
  {
    if records != [] {
      OthersHaveLookalikes(records[..|records| - 1]);
      HasLookalikeSnoc(records);
      if IsOther(Last(records)) {
        HasLookalikeSnoc(Others(records));
        FrontOfSnoc(Others(records[..|records| - 1]), Last(records));
      }
    }
  }

  /**
   * Over every run, however stale its views: all packets published keep what is not `_pubky.*` exactly
   * when the first packet holds no lookalike and no publishing call saw nothing where there was
   * something to keep.
   */
  lemma RunsKeepOthersIff<K>(client: Client<K>, first: Option<Packet>, calls: seq<Call<K>>)
    requires IsRun(client, first, calls)
    ensures (forall i | 0 <= i < |calls| :: KeepsOthers(client, first, calls[i])) <==>
            (forall i | 0 <= i < |calls| :: CanKeepOthers(client, first, calls[i]))
  {
    if forall i | 0 <= i < |calls| :: CanKeepOthers(client, first, calls[i]) {
      forall i | 0 <= i < |calls|
        ensures KeepsOthers(client, first, calls[i])
      {
        PrefixIsRun(client, first, calls, i);
        HistoryKeeps(client, first, calls[..i]);
        if Publishes(client, calls[i]) {
          PublishKeeps(client, first, History(client, first, calls[..i]), calls[i]);
        }
      }
    }
    if forall i | 0 <= i < |calls| :: KeepsOthers(client, first, calls[i]) {
      forall i | 0 <= i < |calls|
        ensures CanKeepOthers(client, first, calls[i])
      {
        KeptSoCould(client, first, calls[i]);
      }
    }
  }

  lemma PrefixIsRun<K>(client: Client<K>, first: Option<Packet>, calls: seq<Call<K>>, n: nat)
    requires n <= |calls| && IsRun(client, first, calls)
    ensures IsRun(client, first, calls[..n])
    ensures forall i | 0 <= i < n :: calls[..n][i] == calls[i]
  {
    forall i | 0 <= i < n
      ensures var seen := Seen(client, calls[..n][i]);
              seen.None? || seen in History(client, first, calls[..n][..i])
    {
      assert calls[..n][..i] == calls[..i] && calls[..n][i] == calls[i];
    }
  }

  // ---- Runs and the host

  /** The overrides that were published. */
  function Overrides<K>(client: Client<K>, calls: seq<Call<K>>): seq<K> {
    if calls == [] then []
    else
      var call := Last(calls);
      Overrides(client, calls[..|calls| - 1]) +
      (if Publishes(client, call) && call.hostOverride.Some? then [call.hostOverride.value] else [])
  }

  /** The first host, as found or as written back, or an override. */
  ghost predicate IsOwnHost<K>(keys: KeyText<K>, first: Option<string>, overrides: seq<K>, host: Option<string>) {
    host == first || host == Reprint(keys, first) || exists key | key in overrides :: host == Some(keys.z32(key))
  }

  ghost predicate AllOwnHosts<K>(client: Client<K>, first: Option<Packet>, overrides: seq<K>,
                                 history: seq<Option<Packet>>) {
    forall packet | packet in history ::
      IsOwnHost(client.keys, HostIn(client, first), overrides, HostIn(client, packet))
  }

  lemma ReprintIsOwnHost<K(!new)>(keys: KeyText<K>, first: Option<string>, overrides: seq<K>, host: Option<string>)
    requires IsRoundTrip(keys) && IsOwnHost(keys, first, overrides, host)
    ensures IsOwnHost(keys, first, overrides, Reprint(keys, host))
  {
    if key :| key in overrides && host == Some(keys.z32(key)) {
      ReprintSettles(keys, first, key);
    }
  }

  lemma PublishedHostIsOwn<K(!new)>(client: Client<K>, first: Option<Packet>, overrides: seq<K>,
                                    history: seq<Option<Packet>>, call: Call<K>)
    requires IsRoundTrip(client.keys) && Publishes(client, call)
    requires AllOwnHosts(client, first, overrides, history)
    requires Seen(client, call).None? || Seen(client, call) in history
    ensures var more := if call.hostOverride.Some? then [call.hostOverride.value] else [];
            AllOwnHosts(client, first, overrides + more, history + [PublishedBy(client, call)])
  {
    var keys, host := client.keys, HostIn(client, first);
    var more := if call.hostOverride.Some? then [call.hostOverride.value] else [];
    PublishedIsRebuilt(client, call);
    if call.hostOverride.None? {
      ReprintIsOwnHost(keys, host, overrides, HostIn(client, Seen(client, call)));
      AppendEmpty(overrides);
    } else {
      assert call.hostOverride.value in overrides + more;
    }
    forall packet | packet in history + [PublishedBy(client, call)]
      ensures IsOwnHost(keys, host, overrides + more, HostIn(client, packet))
    {
      if packet in history {
        MoreOverrides(keys, host, overrides, more, HostIn(client, packet));
      }
    }
  }

  lemma MoreOverrides<K>(keys: KeyText<K>, first: Option<string>, overrides: seq<K>, more: seq<K>, host: Option<string>)
    requires IsOwnHost(keys, first, overrides, host)
    ensures IsOwnHost(keys, first, overrides + more, host)
  {
    if key :| key in overrides && host == Some(keys.z32(key)) {
      assert key in overrides + more;
    }
  }

  /** Over every run, stale views included, no packet names a host but the first one or a published override. */
  lemma {:induction false} HostsComeFromTheRun<K(!new)>(client: Client<K>, first: Option<Packet>, calls: seq<Call<K>>)
    requires IsRoundTrip(client.keys) && IsRun(client, first, calls)
    ensures AllOwnHosts(client, first, Overrides(client, calls), History(client, first, calls))
    decreases |calls|
  {
    if calls != [] {
      var front, call := calls[..|calls| - 1], Last(calls);
      FrontIsRun(client, first, calls);
      HostsComeFromTheRun(client, first, front);
      if Publishes(client, call) {
        PublishedHostIsOwn(client, first, Overrides(client, front), History(client, first, front), call);
      } else {
        AppendEmpty(Overrides(client, front));
        AppendEmpty(History(client, first, front));
      }
    }
  }

  /** The override of the last call that published one. */
  function LastOverride<K>(client: Client<K>, calls: seq<Call<K>>): Option<K> {
    if calls == [] then None
    else if Publishes(client, Last(calls)) && Last(calls).hostOverride.Some? then Last(calls).hostOverride
    else LastOverride(client, calls[..|calls| - 1])
  }

  /** The host a run should leave: the last published override, else the first host. */
  function Intended<K>(client: Client<K>, first: Option<string>, calls: seq<Call<K>>): Option<string> {
    if forall i | 0 <= i < |calls| :: !Publishes(client, calls[i]) then first
    else if LastOverride(client, calls).Some? then Some(client.keys.z32(LastOverride(client, calls).value))
    else Reprint(client.keys, first)
  }

  lemma {:induction false} NoOverrideWithoutPublish<K>(client: Client<K>, calls: seq<Call<K>>)
    ensures (forall i | 0 <= i < |calls| :: !Publishes(client, calls[i])) ==> LastOverride(client, calls).None?
    decreases |calls|
  {
    if calls != [] {
      NoOverrideWithoutPublish(client, calls[..|calls| - 1]);
    }
  }

  /** How one more call changes what is intended. */
  lemma IntendedSnoc<K(!new)>(client: Client<K>, first: Option<string>, calls: seq<Call<K>>)
    requires IsRoundTrip(client.keys) && calls != []
    ensures var before, call := Intended(client, first, calls[..|calls| - 1]), Last(calls);
            Intended(client, first, calls) ==
            if !Publishes(client, call) then before
            else if call.hostOverride.Some? then Some(client.keys.z32(call.hostOverride.value))
            else Reprint(client.keys, before)
  {
    var front := calls[..|calls| - 1];
    assert forall i | 0 <= i < |front| :: calls[i] == front[i];
    NoOverrideWithoutPublish(client, front);
  }

  /** A republish without override sees the host that is published at that time. */
  ghost predicate SeesHost<K>(client: Client<K>, first: Option<Packet>, calls: seq<Call<K>>)
    requires calls != []
  {
    var before, call := After(client, first, calls[..|calls| - 1]), Last(calls);
    Publishes(client, call) && call.hostOverride.None? ==>
      Reprint(client.keys, HostIn(client, Seen(client, call))) == Reprint(client.keys, HostIn(client, before))
  }

  ghost predicate HasIntendedHost<K>(client: Client<K>, first: Option<Packet>, calls: seq<Call<K>>) {
    HostIn(client, After(client, first, calls)) == Intended(client, HostIn(client, first), calls)
  }

  /** One call keeps the host as intended exactly when it sees it. */
  lemma CallKeepsHostIff<K(!new)>(client: Client<K>, first: Option<Packet>, calls: seq<Call<K>>)
    requires IsRoundTrip(client.keys) && calls != []
    requires HasIntendedHost(client, first, calls[..|calls| - 1])
    ensures HasIntendedHost(client, first, calls) <==> SeesHost(client, first, calls)
  {
    IntendedSnoc(client, HostIn(client, first), calls);
    if Publishes(client, Last(calls)) {
      PublishedIsRebuilt(client, Last(calls));
    }
  }

  lemma PrefixKeepsHostIff<K(!new)>(client: Client<K>, first: Option<Packet>, calls: seq<Call<K>>, n: nat)
    requires IsRoundTrip(client.keys) && 0 < n <= |calls|
    requires HasIntendedHost(client, first, calls[..n - 1])
    ensures HasIntendedHost(client, first, calls[..n]) <==> SeesHost(client, first, calls[..n])
  {
    assert calls[..n][..n - 1] == calls[..n - 1];
    CallKeepsHostIff(client, first, calls[..n]);
  }

  lemma {:induction false} IntendedWhileSeen<K(!new)>(client: Client<K>, first: Option<Packet>, calls: seq<Call<K>>,
                                                      n: nat)
    requires IsRoundTrip(client.keys) && n <= |calls|
    requires forall m | 0 < m <= |calls| :: SeesHost(client, first, calls[..m])
    ensures HasIntendedHost(client, first, calls[..n])
    decreases n
  {
    if n > 0 {
      IntendedWhileSeen(client, first, calls, n - 1);
      PrefixKeepsHostIff(client, first, calls, n);
    }
  }

  /**
   * Over every sequence of calls, whatever they see: the host is the last published override, or else
   * the first host, throughout, exactly when each republish without override sees the host published
   * at that time.
   */
  lemma RunLeavesHost<K(!new)>(client: Client<K>, first: Option<Packet>, calls: seq<Call<K>>)
    requires IsRoundTrip(client.keys)
    ensures (forall n | 0 <= n <= |calls| :: HasIntendedHost(client, first, calls[..n])) <==>
            (forall n | 0 < n <= |calls| :: SeesHost(client, first, calls[..n]))
  {
    if forall n | 0 < n <= |calls| :: SeesHost(client, first, calls[..n]) {
      forall n | 0 <= n <= |calls|
        ensures HasIntendedHost(client, first, calls[..n])
      {
        IntendedWhileSeen(client, first, calls, n);
      }
    }
    if forall n | 0 <= n <= |calls| :: HasIntendedHost(client, first, calls[..n]) {
      forall n | 0 < n <= |calls|
        ensures SeesHost(client, first, calls[..n])
      {
        PrefixKeepsHostIff(client, first, calls, n);
      }
    }
  }

  // ---- Calls with an up-to-date view

  /** The call can see the newest packet, on the network or in the cache; what else it sees is older. */
  ghost predicate Sees(newer: (Packet, Packet) -> bool, newest: Option<Packet>, seen: Option<Packet>) {
    || seen.None? || seen == newest
    || (newest.Some? && newer(newest.value, seen.value) && !newer(seen.value, newest.value))
  }

  ghost predicate IsUpToDate<K>(newer: (Packet, Packet) -> bool, newest: Option<Packet>, call: Call<K>) {
    && Sees(newer, newest, call.resolved) && Sees(newer, newest, call.cached)
    && (call.resolved == newest || call.cached == newest)
  }

  /** A stale network answer is outvoted by the cache, and a stale cache by the network. */
  lemma MostRecentIsNewest<K>(newer: (Packet, Packet) -> bool, newest: Option<Packet>, call: Call<K>)
    requires IsUpToDate(newer, newest, call)
    ensures MostRecent(newer, call.resolved, call.cached) == newest
  {
  }

  /**
   * One call, published or not. Whatever it sees, it keeps the records exactly when those it sees are
   * the ones to keep; from an up-to-date view it always does, and the host is the override or the previous one.
   */
  lemma CallKeepsRecordsAndHost<K>(client: Client<K>, before: Option<Packet>, call: Call<K>)
    ensures var seen := Seen(client, call);
            var after := if Publishes(client, call) then PublishedBy(client, call) else before;
            && (Kept(RecordsOf(after)) == Kept(RecordsOf(before)) <==>
                !Publishes(client, call) || Kept(RecordsOf(seen)) == Kept(RecordsOf(before)))
            && (Publishes(client, call) ==> CountPubky(RecordsOf(after)) == 1)
            && HostIn(client, after) ==
               (if !Publishes(client, call) then HostIn(client, before)
                else if call.hostOverride.Some? then Some(client.keys.z32(call.hostOverride.value))
                else Reprint(client.keys, HostIn(client, seen)))
            && (IsUpToDate(client.newer, before, call) ==>
                && seen == before
                && (Others(RecordsOf(after)) == Others(RecordsOf(before)) <==>
                    !Publishes(client, call) || !HasLookalike(RecordsOf(before))))
  {
    if Publishes(client, call) {
      PublishedIsRebuilt(client, call);
    }
    if IsUpToDate(client.newer, before, call) {
      MostRecentIsNewest(client.newer, before, call);
    }
  }

  ghost predicate KeepsRecords<K>(client: Client<K>, first: Option<Packet>, calls: seq<Call<K>>) {
    Kept(RecordsOf(After(client, first, calls))) == Kept(RecordsOf(first))
  }

  /** A call that publishes sees the records to keep. */
  ghost predicate SeesRecords<K>(client: Client<K>, first: Option<Packet>, call: Call<K>) {
    Publishes(client, call) ==> Kept(RecordsOf(Seen(client, call))) == Kept(RecordsOf(first))
  }

  lemma LastCallKeepsRecords<K>(client: Client<K>, first: Option<Packet>, calls: seq<Call<K>>, n: nat)
    requires 0 < n <= |calls|
    ensures KeepsRecords(client, first, calls[..n]) <==>
            if Publishes(client, calls[n - 1]) then SeesRecords(client, first, calls[n - 1])
            else KeepsRecords(client, first, calls[..n - 1])
  {
    assert calls[..n][..n - 1] == calls[..n - 1] && Last(calls[..n]) == calls[n - 1];
    if Publishes(client, calls[n - 1]) {
      PublishedIsRebuilt(client, calls[n - 1]);
    }
  }

  lemma {:induction false} KeepsWhileSeen<K>(client: Client<K>, first: Option<Packet>, calls: seq<Call<K>>, n: nat)
    requires n <= |calls|
    requires forall i | 0 <= i < |calls| :: SeesRecords(client, first, calls[i])
    ensures KeepsRecords(client, first, calls[..n])
  {
    if n > 0 {
      KeepsWhileSeen(client, first, calls, n - 1);
      LastCallKeepsRecords(client, first, calls, n);
    }
  }

  lemma SeesWhenKept<K>(client: Client<K>, first: Option<Packet>, calls: seq<Call<K>>, i: nat)
    requires i < |calls| && KeepsRecords(client, first, calls[..i + 1])
    ensures SeesRecords(client, first, calls[i])
  {
    LastCallKeepsRecords(client, first, calls, i + 1);
  }

  lemma RunsKeepRecordsIff<K>(client: Client<K>, first: Option<Packet>, calls: seq<Call<K>>)
    ensures (forall n | 0 <= n <= |calls| :: KeepsRecords(client, first, calls[..n])) <==>
            (forall i | 0 <= i < |calls| :: SeesRecords(client, first, calls[i]))
  {
    if forall i | 0 <= i < |calls| :: SeesRecords(client, first, calls[i]) {
      forall n | 0 <= n <= |calls|
        ensures KeepsRecords(client, first, calls[..n])
      {
        KeepsWhileSeen(client, first, calls, n);
      }
    } else {
      var i :| 0 <= i < |calls| && !SeesRecords(client, first, calls[i]);
      if KeepsRecords(client, first, calls[..i + 1]) {
        SeesWhenKept(client, first, calls, i);
        assert false;
      }
    }
  }

  /**
   * Over every sequence of calls, whatever they see, the records the prefix test keeps stay throughout
   * exactly when each publishing call sees them. If every call is up to date they stay, and the host is
   * the intended one.
   */
  lemma RunsKeepRecordsAndHost<K(!new)>(client: Client<K>, first: Option<Packet>, calls: seq<Call<K>>)
    ensures (forall n | 0 <= n <= |calls| :: KeepsRecords(client, first, calls[..n])) <==>
            (forall i | 0 <= i < |calls| :: SeesRecords(client, first, calls[i]))
    ensures IsRoundTrip(client.keys) && AreUpToDate(client, first, calls) ==>
              && KeepsRecords(client, first, calls)
              && (After(client, first, calls) == first || CountPubky(RecordsOf(After(client, first, calls))) == 1)
              && HasIntendedHost(client, first, calls)
  {
    RunsKeepRecordsIff(client, first, calls);
    if IsRoundTrip(client.keys) && AreUpToDate(client, first, calls) {
      UpToDateRunsKeepAll(client, first, calls);
    }
  }

  ghost predicate AreUpToDate<K>(client: Client<K>, first: Option<Packet>, calls: seq<Call<K>>) {
    forall i | 0 <= i < |calls| :: IsUpToDate(client.newer, After(client, first, calls[..i]), calls[i])
  }

  lemma {:induction false} UpToDateRunsKeepAll<K(!new)>(client: Client<K>, first: Option<Packet>, calls: seq<Call<K>>)
    requires IsRoundTrip(client.keys) && AreUpToDate(client, first, calls)
    ensures KeepsRecords(client, first, calls) && HasIntendedHost(client, first, calls)
    ensures After(client, first, calls) == first || CountPubky(RecordsOf(After(client, first, calls))) == 1
    decreases |calls|
  {
    if calls != [] {
      var n := |calls| - 1;
      var front := calls[..n];
      assert forall i | 0 <= i < n :: front[..i] == calls[..i] && front[i] == calls[i];
      UpToDateRunsKeepAll(client, first, front);
      assert IsUpToDate(client.newer, After(client, first, front), calls[n]);
      CallKeepsRecordsAndHost(client, After(client, first, front), calls[n]);
      CallKeepsHostIff(client, first, calls);
    }
  }

  // ---- What stale views can do

  function GoodAttempts(): Attempts {
    [Attempt(0, None), Attempt(0, None), Attempt(0, None)]
  }

  /** A forced call that sees `resolved` on the network and nothing in the cache, and whose first attempt succeeds. */
  function ForcedCall<K>(hostOverride: Option<K>, resolved: Option<Packet>): Call<K> {
    Call(true, hostOverride, Force, resolved, None, 0, GoodAttempts())
  }

  predicate HasReadableHost<K>(client: Client<K>, packet: Option<Packet>) {
    HostIn(client, packet).Some? && client.keys.parse(HostIn(client, packet).value).Some?
  }

  lemma ForcedCallPublishes<K>(client: Client<K>, hostOverride: Option<K>, resolved: Option<Packet>)
    requires hostOverride.Some? || HasReadableHost(client, resolved)
    ensures var call := ForcedCall(hostOverride, resolved);
            Seen(client, call) == resolved && Publishes(client, call) && call.hostOverride == hostOverride
  {
    assert GoodAttempts()[0].failure.None?;
    assert Succeeds(GoodAttempts());
    PublishesIff(client, ForcedCall(hostOverride, resolved));
  }

  lemma PairOfCalls<T>(a: T, b: T)
    ensures [a, b][..0] == [] && [a, b][..1] == [a] && [a][..0] == []
  {
  }

  /** Two calls that both see the first packet, whatever was published in between, are a run. */
  lemma StaleCallsAreRun<K>(client: Client<K>, first: Option<Packet>, a: Call<K>, b: Call<K>)
    requires Seen(client, a) == first && Seen(client, b) == first
    ensures IsRun(client, first, [a, b])
  {
    PairOfCalls(a, b);
    assert first in History(client, first, []);
    assert first in History(client, first, [a]);
  }

  /** The first of them moves the host; the second republishes without knowing. */
  lemma StaleRepublishRestores<K(!new)>(client: Client<K>, first: Option<Packet>, a: Call<K>, b: Call<K>, moved: K)
    requires IsRoundTrip(client.keys)
    requires Publishes(client, a) && a.hostOverride == Some(moved)
    requires Publishes(client, b) && b.hostOverride.None? && Seen(client, b) == first
    ensures Intended(client, HostIn(client, first), [a, b]) == Some(client.keys.z32(moved))
    ensures HostIn(client, After(client, first, [a, b])) == Reprint(client.keys, HostIn(client, first))
    ensures HostIn(client, After(client, first, [a])) == Some(client.keys.z32(moved))
  {
    PairOfCalls(a, b);
    PublishedIsRebuilt(client, a);
    PublishedIsRebuilt(client, b);
    IntendedSnoc(client, HostIn(client, first), [a]);
    IntendedSnoc(client, HostIn(client, first), [a, b]);
    ReprintSettles(client.keys, None, moved);
  }

  /** A packet that names a host and nothing else. */
  function HostedAt<K>(client: Client<K>, key: K): Option<Packet> {
    Some(Packet(0, [HomeRecord(client.origin, client.keys.z32(key))]))
  }

  function MoveThenRepublish<K>(client: Client<K>, key: K, moved: K): seq<Call<K>> {
    [ForcedCall(Some(moved), HostedAt(client, key)), ForcedCall(None, HostedAt(client, key))]
  }

  lemma HostOfHostedAt<K>(client: Client<K>, key: K)
    ensures HostIn(client, HostedAt(client, key)) == Some(client.keys.z32(key))
  {
  }

  /** Such a run is possible, and it brings the old host back. */
  lemma StaleViewRestoresHost<K(!new)>(client: Client<K>, key: K, moved: K)
    requires IsRoundTrip(client.keys) && key != moved
    ensures var first, calls := HostedAt(client, key), MoveThenRepublish(client, key, moved);
            && IsRun(client, first, calls) && !SeesHost(client, first, calls)
            && Intended(client, HostIn(client, first), calls) == Some(client.keys.z32(moved))
            && HostIn(client, After(client, first, calls)) == Some(client.keys.z32(key))
            && client.keys.z32(key) != client.keys.z32(moved)
  {
    var first := HostedAt(client, key);
    var a, b: Call<K> := ForcedCall(Some(moved), first), ForcedCall(None, first);
    HostOfHostedAt(client, key);
    assert client.keys.parse(client.keys.z32(key)) == Some(key);
    assert client.keys.parse(client.keys.z32(moved)) == Some(moved);
    ForcedCallPublishes(client, Some(moved), first);
    ForcedCallPublishes(client, None, first);
    StaleCallsAreRun(client, first, a, b);
    StaleRepublishRestores(client, first, a, b, moved);
    ReprintSettles(client.keys, None, key);
    ReprintSettles(client.keys, None, moved);
    PairOfCalls(a, b);
  }

  lemma OnlyOther(record: Record)
    requires IsOther(record)
    ensures Others([record]) == [record]
  {
    KeptSnoc([], record);
    AppendEmpty([record]);
  }

  lemma BlindCallIsRun<K>(client: Client<K>, first: Option<Packet>, call: Call<K>)
    requires Seen(client, call).None?
    ensures IsRun(client, first, [call])
  {
  }

  /** A call with an override that sees nothing, while a packet exists, publishes the host record alone. */
  lemma UnseenRecordsAreDropped<K>(client: Client<K>, host: K, record: Record)
    requires IsOther(record)
    ensures var first, call := Some(Packet(0, [record])), ForcedCall(Some(host), None);
            && IsRun(client, first, [call]) && Publishes(client, call) && !CanKeepOthers(client, first, call)
            && Others(RecordsOf(first)) == [record]
            && Others(RecordsOf(PublishedBy(client, call))) == []
  {
    var first, call := Some(Packet(0, [record])), ForcedCall(Some(host), None);
    ForcedCallPublishes(client, Some(host), None);
    BlindCallIsRun(client, first, call);
    PublishedIsRebuilt(client, call);
    OnlyOther(record);
  }
}
