/** Service records, their versions, and which of two records of one service wins a conflict
    (platform_service_registry.py and the ConflictResolver of federated_registry.py). */
module ServiceRecords {
  import opened Wrappers

  /** `details` stands for the fields that no rule reads. */
  datatype ServiceRecord = ServiceRecord(
    serviceId: string,
    version: string,
    registrationTimestamp: string,
    details: string)

  // ---------------------------------------------------------------------------------------
  // Versions
  // ---------------------------------------------------------------------------------------

  /** What Python's str.strip removes. */
  predicate IsSpace(c: char) {
    var code := c as int;
    || 0x9 <= code <= 0xd || 0x1c <= code <= 0x20 || code == 0x85 || code == 0xa0 || code == 0x1680
    || 0x2000 <= code <= 0x200a || code == 0x2028 || code == 0x2029 || code == 0x202f || code == 0x205f
    || code == 0x3000
  }

  /** What Python's int ignores around a number. */
  predicate IsPadding(c: char) {
    IsSpace(c) && !(0x1c <= c as int <= 0x1f)
  }

  function Strip(s: string, space: char -> bool): string {
    if s != [] && space(s[0]) then Strip(s[1..], space)
    else if s != [] && space(s[|s| - 1]) then Strip(s[..|s| - 1], space)
    else s
  }

  function Split(s: string, separator: char): (parts: seq<string>)
    ensures parts != []
  {
    if s == [] then [""]
    else
      var rest := Split(s[1..], separator);
      if s[0] == separator then [""] + rest else [[s[0]] + rest[0]] + rest[1..]
  }

  lemma {:induction false} UnsplitVersion(s: string)
    requires '.' !in s
    ensures Split(s, '.') == [s]
  {
    if s != [] {
      UnsplitVersion(s[1..]);
      assert s == [s[0]] + s[1..];
    }
  }

  /** The zeros of the scripts with decimal digits (Unicode 14.0, as Python 3.11 has it); nine more digits
      follow each. */
  const ZEROS: seq<int> := [
    0x30, 0x660, 0x6f0, 0x7c0, 0x966, 0x9e6, 0xa66, 0xae6, 0xb66, 0xbe6, 0xc66, 0xce6, 0xd66, 0xde6, 0xe50, 0xed0,
    0xf20, 0x1040, 0x1090, 0x17e0, 0x1810, 0x1946, 0x19d0, 0x1a80, 0x1a90, 0x1b50, 0x1bb0, 0x1c40, 0x1c50, 0xa620,
    0xa8d0, 0xa900, 0xa9d0, 0xa9f0, 0xaa50, 0xabf0, 0xff10, 0x104a0, 0x10d30, 0x11066, 0x110f0, 0x11136, 0x111d0,
    0x112f0, 0x11450, 0x114d0, 0x11650, 0x116c0, 0x11730, 0x118e0, 0x11950, 0x11c50, 0x11d50, 0x11da0, 0x16a60,
    0x16ac0, 0x16b50, 0x1d7ce, 0x1d7d8, 0x1d7e2, 0x1d7ec, 0x1d7f6, 0x1e140, 0x1e2f0, 0x1e950, 0x1fbf0]

  const MAX_DIGITS: nat := 4300

  function DigitAmong(code: int, zeros: seq<int>): (digit: Option<nat>)
    ensures digit.Some? ==> digit.value < 10
  {
    if zeros == [] then None
    else if zeros[0] <= code < zeros[0] + 10 then Some(code - zeros[0])
    else DigitAmong(code, zeros[1..])
  }

  function DigitValue(c: char): (digit: Option<nat>)
    ensures digit.Some? ==> digit.value < 10
    ensures '0' <= c <= '9' ==> digit == Some(c as int - '0' as int)
  {
    if '0' <= c <= '9' then Some(c as int - '0' as int)
    else if c as int < 0x80 then None
    else DigitAmong(c as int, ZEROS)
  }

  function DigitCount(s: string): nat {
    if s == [] then 0 else (if DigitValue(s[0]).Some? then 1 else 0) + DigitCount(s[1..])
  }

  /** Digits with single underscores between them, as Python reads an integer literal. */
  function ParseDigits(s: string, value: nat, afterDigit: bool): Option<int> {
    if s == [] then (if afterDigit then Some(value) else None)
    else
      match DigitValue(s[0])
      case Some(digit) => ParseDigits(s[1..], 10 * value + digit, true)
      case None => if s[0] == '_' && afterDigit then ParseDigits(s[1..], value, false) else None
  }

  function ParseInt(part: string): Option<int> {
    var s := Strip(part, IsPadding);
    if DigitCount(s) > MAX_DIGITS then None
    else if s != [] && s[0] == '-' then
      match ParseDigits(s[1..], 0, false)
      case Some(n) => Some(-n)
      case None => None
    else
      ParseDigits(if s != [] && s[0] == '+' then s[1..] else s, 0, false)
  }

  function ParseAll(parts: seq<string>): Option<seq<int>> {
    if parts == [] then Some([])
    else
      match (ParseInt(parts[0]), ParseAll(parts[1..]))
      case (Some(n), Some(rest)) => Some([n] + rest)
      case _ => None
  }

  function ParseVersion(version: string): seq<int> {
    match ParseAll(Split(Strip(version, IsSpace), '.'))
    case Some(parts) => parts
    case None => [0, 0, 0]
  }

  /** Tuples of integers and strings are both compared lexicographically. */
  predicate Less(a: seq<int>, b: seq<int>) {
    b != [] && (a == [] || a[0] < b[0] || (a[0] == b[0] && Less(a[1..], b[1..])))
  }

  function Codes(s: string): seq<int> {
    seq(|s|, i requires 0 <= i < |s| => s[i] as int)
  }

  lemma {:induction false} LessIsTotal(a: seq<int>, b: seq<int>)
    ensures Less(a, b) || Less(b, a) || a == b
    ensures !(Less(a, b) && Less(b, a))
    ensures Less(a, b) ==> a != b
  {
    if a != [] && b != [] && a[0] == b[0] {
      LessIsTotal(a[1..], b[1..]);
      assert a == [a[0]] + a[1..] && b == [b[0]] + b[1..];
    }
  }

  /** At position k the first tuple ends before the second, or has the smaller element; before it they agree. */
  ghost predicate DecidedAt(a: seq<int>, b: seq<int>, k: int) {
    0 <= k <= |a| && k <= |b| && a[..k] == b[..k] && if k == |a| then |a| < |b| else k < |b| && a[k] < b[k]
  }

  /** The order of tuples, by the first difference. */
  ghost predicate Before(a: seq<int>, b: seq<int>) {
    exists k :: DecidedAt(a, b, k)
  }

  lemma {:induction false} DecidedLater(a: seq<int>, b: seq<int>, k: nat)
    requires a != [] && b != [] && a[0] == b[0]
    ensures DecidedAt(a, b, k + 1) <==> DecidedAt(a[1..], b[1..], k)
  {
    if k < |a| && k < |b| {
      assert a[..k + 1] == [a[0]] + a[1..][..k] && b[..k + 1] == [b[0]] + b[1..][..k];
      assert a[1..][..k] == a[..k + 1][1..] && b[1..][..k] == b[..k + 1][1..];
    }
  }

  lemma {:induction false} SameStart(a: seq<int>, b: seq<int>, k: int)
    requires DecidedAt(a, b, k)
    ensures k > 0 ==> a != [] && b != [] && a[0] == b[0]
  {
    if k > 0 {
      assert a[..k][0] == b[..k][0];
    }
  }

  lemma {:induction false} LessIsLexicographic(a: seq<int>, b: seq<int>)
    ensures Less(a, b) <==> Before(a, b)
  {
    if a != [] && b != [] && a[0] == b[0] {
      LessIsLexicographic(a[1..], b[1..]);
      if k :| DecidedAt(a, b, k) {
        assert k > 0;
        DecidedLater(a, b, k - 1);
      }
      if k :| DecidedAt(a[1..], b[1..], k) {
        DecidedLater(a, b, k);
      }
    } else if Less(a, b) {
      assert DecidedAt(a, b, 0);
    } else if k :| DecidedAt(a, b, k) {
      SameStart(a, b, k);
    }
  }

  lemma {:induction false} LessIsTransitive(a: seq<int>, b: seq<int>, c: seq<int>)
    requires Less(a, b) && Less(b, c)
    ensures Less(a, c)
  {
    if a != [] && a[0] == b[0] == c[0] {
      LessIsTransitive(a[1..], b[1..], c[1..]);
    }
  }

  // ---------------------------------------------------------------------------------------
  // Conflict resolution
  // ---------------------------------------------------------------------------------------

  function Version(r: ServiceRecord): seq<int> {
    ParseVersion(r.version)
  }

  function Stamp(r: ServiceRecord): seq<int> {
    Codes(r.registrationTimestamp)
  }

  /** `hashOf` is the hexadecimal SHA-256 of a service id. */
  function Resolve(hashOf: string -> string, local: ServiceRecord, remote: ServiceRecord): ServiceRecord {
    if Less(Version(local), Version(remote)) then remote
    else if Less(Version(remote), Version(local)) then local
    else if Less(Stamp(remote), Stamp(local)) then remote
    else if Less(Stamp(local), Stamp(remote)) then local
    else if Less(Codes(hashOf(remote.serviceId)), Codes(hashOf(local.serviceId))) then remote
    else local
  }

  predicate Preferred(a: ServiceRecord, b: ServiceRecord) {
    Less(Version(b), Version(a)) || (Version(a) == Version(b) && Less(Stamp(a), Stamp(b)))
  }

  function Winner(local: ServiceRecord, remote: ServiceRecord): ServiceRecord {
    if Preferred(remote, local) then remote else local
  }

  /** Between records of one service the hash rule is never decisive. */
  lemma {:induction false} ResolveIsWinner(hashOf: string -> string, local: ServiceRecord, remote: ServiceRecord)
    requires local.serviceId == remote.serviceId
    ensures Resolve(hashOf, local, remote) == Winner(local, remote)
  {
    LessIsTotal(Version(local), Version(remote));
    LessIsTotal(Stamp(local), Stamp(remote));
    LessIsTotal(Codes(hashOf(local.serviceId)), Codes(hashOf(local.serviceId)));
  }

  /** The characters at the first difference decide, or the one string is a proper prefix of the other. */
  ghost predicate EarlierAt(s: string, t: string, k: int) {
    0 <= k <= |s| && k <= |t| && s[..k] == t[..k] && if k == |s| then |s| < |t| else k < |t| && s[k] < t[k]
  }

  ghost predicate Earlier(s: string, t: string) {
    exists k :: EarlierAt(s, t, k)
  }

  lemma {:induction false} CodesOfPrefix(s: string, t: string, k: nat)
    requires k <= |s| && k <= |t|
    ensures s[..k] == t[..k] <==> Codes(s)[..k] == Codes(t)[..k]
  {
    SameCodesSameString(s[..k], t[..k]);
    assert Codes(s[..k]) == Codes(s)[..k] && Codes(t[..k]) == Codes(t)[..k];
  }

  lemma {:induction false} CodesAreOrdered(s: string, t: string)
    ensures Less(Codes(s), Codes(t)) <==> Earlier(s, t)
  {
    LessIsLexicographic(Codes(s), Codes(t));
    forall k: int
      ensures DecidedAt(Codes(s), Codes(t), k) <==> EarlierAt(s, t, k)
    {
      if 0 <= k <= |s| && k <= |t| {
        CodesOfPrefix(s, t, k);
      }
    }
  }

  /** The higher version wins on either side, whatever the timestamps. */
  lemma {:induction false} HigherVersionWins(hashOf: string -> string, low: ServiceRecord, high: ServiceRecord)
    requires low.serviceId == high.serviceId && Before(ParseVersion(low.version), ParseVersion(high.version))
    ensures Resolve(hashOf, low, high) == Resolve(hashOf, high, low) == high
  {
    LessIsLexicographic(Version(low), Version(high));
    LessIsTotal(Version(low), Version(high));
  }

  /** At equal versions the earlier timestamp wins on either side. */
  lemma {:induction false} EarlierTimestampWins(hashOf: string -> string, early: ServiceRecord, late: ServiceRecord)
    requires early.serviceId == late.serviceId && ParseVersion(early.version) == ParseVersion(late.version)
    requires Earlier(early.registrationTimestamp, late.registrationTimestamp)
    ensures Resolve(hashOf, early, late) == Resolve(hashOf, late, early) == early
  {
    CodesAreOrdered(early.registrationTimestamp, late.registrationTimestamp);
    LessIsTotal(Stamp(early), Stamp(late));
    LessIsTotal(Version(early), Version(late));
  }

  /** With equal timestamps as well the local record stays. */
  lemma {:induction false} LocalWinsTies(hashOf: string -> string, local: ServiceRecord, remote: ServiceRecord)
    requires local.serviceId == remote.serviceId && ParseVersion(local.version) == ParseVersion(remote.version)
    requires local.registrationTimestamp == remote.registrationTimestamp
    ensures Resolve(hashOf, local, remote) == local
  {
    LessIsTotal(Version(local), Version(remote));
    LessIsTotal(Stamp(local), Stamp(remote));
    LessIsTotal(Codes(hashOf(local.serviceId)), Codes(hashOf(local.serviceId)));
  }

  ghost predicate Wins(a: ServiceRecord, b: ServiceRecord) {
    a == b || Preferred(a, b)
  }

  lemma {:induction false} WinsIsAntisymmetric(a: ServiceRecord, b: ServiceRecord)
    requires Wins(a, b) && Wins(b, a)
    ensures a == b
  {
    LessIsTotal(Version(a), Version(b));
    LessIsTotal(Stamp(a), Stamp(b));
  }

  lemma {:induction false} WinsIsTransitive(a: ServiceRecord, b: ServiceRecord, c: ServiceRecord)
    requires Wins(a, b) && Wins(b, c)
    ensures Wins(a, c)
  {
    if a != b && b != c {
      if Less(Version(b), Version(a)) && Less(Version(c), Version(b)) {
        LessIsTransitive(Version(c), Version(b), Version(a));
      } else if Version(a) == Version(b) == Version(c) {
        LessIsTransitive(Stamp(a), Stamp(b), Stamp(c));
      }
    }
  }

  lemma {:induction false} SameCodesSameString(a: string, b: string)
    ensures Codes(a) == Codes(b) <==> a == b
  {
    if Codes(a) == Codes(b) {
      assert |a| == |Codes(a)| == |b|;
      forall i | 0 <= i < |a|
        ensures a[i] == b[i]
      {
        assert Codes(a)[i] == Codes(b)[i];
      }
    }
  }

  /** Registrations of one service carry distinct timestamps. */
  ghost predicate Coherent(records: set<ServiceRecord>) {
    forall a, b :: a in records && b in records ==>
      (a.serviceId == b.serviceId && a.registrationTimestamp == b.registrationTimestamp ==> a == b)
  }

  lemma {:induction false} WinsIsTotal(records: set<ServiceRecord>, a: ServiceRecord, b: ServiceRecord)
    requires Coherent(records) && a in records && b in records && a.serviceId == b.serviceId
    ensures Wins(a, b) || Wins(b, a)
  {
    LessIsTotal(Version(a), Version(b));
    LessIsTotal(Stamp(a), Stamp(b));
    SameCodesSameString(a.registrationTimestamp, b.registrationTimestamp);
  }

  // ---------------------------------------------------------------------------------------
  // Merging
  // ---------------------------------------------------------------------------------------

  type Services = map<string, ServiceRecord>

  ghost predicate KeyedById(services: Services) {
    forall id :: id in services ==> services[id].serviceId == id
  }

  /** What stands after a conflict: the code compares timestamps to tell whether the remote record
      won. */
  function Kept(local: ServiceRecord, remote: ServiceRecord): ServiceRecord {
    if Winner(local, remote).registrationTimestamp == remote.registrationTimestamp then remote else local
  }

  /** The record kept is the winner unless a different record with the same timestamp, and no higher
      version, came in from outside. */
  lemma {:induction false} KeptIsWinnerExactly(local: ServiceRecord, remote: ServiceRecord)
    ensures Kept(local, remote) == Winner(local, remote) <==>
      !( && local.registrationTimestamp == remote.registrationTimestamp
         && local != remote
         && !Less(Version(local), Version(remote)))
  {
    LessIsTotal(Stamp(local), Stamp(remote));
  }

  /** The record from outside replaces a present one of the same service: with an equal timestamp always, else with
      the higher version, else with an equal version and the earlier timestamp. */
  ghost predicate Replaces(present: ServiceRecord, incoming: ServiceRecord) {
    || present.registrationTimestamp == incoming.registrationTimestamp
    || Before(ParseVersion(present.version), ParseVersion(incoming.version))
    || (ParseVersion(present.version) == ParseVersion(incoming.version)
        && Earlier(incoming.registrationTimestamp, present.registrationTimestamp))
  }

  lemma {:induction false} KeptExactly(present: ServiceRecord, incoming: ServiceRecord)
    ensures Kept(present, incoming) == if Replaces(present, incoming) then incoming else present
  {
    LessIsLexicographic(Version(present), Version(incoming));
    CodesAreOrdered(incoming.registrationTimestamp, present.registrationTimestamp);
    LessIsTotal(Version(present), Version(incoming));
  }

  function Merge(services: Services, record: ServiceRecord): Services {
    if record.serviceId in services then
      services[record.serviceId := Kept(services[record.serviceId], record)]
    else
      services[record.serviceId := record]
  }

  /** A registry after pulling every record of a peer. */
  function Synced(local: Services, remote: Services): Services {
    map id | id in local.Keys + remote.Keys ::
      if id !in remote then local[id]
      else if id !in local then remote[id]
      else Kept(local[id], remote[id])
  }

  /** What arrives from outside is adopted, or replaces what is present, or is ignored; other services stay. */
  lemma {:induction false} MergeExactly(services: Services, record: ServiceRecord)
    ensures record.serviceId !in services || Replaces(services[record.serviceId], record) ==>
      Merge(services, record) == services[record.serviceId := record]
    ensures record.serviceId in services && !Replaces(services[record.serviceId], record) ==>
      Merge(services, record) == services
  {
    if record.serviceId in services {
      KeptExactly(services[record.serviceId], record);
    }
  }

  lemma {:induction false} SyncedExactly(local: Services, remote: Services, id: string)
    ensures id in Synced(local, remote) <==> id in local || id in remote
    ensures id in remote && (id !in local || Replaces(local[id], remote[id])) ==>
      Synced(local, remote)[id] == remote[id]
    ensures id in local && (id !in remote || !Replaces(local[id], remote[id])) ==>
      Synced(local, remote)[id] == local[id]
  {
    if id in local && id in remote {
      KeptExactly(local[id], remote[id]);
    }
  }

  // ---------------------------------------------------------------------------------------
  // Joins
  // ---------------------------------------------------------------------------------------

  /** The services hold, for every service named by the records, the record that wins against all. */
  ghost predicate IsJoin(services: Services, records: set<ServiceRecord>) {
    && (forall r :: r in records ==> r.serviceId in services && Wins(services[r.serviceId], r))
    && (forall id :: id in services ==> services[id] in records && services[id].serviceId == id)
  }

  lemma {:induction false} JoinIsUnique(a: Services, b: Services, records: set<ServiceRecord>)
    requires IsJoin(a, records) && IsJoin(b, records)
    ensures a == b
  {
    forall id | id in a
      ensures id in b && a[id] == b[id]
    {
      WinsIsAntisymmetric(a[id], b[id]);
    }
    assert forall id :: id in b ==> b[id] in records && id in a;
  }

  /** The records are equal, or can be told apart by their timestamps, or the remote one has the higher version. */
  predicate Separable(local: ServiceRecord, remote: ServiceRecord) {
    || local == remote
    || local.registrationTimestamp != remote.registrationTimestamp
    || Less(Version(local), Version(remote))
  }

  lemma {:induction false} KeptWinsExactly(local: ServiceRecord, remote: ServiceRecord)
    ensures Kept(local, remote) in {local, remote}
    ensures Wins(Kept(local, remote), local) && Wins(Kept(local, remote), remote) <==> Separable(local, remote)
  {
    LessIsTotal(Version(local), Version(remote));
    LessIsTotal(Stamp(local), Stamp(remote));
    SameCodesSameString(local.registrationTimestamp, remote.registrationTimestamp);
  }

  ghost predicate AllSeparable(local: Services, remote: Services) {
    forall id :: id in local && id in remote ==> Separable(local[id], remote[id])
  }

  lemma {:induction false} SyncedWins(
      local: Services, localRecords: set<ServiceRecord>,
      remote: Services, remoteRecords: set<ServiceRecord>)
    requires IsJoin(local, localRecords) && IsJoin(remote, remoteRecords) && AllSeparable(local, remote)
    ensures IsJoin(Synced(local, remote), localRecords + remoteRecords)
  {
    var all := Synced(local, remote);
    forall id | id in all
      ensures all[id] in localRecords + remoteRecords && all[id].serviceId == id
      ensures id in local ==> Wins(all[id], local[id])
      ensures id in remote ==> Wins(all[id], remote[id])
    {
      if id in local && id in remote {
        KeptWinsExactly(local[id], remote[id]);
      }
    }
    forall r | r in localRecords + remoteRecords
      ensures r.serviceId in all && Wins(all[r.serviceId], r)
    {
      var id := r.serviceId;
      if r in localRecords {
        WinsIsTransitive(all[id], local[id], r);
      } else {
        WinsIsTransitive(all[id], remote[id], r);
      }
    }
  }

  /** A pull joins what the two sides know exactly if no two different records of one service meet that share their
      timestamp, unless the remote one has the higher version. */
  lemma {:induction false} SyncedIsJoin(
      local: Services, localRecords: set<ServiceRecord>,
      remote: Services, remoteRecords: set<ServiceRecord>)
    requires IsJoin(local, localRecords) && IsJoin(remote, remoteRecords)
    ensures IsJoin(Synced(local, remote), localRecords + remoteRecords) <==> AllSeparable(local, remote)
  {
    if AllSeparable(local, remote) {
      SyncedWins(local, localRecords, remote, remoteRecords);
    } else {
      var id :| id in local && id in remote && !Separable(local[id], remote[id]);
      KeptWinsExactly(local[id], remote[id]);
      assert Synced(local, remote)[id] == Kept(local[id], remote[id]);
      assert local[id] in localRecords && remote[id] in remoteRecords;
    }
  }

  lemma {:induction false} MergeIsSynced(services: Services, record: ServiceRecord)
    ensures Merge(services, record) == Synced(services, map[record.serviceId := record])
  {
  }

  lemma {:induction false} MergedIsJoin(services: Services, records: set<ServiceRecord>, record: ServiceRecord)
    requires IsJoin(services, records)
    ensures IsJoin(Merge(services, record), records + {record}) <==>
      (record.serviceId in services ==> Separable(services[record.serviceId], record))
  {
    MergeIsSynced(services, record);
    SyncedIsJoin(services, records, map[record.serviceId := record], {record});
  }

  lemma {:induction false} OwnJoin(services: Services)
    requires KeyedById(services)
    ensures IsJoin(services, services.Values)
  {
    forall r | r in services.Values
      ensures r.serviceId in services && services[r.serviceId] == r
    {
      var id :| id in services && services[id] == r;
    }
  }

  /** Of two different records with equal timestamps the one that arrives last stays, even with the lower
      version. */
  lemma {:induction false} EqualTimestampsDiverge(a: ServiceRecord, b: ServiceRecord)
    requires a.serviceId == b.serviceId && a.registrationTimestamp == b.registrationTimestamp
    ensures Merge(Merge(map[], a), b) == map[b.serviceId := b]
  {
  }

  /** The two orders in which two records of a service can arrive agree exactly unless the records differ and
      share their timestamp. */
  lemma {:induction false} TwoOrdersAgreeExactly(a: ServiceRecord, b: ServiceRecord)
    requires a.serviceId == b.serviceId
    ensures Merge(Merge(map[], a), b) == Merge(Merge(map[], b), a) <==>
      a == b || a.registrationTimestamp != b.registrationTimestamp
  {
    LessIsTotal(Version(a), Version(b));
    LessIsTotal(Stamp(a), Stamp(b));
    SameCodesSameString(a.registrationTimestamp, b.registrationTimestamp);
    var ab, ba := Merge(Merge(map[], a), b), Merge(Merge(map[], b), a);
    assert ab == map[a.serviceId := Kept(a, b)] && ba == map[a.serviceId := Kept(b, a)];
    assert ab[a.serviceId] == Kept(a, b) && ba[a.serviceId] == Kept(b, a);
  }
}
