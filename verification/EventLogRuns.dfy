/** What a reader of the log sees, and whole runs of writers, of clients that move the head, and
    of a reader, whose atomic steps interleave in any order. */
module EventLogRuns {
  import opened EventCodec
  import opened EventLogCopies
  import opened EventLogSpec

  // ---- one read ----

  /** The last claim leaves a file for the reader to hop to. */
  predicate Roomy(claims: seq<Iterator>) {
    claims != [] && FileId(claims[|claims| - 1]) < LAST_FILE
  }

  lemma HoldsTrip(disk: Disk, claims: seq<Iterator>, grants: seq<Grant>, written: set<nat>, k: nat)
    requires Layout(claims, grants) && Contains(disk, grants, written) && k in written
    ensures k < |grants|
    ensures var g := grants[k]; var file := FileOf(disk, FileId(g.base));
      IsEvent(file, Position(g.base)) && Decode(file, Position(g.base)) == g.event
  {
    var g := grants[k];
    assert Granted(claims[k], claims[k + 1], g);
    EventTrip(disk[FileId(g.base)], Position(g.base), g.event);
  }

  /** Where no event begins, the reader sees a zero, unless it stands inside a written event. */
  lemma NothingAt(disk: Disk, grants: seq<Grant>, written: set<nat>, f: nat, p: nat)
    requires Contains(disk, grants, written) && IsEvent(FileOf(disk, f), p)
    ensures exists m :: m in written && m < |grants| && Covers(grants[m], f, p)
  {
    if ByteAt(disk, f, p) == 0 { ZeroIsNoEvent(FileOf(disk, f), p); }
  }

  /** The event that covers a reader's own position is the one claimed there. */
  lemma CoversClaim(claims: seq<Iterator>, grants: seq<Grant>, k: nat, m: nat)
    requires Layout(claims, grants) && k < |claims| && m < |grants| &&
        Covers(grants[m], FileId(claims[k]), Position(claims[k]))
    ensures m == k && grants[k].base == claims[k]
  {
    GrantedFits(claims, grants, m);
    if m < k { ClaimsIncrease(claims, grants, m + 1, k); }
    if m > k { ClaimsIncrease(claims, grants, k, m); }
  }

  /** An event that covers the start of the file after a reader's begins there, and comes no
      earlier than the reader's next. */
  lemma CoversStart(claims: seq<Iterator>, grants: seq<Grant>, k: nat, m: nat)
    requires Layout(claims, grants) && k < |claims| && m < |grants| && Covers(grants[m], FileId(claims[k]) + 1, 0)
    ensures k <= m && grants[m].base == FileStart(FileId(claims[k]) + 1)
    ensures k < |grants| && grants[k].base == grants[m].base ==> m == k
  {
    GrantedFits(claims, grants, m);
    if m < k { ClaimsIncrease(claims, grants, m + 1, k); }
    if k < m { ClaimSafety(claims, grants, k, m); }
  }

  /** The reader's 32-bit file number wraps around: it stands in the last file with nothing at its
      position, and tries the first file, where the first event stands. */
  predicate WrapsAt(disk: Disk, i: Iterator) {
    FileId(i) == LAST_FILE && !IsEvent(FileOf(disk, LAST_FILE), Position(i)) && IsEvent(FileOf(disk, 0), 0)
  }

  lemma {:induction false} ClaimsInRange(claims: seq<Iterator>, grants: seq<Grant>, k: nat)
    requires Layout(claims, grants) && k < |claims|
    ensures InRange(claims[k]) && (k > 0 ==> InRange(grants[k - 1].base))
  {
    if k > 0 {
      assert Granted(claims[k - 1], claims[k], grants[k - 1]);
      GrantedFits(claims, grants, k - 1);
    }
  }

  /** One read, from the end of the `k`-th claim, unless it wraps: it finds a written event, the
      next one when that is written, never an earlier one; and it moves the reader to the end of
      what it found. It finds nothing only if the next event is not written. */
  lemma ReadTheorem(disk: Disk, claims: seq<Iterator>, grants: seq<Grant>, written: set<nat>, k: nat) returns (m: nat)
    requires Layout(claims, grants) && Contains(disk, grants, written) && k < |claims| && !WrapsAt(disk, claims[k])
    ensures Read(disk, claims[k]) != ReadOutOfRange
    ensures Read(disk, claims[k]).Found? ==>
      k <= m < |grants| && m in written && Read(disk, claims[k]) == Found(grants[m].event, claims[m + 1]) &&
        (k in written ==> m == k)
    ensures Read(disk, claims[k]) == NotFound ==> k !in written
  {
    hide IsEvent, Decode, Contains, Granted;
    ClaimsInRange(claims, grants, k);
    var f := FileId(claims[k]);
    m := k;
    if IsEvent(FileOf(disk, f), Position(claims[k])) {
      ReadHere(disk, claims, grants, written, k);
    } else {
      if f < LAST_FILE && IsEvent(FileOf(disk, f + 1), 0) {
        m := ReadHop(disk, claims, grants, written, k);
      }
      if k in written {
        NextIsRead(disk, claims, grants, written, k);
        ClaimsInRange(claims, grants, k + 1);
      }
    }
  }

  /** A written next event is always read, even in the last file. */
  lemma WrittenIsNoWrap(disk: Disk, claims: seq<Iterator>, grants: seq<Grant>, written: set<nat>, k: nat)
    requires Layout(claims, grants) && Contains(disk, grants, written) && k in written
    ensures k < |grants| && !WrapsAt(disk, claims[k])
  {
    NextIsRead(disk, claims, grants, written, k);
    ClaimsInRange(claims, grants, k + 1);
  }

  lemma ReadHere(disk: Disk, claims: seq<Iterator>, grants: seq<Grant>, written: set<nat>, k: nat)
    requires Layout(claims, grants) && Contains(disk, grants, written) && k < |claims|
    requires IsEvent(FileOf(disk, FileId(claims[k])), Position(claims[k]))
    ensures k in written && k < |grants| && claims[k + 1] == claims[k] + TotalSize(grants[k].event)
    ensures Decode(FileOf(disk, FileId(claims[k])), Position(claims[k])) == grants[k].event
  {
    hide IsEvent, Decode, Granted;
    NothingAt(disk, grants, written, FileId(claims[k]), Position(claims[k]));
    var m :| m in written && m < |grants| && Covers(grants[m], FileId(claims[k]), Position(claims[k]));
    CoversClaim(claims, grants, k, m);
    HoldsTrip(disk, claims, grants, written, k);
    GrantedFits(claims, grants, k);
  }

  lemma ReadHop(disk: Disk, claims: seq<Iterator>, grants: seq<Grant>, written: set<nat>, k: nat) returns (m: nat)
    requires Layout(claims, grants) && Contains(disk, grants, written) && k < |claims|
    requires IsEvent(FileOf(disk, FileId(claims[k]) + 1), 0)
    ensures k <= m < |grants| && m in written && grants[m].base == FileStart(FileId(claims[k]) + 1)
    ensures claims[m + 1] == FileStart(FileId(claims[k]) + 1) + TotalSize(grants[m].event)
    ensures Decode(FileOf(disk, FileId(claims[k]) + 1), 0) == grants[m].event
    ensures k < |grants| && grants[k].base == grants[m].base ==> m == k
  {
    hide IsEvent, Decode, Granted;
    var f := FileId(claims[k]) + 1;
    NothingAt(disk, grants, written, f, 0);
    m :| m in written && m < |grants| && Covers(grants[m], f, 0);
    CoversStart(claims, grants, k, m);
    HoldsTrip(disk, claims, grants, written, m);
    GrantedFits(claims, grants, m);
  }

  /** A written next event stands at the reader's position or at the start of the next file. */
  lemma NextIsRead(disk: Disk, claims: seq<Iterator>, grants: seq<Grant>, written: set<nat>, k: nat)
    requires Layout(claims, grants) && Contains(disk, grants, written) && k in written
    ensures k < |grants| && var f := FileId(claims[k]);
      (grants[k].base == claims[k] && IsEvent(FileOf(disk, f), Position(claims[k]))) ||
      (grants[k].base == FileStart(f + 1) && IsEvent(FileOf(disk, f + 1), 0))
  {
    hide IsEvent, Decode, Contains, Granted;
    HoldsTrip(disk, claims, grants, written, k);
    GrantedFits(claims, grants, k);
  }

  // ---- reading everything back ----

  /** Repeated reads: the events found, at most `n`, and where the reader then is. */
  function ReadMany(disk: Disk, i: Iterator, n: nat): (seq<Event>, Iterator) {
    if n == 0 then ([], i)
    else
      var before := ReadMany(disk, i, n - 1);
      match Read(disk, before.1)
      case Found(e, next) => (before.0 + [e], next)
      case _ => before
  }

  function Events(grants: seq<Grant>): (events: seq<Event>)
    ensures |events| == |grants|
  {
    seq(|grants|, i requires 0 <= i < |grants| => grants[i].event)
  }

  /** When all claimed events are written, reading from the start gives exactly those events in
      the order they were claimed, across the files. */
  lemma {:induction false} ReadBackFirst(disk: Disk, claims: seq<Iterator>, grants: seq<Grant>, written: set<nat>,
          n: nat)
    requires Layout(claims, grants) && Contains(disk, grants, written)
    requires (forall k :: 0 <= k < |grants| ==> k in written) && n <= |grants|
    ensures ReadMany(disk, 0, n) == (Events(grants[..n]), claims[n])
  {
    hide IsEvent, Decode, Contains, Granted, Read, WrapsAt;
    if n > 0 {
      ReadBackFirst(disk, claims, grants, written, n - 1);
      WrittenIsNoWrap(disk, claims, grants, written, n - 1);
      var _ := ReadTheorem(disk, claims, grants, written, n - 1);
      assert Events(grants[..n]) == Events(grants[..n - 1]) + [grants[n - 1].event];
    }
  }

  /** After that, reading finds nothing exactly when the log ends before its last file; otherwise it
      begins again with the first event. */
  lemma EndExact(disk: Disk, claims: seq<Iterator>, grants: seq<Grant>, written: set<nat>)
    requires Layout(claims, grants) && Contains(disk, grants, written)
    requires forall k :: 0 <= k < |grants| ==> k in written
    ensures Read(disk, claims[|grants|]) == NotFound <==> Roomy(claims)
    ensures !Roomy(claims) ==> grants != [] && Read(disk, claims[|grants|]) == Found(grants[0].event, claims[1])
  {
    hide Contains, Granted, Decode, IsEvent;
    var n := |grants|;
    ClaimsInRange(claims, grants, n);
    if Roomy(claims) {
      var _ := ReadTheorem(disk, claims, grants, written, n);
    } else {
      NothingAtEnd(disk, claims, grants, written);
      FirstAtStart(disk, claims, grants, written);
      assert NextFile(LAST_FILE) == 0;
    }
  }

  lemma NothingAtEnd(disk: Disk, claims: seq<Iterator>, grants: seq<Grant>, written: set<nat>)
    requires Layout(claims, grants) && Contains(disk, grants, written)
    ensures !IsEvent(FileOf(disk, FileId(claims[|grants|])), Position(claims[|grants|]))
  {
    hide IsEvent, Decode;
    var n := |grants|;
    if IsEvent(FileOf(disk, FileId(claims[n])), Position(claims[n])) { ReadHere(disk, claims, grants, written, n); }
  }

  lemma FirstAtStart(disk: Disk, claims: seq<Iterator>, grants: seq<Grant>, written: set<nat>)
    requires Layout(claims, grants) && Contains(disk, grants, written) && !Roomy(claims)
    requires forall k :: 0 <= k < |grants| ==> k in written
    ensures grants != [] && IsEvent(FileOf(disk, 0), 0) && Decode(FileOf(disk, 0), 0) == grants[0].event
    ensures claims[1] == TotalSize(grants[0].event)
  {
    hide IsEvent, Decode, Contains;
    assert grants != [];
    assert Granted(claims[0], claims[1], grants[0]) && grants[0].base == 0;
    HoldsTrip(disk, claims, grants, written, 0);
    GrantedFits(claims, grants, 0);
  }

  /** So when all claimed events are written, the log reads back whole, and then nothing, if and only
      if there is room behind it. */
  lemma {:induction false} ReadBackTheorem(disk: Disk, claims: seq<Iterator>, grants: seq<Grant>, written: set<nat>,
          n: nat)
    requires Layout(claims, grants) && Contains(disk, grants, written)
    requires forall k :: 0 <= k < |grants| ==> k in written
    ensures n <= |grants| ==> ReadMany(disk, 0, n) == (Events(grants[..n]), claims[n])
    ensures n > |grants| ==> (ReadMany(disk, 0, n) == (Events(grants), claims[|grants|]) <==> Roomy(claims))
  {
    hide Contains, Layout, Roomy;
    if n <= |grants| {
      ReadBackFirst(disk, claims, grants, written, n);
    } else {
      ReadBackFirst(disk, claims, grants, written, |grants|);
      assert grants[..|grants|] == grants;
      EndExact(disk, claims, grants, written);
      ReadOn(disk, |grants|, n);
    }
  }

  /** Reads that find nothing change nothing; reads that find something are never undone. */
  lemma {:induction false} ReadOn(disk: Disk, k: nat, n: nat)
    requires k < n
    ensures var r := ReadMany(disk, 0, k);
      if Read(disk, r.1).Found? then |ReadMany(disk, 0, n).0| > |r.0| else ReadMany(disk, 0, n) == r
  {
    hide Read;
    if n > k + 1 { ReadOn(disk, k, n - 1); }
  }

  /** Claims and writes of some events, one after the other, as far as there is room. */
  function WriteMany(disk: Disk, current: Iterator, events: seq<Event>): Disk
    requires WellFormed(disk)
    decreases |events|
  {
    if events == [] then disk
    else
      var c := Place(current, TotalSize(events[0]));
      if c.OutOfRange? || Position(c.base) + TotalSize(events[0]) >= LOG_FILE_SIZE then disk
      else WriteMany(Written(disk, c.base, events[0]), c.end, events[1..])
  }

  lemma {:induction false} WriteManyBehind(disk: Disk, current: Iterator, events: seq<Event>, f: nat, p: nat)
    requires WellFormed(disk) && FileStart(f + 1) <= current && p < LOG_FILE_SIZE
    ensures ByteAt(WriteMany(disk, current, events), f, p) == ByteAt(disk, f, p)
    decreases |events|
  {
    if events != [] {
      var size := TotalSize(events[0]);
      var c := Place(current, size);
      if c.Claimed? && Position(c.base) + size < LOG_FILE_SIZE {
        PlaceFits(current, size);
        WrittenBytes(disk, c.base, events[0], f, p);
        WriteManyBehind(Written(disk, c.base, events[0]), c.end, events[1..], f, p);
      }
    }
  }

  lemma PlaceWholeFile(current: Iterator)
    requires FileId(current) + 1 < LAST_FILE
    ensures Place(current, LOG_FILE_SIZE) == Claimed(FileStart(FileId(current) + 1), FileStart(FileId(current) + 2))
    ensures Position(FileStart(FileId(current) + 1)) == 0
  {
  }

  /** What one event as large as a file does: it is claimed, its write is refused, and a reader
      that stands at the end of the log before it never gets past it, whatever is claimed and
      written afterwards. */
  lemma FileSizedEventBlocksReaders(disk: Disk, current: Iterator, size: nat, later: seq<Event>)
    requires size == LOG_FILE_SIZE && WellFormed(disk) && FileId(current) + 1 < LAST_FILE
    requires ByteAt(disk, FileId(current), Position(current)) == 0 && ByteAt(disk, FileId(current) + 1, 0) == 0
    ensures var c := Place(current, size);
      c.Claimed? && !(Position(c.base) + size < LOG_FILE_SIZE) &&
        Read(WriteMany(disk, c.end, later), current) == NotFound
  {
    var f := FileId(current);
    var c := Place(current, size);
    PlaceWholeFile(current);
    var after := WriteMany(disk, c.end, later);
    WriteManyBehind(disk, c.end, later, f, Position(current));
    WriteManyBehind(disk, c.end, later, f + 1, 0);
    NothingToRead(after, current);
  }

  lemma NothingToRead(disk: Disk, i: Iterator)
    requires FileId(i) + 1 < LAST_FILE && ByteAt(disk, FileId(i), Position(i)) == 0 &&
        ByteAt(disk, FileId(i) + 1, 0) == 0
    ensures Read(disk, i) == NotFound
  {
    ZeroIsNoEvent(FileOf(disk, FileId(i)), Position(i));
    ZeroIsNoEvent(FileOf(disk, FileId(i) + 1), 0);
  }

  /** In the last file the reader's file number wraps around: where nothing stands at its
      position, it finds the first event of the log again. */
  lemma LastFileWraps(disk: Disk, i: Iterator, first: Event)
    requires FileId(i) == LAST_FILE && ByteAt(disk, LAST_FILE, Position(i)) == 0
    requires WellSized(first) && Holds(disk, Grant(0, first))
    ensures Read(disk, i) == Found(first, TotalSize(first))
  {
    ZeroIsNoEvent(FileOf(disk, LAST_FILE), Position(i));
    EventTrip(disk[0], 0, first);
  }

  // ---- interleaved steps ----

  /** A call of `write`, between its atomic steps. */
  datatype Writer =
    | Idle
    | Loaded(event: Event, current: Iterator)     // has read the claim counter
    | Claiming(grant: nat)                        // has won it, and not copied everything yet

  datatype Updater = Resting | Seen(claim: Iterator)

  /** A call of `read`, between the places it looks at. */
  datatype Reader =
    | Standing(position: Iterator)                    // has not looked yet
    | Hopping(position: Iterator)                     // saw nothing there, has not looked in the next file
    | Seeing(position: Iterator, place: Iterator)     // saw a delimiter, has not read the event behind it

  datatype System = System(
    claims: seq<Iterator>,          // the values of the claim counter; the last one is current
    grants: seq<Grant>,
    copied: seq<set<nat>>,          // which bytes of each granted event are in the files
    disk: Disk,
    writers: map<nat, Writer>,
    head: Iterator,
    updaters: map<nat, Updater>,
    reader: Reader,
    got: seq<Event>)

  const START := System([0], [], [], map[], map[], 0, map[], Standing(0), [])

  function WriterOf(s: System, w: nat): Writer {
    if w in s.writers then s.writers[w] else Idle
  }

  function UpdaterOf(s: System, u: nat): Updater {
    if u in s.updaters then s.updaters[u] else Resting
  }

  /** A load may see any value the counter has had; a compare-and-exchange succeeds only on the
      current one, and may fail even then. The bytes of an event may be copied in any portions and
      any order; `write` copies the header first. */
  datatype Step =
    | LoadClaim(w: nat, event: Event, seen: nat)
    | ExchangeFails(w: nat, seen: nat)
    | ExchangeSucceeds(w: nat)
    | CopyBytes(w: nat, lo: nat, hi: nat)
    | WriteDone(w: nat)
    | SeeClaim(u: nat, seen: nat)
    | ExchangeHead(u: nat)
    | LookHere
    | LookAhead
    | TakeEvent

  function Current(s: System): Iterator
    requires s.claims != []
  {
    s.claims[|s.claims| - 1]
  }

  predicate Enabled(s: System, step: Step) {
    s.claims != [] && |s.copied| == |s.grants| &&
    match step
    case LoadClaim(w, e, seen) => WriterOf(s, w) == Idle && seen < |s.claims| && WellSized(e) &&
      TotalSize(e) < LOG_FILE_SIZE
    case ExchangeFails(w, seen) => WriterOf(s, w).Loaded? && seen < |s.claims|
    case ExchangeSucceeds(w) =>
      WriterOf(s, w).Loaded? && WriterOf(s, w).current == Current(s) &&
        Place(Current(s), TotalSize(WriterOf(s, w).event)).Claimed?
    case CopyBytes(w, lo, hi) =>
      WriterOf(s, w).Claiming? && WriterOf(s, w).grant < |s.grants| && WellFormed(s.disk) &&
      var g := s.grants[WriterOf(s, w).grant];
      lo <= hi <= TotalSize(g.event) && Position(g.base) + TotalSize(g.event) < LOG_FILE_SIZE
    case WriteDone(w) =>
      WriterOf(s, w).Claiming? && WriterOf(s, w).grant < |s.grants| &&
        s.copied[WriterOf(s, w).grant] == Offsets(s.grants[WriterOf(s, w).grant].event)
    case SeeClaim(u, seen) => UpdaterOf(s, u) == Resting && seen < |s.claims|
    case ExchangeHead(u) => UpdaterOf(s, u).Seen?
    case LookHere => s.reader.Standing?
    case LookAhead => s.reader.Hopping?
    case TakeEvent => s.reader.Seeing?
  }

  function Next(s: System, step: Step): System
    requires Enabled(s, step)
  {
    match step
    case LoadClaim(w, e, seen) => s.(writers := s.writers[w := Loaded(e, s.claims[seen])])
    case ExchangeFails(w, seen) => s.(writers := s.writers[w := Loaded(WriterOf(s, w).event, s.claims[seen])])
    case ExchangeSucceeds(w) =>
      var e := WriterOf(s, w).event;
      var c := Place(Current(s), TotalSize(e));
      s.(claims := s.claims + [c.end], grants := s.grants + [Grant(c.base, e)], copied := s.copied + [{}],
         writers := s.writers[w := Claiming(|s.grants|)])
    case CopyBytes(w, lo, hi) =>
      var k := WriterOf(s, w).grant;
      s.(disk := CopyPart(s.disk, s.grants[k], lo, hi), copied := Adding(s.copied, k, lo, hi))
    case WriteDone(w) => s.(writers := s.writers[w := Idle])
    case SeeClaim(u, seen) => s.(updaters := s.updaters[u := Seen(s.claims[seen])])
    case ExchangeHead(u) => s.(head := UpdaterOf(s, u).claim, updaters := s.updaters[u := Resting])
    case LookHere => s.(reader := AfterLookHere(s.disk, s.reader.position))
    case LookAhead => s.(reader := AfterLookAhead(s.disk, s.reader.position))
    case TakeEvent =>
      var e := Decode(FileOf(s.disk, FileId(s.reader.place)), Position(s.reader.place));
      s.(reader := Standing(s.reader.place + TotalSize(e)), got := s.got + [e])
  }

  function AfterLookHere(disk: Disk, i: Iterator): Reader {
    if !InRange(i) then Standing(i)
    else if IsEvent(FileOf(disk, FileId(i)), Position(i)) then Seeing(i, i)
    else Hopping(i)
  }

  function AfterLookAhead(disk: Disk, i: Iterator): Reader {
    var f := NextFile(FileId(i));
    if IsEvent(FileOf(disk, f), 0) then Seeing(i, FileStart(f)) else Standing(i)
  }

  /** The reader's part of a read that nothing interrupts. */
  function ReadAlone(s: System): System
    requires Enabled(s, LookHere)
  {
    var here := Next(s, LookHere);
    var ahead := if here.reader.Hopping? then Next(here, LookAhead) else here;
    if ahead.reader.Seeing? then Next(ahead, TakeEvent) else ahead
  }

  /** It does what one read of the log does. */
  lemma UninterruptedRead(s: System)
    requires Enabled(s, LookHere)
    ensures match Read(s.disk, s.reader.position)
      case Found(e, next) => ReadAlone(s) == s.(reader := Standing(next), got := s.got + [e])
      case _ => ReadAlone(s) == s
  {
    hide IsEvent, Decode;
    assert forall f: nat :: FileId(FileStart(f)) == f && Position(FileStart(f)) == 0;
  }

  predicate Steps(steps: seq<Step>)
    decreases |steps|, 0
  {
    steps == [] || (Steps(steps[..|steps| - 1]) && Enabled(After(steps[..|steps| - 1]), steps[|steps| - 1]))
  }

  /** The system after some steps from the start. */
  function After(steps: seq<Step>): System
    requires Steps(steps)
    decreases |steps|, 1
  {
    if steps == [] then START else Next(After(steps[..|steps| - 1]), steps[|steps| - 1])
  }

  // ---- what every step keeps ----

  ghost predicate IsWriting(s: System, k: nat) {
    exists w :: w in s.writers && s.writers[w] == Claiming(k)
  }

  ghost predicate WritersFit(s: System) {
    (forall w :: w in s.writers && s.writers[w].Loaded? ==>
      WellSized(s.writers[w].event) && TotalSize(s.writers[w].event) < LOG_FILE_SIZE) &&
    (forall w :: w in s.writers && s.writers[w].Claiming? ==> s.writers[w].grant < |s.grants|) &&
    (forall w, v :: w in s.writers && v in s.writers && w != v && s.writers[w].Claiming? && s.writers[v].Claiming? ==>
      s.writers[w].grant != s.writers[v].grant)
  }

  /** Only of events that are still being written any byte is missing. */
  ghost predicate NoneLost(s: System) {
    |s.copied| == |s.grants| &&
    forall k :: 0 <= k < |s.grants| ==> s.copied[k] == Offsets(s.grants[k].event) || IsWriting(s, k)
  }

  ghost predicate HeadFits(s: System) {
    s.head in s.claims && forall u :: u in s.updaters && s.updaters[u].Seen? ==> s.updaters[u].claim in s.claims
  }

  ghost predicate Consistent(s: System) {
    Layout(s.claims, s.grants) && Shows(s.disk, s.grants, s.copied) && WritersFit(s) && NoneLost(s) && HeadFits(s)
  }

  lemma LayoutGrows(claims: seq<Iterator>, grants: seq<Grant>, end: Iterator, g: Grant)
    requires Layout(claims, grants) && Granted(claims[|grants|], end, g)
    ensures Layout(claims + [end], grants + [g])
  {
  }

  /** A writer's state changes: it had no grant, or has one that stays its own. */
  lemma NoneLostKeeps(s: System, t: System, w: nat)
    requires NoneLost(s) && t == s.(writers := s.writers[w := WriterOf(t, w)])
    requires WriterOf(s, w).Claiming? ==>
      WriterOf(s, w).grant < |s.grants| &&
      s.copied[WriterOf(s, w).grant] == Offsets(s.grants[WriterOf(s, w).grant].event)
    ensures NoneLost(t)
  {
    forall k | 0 <= k < |t.grants| ensures t.copied[k] == Offsets(t.grants[k].event) || IsWriting(t, k) {
      if v :| v in s.writers && s.writers[v] == Claiming(k) && v != w { assert t.writers[v] == Claiming(k); }
    }
  }

  lemma GrantKeeps(s: System, w: nat)
    requires Consistent(s) && Enabled(s, ExchangeSucceeds(w))
    ensures Consistent(Next(s, ExchangeSucceeds(w)))
  {
    hide Shows, CopyPart;
    var e := WriterOf(s, w).event;
    var c := Place(Current(s), TotalSize(e));
    LayoutGrows(s.claims, s.grants, c.end, Grant(c.base, e));
    ShowsGrows(s.disk, s.grants, s.copied, Grant(c.base, e));
    var t := Next(s, ExchangeSucceeds(w));
    assert forall x :: x in s.claims ==> x in t.claims;
    assert WritersFit(t) && HeadFits(t);
    assert t.writers[w] == Claiming(|s.grants|);
    forall k | 0 <= k < |t.grants| ensures t.copied[k] == Offsets(t.grants[k].event) || IsWriting(t, k) {
      if k < |s.grants| && !(s.copied[k] == Offsets(s.grants[k].event)) {
        var v :| v in s.writers && s.writers[v] == Claiming(k);
        assert t.writers[v] == Claiming(k);
      }
    }
  }

  lemma CopyKeeps(s: System, w: nat, lo: nat, hi: nat)
    requires Consistent(s) && Enabled(s, CopyBytes(w, lo, hi))
    ensures Consistent(Next(s, CopyBytes(w, lo, hi)))
  {
    hide Shows, CopyPart, Layout;
    var k := WriterOf(s, w).grant;
    CopyShows(s.disk, s.claims, s.grants, s.copied, k, lo, hi);
    var t := Next(s, CopyBytes(w, lo, hi));
    assert s.writers[w] == Claiming(k);
    forall j | 0 <= j < |t.grants| ensures t.copied[j] == Offsets(t.grants[j].event) || IsWriting(t, j) {
      if j != k && !(s.copied[j] == Offsets(s.grants[j].event)) {
        var v :| v in s.writers && s.writers[v] == Claiming(j);
        assert t.writers[v] == Claiming(j);
      }
    }
  }

  lemma WriterKeeps(s: System, step: Step, w: nat)
    requires Consistent(s) && Enabled(s, step)
    requires step == WriteDone(w) ||
      (step.LoadClaim? && step.w == w) || (step.ExchangeFails? && step.w == w)
    ensures Consistent(Next(s, step))
  {
    hide Shows, CopyPart, Layout, Offsets;
    NoneLostKeeps(s, Next(s, step), w);
    assert WritersFit(Next(s, step));
  }

  lemma StepKeeps(s: System, step: Step)
    requires Consistent(s) && Enabled(s, step)
    ensures Consistent(Next(s, step))
  {
    hide Shows, CopyPart, Layout, Offsets;
    var t := Next(s, step);
    match step
    case ExchangeSucceeds(w) => GrantKeeps(s, w);
    case CopyBytes(w, lo, hi) => CopyKeeps(s, w, lo, hi);
    case LoadClaim(w, _, _) => WriterKeeps(s, step, w);
    case ExchangeFails(w, _) => WriterKeeps(s, step, w);
    case WriteDone(w) => WriterKeeps(s, step, w);
    case _ =>
      assert forall k: nat :: IsWriting(t, k) <==> IsWriting(s, k);
      assert WritersFit(t) && HeadFits(t);
  }

  /** In every reachable state the claims are laid out safely, the files hold exactly the bytes
      copied so far, no two writers have the same grant, and every event is whole or still being
      written. */
  lemma {:induction false} AlwaysConsistent(steps: seq<Step>)
    requires Steps(steps)
    ensures Consistent(After(steps))
  {
    if steps != [] {
      AlwaysConsistent(steps[..|steps| - 1]);
      StepKeeps(After(steps[..|steps| - 1]), steps[|steps| - 1]);
    }
  }

  /** At any moment of a run at which nobody is writing, the log reads back whole. */
  lemma RunReadsBack(steps: seq<Step>, n: nat)
    requires Steps(steps)
    requires var s := After(steps); n >= |s.grants| && forall k :: 0 <= k < |s.grants| ==> !IsWriting(s, k)
    ensures var s := After(steps);
      && ReadMany(s.disk, 0, |s.grants|).0 == Events(s.grants)
      && (n > |s.grants| ==> (ReadMany(s.disk, 0, n).0 == Events(s.grants) <==> Roomy(s.claims)))
  {
    hide Read, Roomy, Encode, Shows;
    AlwaysConsistent(steps);
    var s := After(steps);
    forall k | 0 <= k < |s.grants| ensures Complete(s.grants[k].event, s.copied[k]) { }
    ShowsContains(s.disk, s.claims, s.grants, s.copied);
    var all := All(s.grants);
    ReadBackTheorem(s.disk, s.claims, s.grants, all, |s.grants|);
    ReadBackTheorem(s.disk, s.claims, s.grants, all, n);
    assert s.grants[..|s.grants|] == s.grants;
    EndExact(s.disk, s.claims, s.grants, all);
    if n > |s.grants| { ReadOn(s.disk, |s.grants|, n); }
  }

  /** The head never runs ahead of the claims, and always is a value the claim counter has had. */
  lemma HeadTheorem(steps: seq<Step>)
    requires Steps(steps)
    ensures var s := After(steps); s.claims != [] && s.head in s.claims && s.head <= Current(s)
  {
    AlwaysConsistent(steps);
    HeadBehind(After(steps));
  }

  lemma HeadBehind(s: System)
    requires Consistent(s)
    ensures s.claims != [] && s.head in s.claims && s.head <= Current(s)
  {
    var i :| 0 <= i < |s.claims| && s.claims[i] == s.head;
    ClaimsIncrease(s.claims, s.grants, i, |s.claims| - 1);
  }

  /** An update that nothing interrupts brings the head up to the claims. The head falls back exactly when
      an update exchanges it for a value it saw before another update had moved the head past it. */
  lemma HeadExact(steps: seq<Step>, u: nat, step: Step)
    requires Steps(steps) && Enabled(After(steps), step)
    ensures var s := After(steps);
      UpdaterOf(s, u).Resting? ==>
        var seen := Next(s, SeeClaim(u, |s.claims| - 1));
        Enabled(seen, ExchangeHead(u)) && Next(seen, ExchangeHead(u)).head == Current(s)
    ensures var s := After(steps);
      Next(s, step).head < s.head <==> step.ExchangeHead? && UpdaterOf(s, step.u).claim < s.head
    ensures var s := After(steps);
      Next(s, step).head != s.head ==> step.ExchangeHead? && Next(s, step).head == UpdaterOf(s, step.u).claim
  {
    AlwaysConsistent(steps);
  }

  /** Two updates that overlap: the one that looked first exchanges last, and the head is at the start again. */
  lemma HeadFallsBack(e: Event)
    requires WellSized(e) && TotalSize(e) < LOG_FILE_SIZE
    ensures var run := [SeeClaim(0, 0), LoadClaim(0, e, 0), ExchangeSucceeds(0), SeeClaim(1, 1), ExchangeHead(1)];
      Steps(run) && After(run).head == TotalSize(e) && Steps(run + [ExchangeHead(0)]) &&
      After(run + [ExchangeHead(0)]).head == 0
  {
    var run := [SeeClaim(0, 0), LoadClaim(0, e, 0), ExchangeSucceeds(0), SeeClaim(1, 1), ExchangeHead(1)];
    OneMore([], run[0]);
    assert [] + [run[0]] == run[..1];
    OneMore(run[..1], run[1]);
    assert run[..1] + [run[1]] == run[..2];
    OneMore(run[..2], run[2]);
    assert run[..2] + [run[2]] == run[..3];
    OneMore(run[..3], run[3]);
    assert run[..3] + [run[3]] == run[..4];
    OneMore(run[..4], run[4]);
    assert run[..4] + [run[4]] == run;
    OneMore(run, ExchangeHead(0));
  }

  /** A writer that has won a claim can always copy any part of its event: there is room. */
  lemma WriteNeverRefused(steps: seq<Step>, w: nat)
    requires Steps(steps) && WriterOf(After(steps), w).Claiming?
    ensures var s := After(steps); var k := WriterOf(s, w).grant;
      k < |s.grants| &&
      forall lo: nat, hi: nat :: lo <= hi <= TotalSize(s.grants[k].event) ==> Enabled(s, CopyBytes(w, lo, hi))
  {
    AlwaysConsistent(steps);
    var s := After(steps);
    GrantedFits(s.claims, s.grants, s.writers[w].grant);
  }

  // ---- what a reader gets over a run ----

  predicate Increasing(ks: seq<nat>) {
    forall i, j :: 0 <= i < j < |ks| ==> ks[i] < ks[j]
  }

  /** The grant the reader would get next. */
  function NextOf(ks: seq<nat>): nat {
    if ks == [] then 0 else ks[|ks| - 1] + 1
  }

  /** The reader has got the event of this grant as it was written. */
  predicate Got(s: System, e: Event, k: nat) {
    k < |s.grants| && k < |s.copied| && e == s.grants[k].event && Complete(e, s.copied[k])
  }

  /** The delimiter the reader has seen is that of this grant. */
  predicate Sees(s: System, place: Iterator, m: nat) {
    m < |s.grants| && m < |s.copied| && s.grants[m].base == place && Visible(s.copied[m])
  }

  /** The reader has got the events of the grants `ks`, in that order, and stands behind the last;
      what it sees, if anything, is an event claimed later. */
  ghost predicate Follows(s: System, ks: seq<nat>) {
    |ks| == |s.got| && Increasing(ks) && NextOf(ks) < |s.claims| && s.reader.position == s.claims[NextOf(ks)] &&
    (forall i :: 0 <= i < |ks| ==> Got(s, s.got[i], ks[i])) &&
    (s.reader.Seeing? ==> exists m: nat :: NextOf(ks) <= m && Sees(s, s.reader.place, m))
  }

  ghost predicate Followed(s: System) {
    exists ks :: Follows(s, ks)
  }

  /** The reader is about to take an event that has been copied only in part: its delimiter was
      there, and some byte that is not zero is missing. */
  ghost predicate Tears(s: System) {
    s.reader.Seeing? && exists m: nat :: Sees(s, s.reader.place, m) && !Complete(s.grants[m].event, s.copied[m])
  }

  /** The reader's 32-bit file number is about to wrap around: it saw nothing at its position in the
      last file, and the first event is there. */
  predicate Wraps(s: System) {
    s.reader.Hopping? && FileId(s.reader.position) == LAST_FILE && IsEvent(FileOf(s.disk, 0), 0)
  }

  // ---- one step of the reader ----

  /** Where a reader sees a delimiter, a copied byte stands. */
  lemma EventCovered(s: System, f: nat, p: nat) returns (m: nat)
    requires Consistent(s) && IsEvent(FileOf(s.disk, f), p)
    ensures m < |s.grants| && Covers(s.grants[m], f, p)
  {
    hide IsEvent, Layout, HasCopied;
    if ByteAt(s.disk, f, p) == 0 { ZeroIsNoEvent(FileOf(s.disk, f), p); }
    m :| 0 <= m < |s.grants| && m < |s.copied| && Reaches(s.grants[m], s.copied[m], f, p);
  }

  /** What is seen at the end of the `k`-th claim is the event claimed next. */
  lemma SeenAt(s: System, k: nat)
    requires Consistent(s) && k < |s.claims| && IsEvent(FileOf(s.disk, FileId(s.claims[k])), Position(s.claims[k]))
    ensures Sees(s, s.claims[k], k)
  {
    hide IsEvent, Shows, HeadFits, Visible;
    var m := EventCovered(s, FileId(s.claims[k]), Position(s.claims[k]));
    CoversClaim(s.claims, s.grants, k, m);
    VisibleExact(s.disk, s.claims, s.grants, s.copied, k);
  }

  /** What is seen at the start of the next file was not claimed before. */
  lemma SeenAhead(s: System, k: nat) returns (m: nat)
    requires Consistent(s) && k < |s.claims| && IsEvent(FileOf(s.disk, FileId(s.claims[k]) + 1), 0)
    ensures k <= m && Sees(s, FileStart(FileId(s.claims[k]) + 1), m)
    ensures k < |s.grants| && s.grants[k].base == s.grants[m].base ==> m == k
  {
    hide IsEvent, Shows, HeadFits, Visible;
    m := EventCovered(s, FileId(s.claims[k]) + 1, 0);
    CoversStart(s.claims, s.grants, k, m);
    VisibleExact(s.disk, s.claims, s.grants, s.copied, m);
  }

  lemma SeesOne(s: System, place: Iterator, m: nat, n: nat)
    requires Consistent(s) && m < |s.grants| && n < |s.grants|
    requires s.grants[m].base == place == s.grants[n].base
    ensures m == n
  {
    if m < n { ClaimSafety(s.claims, s.grants, m, n); }
    if n < m { ClaimSafety(s.claims, s.grants, n, m); }
  }

  lemma LookHereKeeps(s: System, ks: seq<nat>)
    requires Consistent(s) && Follows(s, ks) && s.reader.Standing?
    ensures Enabled(s, LookHere) && Follows(Next(s, LookHere), ks)
  {
    hide IsEvent, Shows, HeadFits, Layout, Complete, Visible;
    var i, k := s.reader.position, NextOf(ks);
    var t := Next(s, LookHere);
    assert forall m: nat :: Sees(t, i, m) <==> Sees(s, i, m);
    assert forall e, m: nat :: Got(s, e, m) ==> Got(t, e, m);
    if t.reader.Seeing? { SeenAt(s, k); }
  }

  /** Looking in the next file keeps the reader in order exactly when it does not wrap. */
  lemma LookAheadExact(s: System, ks: seq<nat>)
    requires Consistent(s) && Follows(s, ks) && s.reader.Hopping?
    ensures Enabled(s, LookAhead)
    ensures !Wraps(s) ==> Follows(Next(s, LookAhead), ks)
    ensures Wraps(s) ==> !Followed(Next(s, LookAhead))
  {
    hide IsEvent, Shows, HeadFits, Layout, Complete, Visible;
    assert Enabled(s, LookAhead) by { LayoutCounts(s); }
    var t := Next(s, LookAhead);
    if Wraps(s) {
      forall more ensures !Follows(t, more) { NotFirstAgain(s, t, more); }
    } else if t.reader.Seeing? {
      InLastFile(s, NextOf(ks));
      var m := SeenAhead(s, NextOf(ks));
      assert Sees(t, t.reader.place, m);
      assert forall e, m: nat :: Got(s, e, m) ==> Got(t, e, m);
    } else {
      assert forall e, m: nat :: Got(s, e, m) ==> Got(t, e, m);
    }
  }

  lemma LayoutCounts(s: System)
    requires Consistent(s)
    ensures |s.claims| == |s.grants| + 1 && |s.copied| == |s.grants| && s.claims[0] == 0
  {
  }

  /** The reader's file number is in range, and only in the last file does the next one wrap. */
  lemma InLastFile(s: System, k: nat)
    requires Consistent(s) && k < |s.claims|
    ensures NextFile(FileId(s.claims[k])) == if FileId(s.claims[k]) == LAST_FILE then 0 else FileId(s.claims[k]) + 1
  {
    hide Shows, HeadFits;
    ClaimsInRange(s.claims, s.grants, k);
  }

  /** A reader that has wrapped sees the first event, which was claimed before the reader's position. */
  lemma NotFirstAgain(s: System, t: System, more: seq<nat>)
    requires Consistent(s) && Wraps(s) && Enabled(s, LookAhead) && t == Next(s, LookAhead)
    ensures !Follows(t, more)
  {
    hide IsEvent, Shows, HeadFits, Complete, Visible;
    assert NextFile(LAST_FILE) == 0;
    if Follows(t, more) {
      var m: nat :| NextOf(more) <= m && Sees(t, t.reader.place, m);
      assert t.reader.place == 0 && t.claims == s.claims && t.grants == s.grants;
      GrantedFits(s.claims, s.grants, m);
      ClaimsIncrease(s.claims, s.grants, 0, m);
      ClaimsIncrease(s.claims, s.grants, NextOf(more), m);
    }
  }

  /** Taking an event keeps the reader in order exactly when it does not tear. */
  lemma TakeEventExact(s: System, ks: seq<nat>) returns (m: nat)
    requires Consistent(s) && Follows(s, ks) && s.reader.Seeing?
    ensures Enabled(s, TakeEvent) && NextOf(ks) <= m && Sees(s, s.reader.place, m)
    ensures !Tears(s) ==> Follows(Next(s, TakeEvent), ks + [m])
    ensures Tears(s) ==> !Followed(Next(s, TakeEvent))
  {
    hide IsEvent, Decode, Shows, HeadFits, Layout, Complete, Visible, Position, FileId;
    assert Enabled(s, TakeEvent) by { LayoutCounts(s); }
    m :| NextOf(ks) <= m && Sees(s, s.reader.place, m);
    var t := Next(s, TakeEvent);
    if Tears(s) {
      var n: nat :| Sees(s, s.reader.place, n) && !Complete(s.grants[n].event, s.copied[n]);
      forall more: seq<nat> ensures !Follows(t, more) { TornIsLost(s, t, more, n); }
    } else {
      TakeWhole(s, ks, m);
    }
  }

  lemma TakeWhole(s: System, ks: seq<nat>, m: nat)
    requires Consistent(s) && Follows(s, ks) && Enabled(s, TakeEvent) && NextOf(ks) <= m
    requires Sees(s, s.reader.place, m) && Complete(s.grants[m].event, s.copied[m])
    ensures Follows(Next(s, TakeEvent), ks + [m])
  {
    hide Shows, HeadFits, Layout, Complete, Visible, NoneLost, WritersFit;
    TakeReads(s, m);
    GotMore(s, Next(s, TakeEvent), ks, m);
  }

  lemma TakeReads(s: System, m: nat)
    requires Consistent(s) && Enabled(s, TakeEvent) && Sees(s, s.reader.place, m)
    requires Complete(s.grants[m].event, s.copied[m])
    ensures m + 1 < |s.claims|
    ensures Next(s, TakeEvent) == s.(reader := Standing(s.claims[m + 1]), got := s.got + [s.grants[m].event])
  {
    hide IsEvent, Decode, Shows, HeadFits, Complete, Visible, Position, FileId, NoneLost, WritersFit;
    CompleteExact(s.disk, s.claims, s.grants, s.copied, m);
    GrantedFits(s.claims, s.grants, m);
  }

  lemma GotMore(s: System, t: System, ks: seq<nat>, m: nat)
    requires Follows(s, ks) && NextOf(ks) <= m < |s.grants| && Got(s, s.grants[m].event, m) && m + 1 < |s.claims|
    requires t == s.(reader := Standing(s.claims[m + 1]), got := s.got + [s.grants[m].event])
    ensures Follows(t, ks + [m])
  {
    hide Complete, Visible;
    var more := ks + [m];
    forall i | 0 <= i < |more| ensures Got(t, t.got[i], more[i]) {
      if i < |ks| { assert Got(s, s.got[i], ks[i]); }
    }
  }

  lemma TornIsLost(s: System, t: System, more: seq<nat>, n: nat)
    requires Consistent(s) && Enabled(s, TakeEvent) && Sees(s, s.reader.place, n) && t == Next(s, TakeEvent)
    requires !Complete(s.grants[n].event, s.copied[n])
    ensures !Follows(t, more)
  {
    hide IsEvent, Decode, Shows, HeadFits, Layout, Complete, Visible, Position, FileId;
    if Follows(t, more) {
      assert |more| == |t.got| == |s.got| + 1;
      var l, e := more[|more| - 1], t.got[|t.got| - 1];
      assert Got(t, e, l) && t.reader.position == s.claims[l + 1] == s.reader.place + TotalSize(e);
      LayoutCounts(s);
      GrantedFits(s.claims, s.grants, l);
      SeesOne(s, s.reader.place, l, n);
    }
  }

  /** Claims, grants and copies are only ever added to. */
  predicate Grows(s: System, t: System) {
    s.claims <= t.claims && s.grants <= t.grants && |s.copied| <= |t.copied| &&
    forall k :: 0 <= k < |s.copied| ==> s.copied[k] <= t.copied[k]
  }

  lemma OthersGrow(s: System, step: Step)
    requires Consistent(s) && Enabled(s, step) && !step.LookHere? && !step.LookAhead? && !step.TakeEvent?
    ensures Grows(s, Next(s, step)) && Next(s, step).reader == s.reader && Next(s, step).got == s.got
  {
    hide Shows, Layout, HeadFits, NoneLost, WritersFit, CopyPart;
  }

  lemma FollowsOn(s: System, t: System, ks: seq<nat>)
    requires Follows(s, ks) && Grows(s, t) && t.reader == s.reader && t.got == s.got
    ensures Follows(t, ks)
  {
    hide Visible, Complete;
    forall e, k: nat | Got(s, e, k) ensures Got(t, e, k) {
      CompleteGrows(e, s.copied[k], t.copied[k]);
    }
    if t.reader.Seeing? {
      var m: nat :| NextOf(ks) <= m && Sees(s, s.reader.place, m);
      VisibleGrows(s.copied[m], t.copied[m]);
      assert Sees(t, t.reader.place, m);
    }
  }

  lemma CompleteGrows(e: Event, offsets: set<nat>, more: set<nat>)
    requires Complete(e, offsets) && offsets <= more
    ensures Complete(e, more)
  {
    hide Encode;
  }

  lemma VisibleGrows(offsets: set<nat>, more: set<nat>)
    requires Visible(offsets) && offsets <= more
    ensures Visible(more)
  {
  }

  /** Any step keeps the reader in order, unless it wraps or tears; and those do not. */
  lemma StepExact(s: System, step: Step)
    requires Consistent(s) && Followed(s) && Enabled(s, step)
    ensures Followed(Next(s, step)) <==> !(step == LookAhead && Wraps(s)) && !(step == TakeEvent && Tears(s))
  {
    hide Consistent, Follows, Wraps, Tears, Grows;
    var ks :| Follows(s, ks);
    match step
    case LookHere => LookHereKeeps(s, ks);
    case LookAhead => LookAheadExact(s, ks);
    case TakeEvent => var m := TakeEventExact(s, ks);
    case _ =>
      OthersGrow(s, step);
      FollowsOn(s, Next(s, step), ks);
  }

  // ---- whole runs ----

  /** No step of the run wraps. */
  predicate NeverWraps(steps: seq<Step>)
    requires Steps(steps)
  {
    steps == [] ||
    (var n := |steps| - 1; NeverWraps(steps[..n]) && (steps[n] == LookAhead ==> !Wraps(After(steps[..n]))))
  }

  /** No step of the run tears. */
  ghost predicate NeverTears(steps: seq<Step>)
    requires Steps(steps)
  {
    steps == [] ||
    (var n := |steps| - 1; NeverTears(steps[..n]) && (steps[n] == TakeEvent ==> !Tears(After(steps[..n]))))
  }

  /** At every moment the reader has got events as they were written, each at most once, in the
      order they were claimed. */
  ghost predicate AlwaysFollowed(steps: seq<Step>)
    requires Steps(steps)
  {
    Followed(After(steps)) && (steps == [] || AlwaysFollowed(steps[..|steps| - 1]))
  }

  /** Whatever the interleaving, that is so exactly when the reader neither wraps nor tears. */
  lemma {:induction false} ReaderTheorem(steps: seq<Step>)
    requires Steps(steps)
    ensures AlwaysFollowed(steps) <==> NeverWraps(steps) && NeverTears(steps)
  {
    hide Followed, Wraps, Tears, Consistent, Enabled, Next;
    if steps == [] {
      StartFollowed();
    } else {
      var n := |steps| - 1;
      AlwaysConsistent(steps[..n]);
      ReaderTheorem(steps[..n]);
      if AlwaysFollowed(steps[..n]) {
        assert Followed(After(steps[..n]));
        StepExact(After(steps[..n]), steps[n]);
      }
    }
  }

  lemma StartFollowed()
    ensures Followed(START)
  {
    assert Follows(START, []);
  }

  lemma ClaimsOnlyGrow(s: System, step: Step)
    requires Consistent(s) && Enabled(s, step) && Roomy(Next(s, step).claims)
    ensures Roomy(s.claims)
  {
    hide Shows, HeadFits, NoneLost, WritersFit, CopyPart;
    var t := Next(s, step);
    StepKeeps(s, step);
    ClaimsIncrease(t.claims, t.grants, |s.claims| - 1, |t.claims| - 1);
  }

  /** It does not wrap while claims do not reach the last file. */
  lemma {:induction false} RoomyNeverWraps(steps: seq<Step>)
    requires Steps(steps) && Roomy(After(steps).claims) && NeverTears(steps)
    ensures NeverWraps(steps)
  {
    hide Tears, Consistent, Enabled, Next;
    if steps != [] {
      var n := |steps| - 1;
      var s := After(steps[..n]);
      AlwaysConsistent(steps[..n]);
      ClaimsOnlyGrow(s, steps[n]);
      RoomyNeverWraps(steps[..n]);
      ReaderTheorem(steps[..n]);
      assert Followed(s);
      RoomyBehind(s);
    }
  }

  lemma RoomyBehind(s: System)
    requires Consistent(s) && Followed(s) && Roomy(s.claims)
    ensures !Wraps(s)
  {
    hide Shows, HeadFits, NoneLost, WritersFit;
    var ks :| Follows(s, ks);
    ClaimsIncrease(s.claims, s.grants, NextOf(ks), |s.claims| - 1);
  }

  /** An event can be seen only once it is complete. */
  predicate Published(s: System) {
    forall k :: 0 <= k < |s.grants| && k < |s.copied| && Visible(s.copied[k]) ==>
      Complete(s.grants[k].event, s.copied[k])
  }

  predicate AlwaysPublished(steps: seq<Step>)
    requires Steps(steps)
  {
    Published(After(steps)) && (steps == [] || AlwaysPublished(steps[..|steps| - 1]))
  }

  /** It does not tear where the delimiter becomes visible last, as where an event is copied at once. */
  lemma {:induction false} PublishedNeverTears(steps: seq<Step>)
    requires Steps(steps) && AlwaysPublished(steps)
    ensures NeverTears(steps)
  {
    hide Visible, Complete;
    if steps != [] {
      PublishedNeverTears(steps[..|steps| - 1]);
      assert Published(After(steps[..|steps| - 1]));
    }
  }

  // ---- losing no event ----

  /** Events become visible in the order of the claims. */
  predicate InOrder(s: System) {
    forall j, k :: 0 <= j < k < |s.copied| && Visible(s.copied[k]) ==> Visible(s.copied[j])
  }

  predicate InClaimOrder(steps: seq<Step>)
    requires Steps(steps)
  {
    InOrder(After(steps)) && (steps == [] || InClaimOrder(steps[..|steps| - 1]))
  }

  /** The reader has got the first claimed events, and sees at most the one claimed next. */
  predicate GotPrefix(s: System) {
    var n := |s.got|;
    s.got <= Events(s.grants) && n < |s.claims| && s.reader.position == s.claims[n] &&
    (s.reader.Seeing? ==> Sees(s, s.reader.place, n))
  }

  /** The reader is about to miss an event: what it did not see at its position has appeared there
      since, and so has an event in the next file, which it is going to see. */
  predicate Misses(s: System) {
    s.reader.Hopping? && IsEvent(FileOf(s.disk, FileId(s.reader.position)), Position(s.reader.position)) &&
    IsEvent(FileOf(s.disk, NextFile(FileId(s.reader.position))), 0)
  }

  lemma LookHerePrefix(s: System)
    requires Consistent(s) && GotPrefix(s) && Enabled(s, LookHere)
    ensures GotPrefix(Next(s, LookHere))
  {
    hide IsEvent, Shows, HeadFits, Layout, Visible;
    var t := Next(s, LookHere);
    if t.reader.Seeing? { SeenAt(s, |s.got|); }
  }

  lemma LookAheadPrefix(s: System)
    requires Consistent(s) && GotPrefix(s) && Enabled(s, LookAhead) && InOrder(s)
    ensures GotPrefix(Next(s, LookAhead)) <==> !Wraps(s) && !Misses(s)
  {
    hide IsEvent, Shows, HeadFits, Visible, NoneLost, WritersFit;
    var t, k := Next(s, LookAhead), |s.got|;
    var f := FileId(s.claims[k]);
    InLastFile(s, k);
    if t.reader.Seeing? {
      if f == LAST_FILE {
        if GotPrefix(t) { GrantedFits(s.claims, s.grants, k); }
      } else {
        var m := SeenAhead(s, k);
        GrantedFits(s.claims, s.grants, k);
        if Misses(s) {
          SeenAt(s, k);
        } else {
          assert Visible(s.copied[k]);
          VisibleExact(s.disk, s.claims, s.grants, s.copied, k);
        }
      }
    }
  }

  /** What is taken continues the prefix exactly when it is read as it was written. */
  lemma TakenPrefix(s: System)
    requires Consistent(s) && GotPrefix(s) && Enabled(s, TakeEvent)
    ensures GotPrefix(Next(s, TakeEvent)) <==> Readable(s.disk, s.grants[|s.got|])
  {
    hide IsEvent, Decode, Shows, HeadFits, NoneLost, WritersFit, Visible, Position, FileId;
    var t, k := Next(s, TakeEvent), |s.got|;
    VisibleExact(s.disk, s.claims, s.grants, s.copied, k);
    GrantedFits(s.claims, s.grants, k);
    if Readable(s.disk, s.grants[k]) {
      assert t.got == s.got + [Events(s.grants)[k]];
    }
    if GotPrefix(t) { TakenIsClaimed(s); }
  }

  lemma TakenIsClaimed(s: System)
    requires Enabled(s, TakeEvent) && |s.got| < |s.grants| && GotPrefix(Next(s, TakeEvent))
    ensures Decode(FileOf(s.disk, FileId(s.reader.place)), Position(s.reader.place)) == s.grants[|s.got|].event
  {
    hide IsEvent, Decode, Visible, Position, FileId;
    var t, k := Next(s, TakeEvent), |s.got|;
    assert t.got[k] == Events(t.grants)[k];
  }

  lemma TakeEventPrefix(s: System)
    requires Consistent(s) && GotPrefix(s) && Enabled(s, TakeEvent)
    ensures GotPrefix(Next(s, TakeEvent)) <==> !Tears(s)
  {
    hide Shows, HeadFits, Complete, Visible, NoneLost, WritersFit, Readable, Position, FileId, Decode;
    TakenPrefix(s);
    CompleteExact(s.disk, s.claims, s.grants, s.copied, |s.got|);
    if Tears(s) {
      var m: nat :| Sees(s, s.reader.place, m) && !Complete(s.grants[m].event, s.copied[m]);
      SeesOne(s, s.reader.place, m, |s.got|);
    }
  }

  lemma PrefixOn(s: System, t: System)
    requires GotPrefix(s) && Grows(s, t) && t.reader == s.reader && t.got == s.got
    ensures GotPrefix(t)
  {
    hide Visible;
    if t.reader.Seeing? { VisibleGrows(s.copied[|s.got|], t.copied[|s.got|]); }
  }

  /** Where events become visible in the order of the claims, a step keeps the reader from losing
      one exactly when it neither wraps, nor tears, nor misses one. */
  lemma PrefixStepExact(s: System, step: Step)
    requires Consistent(s) && GotPrefix(s) && InOrder(s) && Enabled(s, step)
    ensures GotPrefix(Next(s, step)) <==>
        !(step == LookAhead && (Wraps(s) || Misses(s))) && !(step == TakeEvent && Tears(s))
  {
    hide Consistent, GotPrefix, Wraps, Tears, Misses, Grows;
    match step
    case LookHere => LookHerePrefix(s);
    case LookAhead => LookAheadPrefix(s);
    case TakeEvent => TakeEventPrefix(s);
    case _ =>
      OthersGrow(s, step);
      PrefixOn(s, Next(s, step));
  }

  /** No step of the run misses an event. */
  predicate NeverMisses(steps: seq<Step>)
    requires Steps(steps)
  {
    steps == [] ||
    (var n := |steps| - 1; NeverMisses(steps[..n]) && (steps[n] == LookAhead ==> !Misses(After(steps[..n]))))
  }

  /** At every moment the reader has got exactly the first claimed events. */
  predicate AlwaysPrefix(steps: seq<Step>)
    requires Steps(steps)
  {
    GotPrefix(After(steps)) && (steps == [] || AlwaysPrefix(steps[..|steps| - 1]))
  }

  /** When events become visible in the order of the claims, the reader loses none exactly when it
      never wraps, tears or misses. */
  lemma {:induction false} PrefixTheorem(steps: seq<Step>)
    requires Steps(steps) && InClaimOrder(steps)
    ensures AlwaysPrefix(steps) <==> NeverWraps(steps) && NeverTears(steps) && NeverMisses(steps)
  {
    hide GotPrefix, Wraps, Tears, Misses, Consistent, Enabled, Next, InOrder;
    if steps == [] {
      assert GotPrefix(START) by { StartPrefix(); }
    } else {
      var n := |steps| - 1;
      AlwaysConsistent(steps[..n]);
      PrefixTheorem(steps[..n]);
      assert InOrder(After(steps[..n]));
      if AlwaysPrefix(steps[..n]) {
        assert GotPrefix(After(steps[..n]));
        PrefixStepExact(After(steps[..n]), steps[n]);
      }
    }
  }

  lemma StartPrefix()
    ensures GotPrefix(START)
  {
  }

  /** It misses none where every read looks in the next file at once. */
  lemma {:induction false} PairedNeverMisses(steps: seq<Step>)
    requires Steps(steps)
    requires forall n :: 0 <= n < |steps| && steps[n] == LookAhead ==> n > 0 && steps[n - 1] == LookHere
    ensures NeverMisses(steps)
  {
    hide IsEvent;
    if steps != [] {
      var n := |steps| - 1;
      var before := steps[..n];
      assert forall j :: 0 <= j < n ==> before[j] == steps[j];
      PairedNeverMisses(before);
      if steps[n] == LookAhead {
        assert before[n - 1] == LookHere;
        LookedIsNoMiss(After(before[..n - 1]));
      }
    }
  }

  lemma LookedIsNoMiss(s: System)
    requires Enabled(s, LookHere)
    ensures !Misses(Next(s, LookHere))
  {
    hide IsEvent;
  }

  // ---- runs that go wrong ----

  lemma {:induction false} OneMore(steps: seq<Step>, step: Step)
    requires Steps(steps) && Enabled(After(steps), step)
    ensures Steps(steps + [step]) && After(steps + [step]) == Next(After(steps), step)
  {
    hide Enabled, Next;
    assert (steps + [step])[..|steps|] == steps;
  }

  /** One writer claims `e` and has copied the first `n` bytes. */
  function CopyingRun(e: Event, n: nat): seq<Step> {
    [LoadClaim(0, e, 0), ExchangeSucceeds(0), CopyBytes(0, 0, n)]
  }

  lemma CopyingAfter(e: Event, n: nat)
    requires WellSized(e) && TotalSize(e) < LOG_FILE_SIZE && n <= TotalSize(e)
    ensures Steps(CopyingRun(e, n))
    ensures var s := After(CopyingRun(e, n)); Copying(s, e, n) && s.reader == Standing(0) && s.got == []
  {
    hide CopyPart, Stretch;
    var one, two, three := LoadClaim(0, e, 0), ExchangeSucceeds(0), CopyBytes(0, 0, n);
    OneMore([], one);
    OneMore([one], two);
    OneMore([one, two], three);
    assert [] + [one] == [one] && [one] + [two] == [one, two] && [one, two] + [three] == CopyingRun(e, n);
    assert {} + Stretch(0, n) == Stretch(0, n);
  }

  /** The event is claimed, and its first `n` bytes are copied. */
  predicate Copying(s: System, e: Event, n: nat) {
    s.claims == [0, TotalSize(e)] && s.grants == [Grant(0, e)] && s.copied == [Stretch(0, n)]
  }

  lemma TornLook(s: System, e: Event, n: nat, seen: Event)
    requires Consistent(s) && Copying(s, e, n) && s.reader == Standing(0)
    requires WellSized(seen) && LooksLike(e, Stretch(0, n), seen)
    ensures Readable(s.disk, Grant(0, seen))
    ensures Enabled(s, LookHere) && Next(s, LookHere) == s.(reader := Seeing(0, 0))
  {
    hide Shows, Layout, NoneLost, HeadFits, WritersFit, IsEvent, Decode, Encode, Stretch;
    SeenExact(s.disk, s.claims, s.grants, s.copied, 0, seen);
  }

  lemma TornTake(s: System, e: Event, n: nat, seen: Event)
    requires Copying(s, e, n) && s.reader == Seeing(0, 0) && s.got == [] && Readable(s.disk, Grant(0, seen))
    ensures Enabled(s, TakeEvent)
    ensures Next(s, TakeEvent) == s.(reader := Standing(TotalSize(seen)), got := [seen])
  {
    hide IsEvent, Decode, Stretch;
  }

  lemma TornNotFollowed(s: System, e: Event, n: nat, seen: Event)
    requires Copying(s, e, n) && s.got == [seen] && seen != e
    ensures !Followed(s)
  {
    hide Complete, Visible, Stretch;
    forall ks: seq<nat> ensures !Follows(s, ks) {
      assert |ks| == 1 ==> !Got(s, seen, ks[0]);
    }
  }

  /** A read in the middle of the copy takes what the bytes copied so far look like, and goes on behind that. */
  lemma TornRun(e: Event, n: nat, seen: Event)
    requires WellSized(e) && TotalSize(e) < LOG_FILE_SIZE && n <= TotalSize(e)
    requires WellSized(seen) && LooksLike(e, Stretch(0, n), seen)
    ensures var steps := CopyingRun(e, n) + [LookHere, TakeEvent];
      Steps(steps) && After(steps).got == [seen] && After(steps).reader == Standing(TotalSize(seen)) &&
      (seen != e ==> !Followed(After(steps)))
  {
    hide Consistent, Enabled, Next, LooksLike, Stretch, TotalSize, CopyingRun, Followed, Readable;
    var run := CopyingRun(e, n);
    CopyingAfter(e, n);
    AlwaysConsistent(run);
    TornLook(After(run), e, n, seen);
    OneMore(run, LookHere);
    TornTake(After(run + [LookHere]), e, n, seen);
    OneMore(run + [LookHere], TakeEvent);
    assert run + [LookHere] + [TakeEvent] == run + [LookHere, TakeEvent];
    if seen != e { TornNotFollowed(After(run + [LookHere, TakeEvent]), e, n, seen); }
  }

  /** With the header copied and nothing behind it, the reader gets an event of zeros, which nobody
      wrote unless it is all zeros itself. */
  lemma HeaderOnlyRun(e: Event)
    requires WellSized(e) && TotalSize(e) < LOG_FILE_SIZE
    ensures var steps := CopyingRun(e, HEADER_SIZE) + [LookHere, TakeEvent];
      var seen := Event(Zeros(|e.typeName|), e.timestamp, Zeros(|e.value|));
      Steps(steps) && After(steps).got == [seen] && (seen != e ==> !Followed(After(steps)))
  {
    HeaderLooks(e);
    TornRun(e, HEADER_SIZE, Event(Zeros(|e.typeName|), e.timestamp, Zeros(|e.value|)));
  }

  /** With only the delimiter copied, it gets an event of nothing, and is left inside the event, where
      no claim ends. */
  lemma DelimOnlyRun(e: Event)
    requires WellSized(e) && TotalSize(e) < LOG_FILE_SIZE && e != Event([], 0, [])
    ensures var steps := CopyingRun(e, 8) + [LookHere, TakeEvent];
      Steps(steps) && After(steps).got == [Event([], 0, [])] && After(steps).reader == Standing(HEADER_SIZE) &&
      !Followed(After(steps))
  {
    DelimLooks(e);
    TornRun(e, 8, Event([], 0, []));
  }

  /** Two writers whose events do not fit in one file, each copied whole, in the order of their
      claims, after the reader has looked at its position and before it looks in the next file. */
  function MissingRun(a: Event, b: Event): seq<Step> {
    [LoadClaim(0, a, 0), ExchangeSucceeds(0), LoadClaim(1, b, 1), ExchangeSucceeds(1), LookHere,
     CopyBytes(0, 0, TotalSize(a)), CopyBytes(1, 0, TotalSize(b)), LookAhead, TakeEvent]
  }

  lemma InOrderMore(steps: seq<Step>, n: nat)
    requires n < |steps| && Steps(steps[..n]) && InClaimOrder(steps[..n])
    requires Enabled(After(steps[..n]), steps[n]) && InOrder(Next(After(steps[..n]), steps[n]))
    ensures Steps(steps[..n + 1]) && After(steps[..n + 1]) == Next(After(steps[..n]), steps[n])
    ensures InClaimOrder(steps[..n + 1])
  {
    hide Enabled, Next, InOrder;
    OneMore(steps[..n], steps[n]);
    assert steps[..n] + [steps[n]] == steps[..n + 1];
    assert steps[..n + 1][..n] == steps[..n];
  }

  predicate TwoFiles(a: Event, b: Event) {
    WellSized(a) && WellSized(b) && TotalSize(a) < LOG_FILE_SIZE && TotalSize(b) < LOG_FILE_SIZE &&
    TotalSize(a) + TotalSize(b) >= LOG_FILE_SIZE
  }

  /** Both events are claimed, and some of their bytes are copied. */
  predicate BothClaimed(s: System, a: Event, b: Event, copied: seq<set<nat>>) {
    s.claims == [0, TotalSize(a), FileStart(1) + TotalSize(b)] &&
    s.grants == [Grant(0, a), Grant(FileStart(1), b)] && s.copied == copied &&
    s.writers == map[0 := Claiming(0), 1 := Claiming(1)] && s.got == []
  }

  lemma MissingClaims(a: Event, b: Event)
    requires TwoFiles(a, b)
    ensures Steps(MissingRun(a, b)[..2]) && InClaimOrder(MissingRun(a, b)[..2])
    ensures After(MissingRun(a, b)[..2]) ==
        START.(claims := [0, TotalSize(a)], grants := [Grant(0, a)], copied := [{}], writers := map[0 := Claiming(0)])
  {
    hide InClaimOrder;
    var run := MissingRun(a, b);
    assert InClaimOrder(run[..0]) by { NoneInOrder(); }
    InOrderMore(run, 0);
    InOrderMore(run, 1);
  }

  lemma NoneInOrder()
    ensures InClaimOrder([])
  {
  }

  lemma NothingVisible(s: System)
    requires forall k :: 0 <= k < |s.copied| ==> s.copied[k] == {}
    ensures InOrder(s)
  {
    assert 0 in Stretch(0, 4);
  }

  lemma SecondLoads(a: Event, b: Event)
    requires TwoFiles(a, b)
    ensures Steps(MissingRun(a, b)[..3]) && InClaimOrder(MissingRun(a, b)[..3])
    ensures After(MissingRun(a, b)[..3]) ==
        START.(claims := [0, TotalSize(a)], grants := [Grant(0, a)], copied := [{}],
               writers := map[0 := Claiming(0), 1 := Loaded(b, TotalSize(a))])
  {
    hide InClaimOrder, InOrder;
    var run := MissingRun(a, b);
    MissingClaims(a, b);
    NothingVisible(Next(After(run[..2]), run[2]));
    InOrderMore(run, 2);
  }

  lemma BothClaims(a: Event, b: Event)
    requires TwoFiles(a, b)
    ensures Steps(MissingRun(a, b)[..4]) && InClaimOrder(MissingRun(a, b)[..4])
    ensures var s := After(MissingRun(a, b)[..4]);
      BothClaimed(s, a, b, [{}, {}]) && s.disk == map[] && s.reader == Standing(0)
  {
    hide InClaimOrder, IsEvent, Decode, InOrder, CopyPart, Adding, AfterLookHere, AfterLookAhead;
    var run := MissingRun(a, b);
    SecondLoads(a, b);
    assert Place(TotalSize(a), TotalSize(b)) == Claimed(FileStart(1), FileStart(1) + TotalSize(b));
    NothingVisible(Next(After(run[..3]), run[3]));
    InOrderMore(run, 3);
  }

  /** Both have claimed, and the reader has seen nothing at its position. */
  lemma MissingStart(a: Event, b: Event)
    requires TwoFiles(a, b)
    ensures Steps(MissingRun(a, b)[..5]) && InClaimOrder(MissingRun(a, b)[..5])
    ensures var s := After(MissingRun(a, b)[..5]);
      BothClaimed(s, a, b, [{}, {}]) && s.disk == map[] && s.reader == Hopping(0)
  {
    hide InClaimOrder, IsEvent, InOrder;
    var run := MissingRun(a, b);
    BothClaims(a, b);
    ZeroIsNoEvent([], 0);
    NothingVisible(Next(After(run[..4]), run[4]));
    InOrderMore(run, 4);
  }

  lemma WholeIsComplete(e: Event)
    ensures {} + Stretch(0, TotalSize(e)) == Offsets(e) && Complete(e, Offsets(e)) && Visible(Offsets(e))
  {
    hide Encode;
    CompleteIsVisible(e, Offsets(e));
  }

  lemma CopyWhole(s: System, w: nat, e: Event)
    requires Consistent(s) && w < |s.grants| && s.grants[w].event == e && WriterOf(s, w) == Claiming(w)
    requires |s.copied| == |s.grants| && s.copied[w] == {}
    ensures Enabled(s, CopyBytes(w, 0, TotalSize(e)))
    ensures var t := Next(s, CopyBytes(w, 0, TotalSize(e)));
      t == s.(disk := t.disk, copied := s.copied[w := Offsets(e)])
  {
    hide Offsets, Stretch, CopyPart, HeadFits, WritersFit, NoneLost, Visible, Complete;
    GrantedFits(s.claims, s.grants, w);
    WholeIsComplete(e);
  }

  lemma FirstVisible(s: System)
    requires |s.copied| == 2 && Visible(s.copied[0])
    ensures InOrder(s)
  {
    hide Visible;
  }

  /** Both events are copied whole, one after the other. */
  lemma MissingCopies(a: Event, b: Event)
    requires TwoFiles(a, b)
    ensures Steps(MissingRun(a, b)[..7]) && InClaimOrder(MissingRun(a, b)[..7])
    ensures var s := After(MissingRun(a, b)[..7]);
      BothClaimed(s, a, b, [Offsets(a), Offsets(b)]) && s.reader == Hopping(0)
  {
    hide InClaimOrder, InOrder, Offsets, Visible, Consistent, Enabled, Next, TotalSize;
    var run := MissingRun(a, b);
    MissingStart(a, b);
    AlwaysConsistent(run[..5]);
    WholeIsComplete(a);
    CopyWhole(After(run[..5]), 0, a);
    FirstVisible(Next(After(run[..5]), run[5]));
    InOrderMore(run, 5);
    AlwaysConsistent(run[..6]);
    CopyWhole(After(run[..6]), 1, b);
    FirstVisible(Next(After(run[..6]), run[6]));
    InOrderMore(run, 6);
  }

  lemma SecondSeen(s: System, a: Event, b: Event)
    requires Consistent(s) && BothClaimed(s, a, b, [Offsets(a), Offsets(b)]) && s.reader == Hopping(0)
    ensures Enabled(s, LookAhead) && Next(s, LookAhead) == s.(reader := Seeing(0, FileStart(1)))
  {
    hide CopyPart, IsEvent, Decode, Shows, Layout, NoneLost, HeadFits, WritersFit, Offsets, Visible;
    assert FileId(FileStart(1)) == 1 && Position(FileStart(1)) == 0 && NextFile(0) == 1;
    VisibleExact(s.disk, s.claims, s.grants, s.copied, 1);
    WholeIsComplete(b);
  }

  lemma SecondTaken(s: System, a: Event, b: Event)
    requires Consistent(s) && BothClaimed(s, a, b, [Offsets(a), Offsets(b)]) && s.reader == Seeing(0, FileStart(1))
    ensures Enabled(s, TakeEvent) && Next(s, TakeEvent) == s.(reader := Standing(s.claims[2]), got := [b])
  {
    hide CopyPart, IsEvent, Decode, Shows, Layout, NoneLost, HeadFits, WritersFit, Offsets, Visible, Complete;
    WholeIsComplete(b);
    TakeReads(s, 1);
  }

  lemma SecondOnly(s: System, a: Event, b: Event)
    requires s.claims == [0, TotalSize(a), FileStart(1) + TotalSize(b)] && s.copied == [Offsets(a), Offsets(b)]
    requires s.grants == [Grant(0, a), Grant(FileStart(1), b)] && s.got == [b] && s.reader == Standing(s.claims[2])
    ensures Followed(s) && (a != b ==> !GotPrefix(s))
  {
    hide Offsets, Visible, Complete, FileStart;
    WholeIsComplete(b);
    assert Got(s, b, 1);
    assert Follows(s, [1]);
    if GotPrefix(s) { assert Events(s.grants)[0] == a; }
  }

  /** The first event is lost, although everything was copied whole and in order: the reader gets the second. */
  lemma LostEvent(a: Event, b: Event)
    requires TwoFiles(a, b)
    ensures Steps(MissingRun(a, b)) && InClaimOrder(MissingRun(a, b)) && Followed(After(MissingRun(a, b)))
    ensures var s := After(MissingRun(a, b));
      s.grants == [Grant(0, a), Grant(FileStart(1), b)] && s.got == [b] && (a != b ==> !GotPrefix(s))
  {
    hide InClaimOrder, InOrder, Offsets, Visible, Complete, Consistent, TotalSize, FileStart, Enabled, Next;
    var run := MissingRun(a, b);
    MissingCopies(a, b);
    WholeIsComplete(a);
    AlwaysConsistent(run[..7]);
    SecondSeen(After(run[..7]), a, b);
    FirstVisible(Next(After(run[..7]), run[7]));
    InOrderMore(run, 7);
    AlwaysConsistent(run[..8]);
    SecondTaken(After(run[..8]), a, b);
    FirstVisible(Next(After(run[..8]), run[8]));
    InOrderMore(run, 8);
    assert run[..9] == run;
    SecondOnly(After(run), a, b);
  }
}
