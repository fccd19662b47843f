/** Where events go in the log, and how a reader finds them: a sequence of files of fixed size,
    addressed by one iterator. */
module EventLogSpec {
  import opened EventCodec

  const LOG_FILE_SIZE: nat := 0x400_0000

  const LAST_FILE: nat := 0xFFFF_FFFF

  type Iterator = nat

  // ---- iterators ----

  function FileId(i: Iterator): nat { i / LOG_FILE_SIZE }

  function Position(i: Iterator): nat { i % LOG_FILE_SIZE }

  function FileStart(file: nat): Iterator { file * LOG_FILE_SIZE }

  /** A file number is a 32-bit index. */
  predicate InRange(i: Iterator) { FileId(i) <= LAST_FILE }

  // ---- claiming ----

  datatype Claimed = Claimed(base: Iterator, end: Iterator) | OutOfRange

  /** What one attempt to claim `size` bytes asks for when it has loaded `current`. */
  function Place(current: Iterator, size: nat): Claimed {
    var desired := current + size;
    if !InRange(desired) || !InRange(current) then OutOfRange
    else if FileId(desired) != FileId(current) then
      var base := FileStart(FileId(desired));
      Claimed(base, base + size)
    else Claimed(current, desired)
  }

  /** A claim smaller than a file lies strictly inside one file, and begins where the last one
      ended or where the next file begins. */
  lemma PlaceFits(current: Iterator, size: nat)
    requires 0 < size < LOG_FILE_SIZE && Place(current, size).Claimed?
    ensures var c := Place(current, size);
      c.end == c.base + size && current <= c.base && FileId(c.base) == FileId(c.end) &&
      Position(c.base) + size < LOG_FILE_SIZE && Position(c.end) == Position(c.base) + size &&
      (c.base == current || (c.base == FileStart(FileId(current) + 1) && Position(current) + size >= LOG_FILE_SIZE))
  {
  }

  /** Whether the write that follows a claim finds room depends on the size alone: exactly the
      events smaller than a file fit. An event as large as a file is claimed, and then refused. */
  lemma WriteFitsExactly(current: Iterator, size: nat)
    requires Place(current, size).Claimed?
    ensures Position(Place(current, size).base) + size < LOG_FILE_SIZE <==> size < LOG_FILE_SIZE
  {
    if 0 < size < LOG_FILE_SIZE { PlaceFits(current, size); }
  }

  /** There is room for a claim exactly while the end of it, counted from where the last one ended, lies in a
      file that a 32-bit number can name. */
  lemma OutOfRangeExact(current: Iterator, size: nat)
    ensures Place(current, size).Claimed? <==> current + size < 0x1_0000_0000 * LOG_FILE_SIZE
  {
  }

  // ---- the files ----

  type Disk = map<nat, seq<Byte>>

  /** A file that was never opened reads as an empty one: as zeros. */
  function FileOf(disk: Disk, file: nat): seq<Byte> {
    if file in disk then disk[file] else []
  }

  function ByteAt(disk: Disk, file: nat, at: nat): Byte {
    if at < |FileOf(disk, file)| then FileOf(disk, file)[at] else 0
  }

  function Overwrite(file: seq<Byte>, at: nat, bytes: seq<Byte>): (after: seq<Byte>)
    requires at + |bytes| <= |file|
    ensures |after| == |file|
  {
    file[..at] + bytes + file[at + |bytes|..]
  }

  function EmptyFile(): seq<Byte> {
    seq(LOG_FILE_SIZE, i => 0)
  }

  /** `getFile`: a file that does not exist is created full of zeros. */
  function Opened(disk: Disk, file: nat): Disk {
    if file in disk then disk else disk[file := EmptyFile()]
  }

  predicate WellFormed(disk: Disk) {
    forall f :: f in disk ==> |disk[f]| == LOG_FILE_SIZE
  }

  /** `File::write` at an iterator. */
  function Written(disk: Disk, base: Iterator, e: Event): Disk
    requires WellFormed(disk) && Position(base) + TotalSize(e) < LOG_FILE_SIZE
  {
    var f := FileId(base);
    Opened(disk, f)[f := Overwrite(Opened(disk, f)[f], Position(base), Encode(e))]
  }

  // ---- reading ----

  datatype Reading = Found(event: Event, next: Iterator) | NotFound | ReadOutOfRange

  /** The file a reader tries after `file`: the index is incremented in 32 bits. */
  function NextFile(file: nat): nat {
    (file + 1) % (LAST_FILE + 1)
  }

  function Read(disk: Disk, i: Iterator): Reading {
    if !InRange(i) then ReadOutOfRange
    else if IsEvent(FileOf(disk, FileId(i)), Position(i)) then
      var e := Decode(FileOf(disk, FileId(i)), Position(i));
      Found(e, i + TotalSize(e))
    else
      var f := NextFile(FileId(i));
      if IsEvent(FileOf(disk, f), 0) then
        var e := Decode(FileOf(disk, f), 0);
        Found(e, FileStart(f) + TotalSize(e))
      else NotFound
  }

  // ---- the layout of a log ----

  datatype Grant = Grant(base: Iterator, event: Event)

  /** The grants in the order their compare-and-exchange succeeded, and the values the claim
      counter has had. */
  predicate Layout(claims: seq<Iterator>, grants: seq<Grant>) {
    |claims| == |grants| + 1 && claims[0] == 0 &&
    forall i :: 0 <= i < |grants| ==> Granted(claims[i], claims[i + 1], grants[i])
  }

  predicate Granted(before: Iterator, after: Iterator, g: Grant) {
    WellSized(g.event) && TotalSize(g.event) < LOG_FILE_SIZE &&
      Place(before, TotalSize(g.event)) == Claimed(g.base, after)
  }

  /** Each claim ends after it begins, inside one file, and begins no earlier than the last one ended. */
  lemma GrantedFits(claims: seq<Iterator>, grants: seq<Grant>, i: nat)
    requires Layout(claims, grants) && i < |grants|
    ensures claims[i] <= grants[i].base < claims[i + 1] == grants[i].base + TotalSize(grants[i].event)
    ensures FileId(grants[i].base) == FileId(claims[i + 1])
    ensures Position(grants[i].base) + TotalSize(grants[i].event) < LOG_FILE_SIZE
    ensures grants[i].base == claims[i] || grants[i].base == FileStart(FileId(claims[i]) + 1)
  {
    assert Granted(claims[i], claims[i + 1], grants[i]);
    PlaceFits(claims[i], TotalSize(grants[i].event));
  }

  lemma {:induction false} ClaimsIncrease(claims: seq<Iterator>, grants: seq<Grant>, i: nat, j: nat)
    requires Layout(claims, grants) && i <= j < |claims|
    ensures claims[i] <= claims[j] && (i < j ==> claims[i] < claims[j])
    decreases j
  {
    if i < j {
      ClaimsIncrease(claims, grants, i, j - 1);
      GrantedFits(claims, grants, j - 1);
    }
  }

  /** Claim safety: the granted ranges follow one another in the order they were granted, without
      overlap, each inside one file with room to spare; and what lies between two of them runs
      from the end of one to the start of the next file, or is nothing. */
  lemma ClaimSafety(claims: seq<Iterator>, grants: seq<Grant>, i: nat, j: nat)
    requires Layout(claims, grants) && i < j < |grants|
    ensures var a, b := grants[i], grants[j];
      a.base + TotalSize(a.event) <= b.base &&
      FileId(a.base) == FileId(a.base + TotalSize(a.event)) && Position(a.base) + TotalSize(a.event) < LOG_FILE_SIZE &&
      (j == i + 1 ==> b.base == a.base + TotalSize(a.event) || b.base == FileStart(FileId(a.base) + 1))
  {
    GrantedFits(claims, grants, i);
    GrantedFits(claims, grants, j);
    ClaimsIncrease(claims, grants, i + 1, j);
  }

  // ---- what the files hold ----

  predicate Covers(g: Grant, file: nat, at: nat) {
    FileId(g.base) == file && Position(g.base) <= at < Position(g.base) + TotalSize(g.event)
  }

  predicate Holds(disk: Disk, g: Grant) {
    FileId(g.base) in disk && Position(g.base) + TotalSize(g.event) <= |disk[FileId(g.base)]| &&
    disk[FileId(g.base)][Position(g.base)..Position(g.base) + TotalSize(g.event)] == Encode(g.event)
  }

  /** The files hold the events written so far, and zeros everywhere else. */
  ghost predicate Contains(disk: Disk, grants: seq<Grant>, written: set<nat>) {
    WellFormed(disk) &&
    (forall k :: k in written ==> k < |grants| && Holds(disk, grants[k])) &&
    (forall f: nat, p: nat :: ByteAt(disk, f, p) == 0 ||
      exists k :: k in written && k < |grants| && Covers(grants[k], f, p))
  }

  lemma WrittenBytes(disk: Disk, base: Iterator, e: Event, f: nat, p: nat)
    requires WellFormed(disk) && Position(base) + TotalSize(e) < LOG_FILE_SIZE
    ensures WellFormed(Written(disk, base, e))
    ensures ByteAt(Written(disk, base, e), f, p) ==
        if Covers(Grant(base, e), f, p) then Encode(e)[p - Position(base)] else ByteAt(disk, f, p)
  {
    var g := FileId(base);
    var d := Opened(disk, g);
    if f == g && p < LOG_FILE_SIZE {
    }
  }

  predicate Apart(g: Grant, h: Grant) {
    g.base + TotalSize(g.event) <= h.base || h.base + TotalSize(h.event) <= g.base
  }

  lemma OverwriteSlices(file: seq<Byte>, at: nat, bytes: seq<Byte>, lo: nat, hi: nat)
    requires at + |bytes| <= |file| && lo <= hi <= |file| && (hi <= at || at + |bytes| <= lo)
    ensures Overwrite(file, at, bytes)[at..at + |bytes|] == bytes
    ensures Overwrite(file, at, bytes)[lo..hi] == file[lo..hi]
  {
  }

  /** Two grants in one file are apart in it. */
  lemma ApartInFile(claims: seq<Iterator>, grants: seq<Grant>, k: nat, m: nat)
    requires Layout(claims, grants) && k < |grants| && m < |grants| && m != k &&
        FileId(grants[m].base) == FileId(grants[k].base)
    ensures var (p, q) := (Position(grants[m].base), Position(grants[k].base));
      p + TotalSize(grants[m].event) <= q || q + TotalSize(grants[k].event) <= p
  {
    if m < k { ClaimSafety(claims, grants, m, k); } else { ClaimSafety(claims, grants, k, m); }
  }

  /** What has been written stays, and so does what is written now. */
  lemma HeldStays(disk: Disk, claims: seq<Iterator>, grants: seq<Grant>, k: nat, m: nat)
    requires Layout(claims, grants) && WellFormed(disk) && k < |grants| && m < |grants| &&
        (m == k || Holds(disk, grants[m]))
    requires Position(grants[k].base) + TotalSize(grants[k].event) < LOG_FILE_SIZE
    ensures Holds(Written(disk, grants[k].base, grants[k].event), grants[m])
  {
    hide Position, FileId, Encode, TotalSize, Overwrite, Layout;
    var g, h := grants[k], grants[m];
    var f := FileId(g.base);
    var file := Opened(disk, f)[f];
    if m == k {
      OverwriteSlices(file, Position(g.base), Encode(g.event), 0, 0);
    } else if FileId(h.base) == f {
      ApartInFile(claims, grants, k, m);
      OverwriteSlices(file, Position(g.base), Encode(g.event), Position(h.base), Position(h.base) + TotalSize(h.event));
    }
  }

  lemma WriteContains(disk: Disk, claims: seq<Iterator>, grants: seq<Grant>, written: set<nat>, k: nat)
    requires Layout(claims, grants) && Contains(disk, grants, written) && k < |grants| && k !in written
    requires Position(grants[k].base) + TotalSize(grants[k].event) < LOG_FILE_SIZE
    ensures Contains(Written(disk, grants[k].base, grants[k].event), grants, written + {k})
  {
    hide Holds, Layout, Covers, Written, Encode, ByteAt, TotalSize, Position;
    var base, e := grants[k].base, grants[k].event;
    var after := Written(disk, base, e);
    WrittenBytes(disk, base, e, 0, 0);
    forall m | m in written + {k} ensures m < |grants| && Holds(after, grants[m]) {
      HeldStays(disk, claims, grants, k, m);
    }
    forall f: nat, p: nat
      ensures ByteAt(after, f, p) == 0 || exists m :: m in written + {k} && m < |grants| && Covers(grants[m], f, p)
    {
      WrittenBytes(disk, base, e, f, p);
      assert grants[k] == Grant(base, e);
      if Covers(grants[k], f, p) { assert k in written + {k}; }
      else if m :| m in written && m < |grants| && Covers(grants[m], f, p) { assert m in written + {k}; }
    }
  }
}
