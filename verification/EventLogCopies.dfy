/** Events while their bytes are being copied: what the files show of them meanwhile, and exactly
    when a reader can see one and read it whole. */
module EventLogCopies {
  import opened EventCodec
  import opened EventLogSpec

  // ---- copies ----

  /** The places of an event's bytes, counted from its first. */
  function Offsets(e: Event): set<nat> {
    Stretch(0, TotalSize(e))
  }

  predicate Between(lo: nat, o: nat, hi: nat) { lo <= o < hi }

  function Stretch(lo: nat, hi: nat): (offsets: set<nat>)
    ensures forall o :: o in offsets <==> lo <= o < hi
  {
    set o: nat | o < hi && Between(lo, o, hi)
  }

  /** Some of an event's bytes are copied to their places. */
  function CopyPart(disk: Disk, g: Grant, lo: nat, hi: nat): Disk
    requires WellFormed(disk) && Position(g.base) + TotalSize(g.event) < LOG_FILE_SIZE && lo <= hi <= TotalSize(g.event)
  {
    var f := FileId(g.base);
    Opened(disk, f)[f := Overwrite(Opened(disk, f)[f], Position(g.base) + lo, Encode(g.event)[lo..hi])]
  }

  lemma OverwriteAt(file: seq<Byte>, at: nat, bytes: seq<Byte>, p: nat)
    requires at + |bytes| <= |file| && p < |file|
    ensures Overwrite(file, at, bytes)[p] == if at <= p < at + |bytes| then bytes[p - at] else file[p]
  {
  }

  lemma CopyPartBytes(disk: Disk, g: Grant, lo: nat, hi: nat, f: nat, p: nat)
    requires WellFormed(disk) && Position(g.base) + TotalSize(g.event) < LOG_FILE_SIZE && lo <= hi <= TotalSize(g.event)
    ensures WellFormed(CopyPart(disk, g, lo, hi))
    ensures ByteAt(CopyPart(disk, g, lo, hi), f, p) ==
        if FileId(g.base) == f && Position(g.base) + lo <= p < Position(g.base) + hi then
          Encode(g.event)[p - Position(g.base)]
        else ByteAt(disk, f, p)
  {
    hide Encode, TotalSize, FileId, Position, Overwrite;
    var h := FileId(g.base);
    if f == h && p < LOG_FILE_SIZE {
      OverwriteAt(Opened(disk, h)[h], Position(g.base) + lo, Encode(g.event)[lo..hi], p);
    }
  }

  /** Files of one size are told apart by their bytes. */
  lemma SameDisk(a: Disk, b: Disk)
    requires WellFormed(a) && WellFormed(b) && a.Keys == b.Keys
    requires forall f: nat, p: nat :: ByteAt(a, f, p) == ByteAt(b, f, p)
    ensures a == b
  {
    forall f | f in a ensures a[f] == b[f] {
      forall p | 0 <= p < LOG_FILE_SIZE ensures a[f][p] == b[f][p] {
        assert ByteAt(a, f, p) == ByteAt(b, f, p);
      }
    }
  }

  /** `Event::write`: the header, the type name and the value, copied one after the other, are the
      event as it is written at once. */
  lemma WriteIsCopies(disk: Disk, g: Grant)
    requires WellFormed(disk) && Position(g.base) + TotalSize(g.event) < LOG_FILE_SIZE
    ensures var (m, n) := (HEADER_SIZE + |g.event.typeName|, TotalSize(g.event));
      var header := CopyPart(disk, g, 0, HEADER_SIZE);
      WellFormed(header) && WellFormed(CopyPart(header, g, HEADER_SIZE, m)) &&
      CopyPart(CopyPart(header, g, HEADER_SIZE, m), g, m, n) == Written(disk, g.base, g.event)
  {
    hide Encode, FileId, Position, CopyPart, Written, ByteAt;
    var m, n := HEADER_SIZE + |g.event.typeName|, TotalSize(g.event);
    var one := CopyPart(disk, g, 0, HEADER_SIZE);
    CopyPartBytes(disk, g, 0, HEADER_SIZE, 0, 0);
    var two := CopyPart(one, g, HEADER_SIZE, m);
    CopyPartBytes(one, g, HEADER_SIZE, m, 0, 0);
    var three, all := CopyPart(two, g, m, n), Written(disk, g.base, g.event);
    CopyPartBytes(two, g, m, n, 0, 0);
    WrittenBytes(disk, g.base, g.event, 0, 0);
    forall f: nat, p: nat ensures ByteAt(three, f, p) == ByteAt(all, f, p) {
      CopyPartBytes(disk, g, 0, HEADER_SIZE, f, p);
      CopyPartBytes(one, g, HEADER_SIZE, m, f, p);
      CopyPartBytes(two, g, m, n, f, p);
      WrittenBytes(disk, g.base, g.event, f, p);
      assert g == Grant(g.base, g.event);
    }
    SameKeys(disk, g);
    SameKeys(one, g);
    SameKeys(two, g);
    SameDisk(three, all);
  }

  lemma SameKeys(disk: Disk, g: Grant)
    requires WellFormed(disk) && Position(g.base) + TotalSize(g.event) < LOG_FILE_SIZE
    ensures Written(disk, g.base, g.event).Keys == disk.Keys + {FileId(g.base)}
    ensures forall lo: nat, hi: nat :: lo <= hi <= TotalSize(g.event) ==>
      CopyPart(disk, g, lo, hi).Keys == disk.Keys + {FileId(g.base)}
  {
    hide Encode, FileId, Position, Overwrite;
  }

  // ---- what the files show ----

  /** These bytes of the event are there. */
  ghost predicate HasCopied(disk: Disk, g: Grant, offsets: set<nat>) {
    forall o :: o in offsets ==>
      o < TotalSize(g.event) && ByteAt(disk, FileId(g.base), Position(g.base) + o) == Encode(g.event)[o]
  }

  /** The place belongs to a byte of this event that has been copied. */
  predicate Reaches(g: Grant, offsets: set<nat>, f: nat, p: nat) {
    Covers(g, f, p) && p - Position(g.base) in offsets
  }

  ghost predicate IsCopied(grants: seq<Grant>, copied: seq<set<nat>>, f: nat, p: nat) {
    exists k :: 0 <= k < |grants| && k < |copied| && Reaches(grants[k], copied[k], f, p)
  }

  /** The files hold of every event the bytes copied so far, and zeros everywhere else. */
  ghost predicate Shows(disk: Disk, grants: seq<Grant>, copied: seq<set<nat>>) {
    WellFormed(disk) && |copied| == |grants| &&
    (forall k :: 0 <= k < |grants| ==> HasCopied(disk, grants[k], copied[k])) &&
    forall f: nat, p: nat :: ByteAt(disk, f, p) == 0 || IsCopied(grants, copied, f, p)
  }

  function Adding(copied: seq<set<nat>>, k: nat, lo: nat, hi: nat): (more: seq<set<nat>>)
    requires k < |copied|
    ensures |more| == |copied|
  {
    copied[k := copied[k] + Stretch(lo, hi)]
  }

  /** Copying some bytes of one event adds exactly those, whatever else is being copied. */
  lemma CopyShows(disk: Disk, claims: seq<Iterator>, grants: seq<Grant>, copied: seq<set<nat>>, k: nat, lo: nat,
          hi: nat)
    requires Layout(claims, grants) && Shows(disk, grants, copied) && k < |grants|
    requires Position(grants[k].base) + TotalSize(grants[k].event) < LOG_FILE_SIZE &&
        lo <= hi <= TotalSize(grants[k].event)
    ensures Shows(CopyPart(disk, grants[k], lo, hi), grants, Adding(copied, k, lo, hi))
  {
    hide Layout, CopyPart, Encode, ByteAt, TotalSize, Position, FileId, HasCopied, IsCopied, Adding;
    var g, after, more := grants[k], CopyPart(disk, grants[k], lo, hi), Adding(copied, k, lo, hi);
    CopyPartBytes(disk, g, lo, hi, 0, 0);
    forall m | 0 <= m < |grants| ensures HasCopied(after, grants[m], more[m]) {
      CopiedStays(disk, claims, grants, copied, k, m, lo, hi);
    }
    forall f: nat, p: nat ensures ByteAt(after, f, p) == 0 || IsCopied(grants, more, f, p) {
      CopyPartBytes(disk, g, lo, hi, f, p);
      if ByteAt(after, f, p) != 0 { CopiedMore(grants, copied, k, lo, hi, f, p); }
    }
  }

  lemma CopiedMore(grants: seq<Grant>, copied: seq<set<nat>>, k: nat, lo: nat, hi: nat, f: nat, p: nat)
    requires |copied| == |grants| && k < |grants| && hi <= TotalSize(grants[k].event)
    requires var at := Position(grants[k].base);
      IsCopied(grants, copied, f, p) || (FileId(grants[k].base) == f && at + lo <= p < at + hi)
    ensures IsCopied(grants, Adding(copied, k, lo, hi), f, p)
  {
    hide Position, FileId, TotalSize;
    var more, at := Adding(copied, k, lo, hi), Position(grants[k].base);
    if FileId(grants[k].base) == f && at + lo <= p < at + hi {
      assert Reaches(grants[k], more[k], f, p);
    } else {
      var m :| 0 <= m < |grants| && m < |copied| && Reaches(grants[m], copied[m], f, p);
      assert Reaches(grants[m], more[m], f, p);
    }
  }

  /** What has been copied stays, and so does what is copied now. */
  lemma CopiedStays(disk: Disk, claims: seq<Iterator>, grants: seq<Grant>, copied: seq<set<nat>>, k: nat, m: nat,
          lo: nat, hi: nat)
    requires Layout(claims, grants) && WellFormed(disk) && |copied| == |grants| && k < |grants| && m < |grants|
    requires HasCopied(disk, grants[m], copied[m]) && lo <= hi <= TotalSize(grants[k].event)
    requires Position(grants[k].base) + TotalSize(grants[k].event) < LOG_FILE_SIZE
    ensures HasCopied(CopyPart(disk, grants[k], lo, hi), grants[m], Adding(copied, k, lo, hi)[m])
  {
    hide Layout, CopyPart, Encode, ByteAt, TotalSize, Position, FileId;
    var g, h := grants[k], grants[m];
    forall o | o in Adding(copied, k, lo, hi)[m]
      ensures o < TotalSize(h.event)
      ensures ByteAt(CopyPart(disk, g, lo, hi), FileId(h.base), Position(h.base) + o) == Encode(h.event)[o]
    {
      CopyPartBytes(disk, g, lo, hi, FileId(h.base), Position(h.base) + o);
      if m != k && FileId(h.base) == FileId(g.base) { ApartInFile(claims, grants, k, m); }
    }
  }

  /** A new claim changes nothing of what is shown. */
  lemma ShowsGrows(disk: Disk, grants: seq<Grant>, copied: seq<set<nat>>, g: Grant)
    requires Shows(disk, grants, copied)
    ensures Shows(disk, grants + [g], copied + [{}])
  {
    hide HasCopied, ByteAt, Reaches;
    forall k | 0 <= k < |grants + [g]| ensures HasCopied(disk, (grants + [g])[k], (copied + [{}])[k]) {
      if k == |grants| { NothingCopied(disk, g); }
    }
    forall f: nat, p: nat ensures ByteAt(disk, f, p) == 0 || IsCopied(grants + [g], copied + [{}], f, p) {
      if IsCopied(grants, copied, f, p) {
        var k :| 0 <= k < |grants| && k < |copied| && Reaches(grants[k], copied[k], f, p);
        assert Reaches((grants + [g])[k], (copied + [{}])[k], f, p);
      }
    }
  }

  lemma NothingCopied(disk: Disk, g: Grant)
    ensures HasCopied(disk, g, {})
  {
  }

  /** A byte of an event is there when it has been copied, and zero until then. */
  lemma GrantBytes(disk: Disk, claims: seq<Iterator>, grants: seq<Grant>, copied: seq<set<nat>>, k: nat, o: nat)
    requires Layout(claims, grants) && Shows(disk, grants, copied) && k < |grants| && o < TotalSize(grants[k].event)
    ensures ByteAt(disk, FileId(grants[k].base), Position(grants[k].base) + o) ==
        if o in copied[k] then Encode(grants[k].event)[o] else 0
  {
    hide Layout, Encode, ByteAt, TotalSize, Position, FileId;
    var g := grants[k];
    var f, p := FileId(g.base), Position(g.base) + o;
    assert HasCopied(disk, g, copied[k]);
    if o !in copied[k] && ByteAt(disk, f, p) != 0 {
      OwnByte(claims, grants, copied, k, o);
    }
  }

  /** No other grant reaches the place of a byte, so if it has been copied, its own has. */
  lemma OwnByte(claims: seq<Iterator>, grants: seq<Grant>, copied: seq<set<nat>>, k: nat, o: nat)
    requires Layout(claims, grants) && |copied| == |grants| && k < |grants| && o < TotalSize(grants[k].event)
    requires IsCopied(grants, copied, FileId(grants[k].base), Position(grants[k].base) + o)
    ensures o in copied[k]
  {
    hide Layout, TotalSize, Position, FileId;
    var f, p := FileId(grants[k].base), Position(grants[k].base) + o;
    var m :| 0 <= m < |grants| && m < |copied| && Reaches(grants[m], copied[m], f, p);
    if m != k { ApartInFile(claims, grants, k, m); }
  }

  // ---- what a reader can see ----

  /** The bytes of the delimiter that are not zero. */
  predicate Visible(offsets: set<nat>) {
    Stretch(0, 4) <= offsets
  }

  /** Every byte that is not zero has been copied. */
  predicate Complete(e: Event, offsets: set<nat>) {
    forall o :: 0 <= o < TotalSize(e) && Encode(e)[o] != 0 ==> o in offsets
  }

  lemma {:induction false} ValueInjective(a: seq<Byte>, b: seq<Byte>)
    requires |a| == |b| && Value(a) == Value(b)
    ensures a == b
    decreases |a|
  {
    if a != [] {
      ValueInjective(a[1..], b[1..]);
      assert a == [a[0]] + a[1..] && b == [b[0]] + b[1..];
    }
  }

  /** Eight bytes are read as a word exactly when they encode it. */
  lemma WordExact(bytes: seq<Byte>, n: nat)
    requires |bytes| == 8 && n < WORD_LIMIT
    ensures Value(bytes) == n <==> bytes == LittleEndian(n, 8)
  {
    WordOf(n);
    if Value(bytes) == n { ValueInjective(bytes, LittleEndian(n, 8)); }
  }

  lemma DelimBytes(e: Event)
    ensures Encode(e)[..8] == LittleEndian(DELIM, 8) == [0xBA, 0xF0, 0xBA, 0xF0, 0, 0, 0, 0]
  {
    hide LittleEndian, Encode;
    DelimWord();
    DelimFirst(e);
  }

  lemma DelimFirst(e: Event)
    ensures Encode(e)[..8] == LittleEndian(DELIM, 8)
  {
    hide LittleEndian;
  }

  lemma DelimWord()
    ensures LittleEndian(DELIM, 8) == [0xBA, 0xF0, 0xBA, 0xF0, 0, 0, 0, 0]
  {
    ZeroBytes(4);
    assert LittleEndian(0xF0, 5) == [0xF0] + LittleEndian(0, 4);
    assert LittleEndian(0xF0BA, 6) == [0xBA] + LittleEndian(0xF0, 5);
    assert LittleEndian(0xF0_BAF0, 7) == [0xF0] + LittleEndian(0xF0BA, 6);
  }

  lemma {:induction false} ZeroBytes(k: nat)
    ensures LittleEndian(0, k) == seq(k, i => 0)
  {
    if k > 0 { ZeroBytes(k - 1); }
  }

  lemma BytesAt(disk: Disk, f: nat, p: nat, o: nat)
    requires o < 8
    ensures Bytes(FileOf(disk, f), p, 8)[o] == ByteAt(disk, f, p + o)
  {
  }

  /** A reader sees an event exactly when the four bytes of its delimiter that are not zero have been copied. */
  lemma VisibleExact(disk: Disk, claims: seq<Iterator>, grants: seq<Grant>, copied: seq<set<nat>>, k: nat)
    requires Layout(claims, grants) && Shows(disk, grants, copied) && k < |grants|
    ensures IsEvent(FileOf(disk, FileId(grants[k].base)), Position(grants[k].base)) <==> Visible(copied[k])
  {
    hide Layout, IsCopied, HasCopied, ByteAt, Encode, Position, FileId, LittleEndian;
    var g := grants[k];
    var file, p := FileOf(disk, FileId(g.base)), Position(g.base);
    var bytes, delim := Bytes(file, p, 8), LittleEndian(DELIM, 8);
    WordExact(bytes, DELIM);
    DelimBytes(g.event);
    forall o | 0 <= o < 8 ensures bytes[o] == if o in copied[k] then delim[o] else 0 {
      GrantBytes(disk, claims, grants, copied, k, o);
      assert bytes[o] == ByteAt(disk, FileId(g.base), p + o) by { BytesAt(disk, FileId(g.base), p, o); }
      assert Encode(g.event)[..8][o] == delim[o];
    }
    assert Visible(copied[k]) <==> forall o :: 0 <= o < 8 && delim[o] != 0 ==> o in copied[k];
    assert bytes == delim <==> forall o :: 0 <= o < 8 ==> bytes[o] == delim[o];
  }

  /** An event is read at a place exactly when the bytes there are its encoding. */
  lemma DecodeExact(file: seq<Byte>, at: nat, e: Event)
    requires WellSized(e) && at + TotalSize(e) <= |file|
    ensures IsEvent(file, at) && Decode(file, at) == e <==> file[at..at + TotalSize(e)] == Encode(e)
  {
    hide LittleEndian, Value;
    if IsEvent(file, at) && Decode(file, at) == e {
      WordExact(Bytes(file, at, 8), DELIM);
      WordExact(Bytes(file, at + 8, 8), |e.typeName|);
      WordExact(Bytes(file, at + 16, 8), |e.value|);
      WordExact(Bytes(file, at + 24, 8), e.timestamp);
      JoinParts(file, at, e);
    }
    if file[at..at + TotalSize(e)] == Encode(e) { EventTrip(file, at, e); }
  }

  lemma JoinParts(file: seq<Byte>, at: nat, e: Event)
    requires at + TotalSize(e) <= |file|
    requires Bytes(file, at, 8) == LittleEndian(DELIM, 8) && Bytes(file, at + 8, 8) == LittleEndian(|e.typeName|, 8)
    requires Bytes(file, at + 16, 8) == LittleEndian(|e.value|, 8)
    requires Bytes(file, at + 24, 8) == LittleEndian(e.timestamp, 8)
    requires Bytes(file, at + HEADER_SIZE, |e.typeName|) == e.typeName
    requires Bytes(file, at + HEADER_SIZE + |e.typeName|, |e.value|) == e.value
    ensures file[at..at + TotalSize(e)] == Encode(e)
  {
    hide LittleEndian;
    var t, v := |e.typeName|, |e.value|;
    assert Bytes(file, at, 8) == file[at..at + 8] && Bytes(file, at + 8, 8) == file[at + 8..at + 16];
    assert Bytes(file, at + 16, 8) == file[at + 16..at + 24] && Bytes(file, at + 24, 8) == file[at + 24..at + 32];
    assert Bytes(file, at + 32, t) == file[at + 32..at + 32 + t];
    assert Bytes(file, at + 32 + t, v) == file[at + 32 + t..at + 32 + t + v];
  }

  /** Every byte of the event is there. */
  ghost predicate Shown(disk: Disk, g: Grant) {
    forall o :: 0 <= o < TotalSize(g.event) ==>
      ByteAt(disk, FileId(g.base), Position(g.base) + o) == Encode(g.event)[o]
  }

  /** What is left of the encoding of `e` where only some bytes have been copied is the encoding of `seen`. */
  predicate LooksLike(e: Event, offsets: set<nat>, seen: Event) {
    TotalSize(seen) <= TotalSize(e) &&
    forall o :: 0 <= o < TotalSize(seen) ==> Encode(seen)[o] == if o in offsets then Encode(e)[o] else 0
  }

  lemma LooksIsShown(disk: Disk, claims: seq<Iterator>, grants: seq<Grant>, copied: seq<set<nat>>, k: nat, seen: Event)
    requires Layout(claims, grants) && Shows(disk, grants, copied) && k < |grants|
    requires TotalSize(seen) <= TotalSize(grants[k].event)
    ensures LooksLike(grants[k].event, copied[k], seen) <==> Shown(disk, Grant(grants[k].base, seen))
  {
    hide Layout, IsCopied, HasCopied, Encode, Position, FileId, TotalSize, ByteAt;
    var g := grants[k];
    forall o | 0 <= o < TotalSize(seen)
      ensures ByteAt(disk, FileId(g.base), Position(g.base) + o) == if o in copied[k] then Encode(g.event)[o] else 0
    {
      GrantBytes(disk, claims, grants, copied, k, o);
    }
  }

  lemma ShownIsHeld(disk: Disk, g: Grant)
    requires WellFormed(disk)
    ensures Shown(disk, g) ==> FileId(g.base) in disk
    ensures Position(g.base) + TotalSize(g.event) < LOG_FILE_SIZE ==> (Shown(disk, g) <==> Holds(disk, g))
  {
    hide Encode, Position, FileId;
    var f, p, n := FileId(g.base), Position(g.base), TotalSize(g.event);
    if Shown(disk, g) {
      DelimBytes(g.event);
      assert ByteAt(disk, f, p + 0) == Encode(g.event)[0] != 0;
      assert f in disk;
      if p + n < LOG_FILE_SIZE {
        forall o | 0 <= o < n ensures disk[f][p..p + n][o] == Encode(g.event)[o] {
          assert ByteAt(disk, f, p + o) == Encode(g.event)[o];
        }
      }
    }
    if p + n < LOG_FILE_SIZE && Holds(disk, g) {
      forall o | 0 <= o < n ensures ByteAt(disk, f, p + o) == Encode(g.event)[o] {
        assert disk[f][p..p + n][o] == disk[f][p + o];
      }
    }
  }

  /** A place at which a reader sees this very event. */
  predicate Readable(disk: Disk, g: Grant) {
    IsEvent(FileOf(disk, FileId(g.base)), Position(g.base)) &&
      Decode(FileOf(disk, FileId(g.base)), Position(g.base)) == g.event
  }

  /** What a reader reads at the place of a claim that is being copied: exactly what the bytes copied
      so far look like. */
  lemma SeenExact(disk: Disk, claims: seq<Iterator>, grants: seq<Grant>, copied: seq<set<nat>>, k: nat, seen: Event)
    requires Layout(claims, grants) && Shows(disk, grants, copied) && k < |grants|
    requires WellSized(seen) && TotalSize(seen) <= TotalSize(grants[k].event)
    ensures Readable(disk, Grant(grants[k].base, seen)) <==> LooksLike(grants[k].event, copied[k], seen)
    ensures Holds(disk, Grant(grants[k].base, seen)) <==> LooksLike(grants[k].event, copied[k], seen)
  {
    hide Encode, Position, FileId, Decode, IsEvent, TotalSize, Shown, LooksLike, Holds, ByteAt, Layout;
    var g := Grant(grants[k].base, seen);
    GrantedFits(claims, grants, k);
    LooksIsShown(disk, claims, grants, copied, k, seen);
    ShownIsHeld(disk, g);
    HeldBytes(disk, g);
    if FileId(g.base) in disk {
      DecodeExact(disk[FileId(g.base)], Position(g.base), seen);
    } else {
      ZeroIsNoEvent([], Position(g.base));
    }
  }

  /** A reader reads an event as it was written exactly when all of its bytes that are not zero have
      been copied; and that is when the files hold it. */
  lemma CompleteExact(disk: Disk, claims: seq<Iterator>, grants: seq<Grant>, copied: seq<set<nat>>, k: nat)
    requires Layout(claims, grants) && Shows(disk, grants, copied) && k < |grants|
    ensures Readable(disk, grants[k]) <==> Complete(grants[k].event, copied[k])
    ensures Holds(disk, grants[k]) <==> Complete(grants[k].event, copied[k])
  {
    hide Encode, Position, FileId, Decode, IsEvent, TotalSize, Holds, ByteAt, Readable;
    assert Granted(claims[k], claims[k + 1], grants[k]);
    assert grants[k] == Grant(grants[k].base, grants[k].event);
    SeenExact(disk, claims, grants, copied, k, grants[k].event);
  }

  lemma HeldBytes(disk: Disk, g: Grant)
    ensures Holds(disk, g) <==>
        FileId(g.base) in disk && Position(g.base) + TotalSize(g.event) <= |disk[FileId(g.base)]| &&
        disk[FileId(g.base)][Position(g.base)..Position(g.base) + TotalSize(g.event)] == Encode(g.event)
  {
  }

  /** What is complete can be seen. */
  lemma CompleteIsVisible(e: Event, offsets: set<nat>)
    requires Complete(e, offsets)
    ensures Visible(offsets)
  {
    hide Encode;
    DelimBytes(e);
    assert forall o :: 0 <= o < 4 ==> Encode(e)[o] != 0;
  }

  /** When every event is complete, the files contain them all and nothing else. */
  lemma ShowsContains(disk: Disk, claims: seq<Iterator>, grants: seq<Grant>, copied: seq<set<nat>>)
    requires Layout(claims, grants) && Shows(disk, grants, copied)
    requires forall k :: 0 <= k < |grants| ==> Complete(grants[k].event, copied[k])
    ensures Contains(disk, grants, All(grants))
  {
    hide Encode, Layout, Holds, Complete, ByteAt, HasCopied, Covers;
    forall k | k in All(grants) ensures k < |grants| && Holds(disk, grants[k]) {
      CompleteExact(disk, claims, grants, copied, k);
    }
    forall f: nat, p: nat
      ensures ByteAt(disk, f, p) == 0 || exists k :: k in All(grants) && k < |grants| && Covers(grants[k], f, p)
    {
      if IsCopied(grants, copied, f, p) {
        var k :| 0 <= k < |grants| && k < |copied| && Reaches(grants[k], copied[k], f, p);
        assert k in All(grants) && Covers(grants[k], f, p);
      }
    }
  }

  function All(grants: seq<Grant>): (written: set<nat>)
    ensures forall k: nat :: k in written <==> k < |grants|
  {
    Stretch(0, |grants|)
  }

  // ---- half-copied events ----

  function Zeros(n: nat): seq<Byte> { seq(n, i => 0) }

  /** Where only the header has been copied, an event with its sizes and timestamp that consists of zeros is read. */
  lemma HeaderLooks(e: Event)
    requires WellSized(e)
    ensures var seen := Event(Zeros(|e.typeName|), e.timestamp, Zeros(|e.value|));
      WellSized(seen) && LooksLike(e, Stretch(0, HEADER_SIZE), seen)
  {
    hide LittleEndian;
  }

  /** Where only the delimiter has been copied, an event of nothing at all is read. */
  lemma DelimLooks(e: Event)
    ensures WellSized(Event([], 0, [])) && LooksLike(e, Stretch(0, 8), Event([], 0, []))
  {
    hide LittleEndian;
    ZeroBytes(8);
    DelimBytes(e);
  }
}
