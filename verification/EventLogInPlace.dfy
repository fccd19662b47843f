/** The event log as it is stored: the shared claim counter, the mapped buffers of the files, and
    the table of open files. */
module EventLogInPlace {
  import opened EventCodec
  import opened EventLogSpec

  // ---- the shared counters ----

  /** What happens between a load of the claim counter and the compare-and-exchange after it:
      the claims of other writers, and whether the exchange fails without a reason. */
  datatype Attempt = Attempt(others: seq<nat>, spurious: bool)

  datatype Claiming = Decided(claimed: Claimed) | StillTrying

  /** The claim counter after some claims, one after the other; one out of range claims nothing. */
  function ClaimAll(current: Iterator, sizes: seq<nat>): Iterator {
    if sizes == [] then current
    else
      var before := ClaimAll(current, sizes[..|sizes| - 1]);
      match Place(before, sizes[|sizes| - 1])
      case Claimed(_, end) => end
      case OutOfRange => before
  }

  lemma {:induction false} ClaimAllConcat(current: Iterator, a: seq<nat>, b: seq<nat>)
    ensures ClaimAll(current, a + b) == ClaimAll(ClaimAll(current, a), b)
  {
    if b == [] {
      assert a + b == a;
    } else {
      var n := |b| - 1;
      ClaimAllConcat(current, a, b[..n]);
      assert (a + b)[..|a| + n] == a + b[..n];
    }
  }

  lemma {:induction false} ClaimAllGrows(current: Iterator, sizes: seq<nat>)
    ensures current <= ClaimAll(current, sizes)
  {
    if sizes != [] { ClaimAllGrows(current, sizes[..|sizes| - 1]); }
  }

  function OthersIn(attempts: seq<Attempt>): seq<nat> {
    if attempts == [] then [] else OthersIn(attempts[..|attempts| - 1]) + attempts[|attempts| - 1].others
  }

  class Generator {
    var claim: Iterator
    var head: Iterator

    constructor ()
      ensures claim == 0 && head == 0
    {
      claim, head := 0, 0;
    }

    /** The retry loop: whatever the other writers do meanwhile, the claim is the one that
        `Place` gives when it comes after all of theirs, and nobody's claim is lost. */
    method Claim(size: nat, attempts: seq<Attempt>) returns (r: Claiming, n: nat)
      modifies this`claim
      ensures n <= |attempts|
      ensures r.Decided? ==> var before := ClaimAll(old(claim), OthersIn(attempts[..n]));
        r.claimed == Place(before, size) && claim == ClaimAll(old(claim), OthersIn(attempts[..n]) + [size])
      ensures r.StillTrying? ==> n == |attempts| && claim == ClaimAll(old(claim), OthersIn(attempts))
    {
      var current := claim;
      n := 0;
      while n != |attempts|
        invariant n <= |attempts| && claim == current == ClaimAll(old(claim), OthersIn(attempts[..n]))
      {
        ghost var before := OthersIn(attempts[..n]);
        var desired := Place(current, size);
        if desired.OutOfRange? {
          assert (before + [size])[..|before|] == before;
          return Decided(desired), n;
        }
        assert attempts[..n + 1][..n] == attempts[..n];
        ClaimAllConcat(old(claim), before, attempts[n].others);
        claim := ClaimAll(claim, attempts[n].others);
        if claim == current && !attempts[n].spurious {
          ghost var done := before + attempts[n].others;
          assert (done + [size])[..|done|] == done;
          claim := desired.end;
          return Decided(desired), n + 1;
        }
        current := claim;
        n := n + 1;
      }
      assert attempts[..n] == attempts;
      r := StillTrying;
    }

    /** `updateHead`: the counter is loaded first, and may have moved on before the exchange. */
    method UpdateHead(others: seq<nat>) returns (changed: bool)
      modifies this`head, this`claim
      ensures claim == ClaimAll(old(claim), others) && head == old(claim) && head <= claim
      ensures changed <==> old(head) != head
    {
      var seen := claim;
      ClaimAllGrows(claim, others);
      claim := ClaimAll(claim, others);
      var oldHead := head;
      head := seen;
      changed := seen != oldHead;
    }
  }

  // ---- a file ----

  class File {
    const region: array<Byte>

    ghost predicate Valid() { region.Length == LOG_FILE_SIZE }

    /** A new file is full of zeros. */
    constructor ()
      ensures Valid() && fresh(region) && region[..] == EmptyFile()
    {
      region := new Byte[LOG_FILE_SIZE](_ => 0);
    }

    predicate WillFit(position: nat, event: Event) {
      position + TotalSize(event) < region.Length
    }

    /** `memcpy` into the mapped buffer. */
    method Copy(at: nat, bytes: seq<Byte>)
      requires at + |bytes| <= region.Length
      modifies region
      ensures region[..] == Overwrite(old(region[..]), at, bytes)
    {
      var i := 0;
      while i != |bytes|
        invariant i <= |bytes|
        invariant forall j :: 0 <= j < region.Length ==>
            region[j] == if at <= j < at + i then bytes[j - at] else old(region[j])
      {
        region[at + i] := bytes[i];
        i := i + 1;
      }
      forall j | 0 <= j < region.Length ensures region[j] == Overwrite(old(region[..]), at, bytes)[j] {
      }
    }

    /** Header, type name and value are copied one after the other; refused where they do not fit. */
    method Write(position: nat, event: Event) returns (ok: bool)
      modifies region
      ensures ok <==> position + TotalSize(event) < region.Length
      ensures region[..] == if ok then Overwrite(old(region[..]), position, Encode(event)) else old(region[..])
    {
      ok := WillFit(position, event);
      if ok {
        var header := LittleEndian(DELIM, 8) + LittleEndian(|event.typeName|, 8) + LittleEndian(|event.value|, 8)
          + LittleEndian(event.timestamp, 8);
        ghost var file := region[..];
        Copy(position, header);
        Copy(position + HEADER_SIZE, event.typeName);
        OverwriteTwice(file, position, header, event.typeName);
        Copy(position + HEADER_SIZE + |event.typeName|, event.value);
        OverwriteTwice(file, position, header + event.typeName, event.value);
      }
    }

    /** Nothing where a reader may not look. */
    method IsEventAt(position: nat) returns (r: bool)
      requires position < region.Length
      ensures r == IsEvent(region[..], position)
    {
      r := IsEvent(region[..], position);
    }

    /** `memset` to zero. */
    method Clear()
      modifies region
      ensures region[..] == seq(region.Length, i => 0)
    {
      var i := 0;
      while i != region.Length
        invariant i <= region.Length && forall j :: 0 <= j < i ==> region[j] == 0
      {
        region[i] := 0;
        i := i + 1;
      }
    }
  }

  /** Two adjacent copies are one. */
  lemma OverwriteTwice(file: seq<Byte>, at: nat, a: seq<Byte>, b: seq<Byte>)
    requires at + |a| + |b| <= |file|
    ensures Overwrite(Overwrite(file, at, a), at + |a|, b) == Overwrite(file, at, a + b)
  {
    var x, y := Overwrite(Overwrite(file, at, a), at + |a|, b), Overwrite(file, at, a + b);
    forall p | 0 <= p < |file| ensures x[p] == y[p] {
    }
  }

  // ---- the log ----

  /** To a reader, a file of zeros is as good as none. */
  lemma OpenedReads(disk: Disk, file: nat, f: nat, at: nat)
    ensures IsEvent(FileOf(Opened(disk, file), f), at) == IsEvent(FileOf(disk, f), at)
    ensures Decode(FileOf(Opened(disk, file), f), at) == Decode(FileOf(disk, f), at)
  {
    if f == file && file !in disk {
      forall i: nat, n: nat ensures Bytes(EmptyFile(), i, n) == Bytes([], i, n) {
      }
    }
  }

  class Log {
    var disk: map<nat, File>       // the files in the directory of the log
    var logFiles: seq<File?>       // m_logFiles

    ghost function Regions(): set<array<Byte>>
      reads this`disk
    {
      set f | f in disk :: disk[f].region
    }

    ghost predicate FilesFit()
      reads this`disk
    {
      (forall f :: f in disk ==> disk[f].Valid()) &&
      (forall f, g :: f in disk && g in disk && f != g ==> disk[f].region != disk[g].region)
    }

    ghost predicate Valid()
      reads this
    {
      FilesFit() && forall i :: 0 <= i < |logFiles| && logFiles[i] != null ==> i in disk && logFiles[i] == disk[i]
    }

    ghost function Contents(): Disk
      reads this`disk, Regions()
    {
      map f | f in disk :: disk[f].region[..]
    }

    constructor ()
      ensures Valid() && Contents() == map[] && fresh(Regions())
    {
      disk, logFiles := map[], [];
    }

    /** Opens a file, making it if there is none, and lets go of the files more than two before it. */
    method GetFile(index: nat) returns (file: File)
      requires Valid()
      modifies this
      ensures Valid() && index in disk && file == disk[index] && fresh(Regions() - old(Regions()))
      ensures Contents() == Opened(old(Contents()), index)
      ensures |logFiles| > index && logFiles[index] == file
      ensures forall i :: 0 <= i < index - 2 ==> logFiles[i] == null
    {
      hide EmptyFile, FilesFit, Contents;
      ContentsKeys();
      Grow(index);
      if logFiles[index] == null {
        Open(index);
      }
      file := disk[index];
      Release(index);
    }

    lemma ContentsKeys()
      ensures Contents().Keys == disk.Keys
      ensures forall f :: f in disk ==> disk[f].region in Regions()
    {
    }

    method Grow(index: nat)
      requires Valid()
      modifies this`logFiles
      ensures Valid() && |logFiles| > index && Contents() == old(Contents()) && Regions() == old(Regions())
    {
      while index >= |logFiles|
        invariant Valid()
        decreases index - |logFiles|
      {
        logFiles := logFiles + [null];
      }
    }

    method Release(index: nat)
      requires Valid() && |logFiles| > index
      modifies this`logFiles
      ensures Valid() && |logFiles| == old(|logFiles|) && logFiles[index] == old(logFiles[index])
      ensures Contents() == old(Contents()) && Regions() == old(Regions())
      ensures forall i :: 0 <= i < index - 2 ==> logFiles[i] == null
    {
      var released := 0;
      while released + 2 < index
        invariant 0 <= released && (released == 0 || released + 1 < index)
        invariant Valid() && |logFiles| == old(|logFiles|) && logFiles[index] == old(logFiles[index])
        invariant forall i :: 0 <= i < released ==> logFiles[i] == null
      {
        logFiles := logFiles[released := null];
        released := released + 1;
      }
    }

    method Open(index: nat)
      requires Valid() && index < |logFiles|
      modifies this
      ensures Valid() && index in disk && |logFiles| == old(|logFiles|) && logFiles[index] == disk[index]
      ensures fresh(Regions() - old(Regions())) && Contents() == Opened(old(Contents()), index)
    {
      hide EmptyFile, FilesFit, Regions, Contents;
      ContentsKeys();
      if index !in disk {
        Create(index);
      }
      logFiles := logFiles[index := disk[index]];
    }

    method Create(index: nat)
      requires Valid() && index !in disk
      modifies this`disk
      ensures Valid() && disk.Keys == old(disk.Keys) + {index}
      ensures fresh(Regions() - old(Regions())) && Contents() == old(Contents())[index := EmptyFile()]
    {
      hide EmptyFile;
      var file := new File();
      assert forall f :: f in disk ==> disk[f].region != file.region;
      disk := disk[index := file];
    }

    /** The event at a position of a file, if there is one. */
    method Look(fileId: nat, position: nat) returns (found: bool, e: Event)
      requires Valid() && position < LOG_FILE_SIZE
      modifies this
      ensures Valid() && fresh(Regions() - old(Regions())) && Contents() == Opened(old(Contents()), fileId)
      ensures found == IsEvent(FileOf(old(Contents()), fileId), position)
      ensures found ==> e == Decode(FileOf(old(Contents()), fileId), position)
    {
      ghost var was := Contents();
      var file := GetFile(fileId);
      OpenedReads(was, fileId, fileId, position);
      assert Contents()[fileId] == file.region[..];
      found := file.IsEventAt(position);
      e := Decode(file.region[..], position);
    }

    /** One read, at the caller's iterator. */
    method Read(from: Iterator) returns (r: Reading)
      requires Valid()
      modifies this
      ensures Valid() && fresh(Regions() - old(Regions()))
      ensures r == EventLogSpec.Read(old(Contents()), from)
      ensures forall f: nat, p: nat :: ByteAt(Contents(), f, p) == ByteAt(old(Contents()), f, p)
    {
      hide IsEvent, Decode, Opened, ByteAt, FileOf, FilesFit;
      if !InRange(from) {
        return ReadOutOfRange;
      }
      ghost var was := Contents();
      var fileId := FileId(from);
      var found, e := Look(fileId, Position(from));
      OpenedBytes(was, fileId);
      if found {
        return Found(e, from + TotalSize(e));
      }
      ghost var midway := Contents();
      fileId := NextFile(fileId);
      OpenedReads(was, FileId(from), fileId, 0);
      found, e := Look(fileId, 0);
      OpenedBytes(midway, fileId);
      r := if found then Found(e, FileStart(fileId) + TotalSize(e)) else NotFound;
    }

    /** `File::write` on the file of an iterator. */
    method WriteAt(base: Iterator, e: Event) returns (ok: bool)
      requires Valid()
      modifies this, Regions()
      ensures Valid() && WellFormed(old(Contents())) && fresh(Regions() - old(Regions()))
      ensures ok <==> Position(base) + TotalSize(e) < LOG_FILE_SIZE
      ensures Contents() == if ok then Written(old(Contents()), base, e) else Opened(old(Contents()), FileId(base))
    {
      hide Encode, EmptyFile, Regions, Contents, FilesFit, TotalSize;
      ContentsFit();
      var file := GetFile(FileId(base));
      ContentsKeys();
      ok := WriteFile(FileId(base), Position(base), e);
    }

    lemma ContentsFit()
      requires FilesFit()
      ensures WellFormed(Contents())
    {
    }

    method WriteFile(f: nat, position: nat, e: Event) returns (ok: bool)
      requires Valid() && f in disk
      modifies disk[f].region
      ensures Valid() && f in old(Contents()) && WellFormed(old(Contents()))
      ensures ok <==> position + TotalSize(e) < LOG_FILE_SIZE
      ensures Contents() ==
        if ok then old(Contents())[f := Overwrite(old(Contents())[f], position, Encode(e))] else old(Contents())
    {
      hide Encode, TotalSize, Regions;
      ok := disk[f].Write(position, e);
    }

    method ClearFile(f: nat)
      requires Valid() && f in disk
      modifies disk[f].region
      ensures Valid() && Contents() == old(Contents())[f := EmptyFile()]
    {
      disk[f].Clear();
      assert disk[f].region[..] == EmptyFile();
    }

    /** Every file of the directory is filled with zeros, open or not. */
    method Clear()
      requires Valid()
      modifies Regions()
      ensures Valid() && Contents() == map f | f in old(Contents()) :: EmptyFile()
    {
      var left := disk.Keys;
      while left != {}
        invariant Valid() && left <= disk.Keys
        invariant forall f :: f in disk && f !in left ==> Contents()[f] == EmptyFile()
        decreases |left|
      {
        var f :| f in left;
        ClearFile(f);
        left := left - {f};
      }
    }
  }

  lemma OpenedBytes(disk: Disk, file: nat)
    ensures forall f: nat, p: nat :: ByteAt(Opened(disk, file), f, p) == ByteAt(disk, f, p)
  {
  }

  // ---- the server ----

  datatype WriteResult = Done(base: Iterator) | TooBig | NoRange | NoRoom | Retrying

  /** `Server::write`: claim, find the file, write. */
  method ServerWrite(log: Log, generator: Generator, e: Event, attempts: seq<Attempt>) returns (r: WriteResult, n: nat)
    requires log.Valid()
    modifies log, log.Regions(), generator`claim
    ensures log.Valid() && WellFormed(old(log.Contents())) && n <= |attempts|
    ensures r.TooBig? <==> TotalSize(e) > LOG_FILE_SIZE
    ensures r.Done? || r.NoRoom? ==> Won(old(generator.claim), generator.claim, OthersIn(attempts[..n]), TotalSize(e))
    ensures r.NoRoom? ==> TotalSize(e) == LOG_FILE_SIZE
    ensures r.Done? ==>
      TotalSize(e) < LOG_FILE_SIZE &&
        r.base == Place(ClaimAll(old(generator.claim), OthersIn(attempts[..n])), TotalSize(e)).base &&
      Position(r.base) + TotalSize(e) < LOG_FILE_SIZE && log.Contents() == Written(old(log.Contents()), r.base, e)
    ensures !r.Done? ==> forall f: nat, p: nat :: ByteAt(log.Contents(), f, p) == ByteAt(old(log.Contents()), f, p)
  {
    hide ByteAt, Written, Opened, ClaimAll, OthersIn;
    n := 0;
    if TotalSize(e) > LOG_FILE_SIZE {
      return TooBig, n;
    }
    var claiming;
    claiming, n := generator.Claim(TotalSize(e), attempts);
    if claiming.StillTrying? {
      return Retrying, n;
    }
    if claiming.claimed.OutOfRange? {
      return NoRange, n;
    }
    var base := claiming.claimed.base;
    WriteFitsExactly(ClaimAll(old(generator.claim), OthersIn(attempts[..n])), TotalSize(e));
    OpenedBytes(log.Contents(), FileId(base));
    var ok := log.WriteAt(base, e);
    r := if ok then Done(base) else NoRoom;
  }

  /** The counter moved from `before` to `after` by the claims of others and then this one. */
  predicate Won(before: Iterator, after: Iterator, others: seq<nat>, size: nat) {
    Place(ClaimAll(before, others), size).Claimed? && after == ClaimAll(before, others + [size])
  }
}
