/** Events as the bytes of a log file. */
module EventCodec {

  newtype Byte = x: int | 0 <= x < 256

  /** The sizes and the timestamp are 64-bit words; the type name is stored as given, its
      terminator included. */
  datatype Event = Event(typeName: seq<Byte>, timestamp: nat, value: seq<Byte>)

  const DELIM: nat := 0xF0BAF0BA

  const HEADER_SIZE: nat := 32

  const WORD_LIMIT: nat := 0x1_0000_0000_0000_0000

  predicate WellSized(e: Event) {
    |e.typeName| < WORD_LIMIT && |e.value| < WORD_LIMIT && e.timestamp < WORD_LIMIT
  }

  function TotalSize(e: Event): nat {
    HEADER_SIZE + |e.typeName| + |e.value|
  }

  // ---- words ----

  /** The `k` least significant bytes of `n`, least significant first. */
  function LittleEndian(n: nat, k: nat): (bytes: seq<Byte>)
    ensures |bytes| == k
  {
    if k == 0 then [] else [(n % 256) as Byte] + LittleEndian(n / 256, k - 1)
  }

  function Value(bytes: seq<Byte>): nat {
    if bytes == [] then 0 else bytes[0] as nat + 256 * Value(bytes[1..])
  }

  function Power256(k: nat): (p: nat)
    ensures p > 0
  {
    if k == 0 then 1 else 256 * Power256(k - 1)
  }

  lemma {:induction false} WordTrip(n: nat, k: nat)
    requires n < Power256(k)
    ensures Value(LittleEndian(n, k)) == n
  {
    if k > 0 {
      WordTrip(n / 256, k - 1);
      assert LittleEndian(n, k)[1..] == LittleEndian(n / 256, k - 1);
    }
  }

  // ---- events ----

  function Encode(e: Event): (bytes: seq<Byte>)
    ensures |bytes| == TotalSize(e)
  {
    LittleEndian(DELIM, 8) + LittleEndian(|e.typeName|, 8) + LittleEndian(|e.value|, 8) + LittleEndian(e.timestamp, 8)
    + e.typeName + e.value
  }

  /** Bytes that can be read from a place on: what a file holds there, then zeros. */
  function Bytes(file: seq<Byte>, at: nat, n: nat): (bytes: seq<Byte>)
    ensures |bytes| == n
  {
    seq(n, i requires 0 <= i < n => if at + i < |file| then file[at + i] else 0)
  }

  predicate IsEvent(file: seq<Byte>, at: nat) {
    Value(Bytes(file, at, 8)) == DELIM
  }

  /** `Event::read`: the header first, then as many bytes as it says. */
  function Decode(file: seq<Byte>, at: nat): Event {
    var typeSize, valueSize := Value(Bytes(file, at + 8, 8)), Value(Bytes(file, at + 16, 8));
    Event(Bytes(file, at + HEADER_SIZE, typeSize), Value(Bytes(file, at + 24, 8)),
          Bytes(file, at + HEADER_SIZE + typeSize, valueSize))
  }

  lemma SixParts(file: seq<Byte>, at: nat, a: seq<Byte>, b: seq<Byte>, c: seq<Byte>, d: seq<Byte>, t: seq<Byte>,
          v: seq<Byte>)
    requires |a| == |b| == |c| == |d| == 8
    requires at + HEADER_SIZE + |t| + |v| <= |file| && file[at..at + HEADER_SIZE + |t| + |v|] == a + b + c + d + t + v
    ensures Bytes(file, at, 8) == a && Bytes(file, at + 8, 8) == b && Bytes(file, at + 16, 8) == c &&
        Bytes(file, at + 24, 8) == d
    ensures Bytes(file, at + HEADER_SIZE, |t|) == t && Bytes(file, at + HEADER_SIZE + |t|, |v|) == v
  {
    var all := a + b + c + d + t + v;
    assert all == [] + a + (b + c + d + t + v) == a + b + (c + d + t + v) == (a + b) + c + (d + t + v);
    assert all == (a + b + c) + d + (t + v) == (a + b + c + d) + t + v == (a + b + c + d + t) + v + [];
  }

  lemma WordOf(n: nat)
    requires n < WORD_LIMIT
    ensures Value(LittleEndian(n, 8)) == n
  {
    WordTrip(n, 8);
  }

  /** Reading an event back gives the event, wherever in a file it was written and whatever is around it. */
  lemma EventTrip(file: seq<Byte>, at: nat, e: Event)
    requires WellSized(e) && at + TotalSize(e) <= |file| && file[at..at + TotalSize(e)] == Encode(e)
    ensures IsEvent(file, at) && Decode(file, at) == e
  {
    WordOf(DELIM);
    WordOf(|e.typeName|);
    WordOf(|e.value|);
    WordOf(e.timestamp);
    SixParts(file, at, LittleEndian(DELIM, 8), LittleEndian(|e.typeName|, 8), LittleEndian(|e.value|, 8),
      LittleEndian(e.timestamp, 8), e.typeName, e.value);
  }

  /** The layout: four words of eight bytes, least significant first - the delimiter, the two sizes and
      the timestamp - and then the type name and the value. */
  lemma HeaderLayout(e: Event)
    requires WellSized(e)
    ensures var b := Encode(e);
      |b| == 32 + |e.typeName| + |e.value| &&
      Value(b[0..8]) == 0xF0BAF0BA && Value(b[8..16]) == |e.typeName| && Value(b[16..24]) == |e.value| &&
      Value(b[24..32]) == e.timestamp && b[32..32 + |e.typeName|] == e.typeName && b[32 + |e.typeName|..] == e.value
  {
    hide LittleEndian;
    WordOf(DELIM);
    WordOf(|e.typeName|);
    WordOf(|e.value|);
    WordOf(e.timestamp);
    var b := Encode(e);
    assert b[0..8] == LittleEndian(DELIM, 8) && b[8..16] == LittleEndian(|e.typeName|, 8);
    assert b[16..24] == LittleEndian(|e.value|, 8) && b[24..32] == LittleEndian(e.timestamp, 8);
  }

  /** A word is the sum of its bytes, each by its place. */
  lemma LittleEndianValue(bytes: seq<Byte>)
    requires |bytes| == 8
    ensures Value(bytes) ==
      bytes[0] as int + 0x100 * bytes[1] as int + 0x1_0000 * bytes[2] as int + 0x100_0000 * bytes[3] as int +
      0x1_0000_0000 * bytes[4] as int + 0x100_0000_0000 * bytes[5] as int + 0x1_0000_0000_0000 * bytes[6] as int +
      0x100_0000_0000_0000 * bytes[7] as int
  {
    ValueOne(bytes);
    ValueOne(bytes[1..]);
    ValueOne(bytes[2..]);
    ValueOne(bytes[3..]);
    ValueOne(bytes[4..]);
    ValueOne(bytes[5..]);
    ValueOne(bytes[6..]);
    ValueOne(bytes[7..]);
  }

  lemma ValueOne(bytes: seq<Byte>)
    requires bytes != []
    ensures Value(bytes) == bytes[0] as int + 256 * Value(bytes[1..])
    ensures |bytes| > 1 ==> bytes[1..][1..] == bytes[2..]
  {
  }

  /** A place whose first byte is zero holds no event: the delimiter starts with another byte. */
  lemma ZeroIsNoEvent(file: seq<Byte>, at: nat)
    requires at < |file| ==> file[at] == 0
    ensures !IsEvent(file, at)
  {
    var b := Bytes(file, at, 8);
    assert b[0] == 0;
    assert Value(b) % 256 == 0;
  }
}
