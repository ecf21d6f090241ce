/**
  Shared helpers of the dispatcher: the fixed-width integer types, the
  big-endian 4-byte read of a worker's reported count, and the removal of the
  port from a "host:port" address.
 */
module Common {

  newtype byte = x: int | 0 <= x < 0x100
  newtype uint32 = x: int | 0 <= x < 0x1_0000_0000

  /** The error value a read returns; `Nil` is Go's nil error. */
  datatype Status = Nil | EOF | IOFailure | BufferTooShort

  /**
    One `conn.Read(buf)`: how many bytes arrived, the error it reported, and the
    contents of the whole buffer afterwards.
   */
  datatype ReadEvent = ReadEvent(n: int, err: Status, data: seq<byte>)

  /** What any `io.Reader` promises about a read into a buffer of `bufLen` bytes. */
  predicate ReaderContract(bufLen: int, ev: ReadEvent)
  {
    && 0 <= ev.n <= bufLen
    && |ev.data| == bufLen
    && ev.err != BufferTooShort
  }

  /** The pair `(uint32, error)` that `ReadUint32` returns. */
  datatype Uint32Read = Uint32Read(value: uint32, err: Status)

  /** The big-endian value of four bytes; each byte of the input is one base-256 digit of the result. */
  function Decode(b: seq<byte>): (r: uint32)
    requires |b| == 4
    ensures r as int / 0x100_0000 == b[0] as int
    ensures r as int / 0x1_0000 % 0x100 == b[1] as int
    ensures r as int / 0x100 % 0x100 == b[2] as int
    ensures r as int % 0x100 == b[3] as int
  {
    var low := b[1] as int * 0x1_0000 + b[2] as int * 0x100 + b[3] as int;
    var mid := b[2] as int * 0x100 + b[3] as int;
    DivModUnique(b[0] as int, 0x100_0000, low);
    DivModUnique(b[0] as int * 0x100 + b[1] as int, 0x1_0000, mid);
    DivModUnique(b[0] as int * 0x1_0000 + b[1] as int * 0x100 + b[2] as int, 0x100, b[3] as int);
    DivModUnique(b[0] as int, 0x100, b[1] as int);
    DivModUnique(b[0] as int * 0x100 + b[1] as int, 0x100, b[2] as int);
    (b[0] as int * 0x100_0000 + low) as uint32
  }

  /** Euclidean division is determined by quotient and remainder. */
  lemma DivModUnique(q: int, k: int, rem: int)
    requires k > 0 && 0 <= rem < k
    ensures (q * k + rem) / k == q
    ensures (q * k + rem) % k == rem
  {
    var x := q * k + rem;
    var q', r' := x / k, x % k;
    assert x == q' * k + r';
    assert (q - q') * k == r' - rem;
    if q != q' {
      MulAtLeast(q - q', k);
    }
  }

  lemma MulAtLeast(d: int, k: int)
    requires k > 0 && d != 0
    ensures d * k >= k || d * k <= -k
  {
  }

  /** The four bytes a worker puts on the wire for `v`, most significant first. */
  function Encode(v: uint32): (r: seq<byte>)
    ensures |r| == 4
  {
    var x := v as int;
    [(x / 0x100_0000) as byte, (x / 0x1_0000 % 0x100) as byte, (x / 0x100 % 0x100) as byte, (x % 0x100) as byte]
  }

  lemma DecodeEncode(v: uint32)
    ensures Decode(Encode(v)) == v
  {
    var x := v as int;
    var a, r3 := x / 0x100, x % 0x100;
    var b, r2 := a / 0x100, a % 0x100;
    var c, r1 := b / 0x100, b % 0x100;
    assert x == b * 0x1_0000 + r2 * 0x100 + r3;
    assert x == c * 0x100_0000 + r1 * 0x1_0000 + r2 * 0x100 + r3;
    DivModUnique(c, 0x100_0000, r1 * 0x1_0000 + r2 * 0x100 + r3);
    DivModUnique(b, 0x1_0000, r2 * 0x100 + r3);
    assert Encode(v) == [c as byte, r1 as byte, r2 as byte, r3 as byte];
  }

  lemma EncodeDecode(b: seq<byte>)
    requires |b| == 4
    ensures Encode(Decode(b)) == b
  {
  }

  /**
    `ReadUint32(conn, buf)`: a buffer shorter than four bytes fails before any
    read; a read that fails, or that delivers other than exactly four bytes,
    yields 0 together with the reader's error, which is nil for a short or
    over-long read that reported no error; otherwise the first four bytes of
    the buffer are decoded big-endian.
   */
  function ReadUint32(bufLen: int, ev: ReadEvent): (r: Uint32Read)
    requires bufLen >= 4 ==> ReaderContract(bufLen, ev)
    ensures bufLen < 4 ==> r == Uint32Read(0, BufferTooShort)
    ensures bufLen >= 4 ==> r.err == ev.err
    ensures r.value != 0 ==> r.err == Nil
    ensures bufLen >= 4 && (ev.err != Nil || ev.n != 4) ==> r.value == 0
    ensures bufLen >= 4 && ev.err == Nil && ev.n == 4 ==> Encode(r.value) == ev.data[..4]
  {
    if bufLen < 4 then
      Uint32Read(0, BufferTooShort)
    else if ev.err != Nil || ev.n != 4 then
      Uint32Read(0, ev.err)
    else
      EncodeDecode(ev.data[..4]);
      Uint32Read(Decode(ev.data[..4]), Nil)
  }

  /** A worker that writes `Encode(v)` into an empty stream is read back as `v`, whatever follows in the buffer. */
  lemma ReadUint32RoundTrip(v: uint32, bufLen: int, rest: seq<byte>)
    requires bufLen >= 4 && |rest| == bufLen - 4
    ensures ReadUint32(bufLen, ReadEvent(4, Nil, Encode(v) + rest)) == Uint32Read(v, Nil)
  {
    assert (Encode(v) + rest)[..4] == Encode(v);
    DecodeEncode(v);
  }

  /** Two counts arriving in one read of the 24-byte session buffer are reported as a successful read of 0. */
  lemma CoalescedReadYieldsZero(a: uint32, b: uint32)
    ensures ReadUint32(24, ReadEvent(8, Nil, Encode(a) + Encode(b) + seq(16, _ => 0 as byte))) == Uint32Read(0, Nil)
  {
  }

  /** The position of the first `c` in `s`, or -1 when there is none (Go's `strings.Index`). */
  function IndexOf(s: string, c: char): (r: int)
    ensures -1 <= r < |s|
    ensures r == -1 <==> c !in s
    ensures r >= 0 ==> s[r] == c && c !in s[..r]
  {
    if |s| == 0 then -1
    else if s[0] == c then 0
    else
      var k := IndexOf(s[1..], c);
      assert s[1..][..if k < 0 then 0 else k] == s[1..if k < 0 then 1 else k + 1];
      if k == -1 then -1 else k + 1
  }

  /** `TrimIP`: the host part of an address, i.e. everything before its first ':'. */
  function TrimIP(ip: string): (r: string)
    ensures ':' !in r
    ensures r <= ip
    ensures ':' in ip ==> |r| < |ip| && ip[|r|] == ':'
    ensures ':' !in ip ==> r == ip
  {
    var i := IndexOf(ip, ':');
    if i >= 0 then ip[..i] else ip
  }

  lemma TrimIPIdempotent(ip: string)
    ensures TrimIP(TrimIP(ip)) == TrimIP(ip)
  {
  }

  /** Stripping the port of "host:port" gives back the host, whatever the port text is. */
  lemma TrimIPOfHostPort(host: string, port: string)
    requires ':' !in host
    ensures TrimIP(host + [':'] + port) == host
  {
    var s := host + [':'] + port;
    assert s[|host|] == ':';
    assert s[..|host|] == host;
  }
}
