/**
  Block headers of the tiny allocator.  A header can be read from its first byte or
  from its last: both have the top bit set, the bytes between have it clear.
 */
module TinyCodec {
  import opened Shared
  import opened Powers
  import opened Logs

  const MIN_BLOCK_SIZE: int := 2
  const TERM_BIT: int := 128
  const SINGLE_BYTE: int := 64
  const FREE_BIT: int := 32

  predicate HasTerm(b: Byte) {
    b >= TERM_BIT
  }

  predicate HasSingle(b: Byte) {
    b / SINGLE_BYTE % 2 == 1
  }

  predicate HasFree(b: Byte) {
    b / FREE_BIT % 2 == 1
  }

  /** Bytes of the encoding of v, a block length less MIN_BLOCK_SIZE. */
  function EncodeLength(v: nat): (n: nat) {
    if Ilog(v) <= 5 then 1 else 2 + (Ilog(v) - 5) / 7
  }

  // ----- Encoding -----

  function EncodeTail(v: nat): (s: seq<Byte>)
    ensures |s| >= 1
  {
    if v < 64 then [v + TERM_BIT] else [v % 128] + EncodeTail(v / 128)
  }

  function FirstByte(v: nat, free: bool): (b: Byte) {
    TERM_BIT + (if free then FREE_BIT else 0) + v % 32 + if v < 32 then SINGLE_BYTE else 0
  }

  function Encode(len: nat, free: bool): (s: seq<Byte>)
    requires len >= MIN_BLOCK_SIZE
    ensures |s| >= 1
  {
    var v := len - MIN_BLOCK_SIZE;
    [FirstByte(v, free)] + if v < 32 then [] else EncodeTail(v / 32)
  }

  // ----- Decoding -----

  datatype Tail = Tail(value: nat, bytes: nat) | NoTail
  datatype Header = Header(len: nat, free: bool, bytes: nat) | NoHeader

  function DecodeTail(s: seq<Byte>): (r: Tail) {
    if s == [] then NoTail
    else if HasTerm(s[0]) then Tail(s[0] % 64, 1)
    else match DecodeTail(s[1..])
      case NoTail => NoTail
      case Tail(v, n) => Tail(s[0] + 128 * v, n + 1)
  }

  function Decode(s: seq<Byte>): (r: Header) {
    if s == [] then NoHeader
    else if HasSingle(s[0]) then Header(s[0] % 32 + MIN_BLOCK_SIZE, HasFree(s[0]), 1)
    else match DecodeTail(s[1..])
      case NoTail => NoHeader
      case Tail(v, n) => Header(s[0] % 32 + 32 * v + MIN_BLOCK_SIZE, HasFree(s[0]), n + 1)
  }

  lemma FirstByteFacts(v: nat, free: bool)
    ensures var b := FirstByte(v, free);
            HasTerm(b) && (HasSingle(b) <==> v < 32) && (HasFree(b) <==> free) && b % 32 == v % 32
  {
  }

  lemma {:induction false} DecodeTailEncode(v: nat, rest: seq<Byte>)
    ensures DecodeTail(EncodeTail(v) + rest) == Tail(v, |EncodeTail(v)|)
  {
    var s := EncodeTail(v) + rest;
    if v >= 64 {
      DecodeTailEncode(v / 128, rest);
      assert s[1..] == EncodeTail(v / 128) + rest;
    }
  }

  /** Reading forward: decode inverts encode, whatever bytes come after the header. */
  lemma DecodeEncode(len: nat, free: bool, rest: seq<Byte>)
    requires len >= MIN_BLOCK_SIZE
    ensures Decode(Encode(len, free) + rest) == Header(len, free, |Encode(len, free)|)
  {
    var v := len - MIN_BLOCK_SIZE;
    var s := Encode(len, free) + rest;
    FirstByteFacts(v, free);
    if v >= 32 {
      assert s[1..] == EncodeTail(v / 32) + rest;
      DecodeTailEncode(v / 32, rest);
    }
  }

  // ----- Header length -----

  lemma {:induction false} TailLength(v: nat)
    ensures |EncodeTail(v)| == 1 + Ilog(v) / 7
  {
    IlogAtMost(v, 6);
    assert Pow2(6) == 64;
    if v >= 64 {
      TailLength(v / 128);
      assert Pow2(7) == 128;
      IlogShift(v, 7);
      ShrFiveSeven(v);
    }
  }

  /** encode writes exactly encode_length(len - 2) bytes. */
  lemma EncodedLength(len: nat, free: bool)
    requires len >= MIN_BLOCK_SIZE
    ensures |Encode(len, free)| == EncodeLength(len - MIN_BLOCK_SIZE)
  {
    var v := len - MIN_BLOCK_SIZE;
    assert Pow2(5) == 32;
    IlogAtMost(v, 5);
    if v >= 32 {
      TailLength(v / 32);
      IlogShift(v, 5);
      ShrFiveSeven(v);
    }
  }

  lemma {:induction false} IlogStep(v: nat)
    ensures Ilog(v) <= Ilog(v + 1) <= Ilog(v) + 1
  {
    if v > 0 {
      IlogStep(v / 2);
    }
  }

  lemma EncodeLengthStep(v: nat)
    ensures EncodeLength(v) <= EncodeLength(v + 1) <= EncodeLength(v) + 1
  {
    IlogStep(v);
  }

  lemma EncodeLengthMono(v: nat, w: nat)
    requires v <= w
    ensures EncodeLength(v) <= EncodeLength(w)
  {
    IlogMono(v, w);
  }

  lemma {:induction false} IlogSmall(v: nat)
    ensures 2 * Ilog(v) <= v + 4
  {
    if v > 0 {
      IlogSmall(v / 2);
    }
  }

  lemma EncodeLengthSmall(v: nat)
    ensures 1 <= EncodeLength(v) <= 1 + v / 2
  {
    IlogSmall(v);
    assert Pow2(5) == 32;
    IlogAtMost(v, 5);
  }

  // ----- Reading backward -----

  lemma {:induction false} TailBytes(v: nat, x: nat)
    requires x < |EncodeTail(v)|
    ensures HasTerm(EncodeTail(v)[x]) <==> x == |EncodeTail(v)| - 1
    ensures x == |EncodeTail(v)| - 1 ==> !HasSingle(EncodeTail(v)[x])
  {
    if v >= 64 && x > 0 {
      TailBytes(v / 128, x - 1);
    }
  }

  /**
    Exactly the first and the last byte of a header carry the top bit; the last byte
    says whether it is also the first.
   */
  lemma HeaderBytes(len: nat, free: bool, x: nat)
    requires len >= MIN_BLOCK_SIZE && x < |Encode(len, free)|
    ensures HasTerm(Encode(len, free)[x]) <==> x == 0 || x == |Encode(len, free)| - 1
    ensures x == |Encode(len, free)| - 1 ==> (HasSingle(Encode(len, free)[x]) <==> x == 0)
  {
    var v := len - MIN_BLOCK_SIZE;
    FirstByteFacts(v, free);
    if x > 0 {
      TailBytes(v / 32, x - 1);
    }
  }

  // ----- The header length that accounts for the header itself -----

  /** Header bytes of a block whose payload and header together come to len + h bytes. */
  function HeaderFor(len: nat, h: nat): nat
    requires len >= 1 && h >= 1
  {
    EncodeLength(len + h - MIN_BLOCK_SIZE)
  }

  lemma HeaderForBounded(len: nat, h: nat)
    requires len >= 1 && 1 <= h <= len
    ensures 1 <= HeaderFor(len, h) <= len
  {
    EncodeLengthSmall(len + h - MIN_BLOCK_SIZE);
  }

  lemma HeaderForMono(len: nat, h: nat, len1: nat, h1: nat)
    requires 1 <= len <= len1 && 1 <= h <= h1
    ensures HeaderFor(len, h) <= HeaderFor(len1, h1)
  {
    EncodeLengthMono(len + h - MIN_BLOCK_SIZE, len1 + h1 - MIN_BLOCK_SIZE);
  }

  /** The least fixpoint of HeaderFor(len, .). */
  ghost predicate LeastHeader(len: nat, h: nat)
    requires len >= 1
  {
    1 <= h <= len && HeaderFor(len, h) == h && forall g :: 1 <= g < h ==> HeaderFor(len, g) > g
  }

  function HeaderFrom(len: nat, h: nat): (r: nat)
    requires len >= 1 && 1 <= h <= len && h <= HeaderFor(len, h)
    ensures h <= r <= len
    decreases len - h
  {
    HeaderForBounded(len, h);
    var g := HeaderFor(len, h);
    if g == h then h
    else
      HeaderForMono(len, h, len, g);
      HeaderFrom(len, g)
  }

  /** encode_len_with_header: the value its loop ends with. */
  function LenWithHeader(len: nat): (h: nat)
    requires len >= 1
    ensures 1 <= h <= len
  {
    EncodeLengthSmall(len - 1);
    HeaderFrom(len, 1)
  }

  lemma {:induction false} HeaderFromLeast(len: nat, h: nat)
    requires len >= 1 && 1 <= h <= len && h <= HeaderFor(len, h)
    ensures HeaderFor(len, HeaderFrom(len, h)) == HeaderFrom(len, h)
    ensures forall g :: h <= g < HeaderFrom(len, h) ==> HeaderFor(len, g) > g
    decreases len - h
  {
    var f := HeaderFor(len, h);
    HeaderForBounded(len, h);
    if f != h {
      HeaderForMono(len, h, len, f);
      HeaderFromLeast(len, f);
      forall g | h <= g < f ensures HeaderFor(len, g) > g {
        HeaderForMono(len, h, len, g);
      }
    }
  }

  lemma LenWithHeaderLeast(len: nat)
    requires len >= 1
    ensures LeastHeader(len, LenWithHeader(len))
  {
    EncodeLengthSmall(len - 1);
    HeaderFromLeast(len, 1);
  }

  lemma LenWithHeaderMono(len: nat, len1: nat)
    requires 1 <= len <= len1
    ensures LenWithHeader(len) <= LenWithHeader(len1)
  {
    LenWithHeaderLeast(len);
    LenWithHeaderLeast(len1);
    var h := LenWithHeader(len1);
    HeaderForMono(len, h, len1, h);
  }
}
