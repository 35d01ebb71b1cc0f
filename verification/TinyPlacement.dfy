/** Where the tiny allocator puts a payload and its header inside a free block. */
module TinyPlacement {
  import opened Bits
  import opened TinyCodec

  /** long_enough: the block of len bytes at off can serve size bytes with this alignment. */
  predicate LongEnough(off: nat, len: nat, size: nat, align: nat)
    requires len >= 1 && align >= 1
  {
    AlignUp(off + LenWithHeader(len), align) + size <= off + len
  }

  lemma LongEnoughSize(off: nat, len: nat, size: nat, align: nat)
    requires len >= 1 && OneBit(align) && LongEnough(off, len, size, align)
    ensures size < len
  {
    AlignUpLeast(off + LenWithHeader(len), align, 0);
  }

  /** It can exactly when a header for the whole block leaves room for an aligned payload. */
  lemma LongEnoughExactly(off: nat, len: nat, size: nat, align: nat)
    requires len >= 1 && OneBit(align)
    ensures LongEnough(off, len, size, align) <==>
              exists p: nat :: p % align == 0 && off + LenWithHeader(len) <= p && p + size <= off + len
  {
    hide LenWithHeader;
    AlignUpLeast(off + LenWithHeader(len), align, 0);
    if p: nat :| p % align == 0 && off + LenWithHeader(len) <= p && p + size <= off + len {
      AlignUpLeast(off + LenWithHeader(len), align, p);
    }
  }

  /** Payload start: the far end of the block, rounded down to the alignment. */
  function PayloadStart(off: nat, len: nat, size: nat, align: nat): nat
    requires size <= off + len && align >= 1
  {
    AlignDown(off + len - size, align)
  }

  lemma PayloadFits(off: nat, len: nat, size: nat, align: nat)
    requires len >= MIN_BLOCK_SIZE && size >= 1 && OneBit(align) && LongEnough(off, len, size, align)
    ensures size <= off + len
    ensures var actual := PayloadStart(off, len, size, align);
            actual % align == 0 && off + LenWithHeader(len) <= actual && actual + size <= off + len
    ensures forall p: nat :: p % align == 0 && p + size <= off + len ==> p <= PayloadStart(off, len, size, align)
  {
    forall p: nat | p % align == 0 && p + size <= off + len ensures p <= PayloadStart(off, len, size, align) {
      AlignDownGreatest(off + len - size, align, p);
    }
    var at := AlignUp(off + LenWithHeader(len), align);
    AlignUpLeast(off + LenWithHeader(len), align, 0);
    AlignDownGreatest(off + len - size, align, at);
  }

  /** Header start when the block is split: the header ends exactly at the payload. */
  function HeaderStart(off: nat, len: nat, actual: nat): int
    requires actual < off + len
  {
    actual - LenWithHeader(off + len - actual)
  }

  /** A header sized for what follows it ends exactly where that begins. */
  lemma HeaderExact(off: nat, len: nat, actual: nat)
    requires len >= MIN_BLOCK_SIZE && off + LenWithHeader(len) <= actual < off + len
    ensures var hdr := HeaderStart(off, len, actual);
            off <= hdr < actual && EncodeLength(off + len - hdr - MIN_BLOCK_SIZE) == actual - hdr
  {
    var rest := off + len - actual;
    LenWithHeaderLeast(rest);
    LenWithHeaderMono(rest, len);
  }

  /**
    The header of the allocated part starts at or after the block.  When the block is
    split it fills the space up to the payload exactly; when the rest is too small to
    split, the header still fits and leaves at most one byte of padding.
   */
  lemma HeaderFits(off: nat, len: nat, actual: nat)
    requires len >= MIN_BLOCK_SIZE && off + LenWithHeader(len) <= actual < off + len
    ensures var hdr := HeaderStart(off, len, actual);
            && off <= hdr < actual
            && EncodeLength(off + len - hdr - MIN_BLOCK_SIZE) == actual - hdr
            && (hdr - off < MIN_BLOCK_SIZE ==>
                  off + EncodeLength(len - MIN_BLOCK_SIZE) <= actual <= off + EncodeLength(len - MIN_BLOCK_SIZE) + 1)
  {
    hide LenWithHeader, EncodeLength;
    HeaderExact(off, len, actual);
    var hdr := HeaderStart(off, len, actual);
    EncodeLengthStep(off + len - hdr - MIN_BLOCK_SIZE);
    if hdr - off < MIN_BLOCK_SIZE {
      assert hdr == off || hdr == off + 1;
    }
  }

  /**
    The case in which a byte is left over: the header computed for the payload starts one
    byte behind the block, too little to split off, and a header for the whole block is no longer.
   */
  predicate LeavesByte(off: nat, len: nat, actual: nat)
    requires actual < off + len
  {
    HeaderStart(off, len, actual) == off + 1 && len >= 3
    && EncodeLength(len - MIN_BLOCK_SIZE) == EncodeLength(len - 1 - MIN_BLOCK_SIZE)
  }

  /** When the block is used whole, there is padding exactly in that case. */
  lemma PaddingExactly(off: nat, len: nat, actual: nat)
    requires len >= MIN_BLOCK_SIZE && off + LenWithHeader(len) <= actual < off + len
    requires HeaderStart(off, len, actual) - off < MIN_BLOCK_SIZE
    ensures actual != off + EncodeLength(len - MIN_BLOCK_SIZE) <==> LeavesByte(off, len, actual)
  {
    hide LenWithHeader, EncodeLength;
    HeaderExact(off, len, actual);
    if HeaderStart(off, len, actual) == off + 1 {
      EncodeLengthStep(len - 1 - MIN_BLOCK_SIZE);
    }
  }

  /**
    Padding is possible: a block of ten bytes at offset 0 that serves eight bytes keeps
    one zero byte between its header and its payload, so that its length less its header
    is one more than the room behind the payload.
   */
  lemma PaddingExample()
    ensures LongEnough(0, 10, 8, 1) && PayloadStart(0, 10, 8, 1) == 2
    ensures HeaderStart(0, 10, 2) == 1 && EncodeLength(10 - MIN_BLOCK_SIZE) == 1
  {
    assert EncodeLength(8) == 1;
    assert EncodeLength(9) == 1;
    assert EncodeLength(7) == 1;
    assert LenWithHeader(10) == 1;
    assert LenWithHeader(8) == 1;
    AlignUpLeast(1, 1, 1);
    AlignDownGreatest(2, 1, 2);
  }
}
