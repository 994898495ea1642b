/**
 Cutting the user data out of the attestation with an element of the rebuilt Sig_structure
 (DKIMRegistry.sol:84-105): its start is moved back by eleven when the byte found there is 0xa1.
 */
module UserData {
  import opened Basics
  import opened LibBytes
  import opened CborDecode
  import opened Cose

  /** The head of a one-entry map. */
  const ONE_ENTRY: byte := 0xa1

  lemma OneEntryHead()
    ensures [ONE_ENTRY] == Head(5, 1, Inline) == [0xa1]
  {}

  /** What the workaround looks for: that byte, eleven bytes before the place an element names. */
  predicate MarkedBefore(attestation: bytes, element: CborElement) {
    element.start >= 11 && element.start - 11 < |attestation| && attestation[element.start - 11] == ONE_ENTRY
  }

  /** `_extractBytes`. */
  function ExtractBytes(attestation: bytes, element: CborElement): Result<bytes> {
    if MarkedBefore(attestation, element) then
      var start := element.start - 11;
      var length := if start + element.Length() > |attestation| then |attestation| - start else element.Length();
      Slice(attestation, start, length)
    else
      Slice(attestation, element.start, element.Length())
  }

  /** A non-empty string whose content starts in the raw payload of the Sig_structure of `c`, and may run past it. */
  ghost predicate StartsInPayload(c: CoseSign1, e: CborElement) {
    && c.Valid() && e.Length() > 0
    && 13 + |c.RawProtected()| <= e.start <= 13 + |c.RawProtected()| + |c.RawPayload()|
  }

  /** The signed bytes of an element: its content up to the end of the Sig_structure. */
  function SignedPart(tbs: bytes, e: CborElement): (r: bytes)
    requires e.start <= |tbs|
    ensures e.End() <= |tbs| ==> SliceOf(tbs, e) == Ok(r)
    ensures e.End() > |tbs| ==> SliceOf(tbs, e).Revert?
  {
    tbs[e.start..Min(e.End(), |tbs|)]
  }

  /** `b` is among the `n` bytes from `i` on. */
  ghost predicate Reappears(s: bytes, i: nat, n: nat, b: byte) {
    exists k {:trigger s[k]} :: i <= k < i + n && k < |s| && s[k] == b
  }

  /** Over `len` bytes from `i` on, `s` repeats what stands `n` bytes further on. */
  ghost predicate Repeats(s: bytes, i: nat, n: nat, len: nat) {
    i + n + len <= |s| && forall k {:trigger s[k]} :: i <= k < i + len ==> s[k] == s[k + n]
  }

  /** What stands at one place also stands `n` bytes further on exactly if the bytes repeat. */
  lemma {:induction false} RepeatsExactly(s: bytes, i: nat, n: nat, data: bytes)
    requires At(s, i, data)
    ensures At(s, i + n, data) <==> Repeats(s, i, n, |data|)
  {
    if At(s, i + n, data) {
      forall k {:trigger s[k]} | i <= k < i + |data| ensures s[k] == s[k + n] {
        AtByte(s, i, data, k - i);
        AtByte(s, i + n, data, k - i);
      }
    }
    if Repeats(s, i, n, |data|) {
      forall j | 0 <= j < |data| ensures s[i + n..i + n + |data|][j] == data[j] {
        AtByte(s, i, data, j);
        assert s[i + j] == s[i + j + n];
      }
      assert s[i + n..i + n + |data|] == data;
    }
  }

  /** And from the copy further on, back to the earlier place. */
  lemma {:induction false} RepeatsBackwards(s: bytes, i: nat, n: nat, data: bytes)
    requires At(s, i + n, data)
    ensures At(s, i, data) <==> Repeats(s, i, n, |data|)
  {
    if At(s, i, data) {
      RepeatsExactly(s, i, n, data);
    }
    if Repeats(s, i, n, |data|) {
      forall j | 0 <= j < |data| ensures s[i..i + |data|][j] == data[j] {
        AtByte(s, i + n, data, j);
        assert s[i + j] == s[i + j + n];
      }
      assert s[i..i + |data|] == data;
    }
  }

  /**
   What is read instead, for `len` bytes that start at `at`, `n` bytes before the place the element names: from 11 - n
   bytes too early, and cut off at the end, if 0xa1 stands there; and from n bytes too late if not.
   */
  function Misread(s: bytes, at: nat, n: nat, len: nat): Result<bytes>
    requires n <= 11 <= at + n && at + n - 11 < |s|
  {
    var early := at + n - 11;
    if s[early] == ONE_ENTRY then Ok(s[early..Min(early + len, |s|)]) else Slice(s, at + n, len)
  }

  /** The extraction reads just that. */
  lemma {:induction false} ExtractionReads(s: bytes, e: CborElement, at: nat, n: nat)
    requires n <= 11 <= e.start == at + n && e.start - 11 < |s|
    ensures ExtractBytes(s, e) == Misread(s, at, n, e.Length())
  {}

  /** Exactly when the misread bytes are the right ones. */
  lemma {:induction false} MisreadExact(s: bytes, at: nat, n: nat, data: bytes)
    requires n <= 11 <= at + n && |data| > 0 && At(s, at, data)
    ensures Misread(s, at, n, |data|) == Ok(data) <==>
      if s[at + n - 11] == ONE_ENTRY then Repeats(s, at + n - 11, 11 - n, |data|) else Repeats(s, at, n, |data|)
  {
    hide Repeats;
    RepeatsExactly(s, at, n, data);
    RepeatsBackwards(s, at + n - 11, 11 - n, data);
  }

  /**
   Repeating every `n` bytes brings the first byte back among the last `n` bytes of the repetition, so the
   misreading goes unnoticed only then.
   */
  lemma {:induction false} RepeatsReturns(s: bytes, i: nat, n: nat, len: nat, k: nat)
    requires Repeats(s, i, n, len) && n > 0 && len > 0 && k < len && s[i + k] == s[i]
    ensures Reappears(s, i + len, n, s[i])
    decreases len - k
  {
    assert s[i + k] == s[i + k + n];
    if k + n < len {
      RepeatsReturns(s, i, n, len, k + n);
    } else {
      assert i + len <= i + k + n < i + len + n;
    }
  }

  lemma Wider(s: bytes, i: nat, n: nat, j: nat, b: byte)
    requires Reappears(s, i, n, b) && j <= i && i + n <= j + 11
    ensures Reappears(s, j, 11, b)
  {}

  /** The signed part of an element stands `Shift` bytes earlier in the attestation, up to where its payload ends. */
  lemma {:induction false} SignedPartStands(s: bytes, c: CoseSign1, e: CborElement)
    requires Holds(s, c) && StartsInPayload(c, e)
    ensures var tbs, n := SigStructure(c.RawProtected(), c.RawPayload()), Shift(s, c);
      && n <= 11 <= e.start <= |tbs| && e.start - 11 < |s|
      && At(s, e.start - n, SignedPart(tbs, e)) && e.start - n <= SignedEnd(s, c) < |s| && SignedEnd(s, c) == |tbs| - n
  {
    hide ByteString, Head, Offset, At, SignedEnd, Shift;
    var tbs := SigStructure(c.RawProtected(), c.RawPayload());
    PayloadStands(s, c);
    ShiftIsEleven(s, c);
    assert At(tbs, e.start, SignedPart(tbs, e)) by { PartInPlace(tbs, e); }
    PayloadShifted(s, c, e.start, SignedPart(tbs, e));
  }

  lemma PartInPlace(tbs: bytes, e: CborElement)
    requires e.start <= |tbs|
    ensures At(tbs, e.start, SignedPart(tbs, e))
  {}

  /** The misread bytes of an attestation happen to repeat the ones that should be read. */
  ghost predicate ByChance(s: bytes, c: CoseSign1, start: nat, len: nat)
    requires c.Valid() && 11 <= start && start - 11 < |s|
  {
    var n := Shift(s, c);
    if s[start - 11] == ONE_ENTRY then n < 11 && Repeats(s, start - 11, 11 - n, len)
    else 0 < n <= start && Repeats(s, start - n, n, len)
  }

  /**
   For every attestation that decodes and every element that starts in its payload: the extraction returns what the
   element says of the signed bytes exactly if there is no tag, the unprotected map is announced in one byte, and the
   content starts as a one-entry map; and else only by chance, when every byte comes again `Shift` bytes later or 11 -
   `Shift` bytes earlier. For an element that runs past the signed bytes, which has no content there, it reverts, as
   it should, exactly if there is no 0xa1 eleven bytes before it and it runs past the attestation too.
   */
  lemma {:induction false} ExtractionExact(s: bytes, c: CoseSign1, e: CborElement)
    requires Holds(s, c) && StartsInPayload(c, e)
    ensures e.start >= 11 && e.start - 11 < |s|
    ensures var tbs := SigStructure(c.RawProtected(), c.RawPayload());
      ExtractBytes(s, e) == SliceOf(tbs, e) <==>
      if e.End() <= |tbs|
      then (s[0] != TAG_18 && c.mapWidth == Inline && tbs[e.start] == ONE_ENTRY) || ByChance(s, c, e.start, e.Length())
      else s[e.start - 11] != ONE_ENTRY && e.End() > |s|
  {
    hide SigStructure, ByteString, Head, Offset, At, Repeats, SignedEnd, Shift;
    var tbs, n := SigStructure(c.RawProtected(), c.RawPayload()), Shift(s, c);
    SignedPartStands(s, c, e);
    ShiftIsEleven(s, c);
    ExtractionReads(s, e, e.start - n, n);
    if e.End() <= |tbs| {
      var data := SignedPart(tbs, e);
      AtByte(s, e.start - n, data, 0);
      AtFits(s, e.start - n, data);
      MisreadExact(s, e.start - n, n, data);
      RepeatsNothing(s, e.start - n, data);
    }
  }

  lemma AtFits(s: bytes, i: nat, t: bytes)
    requires At(s, i, t)
    ensures i + |t| <= |s|
  {}

  /** Chance takes the first byte coming again within eleven bytes of the misread ones. */
  lemma {:induction false} ChanceReappears(s: bytes, c: CoseSign1, e: CborElement)
    requires Holds(s, c) && StartsInPayload(c, e) && e.End() <= |SigStructure(c.RawProtected(), c.RawPayload())|
    ensures e.start >= 11 && e.start - 11 < |s|
    ensures ByChance(s, c, e.start, e.Length()) ==>
      Reappears(s, e.start - 11 + e.Length(), 11, SigStructure(c.RawProtected(), c.RawPayload())[e.start])
  {
    hide SigStructure, ByteString, Head, Reappears, Offset, At, Repeats, SignedEnd, Shift;
    var data := SignedPart(SigStructure(c.RawProtected(), c.RawPayload()), e);
    SignedPartStands(s, c, e);
    ShiftIsEleven(s, c);
    AtByte(s, e.start - Shift(s, c), data, 0);
    if ByChance(s, c, e.start, e.Length()) { ChanceOnBytes(s, e.start, Shift(s, c), data); }
  }

  /** The same on bare bytes. */
  lemma {:induction false} ChanceOnBytes(s: bytes, start: nat, n: nat, data: bytes)
    requires 0 < n <= 11 <= start && start - 11 < |s| && |data| > 0 && At(s, start - n, data)
    requires if s[start - 11] == ONE_ENTRY then n < 11 && Repeats(s, start - 11, 11 - n, |data|)
             else Repeats(s, start - n, n, |data|)
    ensures Reappears(s, start - 11 + |data|, 11, data[0])
  {
    hide Reappears, Repeats, At;
    AtByte(s, start - n, data, 0);
    if s[start - 11] == ONE_ENTRY {
      FirstRepeats(s, start - 11, 11 - n, |data|);
      RepeatsReturns(s, start - 11, 11 - n, |data|, 0);
      Wider(s, start - 11 + |data|, 11 - n, start - 11 + |data|, data[0]);
    } else {
      RepeatsReturns(s, start - n, n, |data|, 0);
      Wider(s, start - n + |data|, n, start - 11 + |data|, data[0]);
    }
  }

  lemma RepeatsNothing(s: bytes, i: nat, data: bytes)
    requires At(s, i, data)
    ensures Repeats(s, i, 0, |data|)
  {}

  lemma FirstRepeats(s: bytes, i: nat, n: nat, len: nat)
    requires Repeats(s, i, n, len) && len > 0
    ensures i + n < |s| && s[i] == s[i + n]
  {}

  // ---------------------------------------------------------------- past the signed bytes

  /**
   Where the workaround takes effect as intended, eleven bytes back onto a 0xa1, it reads the signed part of the
   element and then, if the element runs past the signed bytes, what stands behind the payload in the attestation, up
   to its end: so it reads signed bytes only if and only if the element ends with them.
   */
  lemma {:induction false} OverrunExtracted(s: bytes, c: CoseSign1, e: CborElement)
    requires Holds(s, c) && StartsInPayload(c, e) && Shift(s, c) == 11
    ensures e.start >= 11 && e.start - 11 < |s|
    ensures var tbs := SigStructure(c.RawProtected(), c.RawPayload());
      var behind := SignedEnd(s, c);
      var end := Min(e.End() - 11, |s|);
      && e.start <= |tbs| && behind <= |s|
      && (s[e.start - 11] == ONE_ENTRY ==>
           && ExtractBytes(s, e) == Ok(s[e.start - 11..end])
           && ExtractBytes(s, e) == Ok(SignedPart(tbs, e) + if end > behind then s[behind..end] else [])
           && (SignedEnd(s, c) - |c.RawPayload()| <= e.start - 11 && end <= behind <==> e.End() <= |tbs|))
  {
    hide SigStructure, ByteString, Head, Offset, At, SignedEnd, Shift;
    var tbs, behind := SigStructure(c.RawProtected(), c.RawPayload()), SignedEnd(s, c);
    SignedPartStands(s, c, e);
    PayloadStands(s, c);
    AtFits(s, e.start - 11, SignedPart(tbs, e));
    TbsLength(c);
    if s[e.start - 11] == ONE_ENTRY {
      ReadThrough(s, e.start - 11, SignedPart(tbs, e), behind, Min(e.End() - 11, |s|));
    }
  }

  lemma TbsLength(c: CoseSign1)
    requires c.Valid()
    ensures |SigStructure(c.RawProtected(), c.RawPayload())| == 13 + |c.RawProtected()| + |c.RawPayload()|
  {
    hide ByteString;
  }

  lemma ReadThrough(s: bytes, i: nat, signed: bytes, behind: nat, end: nat)
    requires At(s, i, signed) && i <= end <= |s| && behind <= |s|
    requires i + |signed| == if end > behind then behind else end
    ensures s[i..end] == signed + if end > behind then s[behind..end] else []
  {}
}
