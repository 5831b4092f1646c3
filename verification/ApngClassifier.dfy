/** `classify_apng`: a bounded scan up to the first IEND that checks neither CRCs nor frames. */
module ApngClassifier {
  import opened Bytes
  import opened PngChunks
  import opened Wrappers
  import opened ApngParser
  import opened ApngStream

  datatype Classification = NotApng | Palette | Animated

  function Verdict(animated: bool, palette: bool): Classification {
    if !animated then NotApng else if palette then Palette else Animated
  }

  /** The scan from `offset`, given what it has seen. */
  function ScanFrom(body: seq<Byte>, offset: nat, animated: bool, palette: bool, imageData: bool): Classification
    requires offset <= |body|
    decreases |body| - offset
  {
    if offset == |body| then NotApng
    else if |body| - offset < CHUNK_OVERHEAD then NotApng
    else
      var length, tag := ReadU32(body, offset), ReadU32(body, offset + 4);
      if length > MAXIMUM_CHUNK_LENGTH || length > |body| - offset - CHUNK_OVERHEAD then NotApng
      else
        var isAnimated := animated || tag == ACTL;
        var hasPalette := palette || (tag == PLTE && !imageData);
        if tag == IEND then Verdict(isAnimated, hasPalette)
        else ScanFrom(body, offset + CHUNK_OVERHEAD + length, isAnimated, hasPalette, imageData || tag == IDAT)
  }

  function Classify(body: seq<Byte>): Classification {
    if |body| <= 41 || !HasSignature(body) then NotApng else ScanFrom(body, |SIGNATURE|, false, false, false)
  }

  method ClassifyApng(body: seq<Byte>) returns (r: Classification)
    ensures r == Classify(body)
  {
    if |body| <= 41 || !HasSignature(body) {
      return NotApng;
    }
    var hasAnimationControl, hasPalette, sawImageData, sawEnd := false, false, false, false;
    var offset := |SIGNATURE|;
    while offset < |body| && !sawEnd
      invariant offset <= |body|
      invariant !sawEnd ==> ScanFrom(body, offset, hasAnimationControl, hasPalette, sawImageData) == Classify(body)
      invariant sawEnd ==> Verdict(hasAnimationControl, hasPalette) == Classify(body)
      decreases |body| - offset
    {
      hide ReadU32, HasSignature;
      if |body| - offset < CHUNK_OVERHEAD {
        return NotApng;
      }
      var length := ReadU32(body, offset);
      if length > MAXIMUM_CHUNK_LENGTH || length > |body| - offset - CHUNK_OVERHEAD {
        return NotApng;
      }
      var typeOffset := offset + 4;
      if TagAt(body, typeOffset, ACTL) {
        hasAnimationControl := true;
      } else if !sawImageData && TagAt(body, typeOffset, PLTE) {
        hasPalette := true;
      } else if TagAt(body, typeOffset, IDAT) {
        sawImageData := true;
      }
      offset := offset + CHUNK_OVERHEAD + length;
      if TagAt(body, typeOffset, IEND) {
        sawEnd := true;
      }
    }
    if !sawEnd || !hasAnimationControl {
      return NotApng;
    }
    return if hasPalette then Palette else Animated;
  }

  // ----- what the scan means for a list of chunks

  predicate PaletteBeforeData(cs: seq<Chunk>) {
    exists j | 0 <= j < |cs| :: cs[j].tag == PLTE && Count(cs[..j], IDAT) == 0
  }

  /** The chunks before the first IEND; all of them when there is none. */
  function BeforeEnd(cs: seq<Chunk>): (r: seq<Chunk>)
    ensures r <= cs && Count(r, IEND) == 0
    ensures |r| < |cs| ==> cs[|r|].tag == IEND
  {
    if cs == [] then []
    else
      var r := BeforeEnd(cs[..|cs| - 1]);
      if |r| < |cs| - 1 || cs[|cs| - 1].tag == IEND then r else cs
  }

  predicate HasEnd(cs: seq<Chunk>) {
    |BeforeEnd(cs)| < |cs|
  }

  lemma PaletteGrows(cs: seq<Chunk>, k: nat)
    requires k < |cs|
    ensures PaletteBeforeData(cs[..k + 1]) <==> PaletteBeforeData(cs[..k]) || (cs[k].tag == PLTE && Count(cs[..k], IDAT) == 0)
  {
    var longer, shorter := cs[..k + 1], cs[..k];
    assert forall j | 0 <= j <= k :: longer[..j] == cs[..j];
    assert forall j | 0 <= j < k :: shorter[..j] == cs[..j] && shorter[j] == longer[j];
    if PaletteBeforeData(longer) && !(cs[k].tag == PLTE && Count(cs[..k], IDAT) == 0) {
      var j :| 0 <= j < |longer| && longer[j].tag == PLTE && Count(longer[..j], IDAT) == 0;
      assert shorter[j].tag == PLTE && Count(shorter[..j], IDAT) == 0;
    }
    if PaletteBeforeData(shorter) {
      var j :| 0 <= j < |shorter| && shorter[j].tag == PLTE && Count(shorter[..j], IDAT) == 0;
      assert longer[j].tag == PLTE && Count(longer[..j], IDAT) == 0;
    }
    if cs[k].tag == PLTE && Count(cs[..k], IDAT) == 0 {
      assert longer[k].tag == PLTE && Count(longer[..k], IDAT) == 0;
    }
  }

  lemma {:induction false} ScanChunks(crc: Crc, cs: seq<Chunk>, k: nat)
    requires Bounded(cs) && k <= |BeforeEnd(cs)|
    requires |Datastream(crc, cs[..k])| <= |Datastream(crc, cs)|
    ensures ScanFrom(Datastream(crc, cs), |Datastream(crc, cs[..k])|, Count(cs[..k], ACTL) > 0, PaletteBeforeData(cs[..k]), Count(cs[..k], IDAT) > 0)
         == if HasEnd(cs) then Verdict(Count(BeforeEnd(cs), ACTL) > 0, PaletteBeforeData(BeforeEnd(cs))) else NotApng
    decreases |cs| - k
  {
    hide Encode, EncodeAll, ReadChunk, ReadU32, PaletteBeforeData, Count, BeforeEnd;
    if k == |cs| {
      assert cs[..k] == cs;
    } else {
      ChunkAt(crc, cs, k);
      PaletteGrows(cs, k);
      CountNext(cs, k, ACTL);
      CountNext(cs, k, IDAT);
      assert BeforeEnd(cs) == cs[..|BeforeEnd(cs)|];
      if k < |BeforeEnd(cs)| {
        assert cs[k] == BeforeEnd(cs)[k];
        CountsEach(BeforeEnd(cs), k, IEND);
        ScanChunks(crc, cs, k + 1);
      }
    }
  }

  /** On a datastream the scan answers by the chunks before the first IEND alone. */
  lemma ClassifyByChunks(crc: Crc, cs: seq<Chunk>)
    requires Bounded(cs) && |Datastream(crc, cs)| > 41
    ensures Classify(Datastream(crc, cs))
         == if HasEnd(cs) then Verdict(Count(BeforeEnd(cs), ACTL) > 0, PaletteBeforeData(BeforeEnd(cs))) else NotApng
  {
    assert cs[..0] == [];
    ScanChunks(crc, cs, 0);
  }

  /**
   A body the parser accepts is classified as an animation exactly when an IEND follows its acTL
   and no IEND precedes it; then it is a palette animation exactly when a PLTE comes before the
   first IDAT and before the first IEND.
   */
  lemma AcceptedIsClassified(crc: Crc, body: seq<Byte>, cs: seq<Chunk>)
    requires Parse(crc, body).Ok? && Bounded(cs) && body == Datastream(crc, cs)
    ensures Classify(body) != NotApng <==> HasEnd(cs) && Count(BeforeEnd(cs), ACTL) == 1
    ensures Classify(body) == Palette <==> HasEnd(cs) && Count(BeforeEnd(cs), ACTL) == 1 && PaletteBeforeData(BeforeEnd(cs))
  {
    hide Encode, EncodeAll, ReadChunk, ReadU32, PaletteBeforeData, Parse, Classify;
    AcceptedShape(crc, body, cs);
    ClassifyByChunks(crc, cs);
    CountPrefix(cs, |BeforeEnd(cs)|, ACTL);
    assert BeforeEnd(cs) == cs[..|BeforeEnd(cs)|];
  }

  lemma AcceptedShape(crc: Crc, body: seq<Byte>, cs: seq<Chunk>)
    requires Parse(crc, body).Ok? && Bounded(cs) && body == Datastream(crc, cs)
    ensures Count(cs, ACTL) == 1 && |body| > 41
  {
    hide Encode, EncodeAll, ReadChunk, ReadU32, Parse;
    AcceptedIsWellFormed(crc, body, cs);
    AcceptedIsLong(crc, cs, Parse(crc, body).value);
  }

  /** The usual case: the one IEND is the last chunk. */
  lemma ClassifierAgreesWithParser(crc: Crc, body: seq<Byte>, cs: seq<Chunk>)
    requires Parse(crc, body).Ok? && Bounded(cs) && body == Datastream(crc, cs)
    requires cs != [] && cs[|cs| - 1].tag == IEND && Count(cs, IEND) == 1
    ensures Classify(body) != NotApng
    ensures Classify(body) == Palette <==> PaletteBeforeData(cs)
  {
    hide Encode, EncodeAll, ReadChunk, ReadU32, PaletteBeforeData, Parse, Classify, HasEnd, Datastream;
    AcceptedShape(crc, body, cs);
    AcceptedIsClassified(crc, body, cs);
    EndIsLast(cs);
    var n := |cs| - 1;
    assert cs[..n + 1] == cs;
    PaletteGrows(cs, n);
  }

  /** What stands before the first IEND. */
  lemma FirstEnd(cs: seq<Chunk>, k: nat)
    requires k < |cs| && cs[k].tag == IEND && forall j | 0 <= j < k :: cs[j].tag != IEND
    ensures HasEnd(cs) && BeforeEnd(cs) == cs[..k]
  {
    var r := BeforeEnd(cs);
    if |r| > k {
      CountsEach(r, k, IEND);
    }
    assert r == cs[..|r|];
  }

  lemma EndIsLast(cs: seq<Chunk>)
    requires cs != [] && cs[|cs| - 1].tag == IEND && Count(cs, IEND) == 1
    ensures HasEnd(cs) && BeforeEnd(cs) == cs[..|cs| - 1]
  {
    var before, front := BeforeEnd(cs), cs[..|cs| - 1];
    if |before| < |front| {
      CountsEach(front, |before|, IEND);
    }
    assert before == cs[..|before|];
    assert cs[..|cs|] == cs;
  }

  /** An accepted body holds an IHDR of 25 bytes and an fcTL of 38, so it is never too short to classify. */
  lemma AcceptedIsLong(crc: Crc, cs: seq<Chunk>, d: Description)
    requires Bounded(cs) && WellFormed(cs, d)
    ensures |Datastream(crc, cs)| > 41
  {
    hide ReadU32, ReadU16, InsideCanvas, Encode;
    var k := Find(cs, FCTL);
    assert Placed(cs, k, d.defaultImageIsFrame);
    ChunkAt(crc, cs, k);
  }

  /** A type that is counted is somewhere. */
  lemma {:induction false} Find(cs: seq<Chunk>, tag: Word) returns (k: nat)
    requires Count(cs, tag) > 0
    ensures k < |cs| && cs[k].tag == tag
  {
    if cs[|cs| - 1].tag == tag {
      k := |cs| - 1;
    } else {
      k := Find(cs[..|cs| - 1], tag);
    }
  }

  // ----- what the scan means for any bytes at all

  /** Where the chunks of a body start, by their lengths alone; the last entry is where they end. */
  ghost predicate IsChain(body: seq<Byte>, at: seq<nat>) {
    && at != [] && at[0] == 8
    && forall i | 0 <= i < |at| - 1 ::
         && at[i] + 12 <= |body| && ReadU32(body, at[i]) <= 10 * 1024 * 1024
         && at[i + 1] == at[i] + 12 + ReadU32(body, at[i]) <= |body|
  }

  ghost predicate TagIs(body: seq<Byte>, at: seq<nat>, i: int, tag: Word) {
    0 <= i < |at| - 1 && at[i] + 8 <= |body| && ReadU32(body, at[i] + 4) == tag
  }

  /** The chunks up to the first IEND and with it. */
  ghost predicate IsChainToEnd(body: seq<Byte>, at: seq<nat>) {
    IsChain(body, at) && forall i | 0 <= i < |at| - 1 :: TagIs(body, at, i, IEND) <==> i == |at| - 2
  }

  ghost predicate HasTag(body: seq<Byte>, at: seq<nat>, n: int, tag: Word) {
    exists i :: i < n && TagIs(body, at, i, tag)
  }

  ghost predicate HasEarlyPalette(body: seq<Byte>, at: seq<nat>, n: int) {
    exists i :: i < n && TagIs(body, at, i, PLTE) && forall j | 0 <= j < i :: !TagIs(body, at, j, IDAT)
  }

  lemma OneMoreTag(body: seq<Byte>, at: seq<nat>, k: nat)
    requires IsChain(body, at) && k < |at| - 1
    ensures forall tag :: HasTag(body, at, k + 1, tag) <==> HasTag(body, at, k, tag) || TagIs(body, at, k, tag)
    ensures HasEarlyPalette(body, at, k + 1) <==> HasEarlyPalette(body, at, k) || (TagIs(body, at, k, PLTE) && !HasTag(body, at, k, IDAT))
  {
    hide ReadU32;
  }

  lemma {:induction false} ScanAlong(body: seq<Byte>, at: seq<nat>, k: nat)
    requires IsChainToEnd(body, at) && k < |at| - 1
    ensures ScanFrom(body, at[k], HasTag(body, at, k, ACTL), HasEarlyPalette(body, at, k), HasTag(body, at, k, IDAT))
         == Verdict(HasTag(body, at, |at| - 1, ACTL), HasEarlyPalette(body, at, |at| - 1))
    decreases |at| - k
  {
    hide ReadU32, HasTag, HasEarlyPalette, Verdict;
    OneMoreTag(body, at, k);
    assert TagIs(body, at, k, IEND) <==> k == |at| - 2;
    if k < |at| - 2 {
      ScanAlong(body, at, k + 1);
    }
  }

  lemma {:induction false} ScanReachesEnd(body: seq<Byte>, at: seq<nat>, animated: bool, palette: bool, imageData: bool) returns (all: seq<nat>)
    requires IsChain(body, at) && (forall i :: !TagIs(body, at, i, IEND)) && at[|at| - 1] <= |body|
    requires ScanFrom(body, at[|at| - 1], animated, palette, imageData) != NotApng
    ensures IsChainToEnd(body, all) && |all| > 1
    decreases |body| - at[|at| - 1]
  {
    hide ReadU32, Verdict;
    var offset := at[|at| - 1];
    var length, tag := ReadU32(body, offset), ReadU32(body, offset + 4);
    all := at + [offset + CHUNK_OVERHEAD + length];
    forall i | 0 <= i < |at| - 1
      ensures !TagIs(body, all, i, IEND)
    {
      assert !TagIs(body, at, i, IEND);
    }
    if tag != IEND {
      all := ScanReachesEnd(body, all, animated || tag == ACTL, palette || (tag == PLTE && !imageData), imageData || tag == IDAT);
    }
  }

  /**
   For any bytes: they are classified as an animation exactly when they are longer than 41, start with the signature and
   their lengths lead to an IEND with an acTL before it; as a palette one exactly when also a PLTE precedes the first IDAT there.
   */
  lemma ClassifiedExactly(body: seq<Byte>)
    ensures Classify(body) != NotApng <==>
            |body| > 41 && HasSignature(body) && exists at :: |at| > 1 && IsChainToEnd(body, at) && HasTag(body, at, |at| - 1, ACTL)
    ensures Classify(body) == Palette <==>
            && |body| > 41 && HasSignature(body)
            && exists at :: |at| > 1 && IsChainToEnd(body, at) && HasTag(body, at, |at| - 1, ACTL) && HasEarlyPalette(body, at, |at| - 1)
  {
    hide IsChainToEnd, ScanFrom, HasTag, HasEarlyPalette, IsChain;
    if |body| > 41 && HasSignature(body) {
      forall at | |at| > 1 && IsChainToEnd(body, at)
        ensures Classify(body) == Verdict(HasTag(body, at, |at| - 1, ACTL), HasEarlyPalette(body, at, |at| - 1))
      {
        NothingBefore(body, at);
        ScanAlong(body, at, 0);
      }
      if Classify(body) != NotApng {
        ChainStarts(body);
        var at := ScanReachesEnd(body, [8], false, false, false);
      }
    }
  }

  lemma ChainStarts(body: seq<Byte>)
    requires |body| > 41
    ensures IsChain(body, [8]) && forall i :: !TagIs(body, [8], i, IEND)
  {
  }

  lemma NothingBefore(body: seq<Byte>, at: seq<nat>)
    ensures forall tag :: !HasTag(body, at, 0, tag)
    ensures !HasEarlyPalette(body, at, 0)
    ensures IsChainToEnd(body, at) ==> at[0] == |SIGNATURE|
  {
  }
}
